/** The JavaScript built-ins that the path code leans on, on Dafny sequences:
    `Array.prototype.reverse`, `map` and `join`, and `String.prototype.split`; and
    `LastIndexOf`, which says where `split`'s last piece begins. */
module Builtins {

  /** `xs.reverse()`: the same elements, last one first. */
  function Reversed<T>(xs: seq<T>): (r: seq<T>)
    ensures |r| == |xs|
    ensures forall i :: 0 <= i < |xs| ==> r[i] == xs[|xs| - 1 - i]
  {
    seq(|xs|, i requires 0 <= i < |xs| => xs[|xs| - 1 - i])
  }

  /** `xs.map(f)` */
  function Map<A, B>(xs: seq<A>, f: A -> B): (r: seq<B>)
    ensures |r| == |xs|
    ensures forall i :: 0 <= i < |xs| ==> r[i] == f(xs[i])
  {
    seq(|xs|, i requires 0 <= i < |xs| => f(xs[i]))
  }

  /** Reversing twice gives the array back. */
  lemma ReversedTwice<T>(xs: seq<T>)
    ensures Reversed(Reversed(xs)) == xs
  {
  }

  /** Mapping a concatenation maps each part. */
  lemma MapAppend<A, B>(xs: seq<A>, ys: seq<A>, f: A -> B)
    ensures Map(xs + ys, f) == Map(xs, f) + Map(ys, f)
  {
  }

  /** `xs.join(sep)`: the pieces with `sep` between neighbours; the empty array joins to "". */
  function JoinWith(xs: seq<string>, sep: string): string
  {
    if |xs| == 0 then ""
    else if |xs| == 1 then xs[0]
    else JoinWith(xs[..|xs| - 1], sep) + sep + xs[|xs| - 1]
  }

  /** The index of the last `c` in `s`, or -1 when there is none: the position `Split`'s
      last piece follows, in terms of which `fileStem` and `extension` are stated. */
  function LastIndexOf(s: string, c: char): (k: int)
    ensures -1 <= k < |s|
    ensures k >= 0 ==> s[k] == c
    ensures forall j :: k < j < |s| ==> s[j] != c
  {
    if s == [] then -1
    else if s[|s| - 1] == c then |s| - 1
    else LastIndexOf(s[..|s| - 1], c)
  }

  /** No character of `s` is `c`. */
  predicate Avoids(s: string, c: char)
  {
    forall j :: 0 <= j < |s| ==> s[j] != c
  }

  /** `s.split(c)`: the maximal runs between occurrences of `c`, including empty ones;
      always at least one piece, no piece contains `c`, and the last piece is what follows
      the last `c`. */
  function Split(s: string, c: char): (r: seq<string>)
    ensures |r| >= 1
    ensures forall i :: 0 <= i < |r| ==> Avoids(r[i], c)
    ensures r[|r| - 1] == s[LastIndexOf(s, c) + 1..]
    decreases |s|
  {
    var k := LastIndexOf(s, c);
    var tail := s[k + 1..];
    assert Avoids(tail, c);
    if k < 0 then [tail]
    else
      var front := Split(s[..k], c);
      SnocAvoids(front, tail, c);
      front + [tail]
  }

  lemma SnocAvoids(xs: seq<string>, x: string, c: char)
    requires forall i :: 0 <= i < |xs| ==> Avoids(xs[i], c)
    requires Avoids(x, c)
    ensures forall i :: 0 <= i < |xs| + 1 ==> Avoids((xs + [x])[i], c)
    ensures (xs + [x])[|xs|] == x
  {
    var r := xs + [x];
    assert forall i :: 0 <= i < |xs| ==> r[i] == xs[i];
  }

  /** Splitting and joining with the same character gives the string back. */
  lemma {:induction false} JoinSplit(s: string, c: char)
    ensures JoinWith(Split(s, c), [c]) == s
    decreases |s|
  {
    var k := LastIndexOf(s, c);
    if k >= 0 {
      SplitAtLast(s, c, k);
      JoinSplit(s[..k], c);
      JoinSnoc(Split(s[..k], c), s[k + 1..], [c]);
      CutAt(s, c, k);
    }
  }

  lemma SplitAtLast(s: string, c: char, k: int)
    requires k == LastIndexOf(s, c) && k >= 0
    ensures Split(s, c) == Split(s[..k], c) + [s[k + 1..]]
  {
  }

  lemma CutAt(s: string, c: char, k: nat)
    requires k < |s| && s[k] == c
    ensures s == s[..k] + [c] + s[k + 1..]
  {
  }

  /** Joining one more piece appends the separator and that piece. */
  lemma JoinSnoc(xs: seq<string>, x: string, sep: string)
    requires |xs| >= 1
    ensures JoinWith(xs + [x], sep) == JoinWith(xs, sep) + sep + x
  {
    assert (xs + [x])[..|xs|] == xs;
  }

  /** Everything but the last piece of a split joins back to the text before the last `c`
      ("" when there is no `c`). */
  lemma SplitFront(s: string, c: char)
    ensures var r := Split(s, c); var k := LastIndexOf(s, c);
      JoinWith(r[..|r| - 1], [c]) == (if k < 0 then "" else s[..k])
  {
    var k := LastIndexOf(s, c);
    if k >= 0 {
      var r := Split(s, c);
      assert r[..|r| - 1] == Split(s[..k], c);
      JoinSplit(s[..k], c);
    }
  }
}
