/** Sequence helpers shared by the model: duplicate freedom, first-occurrence
    de-duplication (the behaviour of `if (!list.includes(x)) list.push(x)`),
    insertion-ordered sets (JavaScript `Set`) and flattening of nested lists. */
module Seqs {

  /** No element occurs twice. */
  ghost predicate NoDups<T>(s: seq<T>) {
    forall i, j :: 0 <= i < j < |s| ==> s[i] != s[j]
  }

  /** `p` is a prefix of `s`: everything already in a list survives later pushes. */
  predicate IsPrefix<T(==)>(p: seq<T>, s: seq<T>) {
    |p| <= |s| && s[..|p|] == p
  }

  /** Index of the first occurrence of `x` in `s`. */
  function IndexOf<T(==)>(s: seq<T>, x: T): (i: nat)
    requires x in s
    ensures i < |s| && s[i] == x
    ensures forall j :: 0 <= j < i ==> s[j] != x
  {
    if s[0] == x then 0 else 1 + IndexOf(s[1..], x)
  }

  /** `Set.prototype.add` on an insertion-ordered set kept as a list. */
  function SetAdd<T(==,!new)>(s: seq<T>, x: T): (r: seq<T>)
    ensures NoDups(s) ==> NoDups(r)
    ensures IsPrefix(s, r)
    ensures forall y :: y in r <==> y in s || y == x
    ensures x in s ==> r == s
    ensures x !in s ==> |r| == |s| + 1 && r[|s|] == x
  {
    if x in s then s else s + [x]
  }

  /** Keeps the first occurrence of every element, in order of first occurrence. */
  function Dedup<T(==,!new)>(xs: seq<T>): (r: seq<T>)
    ensures NoDups(r)
    ensures forall x :: x in r <==> x in xs
    ensures |r| <= |xs|
    decreases |xs|
  {
    if xs == [] then []
    else
      var d := Dedup(xs[..|xs| - 1]);
      if xs[|xs| - 1] in d then d else d + [xs[|xs| - 1]]
  }

  /** Appending one element to the input either leaves the result unchanged
      (the element was seen before) or appends it once. */
  lemma DedupSnoc<T(!new)>(xs: seq<T>, y: T)
    ensures Dedup(xs + [y]) == if y in xs then Dedup(xs) else Dedup(xs) + [y]
  {
    assert (xs + [y])[..|xs + [y]| - 1] == xs;
  }

  lemma IndexOfSnoc<T>(xs: seq<T>, y: T, x: T)
    requires x in xs
    ensures IndexOf(xs + [y], x) == IndexOf(xs, x)
  {
    var i := IndexOf(xs, x);
    var k := IndexOf(xs + [y], x);
    assert (xs + [y])[i] == x;
    assert forall j :: 0 <= j < i ==> (xs + [y])[j] == xs[j];
  }

  /** De-duplication preserves the order of first occurrences. */
  lemma {:induction false} DedupKeepsFirstOccurrenceOrder<T(!new)>(xs: seq<T>)
    ensures forall i, j :: 0 <= i < j < |Dedup(xs)| ==>
      IndexOf(xs, Dedup(xs)[i]) < IndexOf(xs, Dedup(xs)[j])
    decreases |xs|
  {
    if xs != [] {
      var init := xs[..|xs| - 1];
      var y := xs[|xs| - 1];
      assert xs == init + [y];
      DedupKeepsFirstOccurrenceOrder(init);
      DedupSnoc(init, y);
      var d := Dedup(init);
      forall x | x in d
        ensures IndexOf(xs, x) == IndexOf(init, x)
      {
        IndexOfSnoc(init, y, x);
      }
      if y !in init {
        forall x | x in d
          ensures IndexOf(xs, x) < IndexOf(xs, y)
        {
          assert IndexOf(xs, x) < |init|;
          assert IndexOf(xs, y) == |init|;
        }
      }
    }
  }

  /** Concatenation of a list of lists, in order. */
  function Flatten<T(!new)>(gs: seq<seq<T>>): (r: seq<T>)
    ensures forall x :: x in r <==> exists i :: 0 <= i < |gs| && x in gs[i]
    decreases |gs|
  {
    if gs == [] then []
    else Flatten(gs[..|gs| - 1]) + gs[|gs| - 1]
  }

  lemma FlattenSnoc<T(!new)>(gs: seq<seq<T>>, g: seq<T>)
    ensures Flatten(gs + [g]) == Flatten(gs) + g
  {
    assert (gs + [g])[..|gs + [g]| - 1] == gs;
  }

  lemma PrefixTransitive<T>(a: seq<T>, b: seq<T>, c: seq<T>)
    requires IsPrefix(a, b) && IsPrefix(b, c)
    ensures IsPrefix(a, c)
  {
    assert c[..|a|] == c[..|b|][..|a|];
  }

  /** A subset is no larger, and a proper subset is smaller. */
  lemma SubsetCardinality<T>(a: set<T>, b: set<T>)
    requires a <= b
    ensures |a| <= |b|
    ensures a < b ==> |a| < |b|
  {
    var d := b - a;
    assert b == a + d;
    assert a * d == {};
    if a < b {
      var x :| x in b && x !in a;
      assert x in d;
    }
  }
}
