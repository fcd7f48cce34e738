/** Plain JavaScript objects with string keys, as the list of their properties
    in insertion order (the order `Object.keys` and object spread visit them
    for non-numeric keys). */
module Objects {
  import opened Wrappers
  import opened Seqs

  type Object<V> = seq<(string, V)>

  /** `Object.keys(o)`. */
  function Keys<V(==)>(o: Object<V>): (ks: seq<string>)
    ensures |ks| == |o|
    ensures forall i :: 0 <= i < |o| ==> ks[i] == o[i].0
  {
    if o == [] then [] else [o[0].0] + Keys(o[1..])
  }

  /** A real object never holds the same key twice. */
  ghost predicate WellFormed<V>(o: Object<V>) {
    NoDups(Keys(o))
  }

  /** `o[k]`, with `None` for `undefined`. */
  function Get<V(==)>(o: Object<V>, k: string): (r: Option<V>)
    ensures r.None? <==> k !in Keys(o)
    ensures r.Some? ==> (k, r.value) in o
  {
    if o == [] then None
    else if o[0].0 == k then Some(o[0].1)
    else
      assert Keys(o) == [o[0].0] + Keys(o[1..]);
      Get(o[1..], k)
  }

  /** In a well-formed object every listed property is what `Get` finds. */
  lemma {:induction false} GetListed<V>(o: Object<V>, i: nat)
    requires WellFormed(o) && i < |o|
    ensures Get(o, o[i].0) == Some(o[i].1)
  {
    if i > 0 {
      assert Keys(o[1..]) == Keys(o)[1..];
      assert o[0].0 != o[i].0 by { assert Keys(o)[0] != Keys(o)[i]; }
      GetListed(o[1..], i - 1);
    }
  }

  /** `o[k] = v`: an existing key keeps its position, a new one goes last, and
      no other key changes. */
  function Set<V(==)>(o: Object<V>, k: string, v: V): (r: Object<V>)
    ensures Keys(r) == if k in Keys(o) then Keys(o) else Keys(o) + [k]
    ensures Get(r, k) == Some(v)
    ensures forall j :: j != k ==> Get(r, j) == Get(o, j)
    ensures WellFormed(o) ==> WellFormed(r)
  {
    var r := Assign(o, k, v);
    AssignKeys(o, k, v);
    AssignGet(o, k, v);
    assert Keys(r) == SetAdd(Keys(o), k);
    r
  }

  /** The property list after the assignment. */
  function Assign<V>(o: Object<V>, k: string, v: V): Object<V> {
    if o == [] then [(k, v)]
    else if o[0].0 == k then [(k, v)] + o[1..]
    else [o[0]] + Assign(o[1..], k, v)
  }

  lemma {:induction false} AssignKeys<V>(o: Object<V>, k: string, v: V)
    ensures Keys(Assign(o, k, v)) == if k in Keys(o) then Keys(o) else Keys(o) + [k]
  {
    if o != [] {
      var r := Assign(o, k, v);
      assert Keys(o) == [o[0].0] + Keys(o[1..]);
      assert Keys(r) == [r[0].0] + Keys(r[1..]);
      if o[0].0 != k {
        AssignKeys(o[1..], k, v);
      }
    }
  }

  lemma {:induction false} AssignGet<V>(o: Object<V>, k: string, v: V)
    ensures Get(Assign(o, k, v), k) == Some(v)
    ensures forall j :: j != k ==> Get(Assign(o, k, v), j) == Get(o, j)
  {
    if o != [] {
      var r := Assign(o, k, v);
      if o[0].0 == k {
        assert r[1..] == o[1..];
      } else {
        assert r[1..] == Assign(o[1..], k, v);
        AssignGet(o[1..], k, v);
      }
    }
  }

  /** `{...a, ...b}`: the properties of `b` assigned over `a`, in `b`'s order. */
  function Spread<V(==)>(a: Object<V>, b: Object<V>): (r: Object<V>)
    ensures IsPrefix(Keys(a), Keys(r))
    ensures WellFormed(a) ==> WellFormed(r)
    decreases |b|
  {
    if b == [] then a
    else
      var a' := Set(a, b[0].0, b[0].1);
      var r := Spread(a', b[1..]);
      PrefixTransitive(Keys(a), Keys(a'), Keys(r));
      r
  }

  /** In `{...a, ...b}` a key of `b` has `b`'s value and every other key has
      `a`'s. */
  lemma {:induction false} SpreadGet<V>(a: Object<V>, b: Object<V>)
    requires WellFormed(b)
    ensures forall k :: Get(Spread(a, b), k) == if k in Keys(b) then Get(b, k) else Get(a, k)
    decreases |b|
  {
    if b != [] {
      assert Keys(b[1..]) == Keys(b)[1..];
      var a' := Set(a, b[0].0, b[0].1);
      SpreadGet(a', b[1..]);
      assert Keys(b) == [b[0].0] + Keys(b[1..]);
      assert b[0].0 !in Keys(b[1..]);
      assert Get(b, b[0].0) == Some(b[0].1);
      assert forall k :: k != b[0].0 ==> Get(b, k) == Get(b[1..], k);
    }
  }

  /** `Set` with the value `Get` reports rewrites the first matching property
      with itself. */
  lemma {:induction false} SetCurrent<V>(o: Object<V>, k: string, v: V)
    requires Get(o, k) == Some(v)
    ensures Set(o, k, v) == o
  {
    if o != [] && o[0].0 != k {
      SetCurrent(o[1..], k, v);
    }
  }

  /** Spreading an object whose properties `o` already holds changes nothing. */
  lemma {:induction false} SpreadAgreeing<V>(o: Object<V>, b: Object<V>)
    requires WellFormed(b)
    requires forall k :: k in Keys(b) ==> Get(o, k) == Get(b, k)
    ensures Spread(o, b) == o
    decreases |b|
  {
    if b != [] {
      assert Keys(b[1..]) == Keys(b)[1..];
      assert Keys(b) == [b[0].0] + Keys(b[1..]);
      SetCurrent(o, b[0].0, b[0].1);
      forall k | k in Keys(b[1..])
        ensures Get(o, k) == Get(b[1..], k)
      {
        var j :| 0 <= j < |Keys(b[1..])| && Keys(b[1..])[j] == k;
        assert Keys(b)[j + 1] == k;
        assert k != b[0].0 by { assert Keys(b)[0] != Keys(b)[j + 1]; }
      }
      SpreadAgreeing(o, b[1..]);
    }
  }

  /** Spreading the same object twice is spreading it once. */
  lemma SpreadTwice<V>(a: Object<V>, b: Object<V>)
    requires WellFormed(b)
    ensures Spread(Spread(a, b), b) == Spread(a, b)
  {
    SpreadGet(a, b);
    SpreadAgreeing(Spread(a, b), b);
  }

  /** Assign every property of `c` over `d`, in `c`'s key order, the value
      for key `k` being `f` of what `d` holds for `k` and `c`'s value. */
  function AssignEach<V(==), W(==)>(d: Object<V>, c: Object<W>, f: (Option<V>, W) -> V): (r: Object<V>)
    ensures IsPrefix(Keys(d), Keys(r))
    ensures WellFormed(d) ==> WellFormed(r)
    decreases |c|
  {
    if c == [] then d
    else
      var d' := Set(d, c[0].0, f(Get(d, c[0].0), c[0].1));
      var r := AssignEach(d', c[1..], f);
      PrefixTransitive(Keys(d), Keys(d'), Keys(r));
      r
  }

  /** Key `t` of `r` is what assigning `c` over `d` through `f` gives it. */
  ghost predicate AssignedAt<V, W>(r: Object<V>, d: Object<V>, c: Object<W>, f: (Option<V>, W) -> V, t: string) {
    Get(r, t) == if t in Keys(c) then Some(f(Get(d, t), Get(c, t).value)) else Get(d, t)
  }

  /** Each key of `c` is assigned once, from `d`'s own value for it, and every
      other key keeps `d`'s value. */
  lemma {:induction false} AssignEachGet<V, W>(d: Object<V>, c: Object<W>, f: (Option<V>, W) -> V, t: string)
    requires WellFormed(c)
    ensures AssignedAt(AssignEach(d, c, f), d, c, f, t)
    decreases |c|
  {
    if c != [] {
      var name := c[0].0;
      var d' := Set(d, name, f(Get(d, name), c[0].1));
      var rest := c[1..];
      assert Keys(rest) == Keys(c)[1..];
      AssignEachGet(d', rest, f, t);
      if t == name {
        assert name !in Keys(rest);
        assert Get(c, t) == Some(c[0].1);
      } else {
        assert Get(d', t) == Get(d, t);
        assert Get(c, t) == Get(rest, t);
        assert t in Keys(c) <==> t in Keys(rest) by {
          assert Keys(c) == [name] + Keys(rest);
        }
      }
    }
  }

  /** Assigning a key an object lacks appends the property. */
  lemma {:induction false} SetNewKeyAppends<V>(o: Object<V>, k: string, v: V)
    requires k !in Keys(o)
    ensures Set(o, k, v) == o + [(k, v)]
  {
    AssignNewKey(o, k, v);
  }

  lemma {:induction false} AssignNewKey<V>(o: Object<V>, k: string, v: V)
    requires k !in Keys(o)
    ensures Assign(o, k, v) == o + [(k, v)]
  {
    if o != [] {
      assert Keys(o) == [o[0].0] + Keys(o[1..]);
      AssignNewKey(o[1..], k, v);
      assert o + [(k, v)] == [o[0]] + (o[1..] + [(k, v)]);
    }
  }
}
