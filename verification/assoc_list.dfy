/** Ordered association lists: a sequence of (key, value) entries kept in
    insertion order, the way a JavaScript object keeps its string-keyed
    properties. */
module AssocList {
  import opened Wrappers

  /** Entries in insertion order. */
  type Entries<K, V> = seq<(K, V)>

  /** The keys of `p`, in order. */
  function Keys<K, V>(p: Entries<K, V>): (ks: seq<K>)
    ensures |ks| == |p|
    decreases |p|
  {
    if |p| == 0 then [] else [p[0].0] + Keys(p[1..])
  }

  /** No key occurs twice. */
  predicate UniqueKeys<K(==), V>(p: Entries<K, V>)
    decreases |p|
  {
    |p| == 0 || (p[0].0 !in Keys(p[1..]) && UniqueKeys(p[1..]))
  }

  /** The value stored under `k`, if any (the first match; with unique keys,
      the only one). */
  function Get<K(==), V>(p: Entries<K, V>, k: K): (r: Option<V>)
    decreases |p|
  {
    if |p| == 0 then None
    else if p[0].0 == k then Some(p[0].1)
    else Get(p[1..], k)
  }

  /** Lookup finds a value exactly for the keys that occur. */
  lemma {:induction false} GetNone<K, V>(p: Entries<K, V>, k: K)
    ensures Get(p, k).None? <==> k !in Keys(p)
    decreases |p|
  {
    if |p| > 0 {
      KeysCons(p[0], p[1..]);
      assert p == [p[0]] + p[1..];
      GetNone(p[1..], k);
    }
  }

  /** The finite map the entries denote once their order is forgotten. */
  function ToMap<K(==,!new), V>(p: Entries<K, V>): (m: map<K, V>)
    ensures forall k :: k in m <==> k in Keys(p)
  {
    map k | k in Keys(p) :: GetNone(p, k); Get(p, k).value
  }

  /** [[Set]] of key `k` to `v` on an ordinary object: an existing entry keeps
      its position and takes the new value; a new entry is appended after
      all existing ones. */
  function Put<K(==), V>(p: Entries<K, V>, k: K, v: V): (r: Entries<K, V>)
    ensures Keys(r) == if k in Keys(p) then Keys(p) else Keys(p) + [k]
    decreases |p|
  {
    if |p| == 0 then [(k, v)]
    else if p[0].0 == k then
      KeysCons((k, v), p[1..]);
      [(k, v)] + p[1..]
    else
      KeysCons(p[0], Put(p[1..], k, v));
      [p[0]] + Put(p[1..], k, v)
  }

  /** The entries of `p` whose key is not among `names`, in their order. */
  function Without<K(==), V>(p: Entries<K, V>, names: seq<K>): (r: Entries<K, V>)
    decreases |p|
  {
    if |p| == 0 then []
    else if p[0].0 in names then Without(p[1..], names)
    else [p[0]] + Without(p[1..], names)
  }

  /** Copies the entries of `from`, in order, onto `into` with Put. */
  function CopyProps<K(==), V>(into: Entries<K, V>, from: Entries<K, V>): (r: Entries<K, V>)
    decreases |from|
  {
    if |from| == 0 then into
    else CopyProps(Put(into, from[0].0, from[0].1), from[1..])
  }

  // Keys, lookup and uniqueness.

  lemma KeysCons<K, V>(e: (K, V), p: Entries<K, V>)
    ensures Keys([e] + p) == [e.0] + Keys(p)
  {
  }

  lemma {:induction false} KeysAppend<K, V>(p: Entries<K, V>, q: Entries<K, V>)
    ensures Keys(p + q) == Keys(p) + Keys(q)
    decreases |p|
  {
    if |p| == 0 {
      assert p + q == q;
    } else {
      assert (p + q)[1..] == p[1..] + q;
      KeysAppend(p[1..], q);
    }
  }

  /** The key of every entry of `p` is among Keys(p). */
  lemma {:induction false} KeysMember<K, V>(p: Entries<K, V>, e: (K, V))
    requires e in p
    ensures e.0 in Keys(p)
    decreases |p|
  {
    if p[0] != e {
      KeysMember(p[1..], e);
    }
  }

  /** A found value is stored in an entry under the key looked up. */
  lemma {:induction false} GetMember<K, V>(p: Entries<K, V>, k: K)
    requires Get(p, k).Some?
    ensures (k, Get(p, k).value) in p
    decreases |p|
  {
    if p[0].0 != k {
      GetMember(p[1..], k);
    }
  }

  /** With unique keys, every entry is what lookup finds under its key. */
  lemma {:induction false} GetEntry<K, V>(p: Entries<K, V>, e: (K, V))
    requires UniqueKeys(p)
    requires e in p
    ensures Get(p, e.0) == Some(e.1)
    decreases |p|
  {
    if p[0] != e {
      KeysMember(p[1..], e);
      GetEntry(p[1..], e);
    }
  }

  /** Looking up a key in a concatenation searches the left part first. */
  lemma {:induction false} GetAppend<K, V>(p: Entries<K, V>, q: Entries<K, V>, k: K)
    ensures Get(p + q, k) == if k in Keys(p) then Get(p, k) else Get(q, k)
    decreases |p|
  {
    if |p| == 0 {
      assert p + q == q;
    } else {
      assert (p + q)[1..] == p[1..] + q;
      GetAppend(p[1..], q, k);
    }
  }

  /** Two entry lists with unique keys, the same keys in the same order and
      the same value under every key are the same list. */
  lemma {:induction false} Extensional<K, V>(p: Entries<K, V>, q: Entries<K, V>)
    requires UniqueKeys(p) && UniqueKeys(q)
    requires Keys(p) == Keys(q)
    requires forall k :: Get(p, k) == Get(q, k)
    ensures p == q
    decreases |p|
  {
    if |p| > 0 {
      assert Keys(p)[0] == p[0].0 && Keys(q)[0] == q[0].0;
      assert Get(p, p[0].0) == Some(p[0].1) && Get(q, q[0].0) == Some(q[0].1);
      assert Keys(p[1..]) == Keys(p)[1..] == Keys(q)[1..] == Keys(q[1..]);
      forall k
        ensures Get(p[1..], k) == Get(q[1..], k)
      {
        assert Get(p, k) == Get(q, k);
        GetNone(p[1..], k);
        GetNone(q[1..], k);
      }
      Extensional(p[1..], q[1..]);
      assert p == [p[0]] + p[1..] && q == [q[0]] + q[1..];
    }
  }

  /** Two unique-keyed lists with no key in common concatenate to a
      unique-keyed list. */
  lemma {:induction false} UniqueAppend<K, V>(p: Entries<K, V>, q: Entries<K, V>)
    requires UniqueKeys(p) && UniqueKeys(q)
    requires forall k :: k in Keys(p) ==> k !in Keys(q)
    ensures UniqueKeys(p + q)
    decreases |p|
  {
    if |p| == 0 {
      assert p + q == q;
    } else {
      assert (p + q)[1..] == p[1..] + q;
      KeysAppend(p[1..], q);
      UniqueAppend(p[1..], q);
    }
  }

  /** Uniqueness depends only on the sequence of keys. */
  lemma {:induction false} UniqueSameKeys<K, V>(p: Entries<K, V>, q: Entries<K, V>)
    requires UniqueKeys(p)
    requires Keys(p) == Keys(q)
    ensures UniqueKeys(q)
    decreases |p|
  {
    if |p| > 0 {
      assert Keys(p)[1..] == Keys(p[1..]) && Keys(q)[1..] == Keys(q[1..]);
      assert Keys(p)[0] == p[0].0 && Keys(q)[0] == q[0].0;
      UniqueSameKeys(p[1..], q[1..]);
    }
  }

  // Put.

  /** After Put, `k` holds `v` and every other key is unaffected. */
  lemma {:induction false} PutGet<K, V>(p: Entries<K, V>, k: K, v: V, k': K)
    ensures Get(Put(p, k, v), k') == if k' == k then Some(v) else Get(p, k')
    decreases |p|
  {
    if |p| > 0 {
      var r := Put(p, k, v);
      if p[0].0 == k {
        assert r[1..] == p[1..];
      } else {
        assert r[0] == p[0] && r[1..] == Put(p[1..], k, v);
        PutGet(p[1..], k, v, k');
      }
    }
  }

  /** Put never introduces a repeated key. */
  lemma {:induction false} PutUnique<K, V>(p: Entries<K, V>, k: K, v: V)
    requires UniqueKeys(p)
    ensures UniqueKeys(Put(p, k, v))
    decreases |p|
  {
    if |p| > 0 {
      var r := Put(p, k, v);
      if p[0].0 == k {
        assert r[0] == (k, v) && r[1..] == p[1..];
      } else {
        assert r[0] == p[0] && r[1..] == Put(p[1..], k, v);
        PutUnique(p[1..], k, v);
      }
    }
  }

  /** Put keeps the entries it does not overwrite and adds only (k, v). */
  lemma {:induction false} PutMember<K, V>(p: Entries<K, V>, k: K, v: V, e: (K, V))
    requires e in Put(p, k, v)
    ensures e == (k, v) || e in p
    decreases |p|
  {
    if |p| > 0 && p[0].0 != k && e != p[0] {
      PutMember(p[1..], k, v, e);
    }
  }

  // Without.

  /** Filtering keeps only keys `p` has and `names` lacks. */
  lemma {:induction false} WithoutKeys<K, V>(p: Entries<K, V>, names: seq<K>, k: K)
    requires k in Keys(Without(p, names))
    ensures k in Keys(p) && k !in names
    decreases |p|
  {
    if p[0].0 in names || k != p[0].0 {
      WithoutKeys(p[1..], names, k);
    }
  }

  lemma {:induction false} WithoutUnique<K, V>(p: Entries<K, V>, names: seq<K>)
    requires UniqueKeys(p)
    ensures UniqueKeys(Without(p, names))
    decreases |p|
  {
    if |p| > 0 {
      WithoutUnique(p[1..], names);
      if p[0].0 !in names && p[0].0 in Keys(Without(p[1..], names)) {
        WithoutKeys(p[1..], names, p[0].0);
      }
    }
  }

  lemma {:induction false} WithoutGet<K, V>(p: Entries<K, V>, names: seq<K>, k: K)
    ensures Get(Without(p, names), k) == if k in names then None else Get(p, k)
    decreases |p|
  {
    if |p| > 0 {
      WithoutGet(p[1..], names, k);
    }
  }

  /** Filtering out keys that do not occur in `p` leaves `p` unchanged. */
  lemma {:induction false} WithoutNothing<K, V>(p: Entries<K, V>, names: seq<K>)
    requires forall k :: k in Keys(p) ==> k !in names
    ensures Without(p, names) == p
    decreases |p|
  {
    if |p| > 0 {
      WithoutNothing(p[1..], names);
      assert p == [p[0]] + p[1..];
    }
  }

  /** Filtering out every key of `p` leaves nothing. */
  lemma {:induction false} WithoutAll<K, V>(p: Entries<K, V>, names: seq<K>)
    requires forall k :: k in Keys(p) ==> k in names
    ensures Without(p, names) == []
    decreases |p|
  {
    if |p| > 0 {
      WithoutAll(p[1..], names);
    }
  }

  /** A key that is not in `p` makes no difference to what is filtered out. */
  lemma {:induction false} WithoutExtraName<K, V>(p: Entries<K, V>, names: seq<K>, k: K)
    requires k !in Keys(p)
    ensures Without(p, names + [k]) == Without(p, names)
    decreases |p|
  {
    if |p| > 0 {
      WithoutExtraName(p[1..], names, k);
    }
  }

  lemma {:induction false} WithoutAppend<K, V>(p: Entries<K, V>, q: Entries<K, V>, names: seq<K>)
    ensures Without(p + q, names) == Without(p, names) + Without(q, names)
    decreases |p|
  {
    if |p| == 0 {
      assert p + q == q;
    } else {
      assert (p + q)[0] == p[0];
      assert (p + q)[1..] == p[1..] + q;
      WithoutAppend(p[1..], q, names);
    }
  }

  /** Filtering keeps only entries of `p`. */
  lemma {:induction false} WithoutMember<K, V>(p: Entries<K, V>, names: seq<K>, e: (K, V))
    requires e in Without(p, names)
    ensures e in p
    decreases |p|
  {
    if p[0].0 in names || e != p[0] {
      WithoutMember(p[1..], names, e);
    }
  }

  /** Which keys survive filtering depends only on the sequence of keys. */
  lemma {:induction false} WithoutSameKeys<K, V>(p: Entries<K, V>, q: Entries<K, V>, names: seq<K>)
    requires Keys(p) == Keys(q)
    ensures Keys(Without(p, names)) == Keys(Without(q, names))
    decreases |p|
  {
    if |p| > 0 {
      assert Keys(p)[1..] == Keys(p[1..]) && Keys(q)[1..] == Keys(q[1..]);
      assert Keys(p)[0] == p[0].0 && Keys(q)[0] == q[0].0;
      WithoutSameKeys(p[1..], q[1..], names);
      if p[0].0 !in names {
        KeysCons(p[0], Without(p[1..], names));
        KeysCons(q[0], Without(q[1..], names));
      }
    }
  }

  // CopyProps.

  /** One Put step of CopyPropsKeys: putting a key that `rest` does not have
      and then filtering `rest` against the new keys is the same as filtering
      the longer list against the old keys. */
  // A single step, not an induction proof; automatic induction is switched
  // off because it only slows the solver down here.
  lemma {:induction false} PutThenWithout<K, V>(into: Entries<K, V>, k: K, v: V, rest: Entries<K, V>)
    requires k !in Keys(rest)
    ensures Keys(Put(into, k, v)) + Keys(Without(rest, Keys(Put(into, k, v)))) ==
      Keys(into) + Keys(Without([(k, v)] + rest, Keys(into)))
  {
    assert ([(k, v)] + rest)[1..] == rest;
    if k !in Keys(into) {
      var tail := Without(rest, Keys(into));
      WithoutExtraName(rest, Keys(into), k);
      KeysCons((k, v), tail);
    }
  }

  /** Copying keeps the keys of `into` in place and appends the new keys of
      `from` in the order `from` has them. */
  lemma {:induction false} CopyPropsKeys<K, V>(into: Entries<K, V>, from: Entries<K, V>)
    requires UniqueKeys(from)
    ensures Keys(CopyProps(into, from)) == Keys(into) + Keys(Without(from, Keys(into)))
    decreases |from|
  {
    if |from| > 0 {
      var k, v, rest := from[0].0, from[0].1, from[1..];
      CopyPropsKeys(Put(into, k, v), rest);
      PutThenWithout(into, k, v, rest);
      assert from == [(k, v)] + rest;
    }
  }

  /** After copying, a key of `from` holds `from`'s value and every other key
      keeps the value it had in `into`. */
  lemma {:induction false} CopyPropsGet<K, V>(into: Entries<K, V>, from: Entries<K, V>, k: K)
    requires UniqueKeys(from)
    ensures Get(CopyProps(into, from), k) ==
      if k in Keys(from) then Get(from, k) else Get(into, k)
    decreases |from|
  {
    if |from| > 0 {
      var k0, v0, rest := from[0].0, from[0].1, from[1..];
      CopyPropsGet(Put(into, k0, v0), rest, k);
      PutGet(into, k0, v0, k);
    }
  }

  /** Copying never introduces a repeated key. */
  lemma {:induction false} CopyPropsUnique<K, V>(into: Entries<K, V>, from: Entries<K, V>)
    requires UniqueKeys(into)
    ensures UniqueKeys(CopyProps(into, from))
    decreases |from|
  {
    if |from| > 0 {
      PutUnique(into, from[0].0, from[0].1);
      CopyPropsUnique(Put(into, from[0].0, from[0].1), from[1..]);
    }
  }

  /** Every copied entry comes from `into` or from `from`. */
  lemma {:induction false} CopyPropsMember<K, V>(into: Entries<K, V>, from: Entries<K, V>, e: (K, V))
    requires e in CopyProps(into, from)
    ensures e in into || e in from
    decreases |from|
  {
    if |from| > 0 {
      var into' := Put(into, from[0].0, from[0].1);
      CopyPropsMember(into', from[1..], e);
      if e in into' {
        PutMember(into, from[0].0, from[0].1, e);
      }
    }
  }

  /** Copying a unique-keyed list onto an empty list rebuilds it exactly. */
  lemma CopyIntoEmpty<K, V>(p: Entries<K, V>)
    requires UniqueKeys(p)
    ensures CopyProps([], p) == p
  {
    CopyPropsKeys([], p);
    WithoutNothing(p, []);
    CopyPropsUnique([], p);
    forall k
      ensures Get(CopyProps([], p), k) == Get(p, k)
    {
      CopyPropsGet([], p, k);
      GetNone(p, k);
    }
    Extensional(CopyProps([], p), p);
  }

  /** Copying the result of a copy back onto the original receiver `into`
      changes nothing: the copied entries already hold their values there. */
  lemma CopyPropsIdempotent<K, V>(into: Entries<K, V>, from: Entries<K, V>)
    requires UniqueKeys(into) && UniqueKeys(from)
    ensures CopyProps(into, CopyProps(into, from)) == CopyProps(into, from)
  {
    var r := CopyProps(into, from);
    var added := Without(from, Keys(into));
    assert Keys(r) == Keys(into) + Keys(added) by {
      CopyPropsKeys(into, from);
    }
    assert UniqueKeys(r) by {
      CopyPropsUnique(into, from);
    }
    assert Keys(Without(r, Keys(into))) == Keys(added) by {
      KeysAppend(into, added);
      WithoutSameKeys(r, into + added, Keys(into));
      WithoutAppend(into, added, Keys(into));
      WithoutAll(into, Keys(into));
      forall k | k in Keys(added)
        ensures k !in Keys(into)
      {
        WithoutKeys(from, Keys(into), k);
      }
      WithoutNothing(added, Keys(into));
      assert [] + added == added;
    }
    assert Keys(CopyProps(into, r)) == Keys(r) by {
      CopyPropsKeys(into, r);
    }
    assert UniqueKeys(CopyProps(into, r)) by {
      CopyPropsUnique(into, r);
    }
    forall k
      ensures Get(CopyProps(into, r), k) == Get(r, k)
    {
      CopyPropsGet(into, r, k);
      GetNone(into, k);
      GetNone(r, k);
    }
    Extensional(CopyProps(into, r), r);
  }
}
