/** Ruby's Hash as an insertion-ordered association list: assigning to an existing key replaces
    its value in place, a new key goes to the end. */
module OrderedMap {
  import opened Wrappers

  type OMap<K, V> = seq<(K, V)>

  function Keys<K, V>(m: OMap<K, V>): (ks: seq<K>)
    ensures |ks| == |m|
    ensures forall i | 0 <= i < |m| :: ks[i] == m[i].0
  {
    seq(|m|, i requires 0 <= i < |m| => m[i].0)
  }

  function Values<K, V>(m: OMap<K, V>): (vs: seq<V>)
    ensures |vs| == |m|
    ensures forall i | 0 <= i < |m| :: vs[i] == m[i].1
  {
    seq(|m|, i requires 0 <= i < |m| => m[i].1)
  }

  predicate Distinct<K(==)>(ks: seq<K>)
  {
    forall i, j | 0 <= i < j < |ks| :: ks[i] != ks[j]
  }

  /** Position of `k` among the keys, `|m|` when absent. */
  function Position<K(==), V>(m: OMap<K, V>, k: K): (i: nat)
    ensures i <= |m|
    ensures i < |m| ==> m[i].0 == k
    ensures forall j | 0 <= j < i :: m[j].0 != k
  {
    if |m| == 0 then 0
    else if m[0].0 == k then 0
    else 1 + Position(m[1..], k)
  }

  /** `hash[k]`: the value stored under `k`, if any. */
  function Get<K(==), V>(m: OMap<K, V>, k: K): (r: Option<V>)
    ensures r.Some? <==> k in Keys(m)
  {
    var i := Position(m, k);
    if i < |m| then Some(m[i].1) else None
  }

  /** `hash[k] = v`. */
  function Put<K(==), V>(m: OMap<K, V>, k: K, v: V): (r: OMap<K, V>)
    ensures k in Keys(m) ==> Keys(r) == Keys(m)
    ensures k !in Keys(m) ==> Keys(r) == Keys(m) + [k]
  {
    var i := Position(m, k);
    if i < |m| then m[i := (k, v)] else m + [(k, v)]
  }

  /** `Hash[pairs]`, or successive assignments: later pairs win, first positions stay. */
  function FromPairs<K(==), V>(ps: seq<(K, V)>): OMap<K, V>
  {
    if |ps| == 0 then [] else
      var last := ps[|ps| - 1];
      Put(FromPairs(ps[..|ps| - 1]), last.0, last.1)
  }

  /** Keys in the order of their first occurrence. */
  function Dedup<K(==)>(ks: seq<K>): seq<K>
  {
    if |ks| == 0 then [] else
      var prefix := ks[..|ks| - 1];
      Dedup(prefix) + (if ks[|ks| - 1] in prefix then [] else [ks[|ks| - 1]])
  }

  /** The value of the last pair with key `k`. */
  function LastValue<K(==), V>(ps: seq<(K, V)>, k: K): Option<V>
  {
    if |ps| == 0 then None
    else if ps[|ps| - 1].0 == k then Some(ps[|ps| - 1].1)
    else LastValue(ps[..|ps| - 1], k)
  }

  /** `Position` is the first index holding the key. */
  lemma PositionIs<K, V>(m: OMap<K, V>, k: K, p: nat)
    requires p <= |m|
    requires p < |m| ==> m[p].0 == k
    requires forall j | 0 <= j < p :: m[j].0 != k
    ensures Position(m, k) == p
  {
  }

  lemma GetPut<K, V>(m: OMap<K, V>, k: K, v: V, j: K)
    requires Distinct(Keys(m))
    ensures Get(Put(m, k, v), j) == if j == k then Some(v) else Get(m, j)
  {
    var i := Position(m, k);
    var r := Put(m, k, v);
    if j != k {
      var pj := Position(m, j);
      PositionIs(r, j, if pj == |m| then |r| else pj);
    } else if i == |m| {
      PositionIs(r, k, |m|);
    } else {
      PositionIs(r, k, i);
    }
  }

  lemma PutDistinct<K, V>(m: OMap<K, V>, k: K, v: V)
    requires Distinct(Keys(m))
    ensures Distinct(Keys(Put(m, k, v)))
  {
  }

  lemma {:induction false} DedupMembers<K>(ks: seq<K>, x: K)
    ensures x in Dedup(ks) <==> x in ks
  {
    if |ks| > 0 {
      var prefix := ks[..|ks| - 1];
      DedupMembers(prefix, x);
      assert ks == prefix + [ks[|ks| - 1]];
    }
  }

  lemma {:induction false} KeysPrefix<K, V>(ps: seq<(K, V)>)
    requires |ps| > 0
    ensures Keys(ps[..|ps| - 1]) == Keys(ps)[..|ps| - 1]
  {
  }

  /** The keys of `Hash[pairs]` are the distinct keys of the pairs, in first-occurrence order. */
  lemma {:induction false} FromPairsKeys<K, V>(ps: seq<(K, V)>)
    ensures Keys(FromPairs(ps)) == Dedup(Keys(ps))
    ensures Distinct(Keys(FromPairs(ps)))
  {
    if |ps| > 0 {
      var prefix := ps[..|ps| - 1];
      var last := ps[|ps| - 1];
      FromPairsKeys(prefix);
      KeysPrefix(ps);
      DedupMembers(Keys(prefix), last.0);
      PutDistinct(FromPairs(prefix), last.0, last.1);
    }
  }

  /** Looking a key up in `Hash[pairs]` gives the value of its last pair. */
  lemma {:induction false} FromPairsGet<K, V>(ps: seq<(K, V)>, k: K)
    ensures Get(FromPairs(ps), k) == LastValue(ps, k)
  {
    if |ps| > 0 {
      var prefix := ps[..|ps| - 1];
      FromPairsGet(prefix, k);
      FromPairsKeys(prefix);
      GetPut(FromPairs(prefix), ps[|ps| - 1].0, ps[|ps| - 1].1, k);
    }
  }

  /** Pairs with distinct keys make a hash equal to themselves. */
  lemma {:induction false} FromDistinctPairs<K, V>(ps: seq<(K, V)>)
    requires Distinct(Keys(ps))
    ensures FromPairs(ps) == ps
  {
    if |ps| > 0 {
      var prefix := ps[..|ps| - 1];
      FromDistinctPairs(prefix);
      assert ps[|ps| - 1].0 !in Keys(prefix);
      assert ps == prefix + [ps[|ps| - 1]];
    }
  }
}
