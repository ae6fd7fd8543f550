/** Python dictionaries with string keys: ordered by insertion, each key at most once. */
module Dicts {
  import opened Wrappers

  type Dict<V> = seq<(string, V)>

  function Keys<V>(d: Dict<V>): (r: seq<string>)
    ensures |r| == |d|
    ensures forall i :: 0 <= i < |d| ==> r[i] == d[i].0
  {
    if d == [] then [] else [d[0].0] + Keys(d[1..])
  }

  predicate Distinct(s: seq<string>)
  {
    forall i, j :: 0 <= i < j < |s| ==> s[i] != s[j]
  }

  /** A well-formed dictionary: no key twice. */
  predicate DistinctKeys<V>(d: Dict<V>)
  {
    Distinct(Keys(d))
  }

  /** d.get(k): the value stored under k, if any. */
  function Get<V>(d: Dict<V>, k: string): (r: Option<V>)
    ensures r.Some? <==> k in Keys(d)
    ensures forall i :: 0 <= i < |d| && d[i].0 == k && (forall j :: 0 <= j < i ==> d[j].0 != k) ==> r == Some(d[i].1)
  {
    if d == [] then None
    else if d[0].0 == k then Some(d[0].1)
    else
      var r := Get(d[1..], k);
      assert forall i :: 1 <= i < |d| ==> d[1..][i - 1] == d[i];
      r
  }

  /** In a dictionary without repeated keys, the value under d[i]'s key is d[i]'s value. */
  lemma GetAt<V>(d: Dict<V>, i: int)
    requires DistinctKeys(d) && 0 <= i < |d|
    ensures Get(d, d[i].0) == Some(d[i].1)
  {
    assert forall j :: 0 <= j < i ==> Keys(d)[j] != Keys(d)[i];
  }

  /** d[k] = v: an existing key keeps its position, a new key goes last. */
  function Set<V>(d: Dict<V>, k: string, v: V): (r: Dict<V>)
    ensures Keys(r) == if k in Keys(d) then Keys(d) else Keys(d) + [k]
  {
    if d == [] then [(k, v)]
    else if d[0].0 == k then [(k, v)] + d[1..]
    else
      var rest := Set(d[1..], k, v);
      assert Keys([d[0]] + rest) == [d[0].0] + Keys(rest);
      assert Keys(d) == [d[0].0] + Keys(d[1..]);
      [d[0]] + rest
  }

  /** After d[k] = v, k maps to v and every other key keeps its value. */
  lemma {:induction false} SetGet<V>(d: Dict<V>, k: string, v: V, k': string)
    ensures Get(Set(d, k, v), k') == if k' == k then Some(v) else Get(d, k')
  {
    if d != [] && d[0].0 != k {
      SetGet(d[1..], k, v, k');
    }
  }

  /** d[k] = v never introduces a repeated key. */
  lemma SetDistinct<V>(d: Dict<V>, k: string, v: V)
    ensures DistinctKeys(d) ==> DistinctKeys(Set(d, k, v))
  {
  }

  /** In a dictionary without repeated keys, d[k] = v on a present key replaces that entry in place. */
  lemma {:induction false} SetAt<V>(d: Dict<V>, k: string, v: V)
    requires DistinctKeys(d) && k in Keys(d)
    ensures |Set(d, k, v)| == |d|
    ensures forall j :: 0 <= j < |d| ==> Set(d, k, v)[j] == if d[j].0 == k then (k, v) else d[j]
  {
    if d[0].0 != k {
      assert Keys(d) == [d[0].0] + Keys(d[1..]);
      DistinctTail(d);
      SetAt(d[1..], k, v);
    } else {
      DistinctTail(d);
      assert forall j :: 1 <= j < |d| ==> d[j].0 == Keys(d[1..])[j - 1];
    }
  }

  /** The keys of ks that are not in old, in the order of ks. */
  function Fresh(ks: seq<string>, old_: seq<string>): seq<string>
  {
    if ks == [] then []
    else if ks[0] in old_ then Fresh(ks[1..], old_)
    else [ks[0]] + Fresh(ks[1..], old_)
  }

  /** d.update(e): every entry of e is set into d, in e's order. */
  function Update<V>(d: Dict<V>, e: Dict<V>): Dict<V>
    decreases |e|
  {
    if e == [] then d else Update(Set(d, e[0].0, e[0].1), e[1..])
  }

  /** The keys after d.update(e): d's keys, then e's new keys in e's order. */
  lemma {:induction false} UpdateKeys<V>(d: Dict<V>, e: Dict<V>)
    requires DistinctKeys(e)
    ensures Keys(Update(d, e)) == Keys(d) + Fresh(Keys(e), Keys(d))
    decreases |e|
  {
    if e != [] {
      var d1 := Set(d, e[0].0, e[0].1);
      DistinctTail(e);
      UpdateKeys(d1, e[1..]);
      assert Keys(e) == [e[0].0] + Keys(e[1..]);
      FreshStep(e[0].0, Keys(e[1..]), Keys(d));
    }
  }

  /** Fresh over k :: ks, when k does not occur again in ks. */
  lemma FreshStep(k: string, ks: seq<string>, old_: seq<string>)
    requires k !in ks
    ensures (if k in old_ then old_ else old_ + [k]) + Fresh(ks, if k in old_ then old_ else old_ + [k])
            == old_ + Fresh([k] + ks, old_)
  {
    assert ([k] + ks)[1..] == ks;
    if k !in old_ {
      FreshSkip(ks, old_, k);
    }
  }

  /** After d.update(e), e's keys map to e's values and all other keys keep d's. */
  lemma {:induction false} UpdateGet<V>(d: Dict<V>, e: Dict<V>, k: string)
    requires DistinctKeys(e)
    ensures Get(Update(d, e), k) == if k in Keys(e) then Get(e, k) else Get(d, k)
    decreases |e|
  {
    if e != [] {
      var d1 := Set(d, e[0].0, e[0].1);
      DistinctTail(e);
      UpdateGet(d1, e[1..], k);
      SetGet(d, e[0].0, e[0].1, k);
      assert Keys(e) == [e[0].0] + Keys(e[1..]);
    }
  }

  /** d.update(e) keeps a dictionary free of repeated keys. */
  lemma {:induction false} UpdateDistinct<V>(d: Dict<V>, e: Dict<V>)
    requires DistinctKeys(d)
    ensures DistinctKeys(Update(d, e))
    decreases |e|
  {
    if e != [] {
      SetDistinct(d, e[0].0, e[0].1);
      UpdateDistinct(Set(d, e[0].0, e[0].1), e[1..]);
    }
  }

  lemma DistinctTail<V>(e: Dict<V>)
    requires e != []
    ensures DistinctKeys(e) ==> DistinctKeys(e[1..]) && e[0].0 !in Keys(e[1..])
  {
    assert forall i :: 0 <= i < |e[1..]| ==> Keys(e[1..])[i] == Keys(e)[i + 1];
  }

  /** A key that ks does not contain makes no difference to Fresh. */
  lemma {:induction false} FreshSkip(ks: seq<string>, old_: seq<string>, k: string)
    ensures k !in ks ==> Fresh(ks, old_ + [k]) == Fresh(ks, old_)
  {
    if ks != [] && k !in ks {
      FreshSkip(ks[1..], old_, k);
    }
  }
}
