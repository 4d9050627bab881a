/** String-keyed records that keep insertion order, as a JavaScript object
    such as `Record<string, string>` does: spreading and assigning a key that is
    present replaces its value where it stands, assigning a new key appends it,
    and `delete` takes the key out. */
module Records {
  import opened Wrappers

  /** The key of the entry at position `i`. */
  function KeyAt<V>(r: seq<(string, V)>, i: nat): string
    requires i < |r|
  {
    r[i].0
  }

  predicate DistinctKeys<V>(r: seq<(string, V)>) {
    forall i, j :: 0 <= i < j < |r| ==> KeyAt(r, i) != KeyAt(r, j)
  }

  /** The keys of a record are pairwise different. */
  lemma KeysDistinct<V>(r: Record<V>)
    ensures forall i, j :: 0 <= i < j < |r| ==> Keys(r)[i] != Keys(r)[j]
  {
    forall i, j | 0 <= i < j < |r|
      ensures Keys(r)[i] != Keys(r)[j]
    {
      DistinctAt(r, i, j);
    }
  }

  /** The entries after the first: a record whose keys miss the first key. */
  function Rest<V>(r: Record<V>): (t: Record<V>)
    requires r != []
    ensures t == r[1..] && r[0].0 !in Keys(t)
  {
    RestDistinct(r);
    r[1..]
  }

  lemma RestDistinct<V>(r: Record<V>)
    requires r != []
    ensures DistinctKeys(r[1..]) && r[0].0 !in Keys(r[1..])
  {
    forall i, j | 0 <= i < j < |r| - 1
      ensures KeyAt(r[1..], i) != KeyAt(r[1..], j)
    {
      assert KeyAt(r, i + 1) != KeyAt(r, j + 1);
    }
    forall j | 0 <= j < |r| - 1
      ensures Keys(r[1..])[j] != r[0].0
    {
      assert KeyAt(r, 0) != KeyAt(r, j + 1);
    }
  }

  /** The first `n` entries: a record that misses the key of entry `n`. */
  function Prefix<V>(r: Record<V>, n: nat): (t: Record<V>)
    requires n <= |r|
    ensures t == r[..n]
    ensures n < |r| ==> r[n].0 !in Keys(t)
  {
    PrefixDistinct(r, n);
    r[..n]
  }

  lemma PrefixDistinct<V>(r: Record<V>, n: nat)
    requires n <= |r|
    ensures DistinctKeys(r[..n])
    ensures n < |r| ==> r[n].0 !in Keys(r[..n])
  {
    forall i, j | 0 <= i < j < n
      ensures KeyAt(r[..n], i) != KeyAt(r[..n], j)
    {
      assert KeyAt(r, i) != KeyAt(r, j);
    }
    if n < |r| {
      forall j | 0 <= j < n
        ensures Keys(r[..n])[j] != r[n].0
      {
        assert KeyAt(r, j) != KeyAt(r, n);
      }
    }
  }

  /** A sequence with the keys of a record, in the same order, is a record. */
  lemma SameKeysDistinct<V, W>(r: Record<V>, s: seq<(string, W)>)
    requires Keys(s) == Keys(r)
    ensures DistinctKeys(s)
  {
    forall i, j | 0 <= i < j < |s|
      ensures KeyAt(s, i) != KeyAt(s, j)
    {
      assert Keys(s)[i] == Keys(r)[i] && Keys(s)[j] == Keys(r)[j];
      assert KeyAt(r, i) != KeyAt(r, j);
    }
  }

  /** Two entries of a record have different keys. */
  lemma DistinctAt<V>(r: Record<V>, i: nat, j: nat)
    requires i < |r| && j < |r| && i != j
    ensures r[i].0 != r[j].0
  {
    if i < j {
      assert KeyAt(r, i) != KeyAt(r, j);
    } else {
      assert KeyAt(r, j) != KeyAt(r, i);
    }
  }

  /** An object's own enumerable entries, in enumeration order. */
  type Record<V> = r: seq<(string, V)> | DistinctKeys(r) witness []

  /** `Object.keys` */
  function Keys<V>(r: seq<(string, V)>): seq<string> {
    seq(|r|, i requires 0 <= i < |r| => r[i].0)
  }

  /** `Object.values` */
  function Values<V>(r: seq<(string, V)>): seq<V> {
    seq(|r|, i requires 0 <= i < |r| => r[i].1)
  }

  /** `r[k]`, with `None` for a key that is absent. */
  function Get<V>(r: seq<(string, V)>, k: string): Option<V> {
    if r == [] then None
    else if r[0].0 == k then Some(r[0].1)
    else Get(r[1..], k)
  }

  /** `{ ...r, [k]: v }` */
  function Put<V>(r: Record<V>, k: string, v: V): (result: Record<V>)
    ensures Get(result, k) == Some(v)
    ensures forall k' :: k' != k ==> Get(result, k') == Get(r, k')
    ensures Keys(result) == if k in Keys(r) then Keys(r) else Keys(r) + [k]
  {
    if r == [] then
      assert Keys([(k, v)]) == [k];
      [(k, v)]
    else if r[0].0 == k then
      PutHead(r, k, v);
      [(k, v)] + Rest(r)
    else
      var rest := Put(Rest(r), k, v);
      PutCons(r, k, v, rest);
      [r[0]] + rest
  }

  /** Reading a record whose first entry is `e`. */
  lemma GetCons<V>(e: (string, V), rest: seq<(string, V)>, k: string)
    ensures Get([e] + rest, k) == if e.0 == k then Some(e.1) else Get(rest, k)
  {
    assert ([e] + rest)[1..] == rest;
  }

  lemma KeysCons<V>(e: (string, V), rest: seq<(string, V)>)
    ensures Keys([e] + rest) == [e.0] + Keys(rest)
  {
  }

  lemma KeysSplit<V>(r: seq<(string, V)>)
    requires r != []
    ensures Keys(r) == [r[0].0] + Keys(r[1..])
    ensures r == [r[0]] + r[1..]
  {
  }

  /** Assigning the key of the first entry replaces that entry. */
  lemma PutHead<V>(r: Record<V>, k: string, v: V)
    requires r != [] && r[0].0 == k
    ensures DistinctKeys([(k, v)] + r[1..])
    ensures Get([(k, v)] + r[1..], k) == Some(v)
    ensures forall k' :: k' != k ==> Get([(k, v)] + r[1..], k') == Get(r, k')
    ensures k in Keys(r) && Keys([(k, v)] + r[1..]) == Keys(r)
  {
    RestDistinct(r);
    KeysSplit(r);
    KeysCons((k, v), r[1..]);
    ConsDistinct((k, v), r[1..]);
    GetCons((k, v), r[1..], k);
    forall k' | k' != k
      ensures Get([(k, v)] + r[1..], k') == Get(r, k')
    {
      GetCons((k, v), r[1..], k');
      GetCons(r[0], r[1..], k');
    }
  }

  /** Assigning a key that is not the first one's assigns it in the rest. */
  lemma PutCons<V>(r: Record<V>, k: string, v: V, rest: Record<V>)
    requires r != [] && r[0].0 != k
    requires Get(rest, k) == Some(v)
    requires forall k' :: k' != k ==> Get(rest, k') == Get(r[1..], k')
    requires Keys(rest) == if k in Keys(r[1..]) then Keys(r[1..]) else Keys(r[1..]) + [k]
    ensures DistinctKeys([r[0]] + rest)
    ensures Get([r[0]] + rest, k) == Some(v)
    ensures forall k' :: k' != k ==> Get([r[0]] + rest, k') == Get(r, k')
    ensures Keys([r[0]] + rest) == if k in Keys(r) then Keys(r) else Keys(r) + [k]
  {
    RestDistinct(r);
    KeysSplit(r);
    KeysCons(r[0], rest);
    ConsDistinct(r[0], rest);
    GetCons(r[0], rest, k);
    forall k' | k' != k
      ensures Get([r[0]] + rest, k') == Get(r, k')
    {
      GetCons(r[0], rest, k');
      GetCons(r[0], r[1..], k');
    }
  }

  /** `delete r[k]` on a copy of `r` (equivalently `const { [k]: _, ...rest } = r`). */
  function Remove<V>(r: Record<V>, k: string): (result: Record<V>)
    ensures Get(result, k) == None
    ensures forall k' :: k' != k ==> Get(result, k') == Get(r, k')
    ensures forall k' :: k' in Keys(result) <==> k' in Keys(r) && k' != k
  {
    if r == [] then []
    else if r[0].0 == k then
      RemoveHead(r, k);
      Rest(r)
    else
      var rest := Remove(Rest(r), k);
      RemoveCons(r, k, rest);
      [r[0]] + rest
  }

  /** Deleting the key of the first entry drops that entry. */
  lemma RemoveHead<V>(r: Record<V>, k: string)
    requires r != [] && r[0].0 == k
    ensures DistinctKeys(r[1..])
    ensures Get(r[1..], k) == None
    ensures forall k' :: k' != k ==> Get(r[1..], k') == Get(r, k')
    ensures forall k' :: k' in Keys(r[1..]) <==> k' in Keys(r) && k' != k
  {
    RestDistinct(r);
    KeysSplit(r);
    GetAbsent(r[1..], k);
    forall k' | k' != k
      ensures Get(r[1..], k') == Get(r, k')
    {
      GetCons(r[0], r[1..], k');
    }
  }

  /** Deleting a key that is not the first one's deletes it in the rest. */
  lemma RemoveCons<V>(r: Record<V>, k: string, rest: Record<V>)
    requires r != [] && r[0].0 != k
    requires Get(rest, k) == None
    requires forall k' :: k' != k ==> Get(rest, k') == Get(r[1..], k')
    requires forall k' :: k' in Keys(rest) <==> k' in Keys(r[1..]) && k' != k
    ensures DistinctKeys([r[0]] + rest)
    ensures Get([r[0]] + rest, k) == None
    ensures forall k' :: k' != k ==> Get([r[0]] + rest, k') == Get(r, k')
    ensures forall k' :: k' in Keys([r[0]] + rest) <==> k' in Keys(r) && k' != k
  {
    RestDistinct(r);
    KeysSplit(r);
    KeysCons(r[0], rest);
    ConsDistinct(r[0], rest);
    GetCons(r[0], rest, k);
    forall k' | k' != k
      ensures Get([r[0]] + rest, k') == Get(r, k')
    {
      GetCons(r[0], rest, k');
      GetCons(r[0], r[1..], k');
    }
  }

  lemma ConsDistinct<V>(e: (string, V), rest: Record<V>)
    requires e.0 !in Keys(rest)
    ensures DistinctKeys([e] + rest)
  {
    var s := [e] + rest;
    forall i, j | 0 <= i < j < |s|
      ensures KeyAt(s, i) != KeyAt(s, j)
    {
      if i == 0 {
        assert Keys(rest)[j - 1] == KeyAt(s, j);
      } else {
        assert KeyAt(rest, i - 1) != KeyAt(rest, j - 1);
      }
    }
  }

  lemma SnocDistinct<V>(rest: Record<V>, e: (string, V))
    requires e.0 !in Keys(rest)
    ensures DistinctKeys(rest + [e])
  {
    var s := rest + [e];
    forall i, j | 0 <= i < j < |s|
      ensures KeyAt(s, i) != KeyAt(s, j)
    {
      if j == |rest| {
        assert Keys(rest)[i] == KeyAt(s, i);
      } else {
        assert KeyAt(rest, i) != KeyAt(rest, j);
      }
    }
  }

  lemma {:induction false} GetAbsent<V>(r: seq<(string, V)>, k: string)
    requires k !in Keys(r)
    ensures Get(r, k) == None
  {
    if r != [] {
      assert Keys(r) == [r[0].0] + Keys(r[1..]);
      GetAbsent(r[1..], k);
    }
  }

  /** A key is present exactly when reading it yields a value. */
  lemma {:induction false} GetSomeIffKey<V>(r: seq<(string, V)>, k: string)
    ensures Get(r, k).Some? <==> k in Keys(r)
  {
    if r != [] {
      assert Keys(r) == [r[0].0] + Keys(r[1..]);
      GetSomeIffKey(r[1..], k);
    }
  }

  /** Reading the key of the entry at position `p` yields that entry's value. */
  lemma {:induction false} GetAt<V>(r: Record<V>, p: nat)
    requires p < |r|
    ensures Get(r, r[p].0) == Some(r[p].1)
  {
    if p > 0 {
      DistinctAt(r, 0, p);
      GetAt(Rest(r), p - 1);
    }
  }

  lemma PutUnfold<V>(r: Record<V>, k: string, v: V)
    requires r != []
    ensures Put(r, k, v) == if r[0].0 == k then [(k, v)] + r[1..] else [r[0]] + Put(Rest(r), k, v)
  {
  }

  /** Updating position `p` of a sequence, seen from its first element. */
  lemma UpdateCons<T>(r: seq<T>, p: nat, x: T)
    requires p < |r|
    ensures r[p := x] == if p == 0 then [x] + r[1..] else [r[0]] + r[1..][p - 1 := x]
  {
  }

  /** Cutting position `p` out of a sequence, seen from its first element. */
  lemma SpliceCons<T>(r: seq<T>, p: nat)
    requires p < |r|
    ensures r[..p] + r[p + 1..] ==
      if p == 0 then r[1..] else [r[0]] + (r[1..][..p - 1] + r[1..][p..])
  {
    if p > 0 {
      assert r[1..][..p - 1] == r[1..p] && r[1..][p..] == r[p + 1..];
    }
  }

  lemma SnocCons<T>(r: seq<T>, x: T)
    requires r != []
    ensures [r[0]] + (r[1..] + [x]) == r + [x]
  {
  }

  /** Assigning a key that is present overwrites its entry where it stands. */
  lemma {:induction false} PutAt<V>(r: Record<V>, k: string, v: V, p: nat)
    requires p < |r| && r[p].0 == k
    ensures Put(r, k, v) == r[p := (k, v)]
  {
    PutUnfold(r, k, v);
    UpdateCons(r, p, (k, v));
    if p > 0 {
      DistinctAt(r, 0, p);
      PutAt(Rest(r), k, v, p - 1);
    }
  }

  /** Assigning a new key appends its entry. */
  lemma {:induction false} PutNew<V>(r: Record<V>, k: string, v: V)
    requires k !in Keys(r)
    ensures Put(r, k, v) == r + [(k, v)]
  {
    if r != [] {
      PutUnfold(r, k, v);
      KeysSplit(r);
      PutNew(Rest(r), k, v);
      SnocCons(r, (k, v));
    }
  }

  lemma RemoveUnfold<V>(r: Record<V>, k: string)
    requires r != []
    ensures Remove(r, k) == if r[0].0 == k then r[1..] else [r[0]] + Remove(Rest(r), k)
  {
  }

  /** Deleting a key takes out exactly its entry and keeps the order of the others. */
  lemma {:induction false} RemoveAt<V>(r: Record<V>, k: string, p: nat)
    requires p < |r| && r[p].0 == k
    ensures Remove(r, k) == r[..p] + r[p + 1..]
  {
    RemoveUnfold(r, k);
    SpliceCons(r, p);
    if p > 0 {
      DistinctAt(r, 0, p);
      RemoveAt(Rest(r), k, p - 1);
    }
  }

  /** Deleting a key that is absent changes nothing. */
  lemma {:induction false} RemoveAbsent<V>(r: Record<V>, k: string)
    requires k !in Keys(r)
    ensures Remove(r, k) == r
  {
    if r != [] {
      RemoveUnfold(r, k);
      KeysSplit(r);
      RemoveAbsent(Rest(r), k);
    }
  }

  /** Adding a new key and deleting it again gives back the record. */
  lemma RemoveUndoesPut<V>(r: Record<V>, k: string, v: V)
    requires k !in Keys(r)
    ensures Remove(Put(r, k, v), k) == r
  {
    PutNew(r, k, v);
    assert (r + [(k, v)])[|r|].0 == k;
    RemoveAt(r + [(k, v)], k, |r|);
    assert (r + [(k, v)])[..|r|] == r;
  }

  /** Deleting a key that is present shortens the record by one. */
  lemma {:induction false} RemovePresentSize<V>(r: Record<V>, k: string)
    requires k in Keys(r)
    ensures |Remove(r, k)| == |r| - 1
  {
    var p :| 0 <= p < |r| && Keys(r)[p] == k;
    RemoveAt(r, k, p);
  }

  /** A value read under a key is stored in an entry with that key. */
  lemma {:induction false} GetEntry<V>(r: seq<(string, V)>, k: string, v: V)
    requires Get(r, k) == Some(v)
    ensures (k, v) in r
  {
    if r[0].0 != k {
      GetEntry(r[1..], k, v);
    }
  }
}
