/**
  Package smap: a map with a version counter that every mutation bumps by
  exactly one. The read/write lock of the Go type is erased (a single thread
  of control), and the uint64 counter is a `nat`.
*/
module Smap {
  import opened Basics

  /** A key/value pair, as stored by MultiSet and produced by the iterators. */
  datatype KV<K, V> = KV(key: K, value: V)

  /** The keys of a pair list. */
  function KeysOf<K, V>(kvs: seq<KV<K, V>>): set<K> {
    set i | 0 <= i < |kvs| :: kvs[i].key
  }

  predicate Distinct<T(==)>(s: seq<T>) {
    forall i, j :: 0 <= i < j < |s| ==> s[i] != s[j]
  }

  predicate DistinctKeys<K(==), V>(kvs: seq<KV<K, V>>) {
    forall i, j :: 0 <= i < j < |kvs| ==> kvs[i].key != kvs[j].key
  }

  /** Appending a pair adds its key. */
  lemma KeysOfSnoc<K, V>(kvs: seq<KV<K, V>>, kv: KV<K, V>)
    ensures KeysOf(kvs + [kv]) == KeysOf(kvs) + {kv.key}
  {
    var whole := kvs + [kv];
    forall k | k in KeysOf(whole)
      ensures k in KeysOf(kvs) || k == kv.key
    {
      var i :| 0 <= i < |whole| && whole[i].key == k;
      if i < |kvs| {
        assert kvs[i] == whole[i];
      }
    }
    forall k | k in KeysOf(kvs)
      ensures k in KeysOf(whole)
    {
      var i :| 0 <= i < |kvs| && kvs[i].key == k;
      assert whole[i] == kvs[i];
    }
    assert whole[|kvs|] == kv;
  }

  /** The map after storing the pairs one after the other, a later pair for a key overwriting an earlier one. */
  function SetAll<K, V>(m: map<K, V>, kvs: seq<KV<K, V>>): (r: map<K, V>)
    ensures r.Keys == m.Keys + KeysOf(kvs)
  {
    if kvs == [] then m
    else
      var prefix, last := kvs[..|kvs| - 1], kvs[|kvs| - 1];
      KeysOfSnoc(prefix, last);
      assert prefix + [last] == kvs;
      SetAll(m, prefix)[last.key := last.value]
  }

  /** The last pair listed for a key decides its value. */
  lemma {:induction false} SetAllLastWins<K, V>(m: map<K, V>, kvs: seq<KV<K, V>>, i: nat)
    requires i < |kvs|
    requires forall j :: i < j < |kvs| ==> kvs[j].key != kvs[i].key
    ensures kvs[i].key in SetAll(m, kvs) && SetAll(m, kvs)[kvs[i].key] == kvs[i].value
  {
    if i < |kvs| - 1 {
      var prefix := kvs[..|kvs| - 1];
      assert prefix[i] == kvs[i];
      assert forall j :: i < j < |prefix| ==> prefix[j] == kvs[j];
      SetAllLastWins(m, prefix, i);
    }
  }

  /** A key no pair mentions keeps its entry, or its absence. */
  lemma {:induction false} SetAllUntouched<K, V>(m: map<K, V>, kvs: seq<KV<K, V>>, k: K)
    requires k !in KeysOf(kvs)
    ensures k in SetAll(m, kvs) <==> k in m
    ensures k in m ==> SetAll(m, kvs)[k] == m[k]
  {
    if kvs != [] {
      var prefix := kvs[..|kvs| - 1];
      assert kvs[|kvs| - 1].key != k;
      assert k !in KeysOf(prefix) by {
        forall i | 0 <= i < |prefix|
          ensures prefix[i].key != k
        {
          assert prefix[i] == kvs[i];
        }
      }
      SetAllUntouched(m, prefix, k);
    }
  }

  /** Overwriting a present key leaves the number of entries alone. */
  lemma OverwriteKeepsSize<K, V>(m: map<K, V>, k: K, v: V)
    requires k in m
    ensures |m[k := v]| == |m|
  {
    assert m[k := v].Keys == m.Keys;
  }

  /** A strict total order on the keys in S: irreflexive, transitive and connected. */
  ghost predicate StrictTotalOn<K(!new)>(less: (K, K) -> bool, S: set<K>) {
    (forall a :: a in S ==> !less(a, a)) &&
    (forall a, b, c :: a in S && b in S && c in S && less(a, b) && less(b, c) ==> less(a, c)) &&
    (forall a, b :: a in S && b in S && a != b ==> less(a, b) || less(b, a))
  }

  /** Every earlier element is less than every later one. */
  predicate StrictlySorted<K>(s: seq<K>, less: (K, K) -> bool) {
    forall i, j :: 0 <= i < j < |s| ==> less(s[i], s[j])
  }

  /** Insertion of x into a sorted sequence, before the first element x is less than. */
  function Insert<K>(x: K, s: seq<K>, less: (K, K) -> bool): (r: seq<K>)
    ensures multiset(r) == multiset(s) + multiset{x}
  {
    if s == [] then [x]
    else if less(x, s[0]) then [x] + s
    else
      assert s == [s[0]] + s[1..];
      [s[0]] + Insert(x, s[1..], less)
  }

  /**
    Sorting by `less`. The Go code calls sort.Slice, which is not stable; on
    keys that `less` orders totally every correct sort gives the same result
    (SortedUnique), so this insertion sort stands for it.
  */
  function SortBy<K>(s: seq<K>, less: (K, K) -> bool): (r: seq<K>)
    ensures multiset(r) == multiset(s)
  {
    if s == [] then []
    else
      assert s == [s[0]] + s[1..];
      Insert(s[0], SortBy(s[1..], less), less)
  }

  lemma TailSorted<K>(s: seq<K>, less: (K, K) -> bool)
    requires s != [] && StrictlySorted(s, less)
    ensures StrictlySorted(s[1..], less)
  {
    var tail := s[1..];
    forall i, j | 0 <= i < j < |tail|
      ensures less(tail[i], tail[j])
    {
      assert tail[i] == s[i + 1] && tail[j] == s[j + 1];
    }
  }

  lemma ConsSorted<K>(y: K, r: seq<K>, less: (K, K) -> bool)
    requires StrictlySorted(r, less)
    requires forall k :: 0 <= k < |r| ==> less(y, r[k])
    ensures StrictlySorted([y] + r, less)
  {
    var whole := [y] + r;
    forall i, j | 0 <= i < j < |whole|
      ensures less(whole[i], whole[j])
    {
      if i == 0 {
        assert whole[j] == r[j - 1];
      } else {
        assert whole[i] == r[i - 1] && whole[j] == r[j - 1];
      }
    }
  }

  lemma {:induction false} InsertSorted<K(!new)>(x: K, s: seq<K>, less: (K, K) -> bool, S: set<K>)
    requires StrictTotalOn(less, S)
    requires x in S && x !in s && (forall i :: 0 <= i < |s| ==> s[i] in S)
    requires StrictlySorted(s, less)
    ensures StrictlySorted(Insert(x, s, less), less)
  {
    if s != [] && !less(x, s[0]) {
      assert less(s[0], x);
      var tail := s[1..];
      TailSorted(s, less);
      InsertSorted(x, tail, less, S);
      var r := Insert(x, tail, less);
      forall k | 0 <= k < |r|
        ensures less(s[0], r[k])
      {
        assert r[k] in multiset(r);
        if r[k] != x {
          assert r[k] in multiset(tail);
          var p :| 0 <= p < |tail| && tail[p] == r[k];
          assert s[p + 1] == r[k];
        }
      }
      ConsSorted(s[0], r, less);
    } else if s != [] {
      forall k | 0 <= k < |s|
        ensures less(x, s[k])
      {
        if k > 0 {
          assert less(s[0], s[k]);
        }
      }
      ConsSorted(x, s, less);
    }
  }

  /** Sorting distinct keys totally ordered by `less` gives a strictly increasing sequence of the same keys. */
  lemma {:induction false} SortBySorted<K(!new)>(s: seq<K>, less: (K, K) -> bool, S: set<K>)
    requires StrictTotalOn(less, S)
    requires Distinct(s) && (forall i :: 0 <= i < |s| ==> s[i] in S)
    ensures StrictlySorted(SortBy(s, less), less)
  {
    if s != [] {
      var tail := s[1..];
      assert Distinct(tail) by {
        forall i, j | 0 <= i < j < |tail|
          ensures tail[i] != tail[j]
        {
          assert tail[i] == s[i + 1] && tail[j] == s[j + 1];
        }
      }
      SortBySorted(tail, less, S);
      var sorted := SortBy(tail, less);
      forall i | 0 <= i < |sorted|
        ensures sorted[i] in S && sorted[i] != s[0]
      {
        assert sorted[i] in multiset(tail);
        var p :| 0 <= p < |tail| && tail[p] == sorted[i];
        assert s[p + 1] == sorted[i];
      }
      InsertSorted(s[0], sorted, less, S);
    }
  }

  lemma EmptyIffNoMember<T>(s: seq<T>)
    ensures s == [] <==> forall x :: x !in s
  {
    if s != [] {
      assert s[0] in s;
    }
  }

  /** The first element of a strictly increasing sequence is below every other element. */
  lemma HeadIsLeast<K>(s: seq<K>, less: (K, K) -> bool)
    requires s != [] && StrictlySorted(s, less)
    ensures forall x :: x in s ==> x == s[0] || less(s[0], x)
  {
    forall x | x in s
      ensures x == s[0] || less(s[0], x)
    {
      var i :| 0 <= i < |s| && s[i] == x;
      if i > 0 {
        assert less(s[0], s[i]);
      }
    }
  }

  /** Two strictly increasing sequences over the same keys are equal: the sorted order is unique. */
  lemma {:induction false} SortedUnique<K(!new)>(a: seq<K>, b: seq<K>, less: (K, K) -> bool, S: set<K>)
    requires StrictTotalOn(less, S)
    requires forall i :: 0 <= i < |a| ==> a[i] in S
    requires StrictlySorted(a, less) && StrictlySorted(b, less)
    requires forall k :: k in a <==> k in b
    ensures a == b
  {
    EmptyIffNoMember(a);
    EmptyIffNoMember(b);
    if a != [] && b != [] {
      assert a[0] in b;
      assert b[0] in a;
      HeadIsLeast(a, less);
      HeadIsLeast(b, less);
      assert a[0] == b[0];
      var ta, tb := a[1..], b[1..];
      forall k
        ensures k in ta <==> k in tb
      {
        if k in ta {
          var i :| 0 <= i < |ta| && ta[i] == k;
          assert less(a[0], a[i + 1]);
          assert k != a[0];
          assert k in b;
        }
        if k in tb {
          var i :| 0 <= i < |tb| && tb[i] == k;
          assert less(b[0], b[i + 1]);
          assert k != b[0];
          assert k in a;
        }
      }
      assert StrictlySorted(ta, less) by {
        forall i, j | 0 <= i < j < |ta|
          ensures less(ta[i], ta[j])
        {
          assert ta[i] == a[i + 1] && ta[j] == a[j + 1];
        }
      }
      assert StrictlySorted(tb, less) by {
        forall i, j | 0 <= i < j < |tb|
          ensures less(tb[i], tb[j])
        {
          assert tb[i] == b[i + 1] && tb[j] == b[j + 1];
        }
      }
      SortedUnique(ta, tb, less, S);
      assert a == [a[0]] + ta && b == [b[0]] + tb;
    }
  }

  /** Map of package smap (smap/smap.go:18-22) without its lock. */
  class Map<K(==,!new), V> {
    var m: map<K, V>
    var version: nat

    /** New: an empty map at version 0. */
    constructor ()
      ensures m == map[] && version == 0
    {
      m := map[];
      version := 0;
    }

    method Version() returns (current: nat)
      ensures current == version
    {
      current := version;
    }

    /** Stores one entry; the new version is one above the old. */
    method Set(key: K, value: V) returns (newVersion: nat)
      modifies this
      ensures m == old(m)[key := value]
      ensures version == old(version) + 1 && newVersion == version
    {
      m := m[key := value];
      version := version + 1;
      newVersion := version;
    }

    /** Stores every pair in order and bumps the version once, even for no pairs. */
    method MultiSet(kvs: seq<KV<K, V>>) returns (newVersion: nat)
      modifies this
      ensures m == SetAll(old(m), kvs)
      ensures version == old(version) + 1 && newVersion == version
    {
      var i := 0;
      while i < |kvs|
        invariant 0 <= i <= |kvs|
        invariant m == SetAll(old(m), kvs[..i])
        invariant version == old(version)
      {
        assert kvs[..i + 1][..i] == kvs[..i];
        m := m[kvs[i].key := kvs[i].value];
        i := i + 1;
      }
      assert kvs[..i] == kvs;
      version := version + 1;
      newVersion := version;
    }

    /** The Go code returns the zero value and false for a missing key; here that is None. */
    method Get(key: K) returns (r: Option<V>)
      ensures r.Some? <==> key in m
      ensures r.Some? ==> r.value == m[key]
    {
      if key in m {
        r := Some(m[key]);
      } else {
        r := None;
      }
    }

    /** Removes every listed key; absent keys are ignored, and the version rises by one regardless. */
    method Delete(keys: seq<K>) returns (newVersion: nat)
      modifies this
      ensures forall k :: k in m <==> k in old(m) && k !in keys
      ensures forall k :: k in m ==> m[k] == old(m)[k]
      ensures version == old(version) + 1 && newVersion == version
    {
      var i := 0;
      while i < |keys|
        invariant 0 <= i <= |keys|
        invariant forall k :: k in m <==> k in old(m) && k !in keys[..i]
        invariant forall k :: k in m ==> m[k] == old(m)[k]
        invariant version == old(version)
      {
        assert keys[..i + 1] == keys[..i] + [keys[i]];
        m := m - {keys[i]};
        i := i + 1;
      }
      assert keys[..i] == keys;
      version := version + 1;
      newVersion := version;
    }

    method Has(key: K) returns (ok: bool)
      ensures ok <==> key in m
    {
      ok := key in m;
    }

    /** The number of distinct keys. */
    method Len() returns (l: nat)
      ensures l == |m|
    {
      l := |m|;
    }

    /** Empties the map and bumps the version, also when it was already empty. */
    method Clear()
      modifies this
      ensures m == map[]
      ensures version == old(version) + 1
    {
      m := map[];
      version := version + 1;
    }

    /**
      All, with the range-over-func body as the total function `visit`. Go
      visits a map in no fixed order, so the model picks the next key
      arbitrarily. The pairs visited are returned: entries of the map, each key
      at most once, every one but the last accepted by `visit`; the visit
      covers the whole map unless `visit` returned false on the last pair.
    */
    method All(visit: (K, V) -> bool) returns (visited: seq<KV<K, V>>)
      ensures forall i :: 0 <= i < |visited| ==> visited[i].key in m && m[visited[i].key] == visited[i].value
      ensures DistinctKeys(visited)
      ensures forall i :: 0 <= i < |visited| - 1 ==> visit(visited[i].key, visited[i].value)
      ensures KeysOf(visited) == m.Keys || (visited != [] && !visit(visited[|visited| - 1].key, visited[|visited| - 1].value))
    {
      var remaining := m.Keys;
      visited := [];
      while remaining != {}
        invariant forall i :: 0 <= i < |visited| ==> visited[i].key in m && m[visited[i].key] == visited[i].value
        invariant forall i :: 0 <= i < |visited| ==> visited[i].key !in remaining
        invariant DistinctKeys(visited)
        invariant KeysOf(visited) + remaining == m.Keys
        invariant forall i :: 0 <= i < |visited| ==> visit(visited[i].key, visited[i].value)
        decreases remaining
      {
        var k :| k in remaining;
        var v := m[k];
        KeysOfSnoc(visited, KV(k, v));
        visited := visited + [KV(k, v)];
        remaining := remaining - {k};
        if !visit(k, v) {
          return;
        }
      }
    }

    /** Keys: like All, over the keys alone. */
    method Keys(visit: K -> bool) returns (visited: seq<K>)
      ensures forall i :: 0 <= i < |visited| ==> visited[i] in m
      ensures Distinct(visited)
      ensures forall i :: 0 <= i < |visited| - 1 ==> visit(visited[i])
      ensures (forall k :: k in m <==> k in visited) || (visited != [] && !visit(visited[|visited| - 1]))
    {
      var remaining := m.Keys;
      visited := [];
      while remaining != {}
        invariant forall i :: 0 <= i < |visited| ==> visited[i] in m && visited[i] !in remaining
        invariant Distinct(visited)
        invariant forall k :: k in m <==> k in visited || k in remaining
        invariant remaining <= m.Keys
        invariant forall i :: 0 <= i < |visited| ==> visit(visited[i])
        decreases remaining
      {
        var k :| k in remaining;
        visited := visited + [k];
        remaining := remaining - {k};
        if !visit(k) {
          return;
        }
      }
    }

    /**
      Values: like All, over the values alone; the ghost `keys` names the
      entry each visited value came from.
    */
    method Values(visit: V -> bool) returns (visited: seq<V>, ghost keys: seq<K>)
      ensures |keys| == |visited| && Distinct(keys)
      ensures forall i :: 0 <= i < |visited| ==> keys[i] in m && m[keys[i]] == visited[i]
      ensures forall i :: 0 <= i < |visited| - 1 ==> visit(visited[i])
      ensures (forall k :: k in m <==> k in keys) || (visited != [] && !visit(visited[|visited| - 1]))
    {
      var remaining := m.Keys;
      visited, keys := [], [];
      while remaining != {}
        invariant |keys| == |visited|
        invariant forall i :: 0 <= i < |visited| ==> keys[i] in m && m[keys[i]] == visited[i] && keys[i] !in remaining
        invariant Distinct(keys)
        invariant forall k :: k in m <==> k in keys || k in remaining
        invariant remaining <= m.Keys
        invariant forall i :: 0 <= i < |visited| ==> visit(visited[i])
        decreases remaining
      {
        var k :| k in remaining;
        var v := m[k];
        visited, keys := visited + [v], keys + [k];
        remaining := remaining - {k};
        if !visit(v) {
          return;
        }
      }
    }

    /** The snapshot the sorted iterators take: every key once, in arbitrary order. */
    method SnapshotKeys() returns (keys: seq<K>)
      ensures Distinct(keys)
      ensures forall k :: k in keys <==> k in m
    {
      var remaining := m.Keys;
      keys := [];
      while remaining != {}
        invariant Distinct(keys)
        invariant forall i :: 0 <= i < |keys| ==> keys[i] !in remaining
        invariant forall k :: k in m <==> k in keys || k in remaining
        invariant remaining <= m.Keys
        decreases remaining
      {
        var k :| k in remaining;
        keys := keys + [k];
        remaining := remaining - {k};
      }
    }

    /** The snapshot sorted by `less`: the keys of the map in strictly increasing order. */
    method SortedSnapshot(less: (K, K) -> bool) returns (keys: seq<K>)
      requires StrictTotalOn(less, m.Keys)
      ensures StrictlySorted(keys, less)
      ensures forall k :: k in keys <==> k in m
    {
      var snapshot := SnapshotKeys();
      SortBySorted(snapshot, less, m.Keys);
      keys := SortBy(snapshot, less);
      forall k
        ensures k in keys <==> k in snapshot
      {
        assert k in keys <==> k in multiset(keys);
      }
    }

    /**
      KeysSorted: the keys in `less` order, stopping after the first key
      `visit` rejects. Every key of the map left unvisited comes after all
      visited ones, so the visit is a prefix of the sorted keys.
    */
    method KeysSorted(less: (K, K) -> bool, visit: K -> bool) returns (visited: seq<K>, ghost sorted: seq<K>)
      requires StrictTotalOn(less, m.Keys)
      ensures StrictlySorted(sorted, less) && (forall k :: k in sorted <==> k in m)
      ensures |visited| <= |sorted| && visited == sorted[..|visited|]
      ensures StrictlySorted(visited, less)
      ensures forall i :: 0 <= i < |visited| ==> visited[i] in m
      ensures forall k :: k in m && k !in visited ==> forall i :: 0 <= i < |visited| ==> less(visited[i], k)
      ensures forall i :: 0 <= i < |visited| - 1 ==> visit(visited[i])
      ensures (forall k :: k in m <==> k in visited) || (visited != [] && !visit(visited[|visited| - 1]))
    {
      var keys := SortedSnapshot(less);
      sorted := keys;
      var i := 0;
      visited := [];
      while i < |keys|
        invariant 0 <= i <= |keys|
        invariant visited == keys[..i]
        invariant forall j :: 0 <= j < i ==> visit(keys[j])
      {
        var k := keys[i];
        visited := visited + [k];
        i := i + 1;
        if !visit(k) {
          break;
        }
      }
      forall k | k in m && k !in visited
        ensures forall j :: 0 <= j < |visited| ==> less(visited[j], k)
      {
        forall j | 0 <= j < i
          ensures keys[j] != k
        {
          assert visited[j] == keys[j];
        }
      }
    }

    /**
      KeysSorted ranged over one key at a time: the cursor starts at the sorted
      snapshot of the keys, and the consumer may change the map between keys.
    */
    method KeysSortedCursor(less: (K, K) -> bool) returns (it: KeysCursor<K>)
      requires StrictTotalOn(less, m.Keys)
      ensures fresh(it) && it.pos == 0 && it.Valid()
      ensures StrictlySorted(it.keys, less)
      ensures forall k :: k in it.keys <==> k in m
    {
      var keys := SortedSnapshot(less);
      it := new KeysCursor(keys);
    }

    /**
      AllSorted: a snapshot of the keys, sorted by `less`, read back one key at
      a time against the live map by the returned iterator.
    */
    method AllSorted(less: (K, K) -> bool) returns (it: SortedIterator<K, V>)
      requires StrictTotalOn(less, m.Keys)
      ensures fresh(it) && it.source == this && it.pos == 0 && it.Valid()
      ensures StrictlySorted(it.keys, less)
      ensures forall k :: k in it.keys <==> k in m
    {
      var keys := SortedSnapshot(less);
      it := new SortedIterator(this, keys);
    }
  }

  /**
    The state of a running AllSorted or NaturalSort loop: the sorted key
    snapshot and the position reached. Each Next looks the key up in the map
    as it is now, so keys deleted since the snapshot are skipped and values
    set since then are seen. The Go loop stops when `visit` returns false;
    here the caller simply stops calling Next.
  */
  class SortedIterator<K(==,!new), V> {
    const source: Map<K, V>
    const keys: seq<K>
    var pos: nat

    /** The cursor never runs past the end of the snapshot. */
    ghost predicate Valid()
      reads this
    {
      pos <= |keys|
    }

    constructor (source: Map<K, V>, keys: seq<K>)
      ensures this.source == source && this.keys == keys && pos == 0
      ensures Valid()
    {
      this.source := source;
      this.keys := keys;
      pos := 0;
    }

    /**
      The next snapshot key still in the map, looked up in the map as it is
      now, with its current value; None once the snapshot is used up.
    */
    method Next() returns (r: Option<KV<K, V>>)
      requires Valid()
      modifies this
      ensures Valid()
      ensures var p := NextPresent(keys, old(pos), source.m);
        if p < |keys| then r == Some(KV(keys[p], source.m[keys[p]])) && pos == p + 1
        else r == None && pos == |keys|
    {
      while pos < |keys|
        invariant old(pos) <= pos <= |keys|
        invariant NextPresent(keys, pos, source.m) == NextPresent(keys, old(pos), source.m)
        decreases |keys| - pos
      {
        var k := keys[pos];
        if k in source.m {
          pos := pos + 1;
          return Some(KV(k, source.m[k]));
        }
        pos := pos + 1;
      }
      return None;
    }
  }

  /**
    The state of a running KeysSorted loop: the sorted key snapshot and the
    position reached. The Go loop holds no lock while it yields, so the
    consumer may Set or Delete between keys; the snapshot is never checked
    against the map again, so a key deleted since the snapshot is still yielded.
  */
  class KeysCursor<K> {
    const keys: seq<K>
    var pos: nat

    /** The cursor never runs past the end of the snapshot. */
    ghost predicate Valid()
      reads this
    {
      pos <= |keys|
    }

    constructor (keys: seq<K>)
      ensures this.keys == keys && pos == 0
      ensures Valid()
    {
      this.keys := keys;
      pos := 0;
    }

    /** The next snapshot key, whatever the map now holds; None once the snapshot is used up. */
    method Next() returns (r: Option<K>)
      requires Valid()
      modifies this
      ensures Valid()
      ensures old(pos) < |keys| ==> r == Some(keys[old(pos)]) && pos == old(pos) + 1
      ensures old(pos) == |keys| ==> r == None && pos == |keys|
    {
      if pos == |keys| {
        return None;
      }
      r := Some(keys[pos]);
      pos := pos + 1;
    }
  }

  /**
    The first position at or after `from` whose key is in `m`, or |keys| when
    there is none: every key passed over is absent from the map.
  */
  function NextPresent<K(==), V>(keys: seq<K>, from: nat, m: map<K, V>): (p: nat)
    requires from <= |keys|
    ensures from <= p <= |keys|
    ensures p < |keys| ==> keys[p] in m
    ensures forall i :: from <= i < p ==> keys[i] !in m
    decreases |keys| - from
  {
    if from == |keys| || keys[from] in m then from
    else NextPresent(keys, from + 1, m)
  }

  /** The built-in `<` on integer keys. */
  predicate IntLess(a: int, b: int) {
    a < b
  }

  /** `<` on integers is a strict total order, so NaturalSort needs nothing of its caller. */
  lemma IntLessIsStrictTotal(S: set<int>)
    ensures StrictTotalOn(IntLess, S)
  {
  }

  /** NaturalSort for integer keys: AllSorted with the built-in `<`. */
  method NaturalSort<V>(s: Map<int, V>) returns (it: SortedIterator<int, V>)
    ensures fresh(it) && it.source == s && it.pos == 0 && it.Valid()
    ensures StrictlySorted(it.keys, IntLess)
    ensures forall k :: k in it.keys <==> k in s.m
  {
    IntLessIsStrictTotal(s.m.Keys);
    it := s.AllSorted(IntLess);
  }
}
