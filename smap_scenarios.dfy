/**
  Sequences of calls on a Map adapted from the package's tests
  (smap/smap_test.go), with the outcome each one must have.
*/
module SmapScenarios {
  import opened Basics
  import opened Smap

  /**
    Set then Get, a missing key, and an overwrite, as in smap/smap_test.go:10-35;
    the versions 1 and 2 follow from Set raising the version once (smap/smap.go:39-46).
  */
  method SetAndGet() returns (foo: Option<int>, bar: Option<int>, updated: Option<int>, versions: seq<nat>)
    ensures foo == Some(42) && bar == None && updated == Some(100)
    ensures versions == [1, 2]
  {
    var m := new Map<string, int>();
    var v1 := m.Set("foo", 42);
    foo := m.Get("foo");
    bar := m.Get("bar");
    var v2 := m.Set("foo", 100);
    updated := m.Get("foo");
    versions := [v1, v2];
  }

  /** Three entries a, b and c set one after the other, at version 3. */
  method ThreeEntries() returns (m: Map<string, int>)
    ensures fresh(m)
    ensures m.m == map["a" := 1, "b" := 2, "c" := 3] && m.version == 3
  {
    m := new Map<string, int>();
    var v := m.Set("a", 1);
    v := m.Set("b", 2);
    v := m.Set("c", 3);
  }

  /** Len of a new map, then after one Set. */
  method EmptyThenOne() returns (l0: nat, l1: nat)
    ensures l0 == 0 && l1 == 1
  {
    var e := new Map<string, int>();
    l0 := e.Len();
    var v := e.Set("a", 1);
    l1 := e.Len();
  }

  /** Len of the three entries a, b and c, after overwriting a, and after deleting b. */
  method OverwriteThenDelete() returns (l2: nat, l3: nat, l4: nat)
    ensures l2 == 3 && l3 == 3 && l4 == 2
  {
    var m := ThreeEntries();
    l2 := m.Len();
    var v := m.Set("a", 10);
    assert m.m == map["a" := 10, "b" := 2, "c" := 3];
    l3 := m.Len();
    v := m.Delete(["b"]);
    assert m.m == map["a" := 10, "c" := 3];
    l4 := m.Len();
  }

  /** Len counts distinct keys: overwriting keeps it, deleting lowers it (smap/smap_test.go:80-111). */
  method Lengths() returns (lengths: seq<nat>)
    ensures lengths == [0, 1, 3, 3, 2]
  {
    var l0, l1 := EmptyThenOne();
    var l2, l3, l4 := OverwriteThenDelete();
    lengths := [l0, l1, l2, l3, l4];
  }

  /**
    Clear empties the map, and clearing an empty map is allowed, as in
    smap/smap_test.go:113-141; the version 5 follows from Set and Clear each
    raising it once (smap/smap.go:39-46, 91-96).
  */
  method ClearTwice() returns (len: nat, hasA: bool, version: nat)
    ensures len == 0 && !hasA && version == 5
  {
    var m := new Map<string, int>();
    var v := m.Set("a", 1);
    v := m.Set("b", 2);
    v := m.Set("c", 3);
    m.Clear();
    hasA := m.Has("a");
    m.Clear();
    len := m.Len();
    version := m.Version();
  }

  /** MultiSet stores every pair and bumps the version once; the later pair for a key wins (smap/smap.go:48-57). */
  method MultiSetPairs() returns (len: nat, x: Option<int>, version: nat)
    ensures len == 3 && x == Some(11) && version == 1
  {
    var m := new Map<string, int>();
    var kvs := [KV("x", 10), KV("y", 20), KV("z", 30), KV("x", 11)];
    version := m.MultiSet(kvs);
    SetAllLastWins(map[], kvs, 3);
    assert KeysOf(kvs) == {"x", "y", "z"} by {
      assert kvs[0].key == "x" && kvs[1].key == "y" && kvs[2].key == "z";
    }
    len := m.Len();
    x := m.Get("x");
  }

  /**
    Deleting several keys keeps the others (smap/smap_test.go:722-734); deleting
    a missing key (smap/smap_test.go:55-56) changes nothing in the map but still
    bumps the version, since Delete raises it unconditionally (smap/smap.go:66-75).
  */
  method DeleteSeveral() returns (hasA: bool, hasB: bool, c: Option<int>, version: nat)
    ensures !hasA && !hasB && c == Some(3) && version == 5
  {
    var m := new Map<string, int>();
    var v := m.Set("a", 1);
    v := m.Set("b", 2);
    v := m.Set("c", 3);
    v := m.Delete(["a", "b"]);
    version := m.Delete(["nonexistent"]);
    hasA := m.Has("a");
    hasB := m.Has("b");
    c := m.Get("c");
  }

  /** Integer keys have one increasing order only: a sorted snapshot of known keys is fixed. */
  lemma SortedInts(keys: seq<int>, expected: seq<int>)
    requires StrictlySorted(keys, IntLess) && StrictlySorted(expected, IntLess)
    requires forall k :: k in keys <==> k in expected
    ensures keys == expected
  {
    var S := set k | k in expected;
    IntLessIsStrictTotal(S);
    forall i | 0 <= i < |keys|
      ensures keys[i] in S
    {
      assert keys[i] in keys;
    }
    forall k
      ensures k in keys <==> k in expected
    {
    }
    SortedUnique(keys, expected, IntLess, S);
  }

  /** Keys 3, 1 and 2 set one after the other. */
  method OneToThree() returns (m: Map<int, string>)
    ensures fresh(m)
    ensures m.m == map[1 := "one", 2 := "two", 3 := "three"]
  {
    m := new Map<int, string>();
    var v := m.Set(3, "three");
    v := m.Set(1, "one");
    v := m.Set(2, "two");
  }

  /** The length of a prefix of [1, 2, 3] that ends at the first 2, or runs to the end, is 2. */
  lemma StopsAfterTwo(n: nat)
    requires n <= 3
    requires forall i :: 0 <= i < n - 1 ==> [1, 2, 3][i] != 2
    requires n == 3 || (n > 0 && [1, 2, 3][n - 1] == 2)
    ensures n == 2
  {
    assert [1, 2, 3][1] == 2;
  }

  /** KeysSorted over the keys 3, 1 and 2 stops at the first key the consumer rejects, here 2 (smap/smap.go:160-164). */
  method KeysSortedStops() returns (visited: seq<int>)
    ensures visited == [1, 2]
  {
    var m := OneToThree();
    IntLessIsStrictTotal(m.m.Keys);
    ghost var sorted;
    visited, sorted := m.KeysSorted(IntLess, k => k != 2);
    assert m.m.Keys == {1, 2, 3};
    assert StrictlySorted([1, 2, 3], IntLess);
    forall k
      ensures k in sorted <==> k in [1, 2, 3]
    {
      assert k in sorted <==> k in m.m.Keys;
    }
    SortedInts(sorted, [1, 2, 3]);
    assert |visited| == 3 || (visited != [] && visited[|visited| - 1] == 2) by {
      if |visited| != 3 {
        assert !(forall k :: k in m.m <==> k in visited) by {
          assert 3 in m.m;
          assert 3 !in visited;
        }
      }
    }
    StopsAfterTwo(|visited|);
  }

  /** The KeysSorted cursor over the keys 3, 1 and 2: the snapshot is [1, 2, 3]. */
  method SortedOneToThree() returns (m: Map<int, string>, it: KeysCursor<int>)
    ensures fresh(m) && fresh(it)
    ensures m.m == map[1 := "one", 2 := "two", 3 := "three"]
    ensures it.keys == [1, 2, 3] && it.pos == 0
  {
    m := OneToThree();
    IntLessIsStrictTotal(m.m.Keys);
    it := m.KeysSortedCursor(IntLess);
    assert m.m.Keys == {1, 2, 3};
    assert StrictlySorted([1, 2, 3], IntLess);
    forall k
      ensures k in it.keys <==> k in [1, 2, 3]
    {
      assert k in it.keys <==> k in m.m.Keys;
    }
    SortedInts(it.keys, [1, 2, 3]);
  }

  /**
    The consumer of KeysSorted deletes key 3 when it is handed key 1; key 3 is
    still yielded afterwards although the map no longer holds it
    (smap/smap.go:154-164).
  */
  method KeysSortedYieldsDeleted() returns (visited: seq<int>, stillThere: bool)
    ensures visited == [1, 2, 3] && !stillThere
  {
    var m, it := SortedOneToThree();
    var r := it.Next();
    visited := [r.value];
    var v := m.Delete([3]);
    r := it.Next();
    visited := visited + [r.value];
    r := it.Next();
    visited := visited + [r.value];
    stillThere := m.Has(3);
    r := it.Next();
    assert r.None?;
  }

  /** Keys 3, 1, 2 and 4 set one after the other. */
  method OneToFour() returns (m: Map<int, string>)
    ensures fresh(m)
    ensures m.m == map[1 := "one", 2 := "two", 3 := "three", 4 := "four"]
  {
    m := new Map<int, string>();
    var v := m.Set(3, "three");
    v := m.Set(1, "one");
    v := m.Set(2, "two");
    v := m.Set(4, "four");
  }

  /** The sorted keys of a map whose keys are 1, 2, 3 and 4. */
  lemma SortedOneToFourKeys(keys: seq<int>, m: map<int, string>)
    requires m == map[1 := "one", 2 := "two", 3 := "three", 4 := "four"]
    requires StrictlySorted(keys, IntLess) && (forall k :: k in keys <==> k in m)
    ensures keys == [1, 2, 3, 4]
  {
    assert m.Keys == {1, 2, 3, 4};
    assert StrictlySorted([1, 2, 3, 4], IntLess);
    forall k
      ensures k in keys <==> k in [1, 2, 3, 4]
    {
      assert k in keys <==> k in m.Keys;
    }
    SortedInts(keys, [1, 2, 3, 4]);
  }

  /** The NaturalSort iterator over the keys 3, 1, 2 and 4 the tests set: the snapshot is [1, 2, 3, 4]. */
  method SortedOneToFour() returns (m: Map<int, string>, it: SortedIterator<int, string>)
    ensures fresh(m) && fresh(it)
    ensures m.m == map[1 := "one", 2 := "two", 3 := "three", 4 := "four"]
    ensures it.source == m && it.keys == [1, 2, 3, 4] && it.pos == 0
  {
    m := OneToFour();
    it := NaturalSort(m);
    SortedOneToFourKeys(it.keys, m.m);
  }

  /**
    A key deleted while NaturalSort is under way is skipped: after key 1 is
    visited key 2 is deleted, and the visit goes on with 3 and 4
    (smap/smap_test.go:798-830).
  */
  method NaturalSortSkipsDeleted() returns (visited: seq<KV<int, string>>)
    ensures visited == [KV(1, "one"), KV(3, "three"), KV(4, "four")]
  {
    var m, it := SortedOneToFour();
    var r := it.Next();
    assert r == Some(KV(1, "one"));
    visited := [r.value];
    var v := m.Delete([2]);
    assert m.m == map[1 := "one", 3 := "three", 4 := "four"];
    assert NextPresent(it.keys, 1, m.m) == 2;
    r := it.Next();
    assert r == Some(KV(3, "three"));
    visited := visited + [r.value];
    r := it.Next();
    assert r == Some(KV(4, "four"));
    visited := visited + [r.value];
    r := it.Next();
    assert r.None?;
  }
}
