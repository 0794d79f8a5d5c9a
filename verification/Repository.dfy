/**
 * The in-memory store behind every entity type. Each repository keeps one
 * list in ascending key order: `save` appends and re-sorts (a stable sort),
 * `update` replaces the first entry with the same key and re-sorts,
 * `findById` returns the first entry with a key, and `findAll` returns a
 * copy of the list. The six repositories of the source differ only in the
 * entity type and the key, so one class parameterised by both serves them all.
 */
module Repository {
  import opened Common
  import opened Keys

  /** Ascending by key. */
  ghost predicate Sorted<T>(keyOf: T -> Key, s: seq<T>)
  {
    forall i, j :: 0 <= i < j < |s| ==> KeyLe(keyOf(s[i]), keyOf(s[j]))
  }

  /**
   * Places `e` right after the last element whose key is at most `e`'s,
   * scanning from the end: one step of a stable insertion sort.
   */
  function Insert<T>(keyOf: T -> Key, s: seq<T>, e: T): (r: seq<T>)
    ensures |r| == |s| + 1
    ensures multiset(r) == multiset(s) + multiset{e}
  {
    if s == [] then [e]
    else if KeyLe(keyOf(s[|s| - 1]), keyOf(e)) then s + [e]
    else
      assert s == s[..|s| - 1] + [s[|s| - 1]];
      Insert(keyOf, s[..|s| - 1], e) + [s[|s| - 1]]
  }

  /**
   * `List.sort` with a key comparator: a stable sort, given here as
   * insertion sort. (A stable sort's result is unique, so any stable sort
   * agrees with this one.)
   */
  function Sort<T>(keyOf: T -> Key, s: seq<T>): (r: seq<T>)
    ensures |r| == |s|
    ensures multiset(r) == multiset(s)
  {
    if s == [] then []
    else
      assert s == s[..|s| - 1] + [s[|s| - 1]];
      Insert(keyOf, Sort(keyOf, s[..|s| - 1]), s[|s| - 1])
  }

  /** Inserting into a sorted list keeps it sorted. */
  lemma {:induction false} InsertSorted<T>(keyOf: T -> Key, s: seq<T>, e: T)
    requires Sorted(keyOf, s)
    ensures Sorted(keyOf, Insert(keyOf, s, e))
  {
    if s == [] {
    } else if KeyLe(keyOf(s[|s| - 1]), keyOf(e)) {
      var r := s + [e];
      forall i, j | 0 <= i < j < |r| ensures KeyLe(keyOf(r[i]), keyOf(r[j])) {
        if j == |s| && i < |s| - 1 {
          KeyLeTransitive(keyOf(s[i]), keyOf(s[|s| - 1]), keyOf(e));
        }
      }
    } else {
      var init, last := s[..|s| - 1], s[|s| - 1];
      InsertSorted(keyOf, init, e);
      var q := Insert(keyOf, init, e);
      var r := q + [last];
      KeyLeTotal(keyOf(last), keyOf(e));
      forall i, j | 0 <= i < j < |r| ensures KeyLe(keyOf(r[i]), keyOf(r[j])) {
        if j == |q| {
          assert r[i] in multiset(q);
          if r[i] != e {
            assert r[i] in multiset(init);
            var k :| 0 <= k < |init| && init[k] == r[i];
            assert s[k] == r[i];
          }
        }
      }
    }
  }

  /**
   * Where the insertion lands: after the last element whose key is at most
   * `e`'s, that is, at the `j` that has only larger keys after it.
   */
  lemma {:induction false} InsertAt<T>(keyOf: T -> Key, s: seq<T>, e: T, j: nat)
    requires j <= |s|
    requires j > 0 ==> KeyLe(keyOf(s[j - 1]), keyOf(e))
    requires forall k :: j <= k < |s| ==> !KeyLe(keyOf(s[k]), keyOf(e))
    ensures Insert(keyOf, s, e) == s[..j] + [e] + s[j..]
  {
    if j < |s| {
      var init, last := s[..|s| - 1], s[|s| - 1];
      assert !KeyLe(keyOf(last), keyOf(e));
      assert Insert(keyOf, s, e) == Insert(keyOf, init, e) + [last];
      InsertAt(keyOf, init, e, j);
      SplitLast(s, e, j);
    } else {
      assert s[..j] == s && s[j..] == [];
    }
  }

  lemma SplitLast<T>(s: seq<T>, e: T, j: nat)
    requires j < |s|
    ensures s[..|s| - 1][..j] + [e] + s[..|s| - 1][j..] + [s[|s| - 1]] == s[..j] + [e] + s[j..]
  {
    assert s[j..] == s[j..|s| - 1] + [s[|s| - 1]];
  }

  /** The stable sort produces a sorted list. */
  lemma {:induction false} SortSorted<T>(keyOf: T -> Key, s: seq<T>)
    ensures Sorted(keyOf, Sort(keyOf, s))
  {
    if s != [] {
      SortSorted(keyOf, s[..|s| - 1]);
      InsertSorted(keyOf, Sort(keyOf, s[..|s| - 1]), s[|s| - 1]);
    }
  }

  /** Re-sorting a sorted list leaves it exactly as it was. */
  lemma {:induction false} SortOfSorted<T>(keyOf: T -> Key, s: seq<T>)
    requires Sorted(keyOf, s)
    ensures Sort(keyOf, s) == s
  {
    if s != [] {
      var init := s[..|s| - 1];
      assert Sorted(keyOf, init);
      SortOfSorted(keyOf, init);
      if |s| > 1 {
        assert KeyLe(keyOf(init[|init| - 1]), keyOf(s[|s| - 1]));
      }
      assert init + [s[|s| - 1]] == s;
    }
  }

  /** On a sorted list, "append then sort" is one insertion. */
  lemma AppendThenSort<T>(keyOf: T -> Key, s: seq<T>, e: T)
    requires Sorted(keyOf, s)
    ensures Sort(keyOf, s + [e]) == Insert(keyOf, s, e)
  {
    assert (s + [e])[..|s|] == s;
    SortOfSorted(keyOf, s);
  }

  /** `t` is `s` with `e` inserted at index `j`. */
  ghost predicate InsertedAt<T>(s: seq<T>, t: seq<T>, e: T, j: int)
  {
    0 <= j <= |s| && t == s[..j] + [e] + s[j..]
  }

  /** The index of the first element with key `k`, if any. */
  function FirstIndex<T>(keyOf: T -> Key, s: seq<T>, k: Key): (r: Option<nat>)
    ensures r.Some? ==> r.value < |s| && keyOf(s[r.value]) == k
    ensures r.Some? ==> forall j :: 0 <= j < r.value ==> keyOf(s[j]) != k
    ensures r.None? ==> forall j :: 0 <= j < |s| ==> keyOf(s[j]) != k
  {
    if s == [] then None
    else if keyOf(s[0]) == k then Some(0)
    else
      match FirstIndex(keyOf, s[1..], k)
      case None => None
      case Some(i) => Some(i + 1)
  }

  /** After inserting an entity whose key nothing else has, the first entity with that key is the new one. */
  lemma FindInserted<T>(keyOf: T -> Key, s: seq<T>, t: seq<T>, e: T, j: int)
    requires InsertedAt(s, t, e, j)
    requires forall i :: 0 <= i < |s| ==> keyOf(s[i]) != keyOf(e)
    ensures FirstIndex(keyOf, t, keyOf(e)) == Some(j)
  {
    assert t[j] == e;
  }

  class Repository<T> {
    /** How an entity's key is read (its id, NIT or ISBN). */
    const keyOf: T -> Key
    /** The stored entities, in ascending key order. */
    var data: seq<T>

    ghost predicate Valid()
      reads this
    {
      Sorted(keyOf, data)
    }

    constructor (keyOf: T -> Key)
      ensures Valid() && this.keyOf == keyOf && data == []
    {
      this.keyOf := keyOf;
      data := [];
    }

    /**
     * `save`: append, then sort by key. No uniqueness check is made, so the
     * list always grows by one; the entity lands after every stored entity
     * whose key is at most its own.
     */
    method Save(e: T) returns (r: T)
      requires Valid()
      modifies this
      ensures Valid()
      ensures r == e
      ensures data == Sort(keyOf, old(data) + [e])
      ensures multiset(data) == multiset(old(data)) + multiset{e}
      ensures exists j :: InsertedAt(old(data), data, e, j)
    {
      var j := |data|;
      while j > 0 && !KeyLe(keyOf(data[j - 1]), keyOf(e))
        invariant 0 <= j <= |data|
        invariant forall k :: j <= k < |data| ==> !KeyLe(keyOf(data[k]), keyOf(e))
      {
        j := j - 1;
      }
      InsertAt(keyOf, data, e, j);
      InsertSorted(keyOf, data, e);
      AppendThenSort(keyOf, data, e);
      ghost var before := data;
      data := data[..j] + [e] + data[j..];
      assert InsertedAt(before, data, e, j);
      r := e;
    }

    /**
     * `update`: replace the first entity with the same key as `e`, then
     * re-sort; answer `e`, or None (null) when no entity has that key.
     */
    method Update(e: T) returns (r: Option<T>)
      requires Valid()
      modifies this
      ensures Valid()
      ensures FirstIndex(keyOf, old(data), keyOf(e)).None? ==> r == None && data == old(data)
      ensures FirstIndex(keyOf, old(data), keyOf(e)).Some? ==>
                r == Some(e) && data == old(data)[FirstIndex(keyOf, old(data), keyOf(e)).value := e]
    {
      var i := 0;
      while i < |data|
        invariant 0 <= i <= |data|
        invariant forall j :: 0 <= j < i ==> keyOf(data[j]) != keyOf(e)
      {
        if keyOf(data[i]) == keyOf(e) {
          ghost var first := FirstIndex(keyOf, data, keyOf(e));
          assert first == Some(i);
          var replaced := data[i := e];
          assert Sorted(keyOf, replaced);
          SortOfSorted(keyOf, replaced);
          data := Sort(keyOf, replaced);
          return Some(e);
        }
        i := i + 1;
      }
      return None;
    }

    /** `findById`: the first stored entity with key `k`, or None. */
    function FindById(k: Key): (r: Option<T>)
      reads this
      ensures r.None? <==> forall i :: 0 <= i < |data| ==> keyOf(data[i]) != k
      ensures r.Some? ==> exists i :: 0 <= i < |data| && data[i] == r.value && keyOf(data[i]) == k
                                      && forall j :: 0 <= j < i ==> keyOf(data[j]) != k
    {
      match FirstIndex(keyOf, data, k)
      case None => None
      case Some(i) => Some(data[i])
    }

    /** `findAll`: a copy of the stored list, in key order. */
    method FindAll() returns (r: seq<T>)
      ensures r == data
    {
      r := data;
    }
  }
}
