/**
 * List operations the controllers rely on: duplicate detection, adding the
 * absent elements of one list to another, and repeating the elements of a
 * list, which is what linking stands and publishers does to their lists.
 */
module Lists {
  /** The set of elements of a list. */
  function Elements<T(==)>(l: seq<T>): set<T>
  {
    set x | x in l
  }

  /** No element occurs twice. */
  ghost predicate Distinct<T>(l: seq<T>)
  {
    forall i, j :: 0 <= i < j < |l| ==> l[i] != l[j]
  }

  /**
   * `list.stream().distinct().count() != list.size()`: are there fewer
   * distinct elements than elements?
   */
  function HasDuplicates<T(==)>(l: seq<T>): (b: bool)
    ensures b <==> !Distinct(l)
  {
    ElementsCount(l);
    |Elements(l)| != |l|
  }

  lemma {:induction false} ElementsCount<T>(l: seq<T>)
    ensures |Elements(l)| <= |l|
    ensures |Elements(l)| == |l| <==> Distinct(l)
  {
    if l != [] {
      var init, x := l[..|l| - 1], l[|l| - 1];
      ElementsCount(init);
      assert l == init + [x];
      DistinctAppend(init, x);
      assert Elements(l) == Elements(init) + {x};
      assert x in init <==> x in Elements(init);
    }
  }

  /** The list has duplicates exactly when two positions hold equal elements. */
  lemma HasDuplicatesIff<T>(l: seq<T>)
    ensures HasDuplicates(l) <==> exists i, j :: 0 <= i < j < |l| && l[i] == l[j]
  {
    ElementsCount(l);
  }

  /** Appending keeps a list duplicate-free exactly when the new element is not in it yet. */
  lemma DistinctAppend<T>(s: seq<T>, x: T)
    ensures Distinct(s + [x]) <==> Distinct(s) && x !in s
  {
    var t := s + [x];
    if x in s {
      var i :| 0 <= i < |s| && s[i] == x;
      assert t[i] == t[|s|];
    } else if !Distinct(s) {
      var i, j :| 0 <= i < j < |s| && s[i] == s[j];
      assert t[i] == t[j];
    } else {
      forall i, j | 0 <= i < j < |t|
        ensures t[i] != t[j]
      {
        assert t[i] == s[i];
      }
    }
  }

  /**
   * Goes through `items` in order and appends each one not yet present:
   * `if (!list.contains(x)) list.add(x)`.
   */
  function AddAbsent<T(==)>(acc: seq<T>, items: seq<T>): (r: seq<T>)
    ensures |acc| <= |r| && forall i :: 0 <= i < |acc| ==> r[i] == acc[i]
    ensures forall i :: 0 <= i < |items| ==> items[i] in r
    ensures forall i :: 0 <= i < |r| ==> r[i] in acc || r[i] in items
  {
    if items == [] then acc
    else
      var a := AddAbsent(acc, items[..|items| - 1]);
      var x := items[|items| - 1];
      if x in a then a else a + [x]
  }

  /** Adding items that are all present already changes nothing. */
  lemma {:induction false} AddAbsentPresent<T>(acc: seq<T>, items: seq<T>)
    requires forall i :: 0 <= i < |items| ==> items[i] in acc
    ensures AddAbsent(acc, items) == acc
  {
    if items != [] {
      AddAbsentPresent(acc, items[..|items| - 1]);
    }
  }

  /** Adding the same items a second time changes nothing. */
  lemma AddAbsentIdempotent<T>(acc: seq<T>, items: seq<T>)
    ensures AddAbsent(AddAbsent(acc, items), items) == AddAbsent(acc, items)
  {
    AddAbsentPresent(AddAbsent(acc, items), items);
  }

  /** A list without duplicates stays without duplicates. */
  lemma {:induction false} AddAbsentDistinct<T>(acc: seq<T>, items: seq<T>)
    requires Distinct(acc)
    ensures Distinct(AddAbsent(acc, items))
  {
    if items != [] {
      AddAbsentDistinct(acc, items[..|items| - 1]);
      var a := AddAbsent(acc, items[..|items| - 1]);
      var x := items[|items| - 1];
      if x !in a {
        var r := a + [x];
        forall i, j | 0 <= i < j < |r|
          ensures r[i] != r[j]
        {
          if j == |a| {
            assert r[i] == a[i];
          }
        }
      }
    }
  }

  /** How many times `x` occurs in `l`. */
  function Count<T(==)>(l: seq<T>, x: T): nat
  {
    if l == [] then 0 else Count(l[..|l| - 1], x) + if l[|l| - 1] == x then 1 else 0
  }

  /** The count is the multiplicity of `x` in the multiset of `l`. */
  lemma {:induction false} CountIsMultiplicity<T>(l: seq<T>, x: T)
    ensures Count(l, x) == multiset(l)[x]
  {
    if l != [] {
      var init := l[..|l| - 1];
      CountIsMultiplicity(init, x);
      assert l == init + [l[|l| - 1]];
    }
  }

  /** `x`, `n` times. */
  function Rep<T>(x: T, n: nat): (r: seq<T>)
    ensures |r| == n && forall i :: 0 <= i < n ==> r[i] == x
  {
    if n == 0 then [] else Rep(x, n - 1) + [x]
  }

  /** Each element of `l` in order, each repeated `n` times in a row. */
  function Repeat<T>(l: seq<T>, n: nat): seq<T>
  {
    if l == [] then [] else Repeat(l[..|l| - 1], n) + Rep(l[|l| - 1], n)
  }

  /** Every element of `l` occurs `n` times as often in `Repeat(l, n)` as in `l`. */
  lemma {:induction false} RepeatCount<T>(l: seq<T>, n: nat, x: T)
    ensures Count(Repeat(l, n), x) == n * Count(l, x)
  {
    if l != [] {
      var init, y := l[..|l| - 1], l[|l| - 1];
      RepeatCount(init, n, x);
      CountConcat(Repeat(init, n), Rep(y, n), x);
      RepCount(y, n, x);
      ScaleStep(n, Count(init, x), Count(l, x), x == y, Count(Repeat(init, n), x), Count(Repeat(l, n), x));
    }
  }

  /** A count `n` times another grows by `n` when the other grows by one. */
  lemma ScaleStep(n: nat, m: nat, k: nat, grows: bool, before: int, after: int)
    requires before == n * m
    requires k == m + (if grows then 1 else 0)
    requires after == before + (if grows then n else 0)
    ensures after == n * k
  {
    if grows {
      calc {
        n * k;
        n * (m + 1);
        n * m + n;
      }
    }
  }

  /** Counting over a concatenation adds the counts of the parts. */
  lemma {:induction false} CountConcat<T>(a: seq<T>, b: seq<T>, x: T)
    ensures Count(a + b, x) == Count(a, x) + Count(b, x)
  {
    if b == [] {
      assert a + b == a;
    } else {
      var init := b[..|b| - 1];
      CountConcat(a, init, x);
      assert (a + b)[..|a + b| - 1] == a + init;
    }
  }

  lemma {:induction false} RepCount<T>(y: T, n: nat, x: T)
    ensures Count(Rep(y, n), x) == if x == y then n else 0
  {
    if n > 0 {
      RepCount(y, n - 1, x);
      assert Rep(y, n)[..n - 1] == Rep(y, n - 1);
    }
  }
}
