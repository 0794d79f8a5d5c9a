/**
 * Repository keys and their order. Stands, authors, managers and narrators
 * are kept in ascending numeric id (`Comparator.comparingLong`); publishers
 * and books in ascending NIT / ISBN under `String.compareTo`, which compares
 * character by character and, when one string is a prefix of the other,
 * puts the shorter first.
 */
module Keys {

  datatype Key = Num(n: int) | Str(s: string)

  /** `a.compareTo(b) <= 0`. */
  predicate StrLe(a: string, b: string)
  {
    if a == [] then true
    else if b == [] then false
    else if a[0] != b[0] then a[0] < b[0]
    else StrLe(a[1..], b[1..])
  }

  /** The order a repository sorts by. Numeric and text keys never share a repository. */
  predicate KeyLe(x: Key, y: Key)
  {
    match (x, y)
    case (Num(m), Num(n)) => m <= n
    case (Str(a), Str(b)) => StrLe(a, b)
    case (Num(_), Str(_)) => true
    case (Str(_), Num(_)) => false
  }

  lemma {:induction false} StrLeReflexive(a: string)
    ensures StrLe(a, a)
  {
    if a != [] { StrLeReflexive(a[1..]); }
  }

  /** Any two strings are comparable. */
  lemma {:induction false} StrLeTotal(a: string, b: string)
    ensures StrLe(a, b) || StrLe(b, a)
  {
    if a != [] && b != [] && a[0] == b[0] {
      StrLeTotal(a[1..], b[1..]);
    }
  }

  lemma {:induction false} StrLeTransitive(a: string, b: string, c: string)
    requires StrLe(a, b) && StrLe(b, c)
    ensures StrLe(a, c)
  {
    if a != [] && b != [] && c != [] && a[0] == b[0] && b[0] == c[0] {
      StrLeTransitive(a[1..], b[1..], c[1..]);
    }
  }

  /** Two strings that each compare at most the other are equal. */
  lemma {:induction false} StrLeAntisymmetric(a: string, b: string)
    requires StrLe(a, b) && StrLe(b, a)
    ensures a == b
  {
    if a != [] && b != [] {
      StrLeAntisymmetric(a[1..], b[1..]);
      assert a == [a[0]] + a[1..] && b == [b[0]] + b[1..];
    }
  }

  /** KeyLe is a total order. */
  lemma KeyLeTotal(x: Key, y: Key)
    ensures KeyLe(x, y) || KeyLe(y, x)
  {
    if x.Str? && y.Str? { StrLeTotal(x.s, y.s); }
  }

  lemma KeyLeTransitive(x: Key, y: Key, z: Key)
    requires KeyLe(x, y) && KeyLe(y, z)
    ensures KeyLe(x, z)
  {
    if x.Str? && y.Str? && z.Str? { StrLeTransitive(x.s, y.s, z.s); }
  }

  lemma KeyLeAntisymmetric(x: Key, y: Key)
    requires KeyLe(x, y) && KeyLe(y, x)
    ensures x == y
  {
    if x.Str? && y.Str? { StrLeAntisymmetric(x.s, y.s); }
  }

  lemma KeyLeReflexive(x: Key)
    ensures KeyLe(x, x)
  {
    if x.Str? { StrLeReflexive(x.s); }
  }
}
