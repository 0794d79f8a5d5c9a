/**
 * The two identifier formats the controllers enforce on trimmed text:
 * a book's ISBN `NNN-N-NN-NNNNNN-N` and a publisher's NIT `NNN.NNN.NNN-N`
 * (N an ASCII digit), each as a character-position predicate and, as an
 * independent reading of the same regular expression, as digit groups
 * joined by separators.
 */
module Patterns {
  import opened Numbers

  /** `^\d{3}-\d-\d{2}-\d{6}-\d$`: dashes at 3, 5, 8 and 15, digits elsewhere, 17 characters. */
  predicate IsIsbn(s: string)
  {
    && |s| == 17
    && s[3] == '-' && s[5] == '-' && s[8] == '-' && s[15] == '-'
    && forall i :: 0 <= i < 17 && i != 3 && i != 5 && i != 8 && i != 15 ==> IsDigit(s[i])
  }

  /** `^\d{3}\.\d{3}\.\d{3}-\d$`: dots at 3 and 7, a dash at 11, digits elsewhere, 13 characters. */
  predicate IsNit(s: string)
  {
    && |s| == 13
    && s[3] == '.' && s[7] == '.' && s[11] == '-'
    && forall i :: 0 <= i < 13 && i != 3 && i != 7 && i != 11 ==> IsDigit(s[i])
  }

  /**
   * `s` is a run of `sizes[0]` digits, then `seps[0]`, then a run of
   * `sizes[1]` digits, and so on, with nothing after the last run.
   */
  predicate Groups(s: string, sizes: seq<nat>, seps: string)
    decreases |sizes|
  {
    if |sizes| == 0 then false
    else if |sizes| == 1 then |seps| == 0 && |s| == sizes[0] && AllDigits(s)
    else
      && |seps| > 0
      && |s| > sizes[0]
      && AllDigits(s[..sizes[0]])
      && s[sizes[0]] == seps[0]
      && Groups(s[sizes[0] + 1..], sizes[1..], seps[1..])
  }

  /** The position predicate for ISBNs accepts exactly the strings the pattern's groups describe. */
  lemma IsbnAsGroups(s: string)
    ensures IsIsbn(s) <==> Groups(s, [3, 1, 2, 6, 1], "----")
  {
    if |s| == 17 {
      var s1, s2, s3, s4 := s[4..], s[6..], s[9..], s[16..];
      assert s[4..][..1] == s[4..5] && s[4..][1..] == s[5..];
      assert s[5..][1..] == s[6..];
      assert s[6..][..2] == s[6..8] && s[6..][2..] == s[8..];
      assert s[8..][1..] == s[9..];
      assert s[9..][..6] == s[9..15] && s[9..][6..] == s[15..];
      assert s[15..][1..] == s[16..];
      assert Groups(s, [3, 1, 2, 6, 1], "----") <==>
        AllDigits(s[..3]) && s[3] == '-' && Groups(s[4..], [1, 2, 6, 1], "---");
      assert Groups(s[4..], [1, 2, 6, 1], "---") <==>
        AllDigits(s[4..5]) && s[5] == '-' && Groups(s[6..], [2, 6, 1], "--");
      assert Groups(s[6..], [2, 6, 1], "--") <==>
        AllDigits(s[6..8]) && s[8] == '-' && Groups(s[9..], [6, 1], "-");
      assert Groups(s[9..], [6, 1], "-") <==>
        AllDigits(s[9..15]) && s[15] == '-' && Groups(s[16..], [1], "");
    } else {
      if Groups(s, [3, 1, 2, 6, 1], "----") {
        GroupsLength(s, [3, 1, 2, 6, 1], "----");
      }
    }
  }

  /** The position predicate for NITs accepts exactly the strings the pattern's groups describe. */
  lemma NitAsGroups(s: string)
    ensures IsNit(s) <==> Groups(s, [3, 3, 3, 1], "..-")
  {
    if |s| == 13 {
      assert s[4..][..3] == s[4..7] && s[4..][3..] == s[7..];
      assert s[7..][1..] == s[8..];
      assert s[8..][..3] == s[8..11] && s[8..][3..] == s[11..];
      assert s[11..][1..] == s[12..];
      assert Groups(s, [3, 3, 3, 1], "..-") <==>
        AllDigits(s[..3]) && s[3] == '.' && Groups(s[4..], [3, 3, 1], ".-");
      assert Groups(s[4..], [3, 3, 1], ".-") <==>
        AllDigits(s[4..7]) && s[7] == '.' && Groups(s[8..], [3, 1], "-");
      assert Groups(s[8..], [3, 1], "-") <==>
        AllDigits(s[8..11]) && s[11] == '-' && Groups(s[12..], [1], "");
    } else {
      if Groups(s, [3, 3, 3, 1], "..-") {
        GroupsLength(s, [3, 3, 3, 1], "..-");
      }
    }
  }

  function Sum(sizes: seq<nat>): nat
  {
    if sizes == [] then 0 else sizes[0] + Sum(sizes[1..])
  }

  /** A string made of digit groups is as long as the groups and separators together. */
  lemma {:induction false} GroupsLength(s: string, sizes: seq<nat>, seps: string)
    requires Groups(s, sizes, seps)
    ensures |s| == Sum(sizes) + |seps|
    decreases |sizes|
  {
    if |sizes| > 1 {
      GroupsLength(s[sizes[0] + 1..], sizes[1..], seps[1..]);
    }
  }

  /** The sample identifiers: well-formed ones are accepted, a misplaced separator is not. */
  lemma Samples()
    ensures IsIsbn("123-4-56-789012-3")
    ensures !IsIsbn("1234-5-67-890123-4")
    ensures IsNit("900.123.456-7")
    ensures !IsNit("900123456-7")
  {
  }
}
