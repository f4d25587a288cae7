/**
 The text form of one tree node, `<bNumber>:<course> <course> ...`, as the
 in-order dump writes it. The key is written in decimal (with a leading `-`
 for a negative key) and the courses are listed in lexicographic order,
 separated by single spaces.
 */
module Rendering {

  /** Lexicographic order on strings, character by character. */
  predicate LexLe(a: string, b: string)
    decreases |a|
  {
    |a| == 0 || (|b| > 0 && (a[0] < b[0] || (a[0] == b[0] && LexLe(a[1..], b[1..]))))
  }

  lemma {:induction false} LexLeTotal(a: string, b: string)
    ensures LexLe(a, b) || LexLe(b, a)
    decreases |a|
  {
    if |a| > 0 && |b| > 0 && a[0] == b[0] {
      LexLeTotal(a[1..], b[1..]);
    }
  }

  lemma {:induction false} LexLeReflexive(a: string)
    ensures LexLe(a, a)
    decreases |a|
  {
    if |a| > 0 {
      LexLeReflexive(a[1..]);
    }
  }

  lemma {:induction false} LexLeAntisymmetric(a: string, b: string)
    requires LexLe(a, b) && LexLe(b, a)
    ensures a == b
    decreases |a|
  {
    if |a| > 0 && |b| > 0 {
      LexLeAntisymmetric(a[1..], b[1..]);
      assert a == [a[0]] + a[1..] && b == [b[0]] + b[1..];
    }
  }

  lemma {:induction false} LexLeTransitive(a: string, b: string, c: string)
    requires LexLe(a, b) && LexLe(b, c)
    ensures LexLe(a, c)
    decreases |a|
  {
    if |a| > 0 && |b| > 0 && |c| > 0 && a[0] == b[0] && b[0] == c[0] {
      LexLeTransitive(a[1..], b[1..], c[1..]);
    }
  }

  /** `m` comes first, lexicographically, among the strings of `s`. */
  predicate IsLeast(m: string, s: set<string>)
  {
    m in s && forall x | x in s :: LexLe(m, x)
  }

  lemma {:induction false} LeastExists(s: set<string>)
    requires s != {}
    ensures exists m :: IsLeast(m, s)
    decreases |s|
  {
    var x :| x in s;
    if s == {x} {
      LexLeReflexive(x);
      assert IsLeast(x, s);
    } else {
      LeastExists(s - {x});
      var m :| IsLeast(m, s - {x});
      LexLeTotal(m, x);
      if LexLe(m, x) {
        assert IsLeast(m, s);
      } else {
        forall y | y in s ensures LexLe(x, y) {
          if y != x {
            LexLeTransitive(x, m, y);
          } else {
            LexLeReflexive(x);
          }
        }
        assert IsLeast(x, s);
      }
    }
  }

  lemma LeastIsUnique()
    ensures forall m1, m2, s :: IsLeast(m1, s) && IsLeast(m2, s) ==> m1 == m2
  {
    forall m1, m2, s | IsLeast(m1, s) && IsLeast(m2, s) ensures m1 == m2 {
      LexLeAntisymmetric(m1, m2);
    }
  }

  /** The courses of a set, listed once each in strictly ascending lexicographic order. */
  function SortedCourses(s: set<string>): (r: seq<string>)
    ensures |r| == |s|
    ensures forall x :: x in r <==> x in s
    ensures forall i, j | 0 <= i < j < |r| :: LexLe(r[i], r[j]) && r[i] != r[j]
    decreases |s|
  {
    if s == {} then []
    else
      LeastExists(s);
      LeastIsUnique();
      var m :| IsLeast(m, s);
      [m] + SortedCourses(s - {m})
  }

  /** Space-separated concatenation. */
  function Join(xs: seq<string>): string
  {
    if |xs| == 0 then ""
    else if |xs| == 1 then xs[0]
    else xs[0] + " " + Join(xs[1..])
  }

  function DigitChar(d: nat): char
    requires d < 10
  {
    "0123456789"[d]
  }

  function DigitValue(c: char): nat
  {
    if '0' <= c <= '9' then (c - '0') as nat else 0
  }

  /** Decimal digits of a natural number, most significant first, no leading zeros. */
  function NatToString(n: nat): (s: string)
    ensures |s| > 0
    ensures forall i | 0 <= i < |s| :: '0' <= s[i] <= '9'
    decreases n
  {
    if n < 10 then [DigitChar(n)] else NatToString(n / 10) + [DigitChar(n % 10)]
  }

  /** Decimal text of an integer, as Java writes an `int`. */
  function IntToString(i: int): (s: string)
  {
    if i < 0 then "-" + NatToString(-i) else NatToString(i)
  }

  /** Value of a string of decimal digits. */
  function ParseNat(s: string): nat
    decreases |s|
  {
    if |s| == 0 then 0 else ParseNat(s[..|s| - 1]) * 10 + DigitValue(s[|s| - 1])
  }

  function ParseInt(s: string): int
  {
    if |s| > 0 && s[0] == '-' then -(ParseNat(s[1..]) as int) else ParseNat(s)
  }

  lemma {:induction false} NatRoundTrip(n: nat)
    ensures ParseNat(NatToString(n)) == n
    decreases n
  {
    if n >= 10 {
      NatRoundTrip(n / 10);
      var s := NatToString(n);
      assert s[..|s| - 1] == NatToString(n / 10);
    }
  }

  /** The text of a non-negative key has no sign and parses back to the key. */
  lemma UnsignedRoundTrip(i: int)
    requires i >= 0
    ensures ParseInt(IntToString(i)) == i
  {
    var s := NatToString(i);
    NatRoundTrip(i);
    assert IntToString(i) == s && s[0] != '-';
  }

  /** A minus sign before the digits of a natural number parses back to its negation. */
  lemma SignedTextRoundTrip(n: nat)
    ensures ParseInt("-" + NatToString(n)) == -(n as int)
  {
    NatRoundTrip(n);
    assert ("-" + NatToString(n))[1..] == NatToString(n);
  }

  /** The text of a negative key is a minus sign before the digits of its magnitude. */
  lemma SignedRoundTrip(i: int)
    requires i < 0
    ensures ParseInt(IntToString(i)) == i
  {
    SignedTextRoundTrip(-i);
    assert IntToString(i) == "-" + NatToString(-i);
  }

  lemma {:induction false} IntRoundTrip(i: int)
    ensures ParseInt(IntToString(i)) == i
  {
    if i < 0 {
      SignedRoundTrip(i);
    } else {
      UnsignedRoundTrip(i);
    }
  }

  /** Line for one node: `<bNumber>:<courses in order, space-separated>`. */
  function Render(bNumber: int, courses: set<string>): string
  {
    IntToString(bNumber) + ":" + Join(SortedCourses(courses))
  }

  /** The text of a line before its first colon. */
  function KeyField(line: string): string
    decreases |line|
  {
    if |line| == 0 || line[0] == ':' then [] else [line[0]] + KeyField(line[1..])
  }

  /** The text of a line after its first colon. */
  function CoursesField(line: string): string
    decreases |line|
  {
    if |line| == 0 then [] else if line[0] == ':' then line[1..] else CoursesField(line[1..])
  }

  lemma {:induction false} FieldsSplitAtColon(key: string, rest: string)
    requires ':' !in key
    ensures KeyField(key + ":" + rest) == key
    ensures CoursesField(key + ":" + rest) == rest
    decreases |key|
  {
    if |key| > 0 {
      FieldsSplitAtColon(key[1..], rest);
      assert (key + ":" + rest)[1..] == key[1..] + ":" + rest;
    } else {
      assert key + ":" + rest == [':'] + rest;
    }
  }

  /**
   A rendered line carries its node's key in front of the first colon, so the
   key is recovered from the line, and the courses, sorted, after it.
   */
  lemma RenderFields(bNumber: int, courses: set<string>)
    ensures ParseInt(KeyField(Render(bNumber, courses))) == bNumber
    ensures CoursesField(Render(bNumber, courses)) == Join(SortedCourses(courses))
  {
    var key := IntToString(bNumber);
    assert ':' !in key by {
      if bNumber < 0 {
        assert key == "-" + NatToString(-bNumber);
        assert forall i | 0 <= i < |key| :: key[i] == '-' || '0' <= key[i] <= '9';
      }
    }
    FieldsSplitAtColon(key, Join(SortedCourses(courses)));
    IntRoundTrip(bNumber);
  }

  /** Different keys give different lines. */
  lemma RenderDistinguishesKeys(k1: int, c1: set<string>, k2: int, c2: set<string>)
    requires k1 != k2
    ensures Render(k1, c1) != Render(k2, c2)
  {
    RenderFields(k1, c1);
    RenderFields(k2, c2);
  }
}
