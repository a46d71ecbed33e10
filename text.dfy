/** Character-level string operations the scraper relies on: Python's
    str.replace with one-character arguments, decimal digit strings, and
    digit grouping in threes as done by the "," format specifier. */
module Text {

  predicate IsDigit(ch: char) {
    '0' <= ch <= '9'
  }

  predicate AllDigits(s: string) {
    forall i {:trigger IsDigit(s[i])} :: 0 <= i < |s| ==> IsDigit(s[i])
  }

  function DigitValue(ch: char): (d: nat)
    requires IsDigit(ch)
    ensures d < 10
  {
    ch as int - '0' as int
  }

  function DigitChar(d: nat): (ch: char)
    requires d < 10
    ensures IsDigit(ch) && DigitValue(ch) == d
  {
    ('0' as int + d) as char
  }

  function Abs(x: int): (a: nat)
    ensures a == x || a == -x
  {
    if x < 0 then -x else x
  }

  // ---------------------------------------------------------------------
  // Counting, replacing and deleting one character

  /** Number of occurrences of `c` in `s`. */
  function Count(s: string, c: char): (n: nat)
    ensures n <= |s|
  {
    if s == [] then 0 else (if s[0] == c then 1 else 0) + Count(s[1..], c)
  }

  /** Python's `s.replace(from, to)` for one-character `from` and `to`. */
  function Replace(s: string, from: char, to: char): (r: string)
    ensures |r| == |s|
  {
    if s == [] then []
    else [if s[0] == from then to else s[0]] + Replace(s[1..], from, to)
  }

  /** Python's `s.replace(c, "")`: every occurrence of `c` removed. */
  function Delete(s: string, c: char): (r: string)
    ensures |r| == |s| - Count(s, c)
  {
    if s == [] then []
    else (if s[0] == c then [] else [s[0]]) + Delete(s[1..], c)
  }

  /** A character occurs in a string exactly when its count is positive. */
  lemma {:induction false} CountZero(s: string, c: char)
    ensures Count(s, c) == 0 <==> c !in s
  {
    if s != [] {
      CountZero(s[1..], c);
      assert c in s <==> s[0] == c || c in s[1..] by {
        assert s == [s[0]] + s[1..];
      }
    }
  }

  /** Replacing a character by a different one leaves none of it. */
  lemma {:induction false} ReplaceRemoves(s: string, from: char, to: char)
    requires from != to
    ensures from !in Replace(s, from, to)
  {
    if s != [] {
      ReplaceRemoves(s[1..], from, to);
    }
  }

  lemma {:induction false} CountAppend(s: string, t: string, c: char)
    ensures Count(s + t, c) == Count(s, c) + Count(t, c)
  {
    if s != [] {
      assert (s + t)[0] == s[0];
      assert (s + t)[1..] == s[1..] + t;
      CountAppend(s[1..], t, c);
    } else {
      assert s + t == t;
    }
  }

  lemma {:induction false} ReplaceAppend(s: string, t: string, from: char, to: char)
    ensures Replace(s + t, from, to) == Replace(s, from, to) + Replace(t, from, to)
  {
    if s != [] {
      assert (s + t)[0] == s[0];
      assert (s + t)[1..] == s[1..] + t;
      ReplaceAppend(s[1..], t, from, to);
    } else {
      assert s + t == t;
    }
  }

  lemma {:induction false} DeleteAppend(s: string, t: string, c: char)
    ensures Delete(s + t, c) == Delete(s, c) + Delete(t, c)
  {
    if s != [] {
      assert (s + t)[0] == s[0];
      assert (s + t)[1..] == s[1..] + t;
      DeleteAppend(s[1..], t, c);
    } else {
      assert s + t == t;
    }
  }

  /** A string without `c` is left as it is by deleting `c`. */
  lemma {:induction false} DeleteAbsent(s: string, c: char)
    requires c !in s
    ensures Delete(s, c) == s
  {
    if s != [] {
      assert c !in s[1..];
      DeleteAbsent(s[1..], c);
    }
  }

  /** A string without `from` is left as it is by replacing `from`. */
  lemma {:induction false} ReplaceAbsent(s: string, from: char, to: char)
    requires from !in s
    ensures Replace(s, from, to) == s
  {
    if s != [] {
      assert from !in s[1..];
      ReplaceAbsent(s[1..], from, to);
    }
  }

  // ---------------------------------------------------------------------
  // Decimal digit strings

  /** Value of a string of decimal digits, most significant first. */
  function Value(s: string): nat
    requires AllDigits(s)
  {
    if s == [] then 0 else Value(s[..|s| - 1]) * 10 + DigitValue(s[|s| - 1])
  }

  /** The shortest decimal representation of `n` (Python's `str(n)`):
      digits only, no leading zero, and it denotes `n`. */
  function Digits(n: nat): (s: string)
    ensures |s| >= 1 && AllDigits(s)
    ensures |s| > 1 ==> s[0] != '0'
    ensures Value(s) == n
    decreases n
  {
    if n < 10 then [DigitChar(n)]
    else
      var prefix := Digits(n / 10);
      var s := prefix + [DigitChar(n % 10)];
      assert s[..|s| - 1] == prefix;
      s
  }

  /** `k` written with exactly two digits, leading zero kept. */
  function Pad2(k: nat): (s: string)
    requires k < 100
    ensures |s| == 2 && AllDigits(s) && Value(s) == k
  {
    var s := [DigitChar(k / 10), DigitChar(k % 10)];
    assert s[..1] == [DigitChar(k / 10)];
    assert Value(s[..1]) == k / 10;
    assert k / 10 * 10 + k % 10 == k;
    s
  }

  /** `k` written with exactly three digits, leading zeros kept. */
  function Pad3(k: nat): (s: string)
    requires k < 1000
    ensures |s| == 3 && AllDigits(s) && Value(s) == k
  {
    var s := Pad2(k / 10) + [DigitChar(k % 10)];
    assert s[..2] == Pad2(k / 10);
    s
  }

  /** A number below 1000 has at most three digits. */
  lemma DigitsBelowThousand(n: nat)
    requires n < 1000
    ensures |Digits(n)| <= 3
  {
    if n >= 10 {
      assert |Digits(n)| == |Digits(n / 10)| + 1;
      if n / 10 >= 10 {
        assert |Digits(n / 10)| == |Digits(n / 100)| + 1;
        assert n / 10 / 10 == n / 100;
      }
    }
  }

  lemma DigitsAppend(q: nat, d: nat)
    requires q >= 1 && d < 10
    ensures Digits(q * 10 + d) == Digits(q) + [DigitChar(d)]
  {
    assert (q * 10 + d) / 10 == q && (q * 10 + d) % 10 == d;
  }

  /** Appending three digits to a number's representation multiplies it by 1000. */
  lemma DigitsGroup(q: nat, r: nat)
    requires q >= 1 && r < 1000
    ensures Digits(q * 1000 + r) == Digits(q) + Pad3(r)
  {
    var t := r / 10;
    var m1 := q * 10 + t / 10;
    var m2 := m1 * 10 + t % 10;
    assert q * 1000 + r == m2 * 10 + r % 10 by {
      assert r == t * 10 + r % 10;
      assert t == t / 10 * 10 + t % 10;
    }
    DigitsAppend(q, t / 10);
    DigitsAppend(m1, t % 10);
    DigitsAppend(m2, r % 10);
    assert Pad3(r) == [DigitChar(t / 10), DigitChar(t % 10), DigitChar(r % 10)];
  }

  // ---------------------------------------------------------------------
  // Digit grouping

  /** `n` in decimal with `sep` between every group of three digits,
      counted from the right (the "," option of Python's format mini-language,
      with the separator as a parameter). */
  function Grouped(n: nat, sep: char): (s: string)
    ensures |s| >= 1 && IsDigit(s[0])
    decreases n
  {
    if n < 1000 then Digits(n)
    else Grouped(n / 1000, sep) + [sep] + Pad3(n % 1000)
  }

  /** A grouped number has one separator per complete group of three digits
      after the leading group. */
  lemma {:induction false} GroupedLength(n: nat, sep: char)
    ensures |Grouped(n, sep)| == |Digits(n)| + (|Digits(n)| - 1) / 3
    decreases n
  {
    if n < 1000 {
      DigitsBelowThousand(n);
    } else {
      var q, r := n / 1000, n % 1000;
      GroupedLength(q, sep);
      DigitsGroup(q, r);
      assert n == q * 1000 + r;
    }
  }

  /** Digits grouped in threes by `sep`: a leading group of one to three
      digits, then groups of exactly three, each after one `sep`. */
  predicate WellGrouped(s: string, sep: char)
    decreases |s|
  {
    if |s| <= 3 then 1 <= |s| && AllDigits(s)
    else
      |s| >= 5 && s[|s| - 4] == sep && AllDigits(s[|s| - 3..]) && WellGrouped(s[..|s| - 4], sep)
  }

  lemma {:induction false} GroupedIsWellGrouped(n: nat, sep: char)
    ensures WellGrouped(Grouped(n, sep), sep)
    decreases n
  {
    if n < 1000 {
      DigitsBelowThousand(n);
    } else {
      var g := Grouped(n / 1000, sep);
      GroupedIsWellGrouped(n / 1000, sep);
      var s := g + [sep] + Pad3(n % 1000);
      assert s == Grouped(n, sep);
      assert |g| >= 1;
      assert s[|s| - 4] == sep;
      assert s[..|s| - 4] == g;
      assert s[|s| - 3..] == Pad3(n % 1000);
    }
  }

  /** Every character of a grouped number is a digit or the separator. */
  lemma {:induction false} GroupedChars(n: nat, sep: char)
    ensures forall i :: 0 <= i < |Grouped(n, sep)| ==> IsDigit(Grouped(n, sep)[i]) || Grouped(n, sep)[i] == sep
    decreases n
  {
    if n >= 1000 {
      GroupedChars(n / 1000, sep);
    }
  }

  /** A non-digit does not occur in a digit string. */
  lemma NotInDigits(s: string, c: char)
    requires AllDigits(s) && !IsDigit(c)
    ensures c !in s
  {
    forall i | 0 <= i < |s| ensures s[i] != c {
      assert IsDigit(s[i]);
    }
  }

  /** Deleting `c` from `g`, one `c` and a text without `c`. */
  lemma DeleteJoin(g: string, p: string, c: char)
    requires c !in p
    ensures Delete(g + [c] + p, c) == Delete(g, c) + p
  {
    var gc := g + [c];
    DeleteAppend(gc, p, c);
    DeleteAppend(g, [c], c);
    DeleteAbsent(p, c);
    DeleteItself(c);
    assert Delete(gc, c) == Delete(g, c);
  }

  lemma DeleteItself(c: char)
    ensures Delete([c], c) == []
  {
    assert [c][1..] == [];
  }

  /** Removing the separators from a grouped number gives its plain digits. */
  lemma {:induction false} GroupedUngroups(n: nat, sep: char)
    requires !IsDigit(sep)
    ensures Delete(Grouped(n, sep), sep) == Digits(n)
    decreases n
  {
    if n < 1000 {
      NotInDigits(Digits(n), sep);
      DeleteAbsent(Digits(n), sep);
    } else {
      var q, r := n / 1000, n % 1000;
      GroupedUngroups(q, sep);
      NotInDigits(Pad3(r), sep);
      DeleteJoin(Grouped(q, sep), Pad3(r), sep);
      assert n == q * 1000 + r;
      DigitsGroup(q, r);
    }
  }

  /** Renaming the separator of a grouped number gives the same number
      grouped with the new separator. */
  lemma {:induction false} GroupedRename(n: nat, a: char, b: char)
    requires !IsDigit(a)
    ensures Replace(Grouped(n, a), a, b) == Grouped(n, b)
    decreases n
  {
    if n < 1000 {
      NotInDigits(Digits(n), a);
      ReplaceAbsent(Digits(n), a, b);
    } else {
      var g, p := Grouped(n / 1000, a), Pad3(n % 1000);
      GroupedRename(n / 1000, a, b);
      NotInDigits(p, a);
      ReplaceAppend(g + [a], p, a, b);
      ReplaceAppend(g, [a], a, b);
      ReplaceAbsent(p, a, b);
    }
  }
}
