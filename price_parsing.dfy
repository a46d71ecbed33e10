/** The pure part of `parse_price` (scrape_prices.py:25-36): the first two
    cells of the first table row give the reference date and the price; the
    price text is normalised from the Brazilian "2.292,66" form to
    "2292.66" and parsed as a number, here into integer cents. */
module PriceParsing {
  import opened Wrappers
  import opened Text

  /** A scraped quote: the date text of cell 0 and the price of cell 1. */
  datatype Quote = Quote(referenceDate: string, cents: int)

  /** `price_str.replace(".", "").replace(",", ".")`: thousands separators
      dropped, the decimal comma turned into a decimal point. */
  function Normalize(s: string): (r: string)
    ensures ',' !in r
    ensures |r| == |s| - Count(s, '.')
    ensures Count(r, '.') == Count(s, ',')
  {
    var r := Replace(Delete(s, '.'), ',', '.');
    NormalizeCounts(s);
    ReplaceRemoves(Delete(s, '.'), ',', '.');
    r
  }

  lemma {:induction false} NormalizeCounts(s: string)
    ensures Count(Replace(Delete(s, '.'), ',', '.'), '.') == Count(s, ',')
  {
    if s != [] {
      NormalizeCounts(s[1..]);
      var head := if s[0] == '.' then [] else [s[0]];
      DeleteAppend(head, s[1..], '.');
      assert s == [s[0]] + s[1..];
      ReplaceAppend(Delete([s[0]], '.'), Delete(s[1..], '.'), ',', '.');
      CountAppend(Replace(Delete([s[0]], '.'), ',', '.'), Replace(Delete(s[1..], '.'), ',', '.'), '.');
      assert Delete([s[0]], '.') == head by {
        assert [s[0]][1..] == [];
      }
    }
  }

  /** Normalisation works character by character: it distributes over
      concatenation ... */
  lemma NormalizeAppend(s: string, t: string)
    ensures Normalize(s + t) == Normalize(s) + Normalize(t)
  {
    DeleteAppend(s, t, '.');
    ReplaceAppend(Delete(s, '.'), Delete(t, '.'), ',', '.');
  }

  /** ... and on one character it drops '.', turns ',' into '.', and keeps
      every other character. Together with NormalizeAppend this fixes the
      result: all characters other than '.' and ',' survive in order. */
  lemma NormalizeChar(ch: char)
    ensures Normalize([ch]) == if ch == '.' then [] else if ch == ',' then ['.'] else [ch]
  {
    assert [ch][1..] == [];
  }

  /** Position of the first `c` in `s`, or |s| when there is none. */
  function IndexOf(s: string, c: char): (k: nat)
    ensures k <= |s|
    ensures k < |s| ==> s[k] == c
  {
    if s == [] then 0
    else if s[0] == c then 0
    else 1 + IndexOf(s[1..], c)
  }

  /** Cents denoted by at most two fraction digits ("" = 0, "5" = 50). */
  function FractionCents(f: string): (c: nat)
    requires AllDigits(f) && |f| <= 2
    ensures c < 100
  {
    if |f| == 0 then 0
    else if |f| == 1 then DigitValue(f[0]) * 10
    else DigitValue(f[0]) * 10 + DigitValue(f[1])
  }

  /** An unsigned decimal: digits, optionally a point and at most two
      fraction digits, with at least one digit in all ("7", "7.", ".5",
      "2292.66"). */
  function ParseUnsigned(s: string): Option<nat> {
    var k := IndexOf(s, '.');
    var whole := s[..k];
    var frac := if k < |s| then s[k + 1..] else "";
    if AllDigits(whole) && AllDigits(frac) && 0 < |whole| + |frac| && |frac| <= 2 then
      Some(Value(whole) * 100 + FractionCents(frac))
    else None
  }

  /** `float(price_str)` for the decimal forms a price cell takes, in cents:
      an optional sign, then an unsigned decimal. None is the ValueError. */
  function ParseCents(s: string): (r: Option<int>)
    ensures r.Some? ==> |s| > 0
    ensures r.Some? && r.value < 0 ==> s[0] == '-'
  {
    if |s| > 0 && (s[0] == '-' || s[0] == '+') then
      match ParseUnsigned(s[1..])
      case Some(v) => var x: int := v; Some(if s[0] == '-' then -x else x)
      case None => None
    else
      ParseUnsigned(s)
  }

  /** The canonical decimal text of an amount of cents, as `str()` of the
      float prints it when it has two decimals: "2292.66", "-0.05". */
  function CentsText(c: int): string {
    Sign(c) + (Digits(Abs(c) / 100) + "." + Pad2(Abs(c) % 100))
  }

  /** The sign written in front of a negative amount. */
  function Sign(cents: int): string {
    if cents < 0 then "-" else ""
  }

  /** Two fraction digits denote their value in cents. */
  lemma FractionCentsTwoDigits(f: string)
    requires |f| == 2 && AllDigits(f)
    ensures FractionCents(f) == Value(f)
  {
    assert f[..1][..0] == [];
    assert Value(f[..1]) == DigitValue(f[0]);
  }

  /** How ParseUnsigned reads text with a '.' at position k and none before. */
  lemma ParseUnsignedAt(u: string, k: nat)
    requires k < |u| && IndexOf(u, '.') == k
    requires AllDigits(u[..k]) && AllDigits(u[k + 1..]) && 0 < |u| - 1 && |u[k + 1..]| <= 2
    ensures ParseUnsigned(u) == Some(Value(u[..k]) * 100 + FractionCents(u[k + 1..]))
  {
  }

  lemma SplitAtPoint(whole: string, frac: string)
    ensures (whole + "." + frac)[..|whole|] == whole
    ensures (whole + "." + frac)[|whole| + 1..] == frac
  {
  }

  /** Cents split into whole units and two decimals recombine to the amount. */
  lemma CentsSplit(n: nat)
    ensures Value(Digits(n / 100)) * 100 + Value(Pad2(n % 100)) == n
  {
  }

  /** A signed decimal with at least one integer digit and exactly two
      decimals, leading zeros allowed, parses to its value in cents,
      negated when a '-' precedes it. */
  lemma ParseCentsDecimal(negative: bool, whole: string, frac: string)
    requires |whole| >= 1 && AllDigits(whole) && |frac| == 2 && AllDigits(frac)
    ensures var v := Value(whole) * 100 + Value(frac);
      ParseCents((if negative then "-" else "") + (whole + "." + frac)) == Some(if negative then -v else v)
  {
    SplitAtPoint(whole, frac);
    ParseCentsPointed(negative, whole + "." + frac, |whole|);
    FractionCentsTwoDigits(frac);
  }

  /** Digits without a point are whole units. */
  lemma ParseUnsignedInteger(u: string)
    requires |u| >= 1 && AllDigits(u)
    ensures ParseUnsigned(u) == Some(Value(u) * 100)
  {
    NotInDigits(u, '.');
    assert u[..|u|] == u;
  }

  /** An integer without a point parses to its value in whole units. */
  lemma ParseCentsInteger(whole: string)
    requires |whole| >= 1 && AllDigits(whole)
    ensures ParseCents(whole) == Some(Value(whole) * 100)
  {
    ParseUnsignedInteger(whole);
    assert IsDigit(whole[0]);
    ParseCentsPlain(whole, Value(whole) * 100);
  }

  /** An unsigned decimal that starts with neither sign parses as itself,
      and with a '-' in front as its negation. */
  lemma ParseCentsSigned(negative: bool, u: string, v: nat)
    requires |u| > 0 && u[0] != '-' && u[0] != '+' && ParseUnsigned(u) == Some(v)
    ensures ParseCents((if negative then "-" else "") + u) == Some(if negative then -(v as int) else v)
  {
    if negative {
      ParseCentsMinus(u, v);
    } else {
      ParseCentsPlain(u, v);
      assert "" + u == u;
    }
  }

  /** Text starting with neither sign is parsed unsigned. */
  lemma ParseCentsPlain(u: string, v: nat)
    requires |u| > 0 && u[0] != '-' && u[0] != '+' && ParseUnsigned(u) == Some(v)
    ensures ParseCents(u) == Some(v)
  {
  }

  /** A '-' negates the unsigned value after it. */
  lemma ParseCentsMinus(u: string, v: nat)
    requires ParseUnsigned(u) == Some(v)
    ensures ParseCents("-" + u) == Some(-(v as int))
  {
    assert ("-" + u)[0] == '-' && ("-" + u)[1..] == u;
  }

  /** A signed decimal with one point, at most two decimals after it and a
      digit on at least one side of it ("2292.5", ".5", "7."), parses to its
      value in cents, a missing decimal counting as 0. */
  lemma ParseCentsPointed(negative: bool, u: string, k: nat)
    requires k < |u| && u[k] == '.' && 1 < |u| && |u| - k - 1 <= 2
    requires AllDigits(u[..k]) && AllDigits(u[k + 1..])
    ensures var v := Value(u[..k]) * 100 + FractionCents(u[k + 1..]);
      ParseCents((if negative then "-" else "") + u) == Some(if negative then -v else v)
  {
    IndexOfFirst(u, k);
    ParseUnsignedAt(u, k);
    assert u[0] != '-' && u[0] != '+' by {
      if k > 0 { assert u[..k][0] == u[0] && IsDigit(u[..k][0]); }
    }
    ParseCentsSigned(negative, u, Value(u[..k]) * 100 + FractionCents(u[k + 1..]));
  }

  /** A point preceded only by digits is the first point. */
  lemma {:induction false} IndexOfFirst(u: string, k: nat)
    requires k < |u| && u[k] == '.' && AllDigits(u[..k])
    ensures IndexOf(u, '.') == k
  {
    if k > 0 {
      assert u[..k][0] == u[0] && IsDigit(u[..k][0]);
      assert u[1..][..k - 1] == u[..k][1..];
      IndexOfFirst(u[1..], k - 1);
    }
  }

  /** A character that is neither a digit nor the point makes an unsigned
      decimal fail, wherever it stands. */
  lemma ParseUnsignedRejects(u: string, j: nat)
    requires j < |u| && !IsDigit(u[j]) && u[j] != '.'
    ensures ParseUnsigned(u).None?
  {
    var k := IndexOf(u, '.');
    if j < k {
      assert u[..k][j] == u[j];
    } else {
      assert u[k + 1..][j - k - 1] == u[j];
    }
  }

  /** `float` raises ValueError for a price holding a letter or any other
      character that is not a digit or the point, except a sign in front. */
  lemma ParseCentsRejects(s: string, i: nat)
    requires i < |s| && !IsDigit(s[i]) && s[i] != '.'
    requires i == 0 ==> s[0] != '-' && s[0] != '+'
    ensures ParseCents(s).None?
  {
    if s[0] == '-' || s[0] == '+' {
      assert s[1..][i - 1] == s[i];
      ParseUnsignedRejects(s[1..], i - 1);
    } else {
      ParseUnsignedRejects(s, i);
    }
  }

  /** A second point after the first makes an unsigned decimal fail. */
  lemma ParseUnsignedRejectsTwoPoints(u: string, i: nat, j: nat)
    requires i < j < |u| && u[i] == '.' && u[j] == '.'
    ensures ParseUnsigned(u).None?
  {
    var k := IndexOf(u, '.');
    IndexOfAtMost(u, '.', i);
    assert u[k + 1..][j - k - 1] == u[j];
  }

  /** The first `c` is at or before any `c`. */
  lemma {:induction false} IndexOfAtMost(s: string, c: char, i: nat)
    requires i < |s| && s[i] == c
    ensures IndexOf(s, c) <= i
  {
    if s[0] != c {
      assert s[1..][i - 1] == s[i];
      IndexOfAtMost(s[1..], c, i - 1);
    }
  }

  /** `float` raises ValueError for a price holding two points. */
  lemma ParseCentsRejectsTwoPoints(s: string, i: nat, j: nat)
    requires i < j < |s| && s[i] == '.' && s[j] == '.'
    ensures ParseCents(s).None?
  {
    if s[0] == '-' || s[0] == '+' {
      assert s[1..][i - 1] == s[i] && s[1..][j - 1] == s[j];
      ParseUnsignedRejectsTwoPoints(s[1..], i - 1, j - 1);
    } else {
      ParseUnsignedRejectsTwoPoints(s, i, j);
    }
  }

  /** `float` raises ValueError for a price without any digit ("", "-", "."). */
  lemma ParseCentsNeedsDigit(s: string)
    requires ParseCents(s).Some?
    ensures exists i :: 0 <= i < |s| && IsDigit(s[i])
  {
    var skip := if s[0] == '-' || s[0] == '+' then 1 else 0;
    var u := s[skip..];
    var d := UnsignedDigit(u);
    assert s[skip + d] == u[d];
  }

  /** Where a digit of a parsed unsigned decimal stands. */
  lemma UnsignedDigit(u: string) returns (d: nat)
    requires ParseUnsigned(u).Some?
    ensures d < |u| && IsDigit(u[d])
  {
    var k := IndexOf(u, '.');
    if k > 0 {
      assert u[..k][0] == u[0];
      d := 0;
    } else {
      assert u[k + 1..][0] == u[k + 1];
      d := k + 1;
    }
  }

  /** Parsing is the inverse of the canonical text. */
  lemma ParseCentsText(c: int)
    ensures ParseCents(CentsText(c)) == Some(c)
  {
    var n := Abs(c);
    ParseCentsDecimal(c < 0, Digits(n / 100), Pad2(n % 100));
    CentsSplit(n);
  }

  /** The cells of the scraped row after `get_text(strip=True)`: cell 0 is the
      reference date, cell 1 the price. A row with fewer than two cells (the
      source's IndexError) and an unparsable price (its ValueError) both fail. */
  function ParseRow(cells: seq<string>): (r: Option<Quote>)
    ensures r.Some? <==> |cells| >= 2 && ParseCents(Normalize(cells[1])).Some?
    ensures r.Some? ==> r.value.referenceDate == cells[0]
    ensures r.Some? ==> r.value.cents == ParseCents(Normalize(cells[1])).value
  {
    if |cells| < 2 then None
    else
      match ParseCents(Normalize(cells[1]))
      case Some(price) => Some(Quote(cells[0], price))
      case None => None
  }

  /** A price cell holding a letter makes the row fail, as `float` raises
      ValueError on "abc". */
  lemma ParseRowRejectsLetters()
    ensures ParseRow(["19/09/2025", "abc"]).None?
  {
    assert Normalize("abc") == "abc";
    ParseCentsRejects("abc", 0);
  }
}
