/** `format_brl`, nested in `update_index_html` (scrape_prices.py:164-165):
    `f"R${value:,.2f}"` writes the amount in the English convention
    ("R$2,292.66") and three replacements swap the two separators
    (',' -> 'X', '.' -> ',', 'X' -> '.'), giving "R$2.292,66". The amount
    is an integer number of cents, so `.2f` is exact. */
module BrlFormat {
  import opened Wrappers
  import opened Text
  import opened PriceParsing

  /** `format(cents / 100, ",.2f")`: sign, integer part grouped by ',',
      a '.' and exactly two decimals. */
  function EnglishFixed2(cents: int): string {
    Sign(cents) + Grouped(Abs(cents) / 100, ',') + "." + Pad2(Abs(cents) % 100)
  }

  /** `.replace(",", "X").replace(".", ",").replace("X", ".")`. */
  function SwapSeparators(s: string): string {
    Replace(Replace(Replace(s, ',', 'X'), '.', ','), 'X', '.')
  }

  /** `format_brl`: the English rendering with its separators swapped. The
      result is the Brazilian rendering: "R$", the sign, the integer part
      grouped in threes by '.', a ',' and exactly two decimals. */
  function FormatBrl(cents: int): (r: string)
    ensures r == "R$" + Sign(cents) + Grouped(Abs(cents) / 100, '.') + "," + Pad2(Abs(cents) % 100)
  {
    var n := Abs(cents);
    var q := Pad2(n % 100);
    PrefixHasNoSeparators(Sign(cents));
    NotInDigits(q, ',');
    NotInDigits(q, '.');
    NotInDigits(q, 'X');
    SwapSeparatorsGrouped(n / 100);
    SwapEnglishParts("R$" + Sign(cents), Grouped(n / 100, ','), Grouped(n / 100, '.'), q);
    PrependToParts("R$", Sign(cents), Grouped(n / 100, ','), ".", q);
    SwapSeparators("R$" + EnglishFixed2(cents))
  }

  lemma SwapSeparatorsAppend(s: string, t: string)
    ensures SwapSeparators(s + t) == SwapSeparators(s) + SwapSeparators(t)
  {
    ReplaceAppend(s, t, ',', 'X');
    ReplaceAppend(Replace(s, ',', 'X'), Replace(t, ',', 'X'), '.', ',');
    ReplaceAppend(Replace(Replace(s, ',', 'X'), '.', ','), Replace(Replace(t, ',', 'X'), '.', ','), 'X', '.');
  }

  /** Text with none of ',', '.' and 'X' passes the swap unchanged. */
  lemma SwapSeparatorsAbsent(s: string)
    requires ',' !in s && '.' !in s && 'X' !in s
    ensures SwapSeparators(s) == s
  {
    ReplaceAbsent(s, ',', 'X');
    ReplaceAbsent(s, '.', ',');
    ReplaceAbsent(s, 'X', '.');
  }

  /** The swap regroups an English-grouped integer with '.'. The
      intermediate 'X' never meets a '.' because a grouped number holds
      digits and its separator only. */
  lemma SwapSeparatorsGrouped(n: nat)
    ensures SwapSeparators(Grouped(n, ',')) == Grouped(n, '.')
  {
    GroupedRename(n, ',', 'X');
    GroupedChars(n, 'X');
    assert '.' !in Grouped(n, 'X') by {
      forall i | 0 <= i < |Grouped(n, 'X')| ensures Grouped(n, 'X')[i] != '.' {
        assert IsDigit(Grouped(n, 'X')[i]) || Grouped(n, 'X')[i] == 'X';
      }
    }
    ReplaceAbsent(Grouped(n, 'X'), '.', ',');
    GroupedRename(n, 'X', '.');
  }

  lemma DropPrefix(a: string, b: string)
    ensures (a + b)[|a|..] == b
  {
  }

  /** Prepending to four concatenated parts is concatenating five. */
  lemma PrependToParts(a: string, b: string, c: string, d: string, e: string)
    ensures a + (b + c + d + e) == a + b + c + d + e
  {
  }

  /** The swap of sign-and-prefix, an integer part, '.' and decimals,
      where the prefix and the decimals hold no separator. */
  lemma SwapEnglishParts(prefix: string, english: string, brazilian: string, q: string)
    requires ',' !in prefix && '.' !in prefix && 'X' !in prefix
    requires ',' !in q && '.' !in q && 'X' !in q
    requires SwapSeparators(english) == brazilian
    ensures SwapSeparators(prefix + english + "." + q) == prefix + brazilian + "," + q
  {
    SwapSeparatorsAppend(prefix + english + ".", q);
    SwapSeparatorsAppend(prefix + english, ".");
    SwapSeparatorsAppend(prefix, english);
    SwapSeparatorsAbsent(prefix);
    SwapSeparatorsAbsent(q);
    SwapPoint();
  }

  lemma SwapPoint()
    ensures SwapSeparators(".") == ","
  {
    assert ['.'][1..] == [];
    assert [','][1..] == [];
  }

  /** "R$" and a sign hold no separator. */
  lemma PrefixHasNoSeparators(sign: string)
    requires sign == "" || sign == "-"
    ensures ',' !in "R$" + sign && '.' !in "R$" + sign && 'X' !in "R$" + sign
    ensures Count("R$" + sign, ',') == 0
  {
    var head := "R$" + sign;
    forall i | 0 <= i < |head| ensures head[i] != ',' && head[i] != '.' && head[i] != 'X' {
      if i >= 2 {
        assert head[i] == sign[i - 2];
      }
    }
    CountZero(head, ',');
  }

  /** A '.'-grouped number holds no ','. */
  lemma GroupedDotHasNoComma(n: nat)
    ensures ',' !in Grouped(n, '.')
  {
    var g := Grouped(n, '.');
    GroupedChars(n, '.');
    forall i | 0 <= i < |g| ensures g[i] != ',' {
      assert IsDigit(g[i]) || g[i] == '.';
    }
  }

  /** The shape of every formatted amount: it starts with "R$", then its
      sign ('-' exactly when the amount is negative), it holds exactly one
      ',' and that ',' is followed by exactly two digits, and the integer
      digits in between are grouped in threes by '.'. */
  lemma FormatBrlShape(cents: int)
    ensures BrazilianShape(FormatBrl(cents), Sign(cents))
    ensures FormatBrl(cents)[2] == '-' <==> cents < 0
  {
    BrazilianTextShape(Sign(cents), Abs(cents) / 100, Abs(cents) % 100);
  }

  ghost predicate BrazilianShape(r: string, sign: string) {
    && |r| >= 6 + |sign|
    && r[..2] == "R$"
    && r[2..2 + |sign|] == sign
    && Count(r, ',') == 1
    && r[|r| - 3] == ','
    && AllDigits(r[|r| - 2..])
    && WellGrouped(r[2 + |sign|..|r| - 3], '.')
  }

  /** Brazilian text built from its parts has the Brazilian shape. */
  lemma BrazilianTextShape(sign: string, whole: nat, frac: nat)
    requires sign == "" || sign == "-"
    requires frac < 100
    ensures BrazilianShape("R$" + sign + Grouped(whole, '.') + "," + Pad2(frac), sign)
    ensures ("R$" + sign + Grouped(whole, '.') + "," + Pad2(frac))[2] == '-' <==> sign == "-"
  {
    GroupedIsWellGrouped(whole, '.');
    GroupedDotHasNoComma(whole);
    NotInDigits(Pad2(frac), ',');
    BrazilianPartsShape(sign, Grouped(whole, '.'), Pad2(frac));
  }

  lemma BrazilianPartsShape(sign: string, g: string, q: string)
    requires sign == "" || sign == "-"
    requires |g| >= 1 && IsDigit(g[0]) && ',' !in g && WellGrouped(g, '.')
    requires |q| == 2 && AllDigits(q) && ',' !in q
    ensures BrazilianShape("R$" + sign + g + "," + q, sign)
    ensures ("R$" + sign + g + "," + q)[2] == '-' <==> sign == "-"
  {
    PrefixHasNoSeparators(sign);
    SingleComma("R$" + sign, g, q);
    PartsSlices(sign, g, q);
    ShapeOfSlices("R$" + sign + g + "," + q, sign, g, q);
    SignPosition(sign, g, q);
  }

  /** The character after "R$" is '-' exactly for a negative sign. */
  lemma SignPosition(sign: string, g: string, q: string)
    requires sign == "" || sign == "-"
    requires |g| >= 1 && IsDigit(g[0]) && |q| == 2
    ensures ("R$" + sign + g + "," + q)[2] == '-' <==> sign == "-"
  {
    PartsSlices(sign, g, q);
  }

  /** Where each part of "R$" + sign + g + "," + q sits. */
  lemma PartsSlices(sign: string, g: string, q: string)
    requires |q| == 2
    ensures var r := "R$" + sign + g + "," + q;
      && |r| == 5 + |sign| + |g|
      && r[..2] == "R$" && r[2..2 + |sign|] == sign && r[2 + |sign|..|r| - 3] == g
      && r[|r| - 3] == ',' && r[|r| - 2..] == q
      && (|sign| > 0 ==> r[2] == sign[0]) && (|sign| == 0 && |g| > 0 ==> r[2] == g[0])
  {
  }

  lemma ShapeOfSlices(r: string, sign: string, g: string, q: string)
    requires |r| == 5 + |sign| + |g| && |g| >= 1
    requires r[..2] == "R$" && r[2..2 + |sign|] == sign && r[2 + |sign|..|r| - 3] == g
    requires r[|r| - 3] == ',' && r[|r| - 2..] == q
    requires AllDigits(q) && WellGrouped(g, '.') && Count(r, ',') == 1
    ensures BrazilianShape(r, sign)
  {
  }

  /** A ',' between texts without one is the only ',' of the whole. */
  lemma SingleComma(head: string, g: string, q: string)
    requires Count(head, ',') == 0 && ',' !in g && ',' !in q
    ensures Count(head + g + "," + q, ',') == 1
  {
    CountZero(g, ',');
    CountZero(q, ',');
    assert Count(",", ',') == 1;
    CountAppend(head + g + ",", q, ',');
    CountAppend(head + g, ",", ',');
    CountAppend(head, g, ',');
  }

  /** Normalising '.'-grouped digits gives the plain digits. */
  lemma NormalizeGrouped(n: nat)
    ensures Normalize(Grouped(n, '.')) == Digits(n)
  {
    GroupedUngroups(n, '.');
    NotInDigits(Digits(n), ',');
    ReplaceAbsent(Digits(n), ',', '.');
  }

  lemma NormalizeDigits(s: string)
    requires AllDigits(s)
    ensures Normalize(s) == s
  {
    NotInDigits(s, '.');
    NotInDigits(s, ',');
    DeleteAbsent(s, '.');
    ReplaceAbsent(s, ',', '.');
  }

  lemma NormalizeSign(cents: int)
    ensures Normalize(Sign(cents)) == Sign(cents)
  {
    if cents < 0 {
      NormalizeChar('-');
    }
  }

  /** Normalising the Brazilian text after "R$" gives the canonical decimal text. */
  lemma NormalizeBrazilianBody(cents: int)
    ensures Normalize(Sign(cents) + Grouped(Abs(cents) / 100, '.') + "," + Pad2(Abs(cents) % 100)) == CentsText(cents)
  {
    var n := Abs(cents);
    var sg, g, q := Sign(cents), Grouped(n / 100, '.'), Pad2(n % 100);
    calc {
      Normalize(((sg + g) + ",") + q);
      { NormalizeAppend((sg + g) + ",", q); }
      Normalize((sg + g) + ",") + Normalize(q);
      { NormalizeAppend(sg + g, ","); }
      (Normalize(sg + g) + Normalize(",")) + Normalize(q);
      { NormalizeAppend(sg, g); }
      ((Normalize(sg) + Normalize(g)) + Normalize(",")) + Normalize(q);
      { NormalizeSign(cents); NormalizeGrouped(n / 100); NormalizeChar(','); NormalizeDigits(q); }
      ((sg + Digits(n / 100)) + ".") + q;
    }
  }

  /** Round trip with the price normalisation of `parse_price`: stripping
      "R$" from a formatted amount and normalising it gives the canonical
      decimal text of the same amount. */
  lemma FormatThenNormalize(cents: int)
    ensures Normalize(FormatBrl(cents)[2..]) == CentsText(cents)
  {
    var body := Sign(cents) + Grouped(Abs(cents) / 100, '.') + "," + Pad2(Abs(cents) % 100);
    PrependToParts("R$", Sign(cents), Grouped(Abs(cents) / 100, '.'), ",", Pad2(Abs(cents) % 100));
    DropPrefix("R$", body);
    NormalizeBrazilianBody(cents);
  }

  /** The formatted amount parses back to the same number of cents. */
  lemma FormatThenParse(cents: int)
    ensures ParseCents(Normalize(FormatBrl(cents)[2..])) == Some(cents)
  {
    FormatThenNormalize(cents);
    ParseCentsText(cents);
  }

  /** A scraped row whose price cell holds a formatted amount without its
      "R$" (as the quote widget prints it) yields that amount. */
  lemma ParseRowOfFormattedPrice(date: string, cents: int, more: seq<string>)
    ensures ParseRow([date, FormatBrl(cents)[2..]] + more) == Some(Quote(date, cents))
  {
    FormatThenParse(cents);
  }

  /** A number of one to six digits, grouped. */
  lemma GroupedTwoGroups(q: nat, r: nat, sep: char)
    requires 1 <= q < 1000 && r < 1000
    ensures Grouped(q * 1000 + r, sep) == Digits(q) + [sep] + Pad3(r)
  {
    assert (q * 1000 + r) / 1000 == q && (q * 1000 + r) % 1000 == r;
  }

  /** The Arabica price of the example record in the `update_prices`
      docstring (scrape_prices.py:57-69), as the anchor shows it. */
  lemma FormatBrlArabicaExample()
    ensures FormatBrl(229266) == "R$2.292,66"
  {
    assert Abs(229266) / 100 == 2292 && Abs(229266) % 100 == 66;
    GroupedTwoGroups(2, 292, '.');
    assert Digits(2) == "2";
    assert Pad3(292) == "292" by {
      assert Pad2(29) == "29";
    }
    assert Pad2(66) == "66";
  }

  /** The Conilon price of the example record in the `update_prices`
      docstring (scrape_prices.py:57-69), as the anchor shows it. */
  lemma FormatBrlConilonExample()
    ensures FormatBrl(140221) == "R$1.402,21"
  {
    assert Abs(140221) / 100 == 1402 && Abs(140221) % 100 == 21;
    GroupedTwoGroups(1, 402, '.');
    assert Digits(1) == "1";
    assert Pad3(402) == "402" by {
      assert Pad2(40) == "40";
    }
    assert Pad2(21) == "21";
  }

  /** An Arabica row built from the date and price of the `update_prices`
      docstring example (scrape_prices.py:57-69): cells "19/09/2025" and
      "2.292,66" give the quote of 2292.66 reais for that date. */
  lemma ParseRowExample()
    ensures ParseRow(["19/09/2025", "2.292,66"]) == Some(Quote("19/09/2025", 229266))
  {
    FormatBrlArabicaExample();
    assert FormatBrl(229266)[2..] == "2.292,66";
    ParseRowOfFormattedPrice("19/09/2025", 229266, []);
    assert ["19/09/2025", FormatBrl(229266)[2..]] + [] == ["19/09/2025", "2.292,66"];
  }
}
