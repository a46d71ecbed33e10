/** `update_history` (scrape_prices.py:106-154): the bounded log in
    precos.json. Each run loads the old log (starting empty when the file is
    missing or is not valid JSON), appends one Arabica and one Conilon entry,
    keeps the last 20 entries and overwrites the file. */
module PriceHistory {
  import opened Wrappers

  /** Entries kept: 20 records, i.e. 10 runs of two records each. */
  const HistoryCap: nat := 20

  /** One history record. */
  datatype Entry = Entry(
    referenteA: string,
    coletadoEm: string,
    produto: string,
    tipo: string,
    valor: int,
    unidade: string,
    moeda: string)

  /** The record a run writes for one coffee type ("arabica" or "conillon",
      the spelling the site expects). */
  function HistoryEntry(tipo: string, price: int, tradeDate: string, capturedAt: string): (e: Entry)
    ensures e.tipo == tipo && e.valor == price
    ensures e.referenteA == tradeDate && e.coletadoEm == capturedAt
    ensures e.produto == "cafe" && e.unidade == "saca" && e.moeda == "BRL"
  {
    Entry(tradeDate, capturedAt, "cafe", tipo, price, "saca", "BRL")
  }

  function Min(a: int, b: int): int {
    if a <= b then a else b
  }

  /** The log a run starts from: the decoded file, or empty when the file is
      missing or does not decode (the `JSONDecodeError` recovery). */
  function Loaded(stored: Option<seq<Entry>>): (log: seq<Entry>)
    ensures stored.Some? ==> log == stored.value
    ensures stored.None? ==> log == []
  {
    match stored
    case Some(entries) => entries
    case None => []
  }

  /** Python's `s[-n:]` for n > 0: the last n elements, or all of s. */
  function KeepLast<T>(s: seq<T>, n: nat): (r: seq<T>)
    requires n > 0
    ensures |r| == Min(n, |s|)
    ensures r == s[|s| - |r|..]
  {
    if |s| <= n then s else s[|s| - n..]
  }

  /** The log after one run. It holds at most 20 entries; it ends with this
      run's Arabica entry followed by its Conilon entry; before them come the
      most recent old entries, in their old order, as many as fit; a missing
      or corrupt file leaves exactly the two new entries; and an even-length
      log stays even, so truncation never separates a run's pair. */
  function NextHistory(stored: Option<seq<Entry>>, arabica: Entry, conillon: Entry): (h: seq<Entry>)
    ensures |h| == Min(HistoryCap, |Loaded(stored)| + 2) && |h| <= HistoryCap
    ensures h[|h| - 2] == arabica && h[|h| - 1] == conillon
    ensures h[..|h| - 2] == Loaded(stored)[|Loaded(stored)| - (|h| - 2)..]
    ensures stored.None? ==> h == [arabica, conillon]
    ensures |Loaded(stored)| % 2 == 0 ==> |h| % 2 == 0
  {
    KeepLastPair(Loaded(stored), arabica, conillon, HistoryCap);
    KeepLast(Loaded(stored) + [arabica, conillon], HistoryCap)
  }

  /** Keeping the last n >= 2 of a log with a pair appended keeps the pair
      at the end and, before it, a suffix of the log. */
  lemma KeepLastPair<T>(s: seq<T>, a: T, b: T, n: nat)
    requires n >= 2
    ensures var r := KeepLast(s + [a, b], n);
      |r| >= 2 && r[|r| - 2] == a && r[|r| - 1] == b && r[..|r| - 2] == s[|s| - (|r| - 2)..]
  {
    var r := KeepLast(s + [a, b], n);
    assert r[..|r| - 2] == s[|s| - (|r| - 2)..];
  }

  /** The history file, seen through its decode outcome: None when the file
      is missing or is not valid JSON. */
  class HistoryFile {
    var stored: Option<seq<Entry>>

    constructor (stored: Option<seq<Entry>>)
      ensures this.stored == stored
    {
      this.stored := stored;
    }

    /** One run of `update_history`: read, append two entries, keep the
        last 20, overwrite. */
    method UpdateHistory(priceArabica: int, priceConilon: int, tradeDate: string, capturedAt: string)
      modifies this
      ensures stored == Some(NextHistory(old(stored),
                HistoryEntry("arabica", priceArabica, tradeDate, capturedAt),
                HistoryEntry("conillon", priceConilon, tradeDate, capturedAt)))
    {
      var history: seq<Entry> := [];
      if stored.Some? {
        history := stored.value;
      }
      var entryArabica := HistoryEntry("arabica", priceArabica, tradeDate, capturedAt);
      var entryConillon := HistoryEntry("conillon", priceConilon, tradeDate, capturedAt);
      history := history + [entryArabica];
      history := history + [entryConillon];
      assert history == Loaded(old(stored)) + [entryArabica, entryConillon];
      if |history| > HistoryCap {
        history := history[|history| - HistoryCap..];
      }
      stored := Some(history);
    }
  }

  // -----------------------------------------------------------------------
  // Many runs

  /** The two entries one run appends. */
  datatype Run = Run(arabica: Entry, conillon: Entry)

  function Flatten(runs: seq<Run>): (r: seq<Entry>)
    ensures |r| == 2 * |runs|
  {
    if runs == [] then [] else [runs[0].arabica, runs[0].conillon] + Flatten(runs[1..])
  }

  /** The log after the given runs, oldest first, starting from `h`. */
  function Replay(h: seq<Entry>, runs: seq<Run>): seq<Entry>
    decreases |runs|
  {
    if runs == [] then h
    else Replay(NextHistory(Some(h), runs[0].arabica, runs[0].conillon), runs[1..])
  }

  lemma {:induction false} FlattenAppend(a: seq<Run>, b: seq<Run>)
    ensures Flatten(a + b) == Flatten(a) + Flatten(b)
  {
    if a == [] {
      assert a + b == b;
    } else {
      assert (a + b)[0] == a[0];
      assert (a + b)[1..] == a[1..] + b;
      FlattenAppend(a[1..], b);
    }
  }

  /** Flattening a log of runs with one more run at the end. */
  lemma FlattenSnoc(runs: seq<Run>, last: Run)
    ensures Flatten(runs + [last]) == Flatten(runs) + [last.arabica, last.conillon]
  {
    FlattenAppend(runs, [last]);
    assert Flatten([last]) == [last.arabica, last.conillon];
  }

  /** Truncating, appending and truncating again is one truncation. */
  lemma KeepLastTwice<T>(x: seq<T>, y: seq<T>, n: nat)
    requires n > 0
    ensures KeepLast(KeepLast(x, n) + y, n) == KeepLast(x + y, n)
  {
    var k := KeepLast(x, n);
    if |x| <= n {
      assert k == x;
    } else if |y| >= n {
      assert (k + y)[|k + y| - n..] == y[|y| - n..] == (x + y)[|x + y| - n..];
    } else {
      assert (k + y)[|k + y| - n..] == (x + y)[|x + y| - n..];
    }
  }

  /** Repeated bounded appends keep exactly the newest 20 entries of
      everything ever appended: the log is the last 20 of its whole history.
      Any start log will do once a run has happened; with no run the log is
      unchanged, so it must already hold at most 20 entries. */
  lemma {:induction false} ReplayKeepsNewest(h: seq<Entry>, runs: seq<Run>)
    requires |h| <= HistoryCap || runs != []
    ensures Replay(h, runs) == KeepLast(h + Flatten(runs), HistoryCap)
    decreases |runs|
  {
    if runs == [] {
      assert h + Flatten(runs) == h;
    } else {
      var r := runs[0];
      var pair := [r.arabica, r.conillon];
      var rest := Flatten(runs[1..]);
      var next := NextHistory(Some(h), r.arabica, r.conillon);
      assert Flatten(runs) == pair + rest;
      assert (h + pair) + rest == h + Flatten(runs);
      calc {
        Replay(h, runs);
        Replay(next, runs[1..]);
        { ReplayKeepsNewest(next, runs[1..]); }
        KeepLast(next + rest, HistoryCap);
        KeepLast(KeepLast(h + pair, HistoryCap) + rest, HistoryCap);
        { KeepLastTwice(h + pair, rest, HistoryCap); }
        KeepLast((h + pair) + rest, HistoryCap);
      }
    }
  }

  /** After n runs the log holds min(20, |h| + 2n) entries; from the tenth
      run on it holds exactly 20, the last ten runs' pairs in run order. */
  lemma ReplayLength(h: seq<Entry>, runs: seq<Run>)
    requires |h| <= HistoryCap || runs != []
    ensures |Replay(h, runs)| == Min(HistoryCap, |h| + 2 * |runs|)
    ensures |runs| >= HistoryCap / 2 ==> Replay(h, runs) == Flatten(runs[|runs| - HistoryCap / 2..])
  {
    ReplayKeepsNewest(h, runs);
    if |runs| >= HistoryCap / 2 {
      var k := |runs| - HistoryCap / 2;
      assert runs == runs[..k] + runs[k..];
      FlattenAppend(runs[..k], runs[k..]);
      var tail := Flatten(runs[k..]);
      assert h + Flatten(runs) == (h + Flatten(runs[..k])) + tail;
    }
  }

  /** The most recent run's entries are always the last two of the log. */
  lemma ReplayEndsWithLatestRun(h: seq<Entry>, runs: seq<Run>)
    requires runs != []
    ensures var r := Replay(h, runs);
      |r| >= 2 && r[|r| - 2] == runs[|runs| - 1].arabica && r[|r| - 1] == runs[|runs| - 1].conillon
  {
    var k := |runs| - 1;
    var last := runs[k];
    assert runs == runs[..k] + [last];
    FlattenSnoc(runs[..k], last);
    ReplayKeepsNewest(h, runs);
    var before := h + Flatten(runs[..k]);
    assert h + Flatten(runs) == before + [last.arabica, last.conillon];
    KeepLastPair(before, last.arabica, last.conillon, HistoryCap);
  }
}
