# Coffee price updater: a Dafny model

`scrape_prices.py` fetches the latest Arabica and Conilon (Robusta) coffee
quotes from two Notícias Agrícolas widgets. It then writes three artefacts
for the cotacaodocafe.com site:

- `prices.json`: a snapshot that is overwritten on every run.
- `precos.json`: a bounded history log.
- `index.html`: the two price anchors are patched in place.

This project models the logic inside that script, with the network, the HTML
parser, the JSON codec, the clock and the file system taken out. Prices are
integer cents, and files are in-memory values.

Modules, one per concern of the script:

- `Text`: `str.replace` with one-character arguments (replace and delete),
  decimal digit strings, and digit grouping in threes as done by the `,`
  format option.
- `PriceParsing`: the pure part of `parse_price`. The price cell is
  normalised from `"2.292,66"` to `"2292.66"` (line 34) and parsed into
  cents (line 35). A scraped row is the list of its stripped cell texts.
- `BrlFormat`: `format_brl`, written exactly as the source does it: the
  English `",.2f"` rendering, then the `,`→`X`, `.`→`,`, `X`→`.` replace
  chain. It is proved equal to Brazilian grouping, and it round-trips with
  the normalisation and parse of `PriceParsing`.
- `MarketSnapshot`: `is_market_open` and the record that `update_prices`
  writes, including the `robusta`/`conilon` alias pair.
- `PriceHistory`: `update_history`.
  - `NextHistory` is the specification of one run.
  - `HistoryFile.UpdateHistory` is the read, append, append, slice and
    overwrite sequence, proved against `NextHistory`.
  - `Replay` covers many runs in sequence and is used by the lemmas about the
    20-entry (10-run) bound.
- `DisplayPatch`: `update_index_html` over a page seen as a map from element
  id to text.
  - `SetAnchors` sets the two anchors' texts, and `PatchDisplay` is the
    specification of the whole patch.
  - `IndexPage.UpdateIndexHtml` is the in-place update, proved against
    `PatchDisplay`.

`main` is not modelled. Note that it passes `trade_date =
now.strftime("%d/%m/%Y")` (scrape_prices.py:189-190). So `referente_a` in
the history is the capture date, and the dates scraped from cell 0 (lines
186-187) are discarded.

## Model

| member | source | states |
|---|---|---|
| `PriceParsing.Normalize` | scrape_prices.py:34 | the normalised price holds no `,`; its length is the input's length minus its `.` count; it holds as many `.` as the input held `,` |
| `PriceParsing.NormalizeAppend` | scrape_prices.py:34 | normalisation works character by character: it distributes over concatenation, so other characters keep their order |
| `PriceParsing.NormalizeChar` | scrape_prices.py:34 | on one character, normalisation deletes `.`, turns `,` into `.` and keeps anything else |
| `PriceParsing.ParseCents` | scrape_prices.py:35 | a parsed price needs non-empty text, and a negative price needs a leading `-`; the ValueError side is stated by the three rejection rows below |
| `PriceParsing.ParseCentsRejects` | scrape_prices.py:35 | text holding a character that is neither a digit nor a point, anywhere except as a leading `-` or `+`, fails (ValueError) |
| `PriceParsing.ParseCentsRejectsTwoPoints` | scrape_prices.py:35 | text holding two points fails (ValueError) |
| `PriceParsing.ParseCentsNeedsDigit` | scrape_prices.py:35 | text that parses holds at least one digit, so "", "-" and "." fail (ValueError) |
| `PriceParsing.ParseCentsInteger` | scrape_prices.py:35 | any digit string `w` without a point (`2292`) parses to 100·value(w) cents |
| `PriceParsing.ParseCentsPointed` | scrape_prices.py:35 | for either sign, text made of digits and one point, with at most two digits after the point and at least one digit in all (`2292.5`, `.5`, `7.`), parses to ±(100·value(integer digits) + decimals), a single decimal counting as tens of cents |
| `PriceParsing.ParseCentsDecimal` | scrape_prices.py:35 | for either sign (none or `-`), any digit string `w` with at least one digit (leading zeros allowed) and any two digits `f`, the text sign + `w.f` parses to ±(100·value(w) + value(f)) cents |
| `PriceParsing.ParseCentsText` | scrape_prices.py:35 | parsing the canonical decimal text of any amount of cents gives back that amount |
| `PriceParsing.ParseRow` | scrape_prices.py:32-36 | a row fails exactly when it has fewer than two cells or its normalised price cell does not parse; otherwise the date is cell 0 and the price is cell 1, normalised and parsed |
| `PriceParsing.ParseRowRejectsLetters` | scrape_prices.py:33-35 | the row `"19/09/2025"`, `"abc"` fails, as `float("abc")` raises ValueError |
| `BrlFormat.FormatBrl` | scrape_prices.py:164-165 | the English `,.2f` rendering followed by the replace chain gives `R$`, the sign, the integer part grouped in threes by `.`, a `,` and exactly two decimals |
| `BrlFormat.SwapSeparatorsGrouped` | scrape_prices.py:165 | the replace chain turns a `,`-grouped integer into the same integer grouped by `.` (the temporary `X` never collides) |
| `BrlFormat.FormatBrlShape` | scrape_prices.py:164-165 | every formatted amount starts with `R$`, has `-` next exactly when the amount is negative, holds exactly one `,` followed by exactly two digits, and groups its integer digits in threes by `.` |
| `BrlFormat.FormatThenNormalize` | scrape_prices.py:164-165 | dropping `R$` and applying the line-34 normalisation gives the canonical decimal text of the same amount |
| `BrlFormat.FormatThenParse` | scrape_prices.py:164-165 | the formatted amount, with `R$` dropped, normalised and parsed, is the same number of cents |
| `BrlFormat.ParseRowOfFormattedPrice` | scrape_prices.py:32-36 | a row whose price cell is a Brazilian-formatted amount yields a quote of that amount, dated by cell 0 |
| `BrlFormat.FormatBrlArabicaExample` | scrape_prices.py:164-165 | 2292.66 is shown as `R$2.292,66` |
| `BrlFormat.FormatBrlConilonExample` | scrape_prices.py:164-165 | 1402.21 is shown as `R$1.402,21` |
| `BrlFormat.ParseRowExample` | scrape_prices.py:33-35 | the row `"19/09/2025"`, `"2.292,66"` gives a quote of 229266 cents for that date |
| `Text.Grouped` | scrape_prices.py:165 | a grouped integer is never empty and starts with a digit, never with a separator |
| `Text.GroupedLength` | scrape_prices.py:165 | a grouped integer has one separator per complete group of three digits after the leading group: its length is d + (d - 1) / 3 for d decimal digits |
| `Text.GroupedIsWellGrouped` | scrape_prices.py:165 | the `,` format groups any integer as a leading group of 1 to 3 digits, then groups of exactly 3, one separator before each |
| `Text.GroupedUngroups` | scrape_prices.py:165 | deleting the separators from a grouped integer gives its plain decimal digits |
| `Text.Digits` | scrape_prices.py:165 | an integer's decimal text is digits only, has no leading zero and denotes that integer |
| `MarketSnapshot.WeekdayIndex` | scrape_prices.py:41 | `weekday()` is below 7, 0 exactly on Monday and 6 exactly on Sunday |
| `MarketSnapshot.IsMarketOpen` | scrape_prices.py:39-41 | the market counts as open exactly when the day is neither Saturday nor Sunday |
| `MarketSnapshot.SackPrice` | scrape_prices.py:84-95 | a price object carries the given price, unit `saca`, 60 kg and currency `BRL` |
| `MarketSnapshot.BuildSnapshot` | scrape_prices.py:76-102 | the timestamps come from `now`; `pregao_aberto` holds exactly on weekdays of the second clock read; the source label is fixed; `cafe.arabica.preco` is the Arabica price; `cafe.robusta` and `cafe.conilon` are the same object with the Conilon price; every price object is `saca`, 60 kg, `BRL` |
| `MarketSnapshot.MarketFlagCanContradictCapture` | scrape_prices.py:80 | a Friday capture whose flag is read after midnight is written as "market closed" |
| `MarketSnapshot.CapturedSnapshot` | scrape_prices.py:76-102 | with the flag taken from `now`, `pregao_aberto` agrees with the captured weekday and the prices are placed as in the source |
| `PriceHistory.HistoryEntry` | scrape_prices.py:131-149 | a history record carries the trade date, the capture time, product `cafe`, its type, the price, `saca` and `BRL` |
| `PriceHistory.Loaded` | scrape_prices.py:124-129 | a file that is missing or does not decode is read as the empty log; a decoded file is read as its entries |
| `PriceHistory.KeepLast` | scrape_prices.py:153 | `[-n:]` keeps min(n, length) elements, and they are the last ones, in order |
| `PriceHistory.NextHistory` | scrape_prices.py:124-153 | after a run the log holds min(20, old + 2) entries, so never more than 20. It ends with this run's Arabica then Conilon entry, and before them come the newest old entries in their old order. A missing or undecodable file leaves exactly the two new entries, and an even-length log stays even |
| `PriceHistory.HistoryFile.UpdateHistory` | scrape_prices.py:124-154 | the stored log after the read, two appends, `[-20:]` slice and overwrite is the `NextHistory` of the old file |
| `PriceHistory.ReplayKeepsNewest` | scrape_prices.py:150-153 | after any non-empty sequence of runs from any log, or after no run from a log of at most 20 entries, the log is the newest 20 entries of everything appended |
| `PriceHistory.ReplayLength` | scrape_prices.py:117-122 | after n runs the log has min(20, start + 2n) entries (when n is 0 the start log is one the program wrote, so at most 20); from the tenth run on it is exactly the last ten runs' pairs, in run order |
| `PriceHistory.ReplayEndsWithLatestRun` | scrape_prices.py:150-151 | the most recent run's two entries are always the last two of the log |
| `DisplayPatch.PatchDisplay` | scrape_prices.py:159-172 | an absent page stays absent and a present page keeps its element ids. An anchor that is present reads its formatted price, and every other element keeps its text |
| `DisplayPatch.SetAnchors` | scrape_prices.py:167-172 | the page keeps its element ids; each anchor that is present reads its given text, and every other element keeps its text |
| `DisplayPatch.SetAnchorsStepwise` | scrape_prices.py:167-172 | setting both anchors at once equals the source's two steps: set `preco-arabica` if found, then set `preco-robusta` if found |
| `DisplayPatch.IndexPage.UpdateIndexHtml` | scrape_prices.py:157-173 | the in-place update (return when absent, set each anchor found, write back) leaves the page equal to `PatchDisplay` of the old page |
| `DisplayPatch.PatchDisplayIdempotent` | scrape_prices.py:167-172 | patching twice with the same prices is patching once |
| `DisplayPatch.PatchedPricesReadBack` | scrape_prices.py:164-172 | each patched anchor, read back with the scraper's normalisation and parse, gives the price that was written |
| `DisplayPatch.DocumentedRunAnchors` | scrape_prices.py:167-172 | with prices 2292.66 and 1402.21, the two anchors read `R$2.292,66` and `R$1.402,21` |

## Left out

- HTTP fetching (`requests.get`, headers, timeout, `raise_for_status`) is network I/O (scrape_prices.py:27-28).
- BeautifulSoup is a foreign library and is not modelled.
  - The `tbody`/`tr`/`td` lookup is replaced by the list of stripped cell texts.
  - A page without a table body or row, which fails with `AttributeError` in the source, is not modelled.
  - The HTML re-serialisation is replaced by a map from id to text (lines 29-33, 162, 173).
  - `soup.find` returns the first element with a given id, whereas the map holds one text per id, so duplicate ids are not modelled.
  - The map from id to text is flat, so nesting is not modelled. In the source, `.string =` (lines 169 and 172) replaces everything inside an anchor: an element with an id nested inside an anchor disappears, and the text of an element enclosing an anchor changes too. `PatchDisplay` keeps every id and every other text only for pages where the anchors neither contain nor sit inside other elements with ids.
- `float()` and float formatting are floating point, so prices are exact integer cents (lines 35, 165).
- PriceParsing.ParseCents accepts an optional sign, then digits with an optional point and at most two decimals. `float()` also accepts exponents, `inf`, `nan`, underscores, surrounding blanks and more decimals; those cells are rejected here.
- BrlFormat.FormatBrl does not model rounding to two decimals, because amounts are already whole cents.
- `json.dumps`/`json.loads` and every file read and write are serialisation and file I/O (lines 103, 127, 154, 161, 173).
  - The history file is its decode outcome, where `None` means missing or not valid JSON.
  - A file that decodes to JSON which is not an array is not modelled; the source would fail on `append`.
  - A read that fails for a reason other than `JSONDecodeError` is not modelled either.
- The `robusta` and `conilon` keys hold the same Python dict. The model has value equality only, not that aliasing.
- `datetime.now()`, `isoformat` and `strftime` are clock and formatting library calls. They are parameters: an `Instant` with its three renderings and weekday, and a separate weekday for the second clock read inside `is_market_open` (lines 41, 77-80, 189-190).
- `main` (lines 176-194) only sequences the calls and fixes the URLs and paths, so it is not modelled. The effect of its `trade_date` argument is described above.

## Findings

| source | as written | input that shows it | evidently intended | confidence | as-written member | corrected member |
|---|---|---|---|---|---|---|
| scrape_prices.py:80 | `pregao_aberto` calls `is_market_open()`, which reads the clock again instead of using the `now` passed in | a run captured on Friday at 23:59:59.999999 whose flag is computed on Saturday: timestamp and date say Friday, `pregao_aberto` is false | `now.weekday() < 5`, so the flag describes the instant the record is stamped with | low (only across midnight); not executed | `MarketSnapshot.MarketFlagCanContradictCapture` | `MarketSnapshot.CapturedSnapshot` |
