/** `update_prices` and `is_market_open` (scrape_prices.py:39-103): the
    record written to prices.json. The clock is a parameter: `now` is the
    capture instant passed in by the caller, and `marketDay` is the weekday
    that `is_market_open` reads from its own second call to the clock. */
module MarketSnapshot {

  /** The weekdays in the order of Python's `datetime.weekday()`. */
  datatype Day = Monday | Tuesday | Wednesday | Thursday | Friday | Saturday | Sunday

  /** `datetime.weekday()`: Monday is 0, Sunday is 6. */
  function WeekdayIndex(d: Day): (i: nat)
    ensures i < 7
    ensures i == 0 <==> d == Monday
    ensures i == 6 <==> d == Sunday
  {
    match d
    case Monday => 0
    case Tuesday => 1
    case Wednesday => 2
    case Thursday => 3
    case Friday => 4
    case Saturday => 5
    case Sunday => 6
  }

  /** `weekday() < 5`: open Monday to Friday. A calendar check only; holidays
      and trading hours are not consulted. */
  function IsMarketOpen(d: Day): (open: bool)
    ensures open <==> d != Saturday && d != Sunday
  {
    WeekdayIndex(d) < 5
  }

  /** A capture instant through the three renderings the record uses:
      `isoformat()`, `strftime("%d/%m/%Y")` and `strftime("%H:%M:%S")`. */
  datatype Instant = Instant(isoformat: string, date: string, time: string, day: Day)

  /** One `cafe` price object: price per 60 kg sack in reais, as cents. */
  datatype PriceObject = PriceObject(preco: int, unidade: string, pesoKg: nat, moeda: string)

  /** The `cafe` object: "robusta" is the canonical key, "conilon" its alias
      holding the same object. */
  datatype Cafe = Cafe(arabica: PriceObject, robusta: PriceObject, conilon: PriceObject)

  datatype Snapshot = Snapshot(
    ultimaAtualizacao: string,
    dataFormatada: string,
    horaFormatada: string,
    pregaoAberto: bool,
    fonte: string,
    cafe: Cafe)

  const Source: string := "Not\U{ed}cias Agr\U{ed}colas"

  function SackPrice(cents: int): (p: PriceObject)
    ensures p.preco == cents && p.unidade == "saca" && p.pesoKg == 60 && p.moeda == "BRL"
  {
    PriceObject(cents, "saca", 60, "BRL")
  }

  /** The record `update_prices` serialises. `tradeDate` is accepted and
      not used, as in the source. */
  function BuildSnapshot(priceArabica: int, priceConilon: int, tradeDate: string, now: Instant, marketDay: Day): (s: Snapshot)
    ensures s.ultimaAtualizacao == now.isoformat
    ensures s.dataFormatada == now.date && s.horaFormatada == now.time
    ensures s.pregaoAberto <==> marketDay != Saturday && marketDay != Sunday
    ensures s.fonte == Source
    ensures s.cafe.arabica.preco == priceArabica
    ensures s.cafe.robusta == s.cafe.conilon && s.cafe.conilon.preco == priceConilon
    ensures forall p :: p in {s.cafe.arabica, s.cafe.robusta, s.cafe.conilon} ==>
              p.unidade == "saca" && p.pesoKg == 60 && p.moeda == "BRL"
  {
    var robusta := SackPrice(priceConilon);
    Snapshot(now.isoformat, now.date, now.time, IsMarketOpen(marketDay), Source,
      Cafe(SackPrice(priceArabica), robusta, robusta))
  }

  /** As written, the flag comes from a second clock read: a run captured
      on Friday just before midnight whose flag is computed just after it
      records a Friday timestamp with the market closed. */
  lemma MarketFlagCanContradictCapture()
    ensures var now := Instant("2025-09-19T23:59:59.999999", "19/09/2025", "23:59:59", Friday);
      var s := BuildSnapshot(229266, 140221, now.date, now, Saturday);
      IsMarketOpen(now.day) && s.dataFormatada == "19/09/2025" && !s.pregaoAberto
  {
  }

  /** The record with the flag taken from the capture instant itself, so
      that the flag always agrees with the timestamp it is written beside. */
  function CapturedSnapshot(priceArabica: int, priceConilon: int, tradeDate: string, now: Instant): (s: Snapshot)
    ensures s.pregaoAberto <==> now.day != Saturday && now.day != Sunday
    ensures s.ultimaAtualizacao == now.isoformat && s.dataFormatada == now.date
    ensures s.cafe.arabica.preco == priceArabica
    ensures s.cafe.robusta == s.cafe.conilon && s.cafe.conilon.preco == priceConilon
  {
    BuildSnapshot(priceArabica, priceConilon, tradeDate, now, now.day)
  }
}
