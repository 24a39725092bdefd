/**
 * Record derivation: each raw country from the countries catalog becomes one
 * normalised country record, priced with the exchange-rate table.
 */
module Records {
  import opened Wrappers

  /** The instant of one refresh, in its ISO-8601 rendering. */
  type Timestamp = string

  /** One entry of a raw country's `currencies` list; only its `code` is read. */
  datatype RawCurrency = RawCurrency(code: Option<string>)

  /**
   * A country as the catalog sends it. A field that is absent is `None`;
   * `currencies` is `None` when the payload holds anything but an array.
   */
  datatype RawCountry = RawCountry(
    name: string,
    capital: Option<string>,
    region: Option<string>,
    population: Option<nat>,
    currencies: Option<seq<RawCurrency>>,
    flag: Option<string>)

  /** A row of the `countries` table, without its primary key. */
  datatype Record = Record(
    name: string,
    capital: Option<string>,
    region: Option<string>,
    population: nat,
    currencyCode: Option<string>,
    exchangeRate: Option<real>,
    estimatedGdp: Option<real>,
    flagUrl: Option<string>,
    lastRefreshedAt: Timestamp)

  /** Currency code to its rate against the US dollar. */
  type RateTable = map<string, real>

  const MULTIPLIER_MIN: int := 1000
  const MULTIPLIER_MAX: int := 2000

  /** A value `Math.random()` can return. */
  predicate IsDraw(u: real)
  {
    0.0 <= u < 1.0
  }

  predicate AllDraws(draws: seq<real>)
  {
    forall i :: 0 <= i < |draws| ==> IsDraw(draws[i])
  }

  predicate IsMultiplier(m: int)
  {
    MULTIPLIER_MIN <= m <= MULTIPLIER_MAX
  }

  /** `randMultiplier()`: the draw `u` scaled onto the integers 1000..2000. */
  function RandMultiplier(u: real): (m: int)
    requires IsDraw(u)
    ensures IsMultiplier(m)
  {
    (u * (MULTIPLIER_MAX - MULTIPLIER_MIN + 1) as real).Floor + MULTIPLIER_MIN
  }

  /**
   * Every multiplier is produced by exactly the draws of one interval of
   * width 1/1001, so a uniform draw gives a uniform multiplier.
   */
  lemma MultiplierInterval(u: real, m: int)
    requires IsDraw(u)
    ensures RandMultiplier(u) == m <==>
      (m - MULTIPLIER_MIN) as real / 1001.0 <= u < (m - MULTIPLIER_MIN + 1) as real / 1001.0
  {
    var k := (u * 1001.0).Floor;
    var j := m - MULTIPLIER_MIN;
    assert k as real <= u * 1001.0 < k as real + 1.0;
    assert (j as real / 1001.0 <= u) == (j as real <= u * 1001.0);
    assert (u < (j + 1) as real / 1001.0) == (u * 1001.0 < (j + 1) as real);
  }

  /** No rate is zero: the source would divide by it. */
  predicate NonZeroRates(rates: RateTable)
  {
    forall code :: code in rates ==> rates[code] != 0.0
  }

  /** `fetched.rates.rates`, or the empty table when the payload lacks it. */
  function RatesTable(payload: Option<RateTable>): (rates: RateTable)
    ensures payload.None? ==> rates == map[]
    ensures payload.Some? ==> rates == payload.value
  {
    payload.GetOr(map[])
  }

  /** `s || null` for an optional string: the empty string is falsy. */
  function OrNull(s: Option<string>): (r: Option<string>)
    ensures r.Some? <==> s.Some? && s.value != ""
    ensures r.Some? ==> r == s
  {
    if s.Some? && s.value != "" then s else None
  }

  /** The country has no usable currency: no list, an empty list, or a falsy first code. */
  predicate NoCurrency(c: RawCountry)
  {
    c.currencies.None? || |c.currencies.value| == 0
    || c.currencies.value[0].code.None? || c.currencies.value[0].code.value == ""
  }

  /** `currency_code`: the code of the first listed currency, or null. */
  function CurrencyCode(c: RawCountry): (code: Option<string>)
    ensures code.None? <==> NoCurrency(c)
    ensures code.Some? ==> code.value != "" && code == c.currencies.value[0].code
  {
    if c.currencies.Some? && |c.currencies.value| > 0 then OrNull(c.currencies.value[0].code) else None
  }

  /** The GDP estimate equals population * m / rate. */
  predicate GdpFromMultiplier(population: nat, rate: real, gdp: real, m: int)
    requires rate != 0.0
  {
    gdp == (population as real) * (m as real) / rate
  }

  /** The callback of `countriesRaw.map`, with `u` the draw behind its multiplier. */
  function DeriveRecord(c: RawCountry, rates: RateTable, u: real, now: Timestamp): (r: Record)
    requires IsDraw(u) && NonZeroRates(rates)
    ensures r.name == c.name && r.lastRefreshedAt == now
    ensures r.population == c.population.GetOr(0)
    ensures r.capital == OrNull(c.capital) && r.region == OrNull(c.region) && r.flagUrl == OrNull(c.flag)
    ensures r.currencyCode == CurrencyCode(c)
    ensures r.currencyCode.None? ==> r.exchangeRate.None? && r.estimatedGdp == Some(0.0)
    ensures r.currencyCode.Some? && r.currencyCode.value !in rates ==>
      r.exchangeRate.None? && r.estimatedGdp.None?
    ensures r.currencyCode.Some? && r.currencyCode.value in rates ==>
      && r.exchangeRate == Some(rates[r.currencyCode.value])
      && r.estimatedGdp.Some?
      && exists m :: IsMultiplier(m) && GdpFromMultiplier(r.population, r.exchangeRate.value, r.estimatedGdp.value, m)
  {
    var code := CurrencyCode(c);
    var population := c.population.GetOr(0);
    var priced: (Option<real>, Option<real>) :=
      if code.None? then
        (None, Some(0.0))
      else if code.value in rates then
        var rate := rates[code.value];
        var m := RandMultiplier(u);
        assert GdpFromMultiplier(population, rate, (population as real) * (m as real) / rate, m);
        (Some(rate), Some((population as real) * (m as real) / rate))
      else
        (None, None);
    Record(
      name := c.name,
      capital := OrNull(c.capital),
      region := OrNull(c.region),
      population := population,
      currencyCode := code,
      exchangeRate := priced.0,
      estimatedGdp := priced.1,
      flagUrl := OrNull(c.flag),
      lastRefreshedAt := now)
  }

  /**
   * `countriesRaw.map(...)`: `draws[i]` is the slot of country `i`, read only
   * when that country is priced, since only then is `randMultiplier` called.
   */
  function DeriveRecords(raw: seq<RawCountry>, rates: RateTable, draws: seq<real>, now: Timestamp): (rs: seq<Record>)
    requires |draws| == |raw| && AllDraws(draws) && NonZeroRates(rates)
    ensures |rs| == |raw|
    ensures forall i :: 0 <= i < |raw| ==> rs[i] == DeriveRecord(raw[i], rates, draws[i], now)
  {
    if raw == [] then []
    else [DeriveRecord(raw[0], rates, draws[0], now)] + DeriveRecords(raw[1..], rates, draws[1..], now)
  }

  /**
   * One record per raw country, in input order, each carrying the raw name and
   * the one timestamp of the batch.
   */
  lemma {:induction false} DeriveKeepsOrderAndTimestamp(raw: seq<RawCountry>, rates: RateTable, draws: seq<real>, now: Timestamp)
    requires |draws| == |raw| && AllDraws(draws) && NonZeroRates(rates)
    ensures var rs := DeriveRecords(raw, rates, draws, now);
      |rs| == |raw| && forall i :: 0 <= i < |rs| ==> rs[i].name == raw[i].name && rs[i].lastRefreshedAt == now
  {
  }

  /**
   * The three pricing cases for the country at position `i`: no currency gives
   * a null rate and a GDP of exactly zero; a priced currency gives its rate and
   * population * m / rate for a multiplier m in 1000..2000; an unpriced one
   * gives null for both.
   */
  lemma PricingCases(raw: seq<RawCountry>, rates: RateTable, draws: seq<real>, now: Timestamp, i: nat)
    requires |draws| == |raw| && AllDraws(draws) && NonZeroRates(rates) && i < |raw|
    ensures var r := DeriveRecords(raw, rates, draws, now)[i];
      && r.population == raw[i].population.GetOr(0)
      && (NoCurrency(raw[i]) ==> r.currencyCode.None? && r.exchangeRate.None? && r.estimatedGdp == Some(0.0))
      && (!NoCurrency(raw[i]) && CurrencyCode(raw[i]).value in rates ==>
            && r.exchangeRate == Some(rates[CurrencyCode(raw[i]).value])
            && r.estimatedGdp.Some?
            && exists m :: IsMultiplier(m) && GdpFromMultiplier(raw[i].population.GetOr(0), r.exchangeRate.value, r.estimatedGdp.value, m))
      && (!NoCurrency(raw[i]) && CurrencyCode(raw[i]).value !in rates ==>
            r.exchangeRate.None? && r.estimatedGdp.None?)
  {
  }

  /** Without a rates payload no country is priced: the table behaves as empty. */
  lemma MissingRatesPayload(raw: seq<RawCountry>, draws: seq<real>, now: Timestamp, i: nat)
    requires |draws| == |raw| && AllDraws(draws) && i < |raw|
    ensures var r := DeriveRecords(raw, RatesTable(None), draws, now)[i];
      r.exchangeRate.None? && (r.estimatedGdp.Some? <==> NoCurrency(raw[i]))
  {
  }

  /** Falsy fields fall back: population to 0, capital, region and flag to null. */
  lemma RecordDefaults(c: RawCountry, rates: RateTable, u: real, now: Timestamp)
    requires IsDraw(u) && NonZeroRates(rates)
    ensures var r := DeriveRecord(c, rates, u, now);
      && (c.population.None? || c.population == Some(0) <==> r.population == 0)
      && (c.population.Some? ==> r.population == c.population.value)
      && (c.capital.None? || c.capital == Some("") <==> r.capital.None?)
      && (c.region.None? || c.region == Some("") <==> r.region.None?)
      && (c.flag.None? || c.flag == Some("") <==> r.flagUrl.None?)
      && (r.capital.Some? ==> r.capital == c.capital)
      && (r.region.Some? ==> r.region == c.region)
      && (r.flagUrl.Some? ==> r.flagUrl == c.flag)
  {
  }

  /**
   * The estimate is zero exactly when the country has no currency, or when it
   * is priced and its population is zero; a zero estimate is therefore never
   * produced by an unpriced country.
   */
  lemma GdpZeroExactly(c: RawCountry, rates: RateTable, u: real, now: Timestamp)
    requires IsDraw(u) && NonZeroRates(rates)
    ensures var r := DeriveRecord(c, rates, u, now);
      r.estimatedGdp == Some(0.0) <==>
        NoCurrency(c) || (CurrencyCode(c).value in rates && r.population == 0)
  {
    var r := DeriveRecord(c, rates, u, now);
    if !NoCurrency(c) && CurrencyCode(c).value in rates {
      var rate := rates[CurrencyCode(c).value];
      var m := RandMultiplier(u);
      var p := r.population as real;
      assert r.estimatedGdp == Some(p * (m as real) / rate);
      if r.population != 0 {
        assert p * (m as real) > 0.0;
        assert p * (m as real) / rate != 0.0;
      }
    }
  }

  /**
   * Re-deriving the same priced, populated country with draws that give
   * different multipliers gives different estimates.
   */
  lemma GdpDependsOnDraw(c: RawCountry, rates: RateTable, u1: real, u2: real, now: Timestamp)
    requires IsDraw(u1) && IsDraw(u2) && NonZeroRates(rates)
    requires !NoCurrency(c) && CurrencyCode(c).value in rates && c.population.GetOr(0) > 0
    requires RandMultiplier(u1) != RandMultiplier(u2)
    ensures DeriveRecord(c, rates, u1, now).estimatedGdp != DeriveRecord(c, rates, u2, now).estimatedGdp
  {
    var rate := rates[CurrencyCode(c).value];
    var p := c.population.GetOr(0) as real;
    var m1, m2 := RandMultiplier(u1) as real, RandMultiplier(u2) as real;
    assert p * m1 != p * m2;
    assert p * m1 / rate * rate == p * m1;
    assert p * m2 / rate * rate == p * m2;
  }
}
