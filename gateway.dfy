/**
 * The external data gateway: the outcome of fetching the countries catalog and
 * the exchange-rate feed, and the classification of a failed fetch by the
 * address that failed.
 */
module Gateway {
  import opened Wrappers
  import opened Text
  import opened Records

  /** The two endpoints, written around the host names that identify them. */
  const COUNTRIES_HOST: string := "restcountries"
  const RATES_HOST: string := "open.er-api"
  const COUNTRIES_QUERY: string := ".com/v2/all?fields=name,capital,region,population,flag,currencies"
  const RATES_PATH: string := ".com/v6/latest/USD"
  const COUNTRIES_API: string := "https://" + COUNTRIES_HOST + COUNTRIES_QUERY
  const RATES_API: string := "https://" + RATES_HOST + RATES_PATH

  const EXTERNAL_FAIL: string := "EXTERNAL_FAIL"
  const UNAVAILABLE: string := "External data source unavailable"
  const DETAILS_PREFIX: string := "Could not fetch data from "
  /** The name used when the failed request carries no address. */
  const GENERIC_SOURCE: string := "external API"

  /**
   * What the two concurrent requests deliver: both payloads, or the failure of
   * one of them with the address of the failed request when the error carries one.
   * `rates` is the `rates` member of the rate feed's payload, `None` when absent.
   */
  datatype FetchResult =
    | Fetched(countries: seq<RawCountry>, rates: Option<RateTable>)
    | FetchFailed(url: Option<string>)

  /** The errors a refresh ends with. */
  datatype RefreshError =
    | ExternalFail(code: string, error: string, details: string)  // a source could not be fetched
    | DatabaseFail                                                // a call inside the transaction threw
    | RenderFail                                                  // the summary image could not be written

  /** The user-facing name of the source whose request failed. */
  function SourceName(url: Option<string>): (name: string)
    ensures name in {"Countries API", "Exchange rates API", GENERIC_SOURCE} || (url.Some? && name == url.value)
  {
    var which := if url.Some? && url.value != "" then url.value else GENERIC_SOURCE;
    if Contains(which, COUNTRIES_HOST) then "Countries API"
    else if Contains(which, RATES_HOST) then "Exchange rates API"
    else which
  }

  /** The error thrown when the fetch stage fails. */
  function FetchFailure(url: Option<string>): (e: RefreshError)
    ensures e.ExternalFail? && e.code == EXTERNAL_FAIL && e.error == UNAVAILABLE
    ensures e.details == DETAILS_PREFIX + SourceName(url)
  {
    ExternalFail(EXTERNAL_FAIL, UNAVAILABLE, DETAILS_PREFIX + SourceName(url))
  }

  /** A failure of the countries catalog request is reported as the Countries API. */
  lemma CountriesEndpointFailure()
    ensures FetchFailure(Some(COUNTRIES_API)).details == DETAILS_PREFIX + "Countries API"
  {
    ContainsMiddle("https://", COUNTRIES_HOST, COUNTRIES_QUERY);
  }

  /** A failure of the rate feed request is reported as the Exchange rates API. */
  lemma RatesEndpointFailure()
    ensures FetchFailure(Some(RATES_API)).details == DETAILS_PREFIX + "Exchange rates API"
  {
    assert 'u' in COUNTRIES_HOST && 'u' !in RATES_API;
    MissingCharNotContained(RATES_API, COUNTRIES_HOST, 'u');
    ContainsMiddle("https://", RATES_HOST, RATES_PATH);
  }

  /** An error without a (truthy) address is reported as the generic external API. */
  lemma UnknownOriginFailure(url: Option<string>)
    requires url.None? || url == Some("")
    ensures FetchFailure(url).details == DETAILS_PREFIX + GENERIC_SOURCE
  {
    GenericNameNamesNoHost();
  }

  /** The generic name mentions neither host, so it is reported as itself. */
  lemma GenericNameNamesNoHost()
    ensures !Contains(GENERIC_SOURCE, COUNTRIES_HOST) && !Contains(GENERIC_SOURCE, RATES_HOST)
  {
    assert 'o' !in GENERIC_SOURCE;
    assert 'o' == COUNTRIES_HOST[5] && 'o' == RATES_HOST[0];
    MissingCharNotContained(GENERIC_SOURCE, COUNTRIES_HOST, 'o');
    MissingCharNotContained(GENERIC_SOURCE, RATES_HOST, 'o');
  }

  /** Any other address is reported as itself. */
  lemma OtherUrlFailure(url: string)
    requires url != "" && !Contains(url, COUNTRIES_HOST) && !Contains(url, RATES_HOST)
    ensures FetchFailure(Some(url)).details == DETAILS_PREFIX + url
  {
  }

  /** An address naming the catalog host wins over one naming the rate host. */
  lemma CatalogHostTakesPrecedence(url: string)
    requires Contains(url, COUNTRIES_HOST)
    ensures SourceName(Some(url)) == "Countries API"
  {
  }

  /** An address naming the rate host, and not the catalog host, is reported as the Exchange rates API. */
  lemma RatesHostFailure(url: string)
    requires !Contains(url, COUNTRIES_HOST) && Contains(url, RATES_HOST)
    ensures FetchFailure(Some(url)).details == DETAILS_PREFIX + "Exchange rates API"
  {
  }
}
