/**
 * The refresh orchestrator: fetch both sources, derive the records, reconcile
 * them into the store in one transaction, then render the summary.
 */
module Refresh {
  import opened Wrappers
  import opened Records
  import opened Gateway
  import opened Reconcile
  import opened Store
  import opened Summary

  /** The `{ total, last_refreshed_at }` value of a successful refresh. */
  datatype RefreshResult = RefreshResult(total: nat, lastRefreshedAt: Timestamp)

  /**
   * What a refresh may assume of its injected inputs once both payloads have
   * arrived: one draw in [0, 1) per raw country, non-zero rates, the existing
   * rows as the read returns them, and enough fresh ids for the bulk insert.
   */
  predicate Prepared(countries: seq<RawCountry>, rates: Option<RateTable>, draws: seq<real>,
                     rows: Table, listing: seq<Id>, newIds: seq<Id>)
  {
    && |draws| == |countries| && AllDraws(draws) && NonZeroRates(RatesTable(rates))
    && ListsTable(rows, listing) && |countries| <= |newIds| && FreshIds(newIds, rows)
  }

  /**
   * `refreshAll`. `fetch` is the outcome of the two requests, `now` the refresh
   * time, `draws` one slot per raw country, read only when that country is
   * priced, `listing`, `newIds` and `fault` the behaviour of the database, and
   * `render` whether writing the summary image succeeds.
   */
  method RefreshAll(store: CountryStore, fetch: FetchResult, now: Timestamp, draws: seq<real>,
                    listing: seq<Id>, newIds: seq<Id>, fault: Option<nat>, render: Summary -> bool)
    returns (result: Result<RefreshResult, RefreshError>)
    requires fetch.Fetched? ==> Prepared(fetch.countries, fetch.rates, draws, store.rows, listing, newIds)
    modifies store
    ensures fetch.FetchFailed? ==>
      result == Failure(FetchFailure(fetch.url)) && store.rows == old(store.rows) && store.meta == old(store.meta)
    ensures fetch.Fetched? ==>
      var records := DeriveRecords(fetch.countries, RatesTable(fetch.rates), draws, now);
      if FaultHits(fault, TransactionCalls(records, NameIndex(old(store.rows), listing))) then
        result == Failure(DatabaseFail) && store.rows == old(store.rows) && store.meta == old(store.meta)
      else
        && store.rows == Reconciled(old(store.rows), records, listing, newIds)
        && store.meta == old(store.meta)[LAST_REFRESHED_AT := now]
        && result == (if render(MakeSummary(records, now)) then Success(RefreshResult(|fetch.countries|, now))
                      else Failure(RenderFail))
  {
    if fetch.FetchFailed? {
      return Failure(FetchFailure(fetch.url));
    }
    var rates := RatesTable(fetch.rates);
    var records := DeriveRecords(fetch.countries, rates, draws, now);
    var committed := store.Reconcile(records, now, listing, newIds, fault);
    if !committed {
      return Failure(DatabaseFail);
    }
    var summary := MakeSummary(records, now);
    if !render(summary) {
      return Failure(RenderFail);
    }
    result := Success(RefreshResult(summary.total, now));
  }
}
