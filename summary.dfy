/**
 * The summary computed after a committed refresh: the number of derived
 * records and at most five records with the largest non-zero estimated GDP, in
 * descending order, handed to the image renderer.
 */
module Summary {
  import opened Records

  /** The `{ name, estimated_gdp }` pairs of the top list. */
  datatype Ranked = Ranked(name: string, gdp: real)

  /** The `{ total, top5, timestamp }` argument of the renderer. */
  datatype Summary = Summary(total: nat, top5: seq<Ranked>, timestamp: Timestamp)

  /** How many entries the top list keeps. */
  const TOP_COUNT: nat := 5

  /** The filter `r.estimated_gdp && typeof r.estimated_gdp === 'number'`: null and 0 are falsy. */
  predicate Ranks(r: Record)
  {
    r.estimatedGdp.Some? && r.estimatedGdp.value != 0.0
  }

  function Rank(r: Record): (c: Ranked)
    requires Ranks(r)
    ensures c.name == r.name && c.gdp == r.estimatedGdp.value
  {
    Ranked(r.name, r.estimatedGdp.value)
  }

  /** The records that pass the filter, projected, in batch order. */
  function Candidates(records: seq<Record>): (cs: seq<Ranked>)
    ensures |cs| <= |records|
    ensures forall k :: 0 <= k < |cs| ==> cs[k].gdp != 0.0
    ensures forall i :: 0 <= i < |records| && Ranks(records[i]) ==> Rank(records[i]) in cs
    ensures forall k :: 0 <= k < |cs| ==> exists i :: 0 <= i < |records| && Ranks(records[i]) && Rank(records[i]) == cs[k]
  {
    if records == [] then []
    else
      var rest := Candidates(records[1..]);
      assert forall i :: 1 <= i < |records| ==> records[i] == records[1..][i - 1];
      assert forall i :: 1 <= i < |records| && Ranks(records[i]) ==> Rank(records[i]) in rest by {
        forall i | 1 <= i < |records| && Ranks(records[i])
          ensures Rank(records[i]) in rest
        {
          assert records[1..][i - 1] == records[i];
        }
      }
      if Ranks(records[0]) then [Rank(records[0])] + rest else rest
  }

  /** The filter of a single record: kept and projected exactly when it passes. */
  lemma CandidatesSingle(r: Record)
    ensures Candidates([r]) == if Ranks(r) then [Rank(r)] else []
  {
    assert [r][1..] == [];
  }

  /**
   * The filter keeps every passing record, repeats included, in batch order:
   * filtering a concatenation concatenates the filtered parts.
   */
  lemma {:induction false} CandidatesAppend(a: seq<Record>, b: seq<Record>)
    ensures Candidates(a + b) == Candidates(a) + Candidates(b)
  {
    if a == [] {
      assert a + b == b;
    } else {
      assert (a + b)[0] == a[0];
      assert (a + b)[1..] == a[1..] + b;
      CandidatesAppend(a[1..], b);
    }
  }

  /** Every entry is at least as large as every later one. */
  predicate Descending(s: seq<Ranked>)
  {
    forall i, j :: 0 <= i < j < |s| ==> s[i].gdp >= s[j].gdp
  }

  /**
   * Inserts `x` before the first entry that is not larger than it, so that
   * entries of equal GDP keep their batch order.
   */
  function Insert(x: Ranked, t: seq<Ranked>): (r: seq<Ranked>)
    ensures |r| == |t| + 1
    ensures multiset(r) == multiset(t) + multiset{x}
    ensures forall k :: 0 <= k < |r| ==> r[k] == x || r[k] in t
  {
    if t == [] then [x]
    else if t[0].gdp <= x.gdp then [x] + t
    else
      assert t == [t[0]] + t[1..];
      [t[0]] + Insert(x, t[1..])
  }

  /** Inserting into a descending list keeps it descending. */
  lemma {:induction false} InsertKeepsDescending(x: Ranked, t: seq<Ranked>)
    requires Descending(t)
    ensures Descending(Insert(x, t))
  {
    if t != [] && t[0].gdp > x.gdp {
      var tail := Insert(x, t[1..]);
      assert Descending(t[1..]);
      InsertKeepsDescending(x, t[1..]);
      forall k | 0 <= k < |tail|
        ensures t[0].gdp >= tail[k].gdp
      {
        if tail[k] != x {
          var j :| 0 <= j < |t[1..]| && t[1..][j] == tail[k];
          assert t[j + 1] == tail[k];
        }
      }
      assert Insert(x, t) == [t[0]] + tail;
    }
  }

  /** The comparator `(a, b) => b.estimated_gdp - a.estimated_gdp`, as an insertion sort. */
  function SortDesc(s: seq<Ranked>): (r: seq<Ranked>)
    ensures |r| == |s|
    ensures multiset(r) == multiset(s)
    ensures Descending(r)
  {
    if s == [] then []
    else
      assert s == [s[0]] + s[1..];
      InsertKeepsDescending(s[0], SortDesc(s[1..]));
      Insert(s[0], SortDesc(s[1..]))
  }

  function Min(a: nat, b: nat): nat
  {
    if a <= b then a else b
  }

  /** `.sort(...).slice(0, 5)`: the largest candidates, at most five of them. */
  function Top(cs: seq<Ranked>): (t: seq<Ranked>)
    ensures |t| == Min(TOP_COUNT, |cs|)
    ensures Descending(t)
    ensures multiset(t) <= multiset(cs)
  {
    var sorted := SortDesc(cs);
    var n := Min(TOP_COUNT, |cs|);
    assert sorted == sorted[..n] + sorted[n..];
    sorted[..n]
  }

  /** The renderer's argument for a batch that was committed at `now`. */
  function MakeSummary(records: seq<Record>, now: Timestamp): (s: Summary)
    ensures s.total == |records| && s.timestamp == now
    ensures |s.top5| == Min(TOP_COUNT, |Candidates(records)|) && Descending(s.top5)
    ensures multiset(s.top5) <= multiset(Candidates(records))
    ensures forall k :: 0 <= k < |s.top5| ==> s.top5[k].gdp != 0.0
  {
    var cs := Candidates(records);
    var t := Top(cs);
    forall k | 0 <= k < |t|
      ensures t[k].gdp != 0.0
    {
      assert t[k] in multiset(t);
      var j :| 0 <= j < |cs| && cs[j] == t[k];
    }
    Summary(|records|, t, now)
  }

  /**
   * In a descending list, an entry counted more often in the whole list than
   * in its first `n` places is no larger than any of those places.
   */
  lemma PrefixDominates(s: seq<Ranked>, n: nat, k: nat, c: Ranked)
    requires Descending(s) && k < n <= |s|
    ensures c in multiset(s) - multiset(s[..n]) ==> c.gdp <= s[k].gdp
  {
    if c in multiset(s) - multiset(s[..n]) {
      assert c in s[n..] by {
        assert s == s[..n] + s[n..];
        assert multiset(s) == multiset(s[..n]) + multiset(s[n..]);
      }
      var j :| 0 <= j < |s| - n && s[n..][j] == c;
      assert s[n + j] == c;
    }
  }

  /** What the slice leaves out is never larger than anything it keeps. */
  lemma TopDominates(cs: seq<Ranked>, k: nat, c: Ranked)
    requires k < Min(TOP_COUNT, |cs|)
    ensures c in multiset(cs) - multiset(Top(cs)) ==> c.gdp <= Top(cs)[k].gdp
  {
    var sorted := SortDesc(cs);
    var n := Min(TOP_COUNT, |cs|);
    assert Top(cs) == sorted[..n];
    PrefixDominates(sorted, n, k, c);
  }

  /** With five candidates or fewer, every one of them is listed. */
  lemma FewCandidatesAllListed(cs: seq<Ranked>)
    requires |cs| <= TOP_COUNT
    ensures multiset(Top(cs)) == multiset(cs)
  {
    assert SortDesc(cs)[..|cs|] == SortDesc(cs);
  }

  /** Each listed entry is the name and GDP of a record of the batch that passes the filter. */
  lemma SummaryEntriesFromBatch(records: seq<Record>, now: Timestamp, k: nat)
    requires k < |MakeSummary(records, now).top5|
    ensures exists i :: 0 <= i < |records| && Ranks(records[i]) && Rank(records[i]) == MakeSummary(records, now).top5[k]
  {
    var cs := Candidates(records);
    var t := MakeSummary(records, now).top5;
    assert t[k] in multiset(t);
    var j :| 0 <= j < |cs| && cs[j] == t[k];
  }

  /**
   * A record that passes the filter but is not listed has an estimated GDP no
   * larger than any listed one.
   */
  lemma SummaryOmitsOnlySmaller(records: seq<Record>, now: Timestamp, i: nat, k: nat)
    requires i < |records| && Ranks(records[i])
    ensures var top5 := MakeSummary(records, now).top5;
      k < |top5| && Rank(records[i]) !in top5 ==> records[i].estimatedGdp.value <= top5[k].gdp
  {
    var top5 := MakeSummary(records, now).top5;
    if k < |top5| && Rank(records[i]) !in top5 {
      var cs := Candidates(records);
      var c := Rank(records[i]);
      assert c in multiset(cs);
      assert c !in multiset(Top(cs));
      TopDominates(cs, k, c);
    }
  }

  /** A batch whose records all lack a price or have a zero estimate lists nobody. */
  lemma {:induction false} NothingRankedEmptyTop(records: seq<Record>, now: Timestamp)
    requires forall i :: 0 <= i < |records| ==> !Ranks(records[i])
    ensures Candidates(records) == [] && MakeSummary(records, now).top5 == []
  {
    if records != [] {
      assert forall i :: 0 <= i < |records[1..]| ==> records[1..][i] == records[i + 1];
      NothingRankedEmptyTop(records[1..], now);
    }
  }
}
