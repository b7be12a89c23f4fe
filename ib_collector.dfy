/** The forex data collector: request bookkeeping, the callbacks through which
    the market-data service delivers bars and connection events, and the step
    that saves every collected bar into the forex_ohlcv table.

    The callbacks run on the service's dispatch thread in the collector; here
    they are methods that a caller may invoke in any order, one at a time. */
module IbCollector {
  import opened Nullable
  import opened ForexOhlcv

  /** The value of the request counter before the first request. */
  const RequestIdBase: int := 10000

  /** Informational codes that the service sends once a session is up. */
  const ConnectedInfoCodes: set<int> := {2104, 2106, 2158}

  /** The currency pairs the collector fetches, as (base, quote). */
  const ForexPairs: seq<(string, string)> := [("EUR", "USD"), ("GBP", "USD"), ("AUD", "USD"), ("USD", "JPY")]

  // ---------------------------------------------------------------------------
  // Contracts and pair names

  /** The fields of the service's Contract record that the collector sets. */
  datatype Contract = Contract(symbol: string, secType: string, currency: string, exchange: string)

  /** A spot forex contract: base currency as symbol, quote currency as
      currency, traded as cash on the IDEALPRO venue. */
  function CreateForexContract(pairFrom: string, pairTo: string): (c: Contract)
    ensures c.secType == "CASH" && c.exchange == "IDEALPRO"
    ensures (c.symbol, c.currency) == (pairFrom, pairTo)
  {
    Contract(pairFrom, "CASH", pairTo, "IDEALPRO")
  }

  /** The name under which a pair's rows are stored, such as "EUR/USD". */
  function PairName(pairFrom: string, pairTo: string): (n: string)
    ensures |n| == |pairFrom| + 1 + |pairTo|
    ensures n[..|pairFrom|] == pairFrom && n[|pairFrom|] == '/' && n[|pairFrom| + 1..] == pairTo
  {
    pairFrom + "/" + pairTo
  }

  /** The text of a name up to its first slash. */
  function CodeBeforeSlash(name: string): string {
    if name == [] || name[0] == '/' then [] else [name[0]] + CodeBeforeSlash(name[1..])
  }

  /** A slash-free base code is read back from its pair name, and so is the
      quote code after it. */
  lemma {:induction false} PairNameSplits(pairFrom: string, pairTo: string)
    requires '/' !in pairFrom
    ensures CodeBeforeSlash(PairName(pairFrom, pairTo)) == pairFrom
    ensures PairName(pairFrom, pairTo)[|pairFrom| + 1..] == pairTo
  {
    var n := PairName(pairFrom, pairTo);
    if pairFrom != [] {
      PairNameSplits(pairFrom[1..], pairTo);
      assert n[0] == pairFrom[0] && n[1..] == PairName(pairFrom[1..], pairTo);
      assert pairFrom == [pairFrom[0]] + pairFrom[1..];
    }
  }

  /** Distinct pairs of slash-free base codes get distinct names, so their
      rows never share a key. */
  lemma PairNameInjective(a: string, b: string, c: string, d: string)
    requires '/' !in a && '/' !in c
    requires PairName(a, b) == PairName(c, d)
    ensures a == c && b == d
  {
    PairNameSplits(a, b);
    PairNameSplits(c, d);
  }

  /** The names of the configured pairs are pairwise distinct. */
  lemma ForexPairNamesDistinct()
    ensures forall i, j :: 0 <= i < j < |ForexPairs| ==>
      PairName(ForexPairs[i].0, ForexPairs[i].1) != PairName(ForexPairs[j].0, ForexPairs[j].1)
  {
    forall i, j | 0 <= i < j < |ForexPairs|
      ensures PairName(ForexPairs[i].0, ForexPairs[i].1) != PairName(ForexPairs[j].0, ForexPairs[j].1)
    {
      var (a, b) := ForexPairs[i];
      var (c, d) := ForexPairs[j];
      assert '/' !in a && '/' !in c;
      if PairName(a, b) == PairName(c, d) {
        PairNameInjective(a, b, c, d);
      }
    }
  }

  // ---------------------------------------------------------------------------
  // Requests and bars

  /** One bar as the collector keeps it: the six fields it copies from the
      service's bar record. None is a missing value. */
  datatype Bar = Bar(
    date: Option<string>,
    open: Option<real>,
    high: Option<real>,
    low: Option<real>,
    close: Option<real>,
    volume: Option<int>)

  /** One entry of the request table: the pair name given with the request
      and the bars received for it, in arrival order. */
  datatype Request = Request(pair: Option<string>, bars: seq<Bar>)

  /** The request table after the bar callback for reqId: the bar goes to the
      end of that request's list, or nowhere when reqId was never registered. */
  function AppendBar(data: map<int, Request>, reqId: int, bar: Bar): (d: map<int, Request>)
    ensures d.Keys == data.Keys
    ensures reqId in data ==>
      d[reqId].pair == data[reqId].pair
      && |d[reqId].bars| == |data[reqId].bars| + 1
      && d[reqId].bars[..|data[reqId].bars|] == data[reqId].bars
      && d[reqId].bars[|data[reqId].bars|] == bar
    ensures forall id :: id in data && id != reqId ==> d[id] == data[id]
    ensures reqId !in data ==> d == data
  {
    if reqId in data then
      data[reqId := Request(data[reqId].pair, data[reqId].bars + [bar])]
    else
      data
  }

  /** The values bound to the INSERT statement for one bar of a pair. */
  function BarParams(pair: Option<string>, bar: Bar): InsertParams {
    InsertParams(pair, bar.date, bar.open, bar.high, bar.low, bar.close, bar.volume)
  }

  /** The row writes the save step performs for the bars of one request, in
      order; a bar whose statement raises IntegrityError writes nothing. */
  function BarWrites(pair: Option<string>, bars: seq<Bar>): seq<Write>
  {
    if bars == [] then []
    else
      var w := StatementWrite(BarParams(pair, bars[|bars| - 1]));
      BarWrites(pair, bars[..|bars| - 1]) + (if w.Some? then [w.value] else [])
  }

  /** The row writes the save step performs for a sequence of requests. */
  function Writes(requests: seq<Request>): seq<Write>
  {
    if requests == [] then []
    else
      var r := requests[|requests| - 1];
      Writes(requests[..|requests| - 1]) + BarWrites(r.pair, r.bars)
  }

  /** The save step's writes grow by at most one row write per bar. */
  lemma BarWritesSnoc(pair: Option<string>, bars: seq<Bar>, i: nat)
    requires i < |bars|
    ensures var w := StatementWrite(BarParams(pair, bars[i]));
      BarWrites(pair, bars[..i + 1]) == BarWrites(pair, bars[..i]) + (if w.Some? then [w.value] else [])
  {
    assert bars[..i + 1][..i] == bars[..i];
  }

  /** The requests of a table in the given id order. */
  function InOrder(data: map<int, Request>, ids: seq<int>): seq<Request>
    requires forall i :: 0 <= i < |ids| ==> ids[i] in data
  {
    if ids == [] then [] else InOrder(data, ids[..|ids| - 1]) + [data[ids[|ids| - 1]]]
  }

  /** The save step's writes for one more request. */
  lemma WritesSnoc(requests: seq<Request>, j: nat)
    requires j < |requests|
    ensures Writes(requests[..j + 1]) == Writes(requests[..j]) + BarWrites(requests[j].pair, requests[j].bars)
  {
    assert requests[..j + 1][..j] == requests[..j];
  }

  /** The table after the save step has run over these requests. */
  function Saved(t: Table, requests: seq<Request>): Table {
    ApplyWrites(t, Writes(requests))
  }

  /** The total_rows the save step reports for these requests. */
  function RowsWritten(requests: seq<Request>): nat {
    |Writes(requests)|
  }

  /** The number of bars whose values meet the NOT NULL constraints. */
  function NotNullBars(pair: Option<string>, bars: seq<Bar>): nat
  {
    if bars == [] then 0
    else NotNullBars(pair, bars[..|bars| - 1]) + (if NotNullHolds(BarParams(pair, bars[|bars| - 1])) then 1 else 0)
  }

  /** Every statement that succeeds is counted, and only those: one write per
      bar whose values meet the NOT NULL constraints, so one for every bar
      exactly when no bar misses one of them. */
  lemma {:induction false} BarWritesCount(pair: Option<string>, bars: seq<Bar>)
    ensures |BarWrites(pair, bars)| == NotNullBars(pair, bars) <= |bars|
    ensures |BarWrites(pair, bars)| == |bars| <==>
      forall i :: 0 <= i < |bars| ==> NotNullHolds(BarParams(pair, bars[i]))
  {
    if bars != [] {
      var init := bars[..|bars| - 1];
      BarWritesCount(pair, init);
      assert forall i :: 0 <= i < |init| ==> init[i] == bars[i];
    }
  }

  /** The keys the bars of one request are written to: (pair, date) of each
      bar that meets the NOT NULL constraints, and no other. */
  lemma {:induction false} BarWritesKeys(pair: Option<string>, bars: seq<Bar>, k: Key)
    ensures k in WrittenKeys(BarWrites(pair, bars)) <==>
      exists i :: 0 <= i < |bars| && NotNullHolds(BarParams(pair, bars[i])) && k == (pair.value, bars[i].date.value)
  {
    if bars != [] {
      var n := |bars| - 1;
      var init := bars[..n];
      BarWritesKeys(pair, init, k);
      assert forall i :: 0 <= i < n ==> init[i] == bars[i];
      var w := StatementWrite(BarParams(pair, bars[n]));
      var tail := if w.Some? then [w.value] else [];
      assert BarWrites(pair, bars) == BarWrites(pair, init) + tail;
      assert WrittenKeys(BarWrites(pair, bars)) == WrittenKeys(BarWrites(pair, init)) + WrittenKeys(tail);
    }
  }

  /** When every bar meets the NOT NULL constraints, the i-th write stores
      the i-th bar under (pair, date), its values copied unchanged. */
  lemma {:induction false} BarWritesCopyBars(pair: string, bars: seq<Bar>, i: nat)
    requires forall j :: 0 <= j < |bars| ==> NotNullHolds(BarParams(Some(pair), bars[j]))
    requires i < |bars|
    ensures |BarWrites(Some(pair), bars)| == |bars|
    ensures var b := bars[i];
      && b.date.Some? && b.open.Some? && b.high.Some? && b.low.Some? && b.close.Some?
      && BarWrites(Some(pair), bars)[i] ==
           ((pair, b.date.value), Row(b.open.value, b.high.value, b.low.value, b.close.value, b.volume))
  {
    BarWritesCount(Some(pair), bars);
    if i < |bars| - 1 {
      var init := bars[..|bars| - 1];
      BarWritesCopyBars(pair, init, i);
      BarWritesCount(Some(pair), init);
    }
  }

  /** After the save, a key holds the row of the last bar written to it, in
      request order and then arrival order; a key no bar is written to keeps
      the row it had before, or stays absent. */
  lemma SavedAt(t: Table, requests: seq<Request>, k: Key)
    ensures k !in WrittenKeys(Writes(requests)) ==>
      (k in Saved(t, requests) <==> k in t) && (k in t ==> Saved(t, requests)[k] == t[k])
    ensures k in WrittenKeys(Writes(requests)) ==>
      k in Saved(t, requests) && LastWrite(Writes(requests), k) == Some(Saved(t, requests)[k])
  {
    ApplyWritesAt(t, Writes(requests), k);
    LastWriteAbsent(Writes(requests), k);
  }

  /** Saving the same requests twice leaves the table as saving them once
      does, and both runs report the same number of rows. */
  lemma SaveTwiceIsSaveOnce(t: Table, requests: seq<Request>)
    ensures Saved(Saved(t, requests), requests) == Saved(t, requests)
  {
    ApplyWritesIdempotent(t, Writes(requests));
  }

  /** Saving into an empty table stores, for each pair, one row per distinct
      date written for it: overlapping bars are not duplicated. */
  lemma FreshSavePairCount(requests: seq<Request>, pair: string)
    ensures PairCount(Saved(map[], requests), pair) ==
      |set k | k in WrittenKeys(Writes(requests)) && k.0 == pair :: k.1|
  {
    ApplyWritesKeys(map[], Writes(requests));
    assert Saved(map[], requests).Keys == WrittenKeys(Writes(requests));
  }

  /** total_rows counts replacing writes too: two bars of one pair with the
      same date are two rows written but one row stored, holding the later
      bar's values. */
  lemma ReplacedBarIsCounted(pair: string, date: string, first: Bar, second: Bar)
    requires first.date == second.date == Some(date)
    requires NotNullHolds(BarParams(Some(pair), first)) && NotNullHolds(BarParams(Some(pair), second))
    ensures var requests := [Request(Some(pair), [first, second])];
      && RowsWritten(requests) == 2
      && Saved(map[], requests).Keys == {(pair, date)}
      && Saved(map[], requests)[(pair, date)] ==
           Row(second.open.value, second.high.value, second.low.value, second.close.value, second.volume)
  {
    var requests := [Request(Some(pair), [first, second])];
    var bars := [first, second];
    var w1 := StatementWrite(BarParams(Some(pair), first)).value;
    var w2 := StatementWrite(BarParams(Some(pair), second)).value;
    assert bars[..0] == [] && bars[..2] == bars;
    BarWritesSnoc(Some(pair), bars, 0);
    BarWritesSnoc(Some(pair), bars, 1);
    assert BarWrites(Some(pair), bars) == [w1, w2];
    assert requests[..0] == [];
    assert Writes(requests) == [w1] + [w2];
    ApplyWritesSnoc(map[], [], w1);
    ApplyWritesSnoc(map[], [w1], w2);
    assert w1.0 == w2.0 == (pair, date);
  }

  // ---------------------------------------------------------------------------
  // The collector object

  class ForexDataCollector {
    /** The request table, keyed by request id. */
    var data: map<int, Request>
    /** The ids of data in the order they were inserted, which is the order a
        dictionary is iterated in. */
    var order: seq<int>
    var isConnected: bool
    /** The last request id handed out. */
    var requestId: int

    ghost predicate Valid()
      reads this
    {
      && RequestIdBase <= requestId
      && (forall i :: 0 <= i < |order| ==> order[i] in data && RequestIdBase < order[i] <= requestId)
      && (forall i, j :: 0 <= i < j < |order| ==> order[i] < order[j])
      && (forall id :: id in data ==> id in order)
    }

    constructor ()
      ensures Valid()
      ensures data == map[] && order == [] && !isConnected && requestId == RequestIdBase
    {
      data := map[];
      order := [];
      isConnected := false;
      requestId := RequestIdBase;
    }

    /** Hands out the next request id and registers an empty entry for it.
        The request to the service itself is a foreign call, issued before
        the entry is registered; its bars come back through HistoricalData. */
    method RequestHistoricalData(contract: Contract, pairName: Option<string>) returns (reqId: int)
      requires Valid()
      modifies this
      ensures Valid()
      ensures reqId == old(requestId) + 1 && requestId == reqId
      ensures forall id :: id in old(data) ==> id < reqId
      ensures data == old(data)[reqId := Request(pairName, [])]
      ensures order == old(order) + [reqId]
      ensures isConnected == old(isConnected)
    {
      requestId := requestId + 1;
      reqId := requestId;
      data := data[reqId := Request(pairName, [])];
      order := order + [reqId];
    }

    /** Callback for one received bar. */
    method HistoricalData(reqId: int, bar: Bar)
      requires Valid()
      modifies this`data
      ensures Valid()
      ensures data == AppendBar(old(data), reqId, bar)
    {
      if reqId in data {
        data := data[reqId := Request(data[reqId].pair, data[reqId].bars + [bar])];
      }
    }

    /** Callback for the end of a request: reports the pair, the number of
        bars received and the period the service sent, for a registered id
        only. */
    method HistoricalDataEnd(reqId: int, start: string, end: string)
      returns (summary: Option<(Option<string>, nat, string, string)>)
      ensures summary.Some? <==> reqId in data
      ensures summary.Some? ==> summary.value == (data[reqId].pair, |data[reqId].bars|, start, end)
    {
      if reqId in data {
        summary := Some((data[reqId].pair, |data[reqId].bars|, start, end));
      } else {
        summary := None;
      }
    }

    /** Callback for a change of connection state. */
    method ConnectionStatus(connected: bool, msg: string)
      requires Valid()
      modifies this`isConnected
      ensures Valid()
      ensures isConnected == connected
    {
      isConnected := connected;
    }

    /** Callback for an error or informational message. The codes that only
        announce a working session mark the collector connected; every other
        code is reported and leaves the flag alone. */
    method Error(reqId: int, errorCode: int, errorString: string) returns (reported: bool)
      requires Valid()
      modifies this`isConnected
      ensures Valid()
      ensures reported <==> errorCode !in ConnectedInfoCodes
      ensures isConnected == (errorCode in ConnectedInfoCodes || old(isConnected))
    {
      reported := errorCode !in ConnectedInfoCodes;
      if errorCode in ConnectedInfoCodes {
        isConnected := true;
      }
    }

    /** Writes every bar of every request into the table with INSERT OR
        REPLACE, requests in insertion order and bars in arrival order,
        skipping statements that raise IntegrityError; returns total_rows. */
    method SaveToSqlite(db: OhlcvTable) returns (totalRows: nat)
      requires Valid()
      modifies db
      ensures db.rows == Saved(old(db.rows), InOrder(data, order))
      ensures totalRows == RowsWritten(InOrder(data, order))
    {
      totalRows := 0;
      var items := InOrder(data, order);
      var j := 0;
      while j < |items|
        invariant 0 <= j <= |items|
        invariant db.rows == ApplyWrites(old(db.rows), Writes(items[..j]))
        invariant totalRows == |Writes(items[..j])|
      {
        ghost var done := Writes(items[..j]);
        var entry := items[j];
        var i := 0;
        assert entry.bars[..0] == [] && done + [] == done;
        while i < |entry.bars|
          invariant 0 <= i <= |entry.bars|
          invariant db.rows == ApplyWrites(old(db.rows), done + BarWrites(entry.pair, entry.bars[..i]))
          invariant totalRows == |done + BarWrites(entry.pair, entry.bars[..i])|
        {
          ghost var before := done + BarWrites(entry.pair, entry.bars[..i]);
          ghost var rowsBefore := db.rows;
          BarWritesSnoc(entry.pair, entry.bars, i);
          var ok := db.InsertOrReplace(BarParams(entry.pair, entry.bars[i]));
          if ok {
            var w := StatementWrite(BarParams(entry.pair, entry.bars[i])).value;
            assert db.rows == rowsBefore[w.0 := w.1];
            assert done + BarWrites(entry.pair, entry.bars[..i + 1]) == before + [w];
            ApplyWritesSnoc(old(db.rows), before, w);
            totalRows := totalRows + 1;
          } else {
            assert BarWrites(entry.pair, entry.bars[..i + 1]) == BarWrites(entry.pair, entry.bars[..i]);
          }
          i := i + 1;
        }
        assert entry.bars[..i] == entry.bars;
        WritesSnoc(items, j);
        j := j + 1;
      }
      assert items[..j] == items;
    }
  }

  /** The request loop of the collector's main routine: one request per
      pair, named "BASE/QUOTE", with consecutive ids. */
  method RequestPairs(collector: ForexDataCollector, pairs: seq<(string, string)>) returns (reqIds: seq<int>)
    requires collector.Valid()
    modifies collector
    ensures collector.Valid()
    ensures |reqIds| == |pairs|
    ensures forall i :: 0 <= i < |pairs| ==>
      reqIds[i] == old(collector.requestId) + 1 + i
      && reqIds[i] in collector.data
      && collector.data[reqIds[i]] == Request(Some(PairName(pairs[i].0, pairs[i].1)), [])
    ensures forall id :: id in old(collector.data) ==> id in collector.data && collector.data[id] == old(collector.data)[id]
    ensures forall id :: id in collector.data ==> id in old(collector.data) || id in reqIds
    ensures collector.order == old(collector.order) + reqIds
    ensures collector.requestId == old(collector.requestId) + |pairs|
    ensures collector.isConnected == old(collector.isConnected)
  {
    reqIds := [];
    var k := 0;
    while k < |pairs|
      invariant 0 <= k <= |pairs|
      invariant collector.Valid()
      invariant |reqIds| == k
      invariant collector.requestId == old(collector.requestId) + k
      invariant forall i :: 0 <= i < k ==>
        reqIds[i] == old(collector.requestId) + 1 + i
        && reqIds[i] in collector.data
        && collector.data[reqIds[i]] == Request(Some(PairName(pairs[i].0, pairs[i].1)), [])
      invariant forall id :: id in old(collector.data) ==> id in collector.data && collector.data[id] == old(collector.data)[id]
      invariant forall id :: id in collector.data ==> id in old(collector.data) || id in reqIds
      invariant collector.order == old(collector.order) + reqIds
      invariant collector.isConnected == old(collector.isConnected)
    {
      var (pairFrom, pairTo) := pairs[k];
      var contract := CreateForexContract(pairFrom, pairTo);
      ghost var dataBefore := collector.data;
      var reqId := collector.RequestHistoricalData(contract, Some(PairName(pairFrom, pairTo)));
      forall i | 0 <= i < k
        ensures collector.data[reqIds[i]] == Request(Some(PairName(pairs[i].0, pairs[i].1)), [])
      {
        assert reqIds[i] in dataBefore && reqIds[i] != reqId;
      }
      reqIds := reqIds + [reqId];
      k := k + 1;
    }
  }

  /** The connection flag across one session: an informational code marks
      the collector connected, a real error leaves it as it is, and a
      connection-closed event clears it. */
  method ConnectionScenario()
  {
    var collector := new ForexDataCollector();
    var reported := collector.Error(-1, 2104, "Market data farm connection is OK");
    assert !reported && collector.isConnected;
    reported := collector.Error(10001, 162, "Historical Market Data Service error message");
    assert reported && collector.isConnected;
    collector.ConnectionStatus(false, "connection closed");
    assert !collector.isConnected;
  }

  /** One possible order of callbacks around two requests: a bar for an id
      not yet handed out is dropped, and the bars of the first request are
      kept in arrival order. */
  method RequestScenario()
  {
    var collector := new ForexDataCollector();
    var first := Bar(Some("20240102"), Some(1.0945), Some(1.0956), Some(1.0891), Some(1.0942), None);
    var second := Bar(Some("20240102"), Some(1.0945), Some(1.0960), Some(1.0891), Some(1.0950), Some(0));

    collector.HistoricalData(10001, first);
    assert collector.data == map[];
    var eurUsd := collector.RequestHistoricalData(CreateForexContract("EUR", "USD"), Some("EUR/USD"));
    var gbpUsd := collector.RequestHistoricalData(CreateForexContract("GBP", "USD"), Some("GBP/USD"));
    assert eurUsd == 10001 && gbpUsd == 10002;

    collector.HistoricalData(eurUsd, first);
    collector.HistoricalData(eurUsd, second);
    assert collector.data[eurUsd] == Request(Some("EUR/USD"), [first, second]);
    assert collector.data[gbpUsd] == Request(Some("GBP/USD"), []);

    var summary := collector.HistoricalDataEnd(eurUsd, "20230102", "20240102");
    assert summary == Some((Some("EUR/USD"), 2, "20230102", "20240102"));
  }
}
