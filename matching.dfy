/**
 * The tolerant confirmation match behind the missing-confirmation report:
 * an exact trade-id lookup first, then a composite match on account, symbol
 * and quantity within a relative tolerance. Query results are sequences of
 * rows with nullable columns, in the order the database returns them.
 */
module Matching {
  import opened Wrappers

  /** A row of the confirmations table, as far as the match reads it; every column is nullable. */
  datatype ConfirmRow = ConfirmRow(
    trade_id: Option<string>,
    account: Option<string>,
    symbol: Option<string>,
    qty: Option<real>,
    confirm_time: Option<string>)

  /** A row of the trades table, as far as the report reads it; every column is nullable. */
  datatype TradeRow = TradeRow(
    trade_id: Option<string>,
    account: Option<string>,
    symbol: Option<string>,
    qty: Option<real>,
    trade_time: Option<string>)

  /** One entry of the missing-confirmation report. */
  datatype Report = Report(
    trade_id: Option<string>,
    account: Option<string>,
    symbol: Option<string>,
    qty: Option<real>,
    detail: string,
    trade_time: Option<string>)

  /** The absolute quantity tolerance floor. */
  const QtyAbsTol: real := 0.000000001
  /** The relative quantity tolerance (one basis point). */
  const QtyRelTol: real := 0.0001

  function Abs(x: real): real { if x < 0.0 then -x else x }

  /** The quantity tolerance for a trade quantity `tq`: `max(1e-9, 0.0001 * |tq|)`. */
  function Tolerance(tq: real): (tol: real)
    ensures tol > 0.0 && tol >= QtyAbsTol && tol >= QtyRelTol * Abs(tq)
    ensures tol == QtyAbsTol || tol == QtyRelTol * Abs(tq)
  {
    if QtyAbsTol >= QtyRelTol * Abs(tq) then QtyAbsTol else QtyRelTol * Abs(tq)
  }

  /** The index of the first element satisfying `p`, if any. */
  function FirstIndex<T>(s: seq<T>, p: T -> bool): (r: Option<nat>)
    ensures r.Some? ==> r.value < |s| && p(s[r.value]) && forall k :: 0 <= k < r.value ==> !p(s[k])
    ensures r.None? ==> forall k :: 0 <= k < |s| ==> !p(s[k])
  {
    if s == [] then None
    else if p(s[0]) then Some(0)
    else match FirstIndex(s[1..], p)
      case None => None
      case Some(i) => Some(i + 1)
  }

  /** SQL `trade_id = ?`: never true when either side is NULL. */
  predicate SameTradeId(row: ConfirmRow, tid: Option<string>)
  {
    tid.Some? && row.trade_id == tid
  }

  /** SQL `(col IS NULL OR col = ?)`: a NULL column passes; otherwise it must equal a non-NULL parameter. */
  predicate NullOrEqual(col: Option<string>, param: Option<string>)
  {
    col.None? || (param.Some? && col == param)
  }

  /** The composite query's WHERE clause on account and symbol. */
  predicate Eligible(row: ConfirmRow, trade: TradeRow)
  {
    NullOrEqual(row.account, trade.account) && NullOrEqual(row.symbol, trade.symbol)
  }

  /** The scan's test on one candidate: a non-NULL quantity within tolerance of `tq`. */
  predicate Within(row: ConfirmRow, tq: real)
  {
    row.qty.Some? && Abs(row.qty.value - tq) <= Tolerance(tq)
  }

  /** The exact query (`LIMIT 1`): the first row carrying the trade's id. */
  function ExactRow(rows: seq<ConfirmRow>, tid: Option<string>): Option<ConfirmRow>
  {
    match FirstIndex(rows, r => SameTradeId(r, tid))
    case Some(i) => Some(rows[i])
    case None => None
  }

  /** The composite query: the rows passing the account and symbol checks, in row order. */
  function Candidates(rows: seq<ConfirmRow>, trade: TradeRow): (c: seq<ConfirmRow>)
    ensures |c| <= |rows|
    ensures forall r :: r in c ==> r in rows && Eligible(r, trade)
    ensures forall r :: r in rows && Eligible(r, trade) ==> r in c
  {
    if rows == [] then []
    else (if Eligible(rows[0], trade) then [rows[0]] else []) + Candidates(rows[1..], trade)
  }

  /**
   * The value `_find_match` returns: the exact row's `confirm_time` when a
   * row carries the trade's id; otherwise, when there are candidates and the
   * trade has a quantity, the `confirm_time` of the first candidate within
   * tolerance; otherwise nothing. A NULL `confirm_time` reads as no match.
   */
  function Match(rows: seq<ConfirmRow>, trade: TradeRow): Option<string>
  {
    match ExactRow(rows, trade.trade_id)
    case Some(row) => row.confirm_time
    case None =>
      var cands := Candidates(rows, trade);
      if |cands| > 0 && trade.qty.Some? then
        match FirstIndex(cands, r => Within(r, trade.qty.value))
        case Some(i) => cands[i].confirm_time
        case None => None
      else None
  }

  /** `_find_match`: the exact lookup, then the scan over the candidates with early return. */
  method FindMatch(rows: seq<ConfirmRow>, trade: TradeRow) returns (cts: Option<string>)
    ensures cts == Match(rows, trade)
  {
    var exact := ExactRow(rows, trade.trade_id);
    if exact.Some? {
      return exact.value.confirm_time;
    }
    var cands := Candidates(rows, trade);
    if |cands| > 0 && trade.qty.Some? {
      var tq := trade.qty.value;
      var i := 0;
      while i < |cands|
        invariant 0 <= i <= |cands|
        invariant forall k :: 0 <= k < i ==> !Within(cands[k], tq)
      {
        var q := cands[i].qty;
        if q.Some? && Abs(q.value - tq) <= Tolerance(tq) {
          assert Within(cands[i], tq);
          ghost var first := FirstIndex(cands, r => Within(r, tq));
          assert first == Some(i) by {
            assert forall k :: 0 <= k < i ==> !(r => Within(r, tq))(cands[k]);
          }
          return cands[i].confirm_time;
        }
        i := i + 1;
      }
    }
    return None;
  }

  // ---------------------------------------------------------------------------
  // Properties of the match

  /** The whole test the composite path applies to one row. */
  predicate Accepts(row: ConfirmRow, trade: TradeRow, tq: real)
  {
    Eligible(row, trade) && Within(row, tq)
  }

  /** Scanning the filtered rows finds the same row as one pass over all rows with both tests. */
  lemma {:induction false} FirstOfCandidates(rows: seq<ConfirmRow>, trade: TradeRow, tq: real)
    ensures match FirstIndex(Candidates(rows, trade), r => Within(r, tq))
      case Some(i) => FirstIndex(rows, r => Accepts(r, trade, tq)).Some? &&
                      Candidates(rows, trade)[i] == rows[FirstIndex(rows, r => Accepts(r, trade, tq)).value]
      case None => FirstIndex(rows, r => Accepts(r, trade, tq)).None?
  {
    if rows != [] {
      FirstOfCandidates(rows[1..], trade, tq);
      var head := if Eligible(rows[0], trade) then [rows[0]] else [];
      var rest := Candidates(rows[1..], trade);
      assert Candidates(rows, trade) == head + rest;
      if head != [] {
        assert (head + rest)[1..] == rest;
      } else {
        assert head + rest == rest;
      }
    }
  }

  /** When a row carries the trade's id, the first such row's `confirm_time` is the answer; the tolerant path is not consulted. */
  lemma ExactMatchWins(rows: seq<ConfirmRow>, trade: TradeRow, i: nat)
    requires i < |rows| && SameTradeId(rows[i], trade.trade_id)
    requires forall k :: 0 <= k < i ==> !SameTradeId(rows[k], trade.trade_id)
    ensures Match(rows, trade) == rows[i].confirm_time
  {
    var f := FirstIndex(rows, r => SameTradeId(r, trade.trade_id));
    assert (r => SameTradeId(r, trade.trade_id))(rows[i]);
    assert f.Some? && f.value == i;
  }

  /** With no row carrying the trade's id and no trade quantity, there is no match. */
  lemma NoQtyNoMatch(rows: seq<ConfirmRow>, trade: TradeRow)
    requires forall k :: 0 <= k < |rows| ==> !SameTradeId(rows[k], trade.trade_id)
    requires trade.qty.None?
    ensures Match(rows, trade) == None
  {
    assert FirstIndex(rows, r => SameTradeId(r, trade.trade_id)).None?;
  }

  /**
   * The tolerant path as one pass: with no row carrying the trade's id and a
   * trade quantity `tq`, the answer is the `confirm_time` of the first row that
   * passes the account and symbol checks and has a non-NULL quantity within
   * `max(1e-9, 0.0001 * |tq|)` of `tq`, and nothing when no row does.
   */
  lemma TolerantMatch(rows: seq<ConfirmRow>, trade: TradeRow)
    requires forall k :: 0 <= k < |rows| ==> !SameTradeId(rows[k], trade.trade_id)
    requires trade.qty.Some?
    ensures (forall k :: 0 <= k < |rows| ==> !Accepts(rows[k], trade, trade.qty.value)) ==> Match(rows, trade) == None
    ensures forall j ::
      (0 <= j < |rows| && Accepts(rows[j], trade, trade.qty.value) &&
       (forall k :: 0 <= k < j ==> !Accepts(rows[k], trade, trade.qty.value)))
      ==> Match(rows, trade) == rows[j].confirm_time
  {
    var tq := trade.qty.value;
    assert FirstIndex(rows, r => SameTradeId(r, trade.trade_id)).None?;
    FirstOfCandidates(rows, trade, tq);
    var all := FirstIndex(rows, r => Accepts(r, trade, tq));
    forall j | 0 <= j < |rows| && Accepts(rows[j], trade, tq) && (forall k :: 0 <= k < j ==> !Accepts(rows[k], trade, tq))
      ensures Match(rows, trade) == rows[j].confirm_time
    {
      assert (r => Accepts(r, trade, tq))(rows[j]);
      assert all == Some(j);
      assert rows[j] in Candidates(rows, trade);
    }
  }

  /** Under SQL NULL semantics a trade with a NULL account or symbol only matches rows where that column is NULL. */
  lemma NullParameterMatchesOnlyNull(row: ConfirmRow, trade: TradeRow)
    ensures trade.account.None? ==> (NullOrEqual(row.account, trade.account) <==> row.account.None?)
    ensures trade.symbol.None? ==> (NullOrEqual(row.symbol, trade.symbol) <==> row.symbol.None?)
    ensures trade.account.Some? ==>
      (NullOrEqual(row.account, trade.account) <==> row.account.None? || row.account.value == trade.account.value)
  {
  }

  // ---------------------------------------------------------------------------
  // The missing-confirmation report

  /** SQLite `LIMIT n`: a negative limit means no limit. */
  function SqlLimit<T>(rows: seq<T>, limit: int): (r: seq<T>)
    ensures limit < 0 ==> r == rows
    ensures limit >= 0 ==> |r| == (if limit < |rows| then limit else |rows|)
    ensures r == rows[..|r|]
  {
    if limit < 0 || limit >= |rows| then rows else rows[..limit]
  }

  /** The report entry for a trade row. */
  function ReportOf(t: TradeRow, detail: string): Report
  {
    Report(t.trade_id, t.account, t.symbol, t.qty, detail, t.trade_time)
  }

  /** The report over fetched rows: an entry for each row that finds no match, in row order. */
  function Unmatched(fetched: seq<TradeRow>, confirms: seq<ConfirmRow>, detail: string): seq<Report>
  {
    if fetched == [] then []
    else
      var init, last := fetched[..|fetched| - 1], fetched[|fetched| - 1];
      Unmatched(init, confirms, detail) + (if Match(confirms, last).None? then [ReportOf(last, detail)] else [])
  }

  /**
   * `missing`: the trades at least the SLA old, newest first (`eligible`, the
   * query before its LIMIT), cut to `limit`, each reported when it finds no
   * confirmation match.
   */
  method Missing(eligible: seq<TradeRow>, confirms: seq<ConfirmRow>, limit: int, detail: string) returns (out: seq<Report>)
    ensures out == Unmatched(SqlLimit(eligible, limit), confirms, detail)
  {
    var fetched := SqlLimit(eligible, limit);
    out := [];
    var i := 0;
    while i < |fetched|
      invariant 0 <= i <= |fetched|
      invariant out == Unmatched(fetched[..i], confirms, detail)
    {
      var t := fetched[i];
      assert fetched[..i + 1][..i] == fetched[..i];
      var m := FindMatch(confirms, t);
      if m.None? {
        out := out + [ReportOf(t, detail)];
      }
      i := i + 1;
    }
    assert fetched[..|fetched|] == fetched;
  }

  /** The report has an entry for a fetched row exactly when that row finds no match, and holds nothing else. */
  lemma {:induction false} UnmatchedMembers(fetched: seq<TradeRow>, confirms: seq<ConfirmRow>, detail: string)
    ensures |Unmatched(fetched, confirms, detail)| <= |fetched|
    ensures forall t :: t in fetched && Match(confirms, t).None? ==> ReportOf(t, detail) in Unmatched(fetched, confirms, detail)
    ensures forall r :: r in Unmatched(fetched, confirms, detail) ==>
      exists t :: t in fetched && Match(confirms, t).None? && r == ReportOf(t, detail)
  {
    if fetched != [] {
      var init, last := fetched[..|fetched| - 1], fetched[|fetched| - 1];
      UnmatchedMembers(init, confirms, detail);
      assert fetched == init + [last];
      forall t | t in fetched && Match(confirms, t).None?
        ensures ReportOf(t, detail) in Unmatched(fetched, confirms, detail)
      {
        if t != last {
          assert t in init;
        }
      }
      forall r | r in Unmatched(fetched, confirms, detail)
        ensures exists t :: t in fetched && Match(confirms, t).None? && r == ReportOf(t, detail)
      {
        if r in Unmatched(init, confirms, detail) {
          var t :| t in init && Match(confirms, t).None? && r == ReportOf(t, detail);
          assert t in fetched;
        } else {
          assert last in fetched;
        }
      }
    }
  }

  /** A report with a non-negative limit never has more than `limit` entries. */
  lemma MissingBounded(eligible: seq<TradeRow>, confirms: seq<ConfirmRow>, limit: int, detail: string)
    requires limit >= 0
    ensures |Unmatched(SqlLimit(eligible, limit), confirms, detail)| <= limit
  {
    UnmatchedMembers(SqlLimit(eligible, limit), confirms, detail);
  }
}
