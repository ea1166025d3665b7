/**
 * The records the reconciler works on (backend/app/models.py).
 *
 * Timestamps are whole seconds since an arbitrary epoch, prices and notionals
 * are mathematical reals (no IEEE rounding), strings are `seq<char>`.
 */
module Models {

  /** A trade or confirm side: exactly one of BUY or SELL. */
  datatype Side = Buy | Sell

  /** An executed trade, as decoded from a "trade" event. */
  datatype Trade = Trade(
    trade_id: string,
    symbol: string,
    side: Side,
    qty: int,
    price: real,
    notional: real,
    account: string,
    exec_time: int,
    settle_date: string,
    exec_broker: string,
    customer_type: string)

  /** A broker confirmation; keyed by the trade id it confirms, carries no customer type. */
  datatype Confirm = Confirm(
    trade_id: string,
    symbol: string,
    side: Side,
    qty: int,
    price: real,
    notional: real,
    account: string,
    confirm_time: int,
    settle_date: string,
    exec_broker: string)

  /** The six break categories, in the order the rule evaluator checks them. */
  datatype BreakType =
    | MissingConfirm
    | QuantityMismatch
    | PriceMismatch
    | SettleDateMismatch
    | AccountMismatch
    | LateConfirm

  datatype Severity = Low | Medium | High

  /** The default turnover-drag factor, in basis points, of a break that does not set one. */
  const DefaultTurnoverDragBp: real := 0.5

  /** A detected break. */
  datatype Break = Break(
    break_id: string,
    trade_id: string,
    break_type: BreakType,
    severity: Severity,
    detail: string,
    detected_ms: real,
    created_at: int,
    notional_usd: real,
    est_turnover_drag_bp: real := DefaultTurnoverDragBp)

  /** The text the source stores in `Break.break_type`. */
  function BreakTypeName(t: BreakType): (name: string)
    ensures |name| > 0
  {
    match t
    case MissingConfirm => "MissingConfirm"
    case QuantityMismatch => "QuantityMismatch"
    case PriceMismatch => "PriceMismatch"
    case SettleDateMismatch => "SettleDateMismatch"
    case AccountMismatch => "AccountMismatch"
    case LateConfirm => "LateConfirm"
  }

  /** The text the source stores in `Break.severity`. */
  function SeverityName(s: Severity): (name: string)
    ensures |name| > 0
  {
    match s
    case Low => "Low"
    case Medium => "Medium"
    case High => "High"
  }

  /** Distinct categories are stored under distinct names, so the text form loses nothing. */
  lemma BreakTypeNameInjective(a: BreakType, b: BreakType)
    requires BreakTypeName(a) == BreakTypeName(b)
    ensures a == b
  {
  }

  /** A break built without a turnover-drag argument carries the 0.5 bp default. */
  lemma BreakDefaultDrag(id: string, tid: string, t: BreakType, s: Severity, d: string, ms: real, at: int, n: real)
    ensures Break(id, tid, t, s, d, ms, at, n).est_turnover_drag_bp == 0.5
  {
  }
}
