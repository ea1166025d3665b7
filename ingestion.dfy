/**
 * The CSV replay loader: it converts dictionary-reader rows to typed
 * payloads, indexes the confirms by trade id, and builds and enqueues the
 * event list. The text parsers (`int`, `float`, `isoparse(...).isoformat()`)
 * are parameters. File reading, the queue's asynchrony and the throttling
 * sleep are left out.
 */
module Ingestion {
  import opened Wrappers

  /** A row as the CSV dictionary reader yields it: column name to text. */
  type Row = map<string, string>

  /** A payload value after conversion. */
  datatype Cell = Text(text: string) | Integer(n: int) | Number(x: real) | Timestamp(iso: string)

  /** A converted row. */
  type Dict = map<string, Cell>

  /** How a column is converted. */
  datatype Kind = IntegerKind | NumberKind | TimestampKind

  /** The three text parsers; `None` where the parser raises. */
  datatype Parsers = Parsers(integer: string -> Option<int>, number: string -> Option<real>, timestamp: string -> Option<string>)

  /** Parses `s` as a `kind` column. */
  function Parse(p: Parsers, kind: Kind, s: string): (c: Option<Cell>)
    ensures c.Some? ==> !c.value.Text?
    ensures c.Some? <==> match kind
      case IntegerKind => p.integer(s).Some?
      case NumberKind => p.number(s).Some?
      case TimestampKind => p.timestamp(s).Some?
  {
    match kind
    case IntegerKind => if p.integer(s).Some? then Some(Integer(p.integer(s).value)) else None
    case NumberKind => if p.number(s).Some? then Some(Number(p.number(s).value)) else None
    case TimestampKind => if p.timestamp(s).Some? then Some(Timestamp(p.timestamp(s).value)) else None
  }

  /** A column to convert and how. */
  type Column = (string, Kind)

  /** The columns `to_trade_dict` rewrites, in order. */
  const TradeColumns: seq<Column> := [("qty", IntegerKind), ("price", NumberKind), ("notional", NumberKind), ("exec_time", TimestampKind)]

  /** The columns `to_confirm_dict` rewrites, in order. */
  const ConfirmColumns: seq<Column> := [("qty", IntegerKind), ("price", NumberKind), ("notional", NumberKind), ("confirm_time", TimestampKind)]

  /** The unconverted copy of a row. */
  function Copy(row: Row): (d: Dict)
    ensures d.Keys == row.Keys && forall k :: k in row ==> d[k] == Text(row[k])
  {
    map k | k in row :: Text(row[k])
  }

  /**
   * A copy of `row` whose `cols` columns are rewritten one after the
   * other; `None` once a column is missing or its parser raises.
   */
  function Convert(row: Row, cols: seq<Column>, p: Parsers): Option<Dict>
    decreases |cols|
  {
    if cols == [] then Some(Copy(row))
    else Rewrite(Convert(row, cols[..|cols| - 1], p), row, cols[|cols| - 1], p)
  }

  /** One `row[c] = parse(row[c])` step on a copy still being converted. */
  function Rewrite(d: Option<Dict>, row: Row, col: Column, p: Parsers): Option<Dict>
  {
    match d
    case None => None
    case Some(m) =>
      if col.0 in row && Parse(p, col.1, row[col.0]).Some? then Some(m[col.0 := Parse(p, col.1, row[col.0]).value]) else None
  }

  /** Converting four columns is four rewrites of the copy, in column order. */
  lemma ConvertFour(row: Row, a: Column, b: Column, c: Column, e: Column, p: Parsers)
    ensures Convert(row, [a, b, c, e], p)
         == Rewrite(Rewrite(Rewrite(Rewrite(Some(Copy(row)), row, a, p), row, b, p), row, c, p), row, e, p)
  {
    assert [a][..0] == [];
    assert Convert(row, [a], p) == Rewrite(Some(Copy(row)), row, a, p);
    assert [a, b][..1] == [a];
    assert Convert(row, [a, b], p) == Rewrite(Convert(row, [a], p), row, b, p);
    assert [a, b, c][..2] == [a, b];
    assert Convert(row, [a, b, c], p) == Rewrite(Convert(row, [a, b], p), row, c, p);
    assert [a, b, c, e][..3] == [a, b, c];
  }

  /** Some column of `cols` is named `name`. */
  predicate Names(cols: seq<Column>, name: string)
  {
    exists i :: 0 <= i < |cols| && cols[i].0 == name
  }

  /** A conversion succeeds exactly when every listed column is present and parses. */
  lemma {:induction false} ConvertSucceeds(row: Row, cols: seq<Column>, p: Parsers)
    ensures Convert(row, cols, p).Some? <==>
      forall i :: 0 <= i < |cols| ==> cols[i].0 in row && Parse(p, cols[i].1, row[cols[i].0]).Some?
  {
    if cols != [] {
      var init := cols[..|cols| - 1];
      ConvertSucceeds(row, init, p);
      assert forall i :: 0 <= i < |init| ==> init[i] == cols[i];
    }
  }

  /**
   * A successful conversion keeps every column, rewrites each listed column
   * with its parser and leaves every other column's text as it was.
   */
  lemma {:induction false} ConvertKeeps(row: Row, cols: seq<Column>, p: Parsers)
    requires forall i, j :: 0 <= i < j < |cols| ==> cols[i].0 != cols[j].0
    requires Convert(row, cols, p).Some?
    ensures var d := Convert(row, cols, p).value;
      && d.Keys == row.Keys
      && (forall k :: k in row && !Names(cols, k) ==> d[k] == Text(row[k]))
      && (forall i :: 0 <= i < |cols| ==> cols[i].0 in row && Some(d[cols[i].0]) == Parse(p, cols[i].1, row[cols[i].0]))
  {
    if cols != [] {
      var init := cols[..|cols| - 1];
      ConvertKeeps(row, init, p);
      var d0 := Convert(row, init, p).value;
      var (c, k) := cols[|cols| - 1];
      var d := d0[c := Parse(p, k, row[c]).value];
      assert Convert(row, cols, p) == Some(d);
      assert Names(cols, c);
      forall x | x in row && !Names(cols, x)
        ensures d[x] == Text(row[x])
      {
        assert forall i :: 0 <= i < |init| ==> init[i].0 == cols[i].0;
      }
      forall i | 0 <= i < |cols|
        ensures cols[i].0 in row && Some(d[cols[i].0]) == Parse(p, cols[i].1, row[cols[i].0])
      {
        if i < |init| {
          assert init[i] == cols[i];
        }
      }
    }
  }

  /**
   * The shape both converters share: copy the row, then rewrite columns
   * `c1` to `c4` in turn; a missing column or a parser that raises ends
   * the conversion.
   */
  method CopyAndConvert(row: Row, p: Parsers, c1: string, k1: Kind, c2: string, k2: Kind, c3: string, k3: Kind, c4: string, k4: Kind)
    returns (r: Option<Dict>)
    ensures r == Convert(row, [(c1, k1), (c2, k2), (c3, k3), (c4, k4)], p)
  {
    ConvertFour(row, (c1, k1), (c2, k2), (c3, k3), (c4, k4), p);
    var d := Copy(row);
    if c1 !in d || Parse(p, k1, row[c1]).None? {
      return None;
    }
    d := d[c1 := Parse(p, k1, row[c1]).value];
    if c2 !in d || Parse(p, k2, row[c2]).None? {
      return None;
    }
    d := d[c2 := Parse(p, k2, row[c2]).value];
    if c3 !in d || Parse(p, k3, row[c3]).None? {
      return None;
    }
    d := d[c3 := Parse(p, k3, row[c3]).value];
    if c4 !in d || Parse(p, k4, row[c4]).None? {
      return None;
    }
    d := d[c4 := Parse(p, k4, row[c4]).value];
    r := Some(d);
  }

  /** `to_trade_dict`. */
  method ToTradeDict(row: Row, p: Parsers) returns (r: Option<Dict>)
    ensures r == Convert(row, TradeColumns, p)
  {
    r := CopyAndConvert(row, p, "qty", IntegerKind, "price", NumberKind, "notional", NumberKind, "exec_time", TimestampKind);
  }

  /** `to_confirm_dict`. */
  method ToConfirmDict(row: Row, p: Parsers) returns (r: Option<Dict>)
    ensures r == Convert(row, ConfirmColumns, p)
  {
    r := CopyAndConvert(row, p, "qty", IntegerKind, "price", NumberKind, "notional", NumberKind, "confirm_time", TimestampKind);
  }

  /** The column every row is keyed by. */
  const TradeId := "trade_id"

  /** `{c["trade_id"]: c for c in confirms}`: the last row per trade id; `None` when a row has no trade id. */
  function ConfirmById(confirms: seq<Row>): (r: Option<map<string, Row>>)
    ensures r.Some? ==> forall id :: id in r.value ==> TradeId in r.value[id] && r.value[id][TradeId] == id
    decreases |confirms|
  {
    if confirms == [] then Some(map[])
    else
      var last := confirms[|confirms| - 1];
      match ConfirmById(confirms[..|confirms| - 1])
      case None => None
      case Some(m) => if TradeId in last then Some(m[last[TradeId] := last]) else None
  }

  /** The index is built exactly when every row has a trade id. */
  lemma {:induction false} ConfirmByIdDefined(confirms: seq<Row>)
    ensures ConfirmById(confirms).Some? <==> forall j :: 0 <= j < |confirms| ==> TradeId in confirms[j]
  {
    if confirms != [] {
      var init := confirms[..|confirms| - 1];
      ConfirmByIdDefined(init);
      assert forall j :: 0 <= j < |init| ==> init[j] == confirms[j];
    }
  }

  /** Every row's trade id is a key, and each entry is keyed by its own trade id. */
  lemma {:induction false} ConfirmByIdKeys(confirms: seq<Row>)
    requires ConfirmById(confirms).Some?
    ensures var m := ConfirmById(confirms).value;
      && (forall id :: id in m ==> TradeId in m[id] && m[id][TradeId] == id)
      && (forall j :: 0 <= j < |confirms| ==> TradeId in confirms[j] && confirms[j][TradeId] in m)
  {
    if confirms != [] {
      var init := confirms[..|confirms| - 1];
      ConfirmByIdKeys(init);
      assert forall j :: 0 <= j < |init| ==> init[j] == confirms[j];
    }
  }

  /** Row `j` carries trade id `id` and no later row does. */
  predicate LastWith(confirms: seq<Row>, j: int, id: string)
  {
    && 0 <= j < |confirms|
    && TradeId in confirms[j] && confirms[j][TradeId] == id
    && forall j' :: j < j' < |confirms| ==> TradeId in confirms[j'] && confirms[j'][TradeId] != id
  }

  /** Each entry is the last row carrying its trade id. */
  lemma {:induction false} ConfirmByIdLastWins(confirms: seq<Row>)
    requires ConfirmById(confirms).Some?
    ensures var m := ConfirmById(confirms).value;
      forall id :: id in m ==> exists j :: LastWith(confirms, j, id) && confirms[j] == m[id]
  {
    if confirms != [] {
      var init := confirms[..|confirms| - 1];
      var last := confirms[|confirms| - 1];
      ConfirmByIdLastWins(init);
      var m0 := ConfirmById(init).value;
      var m := ConfirmById(confirms).value;
      assert m == m0[last[TradeId] := last];
      forall id | id in m
        ensures exists j :: LastWith(confirms, j, id) && confirms[j] == m[id]
      {
        if id == last[TradeId] {
          assert LastWith(confirms, |confirms| - 1, id);
        } else {
          var j :| LastWith(init, j, id) && init[j] == m0[id];
          assert forall j' :: j <= j' < |init| ==> confirms[j'] == init[j'];
          assert LastWith(confirms, j, id);
        }
      }
    }
  }

  /** Which queue a message goes to. */
  datatype Topic = TradeTopic | ConfirmTopic

  /** One `(topic, payload)` event. */
  datatype Message = Message(topic: Topic, payload: Dict)

  /** `trades[:1000]` reads at most this many trades. */
  const MaxTrades := 1000

  /** `trades[:1000]`. */
  function Head(trades: seq<Row>): (h: seq<Row>)
    ensures |h| == if |trades| < MaxTrades then |trades| else MaxTrades
    ensures h <= trades
  {
    trades[..if |trades| < MaxTrades then |trades| else MaxTrades]
  }

  /** `confirm_by_id.get(id)` is a row that `if c` accepts: present and non-empty. */
  predicate HasPartner(byId: map<string, Row>, id: string)
  {
    id in byId && byId[id] != map[]
  }

  /** The events one trade row contributes: the trade, then its confirm if it has one. */
  function Block(t: Row, byId: map<string, Row>, p: Parsers): Option<seq<Message>>
  {
    match Convert(t, TradeColumns, p)
    case None => None
    case Some(td) =>
      if TradeId !in t then None
      else if !HasPartner(byId, t[TradeId]) then Some([Message(TradeTopic, td)])
      else
        match Convert(byId[t[TradeId]], ConfirmColumns, p)
        case None => None
        case Some(cd) => Some([Message(TradeTopic, td), Message(ConfirmTopic, cd)])
  }

  /** The event list for trades `ts`, built trade by trade; `None` once a conversion raises. */
  function Events(ts: seq<Row>, byId: map<string, Row>, p: Parsers): Option<seq<Message>>
    decreases |ts|
  {
    if ts == [] then Some([])
    else
      match Events(ts[..|ts| - 1], byId, p)
      case None => None
      case Some(es) =>
        match Block(ts[|ts| - 1], byId, p)
        case None => None
        case Some(b) => Some(es + b)
  }

  /** The event list `load_csvs` builds; `None` when it raises before enqueuing anything. */
  function Loaded(trades: seq<Row>, confirms: seq<Row>, p: Parsers): Option<seq<Message>>
  {
    match ConfirmById(confirms)
    case None => None
    case Some(byId) => Events(Head(trades), byId, p)
  }

  /** The trade id a message's payload carries as text, if any. */
  function IdOf(m: Message): Option<string>
  {
    if TradeId in m.payload && m.payload[TradeId].Text? then Some(m.payload[TradeId].text) else None
  }

  /** Converting a trade row keeps its trade id as text. */
  lemma TradeIdKept(t: Row, p: Parsers)
    requires Convert(t, TradeColumns, p).Some? && TradeId in t
    ensures TradeId in Convert(t, TradeColumns, p).value && Convert(t, TradeColumns, p).value[TradeId] == Text(t[TradeId])
  {
    ConvertKeeps(t, TradeColumns, p);
    assert !Names(TradeColumns, TradeId) by {
      assert forall i :: 0 <= i < |TradeColumns| ==> TradeColumns[i].0 != TradeId;
    }
  }

  /**
   * A trade's events: its own event first, carrying its trade id, then
   * exactly when it has a partner confirm, that confirm's converted row.
   */
  lemma BlockShape(t: Row, byId: map<string, Row>, p: Parsers)
    requires Block(t, byId, p).Some?
    ensures var b := Block(t, byId, p).value;
      && TradeId in t && Convert(t, TradeColumns, p).Some?
      && 1 <= |b| <= 2
      && b[0] == Message(TradeTopic, Convert(t, TradeColumns, p).value)
      && IdOf(b[0]) == Some(t[TradeId])
      && (|b| == 2 <==> HasPartner(byId, t[TradeId]))
      && (|b| == 2 ==> b[1].topic == ConfirmTopic && Some(b[1].payload) == Convert(byId[t[TradeId]], ConfirmColumns, p))
  {
    TradeIdKept(t, p);
  }

  /** A trade's events start with the trade's own converted row, and any second event is a confirm. */
  lemma BlockHead(t: Row, byId: map<string, Row>, p: Parsers)
    requires Block(t, byId, p).Some?
    ensures var b := Block(t, byId, p).value;
      && 1 <= |b| <= 2 && b[0].topic == TradeTopic && (|b| == 2 ==> b[1].topic == ConfirmTopic)
      && Some(b[0].payload) == Convert(t, TradeColumns, p)
  {
  }

  /** How many of the trades `ts` have a partner confirm. */
  function Matched(ts: seq<Row>, byId: map<string, Row>): nat
    decreases |ts|
  {
    if ts == [] then 0
    else
      var t := ts[|ts| - 1];
      Matched(ts[..|ts| - 1], byId) + if TradeId in t && HasPartner(byId, t[TradeId]) then 1 else 0
  }

  /** There is one event per trade plus one per trade with a partner confirm. */
  lemma {:induction false} EventsCount(ts: seq<Row>, byId: map<string, Row>, p: Parsers)
    requires Events(ts, byId, p).Some?
    ensures |Events(ts, byId, p).value| == |ts| + Matched(ts, byId)
  {
    if ts != [] {
      EventsCount(ts[..|ts| - 1], byId, p);
      BlockShape(ts[|ts| - 1], byId, p);
    }
  }

  /** The payloads of the `topic` messages, in order. */
  function Payloads(es: seq<Message>, topic: Topic): seq<Dict>
    decreases |es|
  {
    if es == [] then []
    else Payloads(es[..|es| - 1], topic) + if es[|es| - 1].topic == topic then [es[|es| - 1].payload] else []
  }

  /** Filtering a concatenation filters each part. */
  lemma {:induction false} PayloadsAppend(a: seq<Message>, b: seq<Message>, topic: Topic)
    ensures Payloads(a + b, topic) == Payloads(a, topic) + Payloads(b, topic)
    decreases |b|
  {
    if b != [] {
      assert (a + b)[..|a + b| - 1] == a + b[..|b| - 1];
      PayloadsAppend(a, b[..|b| - 1], topic);
    } else {
      assert a + b == a;
    }
  }

  /** Appending one trade's events adds its converted row to the trade payloads. */
  lemma TradePayloadsStep(es0: seq<Message>, b: seq<Message>)
    requires 1 <= |b| <= 2 && b[0].topic == TradeTopic && (|b| == 2 ==> b[1].topic == ConfirmTopic)
    ensures Payloads(es0 + b, TradeTopic) == Payloads(es0, TradeTopic) + [b[0].payload]
  {
    PayloadsAppend(es0, b, TradeTopic);
    assert b[..1][..0] == [] && Payloads(b[..1], TradeTopic) == [b[0].payload];
    if |b| == 2 {
      assert b[..|b| - 1] == b[..1];
    } else {
      assert b == b[..1];
    }
  }

  /** A successful event list is the list for all but the last trade, then the last trade's events. */
  lemma EventsSnoc(ts: seq<Row>, byId: map<string, Row>, p: Parsers)
    requires ts != [] && Events(ts, byId, p).Some?
    ensures Events(ts[..|ts| - 1], byId, p).Some? && Block(ts[|ts| - 1], byId, p).Some?
    ensures Events(ts, byId, p).value == Events(ts[..|ts| - 1], byId, p).value + Block(ts[|ts| - 1], byId, p).value
  {
  }

  /** Appending a trade's events appends its payload to a list of converted trades. */
  lemma TradeListStep(tp0: seq<Dict>, d: Dict, init: seq<Row>, t: Row, p: Parsers)
    requires |tp0| == |init| && forall n :: 0 <= n < |init| ==> Some(tp0[n]) == Convert(init[n], TradeColumns, p)
    requires Some(d) == Convert(t, TradeColumns, p)
    ensures var tp := tp0 + [d]; var ts := init + [t];
      |tp| == |ts| && forall n :: 0 <= n < |ts| ==> Some(tp[n]) == Convert(ts[n], TradeColumns, p)
  {
  }

  /** The trade events are the converted trades, one each, in file order. */
  lemma {:induction false} TradeEventsInOrder(ts: seq<Row>, byId: map<string, Row>, p: Parsers)
    requires Events(ts, byId, p).Some?
    ensures var tp := Payloads(Events(ts, byId, p).value, TradeTopic);
      |tp| == |ts| && forall n :: 0 <= n < |ts| ==> Some(tp[n]) == Convert(ts[n], TradeColumns, p)
  {
    if ts != [] {
      var init := ts[..|ts| - 1];
      var t := ts[|ts| - 1];
      EventsSnoc(ts, byId, p);
      TradeEventsInOrder(init, byId, p);
      BlockHead(t, byId, p);
      var b := Block(t, byId, p).value;
      TradePayloadsStep(Events(init, byId, p).value, b);
      TradeListStep(Payloads(Events(init, byId, p).value, TradeTopic), b[0].payload, init, t, p);
      assert init + [t] == ts;
    }
  }

  /** The event after position `i` is a confirm event. */
  predicate ConfirmNext(es: seq<Message>, i: int)
  {
    0 <= i && i + 1 < |es| && es[i + 1].topic == ConfirmTopic
  }

  /** Each trade event is followed by a confirm event exactly when its trade has a partner confirm. */
  predicate Adjacent(es: seq<Message>, byId: map<string, Row>)
  {
    forall i :: 0 <= i < |es| && es[i].topic == TradeTopic ==>
      IdOf(es[i]).Some? && (ConfirmNext(es, i) <==> HasPartner(byId, IdOf(es[i]).value))
  }

  /** Each confirm event directly follows the event of its trade and carries that trade's partner confirm. */
  predicate ConfirmsFollow(es: seq<Message>, byId: map<string, Row>, p: Parsers)
  {
    forall i :: 0 <= i < |es| && es[i].topic == ConfirmTopic ==>
      && 0 < i && es[i - 1].topic == TradeTopic && IdOf(es[i - 1]).Some?
      && HasPartner(byId, IdOf(es[i - 1]).value)
      && Some(es[i].payload) == Convert(byId[IdOf(es[i - 1]).value], ConfirmColumns, p)
  }

  /** The facts `BlockShape` gives about one trade's events, on the events alone. */
  predicate BlockLike(b: seq<Message>, byId: map<string, Row>, p: Parsers)
  {
    && 1 <= |b| <= 2 && b[0].topic == TradeTopic && IdOf(b[0]).Some?
    && (|b| == 2 <==> HasPartner(byId, IdOf(b[0]).value))
    && (|b| == 2 ==> b[1].topic == ConfirmTopic && Some(b[1].payload) == Convert(byId[IdOf(b[0]).value], ConfirmColumns, p))
  }

  /** Appending one trade's events keeps every trade event paired with its confirm. */
  lemma AdjacentStep(es0: seq<Message>, b: seq<Message>, byId: map<string, Row>, p: Parsers)
    requires Adjacent(es0, byId) && BlockLike(b, byId, p)
    ensures Adjacent(es0 + b, byId)
  {
    var es := es0 + b;
    forall i | 0 <= i < |es| && es[i].topic == TradeTopic
      ensures IdOf(es[i]).Some? && (ConfirmNext(es, i) <==> HasPartner(byId, IdOf(es[i]).value))
    {
      if i < |es0| {
        assert es[i] == es0[i] && es0[i].topic == TradeTopic;
        if i + 1 < |es0| {
          assert es[i + 1] == es0[i + 1];
        } else {
          assert !ConfirmNext(es0, i);
          assert es[i + 1] == b[0];
        }
      } else {
        assert es[i] == b[i - |es0|];
        assert i == |es0|;
        if |b| == 2 {
          assert es[i + 1] == b[1];
        } else {
          assert i + 1 == |es|;
        }
      }
    }
  }

  /** Appending one trade's events puts every confirm event right after its trade's event. */
  lemma ConfirmsFollowStep(es0: seq<Message>, b: seq<Message>, byId: map<string, Row>, p: Parsers)
    requires ConfirmsFollow(es0, byId, p) && BlockLike(b, byId, p)
    ensures ConfirmsFollow(es0 + b, byId, p)
  {
    var es := es0 + b;
    forall i | 0 <= i < |es| && es[i].topic == ConfirmTopic
      ensures && 0 < i && es[i - 1].topic == TradeTopic && IdOf(es[i - 1]).Some?
              && HasPartner(byId, IdOf(es[i - 1]).value)
              && Some(es[i].payload) == Convert(byId[IdOf(es[i - 1]).value], ConfirmColumns, p)
    {
      if i < |es0| {
        assert es[i] == es0[i] && es[i - 1] == es0[i - 1];
      } else {
        assert es[i] == b[i - |es0|];
        assert i == |es0| + 1 && es[i - 1] == b[0];
      }
    }
  }

  /** The event list pairs every trade with its confirm and emits no other confirm. */
  lemma {:induction false} EventsPairing(ts: seq<Row>, byId: map<string, Row>, p: Parsers)
    requires Events(ts, byId, p).Some?
    ensures Adjacent(Events(ts, byId, p).value, byId)
    ensures ConfirmsFollow(Events(ts, byId, p).value, byId, p)
  {
    if ts != [] {
      var t := ts[|ts| - 1];
      EventsPairing(ts[..|ts| - 1], byId, p);
      BlockShape(t, byId, p);
      var es0 := Events(ts[..|ts| - 1], byId, p).value;
      var b := Block(t, byId, p).value;
      assert BlockLike(b, byId, p);
      AdjacentStep(es0, b, byId, p);
      ConfirmsFollowStep(es0, b, byId, p);
    }
  }

  /** Once the events of a prefix fail, the whole list fails. */
  lemma {:induction false} EventsFailureSticks(ts: seq<Row>, n: nat, byId: map<string, Row>, p: Parsers)
    requires n <= |ts| && Events(ts[..n], byId, p).None?
    ensures Events(ts, byId, p).None?
  {
    if n < |ts| {
      assert ts[..|ts| - 1][..n] == ts[..n];
      EventsFailureSticks(ts[..|ts| - 1], n, byId, p);
    } else {
      assert ts[..n] == ts;
    }
  }

  /**
   * One pass of the loader's loop: appends trade `t`'s event, then its
   * confirm's event when it has one; `ok` is false when a conversion or
   * the trade-id lookup raises.
   */
  method AppendBlock(events: seq<Message>, t: Row, byId: map<string, Row>, p: Parsers)
    returns (ok: bool, events': seq<Message>)
    ensures ok <==> Block(t, byId, p).Some?
    ensures ok ==> events' == events + Block(t, byId, p).value
  {
    events' := events;
    var td := ToTradeDict(t, p);
    if td.None? || TradeId !in t {
      return false, events';
    }
    events' := events' + [Message(TradeTopic, td.value)];
    var c := if t[TradeId] in byId then Some(byId[t[TradeId]]) else None;
    if c.Some? && c.value != map[] {
      var cd := ToConfirmDict(c.value, p);
      if cd.None? {
        return false, events';
      }
      events' := events' + [Message(ConfirmTopic, cd.value)];
    }
    ok := true;
  }

  /** Puts every event on the queue, in list order. */
  method Enqueue(events: seq<Message>) returns (queue: seq<Message>)
    ensures queue == events
  {
    queue := [];
    var j := 0;
    while j < |events|
      invariant 0 <= j <= |events|
      invariant queue == events[..j]
    {
      queue := queue + [events[j]];
      j := j + 1;
    }
    assert events[..|events|] == events;
  }

  /** The loader's loop over `head`; `ok` is false once a conversion raises. */
  method BuildEvents(head: seq<Row>, byId: map<string, Row>, p: Parsers) returns (ok: bool, events: seq<Message>)
    ensures ok <==> Events(head, byId, p).Some?
    ensures ok ==> Some(events) == Events(head, byId, p)
  {
    events := [];
    var i := 0;
    while i < |head|
      invariant 0 <= i <= |head|
      invariant Events(head[..i], byId, p) == Some(events)
    {
      assert head[..i + 1][..i] == head[..i] && head[..i + 1][i] == head[i];
      ok, events := AppendBlock(events, head[i], byId, p);
      if !ok {
        EventsFailureSticks(head, i + 1, byId, p);
        return;
      }
      i := i + 1;
    }
    assert head[..|head|] == head;
    ok := true;
  }

  /**
   * `load_csvs`: builds the event list (each of the first 1000 trades,
   * followed by its confirm when it has one), then enqueues it in order.
   * A conversion that raises ends the loader before anything is enqueued.
   */
  method LoadCsvs(trades: seq<Row>, confirms: seq<Row>, p: Parsers) returns (queue: seq<Message>)
    ensures queue == Loaded(trades, confirms, p).GetOr([])
  {
    queue := [];
    var index := ConfirmById(confirms);
    if index.None? {
      return;
    }
    var ok, events := BuildEvents(Head(trades), index.value, p);
    if ok {
      queue := Enqueue(events);
    }
  }

  /**
   * What the loader enqueues, when it gets that far: every confirm row has
   * a trade id, and the queue holds one event per trade among the first
   * 1000 plus one per such trade with a confirm, the trade events being
   * those trades in file order.
   */
  lemma LoadedCount(trades: seq<Row>, confirms: seq<Row>, p: Parsers)
    requires Loaded(trades, confirms, p).Some?
    ensures forall j :: 0 <= j < |confirms| ==> TradeId in confirms[j]
    ensures var es := Loaded(trades, confirms, p).value;
      var tp := Payloads(es, TradeTopic);
      && |es| == |Head(trades)| + Matched(Head(trades), ConfirmById(confirms).value)
      && |tp| == |Head(trades)|
      && forall n :: 0 <= n < |tp| ==> Some(tp[n]) == Convert(trades[n], TradeColumns, p)
  {
    ConfirmByIdDefined(confirms);
    var byId := ConfirmById(confirms).value;
    EventsCount(Head(trades), byId, p);
    TradeEventsInOrder(Head(trades), byId, p);
  }

  /** Some confirm row carries trade id `id`. */
  ghost predicate Carried(confirms: seq<Row>, id: string)
  {
    exists j :: 0 <= j < |confirms| && TradeId in confirms[j] && confirms[j][TradeId] == id
  }

  /** The confirm event at `i` follows its trade's event and is the converted last row carrying that trade id. */
  ghost predicate LastConfirmAt(es: seq<Message>, i: int, confirms: seq<Row>, p: Parsers)
    requires 0 <= i < |es|
  {
    && 0 < i && es[i - 1].topic == TradeTopic && IdOf(es[i - 1]).Some?
    && exists j :: LastWith(confirms, j, IdOf(es[i - 1]).value) && Some(es[i].payload) == Convert(confirms[j], ConfirmColumns, p)
  }

  /**
   * In what the loader enqueues, a trade event is directly followed by a
   * confirm event exactly when some confirm row carries its trade id, and
   * every confirm event directly follows its trade's event and is the
   * converted last confirm row carrying that trade id: a confirm whose
   * trade is not among the first 1000 is never enqueued.
   */
  lemma LoadedPairing(trades: seq<Row>, confirms: seq<Row>, p: Parsers)
    requires Loaded(trades, confirms, p).Some?
    ensures var es := Loaded(trades, confirms, p).value;
      forall i :: 0 <= i < |es| && es[i].topic == TradeTopic ==>
        IdOf(es[i]).Some? && (ConfirmNext(es, i) <==> Carried(confirms, IdOf(es[i]).value))
    ensures var es := Loaded(trades, confirms, p).value;
      forall i :: 0 <= i < |es| && es[i].topic == ConfirmTopic ==> LastConfirmAt(es, i, confirms, p)
  {
    ConfirmByIdDefined(confirms);
    var byId := ConfirmById(confirms).value;
    ConfirmByIdKeys(confirms);
    ConfirmByIdLastWins(confirms);
    EventsPairing(Head(trades), byId, p);
    forall id
      ensures HasPartner(byId, id) <==> Carried(confirms, id)
    {
      if id in byId {
        assert TradeId in byId[id];
        var j :| LastWith(confirms, j, id) && confirms[j] == byId[id];
      }
    }
  }
}
