/**
 * The dashboard's pure helpers over the break list it fetches: the severity
 * row class, the CSV export, the KPI counters and the MissingConfirm filter.
 * An item is a break as the browser receives it, with JavaScript's missing
 * values (`null`/`undefined`) as `None`.
 */
module Dashboard {
  import opened Wrappers
  import opened Models

  /** A break as received by the dashboard. */
  datatype Item = Item(
    created_at: Option<string>,
    trade_id: Option<string>,
    break_type: string,
    severity: Option<string>,
    detail: Option<string>,
    notional_usd: Option<real>,
    detected_ms: Option<real>)

  // ---------------------------------------------------------------------------
  // Row class

  /** ASCII lower case of one character. */
  function LowerChar(c: char): (d: char)
    ensures 'A' <= c <= 'Z' ==> d as int == c as int + 32
    ensures !('A' <= c <= 'Z') ==> d == c
  {
    if 'A' <= c <= 'Z' then (c as int + 32) as char else c
  }

  /** ASCII lower case of a string. */
  function Lower(s: string): (t: string)
    ensures |t| == |s| && forall i :: 0 <= i < |s| ==> t[i] == LowerChar(s[i])
  {
    seq(|s|, i requires 0 <= i < |s| => LowerChar(s[i]))
  }

  /** `rowClass`: the row's CSS class for a severity text, compared without regard to case. */
  function RowClass(sev: Option<string>): (cls: string)
    ensures cls == "high" || cls == "medium" || cls == "low"
    ensures sev.None? ==> cls == "low"
  {
    var s := Lower(sev.GetOr(""));
    if s == "high" then "high"
    else if s == "medium" then "medium"
    else "low"
  }

  /**
   * The class is "high" exactly for severities spelling high in any case,
   * "medium" exactly for medium, and "low" for everything else, including a
   * missing or empty severity.
   */
  lemma RowClassCases(sev: Option<string>)
    ensures RowClass(sev) == "high" <==> Lower(sev.GetOr("")) == "high"
    ensures RowClass(sev) == "medium" <==> Lower(sev.GetOr("")) == "medium"
    ensures RowClass(sev) == "low" <==> Lower(sev.GetOr("")) != "high" && Lower(sev.GetOr("")) != "medium"
    ensures sev.None? || sev == Some("") ==> RowClass(sev) == "low"
  {
    assert "high" != "medium" && "high" != "low" && "medium" != "low" by {
      assert "high"[0] != "medium"[0] && "high"[0] != "low"[0] && "medium"[0] != "low"[0];
    }
  }

  /** The three severities the reconciler emits get their own classes. */
  lemma RowClassOfSeverity(s: Severity)
    ensures RowClass(Some(SeverityName(s))) == match s case High => "high" case Medium => "medium" case Low => "low"
  {
    var n := SeverityName(s);
    match s {
      case High => assert Lower(n) == "high";
      case Medium => assert Lower(n) == "medium";
      case Low => assert Lower(n) == "low";
    }
  }

  /** Upper or lower case makes no difference to the class. */
  lemma RowClassIgnoresCase(s: string)
    ensures RowClass(Some(Lower(s))) == RowClass(Some(s))
  {
    assert Lower(Lower(s)) == Lower(s);
  }

  // ---------------------------------------------------------------------------
  // CSV export

  /** `Array.prototype.join`: the parts with `sep` between neighbours; empty for no parts. */
  function Join(parts: seq<string>, sep: string): string
  {
    if parts == [] then ""
    else if |parts| == 1 then parts[0]
    else parts[0] + sep + Join(parts[1..], sep)
  }

  /** The export's column names, in column order. */
  const Headers: seq<string> := ["created_at", "trade_id", "break_type", "severity", "detail", "notional_usd", "detected_ms"]

  /** The header line, as `headers.join(",")` spells it (see `HeaderLine`). */
  const HeaderRow: string := "created_at" + "," + ("trade_id" + "," + ("break_type" + "," + ("severity" + "," + ("detail" + "," + ("notional_usd" + "," + "detected_ms")))))

  /** Every `"` doubled (`replace(/"/g, '""')`). */
  function DoubleQuotes(s: string): (t: string)
    ensures |t| >= |s|
  {
    if s == [] then []
    else (if s[0] == '"' then "\"\"" else [s[0]]) + DoubleQuotes(s[1..])
  }

  /** The detail column: the detail (nothing if missing or empty) with quotes doubled, in double quotes. */
  function DetailCell(detail: Option<string>): string
  {
    "\"" + DoubleQuotes(detail.GetOr("")) + "\""
  }

  /** A text column as `join` renders it: a missing value becomes the empty string. */
  function TextCell(v: Option<string>): string
  {
    v.GetOr("")
  }

  /** A numeric column (`?? ""`): `show` renders a number, a missing value is empty. */
  function NumberCell(v: Option<real>, show: real -> string): string
  {
    match v
    case Some(x) => show(x)
    case None => ""
  }

  /** One item's CSV record. */
  function Record(b: Item, show: real -> string): string
  {
    Join([TextCell(b.created_at), TextCell(b.trade_id), b.break_type, TextCell(b.severity),
          DetailCell(b.detail), NumberCell(b.notional_usd, show), NumberCell(b.detected_ms, show)], ",")
  }

  /** The items' records, in item order. */
  function ItemRecords(items: seq<Item>, show: real -> string): (rows: seq<string>)
    ensures |rows| == |items|
    ensures forall i :: 0 <= i < |items| ==> rows[i] == Record(items[i], show)
  {
    if items == [] then []
    else ItemRecords(items[..|items| - 1], show) + [Record(items[|items| - 1], show)]
  }

  /** The export's records: the header line, then one record per item in item order. */
  function Records(items: seq<Item>, show: real -> string): (rows: seq<string>)
    ensures |rows| == |items| + 1 && rows[0] == HeaderRow
    ensures forall i :: 0 <= i < |items| ==> rows[i + 1] == Record(items[i], show)
  {
    [HeaderRow] + ItemRecords(items, show)
  }

  /** `toCSV`: the header line and one record per item, pushed in a loop, joined by newlines. */
  method ToCsv(items: seq<Item>, show: real -> string) returns (text: string)
    ensures text == Join(Records(items, show), "\n")
  {
    var header := HeaderRow;
    var rows := [header];
    var i := 0;
    while i < |items|
      invariant 0 <= i <= |items|
      invariant rows == [header] + ItemRecords(items[..i], show)
    {
      assert items[..i + 1][..i] == items[..i];
      rows := rows + [Record(items[i], show)];
      i := i + 1;
    }
    assert items[..|items|] == items;
    text := Join(rows, "\n");
  }

  /** The header line is the seven column names joined by commas. */
  lemma HeaderLine()
    ensures Join(Headers, ",") == HeaderRow
  {
    var h := Headers;
    assert Join(h[6..], ",") == "detected_ms";
    assert Join(h[5..], ",") == "notional_usd" + "," + "detected_ms";
    assert Join(h[4..], ",") == "detail" + "," + Join(h[5..], ",");
    assert Join(h[3..], ",") == "severity" + "," + Join(h[4..], ",");
    assert Join(h[2..], ",") == "break_type" + "," + Join(h[3..], ",");
    assert Join(h[1..], ",") == "trade_id" + "," + Join(h[2..], ",");
  }

  /** Reads a doubled-quote body back: a `""` pair is one `"`, a lone `"` is malformed. */
  function Undouble(t: string): Option<string>
  {
    if t == [] then Some([])
    else if t[0] != '"' then
      match Undouble(t[1..])
      case Some(r) => Some([t[0]] + r)
      case None => None
    else if |t| >= 2 && t[1] == '"' then
      match Undouble(t[2..])
      case Some(r) => Some("\"" + r)
      case None => None
    else None
  }

  /** A quoted CSV field read back: the body between the enclosing quotes, undoubled. */
  function ReadQuoted(t: string): Option<string>
  {
    if |t| >= 2 && t[0] == '"' && t[|t| - 1] == '"' then Undouble(t[1..|t| - 1]) else None
  }

  /** Doubling quotes is undone by reading the pairs back. */
  lemma {:induction false} UndoubleDoubleQuotes(s: string)
    ensures Undouble(DoubleQuotes(s)) == Some(s)
  {
    if s != [] {
      UndoubleDoubleQuotes(s[1..]);
      var rest := DoubleQuotes(s[1..]);
      if s[0] == '"' {
        assert DoubleQuotes(s) == "\"\"" + rest;
        assert ("\"\"" + rest)[2..] == rest;
      } else {
        assert DoubleQuotes(s) == [s[0]] + rest;
        assert ([s[0]] + rest)[1..] == rest;
      }
      assert s == [s[0]] + s[1..];
    }
  }

  /**
   * The detail column reads back, as an RFC 4180 quoted field, to the item's
   * detail; a missing detail reads back as the empty string and is written `""`.
   */
  lemma DetailRoundTrip(detail: Option<string>)
    ensures ReadQuoted(DetailCell(detail)) == Some(detail.GetOr(""))
    ensures detail.None? ==> DetailCell(detail) == "\"\""
  {
    var body := DoubleQuotes(detail.GetOr(""));
    var t := DetailCell(detail);
    assert t[1..|t| - 1] == body;
    UndoubleDoubleQuotes(detail.GetOr(""));
  }

  /** The position of the first `c` in `s`. */
  function IndexOf(s: string, c: char): (i: nat)
    requires c in s
    ensures i < |s| && s[i] == c && c !in s[..i]
  {
    if s[0] == c then 0 else 1 + IndexOf(s[1..], c)
  }

  /** A position holding `c` with no `c` before it is the first position of `c`. */
  lemma {:induction false} IndexOfFirst(s: string, c: char, j: nat)
    requires j < |s| && s[j] == c && c !in s[..j]
    ensures IndexOf(s, c) == j
  {
    if j > 0 {
      assert s[0] == s[..j][0];
      assert s[1..][..j - 1] == s[1..j];
      assert forall x :: x in s[1..j] ==> x in s[..j];
      IndexOfFirst(s[1..], c, j - 1);
    }
  }

  /** Splitting at every `c`. */
  function Split(s: string, c: char): seq<string>
    decreases |s|
  {
    if c !in s then [s]
    else [s[..IndexOf(s, c)]] + Split(s[IndexOf(s, c) + 1..], c)
  }

  /** A first line free of `c`, then `c`, splits into that line and the rest's pieces. */
  lemma SplitCons(first: string, c: char, rest: string)
    requires c !in first
    ensures Split(first + [c] + rest, c) == [first] + Split(rest, c)
  {
    var s := first + [c] + rest;
    assert s[|first|] == c;
    assert s[..|first|] == first;
    IndexOfFirst(s, c, |first|);
    assert s[|first| + 1..] == rest;
  }

  /** Joining lines free of `c` with `c` and splitting at `c` gives back the lines. */
  lemma {:induction false} SplitJoin(lines: seq<string>, c: char)
    requires |lines| > 0 && forall l :: l in lines ==> c !in l
    ensures Split(Join(lines, [c]), c) == lines
  {
    if |lines| > 1 {
      SplitJoin(lines[1..], c);
      SplitCons(lines[0], c, Join(lines[1..], [c]));
      assert lines == [lines[0]] + lines[1..];
    }
  }

  /**
   * When no column text and no rendered number holds a line break, splitting
   * the export at newlines gives exactly `|items| + 1` lines: the header, then
   * the items' records in item order.
   */
  lemma CsvLines(items: seq<Item>, show: real -> string)
    requires forall r :: r in Records(items, show) ==> '\n' !in r
    ensures Split(Join(Records(items, show), "\n"), '\n') == Records(items, show)
    ensures |Split(Join(Records(items, show), "\n"), '\n')| == |items| + 1
  {
    assert "\n" == ['\n'];
    SplitJoin(Records(items, show), '\n');
  }

  // ---------------------------------------------------------------------------
  // KPI counters

  /** The counters of `kpiSummary`: items, notional at risk and items per break type. */
  datatype Kpi = Kpi(total: nat, nar: real, byType: map<string, nat>)

  /** One item counted in: a missing (falsy) notional adds 0, an unseen type starts at 0. */
  function Tally(k: Kpi, b: Item): Kpi
  {
    Kpi(k.total + 1, k.nar + b.notional_usd.GetOr(0.0),
        k.byType[b.break_type := (if b.break_type in k.byType then k.byType[b.break_type] else 0) + 1])
  }

  /** The counters after counting `items` in order from zero. */
  function Kpis(items: seq<Item>): (r: Kpi)
    ensures r.total == |items|
  {
    if items == [] then Kpi(0, 0.0, map[]) else Tally(Kpis(items[..|items| - 1]), items[|items| - 1])
  }

  /** The counter loop of `kpiSummary`, mutating one counter object. */
  method KpiSummary(items: seq<Item>) returns (k: Kpi)
    ensures k == Kpis(items)
  {
    k := Kpi(0, 0.0, map[]);
    var i := 0;
    while i < |items|
      invariant 0 <= i <= |items|
      invariant k == Kpis(items[..i])
    {
      var b := items[i];
      assert items[..i + 1][..i] == items[..i];
      var seen := if b.break_type in k.byType then k.byType[b.break_type] else 0;
      k := k.(total := k.total + 1);
      k := k.(nar := k.nar + b.notional_usd.GetOr(0.0));
      k := k.(byType := k.byType[b.break_type := seen + 1]);
      i := i + 1;
    }
    assert items[..|items|] == items;
  }

  /** The number of items of break type `t`. */
  function CountType(items: seq<Item>, t: string): nat
  {
    if items == [] then 0
    else CountType(items[..|items| - 1], t) + (if items[|items| - 1].break_type == t then 1 else 0)
  }

  /** The notional at risk: the sum of the notionals, a missing one counting 0. */
  function Notional(items: seq<Item>): real
  {
    if items == [] then 0.0 else Notional(items[..|items| - 1]) + items[|items| - 1].notional_usd.GetOr(0.0)
  }

  /** The sum of a count map's values. */
  ghost function MapSum(m: map<string, nat>): nat
    decreases |m.Keys|
  {
    if m == map[] then 0
    else
      var k :| k in m;
      m[k] + MapSum(m - {k})
  }

  /** Taking out any one key takes its value out of the sum. */
  lemma {:induction false} MapSumRemove(m: map<string, nat>, k: string)
    requires k in m
    ensures MapSum(m) == m[k] + MapSum(m - {k})
    decreases |m.Keys|
  {
    var j :| j in m && MapSum(m) == m[j] + MapSum(m - {j});
    if j != k {
      MapSumRemove(m - {j}, k);
      MapSumRemove(m - {k}, j);
      assert (m - {j}) - {k} == (m - {k}) - {j};
    }
  }

  /** Setting one key to `v` changes the sum by the difference. */
  lemma MapSumUpdate(m: map<string, nat>, k: string, v: nat)
    ensures MapSum(m[k := v]) == MapSum(m) - (if k in m then m[k] else 0) + v
  {
    MapSumRemove(m[k := v], k);
    assert m[k := v] - {k} == m - {k};
    if k in m {
      MapSumRemove(m, k);
    } else {
      assert m - {k} == m;
    }
  }

  /**
   * `total` is the number of items, `nar` the notional at risk, each type's
   * count the number of items of that type (only types that occur are keys),
   * and the counts add up to `total`.
   */
  lemma {:induction false} KpiFacts(items: seq<Item>)
    ensures Kpis(items).total == |items|
    ensures Kpis(items).nar == Notional(items)
    ensures forall t :: t in Kpis(items).byType <==> CountType(items, t) > 0
    ensures forall t :: t in Kpis(items).byType ==> Kpis(items).byType[t] == CountType(items, t)
    ensures MapSum(Kpis(items).byType) == |items|
  {
    if items != [] {
      var init, b := items[..|items| - 1], items[|items| - 1];
      KpiFacts(init);
      var k := Kpis(init);
      MapSumUpdate(k.byType, b.break_type, (if b.break_type in k.byType then k.byType[b.break_type] else 0) + 1);
    } else {
      assert Kpis(items).byType == map[];
    }
  }

  // ---------------------------------------------------------------------------
  // MissingConfirm filter

  /** `items.filter(b => b.break_type !== 'MissingConfirm')`. */
  function HideMissing(items: seq<Item>): (r: seq<Item>)
    ensures |r| <= |items|
    ensures forall b :: b in r ==> b.break_type != "MissingConfirm"
  {
    if items == [] then []
    else (if items[0].break_type != "MissingConfirm" then [items[0]] else []) + HideMissing(items[1..])
  }

  /** The filter keeps exactly the items that are not MissingConfirm. */
  lemma {:induction false} HideMissingMembers(items: seq<Item>)
    ensures forall b :: b in HideMissing(items) <==> b in items && b.break_type != "MissingConfirm"
    ensures |HideMissing(items)| <= |items|
  {
    if items != [] {
      HideMissingMembers(items[1..]);
      assert items == [items[0]] + items[1..];
    }
  }

  /** The filter works piece by piece, so the kept items stay in their order. */
  lemma {:induction false} HideMissingAppend(a: seq<Item>, b: seq<Item>)
    ensures HideMissing(a + b) == HideMissing(a) + HideMissing(b)
  {
    if a != [] {
      HideMissingAppend(a[1..], b);
      assert (a + b)[0] == a[0] && (a + b)[1..] == a[1..] + b;
      assert HideMissing(a + b) == (if a[0].break_type != "MissingConfirm" then [a[0]] else []) + HideMissing(a[1..] + b);
    } else {
      assert a + b == b;
    }
  }

  /** Filtering twice filters once. */
  lemma {:induction false} HideMissingIdempotent(items: seq<Item>)
    ensures HideMissing(HideMissing(items)) == HideMissing(items)
  {
    if items != [] {
      HideMissingIdempotent(items[1..]);
      var head := if items[0].break_type != "MissingConfirm" then [items[0]] else [];
      HideMissingAppend(head, HideMissing(items[1..]));
      if head != [] {
        assert HideMissing(head) == head by {
          assert head[1..] == [];
        }
      }
    }
  }

  /** For breaks from the reconciler, the filter removes exactly the MissingConfirm category. */
  lemma HideMissingByCategory(t: BreakType)
    ensures BreakTypeName(t) == "MissingConfirm" <==> t == MissingConfirm
  {
    assert t != MissingConfirm ==> |BreakTypeName(t)| != |"MissingConfirm"|;
  }
}
