/**
 * The in-memory reconciler: id-keyed stores of trades, confirmations and
 * breaks, running statistics, one iteration of the consumer loop (`Step`) and
 * the newest-first break query (`RecentBreaks`).
 */
module Reconcile {
  import opened Wrappers
  import opened Models
  import opened Rules

  /** A dequeued event: a trade, a confirmation, or any other topic. */
  datatype Event = TradeEvent(trade: Trade) | ConfirmEvent(confirm: Confirm) | OtherEvent(topic: string)

  /** `OtherEvent` stands for the topics other than "trade" and "confirm": those two always decode to a record. */
  predicate WellFormed(e: Event)
  {
    e.OtherEvent? ==> e.topic != "trade" && e.topic != "confirm"
  }

  /** The default number of breaks returned by the break query. */
  const DefaultLimit: int := 200

  /** The stored value under `k`, if any (a dictionary `get`). */
  function Lookup<V>(m: map<string, V>, k: string): (r: Option<V>)
    ensures r.Some? <==> k in m
    ensures r.Some? ==> r.value == m[k]
  {
    if k in m then Some(m[k]) else None
  }

  /**
   * The breaks one event produces, given the stores as they were before it:
   * a trade is evaluated against the stored confirmation with its id, if any;
   * a confirmation is evaluated against the stored trade with its id, and
   * produces nothing when there is none; any other topic produces nothing.
   */
  function Produced(trades: map<string, Trade>, confirms: map<string, Confirm>, e: Event, env: Env): seq<Break>
  {
    match e
    case TradeEvent(t) => Breaks(t, Lookup(confirms, t.trade_id), env)
    case ConfirmEvent(c) => if c.trade_id in trades then Breaks(trades[c.trade_id], Some(c), env) else []
    case OtherEvent(_) => []
  }

  /** A confirmation whose trade is not stored, and an unknown topic, produce no breaks. */
  lemma ProducedNothing(trades: map<string, Trade>, confirms: map<string, Confirm>, e: Event, env: Env)
    ensures e.OtherEvent? ==> Produced(trades, confirms, e, env) == []
    ensures e.ConfirmEvent? && e.confirm.trade_id !in trades ==> Produced(trades, confirms, e, env) == []
    ensures e.ConfirmEvent? && e.confirm.trade_id in trades ==>
      Produced(trades, confirms, e, env) == Breaks(trades[e.confirm.trade_id], Some(e.confirm), env)
    ensures e.TradeEvent? && e.trade.trade_id !in confirms ==>
      Produced(trades, confirms, e, env) == Breaks(e.trade, None, env)
  {
  }

  /** Every break of one event names the event's trade id. */
  lemma ProducedForEventTrade(trades: map<string, Trade>, confirms: map<string, Confirm>, e: Event, env: Env)
    requires forall k :: k in trades ==> trades[k].trade_id == k
    ensures forall b :: b in Produced(trades, confirms, e, env) ==>
      b.trade_id == (if e.TradeEvent? then e.trade.trade_id else e.confirm.trade_id)
  {
    match e
    case TradeEvent(t) => BreakFields(t, Lookup(confirms, t.trade_id), env);
    case ConfirmEvent(c) =>
      if c.trade_id in trades {
        BreakFields(trades[c.trade_id], Some(c), env);
      }
    case OtherEvent(_) =>
  }

  // ---------------------------------------------------------------------------
  // The break store

  /** The break store after upserting `bs` in order, each under its id: the last write wins. */
  function StoreAll(m: map<string, Break>, bs: seq<Break>): map<string, Break>
  {
    if bs == [] then m
    else StoreAll(m, bs[..|bs| - 1])[bs[|bs| - 1].break_id := bs[|bs| - 1]]
  }

  /** The store's key order after upserting `bs`: an existing key keeps its place, a new key goes last. */
  function KeyOrder(order: seq<string>, bs: seq<Break>): seq<string>
  {
    if bs == [] then order
    else
      var o := KeyOrder(order, bs[..|bs| - 1]);
      if bs[|bs| - 1].break_id in o then o else o + [bs[|bs| - 1].break_id]
  }

  /** No key twice. */
  predicate Distinct(s: seq<string>)
  {
    forall i, j :: 0 <= i < j < |s| ==> s[i] != s[j]
  }

  /** The ids of `bs`. */
  function Ids(bs: seq<Break>): set<string>
  {
    set b | b in bs :: b.break_id
  }

  /** Upserting is overriding the old store with the upserts alone. */
  lemma {:induction false} StoreAllMerge(m: map<string, Break>, bs: seq<Break>)
    ensures StoreAll(m, bs) == m + StoreAll(map[], bs)
  {
    if bs == [] {
      assert m + map[] == m;
    } else {
      var init, last := bs[..|bs| - 1], bs[|bs| - 1];
      StoreAllMerge(m, init);
      var l := StoreAll(map[], init);
      assert StoreAll(m, bs) == (m + l)[last.break_id := last];
      assert StoreAll(map[], bs) == l[last.break_id := last];
      assert (m + l)[last.break_id := last] == m + l[last.break_id := last];
    }
  }

  /** Upserting the same breaks twice stores what upserting them once stores: the break id is the idempotence key. */
  lemma StoreAllIdempotent(m: map<string, Break>, bs: seq<Break>)
    ensures StoreAll(StoreAll(m, bs), bs) == StoreAll(m, bs)
  {
    var l := StoreAll(map[], bs);
    StoreAllMerge(m, bs);
    StoreAllMerge(StoreAll(m, bs), bs);
    assert (m + l) + l == m + l;
  }

  /**
   * The keys after upserting are the old keys plus the upserted ids (nothing is
   * removed); a key no break of `bs` carries keeps its value; every key still
   * names its own break.
   */
  lemma {:induction false} StoreAllKeys(m: map<string, Break>, bs: seq<Break>)
    ensures StoreAll(m, bs).Keys == m.Keys + Ids(bs)
    ensures forall k :: k in m && k !in Ids(bs) ==> StoreAll(m, bs)[k] == m[k]
    ensures (forall k :: k in m ==> m[k].break_id == k) ==>
      forall k :: k in StoreAll(m, bs) ==> StoreAll(m, bs)[k].break_id == k
  {
    if bs != [] {
      var init, last := bs[..|bs| - 1], bs[|bs| - 1];
      StoreAllKeys(m, init);
      assert bs == init + [last];
      assert Ids(bs) == Ids(init) + {last.break_id};
    }
  }

  /** A break that no later break of `bs` overwrites is what the store holds under its id. */
  lemma {:induction false} StoreAllLatest(m: map<string, Break>, bs: seq<Break>, i: nat)
    requires i < |bs|
    requires forall j :: i < j < |bs| ==> bs[j].break_id != bs[i].break_id
    ensures bs[i].break_id in StoreAll(m, bs) && StoreAll(m, bs)[bs[i].break_id] == bs[i]
  {
    if i < |bs| - 1 {
      StoreAllLatest(m, bs[..|bs| - 1], i);
    }
  }

  /**
   * Key order after upserting: it starts with the old order, stays free of
   * duplicates and lists exactly the keys of the new store.
   */
  lemma {:induction false} KeyOrderFacts(order: seq<string>, m: map<string, Break>, bs: seq<Break>)
    requires Distinct(order) && forall k :: k in order <==> k in m
    ensures Distinct(KeyOrder(order, bs))
    ensures forall k :: k in KeyOrder(order, bs) <==> k in StoreAll(m, bs)
    ensures |order| <= |KeyOrder(order, bs)| && KeyOrder(order, bs)[..|order|] == order
  {
    if bs != [] {
      var init, last := bs[..|bs| - 1], bs[|bs| - 1];
      KeyOrderFacts(order, m, init);
      var o := KeyOrder(order, init);
      if last.break_id !in o {
        assert (o + [last.break_id])[..|order|] == o[..|order|];
      }
    }
  }

  // ---------------------------------------------------------------------------
  // Running statistics

  /** Sum of the durations. */
  function Sum(s: seq<real>): real
  {
    if s == [] then 0.0 else Sum(s[..|s| - 1]) + s[|s| - 1]
  }

  /** Arithmetic mean of the durations, 0 for none. */
  function Mean(s: seq<real>): real
  {
    if |s| == 0 then 0.0 else Sum(s) / |s| as real
  }

  /**
   * The incremental update `(avg * (k - 1) + dt) / k`, with `k` the count
   * after the new event, turns the mean of `s` into the mean of `s + [dt]`.
   */
  lemma MeanStep(s: seq<real>, dt: real)
    ensures Mean(s + [dt]) == (Mean(s) * ((|s| + 1) - 1) as real + dt) / (|s| + 1) as real
  {
    assert (s + [dt])[..|s|] == s;
    assert Sum(s + [dt]) == Sum(s) + dt;
    if |s| > 0 {
      assert Mean(s) * |s| as real == Sum(s);
    }
  }

  // ---------------------------------------------------------------------------
  // The break query

  /** The stored breaks in the store's key order. */
  function Values(order: seq<string>, m: map<string, Break>): (r: seq<Break>)
    requires forall k :: k in order ==> k in m
    ensures |r| == |order| && forall i :: 0 <= i < |order| ==> r[i] == m[order[i]]
  {
    seq(|order|, i requires 0 <= i < |order| => m[order[i]])
  }

  /** `x` inserted into a newest-first list after every break at least as new: ties keep arrival order. */
  function InsertByTime(sorted: seq<Break>, x: Break): seq<Break>
  {
    if sorted == [] then [x]
    else if sorted[0].created_at >= x.created_at then [sorted[0]] + InsertByTime(sorted[1..], x)
    else [x] + sorted
  }

  /** A stable newest-first sort by `created_at` (a stable sort with `reverse=True`). */
  function NewestFirst(s: seq<Break>): seq<Break>
  {
    if s == [] then [] else InsertByTime(NewestFirst(s[..|s| - 1]), s[|s| - 1])
  }

  /** Non-increasing in `created_at`. */
  predicate NonIncreasing(s: seq<Break>)
  {
    forall i, j :: 0 <= i < j < |s| ==> s[i].created_at >= s[j].created_at
  }

  /** Inserting adds exactly `x`. */
  lemma {:induction false} InsertByTimePerm(sorted: seq<Break>, x: Break)
    ensures multiset(InsertByTime(sorted, x)) == multiset(sorted) + multiset{x}
  {
    if sorted != [] && sorted[0].created_at >= x.created_at {
      InsertByTimePerm(sorted[1..], x);
      assert sorted == [sorted[0]] + sorted[1..];
      assert multiset(sorted) == multiset{sorted[0]} + multiset(sorted[1..]);
    }
  }

  /** Inserting keeps the list newest-first. */
  lemma {:induction false} InsertByTimeSorted(sorted: seq<Break>, x: Break)
    requires NonIncreasing(sorted)
    ensures NonIncreasing(InsertByTime(sorted, x))
  {
    if sorted != [] && sorted[0].created_at >= x.created_at {
      var rest := InsertByTime(sorted[1..], x);
      InsertByTimeSorted(sorted[1..], x);
      InsertByTimePerm(sorted[1..], x);
      forall e | e in rest
        ensures sorted[0].created_at >= e.created_at
      {
        assert e in multiset(rest);
        if e != x {
          assert e in sorted[1..];
        }
      }
      ConsNonIncreasing(sorted[0], rest);
    } else if sorted != [] {
      ConsNonIncreasing(x, sorted);
    }
  }

  /** A break at least as new as every break of a newest-first list can head it. */
  lemma ConsNonIncreasing(h: Break, t: seq<Break>)
    requires NonIncreasing(t)
    requires forall e :: e in t ==> h.created_at >= e.created_at
    ensures NonIncreasing([h] + t)
  {
    var r := [h] + t;
    forall i, j | 0 <= i < j < |r|
      ensures r[i].created_at >= r[j].created_at
    {
      assert r[j] == t[j - 1];
      if i > 0 {
        assert r[i] == t[i - 1];
      } else {
        assert t[j - 1] in t;
      }
    }
  }

  /** The sort is newest-first. */
  lemma {:induction false} NewestFirstSorted(s: seq<Break>)
    ensures NonIncreasing(NewestFirst(s))
  {
    if s != [] {
      NewestFirstSorted(s[..|s| - 1]);
      InsertByTimeSorted(NewestFirst(s[..|s| - 1]), s[|s| - 1]);
    }
  }

  /** The sort is newest-first and a permutation of its input. */
  lemma {:induction false} NewestFirstFacts(s: seq<Break>)
    ensures NonIncreasing(NewestFirst(s))
    ensures multiset(NewestFirst(s)) == multiset(s)
  {
    NewestFirstSorted(s);
    if s != [] {
      var init, x := s[..|s| - 1], s[|s| - 1];
      NewestFirstFacts(init);
      assert NewestFirst(s) == InsertByTime(NewestFirst(init), x);
      assert s == init + [x];
      PermStep(NewestFirst(init), init, x);
    }
  }

  /** Inserting the next input break into a permutation of the earlier ones gives a permutation of all. */
  lemma PermStep(sorted: seq<Break>, init: seq<Break>, x: Break)
    requires multiset(sorted) == multiset(init)
    ensures multiset(InsertByTime(sorted, x)) == multiset(init + [x])
  {
    InsertByTimePerm(sorted, x);
  }

  /** The breaks of `s` stamped `t`, in their order in `s`. */
  function AtTime(s: seq<Break>, t: int): seq<Break>
  {
    if s == [] then [] else (if s[0].created_at == t then [s[0]] else []) + AtTime(s[1..], t)
  }

  /** Picking the breaks of one stamp works piece by piece. */
  lemma {:induction false} AtTimeAppend(a: seq<Break>, b: seq<Break>, t: int)
    ensures AtTime(a + b, t) == AtTime(a, t) + AtTime(b, t)
  {
    if a != [] {
      AtTimeAppend(a[1..], b, t);
      assert (a + b)[1..] == a[1..] + b;
    } else {
      assert a + b == b;
    }
  }

  /** The tail of a newest-first list is newest-first. */
  lemma NonIncreasingTail(s: seq<Break>)
    requires NonIncreasing(s) && s != []
    ensures NonIncreasing(s[1..])
    ensures |s| > 1 ==> s[0].created_at >= s[1..][0].created_at
  {
    var rest := s[1..];
    assert forall i :: 0 <= i < |rest| ==> rest[i] == s[i + 1];
  }

  /** A newest-first list headed by a break older than `t` holds nothing stamped `t`. */
  lemma {:induction false} AtTimeOlder(s: seq<Break>, t: int)
    requires NonIncreasing(s) && (s != [] ==> s[0].created_at < t)
    ensures AtTime(s, t) == []
  {
    if s != [] {
      NonIncreasingTail(s);
      AtTimeOlder(s[1..], t);
    }
  }

  /** Picking the breaks of one stamp from a list with a known head. */
  lemma AtTimeCons(h: Break, rest: seq<Break>, t: int)
    ensures AtTime([h] + rest, t) == (if h.created_at == t then [h] else []) + AtTime(rest, t)
  {
    var s := [h] + rest;
    assert s[0] == h && s[1..] == rest;
  }

  /** Inserting `x` puts it after every break stamped like it, and moves no other break of any stamp. */
  lemma {:induction false} InsertByTimeAtTime(sorted: seq<Break>, x: Break, t: int)
    requires NonIncreasing(sorted)
    ensures AtTime(InsertByTime(sorted, x), t) == AtTime(sorted, t) + (if x.created_at == t then [x] else [])
  {
    var own := if x.created_at == t then [x] else [];
    if sorted == [] {
      AtTimeCons(x, [], t);
      assert [x] + [] == [x];
    } else if sorted[0].created_at >= x.created_at {
      var h, rest := sorted[0], sorted[1..];
      NonIncreasingTail(sorted);
      InsertByTimeAtTime(rest, x, t);
      assert InsertByTime(sorted, x) == [h] + InsertByTime(rest, x);
      AtTimeCons(h, InsertByTime(rest, x), t);
      AtTimeCons(h, rest, t);
      assert [h] + rest == sorted;
    } else {
      assert InsertByTime(sorted, x) == [x] + sorted;
      AtTimeCons(x, sorted, t);
      if x.created_at == t {
        AtTimeOlder(sorted, t);
      }
    }
  }

  /** The sort is stable: for every stamp, the breaks carrying it keep their input order. */
  lemma {:induction false} NewestFirstStable(s: seq<Break>, t: int)
    ensures AtTime(NewestFirst(s), t) == AtTime(s, t)
  {
    if s != [] {
      var init, x := s[..|s| - 1], s[|s| - 1];
      NewestFirstStable(init, t);
      NewestFirstSorted(init);
      assert NewestFirst(s) == InsertByTime(NewestFirst(init), x);
      assert s == init + [x];
      StableStep(NewestFirst(init), init, x, t);
    }
  }

  /** Inserting the next input break keeps the breaks of every stamp in input order. */
  lemma StableStep(sorted: seq<Break>, init: seq<Break>, x: Break, t: int)
    requires NonIncreasing(sorted) && AtTime(sorted, t) == AtTime(init, t)
    ensures AtTime(InsertByTime(sorted, x), t) == AtTime(init + [x], t)
  {
    InsertByTimeAtTime(sorted, x, t);
    AtTimeAppend(init, [x], t);
    AtTimeCons(x, [], t);
    assert [x] + [] == [x];
  }

  /**
   * A prefix of the stable sort of `all` takes each break of `all` at most
   * once, and for every stamp a prefix of `all`'s breaks with that stamp.
   */
  lemma SlicePrefixStable(all: seq<Break>, sorted: seq<Break>, len: nat)
    requires sorted == NewestFirst(all) && len <= |sorted|
    ensures multiset(sorted[..len]) <= multiset(all)
    ensures forall t :: AtTime(sorted[..len], t) <= AtTime(all, t)
  {
    NewestFirstFacts(all);
    assert sorted == sorted[..len] + sorted[len..];
    assert multiset(sorted) == multiset(sorted[..len]) + multiset(sorted[len..]);
    forall t
      ensures AtTime(sorted[..len], t) <= AtTime(all, t)
    {
      NewestFirstStable(all, t);
      AtTimeAppend(sorted[..len], sorted[len..], t);
    }
  }

  /** Length of a slice `[:limit]` of a list of `n`: a negative limit drops that many from the end. */
  function SliceLen(limit: int, n: nat): (len: nat)
    ensures len <= n
    ensures limit >= 0 ==> len == (if limit < n then limit else n)
    ensures limit < 0 ==> len == (if n + limit > 0 then n + limit else 0)
  {
    if limit >= 0 then (if limit < n then limit else n)
    else if n + limit > 0 then n + limit else 0
  }

  /** A duplicate-free list is as long as its set of elements is large. */
  lemma {:induction false} DistinctCard(s: seq<string>)
    requires Distinct(s)
    ensures |set k | k in s| == |s|
  {
    if s != [] {
      var init := s[..|s| - 1];
      DistinctCard(init);
      assert (set k | k in s) == (set k | k in init) + {s[|s| - 1]};
    }
  }

  /** The reconciler: stores, statistics and the broadcast log. */
  class Reconciler {
    /** Trades by trade id. */
    var trades: map<string, Trade>
    /** Confirmations by trade id. */
    var confirms: map<string, Confirm>
    /** Breaks by break id. */
    var breaks: map<string, Break>
    /** The keys of `breaks` in insertion order. */
    var breakOrder: seq<string>
    /** Events consumed. */
    var processed: nat
    /** Breaks produced, counting re-detections. */
    var detectedBreaks: nat
    /** Running mean of the per-event processing time in ms. */
    var avgDetectMs: real
    /** Every break broadcast to subscribers, in order. */
    ghost var broadcastLog: seq<Break>
    /** The per-event processing times seen so far. */
    ghost var durations: seq<real>

    /** Every stored trade and confirmation sits under its own trade id. */
    ghost predicate RecordsValid()
      reads this`trades, this`confirms
    {
      && (forall k :: k in trades ==> trades[k].trade_id == k)
      && (forall k :: k in confirms ==> confirms[k].trade_id == k)
    }

    /**
     * Every stored break sits under its own id, the key order lists each key
     * once, and every broadcast break is in the store.
     */
    ghost predicate StoreValid()
      reads this`breaks, this`breakOrder, this`broadcastLog
    {
      && (forall k :: k in breaks ==> breaks[k].break_id == k)
      && Distinct(breakOrder) && (forall k :: k in breakOrder <==> k in breaks)
      && (forall b :: b in broadcastLog ==> b.break_id in breaks)
    }

    /** One processing time per event, and the running average is their mean. */
    ghost predicate StatsValid()
      reads this`processed, this`avgDetectMs, this`durations
    {
      processed == |durations| && avgDetectMs == Mean(durations)
    }

    /** The store and statistics invariants. */
    ghost predicate Valid()
      reads this
    {
      RecordsValid() && StoreValid() && StatsValid() && detectedBreaks == |broadcastLog|
    }

    /** Empty stores and zero statistics. */
    constructor ()
      ensures Valid()
      ensures trades == map[] && confirms == map[] && breaks == map[] && breakOrder == []
      ensures processed == 0 && detectedBreaks == 0 && avgDetectMs == 0.0
      ensures broadcastLog == [] && durations == []
    {
      trades, confirms, breaks, breakOrder := map[], map[], map[], [];
      processed, detectedBreaks, avgDetectMs := 0, 0, 0.0;
      broadcastLog, durations := [], [];
    }

    /**
     * One iteration of the consumer loop: store the event's record, evaluate
     * it against its stored counterpart, upsert and broadcast every break in
     * order, then count the event, its breaks and its processing time `dtMs`.
     */
    method Step(e: Event, env: Env, dtMs: real) returns (brks: seq<Break>)
      requires Valid() && WellFormed(e)
      modifies this
      ensures Valid()
      ensures trades == (if e.TradeEvent? then old(trades)[e.trade.trade_id := e.trade] else old(trades))
      ensures confirms == (if e.ConfirmEvent? then old(confirms)[e.confirm.trade_id := e.confirm] else old(confirms))
      ensures brks == Produced(old(trades), old(confirms), e, env)
      ensures breaks == StoreAll(old(breaks), brks)
      ensures breakOrder == KeyOrder(old(breakOrder), brks)
      ensures broadcastLog == old(broadcastLog) + brks
      ensures processed == old(processed) + 1
      ensures detectedBreaks == old(detectedBreaks) + |brks|
      ensures durations == old(durations) + [dtMs]
    {
      brks := Consume(e, env);
      Record(brks, dtMs);
    }

    /** Upsert and broadcast the event's breaks, then count the event. */
    method Record(brks: seq<Break>, dtMs: real)
      requires StoreValid() && StatsValid() && detectedBreaks == |broadcastLog|
      modifies this`breaks, this`breakOrder, this`broadcastLog, this`processed, this`detectedBreaks, this`avgDetectMs, this`durations
      ensures StoreValid() && StatsValid() && detectedBreaks == |broadcastLog|
      ensures breaks == StoreAll(old(breaks), brks)
      ensures breakOrder == KeyOrder(old(breakOrder), brks)
      ensures broadcastLog == old(broadcastLog) + brks
      ensures processed == old(processed) + 1
      ensures detectedBreaks == old(detectedBreaks) + |brks|
      ensures durations == old(durations) + [dtMs]
    {
      StoreAndBroadcast(brks);
      Count(|brks|, dtMs);
    }

    /** Store the event's record and evaluate it against its stored counterpart. */
    method Consume(e: Event, env: Env) returns (brks: seq<Break>)
      requires RecordsValid()
      modifies this`trades, this`confirms
      ensures trades == (if e.TradeEvent? then old(trades)[e.trade.trade_id := e.trade] else old(trades))
      ensures confirms == (if e.ConfirmEvent? then old(confirms)[e.confirm.trade_id := e.confirm] else old(confirms))
      ensures RecordsValid()
      ensures brks == Produced(old(trades), old(confirms), e, env)
    {
      if e.TradeEvent? {
        var trade := e.trade;
        trades := trades[trade.trade_id := trade];
        var confirm := Lookup(confirms, trade.trade_id);
        brks := Evaluate(trade, confirm, env);
      } else if e.ConfirmEvent? {
        var confirm := e.confirm;
        confirms := confirms[confirm.trade_id := confirm];
        var trade := Lookup(trades, confirm.trade_id);
        if trade.Some? {
          brks := Evaluate(trade.value, Some(confirm), env);
        } else {
          brks := [];
        }
      } else {
        brks := [];
      }
    }

    /** Count one event, its `n` breaks and its processing time `dtMs` in the running mean. */
    method Count(n: nat, dtMs: real)
      requires StatsValid()
      modifies this`processed, this`detectedBreaks, this`avgDetectMs, this`durations
      ensures processed == old(processed) + 1
      ensures detectedBreaks == old(detectedBreaks) + n
      ensures durations == old(durations) + [dtMs]
      ensures StatsValid()
    {
      processed := processed + 1;
      durations := durations + [dtMs];
      if n > 0 {
        detectedBreaks := detectedBreaks + n;
      }
      var k := if processed > 1 then processed else 1;
      MeanStep(old(durations), dtMs);
      avgDetectMs := (avgDetectMs * (k - 1) as real + dtMs) / k as real;
    }

    /** The loop over one event's breaks: store each under its id, then broadcast it. */
    method StoreAndBroadcast(brks: seq<Break>)
      requires StoreValid()
      modifies this`breaks, this`breakOrder, this`broadcastLog
      ensures breaks == StoreAll(old(breaks), brks)
      ensures breakOrder == KeyOrder(old(breakOrder), brks)
      ensures broadcastLog == old(broadcastLog) + brks
      ensures StoreValid()
    {
      var i := 0;
      while i < |brks|
        invariant 0 <= i <= |brks|
        invariant breaks == StoreAll(old(breaks), brks[..i])
        invariant breakOrder == KeyOrder(old(breakOrder), brks[..i])
        invariant broadcastLog == old(broadcastLog) + brks[..i]
      {
        var b := brks[i];
        assert brks[..i + 1] == brks[..i] + [b];
        assert brks[..i + 1][..i] == brks[..i];
        KeyOrderFacts(old(breakOrder), old(breaks), brks[..i]);
        if b.break_id !in breaks {
          breakOrder := breakOrder + [b.break_id];
        }
        breaks := breaks[b.break_id := b];
        broadcastLog := broadcastLog + [b];
        i := i + 1;
      }
      assert brks[..|brks|] == brks;
      KeyOrderFacts(old(breakOrder), old(breaks), brks);
      StoreAllKeys(old(breaks), brks);
      assert forall b :: b in brks ==> b.break_id in Ids(brks);
    }

    /**
     * `get_breaks`: the stored breaks newest first by `created_at` (ties in
     * store order), cut as the slice `[:limit]`; the limit defaults to 200.
     * Each stored break is returned at most once, and among breaks with one
     * `created_at` the result takes the earliest-stored ones first.
     */
    function RecentBreaks(limit: int := DefaultLimit): (r: seq<Break>)
      reads this
      requires Valid()
      ensures |r| == SliceLen(limit, |breaks|)
      ensures forall b :: b in r ==> b.break_id in breaks && breaks[b.break_id] == b
      ensures NonIncreasing(r)
      ensures forall k :: k in breaks && breaks[k] !in r ==>
        forall x :: x in r ==> x.created_at >= breaks[k].created_at
      ensures multiset(r) <= multiset(Values(breakOrder, breaks))
      ensures forall t :: AtTime(r, t) <= AtTime(Values(breakOrder, breaks), t)
    {
      RecentBreaksSpec(breakOrder, breaks, limit);
      NewestFirst(Values(breakOrder, breaks))[..SliceLen(limit, |breaks|)]
    }
  }

  /**
   * The slice `[:limit]` of the stable newest-first sort of a store's values:
   * its length, that it holds stored breaks each at most once, newest first,
   * leaving out nothing newer than what it keeps, and ties in store order.
   */
  lemma RecentBreaksSpec(order: seq<string>, m: map<string, Break>, limit: int)
    requires Distinct(order) && (forall k :: k in order <==> k in m)
    requires forall k :: k in m ==> m[k].break_id == k
    ensures |NewestFirst(Values(order, m))| == |m|
    ensures var r := NewestFirst(Values(order, m))[..SliceLen(limit, |m|)];
      && |r| == SliceLen(limit, |m|)
      && (forall b :: b in r ==> b.break_id in m && m[b.break_id] == b)
      && NonIncreasing(r)
      && (forall k :: k in m && m[k] !in r ==> forall x :: x in r ==> x.created_at >= m[k].created_at)
      && multiset(r) <= multiset(Values(order, m))
      && (forall t :: AtTime(r, t) <= AtTime(Values(order, m), t))
  {
    var all := Values(order, m);
    var sorted := NewestFirst(all);
    NewestFirstFacts(all);
    RecentBreaksFacts(order, m, all, sorted, limit);
    var len := SliceLen(limit, |sorted|);
    SlicePrefixStable(all, sorted, len);
    var r := sorted[..len];
    assert forall b :: b in r ==> b in sorted;
    forall i, j | 0 <= i < j < |r|
      ensures r[i].created_at >= r[j].created_at
    {
      assert r[i] == sorted[i] && r[j] == sorted[j];
    }
  }

  /** A break left out of a prefix of a newest-first list is no newer than anything the prefix keeps. */
  lemma SliceKeepsNewest(sorted: seq<Break>, len: nat, y: Break)
    requires NonIncreasing(sorted) && len <= |sorted|
    requires y in sorted && y !in sorted[..len]
    ensures forall x :: x in sorted[..len] ==> x.created_at >= y.created_at
  {
    var j :| 0 <= j < |sorted| && sorted[j] == y;
    assert forall p :: 0 <= p < len ==> sorted[..len][p] in sorted[..len];
    forall x | x in sorted[..len]
      ensures x.created_at >= y.created_at
    {
      var i :| 0 <= i < len && sorted[..len][i] == x;
    }
  }

  /** The facts behind `Reconciler.RecentBreaks`, over the store's contents. */
  lemma RecentBreaksFacts(order: seq<string>, m: map<string, Break>, all: seq<Break>, sorted: seq<Break>, limit: int)
    requires Distinct(order) && (forall k :: k in order <==> k in m)
    requires forall k :: k in m ==> m[k].break_id == k
    requires all == Values(order, m)
    requires NonIncreasing(sorted) && multiset(sorted) == multiset(all)
    ensures |sorted| == |m|
    ensures forall b :: b in sorted ==> b.break_id in m && m[b.break_id] == b
    ensures forall k :: k in m ==> m[k] in sorted
    ensures forall k :: k in m && m[k] !in sorted[..SliceLen(limit, |sorted|)] ==>
      forall x :: x in sorted[..SliceLen(limit, |sorted|)] ==> x.created_at >= m[k].created_at
  {
    DistinctCard(order);
    assert (set k | k in order) == m.Keys;
    assert |multiset(sorted)| == |sorted| && |multiset(all)| == |all|;
    forall b | b in sorted
      ensures b.break_id in m && m[b.break_id] == b
    {
      assert b in multiset(all);
      var i :| 0 <= i < |all| && all[i] == b;
    }
    forall k | k in m
      ensures m[k] in sorted
    {
      var i :| 0 <= i < |order| && order[i] == k;
      assert all[i] in multiset(sorted);
    }
    var len := SliceLen(limit, |sorted|);
    forall k | k in m && m[k] !in sorted[..len]
      ensures forall x :: x in sorted[..len] ==> x.created_at >= m[k].created_at
    {
      SliceKeepsNewest(sorted, len, m[k]);
    }
  }
}
