/**
 * The rule evaluator (backend/app/rules.py): given a trade and, if one has
 * arrived, its confirmation, produce the list of breaks.
 *
 * The wall clock, the stopwatch and the text formatting of the source are
 * inputs here (see `Env`).
 */
module Rules {
  import opened Wrappers
  import opened Models

  /** Price tolerance: a relative deviation above 0.5% is a break. */
  const PriceTol: real := 0.005
  /** Confirmation SLA, in minutes. */
  const SlaConfirmMin: int := 180
  /** Floor of the price-deviation divisor, so that a zero trade price never divides by zero. */
  const PriceFloor: real := 0.000000001
  /** A price deviation at or above 2% is High rather than Medium. */
  const HighPriceDeviation: real := 0.02
  /** A break whose detection took longer than this many milliseconds is escalated to High. */
  const EscalationMs: real := 250.0

  /**
   * What `evaluate` reads from its surroundings: the evaluation time `now`,
   * the stopwatch reading `elapsed(t)` taken when the break of category `t`
   * is built (its `detected_ms`), and the formatted detail text of that break.
   */
  datatype Env = Env(now: int, elapsed: BreakType -> real, detail: BreakType -> string)

  /** The category part of a break identifier. */
  function Suffix(t: BreakType): (s: string)
    ensures |s| > 0 && '-' !in s
  {
    match t
    case MissingConfirm => "MISSING"
    case QuantityMismatch => "QTY"
    case PriceMismatch => "PRICE"
    case SettleDateMismatch => "SETTLE"
    case AccountMismatch => "ACCOUNT"
    case LateConfirm => "LATE"
  }

  /** The break identifier: a composite key of trade id and category, the idempotence key of the store. */
  function BreakId(tradeId: string, t: BreakType): (id: string)
    ensures |id| > 5 + |tradeId| && id[..4] == "BRK-" && id[4..4 + |tradeId|] == tradeId && id[4 + |tradeId|] == '-'
  {
    "BRK-" + tradeId + "-" + Suffix(t)
  }

  /** Position of a category in the fixed rule order. */
  function Rank(t: BreakType): nat
  {
    match t
    case MissingConfirm => 0
    case QuantityMismatch => 1
    case PriceMismatch => 2
    case SettleDateMismatch => 3
    case AccountMismatch => 4
    case LateConfirm => 5
  }

  function Abs(x: real): real { if x < 0.0 then -x else x }

  function Max(a: real, b: real): real { if a < b then b else a }

  /** A span of whole seconds, in minutes. */
  function Minutes(seconds: int): real { seconds as real / 60.0 }

  /** The divisor of the price deviation; never zero, whatever the trade price. */
  function PriceDivisor(trade: Trade): (d: real)
    ensures d >= PriceFloor && d >= trade.price
  {
    Max(trade.price, PriceFloor)
  }

  /** Relative deviation of the confirmed price from the traded price. */
  function PriceDeviation(trade: Trade, confirm: Confirm): real
  {
    Abs(trade.price - confirm.price) / PriceDivisor(trade)
  }

  /** Whether the rule for category `t` fires. Without a confirmation only MissingConfirm can. */
  predicate Applies(trade: Trade, confirm: Option<Confirm>, now: int, t: BreakType)
  {
    match confirm
    case None => t == MissingConfirm && Minutes(now - trade.exec_time) >= SlaConfirmMin as real
    case Some(c) =>
      match t
      case MissingConfirm => false
      case QuantityMismatch => trade.qty != c.qty
      case PriceMismatch => PriceDeviation(trade, c) > PriceTol
      case SettleDateMismatch => trade.settle_date != c.settle_date
      case AccountMismatch => trade.account != c.account
      case LateConfirm => Minutes(c.confirm_time - trade.exec_time) > SlaConfirmMin as real
  }

  /** The severity a rule assigns, before the latency post-pass. */
  function RuleSeverity(trade: Trade, confirm: Option<Confirm>, t: BreakType): Severity
  {
    match t
    case MissingConfirm => High
    case QuantityMismatch => High
    case PriceMismatch =>
      if confirm.Some? && PriceDeviation(trade, confirm.value) < HighPriceDeviation then Medium else High
    case SettleDateMismatch => Medium
    case AccountMismatch => High
    case LateConfirm =>
      if confirm.Some? && Minutes(confirm.value.confirm_time - trade.exec_time) < SlaConfirmMin as real * 1.5
      then Low else Medium
  }

  /** The break a rule appends, with the rule's own severity. */
  function Raised(trade: Trade, confirm: Option<Confirm>, env: Env, t: BreakType): Break
  {
    Break(BreakId(trade.trade_id, t), trade.trade_id, t, RuleSeverity(trade, confirm, t),
          env.detail(t), env.elapsed(t), env.now, trade.notional)
  }

  /** The rule for `t` fires. */
  function Fires(trade: Trade, confirm: Option<Confirm>, env: Env): BreakType -> bool
  {
    t => Applies(trade, confirm, env.now, t)
  }

  /** The rule for `t` builds its break. */
  function Maker(trade: Trade, confirm: Option<Confirm>, env: Env): BreakType -> Break
  {
    t => Raised(trade, confirm, env, t)
  }

  /** One rule's contribution: `make(t)` if `fires(t)`, nothing otherwise. */
  function Piece(t: BreakType, fires: BreakType -> bool, make: BreakType -> Break): seq<Break>
  {
    if fires(t) then [make(t)] else []
  }

  /** The breaks appended for the categories of `order`, one rule after the other. */
  function Collect(order: seq<BreakType>, fires: BreakType -> bool, make: BreakType -> Break): seq<Break>
  {
    if order == [] then [] else Piece(order[0], fires, make) + Collect(order[1..], fires, make)
  }

  /** The rules' output for the categories in `order`, before the post-pass. */
  function Fired(trade: Trade, confirm: Option<Confirm>, env: Env, order: seq<BreakType>): seq<Break>
  {
    Collect(order, Fires(trade, confirm, env), Maker(trade, confirm, env))
  }

  /** The categories checked when a confirmation is present, in evaluation order. */
  const ConfirmRules: seq<BreakType> :=
    [QuantityMismatch, PriceMismatch, SettleDateMismatch, AccountMismatch, LateConfirm]

  /** Latency escalation of one break. */
  function Escalated(b: Break): Break
  {
    if b.detected_ms > EscalationMs then b.(severity := High) else b
  }

  /** The post-pass: every break escalated in place, order kept. */
  function PostPass(s: seq<Break>): seq<Break>
  {
    seq(|s|, i requires 0 <= i < |s| => Escalated(s[i]))
  }

  /**
   * Reference definition of `evaluate`: without a confirmation only the
   * MissingConfirm rule runs and the post-pass is skipped (the source returns
   * early); with one, the five comparison rules run in order, then the post-pass.
   */
  function Breaks(trade: Trade, confirm: Option<Confirm>, env: Env): seq<Break>
  {
    match confirm
    case None => Fired(trade, confirm, env, [MissingConfirm])
    case Some(_) => PostPass(Fired(trade, confirm, env, ConfirmRules))
  }

  /** Concatenation regrouped, with a trailing empty sequence dropped. */
  lemma ConcatNested<T>(a: seq<T>, b: seq<T>, c: seq<T>, d: seq<T>, e: seq<T>)
    ensures a + (b + (c + (d + (e + [])))) == a + b + c + d + e
  {
    assert e + [] == e;
    assert a + b + c == a + (b + c);
    assert a + b + c + d == a + (b + (c + d));
  }

  /** Collecting over five categories is their five pieces, one after the other. */
  lemma CollectFive(fires: BreakType -> bool, make: BreakType -> Break, q: BreakType, p: BreakType, d: BreakType, ac: BreakType, l: BreakType)
    ensures Collect([q, p, d, ac, l], fires, make)
         == Piece(q, fires, make) + Piece(p, fires, make) + Piece(d, fires, make) + Piece(ac, fires, make) + Piece(l, fires, make)
  {
    assert [q, p, d, ac, l][1..] == [p, d, ac, l];
    assert [p, d, ac, l][1..] == [d, ac, l];
    assert [d, ac, l][1..] == [ac, l];
    assert [ac, l][1..] == [l];
    assert [l][1..] == [];
    var rq, rp, rd, ra, rl := Piece(q, fires, make), Piece(p, fires, make), Piece(d, fires, make), Piece(ac, fires, make), Piece(l, fires, make);
    calc {
      Collect([q, p, d, ac, l], fires, make);
      rq + Collect([p, d, ac, l], fires, make);
      rq + (rp + Collect([d, ac, l], fires, make));
      rq + (rp + (rd + Collect([ac, l], fires, make)));
      rq + (rp + (rd + (ra + Collect([l], fires, make))));
      rq + (rp + (rd + (ra + (rl + []))));
      { ConcatNested(rq, rp, rd, ra, rl); }
      rq + rp + rd + ra + rl;
    }
  }

  /** Collecting over one category is its piece. */
  lemma CollectOne(fires: BreakType -> bool, make: BreakType -> Break, t: BreakType)
    ensures Collect([t], fires, make) == Piece(t, fires, make)
  {
    assert [t][1..] == [];
    assert Piece(t, fires, make) + [] == Piece(t, fires, make);
  }

  /**
   * `evaluate`: build the list by conditional appends, rule by rule, then
   * escalate in place every break whose detection took longer than 250 ms.
   */
  method Evaluate(trade: Trade, confirm: Option<Confirm>, env: Env) returns (brks: seq<Break>)
    ensures brks == Breaks(trade, confirm, env)
  {
    brks := [];
    var now := env.now;
    var notional := trade.notional;
    if confirm.None? {
      var ageMin := Minutes(now - trade.exec_time);
      if ageMin >= SlaConfirmMin as real {
        brks := brks + [Break(BreakId(trade.trade_id, MissingConfirm), trade.trade_id, MissingConfirm, High,
                              env.detail(MissingConfirm), env.elapsed(MissingConfirm), now, notional)];
      }
      CollectOne(Fires(trade, confirm, env), Maker(trade, confirm, env), MissingConfirm);
      return;
    }
    brks := CompareRules(trade, confirm.value, env);
    brks := EscalateSlow(brks);
  }

  /**
   * The five comparison rules of `evaluate`, in order; each contributes its
   * break to the list when its condition holds.
   */
  method CompareRules(trade: Trade, c: Confirm, env: Env) returns (brks: seq<Break>)
    ensures brks == Fired(trade, Some(c), env, ConfirmRules)
  {
    ghost var fires, make := Fires(trade, Some(c), env), Maker(trade, Some(c), env);
    var now := env.now;
    var notional := trade.notional;
    brks := [];

    var qty: seq<Break> := [];
    if trade.qty != c.qty {
      qty := [Break(BreakId(trade.trade_id, QuantityMismatch), trade.trade_id, QuantityMismatch, High,
                    env.detail(QuantityMismatch), env.elapsed(QuantityMismatch), now, notional)];
    }
    assert qty == Piece(QuantityMismatch, fires, make);
    brks := brks + qty;

    var price: seq<Break> := [];
    var priceDev := Abs(trade.price - c.price) / Max(trade.price, PriceFloor);
    if priceDev > PriceTol {
      var sev := if priceDev < HighPriceDeviation then Medium else High;
      price := [Break(BreakId(trade.trade_id, PriceMismatch), trade.trade_id, PriceMismatch, sev,
                      env.detail(PriceMismatch), env.elapsed(PriceMismatch), now, notional)];
    }
    assert price == Piece(PriceMismatch, fires, make);
    brks := brks + price;

    var settle: seq<Break> := [];
    if trade.settle_date != c.settle_date {
      settle := [Break(BreakId(trade.trade_id, SettleDateMismatch), trade.trade_id, SettleDateMismatch, Medium,
                       env.detail(SettleDateMismatch), env.elapsed(SettleDateMismatch), now, notional)];
    }
    assert settle == Piece(SettleDateMismatch, fires, make);
    brks := brks + settle;

    var account: seq<Break> := [];
    if trade.account != c.account {
      account := [Break(BreakId(trade.trade_id, AccountMismatch), trade.trade_id, AccountMismatch, High,
                        env.detail(AccountMismatch), env.elapsed(AccountMismatch), now, notional)];
    }
    assert account == Piece(AccountMismatch, fires, make);
    brks := brks + account;

    var late: seq<Break> := [];
    var lateMin := Minutes(c.confirm_time - trade.exec_time);
    if lateMin > SlaConfirmMin as real {
      var sev := if lateMin < SlaConfirmMin as real * 1.5 then Low else Medium;
      late := [Break(BreakId(trade.trade_id, LateConfirm), trade.trade_id, LateConfirm, sev,
                     env.detail(LateConfirm), env.elapsed(LateConfirm), now, notional)];
    }
    assert late == Piece(LateConfirm, fires, make);
    brks := brks + late;

    assert [] + qty == qty;
    CollectFive(fires, make, QuantityMismatch, PriceMismatch, SettleDateMismatch, AccountMismatch, LateConfirm);
  }

  /** The post-pass loop: escalate, in place, every break detected in more than 250 ms. */
  method EscalateSlow(raw: seq<Break>) returns (brks: seq<Break>)
    ensures brks == PostPass(raw)
  {
    brks := raw;
    var i := 0;
    while i < |brks|
      invariant 0 <= i <= |brks| == |raw|
      invariant forall j :: 0 <= j < i ==> brks[j] == Escalated(raw[j])
      invariant forall j :: i <= j < |brks| ==> brks[j] == raw[j]
    {
      if brks[i].detected_ms > EscalationMs {
        brks := brks[i := brks[i].(severity := High)];
      }
      i := i + 1;
    }
  }

  // ---------------------------------------------------------------------------
  // Properties of the rule evaluator

  /** Some break of `r` has category `t`. */
  predicate Has(r: seq<Break>, t: BreakType)
  {
    exists i :: 0 <= i < |r| && r[i].break_type == t
  }

  /** Categories in strictly increasing rule order: each at most once, in evaluation order. */
  predicate InRuleOrder(r: seq<Break>)
  {
    forall i, j :: 0 <= i < j < |r| ==> Rank(r[i].break_type) < Rank(r[j].break_type)
  }

  /**
   * Every collected break is `make(t)` for a category `t` of `order` whose rule
   * fires, and every such category is represented.
   */
  lemma {:induction false} CollectFacts(order: seq<BreakType>, fires: BreakType -> bool, make: BreakType -> Break)
    requires forall t :: make(t).break_type == t
    ensures forall i :: 0 <= i < |Collect(order, fires, make)| ==>
      var b := Collect(order, fires, make)[i];
      b == make(b.break_type) && b.break_type in order && fires(b.break_type)
    ensures forall t :: t in order && fires(t) ==> Has(Collect(order, fires, make), t)
  {
    if order != [] {
      CollectFacts(order[1..], fires, make);
      var head := Piece(order[0], fires, make);
      var tail := Collect(order[1..], fires, make);
      var r := Collect(order, fires, make);
      assert r == head + tail;
      forall t | t in order && fires(t)
        ensures Has(r, t)
      {
        if t == order[0] {
          assert r[0].break_type == t;
        } else {
          assert t in order[1..];
          var k :| 0 <= k < |tail| && tail[k].break_type == t;
          assert r[|head| + k] == tail[k];
        }
      }
      forall i | 0 <= i < |r|
        ensures r[i] == make(r[i].break_type) && r[i].break_type in order && fires(r[i].break_type)
      {
        if i >= |head| {
          assert r[i] == tail[i - |head|];
        }
      }
    }
  }

  /** Categories visited in strictly increasing rank give breaks in strictly increasing rank. */
  lemma {:induction false} CollectInRuleOrder(order: seq<BreakType>, fires: BreakType -> bool, make: BreakType -> Break)
    requires forall t :: make(t).break_type == t
    requires forall i, j :: 0 <= i < j < |order| ==> Rank(order[i]) < Rank(order[j])
    ensures InRuleOrder(Collect(order, fires, make))
  {
    if order != [] {
      CollectInRuleOrder(order[1..], fires, make);
      CollectFacts(order[1..], fires, make);
      var head := Piece(order[0], fires, make);
      var tail := Collect(order[1..], fires, make);
      var r := Collect(order, fires, make);
      assert r == head + tail;
      forall i, j | 0 <= i < j < |r|
        ensures Rank(r[i].break_type) < Rank(r[j].break_type)
      {
        if i < |head| {
          assert r[j] == tail[j - |head|];
          var k :| 0 <= k < |order[1..]| && order[1..][k] == tail[j - |head|].break_type;
          assert order[1..][k] == order[k + 1];
        } else {
          assert r[i] == tail[i - |head|] && r[j] == tail[j - |head|];
        }
      }
    }
  }

  /** Every raised break carries the category it was raised for. */
  lemma MakerKeepsCategory(trade: Trade, confirm: Option<Confirm>, env: Env)
    ensures forall t :: Maker(trade, confirm, env)(t).break_type == t
  {
  }

  /** The comparison rules cover every category but MissingConfirm. */
  lemma ConfirmRulesCover(t: BreakType)
    ensures t in ConfirmRules <==> t != MissingConfirm
  {
    match t {
      case MissingConfirm =>
      case QuantityMismatch => assert ConfirmRules[0] == t;
      case PriceMismatch => assert ConfirmRules[1] == t;
      case SettleDateMismatch => assert ConfirmRules[2] == t;
      case AccountMismatch => assert ConfirmRules[3] == t;
      case LateConfirm => assert ConfirmRules[4] == t;
    }
  }

  /** The post-pass keeps the list's length and each break's category. */
  lemma PostPassKeepsCategories(s: seq<Break>)
    ensures |PostPass(s)| == |s|
    ensures forall i :: 0 <= i < |s| ==> PostPass(s)[i].break_type == s[i].break_type
    ensures forall t :: Has(PostPass(s), t) <==> Has(s, t)
  {
    var r := PostPass(s);
    forall t ensures Has(r, t) <==> Has(s, t)
    {
      if Has(s, t) {
        var i :| 0 <= i < |s| && s[i].break_type == t;
        assert r[i].break_type == t;
      }
      if Has(r, t) {
        var i :| 0 <= i < |r| && r[i].break_type == t;
        assert s[i].break_type == t;
      }
    }
  }

  /** With a confirmation present, a comparison rule's break is present exactly when the rule fires, escalated by latency. */
  lemma ConfirmedRule(trade: Trade, c: Confirm, env: Env, t: BreakType)
    requires t != MissingConfirm
    ensures Has(Breaks(trade, Some(c), env), t) <==> Applies(trade, Some(c), env.now, t)
    ensures forall b :: b in Breaks(trade, Some(c), env) && b.break_type == t ==>
      b == Escalated(Raised(trade, Some(c), env, t))
  {
    var fires, make := Fires(trade, Some(c), env), Maker(trade, Some(c), env);
    var f := Collect(ConfirmRules, fires, make);
    ConfirmedPresence(trade, c, env, t, f);
    ConfirmedShape(trade, c, env, t, f);
  }

  /** Presence half of `ConfirmedRule`, over the rules' output `f` before the post-pass. */
  lemma ConfirmedPresence(trade: Trade, c: Confirm, env: Env, t: BreakType, f: seq<Break>)
    requires t != MissingConfirm
    requires f == Collect(ConfirmRules, Fires(trade, Some(c), env), Maker(trade, Some(c), env))
    ensures Has(PostPass(f), t) <==> Applies(trade, Some(c), env.now, t)
  {
    var fires, make := Fires(trade, Some(c), env), Maker(trade, Some(c), env);
    MakerKeepsCategory(trade, Some(c), env);
    CollectFacts(ConfirmRules, fires, make);
    ConfirmRulesCover(t);
    PostPassKeepsCategories(f);
    assert fires(t) == Applies(trade, Some(c), env.now, t);
  }

  /** Shape half of `ConfirmedRule`, over the rules' output `f` before the post-pass. */
  lemma ConfirmedShape(trade: Trade, c: Confirm, env: Env, t: BreakType, f: seq<Break>)
    requires f == Collect(ConfirmRules, Fires(trade, Some(c), env), Maker(trade, Some(c), env))
    ensures forall b :: b in PostPass(f) && b.break_type == t ==> b == Escalated(Raised(trade, Some(c), env, t))
  {
    var make := Maker(trade, Some(c), env);
    MakerKeepsCategory(trade, Some(c), env);
    CollectFacts(ConfirmRules, Fires(trade, Some(c), env), make);
    PostPassKeepsCategories(f);
    var r := PostPass(f);
    forall b | b in r && b.break_type == t
      ensures b == Escalated(Raised(trade, Some(c), env, t))
    {
      var i :| 0 <= i < |r| && r[i] == b;
      assert f[i].break_type == t;
      assert f[i] == make(t);
    }
  }

  /** Without a confirmation: nothing inside the 180-minute SLA, exactly one High MissingConfirm break from then on. */
  lemma MissingConfirmRule(trade: Trade, env: Env)
    ensures Minutes(env.now - trade.exec_time) < 180.0 ==> Breaks(trade, None, env) == []
    ensures Minutes(env.now - trade.exec_time) >= 180.0 ==>
      Breaks(trade, None, env) == [Break(BreakId(trade.trade_id, MissingConfirm), trade.trade_id, MissingConfirm, High,
                                         env.detail(MissingConfirm), env.elapsed(MissingConfirm), env.now, trade.notional)]
    ensures BreakId(trade.trade_id, MissingConfirm) == "BRK-" + trade.trade_id + "-MISSING"
  {
    CollectOne(Fires(trade, None, env), Maker(trade, None, env), MissingConfirm);
  }

  /** With a confirmation: never MissingConfirm, and each category at most once, in rule order. */
  lemma ConfirmedInRuleOrder(trade: Trade, c: Confirm, env: Env)
    ensures InRuleOrder(Breaks(trade, Some(c), env))
    ensures !Has(Breaks(trade, Some(c), env), MissingConfirm)
  {
    var fires, make := Fires(trade, Some(c), env), Maker(trade, Some(c), env);
    var f := Collect(ConfirmRules, fires, make);
    var r := PostPass(f);
    assert r == Breaks(trade, Some(c), env);
    MakerKeepsCategory(trade, Some(c), env);
    CollectInRuleOrder(ConfirmRules, fires, make);
    CollectFacts(ConfirmRules, fires, make);
    ConfirmRulesCover(MissingConfirm);
    PostPassKeepsCategories(f);
    assert forall i :: 0 <= i < |f| ==> f[i].break_type != MissingConfirm;
  }

  /** QuantityMismatch: present iff the quantities differ; always High. */
  lemma QuantityRule(trade: Trade, c: Confirm, env: Env)
    ensures Has(Breaks(trade, Some(c), env), QuantityMismatch) <==> trade.qty != c.qty
    ensures forall b :: b in Breaks(trade, Some(c), env) && b.break_type == QuantityMismatch ==> b.severity == High
  {
    ConfirmedRule(trade, c, env, QuantityMismatch);
  }

  /**
   * PriceMismatch: present iff the relative deviation exceeds 0.5%; Medium
   * under 2%, High from 2% on, High in any case after a slow detection.
   */
  lemma PriceRule(trade: Trade, c: Confirm, env: Env)
    ensures Has(Breaks(trade, Some(c), env), PriceMismatch) <==>
      Abs(trade.price - c.price) / Max(trade.price, 0.000000001) > 0.005
    ensures forall b :: b in Breaks(trade, Some(c), env) && b.break_type == PriceMismatch ==>
      b.severity == (if env.elapsed(PriceMismatch) > 250.0 then High
                     else if PriceDeviation(trade, c) < 0.02 then Medium else High)
  {
    ConfirmedRule(trade, c, env, PriceMismatch);
  }

  /** SettleDateMismatch: present iff the settle dates differ; Medium unless detected slowly. */
  lemma SettleDateRule(trade: Trade, c: Confirm, env: Env)
    ensures Has(Breaks(trade, Some(c), env), SettleDateMismatch) <==> trade.settle_date != c.settle_date
    ensures forall b :: b in Breaks(trade, Some(c), env) && b.break_type == SettleDateMismatch ==>
      b.severity == (if env.elapsed(SettleDateMismatch) > 250.0 then High else Medium)
  {
    ConfirmedRule(trade, c, env, SettleDateMismatch);
  }

  /** AccountMismatch: present iff the accounts differ; always High. */
  lemma AccountRule(trade: Trade, c: Confirm, env: Env)
    ensures Has(Breaks(trade, Some(c), env), AccountMismatch) <==> trade.account != c.account
    ensures forall b :: b in Breaks(trade, Some(c), env) && b.break_type == AccountMismatch ==> b.severity == High
  {
    ConfirmedRule(trade, c, env, AccountMismatch);
  }

  /**
   * LateConfirm: present iff the confirmation came more than 180 minutes
   * after execution; Low under 270 minutes (1.5 x SLA), Medium from then on,
   * High after a slow detection.
   */
  lemma LateConfirmRule(trade: Trade, c: Confirm, env: Env)
    ensures Has(Breaks(trade, Some(c), env), LateConfirm) <==> Minutes(c.confirm_time - trade.exec_time) > 180.0
    ensures forall b :: b in Breaks(trade, Some(c), env) && b.break_type == LateConfirm ==>
      b.severity == (if env.elapsed(LateConfirm) > 250.0 then High
                     else if Minutes(c.confirm_time - trade.exec_time) < 270.0 then Low else Medium)
  {
    ConfirmedRule(trade, c, env, LateConfirm);
  }

  /** The evaluator's breaks, before the post-pass, are the raised breaks of their categories. */
  lemma FiredAreRaised(trade: Trade, confirm: Option<Confirm>, env: Env, order: seq<BreakType>)
    ensures forall b :: b in Fired(trade, confirm, env, order) ==> b == Raised(trade, confirm, env, b.break_type)
  {
    MakerKeepsCategory(trade, confirm, env);
    CollectFacts(order, Fires(trade, confirm, env), Maker(trade, confirm, env));
  }

  /** After the post-pass a break detected in over 250 ms is High; every other keeps its rule's severity. */
  lemma LatencyEscalation(trade: Trade, confirm: Option<Confirm>, env: Env)
    ensures forall b :: b in Breaks(trade, confirm, env) ==>
      b.severity == (if b.detected_ms > 250.0 then High else RuleSeverity(trade, confirm, b.break_type))
  {
    var order := if confirm.None? then [MissingConfirm] else ConfirmRules;
    var f := Fired(trade, confirm, env, order);
    FiredAreRaised(trade, confirm, env, order);
    if confirm.Some? {
      PostPassSeverity(f, trade, confirm, env);
    } else {
      CollectOne(Fires(trade, confirm, env), Maker(trade, confirm, env), MissingConfirm);
    }
  }

  /** The post-pass over raised breaks: High when slow, the rule's severity otherwise. */
  lemma PostPassSeverity(f: seq<Break>, trade: Trade, confirm: Option<Confirm>, env: Env)
    requires forall b :: b in f ==> b == Raised(trade, confirm, env, b.break_type)
    ensures forall b :: b in PostPass(f) ==>
      b.severity == (if b.detected_ms > 250.0 then High else RuleSeverity(trade, confirm, b.break_type))
  {
    var r := PostPass(f);
    forall b | b in r
      ensures b.severity == (if b.detected_ms > 250.0 then High else RuleSeverity(trade, confirm, b.break_type))
    {
      var i :| 0 <= i < |r| && r[i] == b;
      assert f[i] in f;
      assert b == Escalated(f[i]);
    }
  }

  /**
   * Every break of one evaluation names the trade, carries its notional, the
   * evaluation time, the default turnover drag, the stopwatch reading of its
   * rule and the identifier derived from trade id and category; identifiers
   * within one result are pairwise distinct.
   */
  lemma BreakFields(trade: Trade, confirm: Option<Confirm>, env: Env)
    ensures forall b :: b in Breaks(trade, confirm, env) ==>
      && b.trade_id == trade.trade_id
      && b.notional_usd == trade.notional
      && b.created_at == env.now
      && b.est_turnover_drag_bp == 0.5
      && b.detected_ms == env.elapsed(b.break_type)
      && b.break_id == BreakId(trade.trade_id, b.break_type)
    ensures forall i, j :: 0 <= i < j < |Breaks(trade, confirm, env)| ==>
      Breaks(trade, confirm, env)[i].break_id != Breaks(trade, confirm, env)[j].break_id
  {
    var order := if confirm.None? then [MissingConfirm] else ConfirmRules;
    var f := Fired(trade, confirm, env, order);
    var r := Breaks(trade, confirm, env);
    FiredAreRaised(trade, confirm, env, order);
    forall b | b in r
      ensures b.trade_id == trade.trade_id && b.notional_usd == trade.notional && b.created_at == env.now
           && b.est_turnover_drag_bp == 0.5 && b.detected_ms == env.elapsed(b.break_type)
           && b.break_id == BreakId(trade.trade_id, b.break_type)
    {
      var i :| 0 <= i < |r| && r[i] == b;
      assert f[i] in f;
    }
    if confirm.Some? {
      ConfirmedInRuleOrder(trade, confirm.value, env);
    } else {
      CollectOne(Fires(trade, confirm, env), Maker(trade, confirm, env), MissingConfirm);
    }
    forall i, j | 0 <= i < j < |r|
      ensures r[i].break_id != r[j].break_id
    {
      assert r[i] in r && r[j] in r;
      if r[i].break_id == r[j].break_id {
        BreakIdInjective(trade.trade_id, trade.trade_id, r[i].break_type, r[j].break_type);
      }
    }
  }

  /**
   * The break identifier is injective: two identifiers are equal only for the
   * same trade id and the same category. Re-detecting a condition hits the
   * same store key; a different trade or category never collides with it.
   */
  lemma BreakIdInjective(a: string, b: string, x: BreakType, y: BreakType)
    requires BreakId(a, x) == BreakId(b, y)
    ensures a == b && x == y
  {
    var s := BreakId(a, x);
    var sx, sy := Suffix(x), Suffix(y);
    assert s == "BRK-" + a + "-" + sx;
    assert s == "BRK-" + b + "-" + sy;
    DashFreeTail(s, sx);
    DashFreeTail(s, sy);
    assert s[|s| - |sx| - 1] == '-' && s[|s| - |sy| - 1] == '-';
    assert |sx| == |sy|;
    assert a == s[4..4 + |a|];
    assert b == s[4..4 + |b|];
    assert sx == s[|s| - |sx|..] == sy;
  }

  /** The last |t| characters of `s`, when they spell a dash-free `t`, hold no dash. */
  lemma DashFreeTail(s: string, t: string)
    requires |t| <= |s| && s[|s| - |t|..] == t && '-' !in t
    ensures forall k :: |s| - |t| <= k < |s| ==> s[k] != '-'
  {
    forall k | |s| - |t| <= k < |s|
      ensures s[k] != '-'
    {
      assert s[k] == t[k - (|s| - |t|)];
    }
  }

  /** A trade and a confirmation that agree on every checked field, confirmed within SLA, give no breaks. */
  lemma CleanPairNoBreaks(trade: Trade, c: Confirm, env: Env)
    requires trade.qty == c.qty && trade.price == c.price
    requires trade.settle_date == c.settle_date && trade.account == c.account
    requires Minutes(c.confirm_time - trade.exec_time) <= 180.0
    ensures Breaks(trade, Some(c), env) == []
  {
    var r := Breaks(trade, Some(c), env);
    ConfirmedInRuleOrder(trade, c, env);
    QuantityRule(trade, c, env);
    PriceRule(trade, c, env);
    SettleDateRule(trade, c, env);
    AccountRule(trade, c, env);
    LateConfirmRule(trade, c, env);
    assert forall t :: !Has(r, t);
  }
}
