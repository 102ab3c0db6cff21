/** Mean reversion against a time-decayed average, with doubles as reals. The decay factor
    `exp(-dt / tau)` is an input in (0, 1], and time is a number of clock ticks. */
module Strategies {
  import opened Text
  import opened MarketBook

  datatype OrderSide = Bid | Ask
  datatype Signal = Signal(side: OrderSide, price: int, count: int)

  datatype Config = Config(
    warmup: int, entryEdge: int, maxSpread: int, maxPosition: int, orderSize: int, cooldown: int)

  datatype State = State(ema: Option<real>, first: int, last: int, lastOrder: Option<int>)

  const INITIAL := State(None, 0, 0, None)

  /** One call: the top of the book, the signed exposure, the clock and the decay since the last call. */
  datatype Update = Update(bid: Option<int>, ask: Option<int>, exposure: int, now: int, decay: real)

  predicate Tradable(u: Update) { u.bid.Some? && u.ask.Some? && u.bid.value < u.ask.value }

  function Mid(u: Update): real
    requires Tradable(u)
  {
    (u.bid.value + u.ask.value) as real / 2.0
  }

  /** `ema += (1 - decay) * (mid - ema)`. */
  function Blend(ema: real, mid: real, decay: real): real { ema + Times(1.0 - decay, mid - ema) }

  function Times(x: real, y: real): real { x * y }

  function Averaged(st: State, u: Update): State
    requires Tradable(u)
  {
    if st.ema.None? then st.(ema := Some(Mid(u)), first := u.now, last := u.now)
    else st.(ema := Some(Blend(st.ema.value, Mid(u), u.decay)), last := u.now)
  }

  function Decide(cfg: Config, st: State, u: Update): Option<Signal>
    requires Tradable(u) && st.ema.Some?
  {
    var bid, ask := u.bid.value, u.ask.value;
    if u.now - st.first < cfg.warmup || ask - bid > cfg.maxSpread then None
    else if st.lastOrder.Some? && u.now - st.lastOrder.value < cfg.cooldown then None
    else if ask as real <= st.ema.value - cfg.entryEdge as real && u.exposure + cfg.orderSize <= cfg.maxPosition then
      Some(Signal(Bid, ask, cfg.orderSize))
    else if bid as real >= st.ema.value + cfg.entryEdge as real && u.exposure - cfg.orderSize >= -cfg.maxPosition then
      Some(Signal(Ask, bid, cfg.orderSize))
    else None
  }

  function Next(cfg: Config, st: State, u: Update): (State, Option<Signal>) {
    if !Tradable(u) then (st, None)
    else
      var st' := Averaged(st, u);
      var signal := Decide(cfg, st', u);
      (if signal.Some? then st'.(lastOrder := Some(u.now)) else st', signal)
  }

  class MeanReversionStrategy {
    const config: Config
    var ema: Option<real>
    var first: int
    var last: int
    var lastOrder: Option<int>

    ghost function Current(): State
      reads this
    {
      State(ema, first, last, lastOrder)
    }

    constructor (config: Config)
      ensures Current() == INITIAL && this.config == config
    {
      this.config := config;
      ema, first, last, lastOrder := None, 0, 0, None;
    }

    method OnBookUpdate(book: MarketState, exposure: int, now: int, decay: real) returns (signal: Option<Signal>)
      requires book.Valid()
      modifies this
      ensures (Current(), signal)
           == Next(config, old(Current()), Update(book.BestYesBid(), book.BestYesAsk(), exposure, now, decay))
    {
      hide Next;
      var bid, ask := book.BestYesBid(), book.BestYesAsk();
      signal := OnTopOfBook(bid, ask, exposure, now, decay);
    }

    method OnTopOfBook(bid: Option<int>, ask: Option<int>, exposure: int, now: int, decay: real)
      returns (signal: Option<Signal>)
      modifies this
      ensures (Current(), signal) == Next(config, old(Current()), Update(bid, ask, exposure, now, decay))
    {
      hide Blend;
      if bid.None? || ask.None? || ask.value <= bid.value { return None; }
      var mid := (bid.value + ask.value) as real / 2.0;
      if ema.None? {
        ema, first := Some(mid), now;
      } else {
        ema := Some(Blend(ema.value, mid, decay));
      }
      last := now;
      signal := Choose(bid.value, ask.value, exposure, now, decay);
      if signal.Some? { lastOrder := Some(now); }
    }

    method Choose(bid: int, ask: int, exposure: int, now: int, decay: real) returns (signal: Option<Signal>)
      requires bid < ask && ema.Some?
      ensures signal == Decide(config, Current(), Update(Some(bid), Some(ask), exposure, now, decay))
    {
      if now - first < config.warmup { return None; }
      if ask - bid > config.maxSpread { return None; }
      if lastOrder.Some? && now - lastOrder.value < config.cooldown { return None; }
      if ask as real <= ema.value - config.entryEdge as real && exposure + config.orderSize <= config.maxPosition {
        return Some(Signal(Bid, ask, config.orderSize));
      } else if bid as real >= ema.value + config.entryEdge as real && exposure - config.orderSize >= -config.maxPosition {
        return Some(Signal(Ask, bid, config.orderSize));
      }
      return None;
    }
  }

  // ---- whole runs

  function After(cfg: Config, us: seq<Update>): State {
    if us == [] then INITIAL else Next(cfg, After(cfg, us[..|us| - 1]), us[|us| - 1]).0
  }

  function SignalAt(cfg: Config, us: seq<Update>, i: nat): Option<Signal>
    requires i < |us|
  {
    Next(cfg, After(cfg, us[..i]), us[i]).1
  }

  lemma AfterStep(cfg: Config, us: seq<Update>, i: nat)
    requires i < |us|
    ensures After(cfg, us[..i + 1]) == Next(cfg, After(cfg, us[..i]), us[i]).0
  {
    assert us[..i + 1][..i] == us[..i];
  }

  ghost predicate Monotone(us: seq<Update>) { forall i, j :: 0 <= i <= j < |us| ==> us[i].now <= us[j].now }

  /** The average stays within any bounds on the mids it was fed. */
  lemma {:induction false} AverageStaysInRange(cfg: Config, us: seq<Update>, lo: real, hi: real)
    requires forall i :: 0 <= i < |us| ==> 0.0 < us[i].decay <= 1.0
    requires forall i :: 0 <= i < |us| && Tradable(us[i]) ==> lo <= Mid(us[i]) <= hi
    ensures After(cfg, us).ema.Some? <==> exists i :: 0 <= i < |us| && Tradable(us[i])
    ensures After(cfg, us).ema.Some? ==> lo <= After(cfg, us).ema.value <= hi
  {
    hide Blend;
    if us != [] {
      var n := |us| - 1;
      var init := us[..n];
      AverageStaysInRange(cfg, init, lo, hi);
      assert forall i :: 0 <= i < n ==> init[i] == us[i];
      var ema := After(cfg, init).ema;
      if Tradable(us[n]) && ema.Some? { BlendStaysBetween(ema.value, Mid(us[n]), us[n].decay, lo, hi); }
    }
  }

  lemma BlendStaysBetween(ema: real, mid: real, decay: real, lo: real, hi: real)
    requires 0.0 <= decay <= 1.0 && lo <= ema <= hi && lo <= mid <= hi
    ensures lo <= Blend(ema, mid, decay) <= hi
  {
    hide Times;
    PartOf(1.0 - decay, mid - ema);
  }

  lemma PartOf(alpha: real, x: real)
    requires 0.0 <= alpha <= 1.0
    ensures if x >= 0.0 then 0.0 <= Times(alpha, x) <= x else x <= Times(alpha, x) <= 0.0
  {
    if x < 0.0 { assert alpha * x == -(alpha * -x); }
  }

  /** Each update leaves the fraction `decay` of the distance between the average and the mid. */
  lemma DistanceShrinks(ema: real, mid: real, decay: real)
    ensures Blend(ema, mid, decay) - mid == Times(decay, ema - mid)
  {
    assert (1.0 - decay) * (mid - ema) == (mid - ema) - decay * (mid - ema);
    assert decay * (ema - mid) == -(decay * (mid - ema));
  }

  /** The decay over all updates that moved the average. */
  function TotalDecay(us: seq<Update>): real {
    if us == [] then 1.0
    else
      var before := TotalDecay(us[..|us| - 1]);
      if Tradable(us[|us| - 1]) then Times(us[|us| - 1].decay, before) else before
  }

  /** While the mid stays at `m`, what is left of the first distance to it is the decay over all updates since. */
  lemma {:induction false} AverageApproachesMid(cfg: Config, us: seq<Update>, f: nat, n: nat, m: real)
    requires f < n <= |us| && Tradable(us[f]) && forall k :: 0 <= k < f ==> !Tradable(us[k])
    requires forall k :: f < k < n && Tradable(us[k]) ==> Mid(us[k]) == m
    ensures var ema := After(cfg, us[..n]).ema;
      ema.Some? && ema.value - m == Times(TotalDecay(us[f + 1..n]), Mid(us[f]) - m)
    decreases n
  {
    hide Blend, Times, Decide;
    AfterStep(cfg, us, n - 1);
    if n - 1 == f {
      FirstIsKept(cfg, us, f, f);
      assert us[f + 1..n] == [];
      OneTimes(Mid(us[f]) - m);
    } else {
      AverageApproachesMid(cfg, us, f, n - 1, m);
      var since := us[f + 1..n];
      assert since[..|since| - 1] == us[f + 1..n - 1] && since[|since| - 1] == us[n - 1];
      if Tradable(us[n - 1]) {
        DistanceShrinks(After(cfg, us[..n - 1]).ema.value, m, us[n - 1].decay);
        TimesTwice(us[n - 1].decay, TotalDecay(us[f + 1..n - 1]), Mid(us[f]) - m);
      }
    }
  }

  lemma OneTimes(x: real)
    ensures Times(1.0, x) == x
  {}

  lemma TimesTwice(x: real, y: real, z: real)
    ensures Times(x, Times(y, z)) == Times(Times(x, y), z)
  {}

  /** The time the next decay is counted from is that of the last usable book. */
  lemma {:induction false} LastIsKept(cfg: Config, us: seq<Update>, n: nat, k: nat)
    requires k < n <= |us| && Tradable(us[k]) && forall j :: k < j < n ==> !Tradable(us[j])
    ensures After(cfg, us[..n]).last == us[k].now
    decreases n
  {
    hide Blend, Decide;
    AfterStep(cfg, us, n - 1);
    if n - 1 > k { LastIsKept(cfg, us, n - 1, k); }
  }

  // ---- when an order is placed

  /** The warmup since the first usable book is over, the spread is narrow enough, and no order is too recent. */
  ghost predicate MayTrade(cfg: Config, us: seq<Update>, i: nat)
    requires i < |us|
  {
    && Tradable(us[i]) && us[i].ask.value - us[i].bid.value <= cfg.maxSpread
    && (forall f :: 0 <= f <= i && IsFirst(us, f) ==> us[i].now - us[f].now >= cfg.warmup)
    && (forall j :: 0 <= j < i && SignalAt(cfg, us, j).Some? ==> us[i].now - us[j].now >= cfg.cooldown)
  }

  ghost predicate IsFirst(us: seq<Update>, f: nat) {
    f < |us| && Tradable(us[f]) && forall k :: 0 <= k < f ==> !Tradable(us[k])
  }

  ghost function Average(cfg: Config, us: seq<Update>, i: nat): real
    requires i < |us|
  {
    var ema := After(cfg, us[..i + 1]).ema; if ema.Some? then ema.value else 0.0
  }

  /** The ask is below the average by the edge, and buying stays within the cap. */
  ghost predicate Cheap(cfg: Config, us: seq<Update>, i: nat)
    requires i < |us| && Tradable(us[i])
  {
    (us[i].ask.value + cfg.entryEdge) as real <= Average(cfg, us, i) && us[i].exposure + cfg.orderSize <= cfg.maxPosition
  }

  ghost predicate Dear(cfg: Config, us: seq<Update>, i: nat)
    requires i < |us| && Tradable(us[i])
  {
    (us[i].bid.value - cfg.entryEdge) as real >= Average(cfg, us, i) && us[i].exposure - cfg.orderSize >= -cfg.maxPosition
  }

  /** Over any run: an order is placed exactly if it may be and the book is cheap or dear; it buys at the ask
      or else sells at the bid. */
  lemma TradesExactlyWhen(cfg: Config, us: seq<Update>, i: nat)
    requires Monotone(us) && i < |us|
    ensures SignalAt(cfg, us, i) ==
      if MayTrade(cfg, us, i) && Cheap(cfg, us, i) then Some(Signal(Bid, us[i].ask.value, cfg.orderSize))
      else if MayTrade(cfg, us, i) && Dear(cfg, us, i) then Some(Signal(Ask, us[i].bid.value, cfg.orderSize))
      else None
  {
    hide Blend;
    if Tradable(us[i]) {
      var f := FirstTradable(us, i);
      FirstIsKept(cfg, us, i, f);
      OnlyFirst(us, f);
      AfterStep(cfg, us, i);
      CooldownIsOver(cfg, us, i);
    }
  }

  lemma OnlyFirst(us: seq<Update>, f: nat)
    requires IsFirst(us, f)
    ensures forall g :: IsFirst(us, g) ==> g == f
  {}

  lemma {:induction false} FirstTradable(us: seq<Update>, i: nat) returns (f: nat)
    requires i < |us| && Tradable(us[i])
    ensures f <= i && IsFirst(us, f)
  {
    if k :| 0 <= k < i && Tradable(us[k]) {
      f := FirstTradable(us, k);
    } else {
      f := i;
    }
  }

  /** The last order is old enough exactly if every order is. */
  lemma CooldownIsOver(cfg: Config, us: seq<Update>, i: nat)
    requires Monotone(us) && i < |us|
    ensures var last := After(cfg, us[..i]).lastOrder;
      (last.Some? ==> us[i].now - last.value >= cfg.cooldown)
      <==> forall j :: 0 <= j < i && SignalAt(cfg, us, j).Some? ==> us[i].now - us[j].now >= cfg.cooldown
  {
    hide SignalAt;
    LastOrderIsASignal(cfg, us, i);
    forall j | 0 <= j < i && SignalAt(cfg, us, j).Some?
      ensures var last := After(cfg, us[..i]).lastOrder; last.Some? && us[j].now <= last.value
    {
      LastOrderCoversSignals(cfg, us, j, i);
    }
  }

  lemma {:induction false} LastOrderIsASignal(cfg: Config, us: seq<Update>, n: nat)
    requires n <= |us|
    ensures var t := After(cfg, us[..n]).lastOrder;
      t.Some? ==> exists j :: 0 <= j < n && SignalAt(cfg, us, j).Some? && us[j].now == t.value
  {
    if n > 0 {
      LastOrderIsASignal(cfg, us, n - 1);
      AfterStep(cfg, us, n - 1);
      if SignalAt(cfg, us, n - 1).Some? { assert us[n - 1].now == us[n - 1].now; }
    }
  }

  /** No signal before the warmup has passed since the first usable book, and none breaches the cap. */
  lemma {:induction false} NoSignalBeforeWarmup(cfg: Config, us: seq<Update>, i: nat, f: nat)
    requires f <= i < |us| && SignalAt(cfg, us, i).Some?
    requires Tradable(us[f]) && forall k :: 0 <= k < f ==> !Tradable(us[k])
    ensures us[i].now - us[f].now >= cfg.warmup
    ensures var s := SignalAt(cfg, us, i).value;
      && s.count == cfg.orderSize
      && (s.side == Bid ==> Some(s.price) == us[i].ask && us[i].exposure + s.count <= cfg.maxPosition)
      && (s.side == Ask ==> Some(s.price) == us[i].bid && us[i].exposure - s.count >= -cfg.maxPosition)
  {
    FirstIsKept(cfg, us, i, f);
  }

  lemma {:induction false} FirstIsKept(cfg: Config, us: seq<Update>, i: nat, f: nat)
    requires f <= i <= |us| && f < |us| && Tradable(us[f]) && forall k :: 0 <= k < f ==> !Tradable(us[k])
    ensures var st := After(cfg, us[..i]); if i > f then st.ema.Some? && st.first == us[f].now else st == INITIAL
    decreases i
  {
    if i > 0 {
      AfterStep(cfg, us, i - 1);
      if i - 1 >= f { FirstIsKept(cfg, us, i - 1, f); } else { NothingYet(cfg, us, i); }
    }
  }

  lemma {:induction false} NothingYet(cfg: Config, us: seq<Update>, i: nat)
    requires i <= |us| && forall k :: 0 <= k < i ==> !Tradable(us[k])
    ensures After(cfg, us[..i]) == INITIAL
  {
    if i > 0 {
      NothingYet(cfg, us, i - 1);
      AfterStep(cfg, us, i - 1);
    }
  }

  /** The last order time is at or after every earlier signal. */
  lemma {:induction false} LastOrderCoversSignals(cfg: Config, us: seq<Update>, i: nat, n: nat)
    requires Monotone(us) && i < n <= |us| && SignalAt(cfg, us, i).Some?
    ensures var t := After(cfg, us[..n]).lastOrder; t.Some? && us[i].now <= t.value
    decreases n
  {
    AfterStep(cfg, us, n - 1);
    if n - 1 > i { LastOrderCoversSignals(cfg, us, i, n - 1); }
  }

  lemma SignalsAreApart(cfg: Config, us: seq<Update>, i: nat, j: nat)
    requires Monotone(us) && i < j < |us| && SignalAt(cfg, us, i).Some? && SignalAt(cfg, us, j).Some?
    ensures us[j].now - us[i].now >= cfg.cooldown
  {
    LastOrderCoversSignals(cfg, us, i, j);
  }

  function SignalsWithin(cfg: Config, us: seq<Update>, n: nat, from: int, to: int): nat
    requires n <= |us|
  {
    if n == 0 then 0
    else SignalsWithin(cfg, us, n - 1, from, to)
         + if SignalAt(cfg, us, n - 1).Some? && from <= us[n - 1].now <= to then 1 else 0
  }

  lemma {:induction false} SpacedSignals(cfg: Config, us: seq<Update>, n: nat, from: int, to: int) returns (last: nat)
    requires Monotone(us) && n <= |us| && cfg.cooldown > 0 && SignalsWithin(cfg, us, n, from, to) > 0
    ensures last < n && SignalAt(cfg, us, last).Some? && us[last].now <= to
    ensures us[last].now >= from + (SignalsWithin(cfg, us, n, from, to) - 1) * cfg.cooldown
  {
    hide SignalAt;
    var here := SignalAt(cfg, us, n - 1).Some? && from <= us[n - 1].now <= to;
    if SignalsWithin(cfg, us, n - 1, from, to) == 0 {
      last := n - 1;
    } else {
      last := SpacedSignals(cfg, us, n - 1, from, to);
      if here {
        SignalsAreApart(cfg, us, last, n - 1);
        OneMore(SignalsWithin(cfg, us, n - 1, from, to), cfg.cooldown);
        last := n - 1;
      }
    }
  }

  lemma OneMore(k: int, c: int)
    ensures (k - 1) * c + c == (k + 1 - 1) * c
  {}

  /** A window of length `length` holds at most `length / cooldown + 1` signals. */
  lemma SignalRateIsBounded(cfg: Config, us: seq<Update>, from: int, length: nat)
    requires Monotone(us) && cfg.cooldown > 0
    ensures SignalsWithin(cfg, us, |us|, from, from + length) <= length / cfg.cooldown + 1
  {
    hide SignalAt;
    var count := SignalsWithin(cfg, us, |us|, from, from + length);
    if count > 0 {
      var last := SpacedSignals(cfg, us, |us|, from, from + length);
      QuotientBound(length, cfg.cooldown, count - 1);
    }
  }

  lemma QuotientBound(n: int, d: int, q: int)
    requires d > 0 && q * d <= n
    ensures q <= n / d
  {
    var e := n / d;
    assert n == e * d + n % d;
    if e + 1 <= q { MulOrder(e + 1, q, d); }
  }
}
