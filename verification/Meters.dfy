/** Meters: a token bucket for each rate, the highest rate first. */
module Meters {

  datatype MeterType = BYTES | PACKETS

  datatype ErrorCode = SUCCESS | BAD_RATES_LIST | INVALID_INFO_RATE_VALUE

  /** Rates are in bytes or packets per microsecond. */
  datatype RateConfig = RateConfig(infoRate: real, burstSize: nat)

  datatype MeterRate = MeterRate(valid: bool, infoRate: real, burstSize: nat, tokens: nat, tokensLast: nat, color: nat)

  function Min(x: int, y: int): int { if x <= y then x else y }

  /** The tokens that a rate has made since the clock was started. */
  function Made(infoRate: real, micros: nat): (n: nat)
    requires infoRate >= 0.0
  {
    MadeIsNat(infoRate, micros as real);
    (micros as real * infoRate).Floor
  }

  lemma MadeIsNat(infoRate: real, micros: real)
    requires infoRate >= 0.0 && micros >= 0.0
    ensures micros * infoRate >= 0.0
  {
  }

  lemma MadeMonotonic(infoRate: real, t: nat, u: nat)
    requires infoRate >= 0.0 && t <= u
    ensures Made(infoRate, t) <= Made(infoRate, u)
  {
    ProductMonotonic(infoRate, t as real, u as real);
  }

  lemma ProductMonotonic(r: real, x: real, y: real)
    requires r >= 0.0 && x <= y
    ensures x * r <= y * r
  {
    assert (y - x) * r >= 0.0;
  }

  /** A bucket is not too full. */
  predicate Sane(r: MeterRate) {
    r.infoRate >= 0.0 && r.tokens <= r.burstSize
  }

  predicate AllSane(rates: seq<MeterRate>) {
    forall k | 0 <= k < |rates| :: Sane(rates[k])
  }

  /** The bucket was filled when the rate had made more than it has at time `t`. */
  predicate Ahead(r: MeterRate, t: nat)
    requires Sane(r)
  {
    Made(r.infoRate, t) < r.tokensLast
  }

  predicate RateOk(r: MeterRate, t: nat) {
    Sane(r) && !Ahead(r, t)
  }

  predicate RatesOk(rates: seq<MeterRate>, t: nat) {
    forall k | 0 <= k < |rates| :: RateOk(rates[k], t)
  }

  /** The bucket, filled up at time `t`. */
  function Refilled(r: MeterRate, t: nat): (r': MeterRate)
    requires RateOk(r, t)
    ensures RateOk(r', t)
  {
    r.(tokensLast := Made(r.infoRate, t),
       tokens := Min(r.tokens + (Made(r.infoRate, t) - r.tokensLast), r.burstSize))
  }

  /** What the bucket is worth at time `t`, filled up or not. */
  function Credit(r: MeterRate, t: nat): nat
    requires RateOk(r, t)
  {
    Refilled(r, t).tokens
  }

  /** Filling up in between makes no difference. */
  lemma RefillTwice(r: MeterRate, t: nat, u: nat)
    requires RateOk(r, t) && t <= u
    ensures RateOk(r, u) && RateOk(Refilled(r, t), u) && Refilled(Refilled(r, t), u) == Refilled(r, u)
  {
    MadeMonotonic(r.infoRate, t, u);
  }

  /** The tokens made are whole, and less than one short of the exact number. */
  lemma MadeIsWhole(infoRate: real, micros: nat)
    requires infoRate >= 0.0
    ensures Made(infoRate, micros) as real <= micros as real * infoRate < Made(infoRate, micros) as real + 1.0
  {
    MadeIsNat(infoRate, micros as real);
  }

  /** What the bucket holds counts in full, and time adds all that the rate makes until
      the bucket is full. */
  lemma CreditIs(r: MeterRate, t: nat, u: nat)
    requires RateOk(r, t) && t <= u
    ensures RateOk(r, u)
    ensures Made(r.infoRate, t) == r.tokensLast ==> Credit(r, t) == r.tokens
    ensures Credit(r, u) == Min(Credit(r, t) + Made(r.infoRate, u) - Made(r.infoRate, t), r.burstSize)
  {
    MadeMonotonic(r.infoRate, t, u);
  }

  /** Time adds what the rate makes, and no more. */
  lemma CreditGrows(r: MeterRate, t: nat, u: nat)
    requires RateOk(r, t) && t <= u
    ensures RateOk(r, u)
    ensures Credit(r, t) <= Credit(r, u) <= Credit(r, t) + Made(r.infoRate, u) - Made(r.infoRate, t)
  {
    MadeMonotonic(r.infoRate, t, u);
  }

  lemma CreditAtMost(r: MeterRate, t: nat)
    requires RateOk(r, t)
    ensures Credit(r, t) <= r.burstSize
  {
  }

  // ----- a packet -----

  /** What a packet does to the rates.  The assertion about tokens may fail. */
  datatype Outcome = Outcome(rates: seq<MeterRate>, color: nat) | AssertFails

  /** The rates are charged in turn until one cannot pay; later ones are not looked at. */
  function Executed(rates: seq<MeterRate>, t: nat, input: nat): (o: Outcome)
    requires AllSane(rates)
    ensures o.Outcome? ==> |o.rates| == |rates| && AllSane(o.rates)
    ensures RatesOk(rates, t) ==> o.Outcome? && RatesOk(o.rates, t)
  {
    if rates == [] then Outcome([], 0)
    else if Ahead(rates[0], t) then AssertFails
    else
      var r := Refilled(rates[0], t);
      if r.tokens < input then Outcome([r] + rates[1..], r.color)
      else Append([r.(tokens := r.tokens - input)], Executed(rates[1..], t, input))
  }

  function Append(done: seq<MeterRate>, o: Outcome): Outcome {
    if o.AssertFails? then o else Outcome(done + o.rates, o.color)
  }

  /** Rate `k` is ahead of time `t`, and the loop reaches it: those before it all pay. */
  ghost predicate FailsAt(rates: seq<MeterRate>, t: nat, input: nat, k: nat)
    requires AllSane(rates) && k < |rates|
  {
    && Ahead(rates[k], t)
    && forall i | 0 <= i < k :: !Ahead(rates[i], t) && Credit(rates[i], t) >= input
  }

  /** The clock is read before the lock is taken, so a packet may come with a time before
      that of the last one.  The assertion then fails exactly when the loop reaches a
      rate that is ahead of the packet. */
  lemma {:induction false} FailsIff(rates: seq<MeterRate>, t: nat, input: nat)
    requires AllSane(rates)
    ensures Executed(rates, t, input).AssertFails? <==> exists k | 0 <= k < |rates| :: FailsAt(rates, t, input, k)
  {
    if rates != [] {
      var rest := rates[1..];
      FailsIff(rest, t, input);
      if Ahead(rates[0], t) {
        assert FailsAt(rates, t, input, 0);
      } else if Credit(rates[0], t) >= input {
        forall k | 0 <= k < |rest| ensures FailsAt(rest, t, input, k) <==> FailsAt(rates, t, input, k + 1) {
          FailsAtNext(rates, t, input, k);
        }
        if k :| 0 <= k < |rates| && FailsAt(rates, t, input, k) {
          assert FailsAt(rest, t, input, k - 1);
        }
      }
    }
  }

  lemma FailsAtNext(rates: seq<MeterRate>, t: nat, input: nat, k: nat)
    requires AllSane(rates) && k + 1 < |rates| && !Ahead(rates[0], t) && Credit(rates[0], t) >= input
    ensures FailsAt(rates[1..], t, input, k) <==> FailsAt(rates, t, input, k + 1)
  {
    forall i | 0 <= i < k + 1 ensures i > 0 ==> rates[i] == rates[1..][i - 1] {
    }
    forall i | 0 <= i < k ensures rates[1..][i] == rates[i + 1] {
    }
  }

  /** The first rate that cannot pay, or the number of rates. */
  function Blocked(rates: seq<MeterRate>, t: nat, input: nat): (k: nat)
    requires RatesOk(rates, t)
    ensures k <= |rates| && (k < |rates| ==> Credit(rates[k], t) < input)
    ensures forall i | 0 <= i < k :: Credit(rates[i], t) >= input
  {
    if rates == [] || Credit(rates[0], t) < input then 0 else 1 + Blocked(rates[1..], t, input)
  }

  /** What rate `k` pays for a packet. */
  function Charge(rates: seq<MeterRate>, t: nat, input: nat, k: nat): nat
    requires RatesOk(rates, t) && k < |rates|
  {
    if k < Blocked(rates, t, input) then input else 0
  }

  /** Each rate is worth what it was worth less what it paid, whether it was looked at or
      not: a rate that is skipped loses no credit. */
  lemma {:induction false} ExecutedCredit(rates: seq<MeterRate>, t: nat, input: nat, k: nat)
    requires RatesOk(rates, t) && k < |rates|
    ensures var r := Executed(rates, t, input).rates[k];
            && RateOk(r, t) && Credit(r, t) == Credit(rates[k], t) - Charge(rates, t, input, k)
            && r.infoRate == rates[k].infoRate && r.burstSize == rates[k].burstSize && r.color == rates[k].color
  {
    RefillTwice(rates[0], t, t);
    if k > 0 && Credit(rates[0], t) >= input {
      ExecutedCredit(rates[1..], t, input, k - 1);
      assert rates[1..][k - 1] == rates[k];
    }
  }

  /** The color is that of the first rate that cannot pay, and 0 if all can. */
  lemma {:induction false} ColorIs(rates: seq<MeterRate>, t: nat, input: nat)
    requires RatesOk(rates, t)
    ensures var k := Blocked(rates, t, input);
            Executed(rates, t, input).color == if k < |rates| then rates[k].color else 0
  {
    if rates != [] && Credit(rates[0], t) >= input {
      ColorIs(rates[1..], t, input);
      var k := Blocked(rates[1..], t, input);
      assert k < |rates[1..]| ==> rates[1..][k] == rates[1 + k];
    }
  }

  // ----- whole runs -----

  datatype Arrival = Arrival(t: nat, input: nat)

  ghost predicate InOrder(packets: seq<Arrival>) {
    forall i, j | 0 <= i < j < |packets| :: packets[i].t <= packets[j].t
  }

  lemma LaterOk(rates: seq<MeterRate>, t: nat, u: nat)
    requires RatesOk(rates, t) && t <= u
    ensures RatesOk(rates, u)
  {
    forall k | 0 <= k < |rates| ensures RateOk(rates[k], u) {
      CreditGrows(rates[k], t, u);
    }
  }

  /** The rates after a run of packets that starts at time `t` or later. */
  ghost function Run(rates: seq<MeterRate>, t: nat, packets: seq<Arrival>): (r: seq<MeterRate>)
    requires RatesOk(rates, t) && InOrder(packets) && (packets != [] ==> t <= packets[0].t)
    ensures |r| == |rates|
    decreases |packets|
  {
    if packets == [] then rates
    else
      LaterOk(rates, t, packets[0].t);
      Run(Executed(rates, packets[0].t, packets[0].input).rates, packets[0].t, packets[1..])
  }

  /** What rate `k` is charged over the run. */
  ghost function Charged(rates: seq<MeterRate>, t: nat, packets: seq<Arrival>, k: nat): nat
    requires RatesOk(rates, t) && InOrder(packets) && (packets != [] ==> t <= packets[0].t) && k < |rates|
    decreases |packets|
  {
    if packets == [] then 0
    else
      LaterOk(rates, t, packets[0].t);
      var u, input := packets[0].t, packets[0].input;
      Charge(rates, u, input, k) + Charged(Executed(rates, u, input).rates, u, packets[1..], k)
  }

  /** Over any window of a run, a rate is charged at most its burst and what it made from
      the start of the window to its end. */
  lemma {:induction false} WindowIsBounded(rates: seq<MeterRate>, t: nat, packets: seq<Arrival>, k: nat)
    requires RatesOk(rates, t) && InOrder(packets) && (packets != [] ==> t <= packets[0].t) && k < |rates|
    ensures var end := if packets == [] then t else packets[|packets| - 1].t;
            t <= end && Charged(rates, t, packets, k) <=
                        Credit(rates[k], t) + Made(rates[k].infoRate, end) - Made(rates[k].infoRate, t)
    ensures Credit(rates[k], t) <= rates[k].burstSize
    decreases |packets|
  {
    hide Credit, Executed, Charge, Made, Ahead;
    CreditAtMost(rates[k], t);
    if packets != [] {
      var u, input := packets[0].t, packets[0].input;
      LaterOk(rates, t, u);
      CreditGrows(rates[k], t, u);
      ExecutedCredit(rates, u, input, k);
      WindowIsBounded(Executed(rates, u, input).rates, u, packets[1..], k);
    }
  }

  lemma {:induction false} RunOk(rates: seq<MeterRate>, t: nat, packets: seq<Arrival>, k: nat)
    requires RatesOk(rates, t) && InOrder(packets) && (packets != [] ==> t <= packets[0].t) && k < |rates|
    ensures var end := if packets == [] then t else packets[|packets| - 1].t;
            var r := Run(rates, t, packets)[k];
            RateOk(r, end) && r.infoRate == rates[k].infoRate && r.burstSize == rates[k].burstSize
    decreases |packets|
  {
    if packets != [] {
      var u, input := packets[0].t, packets[0].input;
      LaterOk(rates, t, u);
      ExecutedCredit(rates, u, input, k);
      RunOk(Executed(rates, u, input).rates, u, packets[1..], k);
    }
  }

  /** Nothing that a rate made is kept from it: after a run it is worth what it would be
      without the run, less what it was charged, or more. */
  lemma {:induction false} CreditIsKept(rates: seq<MeterRate>, t: nat, packets: seq<Arrival>, k: nat)
    requires RatesOk(rates, t) && InOrder(packets) && (packets != [] ==> t <= packets[0].t) && k < |rates|
    ensures var end := if packets == [] then t else packets[|packets| - 1].t;
            var r := Run(rates, t, packets)[k];
            && t <= end && RateOk(r, end) && r.infoRate == rates[k].infoRate && r.burstSize == rates[k].burstSize
            && Credit(r, end) + Charged(rates, t, packets, k) >=
               Min(Credit(rates[k], t) + Made(r.infoRate, end) - Made(r.infoRate, t), r.burstSize)
    decreases |packets|
  {
    hide Credit, Executed, Charge, Made, Ahead;
    CreditAtMost(rates[k], t);
    if packets != [] {
      var u, input := packets[0].t, packets[0].input;
      LaterOk(rates, t, u);
      CreditIs(rates[k], t, u);
      ExecutedCredit(rates, u, input, k);
      MadeMonotonic(rates[k].infoRate, u, packets[|packets| - 1].t);
      CreditIsKept(Executed(rates, u, input).rates, u, packets[1..], k);
    }
  }

  /** A packet comes at time `v` after any run, and what rate `k` had at time `t` and has
      made since, up to its burst, is enough for this packet and for those that it paid
      for in the run.  Then it pays if the rates before it can. */
  lemma PaysWhenMade(rates: seq<MeterRate>, t: nat, packets: seq<Arrival>, v: nat, input: nat, k: nat)
    requires RatesOk(rates, t) && InOrder(packets) && (packets != [] ==> t <= packets[0].t) && k < |rates|
    requires t <= v && (packets != [] ==> packets[|packets| - 1].t <= v)
    requires Charged(rates, t, packets, k) + input <=
             Min(Credit(rates[k], t) + Made(rates[k].infoRate, v) - Made(rates[k].infoRate, t), rates[k].burstSize)
    ensures var now := Run(rates, t, packets);
            && RatesOk(now, v) && Credit(now[k], v) >= input
            && ((forall i | 0 <= i < k :: Credit(now[i], v) >= input) <==> k < Blocked(now, v, input))
            && ((forall i | 0 <= i < k :: Credit(now[i], v) >= input) ==> Charge(now, v, input, k) == input)
  {
    hide Credit, Executed, Made, Ahead, Run, Charged;
    var now := Run(rates, t, packets);
    var end := if packets == [] then t else packets[|packets| - 1].t;
    forall i | 0 <= i < |now| ensures RateOk(now[i], v) {
      RunOk(rates, t, packets, i);
      CreditGrows(now[i], end, v);
    }
    CreditIsKept(rates, t, packets, k);
    CreditIs(now[k], end, v);
    MadeMonotonic(rates[k].infoRate, end, v);
  }

  /** The same for a window after any run of packets: burst, and what is made from its
      first packet to its last. */
  lemma AnyWindow(rates: seq<MeterRate>, t: nat, before: seq<Arrival>, window: seq<Arrival>, k: nat)
    requires RatesOk(rates, t) && InOrder(before + window) && window != [] && k < |rates|
    requires t <= (before + window)[0].t
    ensures InOrder(before) && InOrder(window) && (before != [] ==> t <= before[0].t)
    ensures var first, last := window[0].t, window[|window| - 1].t;
            var start := Run(rates, t, before);
            && RatesOk(start, first)
            && Charged(start, first, window, k) <=
               rates[k].burstSize + Made(rates[k].infoRate, last) - Made(rates[k].infoRate, first)
  {
    var all, n := before + window, |before|;
    forall i, j | 0 <= i < j < n ensures before[i].t <= before[j].t {
      assert all[i].t <= all[j].t;
    }
    forall i, j | 0 <= i < j < |window| ensures window[i].t <= window[j].t {
      assert all[n + i].t <= all[n + j].t;
    }
    if before != [] {
      assert all[0] == before[0] && all[n - 1] == before[n - 1] && all[n] == window[0];
      assert all[n - 1].t <= all[n].t;
    } else {
      assert all[0] == window[0];
    }
    var first, start := window[0].t, Run(rates, t, before);
    var end := if before == [] then t else before[n - 1].t;
    forall i | 0 <= i < |start| ensures RateOk(start[i], first) {
      RunOk(rates, t, before, i);
      CreditGrows(start[i], end, first);
    }
    RunOk(rates, t, before, k);
    WindowIsBounded(start, first, window, k);
  }

  // ----- the meter -----

  /** A packet leaves the rates sane at any time at which they were, if it is not before
      the packet, and keeps their order. */
  lemma ExecutedOk(rates: seq<MeterRate>, t: nat, u: nat, input: nat)
    requires RatesOk(rates, u) && t <= u && Executed(rates, t, input).Outcome?
    ensures RatesOk(Executed(rates, t, input).rates, u)
    ensures HighestFirst(rates) ==> HighestFirst(Executed(rates, t, input).rates)
  {
    var rates' := Executed(rates, t, input).rates;
    forall k | 0 <= k < |rates|
      ensures RateOk(rates'[k], u) && rates'[k].color == rates[k].color && rates'[k].infoRate == rates[k].infoRate
    {
      ExecutedAt(rates, t, u, input, k);
    }
  }

  lemma {:induction false} ExecutedAt(rates: seq<MeterRate>, t: nat, u: nat, input: nat, k: nat)
    requires RatesOk(rates, u) && t <= u && Executed(rates, t, input).Outcome? && k < |rates|
    ensures var r := Executed(rates, t, input).rates[k];
            RateOk(r, u) && r.color == rates[k].color && r.infoRate == rates[k].infoRate
  {
    MadeMonotonic(rates[0].infoRate, t, u);
    if k > 0 && Credit(rates[0], t) >= input {
      ExecutedAt(rates[1..], t, u, input, k - 1);
      assert rates[1..][k - 1] == rates[k];
    }
  }

  /** Rates in the order in which they are charged, each with its color. */
  predicate HighestFirst(rates: seq<MeterRate>) {
    && (forall k | 0 <= k < |rates| :: rates[k].color == |rates| - k)
    && (forall k | 0 < k < |rates| :: rates[k - 1].infoRate >= rates[k].infoRate)
  }

  function Configured(config: RateConfig, idx: nat): MeterRate {
    MeterRate(true, config.infoRate, config.burstSize, config.burstSize, 0, idx + 1)
  }

  /** A bucket starts full, so it is full whenever the first packet comes. */
  lemma ConfiguredIsFull(config: RateConfig, idx: nat, t: nat)
    requires config.infoRate >= 0.0
    ensures var r := Configured(config, idx);
            && r.valid && r.infoRate == config.infoRate && r.burstSize == config.burstSize && r.color == idx + 1
            && RateOk(r, t) && Credit(r, t) == config.burstSize
  {
    MadeMonotonic(config.infoRate, 0, t);
  }

  predicate Ascending(configs: seq<RateConfig>) {
    forall k | 0 < k < |configs| :: configs[k - 1].infoRate <= configs[k].infoRate
  }

  /** Rate `j` is the first that is lower than the one before it. */
  ghost predicate FirstDescent(configs: seq<RateConfig>, j: nat) {
    && 0 < j < |configs| && configs[j - 1].infoRate > configs[j].infoRate
    && Ascending(configs[..j])
  }

  /** The rates up to `j` were set, from the lowest, and the others were not. */
  ghost predicate PartlySet(was: seq<MeterRate>, rates: seq<MeterRate>, configs: seq<RateConfig>, j: nat) {
    && |rates| == |was| == |configs|
    && forall k | 0 <= k < |rates| :: rates[k] == if k <= j then Configured(configs[k], k) else was[k]
  }

  /** The first descent is the only one of its kind, so what a failed `set_rates` leaves
      is determined; it changes nothing exactly if the rates had those values before. */
  lemma PartlySetIff(was: seq<MeterRate>, rates: seq<MeterRate>, configs: seq<RateConfig>, j: nat, i: nat)
    requires FirstDescent(configs, j) && PartlySet(was, rates, configs, j)
    ensures FirstDescent(configs, i) <==> i == j
    ensures rates == was <==> forall k | 0 <= k <= j :: was[k] == Configured(configs[k], k)
    ensures !HighestFirst(rates) && (HighestFirst(was) ==> rates != was)
  {
  }

  lemma NoneDescends(configs: seq<RateConfig>)
    ensures Ascending(configs[..0]) && configs[..|configs|] == configs
  {
  }

  lemma AscendsNext(configs: seq<RateConfig>, j: nat)
    requires j < |configs| && Ascending(configs[..j])
    ensures Ascending(configs[..j + 1]) <==> j == 0 || configs[j - 1].infoRate <= configs[j].infoRate
    ensures !Ascending(configs[..j + 1]) ==> !Ascending(configs)
  {
    forall k | 0 < k < j ensures configs[k - 1].infoRate <= configs[k].infoRate {
      assert configs[..j][k - 1].infoRate <= configs[..j][k].infoRate;
    }
    if j > 0 && configs[j - 1].infoRate > configs[j].infoRate {
      assert configs[..j + 1][j - 1].infoRate > configs[..j + 1][j].infoRate;
    }
  }

  lemma StoppedAt(was: seq<MeterRate>, rates: seq<MeterRate>, configs: seq<RateConfig>, j: nat)
    requires 0 < j < |configs| == |rates| == |was| && Ascending(configs[..j])
    requires configs[j - 1].infoRate > configs[j].infoRate
    requires forall k | 0 <= k < |rates| :: rates[k] == if k <= j then Configured(configs[k], k) else was[k]
    ensures FirstDescent(configs, j) && PartlySet(was, rates, configs, j) && !HighestFirst(rates)
  {
    PartlySetIff(was, rates, configs, j, j);
  }

  lemma AllSet(rates: seq<MeterRate>, configs: seq<RateConfig>)
    requires |rates| == |configs| && Ascending(configs)
    requires forall k | 0 <= k < |rates| :: rates[k] == Configured(configs[k], k)
    ensures HighestFirst(Reversed(rates))
  {
  }

  /** Rates that were set have full buckets, filled at time 0. */
  lemma StillOk(was: seq<MeterRate>, rates: seq<MeterRate>, t: nat)
    requires RatesOk(was, t) && |rates| == |was|
    requires forall k | 0 <= k < |rates| :: rates[k] == was[k] || (Sane(rates[k]) && rates[k].tokensLast == 0)
    ensures RatesOk(rates, t) && RatesOk(Reversed(rates), t)
  {
  }

  class Meter {
    const mtype: MeterType
    var rates: seq<MeterRate>
    var configured: bool
    /** The latest time of a packet so far. */
    ghost var lastTime: nat

    ghost predicate Valid()
      reads this
    {
      RatesOk(rates, lastTime)
    }

    constructor (mtype: MeterType, rateCount: nat)
      ensures Valid() && !configured && |rates| == rateCount && this.mtype == mtype && lastTime == 0
    {
      this.mtype := mtype;
      rates := seq(rateCount, _ => MeterRate(false, 0.0, 0, 0, 0, 0));
      configured := false;
      lastTime := 0;
    }

    /** The rates, from the lowest to the highest.  After a rate that is out of order the
        rest is left as it was, and the order is not reversed; the meter stays configured
        if it was. */
    method SetRates(configs: seq<RateConfig>) returns (rc: ErrorCode)
      requires Valid() && forall k | 0 <= k < |configs| :: configs[k].infoRate >= 0.0
      modifies this
      ensures Valid() && |rates| == old(|rates|) && lastTime == old(lastTime)
      ensures rc == if |configs| != |rates| then BAD_RATES_LIST
                    else if Ascending(configs) then SUCCESS else INVALID_INFO_RATE_VALUE
      ensures rc == SUCCESS ==> configured
      ensures rc == SUCCESS ==>
                forall k | 0 <= k < |rates| :: rates[k] == Configured(configs[|rates| - 1 - k], |rates| - 1 - k)
      ensures rc == SUCCESS ==> HighestFirst(rates)
      ensures rc == INVALID_INFO_RATE_VALUE ==>
                exists j :: FirstDescent(configs, j) && PartlySet(old(rates), rates, configs, j)
      ensures rc == INVALID_INFO_RATE_VALUE ==> !HighestFirst(rates)
      ensures rc == BAD_RATES_LIST ==> rates == old(rates)
      ensures rc != SUCCESS ==> configured == old(configured)
    {
      hide HighestFirst, FirstDescent, PartlySet, RatesOk, Ascending;
      NoneDescends(configs);
      if |configs| != |rates| {
        return BAD_RATES_LIST;
      }
      for idx := 0 to |configs|
        invariant |rates| == |configs| && configured == old(configured) && lastTime == old(lastTime)
        invariant forall k | 0 <= k < idx :: rates[k] == Configured(configs[k], k)
        invariant forall k | idx <= k < |rates| :: rates[k] == old(rates)[k]
        invariant Ascending(configs[..idx])
      {
        rates := rates[idx := Configured(configs[idx], idx)];
        AscendsNext(configs, idx);
        if idx > 0 && rates[idx - 1].infoRate > rates[idx].infoRate {
          StoppedAt(old(rates), rates, configs, idx);
          StillOk(old(rates), rates, lastTime);
          return INVALID_INFO_RATE_VALUE;
        }
      }
      assert forall k | 0 <= k < |rates| :: rates[k] == Configured(configs[k], k);
      AllSet(rates, configs);
      StillOk(old(rates), rates, lastTime);
      rates := Reversed(rates);
      configured := true;
      rc := SUCCESS;
    }

    method ResetRates()
      requires Valid()
      modifies this
      ensures Valid() && !configured && lastTime == old(lastTime) && |rates| == old(|rates|)
      ensures forall k | 0 <= k < |rates| :: rates[k] == old(rates)[k].(valid := false)
    {
      for k := 0 to |rates|
        invariant |rates| == old(|rates|) && lastTime == old(lastTime)
        invariant forall i | 0 <= i < |rates| ::
                    rates[i] == if i < k then old(rates)[i].(valid := false) else old(rates)[i]
      {
        rates := rates[k := rates[k].(valid := false)];
      }
      configured := false;
    }

    /** `execute`, for a packet of some length.  The time of the packet was read before the
        lock was taken, so it may be before the last. */
    method Execute(length: nat, micros: nat) returns (color: nat, failed: bool)
      requires Valid()
      modifies this
      ensures Valid() && configured == old(configured)
      ensures !configured ==> !failed && rates == old(rates) && lastTime == old(lastTime) && color == 0
      ensures configured ==>
                var input := if mtype == PACKETS then 1 else length;
                && AllSane(old(rates)) && lastTime == (if micros < old(lastTime) then old(lastTime) else micros)
                && Executed(old(rates), micros, input) == if failed then AssertFails else Outcome(rates, color)
      ensures old(lastTime) <= micros ==> !failed
      ensures old(HighestFirst(rates)) && !failed ==> HighestFirst(rates)
    {
      color, failed := 0, false;
      if !configured {
        return;
      }
      ghost var latest := if micros < lastTime then lastTime else micros;
      LaterOk(rates, lastTime, latest);
      lastTime := latest;
      var input := if mtype == PACKETS then 1 else length;
      var charged, c, f := ChargeRates(rates, micros, input);
      if f {
        return 0, true;
      }
      ExecutedOk(rates, micros, latest, input);
      rates, color := charged, c;
    }
  }

  /** The loop over the rates. */
  method ChargeRates(was: seq<MeterRate>, micros: nat, input: nat)
    returns (rates: seq<MeterRate>, color: nat, failed: bool)
    requires AllSane(was)
    ensures Executed(was, micros, input) == if failed then AssertFails else Outcome(rates, color)
  {
    hide Sane, Executed, Ahead, Made;
    rates, color, failed := was, 0, false;
    var i := 0;
    assert was[..0] == [] && was[0..] == was;
    while i < |rates|
      invariant i <= |rates| == |was| && rates[i..] == was[i..]
      invariant Executed(was, micros, input) == Append(rates[..i], Executed(was[i..], micros, input))
      decreases |rates| - i
    {
      assert was[i..][0] == rates[i..][0];
      ExecutedStep(was, micros, input, i, rates[..i]);
      var rate, paid, ahead := Visit(rates[i], micros, input);
      if ahead {
        return rates, 0, true;
      }
      Replaced(rates, was, i, rate);
      rates := rates[i := rate];
      if !paid {
        return rates, rate.color, false;
      }
      i := i + 1;
    }
    assert rates[..i] == rates && was[i..] == [];
    NoneExecuted(micros, input);
    color := 0;
  }

  lemma Replaced(rates: seq<MeterRate>, was: seq<MeterRate>, i: nat, rate: MeterRate)
    requires i < |rates| == |was| && rates[i..] == was[i..]
    ensures rates[i := rate][..i + 1] == rates[..i] + [rate] && rates[i := rate][i + 1..] == was[i + 1..]
    ensures rates[i := rate] == rates[..i] + [rate] + was[i + 1..]
  {
    assert rates[i..][1..] == was[i..][1..];
  }

  /** One turn of the loop. */
  method Visit(was: MeterRate, micros: nat, input: nat) returns (rate: MeterRate, paid: bool, ahead: bool)
    requires Sane(was)
    ensures ahead == Ahead(was, micros)
    ensures !ahead ==> paid == (Credit(was, micros) >= input)
    ensures !ahead ==>
              rate == if paid then Refilled(was, micros).(tokens := Credit(was, micros) - input)
                      else Refilled(was, micros)
  {
    rate, paid := was, false;
    var tokensSinceInit := Made(rate.infoRate, micros);
    ahead := tokensSinceInit < rate.tokensLast;
    if ahead {
      return;
    }
    var newTokens := tokensSinceInit - rate.tokensLast;
    rate := rate.(tokensLast := tokensSinceInit);
    rate := rate.(tokens := Min(rate.tokens + newTokens, rate.burstSize));
    paid := rate.tokens >= input;
    if paid {
      rate := rate.(tokens := rate.tokens - input);
    }
  }

  /** The rates from `i` on: the first is ahead or cannot pay, or the others follow. */
  lemma ExecutedStep(rates: seq<MeterRate>, t: nat, input: nat, i: nat, done: seq<MeterRate>)
    requires AllSane(rates) && i < |rates|
    ensures Append(done, Executed(rates[i..], t, input)) ==
            if Ahead(rates[i], t) then AssertFails
            else var r := Refilled(rates[i], t);
                 if Credit(rates[i], t) >= input then
                   Append(done + [r.(tokens := r.tokens - input)], Executed(rates[i + 1..], t, input))
                 else Outcome(done + [r] + rates[i + 1..], r.color)
  {
    hide Sane, Refilled, Ahead;
    assert rates[i..][0] == rates[i] && rates[i..][1..] == rates[i + 1..];
  }

  lemma NoneExecuted(t: nat, input: nat)
    ensures Executed([], t, input) == Outcome([], 0)
  {
  }

  function Reversed(s: seq<MeterRate>): (r: seq<MeterRate>)
    ensures |r| == |s| && forall k | 0 <= k < |s| :: r[k] == s[|s| - 1 - k]
  {
    seq(|s|, k requires 0 <= k < |s| => s[|s| - 1 - k])
  }
}
