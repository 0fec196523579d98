/** The traffic monitor of examples/ewma.c: a fixed-point moving average per port, updated in place,
    on top of a learning switch. */
module Ewma {
  import opened Words
  import opened Packets

  const DELTA := 5
  type u16 = x: int | 0 <= x < 0x1_0000

  // ----- the recurrence -----

  /** The expression of the program, in uint64_t arithmetic. */
  function Predict(volume: u64, prediction: u64): u64 {
    U64(U64(volume + U64(prediction * 8)) - prediction) / 8
  }

  /** The weighted average it stands for. */
  function Average(volume: nat, prediction: nat): nat { (volume + 7 * prediction) / 8 }

  /** The shift may wrap; the result is still right as long as the weighted sum fits. */
  lemma {:induction false} PredictIsAverage(volume: u64, prediction: u64)
    ensures volume + 7 * prediction < 0x1_0000_0000_0000_0000 ==> Predict(volume, prediction) == Average(volume, prediction)
  {
    var w := 0x1_0000_0000_0000_0000;
    var q := prediction * 8 / w;
    var r := (volume + U64(prediction * 8)) / w;
    assert U64(prediction * 8) == prediction * 8 - q * w;
    assert U64(volume + U64(prediction * 8)) == volume + prediction * 8 - q * w - r * w;
    assert (q + r) * w == q * w + r * w;
    if volume + 7 * prediction < w { WrapBack(volume + 7 * prediction, q + r); }
  }

  lemma {:induction false} WrapBack(x: int, k: int)
    requires 0 <= x < 0x1_0000_0000_0000_0000
    ensures U64(x - k * 0x1_0000_0000_0000_0000) == x
  {
    var w := 0x1_0000_0000_0000_0000;
    DivModUnique(x - k * w, w, -k, x);
  }

  /** When the weighted sum does not fit, the prediction is off by a multiple of 2^61: the guard is exact. */
  lemma {:induction false} PredictExact(volume: u64, prediction: u64)
    ensures Predict(volume, prediction) == Average(volume, prediction)
            <==> volume + 7 * prediction < 0x1_0000_0000_0000_0000
  {
    PredictIsAverage(volume, prediction);
    assert Predict(volume, prediction) < 0x2000_0000_0000_0000;
    assert volume + 7 * prediction >= 0x1_0000_0000_0000_0000 ==> Average(volume, prediction) >= 0x2000_0000_0000_0000;
  }

  // ----- bound and convergence -----

  /** Predictions after windows of the given volumes. */
  function Windows(start: u64, volumes: seq<u64>): u64 {
    if volumes == [] then start else Predict(volumes[|volumes| - 1], Windows(start, volumes[..|volumes| - 1]))
  }

  /** Whatever bounds the start and every window bounds every prediction. */
  lemma {:induction false} StaysBounded(start: u64, volumes: seq<u64>, m: nat)
    requires 8 * m < 0x1_0000_0000_0000_0000 && start <= m && forall i :: 0 <= i < |volumes| ==> volumes[i] <= m
    ensures Windows(start, volumes) <= m
    decreases |volumes|
  {
    hide Predict;
    if volumes != [] {
      var last := |volumes| - 1;
      StaysBounded(start, volumes[..last], m);
      PredictIsAverage(volumes[last], Windows(start, volumes[..last]));
    }
  }

  /** n windows of the same volume. */
  function Steady(volume: u64, start: u64, n: nat): u64
    decreases n
  {
    if n == 0 then start else Predict(volume, Steady(volume, start, n - 1))
  }

  /** From above a step goes down but not below the volume; from below it goes up by less than the
      gap until the gap is at most seven. */
  lemma {:induction false} SteadyStep(volume: u64, p: u64)
    requires volume + 7 * p < 0x1_0000_0000_0000_0000
    ensures p > volume ==> volume <= Predict(volume, p) < p
    ensures volume - 7 <= p <= volume ==> Predict(volume, p) == p
    ensures p < volume - 7 ==> p < Predict(volume, p) <= volume
  {
    PredictIsAverage(volume, p);
  }

  function Power(b: nat, n: nat): nat { if n == 0 then 1 else b * Power(b, n - 1) }

  lemma {:induction false} PowerAdd(b: nat, m: nat, n: nat)
    ensures Power(b, m + n) == Power(b, m) * Power(b, n)
  {
    if m > 0 {
      PowerAdd(b, m - 1, n);
      assert b * (Power(b, m - 1) * Power(b, n)) == (b * Power(b, m - 1)) * Power(b, n);
    }
  }

  /** An eighth of the gap closes in one step; from below, of what the gap exceeds seven by. */
  lemma {:induction false} GapStep(volume: u64, p: u64)
    requires volume + 7 * p < 0x1_0000_0000_0000_0000
    ensures p >= volume ==> 8 * (Predict(volume, p) - volume) <= 7 * (p - volume)
    ensures p <= volume ==> 8 * (volume - Predict(volume, p) - 7) <= 7 * (volume - p - 7)
  {
    hide Predict;
    PredictIsAverage(volume, p);
  }

  lemma {:induction false} AtMost(x: nat, a: int, b: int)
    requires a <= b
    ensures x * a <= x * b
  {
  }

  lemma {:induction false} Regroup(a: nat, c: nat, x: nat, y: nat)
    ensures (a * c) * (x * y) == (c * y) * (a * x)
  {
    assert (a * c) * (x * y) == ((a * c) * x) * y == (c * (a * x)) * y == (a * x) * (c * y);
  }

  lemma {:induction false} Scaled(e: nat, s: nat, g': int, g: int, start: int)
    requires 8 * g' <= 7 * g && e * g <= s * start
    ensures (8 * e) * g' <= (7 * s) * start
  {
    AtMost(e, 8 * g', 7 * g);
  }

  /** Under constant traffic the gap shrinks geometrically: after n windows at most (7/8)^n of it is
      left, and from below seven more. */
  lemma {:induction false} GapShrinks(volume: u64, start: u64, n: nat)
    requires 8 * volume < 0x1_0000_0000_0000_0000 && 8 * start < 0x1_0000_0000_0000_0000
    ensures var p := Steady(volume, start, n);
      if start >= volume then Power(8, n) * (p - volume) <= Power(7, n) * (start - volume)
      else Power(8, n) * (volume - p - 7) <= Power(7, n) * (volume - start)
    decreases n
  {
    hide Predict;
    if n > 0 {
      GapShrinks(volume, start, n - 1);
      SettlesBy(volume, start, n - 1);
      var p := Steady(volume, start, n - 1);
      GapStep(volume, p);
      var q := Predict(volume, p);
      if start >= volume {
        Scaled(Power(8, n - 1), Power(7, n - 1), q - volume, p - volume, start - volume);
      } else {
        Scaled(Power(8, n - 1), Power(7, n - 1), volume - q - 7, volume - p - 7, volume - start);
      }
    }
  }

  /** 318 windows divide the gap by 2^61: five bits in 26 windows, one in six. */
  lemma {:induction false} WindowsEnough(n: nat)
    requires n >= 318
    ensures Power(7, n) * 0x2000_0000_0000_0000 <= Power(8, n)
  {
    if n == 318 {
      Chunks(12);
      Chunk();
      PowerAdd(7, 312, 6);
      PowerAdd(8, 312, 6);
      Product(Power(7, 312), 0x1000_0000_0000_0000, Power(8, 312), Power(7, 6), 2, Power(8, 6));
    } else {
      WindowsEnough(n - 1);
    }
  }

  lemma {:induction false} Chunks(k: nat)
    ensures Power(7, 26 * k) * Power(32, k) <= Power(8, 26 * k)
  {
    hide Power;
    if k == 0 {
      PowerNone();
    } else {
      Chunks(k - 1);
      Chunk();
      PowerAdd(7, 26, 26 * (k - 1));
      PowerAdd(8, 26, 26 * (k - 1));
      PowerAdd(32, 1, k - 1);
      assert 26 + 26 * (k - 1) == 26 * k;
      Product(Power(7, 26 * (k - 1)), Power(32, k - 1), Power(8, 26 * (k - 1)), Power(7, 26), 32, Power(8, 26));
    }
  }

  lemma {:induction false} PowerNone()
    ensures Power(7, 0) == 1 && Power(8, 0) == 1 && Power(32, 0) == 1
  {
  }

  lemma {:induction false} Chunk()
    ensures Power(7, 26) * 32 <= Power(8, 26) && Power(32, 1) == 32
    ensures Power(7, 6) * 2 <= Power(8, 6) && Power(32, 12) == 0x1000_0000_0000_0000
  {
    assert Power(7, 6) == 117649 && Power(7, 7) == 823543 && Power(8, 6) == 0x4_0000 && Power(8, 7) == 0x20_0000;
    assert Power(32, 6) == 0x4000_0000;
    hide Power;
    PowerAdd(7, 6, 7);
    PowerAdd(8, 6, 7);
    PowerAdd(7, 13, 13);
    PowerAdd(8, 13, 13);
    PowerAdd(32, 6, 6);
  }

  lemma {:induction false} Product(a: nat, x: nat, b: nat, c: nat, y: nat, d: nat)
    requires a * x <= b && c * y <= d
    ensures (a * c) * (x * y) <= b * d
  {
    Regroup(a, c, x, y);
    AtMost(c * y, a * x, b);
    AtMost(b, c * y, d);
  }

  lemma {:induction false} GapGone(e: nat, s: nat, g: int, g0: int)
    requires e * g <= s * g0 && 0 <= g0 < 0x2000_0000_0000_0000 && s > 0 && s * 0x2000_0000_0000_0000 <= e
    ensures g <= 0
  {
    assert s * g0 < s * 0x2000_0000_0000_0000;
    assert g >= 1 ==> e * (g - 1) >= 0;
    assert e * g == e * (g - 1) + e;
  }

  lemma {:induction false} PowerPositive(b: nat, n: nat)
    requires b > 0
    ensures Power(b, n) > 0
  {
    if n > 0 { PowerPositive(b, n - 1); }
  }

  /** Under constant traffic the prediction moves one way, and no later than after |start - volume|
      windows, and never later than after 318, it rests: on the volume itself from above, at most seven
      short of it from below. */
  lemma {:induction false} Settles(volume: u64, start: u64, n: nat)
    requires 8 * volume < 0x1_0000_0000_0000_0000 && 8 * start < 0x1_0000_0000_0000_0000
    ensures var p := Steady(volume, start, n);
      if start >= volume then volume <= p <= start && (n > 0 ==> p <= Steady(volume, start, n - 1))
                              && (n >= start - volume || n >= 318 ==> p == volume)
      else start <= p <= volume && (n > 0 ==> p >= Steady(volume, start, n - 1))
           && (n >= volume - start || n >= 318 ==> volume - 7 <= p)
    decreases n
  {
    SettlesBy(volume, start, n);
    hide Predict;
    if n > 0 {
      SettlesBy(volume, start, n - 1);
      SteadyStep(volume, Steady(volume, start, n - 1));
    }
    if n >= 318 { SettlesSoon(volume, start, n); }
  }

  lemma {:induction false} SettlesSoon(volume: u64, start: u64, n: nat)
    requires 8 * volume < 0x1_0000_0000_0000_0000 && 8 * start < 0x1_0000_0000_0000_0000 && n >= 318
    ensures var p := Steady(volume, start, n); if start >= volume then p <= volume else volume - 7 <= p
  {
    hide Power, Predict, Steady;
    var p := Steady(volume, start, n);
    GapShrinks(volume, start, n);
    WindowsEnough(n);
    PowerPositive(7, n);
    if start >= volume {
      GapGone(Power(8, n), Power(7, n), p - volume, start - volume);
    } else {
      GapGone(Power(8, n), Power(7, n), volume - p - 7, volume - start);
    }
  }

  /** Every window brings the prediction at least one closer, until it rests. */
  lemma {:induction false} SettlesBy(volume: u64, start: u64, n: nat)
    requires 8 * volume < 0x1_0000_0000_0000_0000 && 8 * start < 0x1_0000_0000_0000_0000
    ensures var p := Steady(volume, start, n);
      if start >= volume then volume <= p <= start && (p == volume || p <= start - n)
      else start <= p <= volume && (volume - 7 <= p || p >= start + n)
    decreases n
  {
    hide Predict;
    if n > 0 {
      SettlesBy(volume, start, n - 1);
      SteadyStep(volume, Steady(volume, start, n - 1));
    }
  }

  // ----- the program -----

  /** struct ewma_stats, one per port. */
  class Stats {
    var volume: u64
    var packets: u64
    var prediction: u64
    var lasttime: u32
    var count: u32

    constructor ()
      ensures volume == 0 && packets == 0 && prediction == 0 && lasttime == 0 && count == 0
    {
      volume, packets, prediction, lasttime, count := 0, 0, 0, 0, 0;
    }

    /** One packet of the given length at second sec; true if it closed a window. */
    method Account(length: u16, sec: u32) returns (closed: bool)
      modifies this
      ensures closed <==> U32(sec - old(lasttime)) > DELTA
      ensures closed ==>
        && prediction == Predict(U64(old(volume) + length), old(prediction))
        && volume == 0 && packets == 0 && lasttime == sec && count == U32(old(count) + 1)
      ensures !closed ==>
        && prediction == old(prediction) && volume == U64(old(volume) + length)
        && packets == U64(old(packets) + 1) && lasttime == old(lasttime) && count == old(count)
    {
      volume := U64(volume + length);
      packets := U64(packets + 1);
      closed := U32(sec - lasttime) > DELTA;
      if closed {
        prediction := U64(U64(volume + U64(prediction * 8)) - prediction) / 8;
        lasttime := sec;
        packets := 0;
        volume := 0;
        count := U32(count + 1);
      }
    }
  }

  datatype Arrival = Arrival(length: u16, sec: u32)

  /** The traffic seen so far: the volumes of the closed windows, the open window and when it began. */
  datatype Seen = Seen(volumes: seq<u64>, open: u64, since: u32)

  function Observe(volume: u64, since: u32, traffic: seq<Arrival>): Seen {
    if traffic == [] then Seen([], volume, since)
    else OneMore(Observe(volume, since, traffic[..|traffic| - 1]), traffic[|traffic| - 1])
  }

  function OneMore(s: Seen, a: Arrival): Seen {
    var open := U64(s.open + a.length);
    if U32(a.sec - s.since) > DELTA then Seen(s.volumes + [open], 0, a.sec) else Seen(s.volumes, open, s.since)
  }

  lemma {:induction false} ObserveNext(volume: u64, since: u32, traffic: seq<Arrival>, i: nat)
    requires i < |traffic|
    ensures Observe(volume, since, traffic[..i + 1]) == OneMore(Observe(volume, since, traffic[..i]), traffic[i])
  {
    assert traffic[..i + 1][..i] == traffic[..i];
  }

  function TotalLength(traffic: seq<Arrival>): nat {
    if traffic == [] then 0 else TotalLength(traffic[..|traffic| - 1]) + traffic[|traffic| - 1].length
  }

  function Total(volumes: seq<u64>): nat {
    if volumes == [] then 0 else Total(volumes[..|volumes| - 1]) + volumes[|volumes| - 1]
  }

  lemma {:induction false} TotalStep(s: Seen, a: Arrival)
    requires s.open + a.length < 0x1_0000_0000_0000_0000
    ensures Total(OneMore(s, a).volumes) + OneMore(s, a).open == Total(s.volumes) + s.open + a.length
  {
    hide Total;
    TotalNext(s.volumes, U64(s.open + a.length));
    TotalNone();
  }

  lemma {:induction false} TotalNone()
    ensures Total([]) == 0
  {
  }

  lemma {:induction false} TotalNext(volumes: seq<u64>, v: u64)
    ensures Total(volumes + [v]) == Total(volumes) + v
  {
    assert (volumes + [v])[..|volumes|] == volumes;
  }

  /** No traffic is lost: as long as the counter does not wrap, the windows and the open one add up to
      what arrived. */
  lemma {:induction false} NothingLost(volume: u64, since: u32, traffic: seq<Arrival>)
    requires volume + TotalLength(traffic) < 0x1_0000_0000_0000_0000
    ensures var s := Observe(volume, since, traffic);
      Total(s.volumes) + s.open == volume + TotalLength(traffic)
    decreases |traffic|
  {
    hide Total, OneMore;
    if traffic == [] {
      TotalNone();
    } else {
      var last := |traffic| - 1;
      NothingLost(volume, since, traffic[..last]);
      TotalStep(Observe(volume, since, traffic[..last]), traffic[last]);
    }
  }

  /** The second of the last packet. */
  function Now(since: u32, traffic: seq<Arrival>): u32 {
    if traffic == [] then since else traffic[|traffic| - 1].sec
  }

  /** The clock does not run backwards. */
  predicate Rising(since: u32, traffic: seq<Arrival>) {
    traffic == [] || (Rising(since, traffic[..|traffic| - 1]) && Now(since, traffic[..|traffic| - 1]) <= Now(since, traffic))
  }

  lemma {:induction false} SpanStep(s: Seen, a: Arrival)
    requires s.since <= a.sec
    ensures var t := OneMore(s, a);
      t.since <= a.sec <= t.since + 5 && t.since >= s.since + 6 * (|t.volumes| - |s.volumes|)
  {
  }

  /** While the clock does not run backwards, the open window never reaches back more than five
      seconds, and the closed ones took at least six seconds each. */
  lemma {:induction false} WindowSpans(volume: u64, since: u32, traffic: seq<Arrival>)
    requires Rising(since, traffic)
    ensures var s := Observe(volume, since, traffic);
      s.since <= Now(since, traffic) <= s.since + 5 && since + 6 * |s.volumes| <= s.since
    decreases |traffic|
  {
    hide OneMore;
    if traffic != [] {
      var last := |traffic| - 1;
      WindowSpans(volume, since, traffic[..last]);
      SpanStep(Observe(volume, since, traffic[..last]), traffic[last]);
    }
  }

  lemma {:induction false} WindowsNext(start: u64, volumes: seq<u64>, v: u64)
    ensures Windows(start, volumes + [v]) == Predict(v, Windows(start, volumes))
  {
    assert (volumes + [v])[..|volumes|] == volumes;
  }

  /** The statistics are what the traffic so far says. */
  ghost predicate Tracks(s: Stats, start: u64, count: u32, seen: Seen)
    reads s
  {
    s.prediction == Windows(start, seen.volumes) && s.volume == seen.open && s.lasttime == seen.since
    && s.count == U32(count + |seen.volumes|)
  }

  /** Any traffic on one port: the prediction is the recurrence over the volumes of the windows that
      closed, so it obeys the bound proved for it. */
  method Watch(s: Stats, traffic: seq<Arrival>)
    modifies s
    ensures Tracks(s, old(s.prediction), old(s.count), Observe(old(s.volume), old(s.lasttime), traffic))
  {
    hide OneMore, Observe, Tracks;
    ghost var seen := NothingSeen(s, traffic);
    for i := 0 to |traffic|
      invariant seen == Observe(old(s.volume), old(s.lasttime), traffic[..i])
      invariant Tracks(s, old(s.prediction), old(s.count), seen)
    {
      ObserveNext(old(s.volume), old(s.lasttime), traffic, i);
      WatchOne(s, traffic[i], old(s.prediction), old(s.count), seen);
      seen := OneMore(seen, traffic[i]);
    }
    assert traffic[..|traffic|] == traffic;
  }

  method WatchOne(s: Stats, a: Arrival, ghost start: u64, ghost count: u32, ghost seen: Seen)
    requires Tracks(s, start, count, seen)
    modifies s
    ensures Tracks(s, start, count, OneMore(seen, a))
  {
    hide Predict, Windows;
    WindowsNext(start, seen.volumes, U64(s.volume + a.length));
    var closed := s.Account(a.length, a.sec);
  }

  lemma {:induction false} NothingSeen(s: Stats, traffic: seq<Arrival>) returns (seen: Seen)
    ensures seen == Observe(s.volume, s.lasttime, traffic[..0]) && Tracks(s, s.prediction, s.count, seen)
  {
    seen := Seen([], s.volume, s.lasttime);
  }

  /** The switch: per-port statistics and the ports behind which addresses were seen. */
  class Monitor {
    const stats: array<Stats>
    var inports: map<mac, u32>

    ghost predicate Valid()
      reads this, stats
    {
      stats.Length == 24 && forall i, j :: 0 <= i < j < 24 ==> stats[i] != stats[j]
    }

    constructor ()
      ensures Valid() && fresh(stats) && inports == map[]
    {
      var first := new Stats();
      var s := new Stats[24](_ => first);
      for i := 0 to 24
        invariant forall j :: 0 <= j < i ==> fresh(s[j])
        invariant forall j, k :: 0 <= j < k < i ==> s[j] != s[k]
      {
        s[i] := new Stats();
      }
      stats := s;
      inports := map[];
    }

    /** prog: accounts the packet to its port, learns the source, returns the output port. */
    method Prog(inPort: u32, length: u16, sec: u32, src: mac, dst: mac) returns (out: u64)
      requires Valid() && inPort < 24
      modifies this`inports, stats[inPort]
      ensures Valid()
      ensures inports == if !Group(src) then old(inports)[src := inPort] else old(inports)
      ensures out == if Group(dst) || dst !in inports then FLOOD else inports[dst]
      ensures var s := stats[inPort];
        if U32(sec - old(s.lasttime)) > DELTA then s.prediction == Predict(U64(old(s.volume) + length), old(s.prediction)) && s.volume == 0
        else s.prediction == old(s.prediction) && s.volume == U64(old(s.volume) + length)
      ensures forall p :: 0 <= p < 24 && p != inPort ==> unchanged(stats[p])
    {
      var closed := stats[inPort].Account(length, sec);
      if !Group(src) {
        inports := inports[src := inPort];
      }
      if Group(dst) {
        return FLOOD;
      }
      if dst !in inports {
        return FLOOD;
      }
      return inports[dst];
    }
  }
}
