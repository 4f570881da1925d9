/** Rates from byte counters (intermux/system/traffic.py, RateTracker), with exact rationals for floats. */
module Traffic {

  /** (time, download, upload). */
  datatype Sample = Sample(at: real, down: int, up: int)

  datatype Bytes = Bytes(down: int, up: int)
  datatype Rate = Rate(down: real, up: real)

  const NO_RATE := Rate(0.0, 0.0)

  // -------------------------------------------------------------- one name

  /** What is kept for a name. */
  datatype Track = Track(last: Sample, first: Bytes, series: seq<Rate>)

  function Zeros(size: nat): seq<Rate> { seq(size, i => NO_RATE) }

  /** deque(maxlen=size).append. */
  function Push(series: seq<Rate>, size: nat, r: Rate): seq<Rate> {
    if size == 0 then []
    else if |series| < size then series + [r]
    else series[|series| - size + 1..] + [r]
  }

  function Max0(x: int): int { if x < 0 then 0 else x }

  predicate WentBack(a: Sample, b: Sample) { b.down < a.down || b.up < a.up }

  function PerSecond(bytes: int, elapsed: real): real
    requires elapsed > 0.0
  {
    bytes as real / elapsed
  }

  function RateOf(a: Sample, b: Sample): Rate
    requires b.at > a.at
  {
    Rate(PerSecond(Max0(b.down - a.down), b.at - a.at), PerSecond(Max0(b.up - a.up), b.at - a.at))
  }

  function NewTrack(size: nat, s: Sample): Track { Track(s, Bytes(s.down, s.up), Zeros(size)) }

  /** The rate between two samples; the lemmas about the series alone take it as a parameter. */
  const RATE: (Sample, Sample) -> Rate := (a: Sample, b: Sample) => if b.at > a.at then RateOf(a, b) else NO_RATE

  /** A sample of a known name: the rate since the last one, unless no time has passed. */
  function Fed(t: Track, size: nat, s: Sample, rate: (Sample, Sample) -> Rate): Track {
    if s.at <= t.last.at then t.(last := s)
    else Track(s, if WentBack(t.last, s) then Bytes(s.down, s.up) else t.first, Push(t.series, size, rate(t.last, s)))
  }

  function Transferred(t: Track): Bytes { Bytes(Max0(t.last.down - t.first.down), Max0(t.last.up - t.first.up)) }

  /** What a non-empty run of samples of one name leaves. */
  function RunOf(size: nat, ss: seq<Sample>, rate: (Sample, Sample) -> Rate): Track
    requires ss != []
    decreases |ss|
  {
    var n := |ss| - 1;
    if n == 0 then NewTrack(size, ss[0]) else Fed(RunOf(size, ss[..n], rate), size, ss[n], rate)
  }

  ghost predicate Kept(t: Track, size: nat) {
    |t.series| == size && forall r | r in t.series :: r.down >= 0.0 && r.up >= 0.0
  }

  /** Exactly `size` rates, none negative, after any sample, whatever the clock and the counters do. */
  lemma FedKept(t: Track, size: nat, s: Sample)
    requires Kept(t, size)
    ensures Kept(Fed(t, size, s, RATE), size)
  {
    if s.at > t.last.at {
      var r := RateOf(t.last, s);
      NotNegative(Max0(s.down - t.last.down), s.at - t.last.at);
      NotNegative(Max0(s.up - t.last.up), s.at - t.last.at);
      assert forall x | x in Push(t.series, size, r) :: x in t.series || x == r;
    }
  }

  lemma NotNegative(x: int, e: real)
    requires x >= 0 && e > 0.0
    ensures PerSecond(x, e) >= 0.0
  {
  }

  /** Times strictly increase and no counter goes backwards. */
  ghost predicate Steady(ss: seq<Sample>) {
    forall i | 0 <= i < |ss| - 1 :: StepSteady(ss[i], ss[i + 1])
  }

  ghost predicate StepSteady(a: Sample, b: Sample) { a.at < b.at && a.down <= b.down && a.up <= b.up }

  function Rates(ss: seq<Sample>, rate: (Sample, Sample) -> Rate): seq<Rate> {
    seq(if ss == [] then 0 else |ss| - 1, i requires 0 <= i < |ss| - 1 => rate(ss[i], ss[i + 1]))
  }

  /** Rate times elapsed time. The lemmas that only add such products up take the product as a parameter. */
  const OVER: (real, real) -> real := (x, elapsed) => x * elapsed

  /** Rates times elapsed times, summed. */
  function Area(ts: seq<real>, xs: seq<real>, over: (real, real) -> real): real
    requires |ts| == |xs| + 1
    decreases |xs|
  {
    var n := |xs|;
    if n == 0 then 0.0 else Area(ts[..n], xs[..n - 1], over) + over(xs[n - 1], ts[n] - ts[n - 1])
  }

  /** Each rate, over its own time, is one counter difference. */
  ghost predicate Explains(ts: seq<real>, cs: seq<int>, xs: seq<real>, over: (real, real) -> real) {
    |ts| == |cs| == |xs| + 1
    && forall i | 0 <= i < |xs| :: over(xs[i], ts[i + 1] - ts[i]) == (cs[i + 1] - cs[i]) as real
  }

  lemma {:induction false} AreaIsDifference(ts: seq<real>, cs: seq<int>, xs: seq<real>, over: (real, real) -> real)
    requires Explains(ts, cs, xs, over)
    ensures Area(ts, xs, over) == (cs[|xs|] - cs[0]) as real
    decreases |xs|
  {
    var n := |xs|;
    if n > 0 {
      AreaIsDifference(ts[..n], cs[..n], xs[..n - 1], over);
      assert over(xs[n - 1], ts[n - 1 + 1] - ts[n - 1]) == (cs[n - 1 + 1] - cs[n - 1]) as real;
    }
  }

  function TimesOf(ss: seq<Sample>): seq<real> { seq(|ss|, i requires 0 <= i < |ss| => ss[i].at) }
  function DownsOf(ss: seq<Sample>): seq<int> { seq(|ss|, i requires 0 <= i < |ss| => ss[i].down) }
  function UpsOf(ss: seq<Sample>): seq<int> { seq(|ss|, i requires 0 <= i < |ss| => ss[i].up) }
  function DownRates(rs: seq<Rate>): seq<real> { seq(|rs|, i requires 0 <= i < |rs| => rs[i].down) }
  function UpRates(rs: seq<Rate>): seq<real> { seq(|rs|, i requires 0 <= i < |rs| => rs[i].up) }

  lemma OverPerSecond(bytes: int, elapsed: real)
    requires elapsed > 0.0
    ensures OVER(PerSecond(bytes, elapsed), elapsed) == bytes as real
  {
  }

  ghost predicate StepExplained(a: Sample, b: Sample, r: Rate, over: (real, real) -> real) {
    over(r.down, b.at - a.at) == (b.down - a.down) as real && over(r.up, b.at - a.at) == (b.up - a.up) as real
  }

  lemma StepBytes(a: Sample, b: Sample)
    requires StepSteady(a, b)
    ensures StepExplained(a, b, RateOf(a, b), OVER)
  {
    OverPerSecond(b.down - a.down, b.at - a.at);
    OverPerSecond(b.up - a.up, b.at - a.at);
  }

  lemma StepsExplain(ss: seq<Sample>, rs: seq<Rate>, over: (real, real) -> real)
    requires |ss| == |rs| + 1 && forall i | 0 <= i < |rs| :: StepExplained(ss[i], ss[i + 1], rs[i], over)
    ensures Explains(TimesOf(ss), DownsOf(ss), DownRates(rs), over)
    ensures Explains(TimesOf(ss), UpsOf(ss), UpRates(rs), over)
  {
    forall i | 0 <= i < |rs|
      ensures over(rs[i].down, ss[i + 1].at - ss[i].at) == (ss[i + 1].down - ss[i].down) as real
      ensures over(rs[i].up, ss[i + 1].at - ss[i].at) == (ss[i + 1].up - ss[i].up) as real
    {
      assert StepExplained(ss[i], ss[i + 1], rs[i], over);
    }
  }

  lemma LastRate(ss: seq<Sample>, rate: (Sample, Sample) -> Rate)
    requires |ss| > 1 && Steady(ss)
    ensures var n := |ss| - 1;
            StepSteady(ss[n - 1], ss[n])
            && Rates(ss, rate) == Rates(ss[..n], rate) + [rate(ss[n - 1], ss[n])]
  {
    var n := |ss| - 1;
    assert StepSteady(ss[n - 1], ss[n - 1 + 1]);
  }

  lemma PushBehindZeros(size: nat, rs: seq<Rate>, r: Rate)
    requires |rs| < size
    ensures Push(Zeros(size - |rs|) + rs, size, r) == Zeros(size - |rs| - 1) + (rs + [r])
  {
    assert (Zeros(size - |rs|) + rs)[1..] == Zeros(size - |rs| - 1) + rs;
  }

  ghost predicate SeriesOf(t: Track, size: nat, ss: seq<Sample>, rate: (Sample, Sample) -> Rate)
    requires ss != [] && |ss| - 1 <= size
  {
    t == Track(ss[|ss| - 1], Bytes(ss[0].down, ss[0].up), Zeros(size - (|ss| - 1)) + Rates(ss, rate))
  }

  lemma SeriesNext(size: nat, ss: seq<Sample>, t: Track, rate: (Sample, Sample) -> Rate)
    requires |ss| > 1 && Steady(ss) && |ss| - 1 <= size && SeriesOf(t, size, ss[..|ss| - 1], rate)
    ensures SeriesOf(Fed(t, size, ss[|ss| - 1], rate), size, ss, rate)
  {
    var n := |ss| - 1;
    LastRate(ss, rate);
    PushBehindZeros(size, Rates(ss[..n], rate), rate(ss[n - 1], ss[n]));
  }

  /** While at most `size` rates were taken, the series is the rates behind zeros and the first sample stays. */
  lemma {:induction false} SeriesIsRates(size: nat, ss: seq<Sample>, rate: (Sample, Sample) -> Rate)
    requires ss != [] && Steady(ss) && |ss| - 1 <= size
    ensures SeriesOf(RunOf(size, ss, rate), size, ss, rate)
    decreases |ss|
  {
    var n := |ss| - 1;
    if n == 0 {
      assert Rates(ss, rate) == [] && Zeros(size) + [] == Zeros(size);
    } else {
      SeriesIsRates(size, ss[..n], rate);
      SeriesNext(size, ss, RunOf(size, ss[..n], rate), rate);
    }
  }

  lemma {:induction false} CountersGrow(ss: seq<Sample>)
    requires ss != [] && Steady(ss)
    ensures ss[0].down <= ss[|ss| - 1].down && ss[0].up <= ss[|ss| - 1].up
    decreases |ss|
  {
    var n := |ss| - 1;
    if n > 0 {
      CountersGrow(ss[..n]);
      assert StepSteady(ss[n - 1], ss[n - 1 + 1]);
    }
  }

  /** With at most size + 1 steady samples, the rates in the history times the elapsed times add up exactly to
      what transferred() reports, in each direction. */
  lemma HistoryAddsUp(size: nat, ss: seq<Sample>)
    requires ss != [] && Steady(ss) && |ss| - 1 <= size
    ensures var t := RunOf(size, ss, RATE);
            |t.series| == size
            && Area(TimesOf(ss), DownRates(t.series[size - (|ss| - 1)..]), OVER) == Transferred(t).down as real
            && Area(TimesOf(ss), UpRates(t.series[size - (|ss| - 1)..]), OVER) == Transferred(t).up as real
  {
    SeriesIsRates(size, ss, RATE);
    CountersGrow(ss);
    var rs := Rates(ss, RATE);
    forall i | 0 <= i < |rs| ensures StepExplained(ss[i], ss[i + 1], rs[i], OVER) {
      assert StepSteady(ss[i], ss[i + 1]);
      StepBytes(ss[i], ss[i + 1]);
    }
    StepsExplain(ss, rs, OVER);
    AreaIsDifference(TimesOf(ss), DownsOf(ss), DownRates(rs), OVER);
    AreaIsDifference(TimesOf(ss), UpsOf(ss), UpRates(rs), OVER);
    assert RunOf(size, ss, RATE).series[size - (|ss| - 1)..] == rs;
  }

  // -------------------------------------------------------------- any clock and any counters

  /** At step k the clock moved on. */
  ghost predicate MovedAt(ss: seq<Sample>, k: int) { 0 < k < |ss| && ss[k - 1].at < ss[k].at }

  /** At step k a counter went backwards, and the clock moved on. */
  ghost predicate ResetAt(ss: seq<Sample>, k: int) {
    MovedAt(ss, k) && (ss[k].down < ss[k - 1].down || ss[k].up < ss[k - 1].up)
  }

  lemma NoResetBefore(front: seq<Sample>, last: Sample, k: nat)
    requires !ResetAt(front + [last], |front|) && forall j | k < j < |front| :: !ResetAt(front, j)
    ensures forall j | k < j <= |front| :: !ResetAt(front + [last], j)
  {
    forall j | k < j <= |front| ensures !ResetAt(front + [last], j) {
      assert j < |front| ==> !ResetAt(front, j);
    }
  }

  /** transferred() counts from the last sample at which a counter went backwards while the clock moved on, or
      from the first one; a counter that is below where it then was counts nothing. */
  lemma {:induction false} TransferredSince(size: nat, ss: seq<Sample>, rate: (Sample, Sample) -> Rate) returns (k: nat)
    requires ss != []
    ensures k < |ss| && (k == 0 || ResetAt(ss, k)) && forall j | k < j < |ss| :: !ResetAt(ss, j)
    ensures var t, end := RunOf(size, ss, rate), ss[|ss| - 1];
            && Transferred(t).down == (if end.down < ss[k].down then 0 else end.down - ss[k].down)
            && Transferred(t).up == (if end.up < ss[k].up then 0 else end.up - ss[k].up)
            && t.last == end && t.first == Bytes(ss[k].down, ss[k].up)
    decreases |ss|
  {
    var n := |ss| - 1;
    k := 0;
    if n > 0 {
      k := TransferredSince(size, ss[..n], rate);
      assert k > 0 ==> ResetAt(ss, k);
      if ResetAt(ss, n) {
        k := n;
      } else {
        assert ss[..n] + [ss[n]] == ss;
        NoResetBefore(ss[..n], ss[n], k);
      }
    }
  }

  /** Nothing was reset since sample k, whether or not the clock moved on. */
  ghost predicate NoDropSince(ss: seq<Sample>, k: nat) {
    forall j | k < j < |ss| :: ss[j - 1].down <= ss[j].down && ss[j - 1].up <= ss[j].up
  }

  /** Let k be the last sample at which a counter went backwards, or the first. transferred() counts from it, and so
      is the growth since, exactly when it is the first or the clock had moved on. */
  lemma TransferredExact(size: nat, ss: seq<Sample>, rate: (Sample, Sample) -> Rate, k: nat) returns (j: nat)
    requires k < |ss| && NoDropSince(ss, k)
    requires k == 0 || ss[k].down < ss[k - 1].down || ss[k].up < ss[k - 1].up
    ensures j < |ss| && RunOf(size, ss, rate).first == Bytes(ss[j].down, ss[j].up)
    ensures j == k <==> k == 0 || ss[k - 1].at < ss[k].at
    ensures var end := ss[|ss| - 1];
            j == k ==> Transferred(RunOf(size, ss, rate)) == Bytes(end.down - ss[k].down, end.up - ss[k].up)
  {
    j := TransferredSince(size, ss, rate);
    assert j <= k;
    if j < k { assert !ResetAt(ss, k); }
    GrownSince(ss, k, |ss| - 1);
  }

  lemma {:induction false} GrownSince(ss: seq<Sample>, k: nat, n: nat)
    requires k <= n < |ss| && NoDropSince(ss, k)
    ensures ss[k].down <= ss[n].down && ss[k].up <= ss[n].up
    decreases n
  {
    if k < n { GrownSince(ss, k, n - 1); }
  }

  /** Concrete: counters that went backwards while the clock stood still. 40 bytes were moved since, and
      transferred() says none. */
  lemma MissedReset(rate: (Sample, Sample) -> Rate)
    ensures var ss := [Sample(0.0, 100, 0), Sample(0.0, 10, 0), Sample(1.0, 50, 0)];
            Transferred(RunOf(1, ss, rate)) == Bytes(0, 0) && NoDropSince(ss, 1)
  {
  }

  /** Per direction, a rate over its time is the growth of the counter, and 0 where it went backwards. */
  lemma RateOverTime(a: Sample, b: Sample)
    requires a.at < b.at
    ensures OVER(RATE(a, b).down, b.at - a.at) == (if b.down < a.down then 0 else b.down - a.down) as real
    ensures OVER(RATE(a, b).up, b.at - a.at) == (if b.up < a.up then 0 else b.up - a.up) as real
  {
  }

  /** The steps at which the clock moved on, in order. */
  ghost predicate Steps(ss: seq<Sample>, at: seq<nat>) {
    && (forall k: nat :: k in at <==> MovedAt(ss, k)) && (forall i | 0 <= i < |at| :: 0 < at[i] < |ss|)
    && forall i, j | 0 <= i < j < |at| :: at[i] < at[j]
  }

  ghost function RatesAt(ss: seq<Sample>, at: seq<nat>, rate: (Sample, Sample) -> Rate): seq<Rate>
    requires forall i | 0 <= i < |at| :: 0 < at[i] < |ss|
  {
    seq(|at|, i requires 0 <= i < |at| => rate(ss[at[i] - 1], ss[at[i]]))
  }

  /** The last `size` of a series that starts with zeros. */
  ghost function Tail(size: nat, rs: seq<Rate>): seq<Rate> { (Zeros(size) + rs)[|rs|..] }

  lemma PushTail(size: nat, rs: seq<Rate>, r: Rate)
    ensures Push(Tail(size, rs), size, r) == Tail(size, rs + [r])
  {
  }

  lemma LastIs(size: nat, ss: seq<Sample>, rate: (Sample, Sample) -> Rate)
    requires ss != []
    ensures RunOf(size, ss, rate).last == ss[|ss| - 1]
  {
  }

  lemma SeriesGrows(size: nat, ss: seq<Sample>, rate: (Sample, Sample) -> Rate, rs: seq<Rate>)
    requires |ss| > 1 && RunOf(size, ss[..|ss| - 1], rate).series == Tail(size, rs)
    ensures var n := |ss| - 1;
            RunOf(size, ss, rate).series
            == Tail(size, if MovedAt(ss, n) then rs + [rate(ss[n - 1], ss[n])] else rs)
  {
    var n := |ss| - 1;
    LastIs(size, ss[..n], rate);
    PushTail(size, rs, rate(ss[n - 1], ss[n]));
  }

  lemma RatesGrow(ss: seq<Sample>, before: seq<nat>, at: seq<nat>, rate: (Sample, Sample) -> Rate)
    requires |ss| > 1 && Steps(ss[..|ss| - 1], before) && Steps(ss, at)
    requires at == if MovedAt(ss, |ss| - 1) then before + [|ss| - 1] else before
    ensures var n := |ss| - 1;
            var rs := RatesAt(ss[..n], before, rate);
            RatesAt(ss, at, rate) == if MovedAt(ss, n) then rs + [rate(ss[n - 1], ss[n])] else rs
  {
  }

  /** The history of any run: one rate for each step at which the clock moved on, behind zeros, the last `size`
      of them. */
  lemma {:induction false} HistoryIsRates(size: nat, ss: seq<Sample>, rate: (Sample, Sample) -> Rate)
    returns (at: seq<nat>)
    requires ss != []
    ensures Steps(ss, at) && RunOf(size, ss, rate).series == Tail(size, RatesAt(ss, at, rate))
    decreases |ss|
  {
    var n := |ss| - 1;
    at := [];
    if n == 0 {
      assert Zeros(size) + [] == Zeros(size);
    } else {
      var before := HistoryIsRates(size, ss[..n], rate);
      at := StepsNext(ss, before);
      SeriesGrows(size, ss, rate, RatesAt(ss[..n], before, rate));
      RatesGrow(ss, before, at, rate);
    }
  }

  lemma StepsNext(ss: seq<Sample>, before: seq<nat>) returns (at: seq<nat>)
    requires |ss| > 1 && Steps(ss[..|ss| - 1], before)
    ensures Steps(ss, at) && at == if MovedAt(ss, |ss| - 1) then before + [|ss| - 1] else before
  {
    var n := |ss| - 1;
    at := if MovedAt(ss, n) then before + [n] else before;
    forall k: nat ensures k in at <==> MovedAt(ss, k) {
      assert k != n ==> (MovedAt(ss, k) <==> MovedAt(ss[..n], k));
      assert k in before <==> MovedAt(ss[..n], k);
    }
    forall i, j | 0 <= i < j < |at| ensures at[i] < at[j] {
      assert before == at[..|before|];
      assert before[i] < n;
    }
  }

  // -------------------------------------------------------------- the tracker

  class RateTracker {
    const size: nat
    var last: map<string, Sample>
    var first: map<string, Bytes>
    var history: map<string, seq<Rate>>

    ghost predicate Valid()
      reads this
    {
      last.Keys == first.Keys && first.Keys == history.Keys
      && forall n | n in history :: Kept(TrackOf(n), size)
    }

    function TrackOf(name: string): Track
      requires name in last && name in first && name in history
      reads this
    {
      Track(last[name], first[name], history[name])
    }

    constructor (size: nat)
      ensures Valid() && this.size == size && last == map[]
    {
      this.size := size;
      last, first, history := map[], map[], map[];
    }

    method Forget(name: string)
      requires Valid()
      modifies this
      ensures Valid() && last == old(last) - {name} && first == old(first) - {name} && history == old(history) - {name}
    {
      last, first, history := last - {name}, first - {name}, history - {name};
    }

    /** One name of update(). */
    method Take(name: string, s: Sample)
      requires Valid()
      modifies this
      ensures Valid() && last.Keys == old(last).Keys + {name}
      ensures TrackOf(name) == if name in old(last) then Fed(old(TrackOf(name)), size, s, RATE) else NewTrack(size, s)
      ensures forall n | n in old(last) && n != name :: TrackOf(n) == old(TrackOf(n))
    {
      if name !in history {
        history := history[name := Zeros(size)];
        first := first[name := Bytes(s.down, s.up)];
        last := last[name := s];
        return;
      }
      TakeKnown(name, s);
    }

    method TakeKnown(name: string, s: Sample)
      requires Valid() && name in last
      modifies this
      ensures Valid() && last.Keys == old(last).Keys
      ensures TrackOf(name) == Fed(old(TrackOf(name)), size, s, RATE)
      ensures forall n | n in old(last) && n != name :: TrackOf(n) == old(TrackOf(n))
    {
      FedKept(TrackOf(name), size, s);
      var previous := last[name];
      last := last[name := s];
      if s.at - previous.at <= 0.0 { return; }
      if WentBack(previous, s) {
        first := first[name := Bytes(s.down, s.up)];
      }
      history := history[name := Push(history[name], size, RateOf(previous, s))];
    }

    /** update(): absent names are forgotten; every sampled one takes its sample, a name seen for the first
        time (or again after being absent) starts anew. */
    method Update(samples: map<string, Bytes>, now: real)
      requires Valid()
      modifies this
      ensures Valid() && last.Keys == samples.Keys
      ensures forall n | n in samples ::
                var s := Sample(now, samples[n].down, samples[n].up);
                TrackOf(n) == if n in old(last) then Fed(old(TrackOf(n)), size, s, RATE) else NewTrack(size, s)
    {
      ForgetAbsent(samples.Keys);
      TakeAll(samples, now);
    }

    method TakeAll(samples: map<string, Bytes>, now: real)
      requires Valid() && last.Keys <= samples.Keys
      modifies this
      ensures Valid() && last.Keys == samples.Keys
      ensures forall n | n in samples ::
                var s := Sample(now, samples[n].down, samples[n].up);
                TrackOf(n) == if n in old(last) then Fed(old(TrackOf(n)), size, s, RATE) else NewTrack(size, s)
    {
      var todo := samples.Keys;
      while todo != {}
        invariant Valid() && todo <= samples.Keys && samples.Keys - todo <= last.Keys <= samples.Keys
        invariant forall n | n in todo :: n in last <==> n in old(last)
        invariant forall n | n in todo && n in last :: TrackOf(n) == old(TrackOf(n))
        invariant forall n | n in samples && n !in todo ::
                    var s := Sample(now, samples[n].down, samples[n].up);
                    TrackOf(n) == if n in old(last) then Fed(old(TrackOf(n)), size, s, RATE) else NewTrack(size, s)
        decreases todo
      {
        var name :| name in todo;
        todo := todo - {name};
        Take(name, Sample(now, samples[name].down, samples[name].up));
      }
    }

    method ForgetAbsent(present: set<string>)
      requires Valid()
      modifies this
      ensures Valid() && last.Keys == old(last).Keys * present
      ensures forall n | n in last :: TrackOf(n) == old(TrackOf(n))
    {
      var todo := last.Keys - present;
      while todo != {}
        invariant Valid() && last.Keys == old(last).Keys * present + todo && todo !! present
        invariant forall n | n in last :: n in old(last) && TrackOf(n) == old(TrackOf(n))
        decreases todo
      {
        var name :| name in todo;
        todo := todo - {name};
        Forget(name);
      }
    }
  }

  // -------------------------------------------------------------- a tracker's whole life

  /** One call of update(). */
  datatype Tick = Tick(samples: map<string, Bytes>, now: real)

  /** The samples of a name since it was last absent. */
  function Since(ticks: seq<Tick>, name: string): seq<Sample>
    decreases |ticks|
  {
    var n := |ticks| - 1;
    if n < 0 || name !in ticks[n].samples then []
    else Since(ticks[..n], name) + [Sample(ticks[n].now, ticks[n].samples[name].down, ticks[n].samples[name].up)]
  }

  /** The tracker knows exactly the names of the last update, each with what its run of samples leaves. */
  ghost predicate Tracks(t: RateTracker, ticks: seq<Tick>)
    requires t.Valid()
    reads t
  {
    t.last.Keys == (if ticks == [] then {} else ticks[|ticks| - 1].samples.Keys)
    && forall n | n in t.last :: Since(ticks, n) != [] && t.TrackOf(n) == RunOf(t.size, Since(ticks, n), RATE)
  }

  lemma SinceNext(ticks: seq<Tick>, tick: Tick, name: string, size: nat)
    requires name in tick.samples
    ensures var s := Sample(tick.now, tick.samples[name].down, tick.samples[name].up);
            var before, now := Since(ticks, name), Since(ticks + [tick], name);
            now != [] && RunOf(size, now, RATE) == if before == [] then NewTrack(size, s)
                                                   else Fed(RunOf(size, before, RATE), size, s, RATE)
  {
    var s := Sample(tick.now, tick.samples[name].down, tick.samples[name].up);
    var before := Since(ticks, name);
    assert (ticks + [tick])[..|ticks|] == ticks;
    assert (before + [s])[..|before|] == before;
  }

  lemma SinceAbsent(ticks: seq<Tick>, name: string)
    requires ticks == [] || name !in ticks[|ticks| - 1].samples
    ensures Since(ticks, name) == []
  {
  }

  /** Any sequence of updates of a new tracker: every name that is there at the end has exactly the track of its
      samples since it was last absent, so HistoryAddsUp speaks of what the tracker shows. */
  method Feed(size: nat, ticks: seq<Tick>) returns (t: RateTracker)
    ensures t.Valid() && t.size == size && Tracks(t, ticks)
  {
    t := new RateTracker(size);
    for i := 0 to |ticks|
      invariant t.Valid() && t.size == size && fresh(t) && Tracks(t, ticks[..i])
    {
      FeedNext(t, ticks[..i], ticks[i]);
      assert ticks[..i] + [ticks[i]] == ticks[..i + 1];
    }
    assert ticks[..|ticks|] == ticks;
  }

  method FeedNext(t: RateTracker, ghost ticks: seq<Tick>, tick: Tick)
    requires t.Valid() && Tracks(t, ticks)
    modifies t
    ensures t.Valid() && Tracks(t, ticks + [tick])
  {
    ghost var known := t.last.Keys;
    t.Update(tick.samples, tick.now);
    forall n | n in tick.samples
      ensures Since(ticks + [tick], n) != [] && t.TrackOf(n) == RunOf(t.size, Since(ticks + [tick], n), RATE)
    {
      SinceNext(ticks, tick, n, t.size);
      if n !in known {
        SinceAbsent(ticks, n);
      }
    }
  }
}
