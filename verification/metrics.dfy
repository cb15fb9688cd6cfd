/** Interval-based emitter (src/metrics.py, `SecondBasedEmitter`).

    The emitter remembers when it last fired. On every tick it reads the clock,
    and fires when at least the interval has passed since then, after which
    the reading becomes the new "last fired" time. The clock reading is a
    parameter here; firing the callback is modelled as the `fired` flag. */
module Metrics {
  import opened Errors

  /** Interval in whole seconds, and the clock reading of the last firing
      (0 before the first one). */
  datatype Emitter = Emitter(interval: int, last: real)
  {
    ghost predicate Valid()
    {
      interval >= 1
    }
  }

  /** Construction rejects an interval below one second. The source's default
      interval is 1. */
  function NewEmitter(interval: int): (r: Result<Emitter>)
    ensures r.Err? <==> interval < 1
    ensures r.Err? ==> r.error == IntervalTooShort
    ensures r.Ok? ==> r.value.Valid() && r.value.interval == interval && r.value.last == 0.0
  {
    if interval < 1 then Err(IntervalTooShort) else Ok(Emitter(interval, 0.0))
  }

  /** One tick at clock reading `now`: the new state and whether it fired. */
  function Tick(e: Emitter, now: real): (r: (Emitter, bool))
    ensures r.1 <==> now - e.last >= e.interval as real
    ensures r.1 ==> r.0 == e.(last := now)
    ensures !r.1 ==> r.0 == e
    ensures e.Valid() ==> now - r.0.last < e.interval as real
  {
    if now - e.last >= e.interval as real then (e.(last := now), true) else (e, false)
  }

  /** Ticks at the given clock readings, in order: the final state and the
      readings at which the emitter fired. */
  function Run(e: Emitter, times: seq<real>): (r: (Emitter, seq<real>))
    ensures r.0.interval == e.interval
    ensures |r.1| <= |times|
    ensures forall k :: 0 <= k < |r.1| ==> r.1[k] in times
    ensures r.1 == [] ==> r.0 == e
    ensures r.1 != [] ==> r.0.last == r.1[|r.1| - 1]
    decreases |times|
  {
    if |times| == 0 then (e, [])
    else
      var (e', fired) := Tick(e, times[0]);
      var (final, later) := Run(e', times[1..]);
      (final, if fired then [times[0]] + later else later)
  }

  /** Run read one tick at a time from the end: a reading appended to the
      sequence fires exactly when it is at least an interval after the last
      firing of the run so far, and is then the latest firing. With `Run`'s
      own contract this fixes every firing of every run. */
  lemma {:induction false} RunSnoc(e: Emitter, times: seq<real>, now: real)
    ensures var r := Run(e, times);
      Run(e, times + [now])
        == (Tick(r.0, now).0, r.1 + (if now - r.0.last >= e.interval as real then [now] else []))
    decreases |times|
  {
    if |times| == 0 {
      assert times + [now] == [now];
      assert [now][1..] == [];
      var (e', fired) := Tick(e, now);
      assert [now][0] == now;
      assert Run(e', []) == (e', []);
      assert [now] + [] == [now];
      assert Run(e, [now]) == (e', if fired then [now] else []);
      var none: seq<real> := [];
      assert none + (if fired then [now] else []) == (if fired then [now] else []);
    } else {
      var (e', fired) := Tick(e, times[0]);
      assert (times + [now])[0] == times[0];
      assert (times + [now])[1..] == times[1..] + [now];
      RunSnoc(e', times[1..], now);
      var tail := Run(e', times[1..]);
      var extra := if now - tail.0.last >= e.interval as real then [now] else [];
      if fired {
        assert [times[0]] + (tail.1 + extra) == ([times[0]] + tail.1) + extra;
      }
    }
  }

  /** Firings are at least an interval apart, and the first one is at least an
      interval after the emitter's starting "last fired" time. */
  lemma {:induction false} FiringsSpaced(e: Emitter, times: seq<real>)
    ensures var f := Run(e, times).1;
      && (|f| > 0 ==> f[0] - e.last >= e.interval as real)
      && Spaced(f, e.interval as real)
    decreases |times|
  {
    if |times| > 0 {
      var (e', fired) := Tick(e, times[0]);
      FiringsSpaced(e', times[1..]);
    }
  }

  /** Consequently, over a run the first and last firings are at least
      (n - 1) intervals apart, where n is the number of firings: the emitter
      fires at most once per interval. */
  lemma FiringsSpread(e: Emitter, times: seq<real>)
    ensures var f := Run(e, times).1;
      |f| > 0 ==> f[|f| - 1] - f[0] >= (|f| - 1) as real * e.interval as real
  {
    FiringsSpaced(e, times);
    SpacedSpan(Run(e, times).1, e.interval as real);
  }

  /** Consecutive entries of `f` are at least `gap` apart. */
  ghost predicate Spaced(f: seq<real>, gap: real)
  {
    forall k :: 0 < k < |f| ==> f[k] - f[k - 1] >= gap
  }

  /** Entries at least `gap` apart span at least (n - 1) gaps. */
  lemma SpacedSpan(f: seq<real>, gap: real)
    requires Spaced(f, gap)
    ensures |f| > 0 ==> f[|f| - 1] - f[0] >= (|f| - 1) as real * gap
  {
    if |f| > 0 {
      SpacedSpread(f, gap, |f| - 1);
    }
  }

  lemma {:induction false} SpacedSpread(f: seq<real>, gap: real, n: nat)
    requires n < |f| && Spaced(f, gap)
    ensures f[n] - f[0] >= n as real * gap
  {
    if n > 0 {
      SpacedSpread(f, gap, n - 1);
      assert f[n] - f[n - 1] >= gap;
      assert n as real * gap == (n - 1) as real * gap + gap;
    }
  }

  /** The scenario of the tests: interval 1, clock readings 0.0, 0.5, 1.2, 1.8
      and 2.3; the emitter fires at 1.2 and at 2.3 only. */
  lemma FiresAtTestReadings()
    ensures NewEmitter(1).Ok?
    ensures Run(NewEmitter(1).value, [0.0, 0.5, 1.2, 1.8, 2.3]).1 == [1.2, 2.3]
  {
    var e := NewEmitter(1).value;
    var times := [0.0, 0.5, 1.2, 1.8, 2.3];
    assert times[1..] == [0.5, 1.2, 1.8, 2.3];
    assert times[2..] == [1.2, 1.8, 2.3];
    assert times[3..] == [1.8, 2.3];
    assert times[4..] == [2.3];
    assert Run(e.(last := 1.2), [1.8, 2.3]).1 == [2.3] by {
      assert [1.8, 2.3][1..] == [2.3];
      assert [2.3][1..] == [];
    }
  }
}
