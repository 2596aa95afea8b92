/** The speed the tracker shows during a copy (agent/internal/deploy/pipeline.go,
    agent/internal/progress/progress.go). */
module Sampling {
  import opened Wrappers
  import opened Progress
  import opened Streams
  import opened CopyLoop
  import opened Pipeline

  /** The wall clock does not go back. */
  ghost predicate Steady(w: World) {
    forall a: nat, b: nat :: a <= b ==> w.wall(a) <= w.wall(b)
  }

  /** When the tracker was last told of a write: right after the last one. */
  function LastTold(w: World, log: seq<WriteRecord>, from: nat, start: nat): real {
    if |log| > from then w.wall(log[|log| - 1].at + 1) else w.wall(start)
  }

  /** The meter is that of some sampling windows: they tile the time from the start to the last
      sample, each half a second or longer, less than that before the last write; they and what
      came since make up the bytes written; the speed is that of the last of them. */
  ghost predicate Sampled(w: World, m: Meter, log: seq<WriteRecord>, from: nat, total: int, start: nat) {
    exists windows :: Conserved(Trace(m, windows, LastTold(w, log, from, start)), total, w.wall(start))
  }

  /** All writes so far were before now. */
  predicate Past(log: seq<WriteRecord>, from: nat, start: nat, now: nat) {
    from <= |log| && start <= now && forall i :: from <= i < |log| ==> start <= log[i].at < now
  }

  /** Only the downloaded count may differ. */
  predicate SameGauge(a: Meter, b: Meter) {
    a == b.(downloaded := a.downloaded)
  }

  lemma SampledSame(w: World, a: Meter, b: Meter, log: seq<WriteRecord>, from: nat, total: int, start: nat)
    requires Sampled(w, a, log, from, total, start) && SameGauge(a, b)
    ensures Sampled(w, b, log, from, total, start)
  {
    var windows :| Conserved(Trace(a, windows, LastTold(w, log, from, start)), total, w.wall(start));
    assert Conserved(Trace(b, windows, LastTold(w, log, from, start)), total, w.wall(start));
  }

  /** A write counted right after it was made. */
  lemma {:induction false} TellSampled(w: World, m: Meter, log: seq<WriteRecord>, from: nat, total: int, start: nat, n: nat, at: nat)
    requires Steady(w) && Sampled(w, m, log, from, total, start) && Past(log, from, start, at)
    ensures Sampled(w, m.AddWritten(n, w.wall(at + 1)), log + [WriteRecord(at, n)], from, total, start)
  {
    var windows :| Conserved(Trace(m, windows, LastTold(w, log, from, start)), total, w.wall(start));
    var t := Trace(m, windows, LastTold(w, log, from, start));
    var t' := Feed(t, Add(n, w.wall(at + 1)), 0);
    FeedConserves(t, Add(n, w.wall(at + 1)), 0, total, w.wall(start));
    assert LastTold(w, log + [WriteRecord(at, n)], from, start) == w.wall(at + 1);
    assert t' == Trace(m.AddWritten(n, w.wall(at + 1)), t'.windows, w.wall(at + 1));
  }

  lemma {:induction false} PullSameGauge(w: World, f: Flow, n: nat)
    ensures SameGauge(Pull(w, f, n).flow.meter, f.meter)
    decreases n
  {
    if n > 0 && CounterRead(w, f, INNER_BUFFER).err.None? {
      PullSameGauge(w, CounterRead(w, f, INNER_BUFFER).flow, n - 1);
    }
  }

  lemma {:induction false} ReadSameGauge(w: World, f: Flow, cap: nat)
    requires cap > 0
    ensures SameGauge(Read(w, f, cap).flow.meter, f.meter)
  {
    if !f.chain.codec.Plain? && f.chain.steps != [] {
      var step := f.chain.steps[0];
      PullSameGauge(w, f, step.pulls);
      var pulled := Pull(w, f, step.pulls);
      EmitConsumes(w, pulled.flow, pulled.err, step, f.chain.steps[1..], cap);
    }
  }

  /** Up to the last write, or, when that write failed, up to the one before. */
  ghost predicate EndsSampled(w: World, r: Copied, from: nat, total: int, start: nat) {
    var log := r.flow.disk.log;
    || Sampled(w, r.flow.meter, log, from, total, start)
    || (r.err.Some? && |log| > from && Sampled(w, r.flow.meter, log[..|log| - 1], from, total, start))
  }

  /** The writing half of a pass: it counts what it has written, or returns. */
  lemma {:induction false} WriteSampled(
    w: World, f: Flow, data: Bytes, err: Option<IoError>, written: nat, from: nat, total: int, start: nat)
    requires Steady(w) && f.disk.Valid()
    requires Sampled(w, f.meter, f.disk.log, from, total, start) && Past(f.disk.log, from, start, f.now)
    ensures match AfterRead(w, f, data, err, written)
            case Return(r) => EndsSampled(w, r, from, total, start)
            case Continue(f1, _) =>
              f1.disk.Valid() && Sampled(w, f1.meter, f1.disk.log, from, total, start) && Past(f1.disk.log, from, start, f1.now)
  {
    if |data| > 0 {
      TellSampled(w, f.meter, f.disk.log, from, total, start, |data|, f.now);
      var log := f.disk.log + [WriteRecord(f.now, |data|)];
      assert WriteDisk(f.disk, data, f.now).log == log && log[..|log| - 1] == f.disk.log;
      assert Past(log, from, start, f.now + 1);
    }
  }

  lemma {:induction false} PassSampled(w: World, f: Flow, written: nat, from: nat, total: int, start: nat)
    requires Steady(w) && f.disk.Valid()
    requires Sampled(w, f.meter, f.disk.log, from, total, start) && Past(f.disk.log, from, start, f.now)
    ensures match CopyPass(w, f, written)
            case Return(r) => EndsSampled(w, r, from, total, start)
            case Continue(f1, _) =>
              f1.disk.Valid() && Sampled(w, f1.meter, f1.disk.log, from, total, start) && Past(f1.disk.log, from, start, f1.now)
  {
    if !w.Done(f.now) {
      var g := Read(w, Tick(f), BUFFER);
      ReadShrinks(w, Tick(f), BUFFER);
      ReadSameGauge(w, Tick(f), BUFFER);
      SampledSame(w, f.meter, g.flow.meter, f.disk.log, from, total, start);
      WriteSampled(w, g.flow, g.data, g.err, written, from, total, start);
    }
  }

  /** With a steady clock the copy, whatever it reads and writes, leaves the tracker sampled up
      to its last write, or, when that write failed, up to the one before. */
  lemma {:induction false} CopySampled(w: World, f: Flow, written: nat, from: nat, total: int, start: nat)
    requires Steady(w) && f.disk.Valid()
    requires Sampled(w, f.meter, f.disk.log, from, total, start) && Past(f.disk.log, from, start, f.now)
    ensures EndsSampled(w, Copy(w, f, written), from, total, start)
    decreases Left(f.chain)
  {
    PassShrinks(w, f, written);
    PassSampled(w, f, written, from, total, start);
    match CopyPass(w, f, written)
    case Return(_) =>
    case Continue(f1, written1) => CopySampled(w, f1, written1, from, total, start);
  }

  lemma StartSampled(w: World, total: int, start: nat, log: seq<WriteRecord>)
    ensures Sampled(w, Started(total, w.wall(start)), log, |log|, total, start)
  {
    var none: seq<Window> := [];
    assert LastTold(w, log, |log|, start) == w.wall(start);
    assert Conserved(Trace(Started(total, w.wall(start)), none, LastTold(w, log, |log|, start)), total, w.wall(start));
  }

  /** With a steady clock, when Run returns nil its tracker's speed is that of the last of a
      series of windows, each half a second or longer, that tile the time from Run's start up to
      less than half a second before its last write was counted; and they and the bytes since
      make up exactly the bytes written. */
  lemma {:induction false} RunSampled(w: World, f: Flow, image: Image, s: Surroundings)
    requires Steady(w) && f.disk.Valid() && RunSpec(w, f, image, s).err.None?
    ensures var r := RunSpec(w, f, image, s);
            Sampled(w, r.flow.meter, r.flow.disk.log, |f.disk.log|, image.rawSize, f.now)
  {
    var started := f.(meter := Started(image.rawSize, w.wall(f.now)));
    var f1 := OpenDecoder(w, started, image.format, s).0;
    OpenKeepsDisk(w, started, image.format, s);
    StartSampled(w, image.rawSize, f.now, f.disk.log);
    OpenSameGauge(w, started, image.format, s);
    SampledSame(w, started.meter, f1.meter, f.disk.log, |f.disk.log|, image.rawSize, f.now);
    CopySampled(w, f1, 0, |f.disk.log|, image.rawSize, f.now);
    NilCopies(w, f, image, s);
  }

  lemma {:induction false} OpenSameGauge(w: World, f: Flow, format: string, s: Surroundings)
    ensures var f1 := OpenDecoder(w, f, format, s).0; SameGauge(f1.meter, f.meter) && f1.now >= f.now
  {
    if CodecOf(format) == Some(Gzip) {
      var f0 := f.(chain := f.chain.(codec := Gzip));
      PullSameGauge(w, f0, s.headerPulls);
      PullKeeps(w, f0, s.headerPulls);
    }
  }

  lemma {:induction false} NilCopies(w: World, f: Flow, image: Image, s: Surroundings)
    requires f.disk.Valid() && RunSpec(w, f, image, s).err.None?
    ensures var f1 := OpenDecoder(w, f.(meter := Started(image.rawSize, w.wall(f.now))), image.format, s).0;
            && f1.disk == f.disk && Copy(w, f1, 0).err.None?
            && RunSpec(w, f, image, s).flow == Copy(w, f1, 0).flow
  {
    OpenKeepsDisk(w, f.(meter := Started(image.rawSize, w.wall(f.now))), image.format, s);
  }
}
