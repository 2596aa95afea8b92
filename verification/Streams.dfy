/** The byte streams of the write pipeline, as values (agent/internal/deploy/pipeline.go):
    the HTTP body, the digests and the byte counter it is read through, the decompressor,
    and the disk. What the environment will do is given in advance as scripts, so a
    statement about every script is one about every schedule of reads, writes and cancel. */
module Streams {
  import opened Wrappers
  import opened Progress

  type Byte = b: int | 0 <= b < 256
  type Bytes = seq<Byte>

  datatype IoError = Eof | ContextCancelled | ShortWrite | NoSpace | Corrupt | Other(msg: string)

  const BUFFER: nat := 4 * 1024 * 1024
  const INNER_BUFFER: nat := 4096

  /** What no step of the pipeline changes: when the context is cancelled (in clock ticks),
      the wall clock, the decompression function and the digest function. */
  datatype World = World(cancelAt: Option<nat>, wall: nat -> real, inflate: Bytes -> Bytes, sum: Bytes -> string) {
    predicate Done(now: nat) {
      cancelAt.Some? && now >= cancelAt.value
    }
  }

  /** One read of the HTTP body: data and an error may come together. */
  datatype BodyEvent = BodyEvent(data: Bytes, err: Option<IoError>)

  datatype End = More | Finished | Broken

  /** One read of the decompressor: how many reads of its input it makes first, what it puts
      out, and how it then stands. */
  datatype DecodeStep = DecodeStep(pulls: nat, out: Bytes, end: End)

  /** Plain passes bytes through; Gzip ends only when its input has ended and its output is
      the decompression of it; External is another process, whose end is believed. */
  datatype Codec = Plain | Gzip | External

  /** The reader chain. `consumed` is what the compressed digest has absorbed, `delivered`
      what the raw digest has absorbed. */
  datatype Chain = Chain(codec: Codec, body: seq<BodyEvent>, steps: seq<DecodeStep>, ended: bool, consumed: Bytes, delivered: Bytes)

  /** How many bytes the next write accepts at most, and its error. */
  datatype Fault = Fault(accept: nat, err: Option<IoError>)

  datatype WriteRecord = WriteRecord(at: nat, size: nat)

  datatype Disk = Disk(data: Bytes, pos: nat, faults: seq<Fault>, log: seq<WriteRecord>) {
    predicate Valid() {
      pos <= |data|
    }
  }

  /** Everything the pipeline moves: the clock ticks once for each poll, read and write. */
  datatype Flow = Flow(now: nat, chain: Chain, meter: Meter, disk: Disk)

  datatype Got = Got(flow: Flow, data: Bytes, err: Option<IoError>)

  // ---- Reading ----

  /** Read on the body with a buffer of `cap` bytes; an error repeats, an exhausted script
      is the end of the stream. */
  function BodyRead(body: seq<BodyEvent>, cap: nat): (Bytes, Option<IoError>, seq<BodyEvent>) {
    if body == [] then ([], Some(Eof), body)
    else if |body[0].data| > cap then
      (body[0].data[..cap], None, [BodyEvent(body[0].data[cap..], body[0].err)] + body[1..])
    else if body[0].err.Some? then (body[0].data, body[0].err, [BodyEvent([], body[0].err)])
    else (body[0].data, None, body[1..])
  }

  /** counterReader.Read over the digest tee: nothing is read once the context is done. */
  function CounterRead(w: World, f: Flow, cap: nat): Got {
    if w.Done(f.now) then Got(f.(now := f.now + 1), [], Some(ContextCancelled))
    else
      var (data, err, body) := BodyRead(f.chain.body, cap);
      Got(f.(now := f.now + 1,
             chain := f.chain.(body := body, consumed := f.chain.consumed + data, ended := f.chain.ended || err == Some(Eof)),
             meter := f.meter.(downloaded := f.meter.downloaded + |data|)),
          data, err)
  }

  /** The decompressor's reads of its input, up to the first error. */
  function Pull(w: World, f: Flow, n: nat): Got
    decreases n
  {
    if n == 0 then Got(f, [], None)
    else
      var g := CounterRead(w, f, INNER_BUFFER);
      if g.err.Some? then g else Pull(w, g.flow, n - 1)
  }

  function Deliver(f: Flow, out: Bytes): Flow {
    f.(chain := f.chain.(delivered := f.chain.delivered + out))
  }

  function SetSteps(f: Flow, steps: seq<DecodeStep>): Flow {
    f.(chain := f.chain.(steps := steps))
  }

  /** Whether the decompressor may report the end of its output here. */
  predicate MayEnd(w: World, f: Flow, out: Bytes) {
    f.chain.codec.External? || (f.chain.ended && f.chain.delivered + out == w.inflate(f.chain.consumed))
  }

  function Decode(w: World, f: Flow, cap: nat): Got
    requires cap > 0
  {
    if f.chain.steps == [] then
      Got(f, [], Some(if MayEnd(w, f, []) then Eof else Corrupt))
    else
      var pulled := Pull(w, f, f.chain.steps[0].pulls);
      Emit(w, pulled.flow, pulled.err, f.chain.steps[0], f.chain.steps[1..], cap)
  }

  /** What a read of the decompressor puts out once it has read its input: what does not fit
      is kept for the next read, and an error of the input comes after the output. */
  function Emit(w: World, f: Flow, inputErr: Option<IoError>, step: DecodeStep, rest: seq<DecodeStep>, cap: nat): Got {
    if |step.out| > cap then
      Got(Deliver(SetSteps(f, [DecodeStep(0, step.out[cap..], step.end)] + rest), step.out[..cap]), step.out[..cap], None)
    else
      var f1 := Deliver(SetSteps(f, rest), step.out);
      if inputErr.Some? && inputErr != Some(Eof) && !f.chain.codec.External? then Got(f1, step.out, inputErr)
      else
        match step.end
        case More => Got(f1, step.out, None)
        case Finished => Got(f1, step.out, Some(if MayEnd(w, f, step.out) then Eof else Corrupt))
        case Broken => Got(f1, step.out, Some(Corrupt))
  }

  /** A read of the whole chain, through the raw digest tee. */
  function Read(w: World, f: Flow, cap: nat): Got
    requires cap > 0
  {
    if f.chain.codec.Plain? then
      var g := CounterRead(w, f, cap);
      Got(Deliver(g.flow, g.data), g.data, g.err)
    else Decode(w, f, cap).(flow := Tick(Decode(w, f, cap).flow))
  }

  function Tick(f: Flow): Flow {
    f.(now := f.now + 1)
  }

  // ---- Writing ----

  function Min(a: nat, b: nat): nat {
    if a < b then a else b
  }

  /** How many bytes of `n` the next write takes. */
  function Accepted(d: Disk, n: nat): nat
    requires d.Valid()
  {
    Min(if d.faults == [] then n else Min(n, d.faults[0].accept), |d.data| - d.pos)
  }

  function WriteError(d: Disk, n: nat): Option<IoError>
    requires d.Valid()
  {
    if d.faults != [] && (d.faults[0].err.Some? || d.faults[0].accept < n) then d.faults[0].err
    else if |d.data| - d.pos < n then Some(NoSpace)
    else None
  }

  /** A write at the current position: it overwrites, and never truncates or extends. */
  function WriteDisk(d: Disk, p: Bytes, now: nat): (r: Disk)
    requires d.Valid()
    ensures r.Valid() && |r.data| == |d.data|
  {
    var n := Accepted(d, |p|);
    Disk(d.data[..d.pos] + p[..n] + d.data[d.pos + n..], d.pos + n,
         if d.faults == [] then [] else d.faults[1..], d.log + [WriteRecord(now, |p|)])
  }

  // ---- The copy loop ----

  /** What is left of the scripts: a read that returns no error makes it smaller. */
  function BodySize(body: seq<BodyEvent>): nat {
    if body == [] then 0 else 1 + |body[0].data| + BodySize(body[1..])
  }

  function StepsSize(steps: seq<DecodeStep>): nat {
    if steps == [] then 0 else 1 + |steps[0].out| + StepsSize(steps[1..])
  }

  function Left(c: Chain): nat {
    if c.codec.Plain? then BodySize(c.body) else StepsSize(c.steps)
  }

  lemma {:induction false} PullKeeps(w: World, f: Flow, n: nat)
    ensures var r := Pull(w, f, n).flow;
            && r.chain.steps == f.chain.steps && r.chain.codec == f.chain.codec && r.chain.delivered == f.chain.delivered
            && r.disk == f.disk && r.now >= f.now && r.meter.written == f.meter.written
    decreases n
  {
    if n > 0 && CounterRead(w, f, INNER_BUFFER).err.None? {
      PullKeeps(w, CounterRead(w, f, INNER_BUFFER).flow, n - 1);
    }
  }

  lemma ReadShrinks(w: World, f: Flow, cap: nat)
    requires cap > 0
    ensures var g := Read(w, f, cap);
            && g.flow.chain.codec == f.chain.codec && g.flow.disk == f.disk && g.flow.now > f.now
            && g.flow.meter.written == f.meter.written
            && g.flow.chain.delivered == f.chain.delivered + g.data && |g.data| <= cap
            && (g.err.None? ==> Left(g.flow.chain) < Left(f.chain))
  {
    if f.chain.codec.Plain? {
      if f.chain.body != [] && |f.chain.body[0].data| > cap {
        assert ([BodyEvent(f.chain.body[0].data[cap..], f.chain.body[0].err)] + f.chain.body[1..])[1..] == f.chain.body[1..];
      }
    } else if f.chain.steps != [] {
      PullKeeps(w, f, f.chain.steps[0].pulls);
      var step := f.chain.steps[0];
      if |step.out| > cap {
        assert ([DecodeStep(0, step.out[cap..], step.end)] + f.chain.steps[1..])[1..] == f.chain.steps[1..];
      }
    }
  }

  datatype Copied = Copied(flow: Flow, written: nat, err: Option<IoError>)

  /** One pass of the loop body: either the loop returns, or it goes on. */
  datatype Pass = Return(result: Copied) | Continue(flow: Flow, written: nat)

  function CopyPass(w: World, f: Flow, written: nat): Pass
    requires f.disk.Valid()
  {
    if w.Done(f.now) then Return(Copied(Tick(f), written, Some(ContextCancelled)))
    else Transferred(w, Tick(f), written)
  }

  /** One buffer read and written. */
  function Transferred(w: World, f: Flow, written: nat): Pass
    requires f.disk.Valid()
  {
    var g := Read(w, f, BUFFER);
    ReadShrinks(w, f, BUFFER);
    AfterRead(w, g.flow, g.data, g.err, written)
  }

  /** The data is written and counted before the error that came with it is looked at. */
  function AfterRead(w: World, f: Flow, data: Bytes, err: Option<IoError>, written: nat): Pass
    requires f.disk.Valid()
  {
    if |data| > 0 then
      var werr := WriteError(f.disk, |data|);
      var f1 := Tick(f).(disk := WriteDisk(f.disk, data, f.now));
      if werr.Some? then Return(Copied(f1, written, werr))
      else if Accepted(f.disk, |data|) != |data| then Return(Copied(f1, written, Some(ShortWrite)))
      else AfterWrite(f1.(meter := f1.meter.AddWritten(|data|, w.wall(f1.now))), written + |data|, err)
    else AfterWrite(f, written, err)
  }

  function AfterWrite(f: Flow, written: nat, err: Option<IoError>): Pass {
    if err == Some(Eof) then Return(Copied(f, written, None))
    else if err.Some? then Return(Copied(f, written, err))
    else Continue(f, written)
  }

  lemma PassShrinks(w: World, f: Flow, written: nat)
    requires f.disk.Valid()
    ensures var p := CopyPass(w, f, written);
            p.Continue? ==> p.flow.disk.Valid() && Left(p.flow.chain) < Left(f.chain)
  {
    ReadShrinks(w, Tick(f), BUFFER);
  }

  /** copyWithProgress. */
  function Copy(w: World, f: Flow, written: nat): Copied
    requires f.disk.Valid()
    decreases Left(f.chain)
  {
    PassShrinks(w, f, written);
    match CopyPass(w, f, written)
    case Return(result) => result
    case Continue(f1, written1) => Copy(w, f1, written1)
  }
}
