/** What the copy loop of the write pipeline guarantees, for every schedule of reads,
    writes and cancellation. */
module CopyLoop {
  import opened Wrappers
  import opened Progress
  import opened Streams

  // ---- The disk mirrors what was delivered ----

  /** Since the disk was `d0`, exactly the bytes from its position on have been overwritten,
      each with the delivered byte `off` places further on. */
  ghost predicate Mirrors(d0: Disk, f: Flow, off: int) {
    && d0.pos <= f.disk.pos <= |f.disk.data| == |d0.data|
    && off + f.disk.pos <= |f.chain.delivered| && 0 <= off + d0.pos
    && (forall i :: d0.pos <= i < f.disk.pos ==> f.disk.data[i] == f.chain.delivered[off + i])
    && (forall i :: 0 <= i < d0.pos || f.disk.pos <= i < |d0.data| ==> f.disk.data[i] == d0.data[i])
  }

  lemma WriteMirrors(d0: Disk, f: Flow, p: Bytes, off: int, now: nat)
    requires f.disk.Valid() && |p| <= |f.chain.delivered|
    requires var n := |f.chain.delivered| - |p|;
             f.chain.delivered[n..] == p && off + f.disk.pos == n
    requires Mirrors(d0, f.(chain := f.chain.(delivered := f.chain.delivered[..|f.chain.delivered| - |p|])), off)
    ensures Mirrors(d0, f.(disk := WriteDisk(f.disk, p, now)), off)
  {
    var r := WriteDisk(f.disk, p, now);
    var k := Accepted(f.disk, |p|);
    forall i | f.disk.pos <= i < f.disk.pos + k
      ensures r.data[i] == f.chain.delivered[off + i]
    {
      assert r.data[i] == p[i - f.disk.pos] == f.chain.delivered[off + i];
    }
  }

  /** What one pass does, seen from the start of the copy: `written` bytes are counted, at
      most one buffer more is on the disk, and none when the pass has `caughtUp`. */
  ghost predicate PassFits(d0: Disk, f: Flow, written: nat, off: int, caughtUp: bool) {
    && f.disk.Valid() && Mirrors(d0, f, off)
    && written <= f.disk.pos - d0.pos <= written + BUFFER
    && (caughtUp ==> written == f.disk.pos - d0.pos && off + f.disk.pos == |f.chain.delivered|)
  }

  /** The read half of a pass: the new data is delivered, the disk is as it was. */
  lemma ReadMirrors(w: World, d0: Disk, f: Flow, off: int)
    requires f.disk.Valid() && Mirrors(d0, f, off)
    ensures var g := Read(w, Tick(f), BUFFER);
            && g.flow.disk == f.disk && |g.data| <= BUFFER && Mirrors(d0, g.flow, off)
            && g.flow.chain.delivered == f.chain.delivered + g.data
            && g.flow.chain.delivered[|f.chain.delivered|..] == g.data
            && g.flow.chain.delivered[..|f.chain.delivered|] == f.chain.delivered
  {
    ReadShrinks(w, Tick(f), BUFFER);
  }

  /** The write half. */
  lemma WrittenMirrors(d0: Disk, f: Flow, g: Flow, p: Bytes, off: int)
    requires f.disk.Valid() && Mirrors(d0, f, off) && off + f.disk.pos == |f.chain.delivered|
    requires g.disk == f.disk && g.chain.delivered == f.chain.delivered + p
    ensures Mirrors(d0, g.(disk := WriteDisk(g.disk, p, g.now)), off)
  {
    assert g.chain.delivered[|f.chain.delivered|..] == p && g.chain.delivered[..|f.chain.delivered|] == f.chain.delivered;
    assert Mirrors(d0, g.(chain := g.chain.(delivered := f.chain.delivered)), off);
    WriteMirrors(d0, g, p, off, g.now);
  }

  lemma MirrorsOnlySees(d0: Disk, f: Flow, g: Flow, off: int)
    requires Mirrors(d0, f, off) && g.disk == f.disk && g.chain == f.chain
    ensures Mirrors(d0, g, off)
  {
  }

  lemma {:induction false} PassMirrors(w: World, d0: Disk, f: Flow, written: nat, off: int)
    requires PassFits(d0, f, written, off, true)
    ensures match CopyPass(w, f, written)
            case Return(r) => PassFits(d0, r.flow, r.written, off, r.err.None?) && r.written >= written
            case Continue(f1, written1) => PassFits(d0, f1, written1, off, true) && written1 >= written
  {
    if w.Done(f.now) {
      MirrorsOnlySees(d0, f, Tick(f), off);
    } else {
      var g := Read(w, Tick(f), BUFFER);
      ReadMirrors(w, d0, f, off);
      if |g.data| > 0 {
        WrittenMirrors(d0, f, g.flow, g.data, off);
        var f1 := g.flow.(disk := WriteDisk(g.flow.disk, g.data, g.flow.now));
        var f2 := match CopyPass(w, f, written) case Return(r) => r.flow case Continue(x, _) => x;
        MirrorsOnlySees(d0, f1, f2, off);
      }
    }
  }

  lemma {:induction false} CopyMirrors(w: World, d0: Disk, f: Flow, written: nat, off: int)
    requires PassFits(d0, f, written, off, true)
    ensures var r := Copy(w, f, written);
            PassFits(d0, r.flow, r.written, off, r.err.None?) && r.written >= written
    decreases Left(f.chain)
  {
    PassMirrors(w, d0, f, written, off);
    PassShrinks(w, f, written);
    match CopyPass(w, f, written)
    case Return(_) =>
    case Continue(f1, written1) => CopyMirrors(w, d0, f1, written1, off);
  }

  // ---- The source is read to its end ----

  /** The body's bytes and the error that ends them. */
  function Payload(body: seq<BodyEvent>): Bytes {
    if body == [] then []
    else body[0].data + if body[0].err.Some? then [] else Payload(body[1..])
  }

  function Ending(body: seq<BodyEvent>): IoError {
    if body == [] then Eof
    else if body[0].err.Some? then body[0].err.value else Ending(body[1..])
  }

  lemma BodyReadPayload(body: seq<BodyEvent>, cap: nat)
    ensures var (data, err, rest) := BodyRead(body, cap);
            && Payload(body) == data + Payload(rest) && Ending(body) == Ending(rest)
            && (err.Some? ==> err.value == Ending(body) && Payload(rest) == [])
  {
    if body != [] && |body[0].data| > cap {
      var tail := [BodyEvent(body[0].data[cap..], body[0].err)] + body[1..];
      assert tail[1..] == body[1..];
      Associative(body[0].data[..cap], body[0].data[cap..], if body[0].err.Some? then [] else Payload(body[1..]));
      assert body[0].data == body[0].data[..cap] + body[0].data[cap..];
    }
  }

  /** What has been consumed and what is left make up the body. */
  ghost predicate Splits(consumed: Bytes, left: seq<BodyEvent>, ended: bool, body: seq<BodyEvent>) {
    && consumed + Payload(left) == Payload(body) && Ending(left) == Ending(body)
    && (ended ==> Payload(left) == [] && Ending(body) == Eof)
  }

  /** The chain has consumed a prefix of the body; Plain has delivered it as it came. */
  ghost predicate Consuming(c: Chain, body: seq<BodyEvent>) {
    Splits(c.consumed, c.body, c.ended, body) && (c.codec.Plain? ==> c.delivered == c.consumed)
  }

  lemma Associative<T>(a: seq<T>, b: seq<T>, c: seq<T>)
    ensures (a + b) + c == a + (b + c)
  {
  }

  lemma CounterConsumes(w: World, f: Flow, cap: nat, body: seq<BodyEvent>)
    requires Splits(f.chain.consumed, f.chain.body, f.chain.ended, body)
    ensures var g := CounterRead(w, f, cap);
            && Splits(g.flow.chain.consumed, g.flow.chain.body, g.flow.chain.ended, body)
            && (g.err == Some(Eof) ==> g.flow.chain.ended)
            && (g.err != Some(ContextCancelled) || !w.Done(f.now) ==> g.flow.chain.consumed == f.chain.consumed + g.data)
            && g.flow.chain.delivered == f.chain.delivered && g.flow.chain.codec == f.chain.codec
            && g.flow.meter.downloaded - |g.flow.chain.consumed| == f.meter.downloaded - |f.chain.consumed|
  {
    BodyReadPayload(f.chain.body, cap);
    if !w.Done(f.now) {
      var (data, err, rest) := BodyRead(f.chain.body, cap);
      Associative(f.chain.consumed, data, Payload(rest));
    }
  }

  lemma {:induction false} PullConsumes(w: World, f: Flow, n: nat, body: seq<BodyEvent>)
    requires Splits(f.chain.consumed, f.chain.body, f.chain.ended, body)
    ensures var g := Pull(w, f, n);
            && Splits(g.flow.chain.consumed, g.flow.chain.body, g.flow.chain.ended, body)
            && g.flow.meter.downloaded - |g.flow.chain.consumed| == f.meter.downloaded - |f.chain.consumed|
    decreases n
  {
    if n > 0 {
      CounterConsumes(w, f, INNER_BUFFER, body);
      var g := CounterRead(w, f, INNER_BUFFER);
      if g.err.None? {
        PullConsumes(w, g.flow, n - 1, body);
      }
    }
  }

  /** At its end a trusted chain has consumed the whole body and delivered all of it,
      decompressed if need be. */
  ghost predicate Whole(w: World, c: Chain, body: seq<BodyEvent>) {
    !c.codec.External? ==>
      && Ending(body) == Eof && c.consumed == Payload(body)
      && c.delivered == if c.codec.Plain? then Payload(body) else w.inflate(Payload(body))
  }

  /** Putting out consumes nothing, and the end is reported only when it is the end. */
  lemma {:induction false} EmitConsumes(w: World, f: Flow, inputErr: Option<IoError>, step: DecodeStep, rest: seq<DecodeStep>, cap: nat)
    ensures var g := Emit(w, f, inputErr, step, rest, cap);
            && g.flow.chain.consumed == f.chain.consumed && g.flow.chain.body == f.chain.body
            && g.flow.chain.ended == f.chain.ended && g.flow.chain.codec == f.chain.codec
            && g.flow.meter == f.meter
            && (g.err == Some(Eof) && !f.chain.codec.External? ==>
                  f.chain.ended && g.flow.chain.delivered == w.inflate(f.chain.consumed))
  {
  }

  lemma {:induction false} DecodeConsumes(w: World, f: Flow, cap: nat, body: seq<BodyEvent>)
    requires cap > 0 && !f.chain.codec.Plain? && Splits(f.chain.consumed, f.chain.body, f.chain.ended, body)
    ensures var g := Decode(w, f, cap);
            && Splits(g.flow.chain.consumed, g.flow.chain.body, g.flow.chain.ended, body)
            && g.flow.chain.codec == f.chain.codec
            && (g.err == Some(Eof) && !f.chain.codec.External? ==>
                  g.flow.chain.ended && g.flow.chain.delivered == w.inflate(g.flow.chain.consumed))
            && g.flow.meter.downloaded - |g.flow.chain.consumed| == f.meter.downloaded - |f.chain.consumed|
  {
    if f.chain.steps != [] {
      var step := f.chain.steps[0];
      PullConsumes(w, f, step.pulls, body);
      PullKeeps(w, f, step.pulls);
      var pulled := Pull(w, f, step.pulls);
      EmitConsumes(w, pulled.flow, pulled.err, step, f.chain.steps[1..], cap);
    } else {
      assert f.chain.delivered + [] == f.chain.delivered;
    }
  }

  /** What has been consumed when the input has ended is the whole body. */
  lemma EndedIsWhole(w: World, c: Chain, body: seq<BodyEvent>)
    requires Splits(c.consumed, c.body, c.ended, body) && c.ended
    ensures Ending(body) == Eof && c.consumed == Payload(body)
  {
  }

  lemma {:induction false} ReadConsumes(w: World, f: Flow, cap: nat, body: seq<BodyEvent>)
    requires cap > 0 && Consuming(f.chain, body)
    ensures var g := Read(w, f, cap);
            && Consuming(g.flow.chain, body)
            && (g.err == Some(Eof) ==> Whole(w, g.flow.chain, body))
            && g.flow.meter.downloaded - |g.flow.chain.consumed| == f.meter.downloaded - |f.chain.consumed|
  {
    var g := Read(w, f, cap);
    if f.chain.codec.Plain? {
      CounterConsumes(w, f, cap, body);
    } else {
      DecodeConsumes(w, f, cap, body);
    }
    if g.err == Some(Eof) && !f.chain.codec.External? {
      EndedIsWhole(w, g.flow.chain, body);
    }
  }

  /** The write half of a pass reads nothing, and the tracker counts what it writes. */
  lemma {:induction false} WriteConsumesNothing(w: World, f: Flow, data: Bytes, err: Option<IoError>, written: nat)
    requires f.disk.Valid()
    ensures match AfterRead(w, f, data, err, written)
            case Return(r) =>
              && r.flow.chain == f.chain && r.flow.meter.downloaded == f.meter.downloaded
              && r.flow.meter.written - r.written == f.meter.written - written
              && (r.err.None? ==> err == Some(Eof))
            case Continue(f1, written1) =>
              && f1.chain == f.chain && f1.meter.downloaded == f.meter.downloaded
              && f1.meter.written - written1 == f.meter.written - written
  {
  }

  /** A pass only adds to what has been written, and the tracker counts it. */
  lemma {:induction false} PassConsumes(w: World, f: Flow, written: nat, body: seq<BodyEvent>)
    requires f.disk.Valid() && Consuming(f.chain, body)
    ensures var p := CopyPass(w, f, written);
            var f1 := if p.Return? then p.result.flow else p.flow;
            var written1 := if p.Return? then p.result.written else p.written;
            && Consuming(f1.chain, body)
            && (p.Return? && p.result.err.None? ==> Whole(w, f1.chain, body))
            && f1.meter.downloaded - |f1.chain.consumed| == f.meter.downloaded - |f.chain.consumed|
            && f1.meter.written - written1 == f.meter.written - written
  {
    if !w.Done(f.now) {
      var g := Read(w, Tick(f), BUFFER);
      ReadShrinks(w, Tick(f), BUFFER);
      ReadConsumes(w, Tick(f), BUFFER, body);
      WriteConsumesNothing(w, g.flow, g.data, g.err, written);
    }
  }

  lemma {:induction false} CopyConsumes(w: World, f: Flow, written: nat, body: seq<BodyEvent>)
    requires f.disk.Valid() && Consuming(f.chain, body)
    ensures var r := Copy(w, f, written);
            && Consuming(r.flow.chain, body)
            && (r.err.None? ==> Whole(w, r.flow.chain, body))
            && r.flow.meter.downloaded - |r.flow.chain.consumed| == f.meter.downloaded - |f.chain.consumed|
            && r.flow.meter.written - r.written == f.meter.written - written
    decreases Left(f.chain)
  {
    PassShrinks(w, f, written);
    PassConsumes(w, f, written, body);
    match CopyPass(w, f, written)
    case Return(_) =>
    case Continue(f1, written1) => CopyConsumes(w, f1, written1, body);
  }

  // ---- Writing after cancel ----

  /** The writes since `before` are of at most one buffer each, and only the last of them can
      have begun after the cancel. */
  ghost predicate OnlyLastLate(w: World, before: Disk, after: Disk) {
    && before.log <= after.log
    && (forall i :: |before.log| <= i < |after.log| ==> after.log[i].size <= BUFFER)
    && (forall i :: |before.log| <= i < |after.log| - 1 ==> !w.Done(after.log[i].at))
  }

  lemma {:induction false} PassLogs(w: World, f: Flow, written: nat)
    requires f.disk.Valid()
    ensures var p := CopyPass(w, f, written);
            var f1 := if p.Return? then p.result.flow else p.flow;
            && f1.now > f.now && f.disk.log <= f1.disk.log && |f1.disk.log| <= |f.disk.log| + 1
            && (w.Done(f.now) ==> p.Return? && f1.disk == f.disk && p.result.err == Some(ContextCancelled) && p.result.written == written)
            && (|f1.disk.log| > |f.disk.log| ==> f1.disk.log[|f.disk.log|].size <= BUFFER && f1.disk.log[|f.disk.log|].at < f1.now)
  {
    ReadShrinks(w, Tick(f), BUFFER);
  }

  lemma {:induction false} CopyLateWrites(w: World, f: Flow, written: nat)
    requires f.disk.Valid()
    ensures OnlyLastLate(w, f.disk, Copy(w, f, written).flow.disk)
    ensures w.Done(f.now) ==> Copy(w, f, written).flow.disk == f.disk && Copy(w, f, written).err == Some(ContextCancelled)
    decreases Left(f.chain)
  {
    PassLogs(w, f, written);
    PassShrinks(w, f, written);
    match CopyPass(w, f, written)
    case Return(_) =>
    case Continue(f1, written1) =>
      CopyLateWrites(w, f1, written1);
      LateAfterPass(w, f.disk, f1, Copy(w, f1, written1).flow.disk);
  }

  /** If the write of a pass was late, the next poll sees the cancel. */
  lemma LateAfterPass(w: World, before: Disk, f: Flow, after: Disk)
    requires OnlyLastLate(w, f.disk, after) && (w.Done(f.now) ==> after == f.disk)
    requires before.log <= f.disk.log && |f.disk.log| <= |before.log| + 1
    requires |f.disk.log| > |before.log| ==> f.disk.log[|before.log|].size <= BUFFER && f.disk.log[|before.log|].at < f.now
    ensures OnlyLastLate(w, before, after)
  {
    assert forall i :: 0 <= i < |f.disk.log| ==> after.log[i] == f.disk.log[i];
  }

  // ---- The copy as a whole ----

  /** A copy begins with nothing delivered, at the start of the disk, and with part of the
      body `body` already consumed (a decompressor reads its header first). */
  ghost predicate Begins(f: Flow, body: seq<BodyEvent>) {
    f.disk.pos == 0 && f.chain.delivered == [] && Consuming(f.chain, body)
  }

  /** On every return the first `written` bytes of the disk are the first `written` bytes the
      source delivered, and nothing beyond one more buffer is touched. On a nil return they
      are all of it, and the source was read to its end. The tracker has grown by the same
      count, and its download count by the bytes consumed. Of the writes, each of at most
      one buffer, only the last can have begun after a cancel. */
  lemma CopyRefinesPrefix(w: World, f: Flow, body: seq<BodyEvent>)
    requires Begins(f, body)
    ensures var r := Copy(w, f, 0);
            var d := r.flow.chain.delivered;
            && r.written <= |d| && r.written <= |f.disk.data| == |r.flow.disk.data|
            && r.flow.disk.data[..r.written] == d[..r.written]
            && (forall i :: r.written + BUFFER <= i < |f.disk.data| ==> r.flow.disk.data[i] == f.disk.data[i])
            && (r.err.None? ==>
                  && r.written == |d| && Whole(w, r.flow.chain, body)
                  && r.flow.disk.data == d + f.disk.data[|d|..])
            && r.flow.meter.written == f.meter.written + r.written
            && r.flow.meter.downloaded - f.meter.downloaded == |r.flow.chain.consumed| - |f.chain.consumed|
            && OnlyLastLate(w, f.disk, r.flow.disk)
  {
    CopyMirrors(w, f.disk, f, 0, 0);
    CopyConsumes(w, f, 0, body);
    CopyLateWrites(w, f, 0);
  }

  /** A plain source delivers its own bytes: what is on the disk is a prefix of the body. */
  lemma {:induction false} PlainCopyIsBodyPrefix(w: World, f: Flow, body: seq<BodyEvent>)
    requires Begins(f, body) && f.chain.codec.Plain?
    ensures var r := Copy(w, f, 0);
            && r.written <= |Payload(body)| && r.written <= |r.flow.disk.data|
            && r.flow.disk.data[..r.written] == Payload(body)[..r.written]
  {
    CopyRefinesPrefix(w, f, body);
    CopyConsumes(w, f, 0, body);
    CopyKeepsCodec(w, f, 0);
    var r := Copy(w, f, 0);
    assert Payload(body) == r.flow.chain.delivered + Payload(r.flow.chain.body);
  }

  lemma {:induction false} CopyKeepsCodec(w: World, f: Flow, written: nat)
    requires f.disk.Valid()
    ensures Copy(w, f, written).flow.chain.codec == f.chain.codec
    decreases Left(f.chain)
  {
    PassShrinks(w, f, written);
    ReadShrinks(w, Tick(f), BUFFER);
    match CopyPass(w, f, written)
    case Return(_) =>
    case Continue(f1, written1) => CopyKeepsCodec(w, f1, written1);
  }

  /** Nothing stands in the way of a plain copy: no cancel, no write fault, enough room. */
  predicate Unhindered(w: World, f: Flow) {
    && w.cancelAt.None? && f.disk.Valid() && f.disk.faults == []
    && f.chain.codec.Plain? && |f.disk.data| - f.disk.pos >= |Payload(f.chain.body)|
  }

  lemma {:induction false} UnhinderedPass(w: World, f: Flow, written: nat)
    requires Unhindered(w, f)
    ensures var left := Payload(f.chain.body);
            match CopyPass(w, f, written)
            case Return(r) => r.written == written + |left| && r.err == if Ending(f.chain.body) == Eof then None else Some(Ending(f.chain.body))
            case Continue(f1, written1) =>
              && Unhindered(w, f1) && Ending(f1.chain.body) == Ending(f.chain.body)
              && written1 + |Payload(f1.chain.body)| == written + |left|
  {
    BodyReadPayload(f.chain.body, BUFFER);
    ReadShrinks(w, Tick(f), BUFFER);
  }

  /** Then the copy writes the whole body and returns nil exactly when the body ends
      normally, and otherwise returns the error that ends it. */
  lemma {:induction false} UnhinderedCopySucceeds(w: World, f: Flow, written: nat)
    requires Unhindered(w, f)
    ensures var r := Copy(w, f, written);
            && r.written == written + |Payload(f.chain.body)|
            && r.err == if Ending(f.chain.body) == Eof then None else Some(Ending(f.chain.body))
    decreases Left(f.chain)
  {
    UnhinderedPass(w, f, written);
    PassShrinks(w, f, written);
    match CopyPass(w, f, written)
    case Return(_) =>
    case Continue(f1, written1) => UnhinderedCopySucceeds(w, f1, written1);
  }

  // ---- Termination ----

  /** A body whose every read delivers something or ends. */
  predicate NeverIdle(body: seq<BodyEvent>) {
    forall i :: 0 <= i < |body| ==> body[i].data != [] || body[i].err.Some?
  }

  function Passes(w: World, f: Flow, written: nat): nat
    requires f.disk.Valid()
    decreases Left(f.chain)
  {
    PassShrinks(w, f, written);
    match CopyPass(w, f, written)
    case Return(_) => 1
    case Continue(f1, written1) => 1 + Passes(w, f1, written1)
  }

  /** The loop goes round at most once for each byte of a finite plain source that is never
      idle, and once more. */
  lemma {:induction false} PassesBounded(w: World, f: Flow, written: nat)
    requires f.disk.Valid() && f.chain.codec.Plain? && NeverIdle(f.chain.body)
    ensures Passes(w, f, written) <= |Payload(f.chain.body)| + 1
    decreases Left(f.chain)
  {
    BodyReadPayload(f.chain.body, BUFFER);
    PassShrinks(w, f, written);
    match CopyPass(w, f, written)
    case Return(_) =>
    case Continue(f1, written1) =>
      assert NeverIdle(f1.chain.body);
      PassesBounded(w, f1, written1);
  }

  /** A decompressor whose every read puts something out or ends. */
  predicate NeverSilent(steps: seq<DecodeStep>) {
    forall i :: 0 <= i < |steps| ==> steps[i].out != [] || !steps[i].end.More?
  }

  function Output(steps: seq<DecodeStep>): nat {
    if steps == [] then 0 else |steps[0].out| + Output(steps[1..])
  }

  lemma DecodeUsesScript(w: World, f: Flow, cap: nat)
    requires cap > 0 && !f.chain.codec.Plain? && NeverSilent(f.chain.steps)
    ensures var g := Decode(w, f, cap);
            g.err.None? ==>
              NeverSilent(g.flow.chain.steps) && Output(g.flow.chain.steps) < Output(f.chain.steps)
              && g.flow.chain.codec == f.chain.codec
  {
    if f.chain.steps != [] {
      var step := f.chain.steps[0];
      PullKeeps(w, f, step.pulls);
      if |step.out| > cap {
        assert ([DecodeStep(0, step.out[cap..], step.end)] + f.chain.steps[1..])[1..] == f.chain.steps[1..];
      }
    }
  }

  lemma {:induction false} DecoderPass(w: World, f: Flow, written: nat)
    requires f.disk.Valid() && !f.chain.codec.Plain? && NeverSilent(f.chain.steps)
    ensures match CopyPass(w, f, written)
            case Return(_) => true
            case Continue(f1, _) =>
              !f1.chain.codec.Plain? && NeverSilent(f1.chain.steps) && Output(f1.chain.steps) < Output(f.chain.steps)
  {
    if !w.Done(f.now) {
      var g := Read(w, Tick(f), BUFFER);
      ReadShrinks(w, Tick(f), BUFFER);
      DecodeUsesScript(w, Tick(f), BUFFER);
      WriteConsumesNothing(w, g.flow, g.data, g.err, written);
    }
  }

  /** Nor more often than once for each byte a decompressor that is never silent puts out,
      and once more. */
  lemma {:induction false} DecoderPassesBounded(w: World, f: Flow, written: nat)
    requires f.disk.Valid() && !f.chain.codec.Plain? && NeverSilent(f.chain.steps)
    ensures Passes(w, f, written) <= Output(f.chain.steps) + 1
    decreases Left(f.chain)
  {
    PassShrinks(w, f, written);
    DecoderPass(w, f, written);
    match CopyPass(w, f, written)
    case Return(_) =>
    case Continue(f1, written1) => DecoderPassesBounded(w, f1, written1);
  }

  // ---- What a decompressor puts out ----

  function Outputs(steps: seq<DecodeStep>): Bytes {
    if steps == [] then [] else steps[0].out + Outputs(steps[1..])
  }

  /** Reading moves bytes from what is still to be put out to what is delivered. */
  lemma {:induction false} DecodeOutputs(w: World, f: Flow, cap: nat)
    requires cap > 0
    ensures var g := Decode(w, f, cap);
            g.flow.chain.delivered + Outputs(g.flow.chain.steps) == f.chain.delivered + Outputs(f.chain.steps)
  {
    if f.chain.steps != [] {
      var step, rest := f.chain.steps[0], f.chain.steps[1..];
      PullKeeps(w, f, step.pulls);
      if |step.out| > cap {
        var left := [DecodeStep(0, step.out[cap..], step.end)] + rest;
        assert left[1..] == rest;
        Associative(step.out[..cap], step.out[cap..], Outputs(rest));
        assert step.out == step.out[..cap] + step.out[cap..];
        Associative(f.chain.delivered, step.out[..cap], Outputs(left));
      } else {
        Associative(f.chain.delivered, step.out, Outputs(rest));
      }
    }
  }

  lemma {:induction false} PassOutputs(w: World, f: Flow, written: nat)
    requires f.disk.Valid() && !f.chain.codec.Plain?
    ensures var p := CopyPass(w, f, written);
            var c := if p.Return? then p.result.flow.chain else p.flow.chain;
            c.delivered + Outputs(c.steps) == f.chain.delivered + Outputs(f.chain.steps) && c.codec == f.chain.codec
  {
    if !w.Done(f.now) {
      var g := Read(w, Tick(f), BUFFER);
      ReadShrinks(w, Tick(f), BUFFER);
      DecodeOutputs(w, Tick(f), BUFFER);
      WriteConsumesNothing(w, g.flow, g.data, g.err, written);
    }
  }

  /** So what a decompressed copy delivers is, in order, the first part of the decompressor's
      output, and nothing else. */
  lemma {:induction false} CopyOutputs(w: World, f: Flow, written: nat)
    requires f.disk.Valid() && !f.chain.codec.Plain?
    ensures var c := Copy(w, f, written).flow.chain;
            c.delivered + Outputs(c.steps) == f.chain.delivered + Outputs(f.chain.steps)
    decreases Left(f.chain)
  {
    PassShrinks(w, f, written);
    PassOutputs(w, f, written);
    match CopyPass(w, f, written)
    case Return(_) =>
    case Continue(f1, written1) => CopyOutputs(w, f1, written1);
  }

  // ---- The error of a copy has its cause ----

  /** The decompressor's or the body's error, or the cancel. */
  predicate ReadCause(w: World, plain: bool, now: nat, e: IoError, body: seq<BodyEvent>) {
    (e == ContextCancelled && w.Done(now)) || e == Ending(body) || (!plain && (e == Eof || e == Corrupt))
  }

  lemma {:induction false} CounterCause(w: World, f: Flow, cap: nat)
    ensures var g := CounterRead(w, f, cap);
            && g.flow.now >= f.now && Ending(g.flow.chain.body) == Ending(f.chain.body)
            && (g.err.Some? ==> (g.err.value == ContextCancelled && w.Done(g.flow.now)) || g.err.value == Ending(f.chain.body))
  {
    BodyReadPayload(f.chain.body, cap);
  }

  lemma {:induction false} PullCause(w: World, f: Flow, n: nat)
    ensures var g := Pull(w, f, n);
            && Ending(g.flow.chain.body) == Ending(f.chain.body)
            && (g.err.Some? ==> (g.err.value == ContextCancelled && w.Done(g.flow.now)) || g.err.value == Ending(f.chain.body))
    decreases n
  {
    if n > 0 {
      CounterCause(w, f, INNER_BUFFER);
      var g := CounterRead(w, f, INNER_BUFFER);
      if g.err.None? {
        PullCause(w, g.flow, n - 1);
      }
    }
  }

  lemma {:induction false} ReadHasCause(w: World, f: Flow, cap: nat)
    requires cap > 0
    ensures var g := Read(w, f, cap);
            && Ending(g.flow.chain.body) == Ending(f.chain.body) && g.flow.chain.codec == f.chain.codec
            && (g.err.Some? ==> ReadCause(w, f.chain.codec.Plain?, g.flow.now, g.err.value, f.chain.body))
  {
    if f.chain.codec.Plain? {
      CounterCause(w, f, cap);
    } else if f.chain.steps != [] {
      PullCause(w, f, f.chain.steps[0].pulls);
      PullKeeps(w, f, f.chain.steps[0].pulls);
    }
  }

  /** A write that takes too little or fails, by its fault or because the disk is full. */
  predicate WriteCause(before: Disk, after: Disk, e: IoError) {
    || (e == NoSpace && after.Valid() && after.pos == |after.data|)
    || (exists k :: 0 <= k < |before.faults| &&
          (before.faults[k].err == Some(e) || (e == ShortWrite && before.faults[k].err.None? && before.faults[k].accept < BUFFER)))
  }

  lemma {:induction false} WriteHasCause(w: World, f: Flow, data: Bytes, err: Option<IoError>, written: nat)
    requires f.disk.Valid() && |data| <= BUFFER
    ensures match AfterRead(w, f, data, err, written)
            case Return(r) =>
              && r.flow.now >= f.now
              && (r.err.Some? ==> r.err == err || WriteCause(f.disk, r.flow.disk, r.err.value))
              && (r.err == err ==> err != Some(Eof) || WriteCause(f.disk, r.flow.disk, Eof))
            case Continue(f1, _) => err.None? && f1.disk.Valid() && f1.disk.faults == if f.disk.faults == [] || data == [] then f.disk.faults else f.disk.faults[1..]
  {
    if f.disk.faults != [] {
      assert f.disk.faults[0] in f.disk.faults;
    }
  }

  /** The error a copy returns. */
  predicate CopyCause(w: World, f: Flow, r: Copied) {
    r.err.Some? ==>
      || WriteCause(f.disk, r.flow.disk, r.err.value)
      || (r.err.value != Eof && ReadCause(w, f.chain.codec.Plain?, r.flow.now, r.err.value, f.chain.body))
  }

  lemma {:induction false} PassHasCause(w: World, f: Flow, written: nat)
    requires f.disk.Valid()
    ensures match CopyPass(w, f, written)
            case Return(r) => CopyCause(w, f, r)
            case Continue(f1, _) =>
              && f1.disk.Valid() && f1.chain.codec == f.chain.codec && Ending(f1.chain.body) == Ending(f.chain.body)
              && (f1.disk.faults == f.disk.faults || (f.disk.faults != [] && f1.disk.faults == f.disk.faults[1..]))
  {
    if !w.Done(f.now) {
      var g := Read(w, Tick(f), BUFFER);
      ReadShrinks(w, Tick(f), BUFFER);
      ReadHasCause(w, Tick(f), BUFFER);
      WriteHasCause(w, g.flow, g.data, g.err, written);
      WriteConsumesNothing(w, g.flow, g.data, g.err, written);
    }
  }

  lemma {:induction false} LaterCause(w: World, f: Flow, f1: Flow, r: Copied)
    requires CopyCause(w, f1, r) && f1.chain.codec == f.chain.codec && Ending(f1.chain.body) == Ending(f.chain.body)
    requires f1.disk.faults == f.disk.faults || (f.disk.faults != [] && f1.disk.faults == f.disk.faults[1..])
    ensures CopyCause(w, f, r)
  {
    if r.err.Some? && WriteCause(f1.disk, r.flow.disk, r.err.value) {
      var e := r.err.value;
      if k :| 0 <= k < |f1.disk.faults| &&
              (f1.disk.faults[k].err == Some(e) || (e == ShortWrite && f1.disk.faults[k].err.None? && f1.disk.faults[k].accept < BUFFER)) {
        var j := if f1.disk.faults == f.disk.faults then k else k + 1;
        assert f.disk.faults[j] == f1.disk.faults[k];
      }
    }
  }

  /** No copy fails without a reason: its error is that of a write, ShortWrite for one that
      took too little without an error, NoSpace with the disk full to its end, the context's
      after a cancel, the one that ended the body, or, decompressing, Corrupt; never the normal
      end of the source. */
  lemma {:induction false} CopyHasCause(w: World, f: Flow, written: nat)
    requires f.disk.Valid()
    ensures CopyCause(w, f, Copy(w, f, written))
    decreases Left(f.chain)
  {
    PassHasCause(w, f, written);
    PassShrinks(w, f, written);
    match CopyPass(w, f, written)
    case Return(_) =>
    case Continue(f1, written1) =>
      CopyHasCause(w, f1, written1);
      LaterCause(w, f, f1, Copy(w, f1, written1));
  }

  /** A source that can fill the buffer is written in pieces of four mebibytes. */
  lemma {:induction false} WholeBuffers(w: World, f: Flow, written: nat)
    requires f.disk.Valid() && w.cancelAt.None? && f.chain.codec.Plain?
    requires f.chain.body != [] && |f.chain.body[0].data| >= 4194304
    ensures var p := CopyPass(w, f, written);
            var f1 := if p.Return? then p.result.flow else p.flow;
            |f1.disk.log| == |f.disk.log| + 1 && f1.disk.log[|f.disk.log|].size == 4194304
  {
    PassLogs(w, f, written);
  }

  /** Once the context is done no read consumes anything more of the body, whatever the
      decompressor asks for. */
  lemma {:induction false} CancelStopsReading(w: World, f: Flow, cap: nat)
    requires cap > 0 && w.Done(f.now)
    ensures var c := Read(w, f, cap).flow.chain; c.consumed == f.chain.consumed && c.body == f.chain.body
    ensures f.chain.codec.Plain? ==> Read(w, f, cap).data == [] && Read(w, f, cap).err == Some(ContextCancelled)
  {
    if !f.chain.codec.Plain? && f.chain.steps != [] {
      CancelStopsPull(w, f, f.chain.steps[0].pulls);
      var pulled := Pull(w, f, f.chain.steps[0].pulls);
      EmitConsumes(w, pulled.flow, pulled.err, f.chain.steps[0], f.chain.steps[1..], cap);
    }
  }

  lemma {:induction false} CancelStopsPull(w: World, f: Flow, n: nat)
    requires w.Done(f.now)
    ensures Pull(w, f, n).flow.chain == f.chain
  {
  }

  lemma {:induction false} ReadKeepsGauge(w: World, f: Flow, cap: nat)
    requires cap > 0
    ensures var m := Read(w, f, cap).flow.meter; m.total == f.meter.total && m.startedAt == f.meter.startedAt
  {
    if !f.chain.codec.Plain? && f.chain.steps != [] {
      PullKeepsGauge(w, f, f.chain.steps[0].pulls);
      var pulled := Pull(w, f, f.chain.steps[0].pulls);
      EmitConsumes(w, pulled.flow, pulled.err, f.chain.steps[0], f.chain.steps[1..], cap);
    }
  }

  lemma {:induction false} PullKeepsGauge(w: World, f: Flow, n: nat)
    ensures var m := Pull(w, f, n).flow.meter; m.total == f.meter.total && m.startedAt == f.meter.startedAt
    decreases n
  {
    if n > 0 && CounterRead(w, f, INNER_BUFFER).err.None? {
      PullKeepsGauge(w, CounterRead(w, f, INNER_BUFFER).flow, n - 1);
    }
  }

  /** The expected size and the time of the start stay as they were set. */
  lemma {:induction false} CopyKeepsGauge(w: World, f: Flow, written: nat)
    requires f.disk.Valid()
    ensures var m := Copy(w, f, written).flow.meter; m.total == f.meter.total && m.startedAt == f.meter.startedAt
    decreases Left(f.chain)
  {
    PassShrinks(w, f, written);
    ReadKeepsGauge(w, Tick(f), BUFFER);
    match CopyPass(w, f, written)
    case Return(_) =>
    case Continue(f1, written1) => CopyKeepsGauge(w, f1, written1);
  }
}
