/** The write pipeline as the agent runs it (agent/internal/deploy/pipeline.go): the reader
    chain and the disk as objects, the copy loop, and Run. Each method equals its function
    on values; what Run promises is then proved of that function. */
module Pipeline {
  import opened Wrappers
  import opened Progress
  import opened Streams
  import opened CopyLoop
  import Text

  // ---- The objects ----

  class Clock {
    var now: nat

    constructor ()
      ensures now == 0
    {
      now := 0;
    }

    method Tick()
      modifies this
      ensures now == old(now) + 1
    {
      now := now + 1;
    }
  }

  /** The target device, opened for writing at offset 0 without truncation. */
  class Device {
    const data: array<Byte>
    var pos: nat
    var faults: seq<Fault>
    var log: seq<WriteRecord>

    predicate Valid()
      reads this
    {
      pos <= data.Length
    }

    function View(): Disk
      reads this, data
    {
      Disk(data[..], pos, faults, log)
    }

    constructor (data: array<Byte>, faults: seq<Fault>)
      ensures Valid() && this.data == data && View() == Disk(data[..], 0, faults, [])
    {
      this.data, this.pos, this.faults, this.log := data, 0, faults, [];
    }

    method Write(p: Bytes, now: nat) returns (n: nat, err: Option<IoError>)
      requires Valid()
      modifies this, data
      ensures Valid() && View() == WriteDisk(old(View()), p, now)
      ensures n == Accepted(old(View()), |p|) && err == WriteError(old(View()), |p|)
    {
      ghost var before := View();
      n := Accepted(View(), |p|);
      err := WriteError(View(), |p|);
      for i := 0 to n
        invariant pos == before.pos && pos + n <= data.Length == |before.data| && n <= |p|
        invariant faults == before.faults && log == before.log
        invariant forall j :: 0 <= j < data.Length ==>
                    data[j] == if pos <= j < pos + i then p[j - pos] else before.data[j]
      {
        data[pos + i] := p[i];
      }
      assert data[..] == before.data[..pos] + p[..n] + before.data[pos + n..];
      pos := pos + n;
      faults := if faults == [] then [] else faults[1..];
      log := log + [WriteRecord(now, |p|)];
    }
  }

  /** The HTTP body with the digest tee and counter over it, the decompressor, and the tee
      of the raw digest. */
  class Reader {
    var codec: Codec
    var body: seq<BodyEvent>
    var steps: seq<DecodeStep>
    var ended: bool
    var compressedHash: Bytes   // what the digest has absorbed
    var rawHash: Bytes

    function View(): Chain
      reads this
    {
      Chain(codec, body, steps, ended, compressedHash, rawHash)
    }

    constructor (body: seq<BodyEvent>, steps: seq<DecodeStep>)
      ensures View() == Chain(Plain, body, steps, false, [], [])
    {
      this.codec, this.body, this.steps := Plain, body, steps;
      this.ended, this.compressedHash, this.rawHash := false, [], [];
    }

    /** counterReader.Read over the tee into the compressed digest. */
    method CounterRead(w: World, clock: Clock, tracker: Tracker, cap: nat, ghost disk: Disk)
      returns (p: Bytes, err: Option<IoError>)
      requires tracker.Valid()
      modifies this`body, this`compressedHash, this`ended, clock, tracker`downloaded
      ensures tracker.Valid()
      ensures var g := Streams.CounterRead(w, Flow(old(clock.now), old(View()), old(tracker.Gauge()), disk), cap);
              Flow(clock.now, View(), tracker.Gauge(), disk) == g.flow && p == g.data && err == g.err
    {
      if w.Done(clock.now) {
        clock.Tick();
        return [], Some(ContextCancelled);
      }
      var (data, e, rest) := BodyRead(body, cap);
      body := rest;
      compressedHash := compressedHash + data;
      ended := ended || e == Some(Eof);
      if |data| > 0 {
        tracker.AddDownloaded(|data|);
      }
      clock.Tick();
      return data, e;
    }

    method Pull(w: World, clock: Clock, tracker: Tracker, n: nat, ghost disk: Disk) returns (err: Option<IoError>)
      requires tracker.Valid()
      modifies this`body, this`compressedHash, this`ended, clock, tracker`downloaded
      ensures tracker.Valid()
      ensures var g := Streams.Pull(w, Flow(old(clock.now), old(View()), old(tracker.Gauge()), disk), n);
              Flow(clock.now, View(), tracker.Gauge(), disk) == g.flow && err == g.err
    {
      err := None;
      var left := n;
      ghost var f0 := Flow(clock.now, View(), tracker.Gauge(), disk);
      while left > 0
        invariant tracker.Valid() && err.None?
        invariant Streams.Pull(w, f0, n) == Streams.Pull(w, Flow(clock.now, View(), tracker.Gauge(), disk), left)
      {
        var p;
        p, err := CounterRead(w, clock, tracker, INNER_BUFFER, disk);
        if err.Some? {
          return;
        }
        left := left - 1;
      }
    }

    method Decode(w: World, clock: Clock, tracker: Tracker, cap: nat, ghost disk: Disk)
      returns (p: Bytes, err: Option<IoError>)
      requires tracker.Valid() && cap > 0
      modifies this, clock, tracker`downloaded
      ensures tracker.Valid()
      ensures var g := Streams.Decode(w, Flow(old(clock.now), old(View()), old(tracker.Gauge()), disk), cap);
              Flow(clock.now, View(), tracker.Gauge(), disk) == g.flow && p == g.data && err == g.err
    {
      if steps == [] {
        err := Some(if codec.External? || (ended && rawHash + [] == w.inflate(compressedHash)) then Eof else Corrupt);
        return [], err;
      }
      var step := steps[0];
      var pulled := Pull(w, clock, tracker, step.pulls, disk);
      if |step.out| > cap {
        steps := [DecodeStep(0, step.out[cap..], step.end)] + steps[1..];
        rawHash := rawHash + step.out[..cap];
        return step.out[..cap], None;
      }
      var mayEnd := codec.External? || (ended && rawHash + step.out == w.inflate(compressedHash));
      steps := steps[1..];
      rawHash := rawHash + step.out;
      p := step.out;
      if pulled.Some? && pulled != Some(Eof) && !codec.External? {
        err := pulled;
      } else {
        match step.end
        case More => err := None;
        case Finished => err := Some(if mayEnd then Eof else Corrupt);
        case Broken => err := Some(Corrupt);
      }
    }

    method Read(w: World, clock: Clock, tracker: Tracker, cap: nat, ghost disk: Disk)
      returns (p: Bytes, err: Option<IoError>)
      requires tracker.Valid() && cap > 0
      modifies this, clock, tracker`downloaded
      ensures tracker.Valid()
      ensures var g := Streams.Read(w, Flow(old(clock.now), old(View()), old(tracker.Gauge()), disk), cap);
              Flow(clock.now, View(), tracker.Gauge(), disk) == g.flow && p == g.data && err == g.err
    {
      if codec.Plain? {
        p, err := CounterRead(w, clock, tracker, cap, disk);
        rawHash := rawHash + p;
      } else {
        p, err := Decode(w, clock, tracker, cap, disk);
        clock.Tick();
      }
    }
  }

  // ---- The copy loop ----

  /** The body of the loop: whether it returns, the bytes written so far, and the error. */
  method CopyOnce(w: World, clock: Clock, dst: Device, src: Reader, tracker: Tracker, before: nat)
    returns (finished: bool, written: nat, err: Option<IoError>)
    requires dst.Valid() && tracker.Valid()
    modifies clock, dst, dst.data, src
    modifies tracker`downloaded, tracker`written, tracker`speed, tracker`lastBytes, tracker`lastSample
    ensures dst.Valid() && tracker.Valid()
    ensures var f := Flow(clock.now, src.View(), tracker.Gauge(), dst.View());
            (if finished then Return(Copied(f, written, err)) else Continue(f, written))
            == CopyPass(w, old(Flow(clock.now, src.View(), tracker.Gauge(), dst.View())), before)
  {
    written := before;
    var cancelled := w.Done(clock.now);
    clock.Tick();
    if cancelled {
      return true, written, Some(ContextCancelled);
    }
    finished, written, err := ReadAndStore(w, clock, dst, src, tracker, before);
  }

  method ReadAndStore(w: World, clock: Clock, dst: Device, src: Reader, tracker: Tracker, before: nat)
    returns (finished: bool, written: nat, err: Option<IoError>)
    requires dst.Valid() && tracker.Valid()
    modifies clock, dst, dst.data, src
    modifies tracker`downloaded, tracker`written, tracker`speed, tracker`lastBytes, tracker`lastSample
    ensures dst.Valid() && tracker.Valid()
    ensures var f := Flow(clock.now, src.View(), tracker.Gauge(), dst.View());
            (if finished then Return(Copied(f, written, err)) else Continue(f, written))
            == Transferred(w, old(Flow(clock.now, src.View(), tracker.Gauge(), dst.View())), before)
  {
    var p, rerr := src.Read(w, clock, tracker, BUFFER, dst.View());
    finished, written, err := StoreChunk(w, clock, dst, tracker, p, rerr, before, src.View());
  }

  method StoreChunk(w: World, clock: Clock, dst: Device, tracker: Tracker, p: Bytes, rerr: Option<IoError>, before: nat, ghost chain: Chain)
    returns (finished: bool, written: nat, err: Option<IoError>)
    requires dst.Valid() && tracker.Valid()
    modifies clock, dst, dst.data
    modifies tracker`written, tracker`speed, tracker`lastBytes, tracker`lastSample
    ensures dst.Valid() && tracker.Valid()
    ensures var f := Flow(clock.now, chain, tracker.Gauge(), dst.View());
            (if finished then Return(Copied(f, written, err)) else Continue(f, written))
            == AfterRead(w, Flow(old(clock.now), chain, old(tracker.Gauge()), old(dst.View())), p, rerr, before)
  {
    written := before;
    if |p| > 0 {
      var n, werr := dst.Write(p, clock.now);
      clock.Tick();
      if werr.Some? {
        return true, written, werr;
      }
      if n != |p| {
        return true, written, Some(ShortWrite);
      }
      written := written + |p|;
      tracker.AddWritten(|p|, w.wall(clock.now));
    }
    if rerr == Some(Eof) {
      return true, written, None;
    }
    return rerr.Some?, written, rerr;
  }

  method CopyWithProgress(w: World, clock: Clock, dst: Device, src: Reader, tracker: Tracker)
    returns (written: nat, err: Option<IoError>)
    requires dst.Valid() && tracker.Valid()
    modifies clock, dst, dst.data, src
    modifies tracker`downloaded, tracker`written, tracker`speed, tracker`lastBytes, tracker`lastSample
    ensures dst.Valid() && tracker.Valid()
    ensures Copied(Flow(clock.now, src.View(), tracker.Gauge(), dst.View()), written, err)
            == Copy(w, old(Flow(clock.now, src.View(), tracker.Gauge(), dst.View())), 0)
  {
    written := 0;
    ghost var f0 := Flow(clock.now, src.View(), tracker.Gauge(), dst.View());
    while true
      invariant dst.Valid() && tracker.Valid()
      invariant Copy(w, f0, 0) == Copy(w, Flow(clock.now, src.View(), tracker.Gauge(), dst.View()), written)
      decreases Left(src.View())
    {
      PassShrinks(w, Flow(clock.now, src.View(), tracker.Gauge(), dst.View()), written);
      var finished;
      finished, written, err := CopyOnce(w, clock, dst, src, tracker, written);
      if finished {
        return;
      }
    }
  }

  // ---- Run ----

  datatype Image = Image(format: string, rawSize: int, sha256Compressed: string, sha256Raw: string)

  /** What the network and the operating system answer outside the byte streams. */
  datatype Surroundings = Surroundings(
    badURL: bool, requestError: Option<string>, status: int,
    headerPulls: nat, headerOk: bool,   // gzip.NewReader
    processOk: bool,                    // starting xz or zstd
    openError: Option<string>)

  datatype RunError =
    | BadRequest
    | DownloadFailed(msg: string)
    | HttpStatus(code: int)
    | Unsupported
    | DecoderFailed
    | OpenFailed(msg: string)
    | WriteFailed(cause: IoError)
    | CompressedDiffers
    | RawDiffers

  datatype Result = Result(
    bytesWritten: nat, compressedSHA256: string, rawSHA256: string,
    compressedMismatch: bool, rawMismatch: bool)

  const NO_RESULT := Result(0, "", "", false, false)

  datatype Ran = Ran(flow: Flow, result: Result, err: Option<RunError>)

  function CodecOf(format: string): Option<Codec> {
    var f := Text.ToLower(Text.TrimSpace(format));
    if f == "raw" || f == "img" then Some(Plain)
    else if f == "raw.gz" || f == "img.gz" then Some(Gzip)
    else if f == "raw.xz" || f == "img.xz" || f == "raw.zst" || f == "img.zst" then Some(External)
    else None
  }

  /** decompressByFormat: gzip reads its header at once, the others read nothing yet. */
  function OpenDecoder(w: World, f: Flow, format: string, s: Surroundings): (Flow, Option<RunError>) {
    var codec := CodecOf(format);
    if codec.None? then (f, Some(Unsupported))
    else
      var f1 := f.(chain := f.chain.(codec := codec.value));
      match codec.value
      case Plain => (f1, None)
      case External => (f1, if s.processOk then None else Some(DecoderFailed))
      case Gzip =>
        var g := Streams.Pull(w, f1, s.headerPulls);
        (g.flow, if s.headerOk && (g.err.None? || g.err == Some(Eof)) then None else Some(DecoderFailed))
  }

  predicate Differs(expected: string, got: string) {
    expected != "" && !Text.EqualFold(expected, got)
  }

  /** The digests are looked at only after everything has been written. */
  function Check(w: World, r: Copied, image: Image): Ran {
    var c := w.sum(r.flow.chain.consumed);
    var d := w.sum(r.flow.chain.delivered);
    var result := Result(r.written, c, d, Differs(image.sha256Compressed, c), Differs(image.sha256Raw, d));
    Ran(r.flow, result,
        if result.compressedMismatch then Some(CompressedDiffers)
        else if result.rawMismatch then Some(RawDiffers)
        else None)
  }

  function Transfer(w: World, f: Flow, image: Image): Ran
    requires f.disk.Valid()
  {
    var r := Copy(w, f, 0);
    if r.err.Some? then Ran(r.flow, NO_RESULT.(bytesWritten := r.written), Some(WriteFailed(r.err.value)))
    else Check(w, r, image)
  }

  function RunSpec(w: World, f0: Flow, image: Image, s: Surroundings): Ran
    requires f0.disk.Valid()
  {
    var f := f0.(meter := Started(image.rawSize, w.wall(f0.now)));
    if s.badURL then Ran(f, NO_RESULT, Some(BadRequest))
    else if s.requestError.Some? then Ran(f, NO_RESULT, Some(DownloadFailed(s.requestError.value)))
    else if s.status != 200 then Ran(f, NO_RESULT, Some(HttpStatus(s.status)))
    else
      var (f1, derr) := OpenDecoder(w, f, image.format, s);
      if derr.Some? then Ran(f1, NO_RESULT, derr)
      else
        OpenKeepsDisk(w, f, image.format, s);
        WriteOut(w, f1, image, s)
  }

  /** Once the decoder is open. */
  function WriteOut(w: World, f: Flow, image: Image, s: Surroundings): Ran
    requires f.disk.Valid()
  {
    if s.openError.Some? then Ran(f, NO_RESULT, Some(OpenFailed(s.openError.value))) else Transfer(w, f, image)
  }

  lemma {:induction false} OpenKeepsDisk(w: World, f: Flow, format: string, s: Surroundings)
    ensures var (f1, _) := OpenDecoder(w, f, format, s);
            && f1.disk == f.disk && f1.chain.delivered == f.chain.delivered && f1.meter.written == f.meter.written
            && f1.chain.steps == f.chain.steps
            && (CodecOf(format).Some? ==> f1.chain.codec == CodecOf(format).value)
  {
    if CodecOf(format) == Some(Gzip) {
      PullKeeps(w, f.(chain := f.chain.(codec := Gzip)), s.headerPulls);
    }
  }

  /** A pipeline's reader and device, before Run. */
  predicate Unused(f: Flow) {
    f.disk.pos == 0 && !f.chain.ended && f.chain.consumed == [] && f.chain.delivered == []
  }

  lemma {:induction false} OpenBegins(w: World, f: Flow, format: string, s: Surroundings)
    requires Unused(f)
    ensures var (f1, _) := OpenDecoder(w, f, format, s);
            Begins(f1, f.chain.body) &&
            f1.meter.downloaded - |f1.chain.consumed| == f.meter.downloaded
  {
    OpenKeepsDisk(w, f, format, s);
    if CodecOf(format) == Some(Gzip) {
      PullConsumes(w, f.(chain := f.chain.(codec := Gzip)), s.headerPulls, f.chain.body);
    }
  }

  /** A nil return has gone through the copy and the check. */
  lemma {:induction false} NilRun(w: World, f: Flow, image: Image, s: Surroundings) returns (f1: Flow)
    requires Unused(f) && RunSpec(w, f, image, s).err.None?
    ensures CodecOf(image.format).Some? && Begins(f1, f.chain.body) && f1.disk == f.disk
    ensures f1.chain.steps == f.chain.steps
    ensures f1.chain.codec == CodecOf(image.format).value
    ensures Copy(w, f1, 0).err.None? && RunSpec(w, f, image, s) == Check(w, Copy(w, f1, 0), image)
  {
    var started := f.(meter := Started(image.rawSize, w.wall(f.now)));
    OpenBegins(w, started, image.format, s);
    OpenKeepsDisk(w, started, image.format, s);
    f1 := OpenDecoder(w, started, image.format, s).0;
  }

  /** The digests given are, but for letter case, those of the bytes consumed and delivered. */
  predicate DigestsMatch(w: World, image: Image, c: Chain) {
    && (image.sha256Compressed != "" ==> Text.EqualFold(image.sha256Compressed, w.sum(c.consumed)))
    && (image.sha256Raw != "" ==> Text.EqualFold(image.sha256Raw, w.sum(c.delivered)))
  }

  /** The format as Run compares it. */
  function Normal(format: string): string {
    Text.ToLower(Text.TrimSpace(format))
  }

  /** Run returns nil only if every digest given matches the bytes it is of, and the device
      holds exactly what was delivered from offset 0, its remainder untouched. For raw and img
      that is the whole body, for raw.gz and img.gz its whole decompression, each read to the
      end; for raw.xz, img.xz, raw.zst and img.zst it is output of the decoder, in order from
      the first byte. No other format gets that far. */
  lemma {:induction false} VerifiedWrite(w: World, f: Flow, image: Image, s: Surroundings)
    requires Unused(f)
    ensures var r := RunSpec(w, f, image, s);
            r.err.None? ==>
              && r.result.bytesWritten == |r.flow.chain.delivered| <= |f.disk.data|
              && r.flow.disk.data == r.flow.chain.delivered + f.disk.data[r.result.bytesWritten..]
              && DigestsMatch(w, image, r.flow.chain)
              && DeliveredFits(w, Normal(image.format), f.chain, r.flow.chain)
  {
    if RunSpec(w, f, image, s).err.None? {
      var f1 := NilRun(w, f, image, s);
      NilCopy(w, f, f1);
      NameFits(w, image.format, f.chain, Copy(w, f1, 0).flow.chain);
    }
  }

  /** The same by codec. */
  ghost predicate CodecFits(w: World, codec: Codec, before: Chain, after: Chain) {
    match codec
    case External => after.delivered <= Outputs(before.steps)
    case _ =>
      && Ending(before.body) == Eof && after.consumed == Payload(before.body)
      && after.delivered == if codec.Plain? then Payload(before.body) else w.inflate(Payload(before.body))
  }

  lemma {:induction false} NilCopy(w: World, f: Flow, f1: Flow)
    requires Begins(f1, f.chain.body) && f1.disk == f.disk && f1.chain.steps == f.chain.steps
    requires Copy(w, f1, 0).err.None?
    ensures var r := Copy(w, f1, 0);
            && r.written == |r.flow.chain.delivered| <= |f.disk.data|
            && r.flow.disk.data == r.flow.chain.delivered + f.disk.data[r.written..]
            && CodecFits(w, f1.chain.codec, f.chain, r.flow.chain)
  {
    CopyRefinesPrefix(w, f1, f.chain.body);
    CopyKeepsCodec(w, f1, 0);
    var after := Copy(w, f1, 0).flow.chain;
    if f1.chain.codec.External? {
      CopyOutputs(w, f1, 0);
      PrefixFits(w, f.chain, after);
    } else {
      WholeFits(w, f.chain, after);
    }
  }

  lemma {:induction false} PrefixFits(w: World, before: Chain, after: Chain)
    requires after.delivered + Outputs(after.steps) == [] + Outputs(before.steps)
    ensures CodecFits(w, External, before, after)
  {
    assert [] + Outputs(before.steps) == Outputs(before.steps);
  }

  lemma {:induction false} WholeFits(w: World, before: Chain, after: Chain)
    requires !after.codec.External? && Whole(w, after, before.body)
    ensures CodecFits(w, after.codec, before, after)
  {
  }

  lemma {:induction false} NameFits(w: World, format: string, before: Chain, after: Chain)
    requires CodecOf(format).Some? && CodecFits(w, CodecOf(format).value, before, after)
    ensures DeliveredFits(w, Normal(format), before, after)
  {
  }

  /** What a chain that ended well has delivered, by the format's name. */
  ghost predicate DeliveredFits(w: World, format: string, before: Chain, after: Chain) {
    if format == "raw" || format == "img" then
      Ending(before.body) == Eof && after.consumed == Payload(before.body) && after.delivered == Payload(before.body)
    else if format == "raw.gz" || format == "img.gz" then
      Ending(before.body) == Eof && after.consumed == Payload(before.body) && after.delivered == w.inflate(Payload(before.body))
    else
      && (format == "raw.xz" || format == "img.xz" || format == "raw.zst" || format == "img.zst")
      && after.delivered <= Outputs(before.steps)
  }

  /** The books balance: the count reported is what the tracker shows, it is on the disk, and
      it is a prefix of what was delivered. */
  ghost predicate Balanced(w: World, f: Flow, r: Flow, n: nat) {
    && n == r.meter.written
    && r.meter.downloaded == |r.chain.consumed|
    && n <= |r.chain.delivered| && n <= |r.disk.data| == |f.disk.data|
    && r.disk.data[..n] == r.chain.delivered[..n]
    && OnlyLastLate(w, f.disk, r.disk)
  }

  lemma {:induction false} CopyBalances(w: World, f0: Flow, f: Flow, body: seq<BodyEvent>)
    requires Begins(f, body) && f.disk == f0.disk && f.meter.written == 0 && f.meter.downloaded == |f.chain.consumed|
    ensures Balanced(w, f0, Copy(w, f, 0).flow, Copy(w, f, 0).written)
  {
    CopyRefinesPrefix(w, f, body);
  }

  /** However Run returns, the books balance; and of its writes, each of at most one buffer,
      only the last can have begun after a cancel. */
  lemma {:induction false} RunAccounts(w: World, f: Flow, image: Image, s: Surroundings)
    requires Unused(f)
    ensures var r := RunSpec(w, f, image, s);
            Balanced(w, f, r.flow, r.result.bytesWritten)
  {
    var started := f.(meter := Started(image.rawSize, w.wall(f.now)));
    var f1 := OpenDecoder(w, started, image.format, s).0;
    OpenBegins(w, started, image.format, s);
    OpenKeepsDisk(w, started, image.format, s);
    CopyBalances(w, f, f1, f.chain.body);
    NothingBalances(w, f, started);
    NothingBalances(w, f, f1);
    RunEnds(w, f, image, s);
  }

  /** Run returns before its decoder is open, with it open but nothing copied, or after the copy. */
  lemma {:induction false} RunEnds(w: World, f: Flow, image: Image, s: Surroundings)
    requires f.disk.Valid()
    ensures var started := f.(meter := Started(image.rawSize, w.wall(f.now)));
            var f1 := OpenDecoder(w, started, image.format, s).0;
            var r := RunSpec(w, f, image, s);
            || (r.flow == started && r.result.bytesWritten == 0)
            || (r.flow == f1 && r.result.bytesWritten == 0)
            || (f1.disk == f.disk && r.flow == Copy(w, f1, 0).flow && r.result.bytesWritten == Copy(w, f1, 0).written)
  {
    OpenKeepsDisk(w, f.(meter := Started(image.rawSize, w.wall(f.now))), image.format, s);
  }

  lemma {:induction false} NothingBalances(w: World, f: Flow, f1: Flow)
    requires f1.disk == f.disk && f1.chain.delivered == [] && f1.meter.written == 0 && f1.meter.downloaded == |f1.chain.consumed|
    ensures Balanced(w, f, f1, 0)
  {
  }

  /** And a plain image whose body ends normally, with no fault, no cancel, enough room and
      digests that are empty or match, is written: Run returns nil. */
  lemma {:induction false} GoodRunSucceeds(w: World, f: Flow, image: Image, s: Surroundings)
    requires Unused(f) && (Normal(image.format) == "raw" || Normal(image.format) == "img")
    requires !s.badURL && s.requestError.None? && s.status == 200 && s.openError.None?
    requires w.cancelAt.None? && f.disk.faults == [] && |f.disk.data| >= |Payload(f.chain.body)|
    requires Ending(f.chain.body) == Eof
    ensures var sum := w.sum(Payload(f.chain.body));
            RunSpec(w, f, image, s).err.None? <==>
              && (image.sha256Compressed == "" || Text.EqualFold(image.sha256Compressed, sum))
              && (image.sha256Raw == "" || Text.EqualFold(image.sha256Raw, sum))
  {
    var started := f.(meter := Started(image.rawSize, w.wall(f.now)));
    var (f1, _) := OpenDecoder(w, started, image.format, s);
    UnhinderedCopySucceeds(w, f1, 0);
    OpenBegins(w, started, image.format, s);
    CopyRefinesPrefix(w, f1, f.chain.body);
    CopyKeepsCodec(w, f1, 0);
  }

  /** The stage the tracker shows when Run has returned. */
  function StageAfter(err: Option<RunError>): string {
    match err
    case Some(BadRequest) => "downloading"
    case Some(DownloadFailed(_)) => "downloading"
    case Some(HttpStatus(_)) => "downloading"
    case Some(Unsupported) => "downloading"
    case Some(DecoderFailed) => "downloading"
    case Some(OpenFailed(_)) => "writing"
    case Some(WriteFailed(_)) => "writing"
    case _ => "syncing"
  }

  method Run(w: World, clock: Clock, dst: Device, src: Reader, tracker: Tracker, image: Image, s: Surroundings)
    returns (res: Result, err: Option<RunError>)
    requires dst.Valid() && tracker.Valid()
    modifies clock, dst, dst.data, src, tracker, tracker.listeners
    ensures dst.Valid() && tracker.Valid() && tracker.listeners == old(tracker.listeners)
    ensures Ran(Flow(clock.now, src.View(), tracker.Gauge(), dst.View()), res, err)
            == RunSpec(w, old(Flow(clock.now, src.View(), tracker.Gauge(), dst.View())), image, s)
    ensures tracker.stage == StageAfter(err)
  {
    ghost var started := Flow(clock.now, src.View(), Started(image.rawSize, w.wall(clock.now)), dst.View());
    res := NO_RESULT;
    tracker.Start(image.rawSize, w.wall(clock.now));
    tracker.SetStage("downloading", "requesting image", w.wall(clock.now));
    if s.badURL {
      return res, Some(BadRequest);
    }
    if s.requestError.Some? {
      return res, Some(DownloadFailed(s.requestError.value));
    }
    if s.status != 200 {
      return res, Some(HttpStatus(s.status));
    }
    err := OpenDecoderFor(w, clock, src, tracker, image.format, s, dst.View());
    if err.Some? {
      return;
    }
    OpenKeepsDisk(w, started, image.format, s);
    res, err := OpenAndWrite(w, clock, dst, src, tracker, image, s);
  }

  /** Opens the disk and copies to it. */
  method OpenAndWrite(w: World, clock: Clock, dst: Device, src: Reader, tracker: Tracker, image: Image, s: Surroundings)
    returns (res: Result, err: Option<RunError>)
    requires dst.Valid() && tracker.Valid()
    modifies clock, dst, dst.data, src, tracker, tracker.listeners
    ensures dst.Valid() && tracker.Valid() && tracker.listeners == old(tracker.listeners)
    ensures Ran(Flow(clock.now, src.View(), tracker.Gauge(), dst.View()), res, err)
            == WriteOut(w, old(Flow(clock.now, src.View(), tracker.Gauge(), dst.View())), image, s)
    ensures tracker.stage == StageAfter(err)
  {
    tracker.SetStage("writing", "writing to target disk", w.wall(clock.now));
    if s.openError.Some? {
      return NO_RESULT, Some(OpenFailed(s.openError.value));
    }
    res, err := TransferAndCheck(w, clock, dst, src, tracker, image);
  }

  /** The copy, the fsync stage and the comparison of the digests. */
  method TransferAndCheck(w: World, clock: Clock, dst: Device, src: Reader, tracker: Tracker, image: Image)
    returns (res: Result, err: Option<RunError>)
    requires dst.Valid() && tracker.Valid()
    modifies clock, dst, dst.data, src, tracker, tracker.listeners
    ensures dst.Valid() && tracker.Valid() && tracker.listeners == old(tracker.listeners)
    ensures Ran(Flow(clock.now, src.View(), tracker.Gauge(), dst.View()), res, err)
            == Transfer(w, old(Flow(clock.now, src.View(), tracker.Gauge(), dst.View())), image)
    ensures tracker.stage == if err.Some? && err.value.WriteFailed? then old(tracker.stage) else "syncing"
    ensures err.Some? ==> err.value.WriteFailed? || err.value.CompressedDiffers? || err.value.RawDiffers?
  {
    var written, cerr := CopyWithProgress(w, clock, dst, src, tracker);
    res := NO_RESULT.(bytesWritten := written);
    if cerr.Some? {
      return res, Some(WriteFailed(cerr.value));
    }
    tracker.SetStage("syncing", "fsync", w.wall(clock.now));
    res, err := CompareDigests(w, src, image, res);
  }

  method CompareDigests(w: World, src: Reader, image: Image, soFar: Result) returns (res: Result, err: Option<RunError>)
    requires soFar == NO_RESULT.(bytesWritten := soFar.bytesWritten)
    ensures forall f: Flow :: f.chain == src.View() ==>
              Ran(f, res, err) == Check(w, Copied(f, soFar.bytesWritten, None), image)
  {
    res := soFar.(compressedSHA256 := w.sum(src.compressedHash), rawSHA256 := w.sum(src.rawHash));
    if image.sha256Compressed != "" && !Text.EqualFold(image.sha256Compressed, res.compressedSHA256) {
      res := res.(compressedMismatch := true);
    }
    if image.sha256Raw != "" && !Text.EqualFold(image.sha256Raw, res.rawSHA256) {
      res := res.(rawMismatch := true);
    }
    if res.compressedMismatch {
      return res, Some(CompressedDiffers);
    }
    if res.rawMismatch {
      return res, Some(RawDiffers);
    }
    return res, None;
  }

  method OpenDecoderFor(w: World, clock: Clock, src: Reader, tracker: Tracker, format: string, s: Surroundings, ghost disk: Disk)
    returns (err: Option<RunError>)
    requires tracker.Valid()
    modifies clock, src, tracker`downloaded
    ensures tracker.Valid()
    ensures err.Some? ==> err.value.Unsupported? || err.value.DecoderFailed?
    ensures var (f, e) := OpenDecoder(w, Flow(old(clock.now), old(src.View()), old(tracker.Gauge()), disk), format, s);
            Flow(clock.now, src.View(), tracker.Gauge(), disk) == f && err == e
  {
    var codec := CodecOf(format);
    if codec.None? {
      return Some(Unsupported);
    }
    src.codec := codec.value;
    match codec.value
    case Plain => err := None;
    case External => err := if s.processOk then None else Some(DecoderFailed);
    case Gzip =>
      var e := src.Pull(w, clock, tracker, s.headerPulls, disk);
      err := if s.headerOk && (e.None? || e == Some(Eof)) then None else Some(DecoderFailed);
  }
}
