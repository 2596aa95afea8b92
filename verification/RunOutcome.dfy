/** What Run answers and does, format by format and error by error, and when a compressed
    image is written (agent/internal/deploy/pipeline.go). */
module RunOutcome {
  import opened Wrappers
  import opened Progress
  import opened Streams
  import opened CopyLoop
  import opened Pipeline
  import Text

  // ---- The answer ----

  /** The server has answered the request with the image. */
  predicate Answered(s: Surroundings) {
    !s.badURL && s.requestError.None? && s.status == 200
  }

  predicate KnownFormat(name: string) {
    || name == "raw" || name == "img" || name == "raw.gz" || name == "img.gz"
    || name == "raw.xz" || name == "img.xz" || name == "raw.zst" || name == "img.zst"
  }

  predicate SpawnedFormat(name: string) {
    name == "raw.xz" || name == "img.xz" || name == "raw.zst" || name == "img.zst"
  }

  /** Run gives up before its copy: nothing is written and nothing is in the result. */
  predicate GaveUp(f: Flow, r: Ran, err: RunError) {
    r.err == Some(err) && r.result == Result(0, "", "", false, false) && r.flow.disk == f.disk
  }

  /** Each failure before the copy has its own error, in the order in which they are met. */
  lemma {:induction false} EarlyErrors(w: World, f: Flow, image: Image, s: Surroundings)
    requires f.disk.Valid()
    ensures var r := RunSpec(w, f, image, s);
            var name := Normal(image.format);
            && (s.badURL ==> GaveUp(f, r, BadRequest))
            && (!s.badURL && s.requestError.Some? ==> GaveUp(f, r, DownloadFailed(s.requestError.value)))
            && (!s.badURL && s.requestError.None? && s.status != 200 ==> GaveUp(f, r, HttpStatus(s.status)))
            && (Answered(s) && !KnownFormat(name) ==> GaveUp(f, r, Unsupported))
            && (Answered(s) && SpawnedFormat(name) && !s.processOk ==> GaveUp(f, r, DecoderFailed))
            && (Answered(s) && (name == "raw.gz" || name == "img.gz") && !s.headerOk ==> GaveUp(f, r, DecoderFailed))
            && (Answered(s) && (name == "raw" || name == "img" || (SpawnedFormat(name) && s.processOk)) && s.openError.Some? ==>
                  GaveUp(f, r, OpenFailed(s.openError.value)))
  {
    OpenKeepsDisk(w, f.(meter := Started(image.rawSize, w.wall(f.now))), image.format, s);
  }

  /** After the copy: its error, or else the digests of what was consumed and delivered, each
      compared with what was expected of it, if anything; the compressed one has precedence. */
  ghost predicate Compared(w: World, image: Image, r: Ran) {
    var compressed := w.sum(r.flow.chain.consumed);
    var raw := w.sum(r.flow.chain.delivered);
    var bad := image.sha256Compressed != "" && !Text.EqualFold(image.sha256Compressed, compressed);
    var badRaw := image.sha256Raw != "" && !Text.EqualFold(image.sha256Raw, raw);
    && r.result.compressedSHA256 == compressed && r.result.rawSHA256 == raw
    && r.result.compressedMismatch == bad && r.result.rawMismatch == badRaw
    && (r.err == Some(CompressedDiffers) <==> bad)
    && (r.err == Some(RawDiffers) <==> !bad && badRaw)
    && (r.err.None? <==> !bad && !badRaw)
  }

  lemma {:induction false} LateErrors(w: World, f: Flow, image: Image, s: Surroundings)
    requires f.disk.Valid()
    ensures var r := RunSpec(w, f, image, s);
            r.err.None? || r.err.value.CompressedDiffers? || r.err.value.RawDiffers? ==> Compared(w, image, r)
    ensures var r := RunSpec(w, f, image, s);
            r.err.Some? && r.err.value.WriteFailed? ==>
              r.result == Result(r.result.bytesWritten, "", "", false, false)
  {
  }

  /** The format is supported by Run exactly if it is one of the eight names. */
  lemma {:induction false} UnsupportedExactly(w: World, f: Flow, image: Image, s: Surroundings)
    requires f.disk.Valid() && Answered(s)
    ensures RunSpec(w, f, image, s).err == Some(Unsupported) <==> !KnownFormat(Normal(image.format))
  {
    OpenKeepsDisk(w, f.(meter := Started(image.rawSize, w.wall(f.now))), image.format, s);
  }

  // ---- A compressed image is written ----

  /** The output up to the read that ends. */
  function Emitted(steps: seq<DecodeStep>): Bytes {
    if steps == [] then []
    else steps[0].out + if steps[0].end.More? then Emitted(steps[1..]) else []
  }

  /** No read breaks before one ends. */
  predicate Clean(steps: seq<DecodeStep>) {
    steps == [] || (if steps[0].end.More? then Clean(steps[1..]) else steps[0].end.Finished?)
  }

  /** Some read, at the latest the one that ends, makes more than `n` reads of its input. */
  predicate ReadsOn(steps: seq<DecodeStep>, n: nat) {
    steps != [] && (steps[0].pulls > n || (steps[0].end.More? && ReadsOn(steps[1..], n)))
  }

  /** Nothing stands in the way of a compressed copy: no cancel, no write fault, enough room,
      a body that ends normally; a gzip reader reads it to the end. */
  ghost predicate Untroubled(w: World, f: Flow, body: seq<BodyEvent>) {
    && w.cancelAt.None? && f.disk.Valid() && f.disk.faults == [] && !f.chain.codec.Plain?
    && |f.disk.data| - f.disk.pos >= |Emitted(f.chain.steps)|
    && Consuming(f.chain, body) && Ending(body) == Eof
    && (f.chain.codec.Gzip? ==> f.chain.ended || ReadsOn(f.chain.steps, BodySize(f.chain.body)))
  }

  /** What its output should be. */
  ghost predicate Decodes(w: World, c: Chain, body: seq<BodyEvent>) {
    Clean(c.steps) && (c.codec.Gzip? ==> c.delivered + Emitted(c.steps) == w.inflate(Payload(body)))
  }

  lemma {:induction false} CounterReadOn(w: World, f: Flow, cap: nat)
    requires cap > 0 && w.cancelAt.None? && Ending(f.chain.body) == Eof
    ensures var g := CounterRead(w, f, cap);
            && Ending(g.flow.chain.body) == Eof && (f.chain.ended ==> g.flow.chain.ended)
            && (g.err.None? || (g.err == Some(Eof) && g.flow.chain.ended))
            && (g.err.None? ==> BodySize(g.flow.chain.body) < BodySize(f.chain.body))
            && BodySize(g.flow.chain.body) <= BodySize(f.chain.body)
  {
    BodyReadPayload(f.chain.body, cap);
    var body := f.chain.body;
    if body != [] && |body[0].data| > cap {
      assert ([BodyEvent(body[0].data[cap..], body[0].err)] + body[1..])[1..] == body[1..];
    } else if body != [] && body[0].err.Some? {
      assert [BodyEvent([], body[0].err)][1..] == [];
    }
  }

  lemma {:induction false} PullOn(w: World, f: Flow, n: nat)
    requires w.cancelAt.None? && Ending(f.chain.body) == Eof
    ensures var g := Pull(w, f, n);
            && Ending(g.flow.chain.body) == Eof && (f.chain.ended ==> g.flow.chain.ended)
            && (g.err.None? || g.err == Some(Eof))
            && BodySize(g.flow.chain.body) <= BodySize(f.chain.body)
            && (n > BodySize(f.chain.body) ==> g.flow.chain.ended)
    decreases n
  {
    if n > 0 {
      CounterReadOn(w, f, INNER_BUFFER);
      var g := CounterRead(w, f, INNER_BUFFER);
      if g.err.None? {
        PullOn(w, g.flow, n - 1);
      }
    }
  }

  lemma {:induction false} ReadsOnLess(steps: seq<DecodeStep>, n: nat, m: nat)
    requires ReadsOn(steps, n) && m <= n
    ensures ReadsOn(steps, m)
  {
    if steps[0].pulls <= n {
      ReadsOnLess(steps[1..], n, m);
    }
  }

  /** What one read of an untroubled decompressor does. */
  ghost predicate DecodesOn(w: World, c: Chain, data: Bytes, err: Option<IoError>, c': Chain, body: seq<BodyEvent>) {
    && c'.codec == c.codec && c'.delivered == c.delivered + data
    && (err.None? ==>
          && data + Emitted(c'.steps) == Emitted(c.steps) && Clean(c'.steps) == Clean(c.steps)
          && (c.codec.Gzip? ==> c'.ended || ReadsOn(c'.steps, BodySize(c'.body))))
    && (err.Some? ==> data == Emitted(c.steps) && err == Some(if Decodes(w, c, body) then Eof else Corrupt))
  }

  /** Once the input is read as far as this step does. */
  lemma {:induction false} EmitOn(
    w: World, f: Flow, inputErr: Option<IoError>, step: DecodeStep, rest: seq<DecodeStep>, cap: nat, body: seq<BodyEvent>)
    requires !f.chain.codec.Plain? && (inputErr.None? || inputErr == Some(Eof))
    requires f.chain.steps == [step] + rest
    requires f.chain.codec.Gzip? ==> f.chain.ended || (step.end.More? && ReadsOn(rest, BodySize(f.chain.body)))
    requires f.chain.ended ==> f.chain.consumed == Payload(body)
    ensures var g := Emit(w, f, inputErr, step, rest, cap);
            DecodesOn(w, f.chain, g.data, g.err, g.flow.chain, body)
  {
    var c := f.chain;
    assert c.steps[1..] == rest;
    if |step.out| > cap {
      var left := [DecodeStep(0, step.out[cap..], step.end)] + rest;
      assert left[1..] == rest;
      assert step.out == step.out[..cap] + step.out[cap..];
      Associative(step.out[..cap], step.out[cap..], if step.end.More? then Emitted(rest) else []);
    } else if step.end.More? {
      assert Emitted(c.steps) == step.out + Emitted(rest);
    } else {
      assert Emitted(c.steps) == step.out;
    }
  }

  lemma {:induction false} DecodeOn(w: World, f: Flow, cap: nat, body: seq<BodyEvent>)
    requires Untroubled(w, f, body) && cap > 0
    ensures var g := Decode(w, f, cap);
            DecodesOn(w, f.chain, g.data, g.err, g.flow.chain, body)
  {
    if f.chain.steps == [] {
      assert f.chain.delivered + [] == f.chain.delivered;
      if f.chain.ended {
        EndedIsWhole(w, f.chain, body);
      }
    } else {
      var step, rest := f.chain.steps[0], f.chain.steps[1..];
      var pulled := Pull(w, f, step.pulls);
      PullOn(w, f, step.pulls);
      PullKeeps(w, f, step.pulls);
      PullConsumes(w, f, step.pulls, body);
      if pulled.flow.chain.ended {
        EndedIsWhole(w, pulled.flow.chain, body);
      }
      if f.chain.codec.Gzip? && !pulled.flow.chain.ended {
        ReadsOnLess(rest, BodySize(f.chain.body), BodySize(pulled.flow.chain.body));
      }
      EmitOn(w, pulled.flow, pulled.err, step, rest, cap, body);
    }
  }

  /** And one pass of the loop. */
  lemma {:induction false} PassOn(w: World, f: Flow, written: nat, body: seq<BodyEvent>)
    requires Untroubled(w, f, body)
    ensures match CopyPass(w, f, written)
            case Return(r) =>
              && r.written == written + |Emitted(f.chain.steps)|
              && r.flow.chain.delivered == f.chain.delivered + Emitted(f.chain.steps)
              && r.err == if Decodes(w, f.chain, body) then None else Some(Corrupt)
            case Continue(f1, written1) =>
              && Untroubled(w, f1, body) && (Decodes(w, f1.chain, body) <==> Decodes(w, f.chain, body))
              && written1 + |Emitted(f1.chain.steps)| == written + |Emitted(f.chain.steps)|
              && f1.chain.delivered + Emitted(f1.chain.steps) == f.chain.delivered + Emitted(f.chain.steps)
  {
    var g := Read(w, Tick(f), BUFFER);
    assert Untroubled(w, Tick(f), body);
    DecodeOn(w, Tick(f), BUFFER, body);
    ReadShrinks(w, Tick(f), BUFFER);
    ReadConsumes(w, Tick(f), BUFFER, body);
    if g.err.None? {
      Associative(f.chain.delivered, g.data, Emitted(g.flow.chain.steps));
    }
    WriteAll(w, g.flow, g.data, g.err, written);
  }

  /** With no fault and room for it, data is written whole. */
  lemma {:induction false} WriteAll(w: World, f: Flow, data: Bytes, err: Option<IoError>, written: nat)
    requires f.disk.Valid() && f.disk.faults == [] && |f.disk.data| - f.disk.pos >= |data|
    ensures match AfterRead(w, f, data, err, written)
            case Return(r) =>
              r.flow.chain == f.chain && r.written == written + |data| && err.Some? && r.err == if err == Some(Eof) then None else err
            case Continue(f1, written1) =>
              && err.None? && f1.chain == f.chain && written1 == written + |data|
              && f1.disk.Valid() && f1.disk.faults == [] && |f1.disk.data| - f1.disk.pos == |f.disk.data| - f.disk.pos - |data|
  {
  }

  /** An untroubled compressed copy writes the whole output up to its end, and returns nil
      exactly if the decompressor does not break and, for gzip, its output is the
      decompression of the whole body; otherwise it returns Corrupt. */
  lemma {:induction false} UntroubledCopy(w: World, f: Flow, written: nat, body: seq<BodyEvent>)
    requires Untroubled(w, f, body)
    ensures var r := Copy(w, f, written);
            && r.written == written + |Emitted(f.chain.steps)|
            && r.flow.chain.delivered == f.chain.delivered + Emitted(f.chain.steps)
            && r.err == if Decodes(w, f.chain, body) then None else Some(Corrupt)
    decreases Left(f.chain)
  {
    PassOn(w, f, written, body);
    PassShrinks(w, f, written);
    match CopyPass(w, f, written)
    case Return(_) =>
    case Continue(f1, written1) => UntroubledCopy(w, f1, written1, body);
  }

  /** Everything outside the streams goes well. */
  predicate Welcome(s: Surroundings) {
    Answered(s) && s.headerOk && s.processOk && s.openError.None?
  }

  lemma {:induction false} OpensUntroubled(w: World, f: Flow, image: Image, s: Surroundings)
    requires Unused(f) && Welcome(s) && KnownFormat(Normal(image.format)) && CodecOf(image.format) != Some(Plain)
    requires w.cancelAt.None? && f.disk.faults == [] && |f.disk.data| >= |Emitted(f.chain.steps)|
    requires Ending(f.chain.body) == Eof && ReadsOn(f.chain.steps, BodySize(f.chain.body))
    ensures var (f1, err) := OpenDecoder(w, f, image.format, s);
            && err.None? && Untroubled(w, f1, f.chain.body) && f1.disk == f.disk
            && f1.chain.steps == f.chain.steps && f1.chain.delivered == []
  {
    OpenKeepsDisk(w, f, image.format, s);
    OpenBegins(w, f, image.format, s);
    if CodecOf(image.format) == Some(Gzip) {
      var f0 := f.(chain := f.chain.(codec := Gzip));
      PullOn(w, f0, s.headerPulls);
      ReadsOnLess(f.chain.steps, BodySize(f.chain.body), BodySize(Pull(w, f0, s.headerPulls).flow.chain.body));
    }
  }

  /** A compressed image whose body ends normally and is read to its end, with no fault, no
      cancel and enough room: if the decompressor does not break and, for gzip, puts out the
      decompression of the body, then its whole output is on the device, and Run returns nil
      exactly if every digest given matches; otherwise Run fails with Corrupt. */
  lemma {:induction false} CompressedRunSucceedsExactly(w: World, f: Flow, image: Image, s: Surroundings)
    requires Unused(f) && Welcome(s) && KnownFormat(Normal(image.format))
    requires Normal(image.format) != "raw" && Normal(image.format) != "img"
    requires w.cancelAt.None? && f.disk.faults == [] && |f.disk.data| >= |Emitted(f.chain.steps)|
    requires Ending(f.chain.body) == Eof && ReadsOn(f.chain.steps, BodySize(f.chain.body))
    ensures var r := RunSpec(w, f, image, s);
            var gzip := Normal(image.format) == "raw.gz" || Normal(image.format) == "img.gz";
            var out := Emitted(f.chain.steps);
            && r.result.bytesWritten == |out| && r.flow.chain.delivered == out
            && if Clean(f.chain.steps) && (gzip ==> out == w.inflate(Payload(f.chain.body))) then
                 r.err.None? <==>
                   && (image.sha256Compressed == "" || Text.EqualFold(image.sha256Compressed, w.sum(r.flow.chain.consumed)))
                   && (image.sha256Raw == "" || Text.EqualFold(image.sha256Raw, w.sum(out)))
               else r.err == Some(WriteFailed(Corrupt))
  {
    var started := f.(meter := Started(image.rawSize, w.wall(f.now)));
    OpensUntroubled(w, started, image, s);
    var f1 := OpenDecoder(w, started, image.format, s).0;
    UntroubledCopy(w, f1, 0, f.chain.body);
    OpenKeepsDisk(w, started, image.format, s);
    assert f1.chain.delivered + Emitted(f1.chain.steps) == Emitted(f.chain.steps);
    TransferAnswers(w, f1, image);
  }

  /** The transfer answers with the copy's error or the comparison of the digests. */
  lemma {:induction false} TransferAnswers(w: World, f: Flow, image: Image)
    requires f.disk.Valid()
    ensures var c := Copy(w, f, 0);
            var r := Transfer(w, f, image);
            && r.result.bytesWritten == c.written && r.flow == c.flow
            && (c.err.Some? ==> r.err == Some(WriteFailed(c.err.value)))
            && (c.err.None? ==> Compared(w, image, r))
  {
  }

  // ---- What the tracker shows ----

  /** However Run returns, its tracker counts up to the size the index gives, from the moment
      Run began. */
  lemma {:induction false} GaugeTells(w: World, f: Flow, image: Image, s: Surroundings)
    requires f.disk.Valid()
    ensures var m := RunSpec(w, f, image, s).flow.meter; m.total == image.rawSize && m.startedAt == Some(w.wall(f.now))
  {
    var started := f.(meter := Started(image.rawSize, w.wall(f.now)));
    OpenKeepsDisk(w, started, image.format, s);
    var f1 := OpenDecoder(w, started, image.format, s).0;
    if CodecOf(image.format) == Some(Gzip) {
      PullKeepsGauge(w, started.(chain := started.chain.(codec := Gzip)), s.headerPulls);
    }
    CopyKeepsGauge(w, f1, 0);
    RunEnds(w, f, image, s);
  }
}
