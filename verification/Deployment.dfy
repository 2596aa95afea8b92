/** From the device to the server's record: the protocol and the pipeline together. */
module Deployment {
  import opened Wrappers
  import opened DeployState
  import opened DeployProtocol
  import opened Runs
  import opened StageSync
  import opened Verdict
  import NodeStore
  import NodeHistory
  import Streams
  import CopyLoop
  import Pipeline

  /** The generation's Run returned this result. */
  predicate Carries(x: Gen, ran: Pipeline.Ran) {
    && x.outcome.Some? && x.outcome.value.bytes == ran.result.bytesWritten
    && (x.outcome.value.err.None? <==> ran.err.None?)
  }

  /** The device holds a verified image of exactly `n` bytes: those delivered, from offset 0,
      with the rest untouched and every digest given matching; what they are depends on the
      format's name. */
  ghost predicate VerifiedImage(w: Streams.World, f: Streams.Flow, image: Pipeline.Image, r: Streams.Flow, n: nat) {
    && n == |r.chain.delivered| <= |f.disk.data|
    && r.disk.data == r.chain.delivered + f.disk.data[n..]
    && Pipeline.DigestsMatch(w, image, r.chain)
    && Pipeline.DeliveredFits(w, Pipeline.Normal(image.format), f.chain, r.chain)
  }

  /** The node's last record is that of the generation. */
  ghost predicate LastIsOf(db: NodeHistory.Database, uuid: string, x: Gen) {
    uuid in db && db[uuid].deploys != [] && [ShapeOf(db[uuid].deploys[|db[uuid].deploys| - 1])] == RecordOf(x)
  }

  /** The node's last record says completed exactly for a nil error, and gives this count. */
  ghost predicate LastSays(db: NodeHistory.Database, uuid: string, success: bool, bytes: nat) {
    && uuid in db && db[uuid].deploys != []
    && var last := db[uuid].deploys[|db[uuid].deploys| - 1];
       (last.result == NodeStore.COMPLETED <==> success) && last.bytesWritten == bytes
  }

  lemma LastShape(ds: seq<NodeStore.Deploy>, past: seq<Shape>, gens: seq<Gen>, lo: nat)
    requires lo < |gens| && gens[|gens| - 1].pc.Ended? && Shapes(ds) == past + Records(gens, lo, |gens|)
    ensures ds != [] && [ShapeOf(ds[|ds| - 1])] == RecordOf(gens[|gens| - 1])
  {
    var record := RecordOf(gens[|gens| - 1]);
    var shapes := Shapes(ds);
    assert shapes == past + (Records(gens, lo, |gens| - 1) + record);
    assert |shapes| == |ds| > 0 && shapes[|ds| - 1] == record[0];
  }

  lemma {:induction false} LastRecordTells(
    r: Agent, base: nat, sent: seq<Report>, db: NodeHistory.Database, uuid: string, clock: nat -> int)
    requires OrderlyState(r, base, sent) && uuid in db
    requires base < |r.gens| && r.gens[|r.gens| - 1].pc.Ended?
    ensures |sent| <= |r.reports| && r.gens[|r.gens| - 1].outcome.Some?
    ensures var outcome := r.gens[|r.gens| - 1].outcome.value;
            LastSays(NodeHistory.After(db, Deliver(uuid, r.reports[|sent|..], clock)), uuid,
                     outcome.err.None?, outcome.bytes)
  {
    StateTells(r, base, sent, db, uuid, clock);
    OrderlyVerdict(r, base, sent, |r.gens| - 1);
    ToldLast(NodeHistory.After(db, Deliver(uuid, r.reports[|sent|..], clock)), uuid, History(db, uuid), r.gens, base);
  }

  lemma {:induction false} ToldLast(db: NodeHistory.Database, uuid: string, past: seq<Shape>, gens: seq<Gen>, base: nat)
    requires base < |gens| && gens[|gens| - 1].pc.Ended? && VerdictFits(gens[|gens| - 1], gens[|gens| - 1].pc.verdict)
    requires uuid in db && History(db, uuid) == past + Records(gens, base, |gens|)
    ensures var outcome := gens[|gens| - 1].outcome.value;
            LastSays(db, uuid, outcome.err.None?, outcome.bytes)
  {
    LastShape(db[uuid].deploys, past, gens, base);
    RecordFits(db, uuid, gens[|gens| - 1]);
  }

  lemma {:induction false} NilIsVerified(w: Streams.World, f: Streams.Flow, image: Pipeline.Image, answers: Pipeline.Surroundings)
    requires Pipeline.Unused(f)
    ensures var ran := Pipeline.RunSpec(w, f, image, answers);
            ran.err.None? ==> VerifiedImage(w, f, image, ran.flow, ran.result.bytesWritten)
  {
    Pipeline.VerifiedWrite(w, f, image, answers);
  }

  /** The node's last record says completed exactly if Run returned nil, with Run's own byte
      count; and if it does, the device holds a verified image of that size. */
  ghost predicate RecordMeansImage(
    db: NodeHistory.Database, uuid: string, w: Streams.World, f: Streams.Flow, image: Pipeline.Image, ran: Pipeline.Ran)
  {
    && LastSays(db, uuid, ran.err.None?, ran.result.bytesWritten)
    && (db[uuid].LastResult() == NodeStore.COMPLETED ==> VerifiedImage(w, f, image, ran.flow, ran.result.bytesWritten))
  }

  /** The newest generation, begun after the first `base`, has ended; its Run returned this. */
  predicate EndedWith(r: Agent, base: nat, ran: Pipeline.Ran) {
    base < |r.gens| && r.gens[|r.gens| - 1].pc.Ended? && Carries(r.gens[|r.gens| - 1], ran)
  }

  /** What the server holds once it has heard, in order, the reports beyond the first `sent`. */
  ghost predicate HeardMeansImage(
    reports: seq<Report>, sent: nat, db: NodeHistory.Database, uuid: string, clock: nat -> int,
    w: Streams.World, f: Streams.Flow, image: Pipeline.Image, ran: Pipeline.Ran)
  {
    sent <= |reports| &&
    RecordMeansImage(NodeHistory.After(db, Deliver(uuid, reports[sent..], clock)), uuid, w, f, image, ran)
  }

  lemma {:induction false} StateMeansImage(
    r: Agent, base: nat, sent: seq<Report>, db: NodeHistory.Database, uuid: string, clock: nat -> int,
    w: Streams.World, f: Streams.Flow, image: Pipeline.Image, ran: Pipeline.Ran)
    requires OrderlyState(r, base, sent) && uuid in db && EndedWith(r, base, ran)
    requires ran.err.None? ==> VerifiedImage(w, f, image, ran.flow, ran.result.bytesWritten)
    ensures HeardMeansImage(r.reports, |sent|, db, uuid, clock, w, f, image, ran)
  {
    LastRecordTells(r, base, sent, db, uuid, clock);
  }

  /** In an orderly run, delivered in order, the server's last record for the node says
      completed if and only if the newest deployment's Run returned nil; and then, for the
      byte count that record gives, the device holds a verified image of exactly that size. */
  lemma {:induction false} CompletedRecordMeansVerifiedImage(
    s: Agent, steps: seq<Step>, db: NodeHistory.Database, uuid: string, clock: nat -> int,
    w: Streams.World, f: Streams.Flow, image: Pipeline.Image, answers: Pipeline.Surroundings, ran: Pipeline.Ran)
    requires AllQuiet(s) && Along(Apply, s, steps, Orderly) && uuid in db
    requires Pipeline.Unused(f) && ran == Pipeline.RunSpec(w, f, image, answers)
    requires EndedWith(Exec(s, steps), |s.gens|, ran)
    ensures HeardMeansImage(Exec(s, steps).reports, |s.reports|, db, uuid, clock, w, f, image, ran)
  {
    NilIsVerified(w, f, image, answers);
    OrderlyRun(s, steps);
    StateMeansImage(Exec(s, steps), |s.gens|, s.reports, db, uuid, clock, w, f, image, ran);
  }

  lemma RecordFits(db: NodeHistory.Database, uuid: string, x: Gen)
    requires x.pc.Ended? && VerdictFits(x, x.pc.verdict) && LastIsOf(db, uuid, x)
    ensures LastSays(db, uuid, x.outcome.value.err.None?, x.outcome.value.bytes)
  {
    var last := db[uuid].deploys[|db[uuid].deploys| - 1];
    assert ShapeOf(last) == RecordOf(x)[0];
  }
}
