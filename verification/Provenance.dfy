/** Where the entries of the image index come from, and that the agent can deploy them. */
module Provenance {
  import opened Wrappers
  import opened Text
  import opened ImageIndex
  import opened ImageJobs
  import opened Runs
  import Streams
  import CopyLoop
  import Pipeline
  import RunOutcome
  import Catalog

  // ---- Which request made an entry ----

  /** The add that the thread `t` is for. */
  ghost predicate Requested(steps: seq<Step>, t: nat, spec: AddSpec) {
    exists i :: 0 <= i < |steps| && steps[i] == StartAdd(spec)
                && |Exec(steps[..i]).threads| == t && |Exec(steps[..i + 1]).threads| == t + 1
  }

  /** What its work came to. */
  ghost predicate WorkedOut(steps: seq<Step>, t: nat, p: Processed) {
    exists j :: 0 <= j < |steps| && steps[j] == Worked(t, Some(p))
  }

  /** The source is a file that is already a compressed raw image. */
  predicate CompressedSource(spec: AddSpec) {
    && (spec.mode == "path" || spec.mode == "upload")
    && (HasSuffix(ToLower(spec.source), ".raw.zst") || HasSuffix(ToLower(spec.source), ".img.zst"))
  }

  /** The file an entry stands for: path, format, sizes and digests. */
  predicate FileOf(image: Image, spec: AddSpec, p: Processed) {
    && image.id == spec.id && image.path == "/images/" + spec.id + ".raw.zst" && image.format == "raw.zst"
    && image.compressedSize == p.compressedSize && image.sha256Compressed == p.sum && image.sha256Raw == ""
    && (CompressedSource(spec) ==> image.rawSize == 0)
    && (!CompressedSource(spec) && p.stat.Some? ==> image.rawSize == p.stat.value)
    && (!CompressedSource(spec) && p.stat.None? ==> image.rawSize == 0)
  }

  /** The entry an add makes: its file, and the request's own words. */
  predicate EntryOf(image: Image, spec: AddSpec, p: Processed) {
    && FileOf(image, spec, p)
    && image.name == spec.name && image.os == spec.os && image.version == spec.version
    && image.architecture == spec.architecture && image.firmware == spec.firmware && image.description == spec.description
  }

  ghost predicate Made(steps: seq<Step>, t: nat, image: Image) {
    exists spec, p :: Requested(steps, t, spec) && WorkedOut(steps, t, p) && EntryOf(image, spec, p)
  }

  function SpecIn(task: Task): Option<AddSpec> {
    match task
    case AddCheck(spec) => Some(spec)
    case AddUnique(spec) => Some(spec)
    case AddWork(spec, _) => Some(spec)
    case _ => None
  }

  function ImageIn(task: Task): Option<Image> {
    match task
    case AddAppend(image, _) => Some(image)
    case AddFinish(image, _) => Some(image)
    case AddOver(_, entry) => entry
    case _ => None
  }

  ghost predicate Traced(steps: seq<Step>, t: nat, task: Task) {
    && (SpecIn(task).Some? ==> Requested(steps, t, SpecIn(task).value))
    && (ImageIn(task).Some? ==> Made(steps, t, ImageIn(task).value))
  }

  lemma {:induction false} RequestedStays(steps: seq<Step>, step: Step, t: nat, spec: AddSpec)
    requires Requested(steps, t, spec)
    ensures Requested(steps + [step], t, spec)
  {
    var i :| 0 <= i < |steps| && steps[i] == StartAdd(spec)
             && |Exec(steps[..i]).threads| == t && |Exec(steps[..i + 1]).threads| == t + 1;
    assert (steps + [step])[..i] == steps[..i] && (steps + [step])[..i + 1] == steps[..i + 1];
    assert (steps + [step])[i] == steps[i];
  }

  lemma WorkedStays(steps: seq<Step>, step: Step, t: nat, p: Processed)
    requires WorkedOut(steps, t, p)
    ensures WorkedOut(steps + [step], t, p)
  {
    var j :| 0 <= j < |steps| && steps[j] == Worked(t, Some(p));
    assert (steps + [step])[j] == steps[j];
  }

  lemma {:induction false} TracedStays(steps: seq<Step>, step: Step, t: nat, task: Task)
    requires Traced(steps, t, task)
    ensures Traced(steps + [step], t, task)
  {
    if SpecIn(task).Some? {
      RequestedStays(steps, step, t, SpecIn(task).value);
    }
    if ImageIn(task).Some? {
      var spec, p :| Requested(steps, t, spec) && WorkedOut(steps, t, p) && EntryOf(ImageIn(task).value, spec, p);
      RequestedStays(steps, step, t, spec);
      WorkedStays(steps, step, t, p);
    }
  }

  /** A thread passes on what it holds; work makes an entry of the request. */
  lemma ThreadPassesOn(s: Server, step: Step, t: nat)
    requires !step.StartAdd? && !step.StartUpdate? && !step.StartDelete?
    requires step.t < |s.threads| && t < |s.threads|
    ensures t < |DoThread(s, step).threads|
    ensures var task, task' := s.threads[t].task, DoThread(s, step).threads[t].task;
            && (SpecIn(task').Some? ==> SpecIn(task') == SpecIn(task))
            && (ImageIn(task').Some? ==>
                  || ImageIn(task') == ImageIn(task)
                  || (step.Worked? && step.t == t && step.result.Some? && SpecIn(task).Some?
                      && EntryOf(ImageIn(task').value, SpecIn(task).value, step.result.value)))
  {
  }

  lemma StartTraced(s: Server, step: Step, position: nat, t: nat)
    requires step.StartAdd? || step.StartUpdate? || step.StartDelete?
    requires t < |Apply(s, step, position).threads|
    ensures var task' := Apply(s, step, position).threads[t].task;
            || (t < |s.threads| && task' == s.threads[t].task)
            || (t == |s.threads| && |Apply(s, step, position).threads| == t + 1 && ImageIn(task').None?
                && (SpecIn(task').Some? ==> step == StartAdd(SpecIn(task').value)))
  {
  }

  lemma {:induction false} StepTraced(steps: seq<Step>, step: Step, s: Server, s': Server, t: nat)
    requires s == Exec(steps) && s' == Exec(steps + [step]) && s' == Apply(s, step, |steps| + 1)
    requires forall u :: 0 <= u < |s.threads| ==> Traced(steps, u, s.threads[u].task)
    requires t < |s'.threads|
    ensures Traced(steps + [step], t, s'.threads[t].task)
  {
    if t < |s.threads| {
      TracedStays(steps, step, t, s.threads[t].task);
    }
    if step.StartAdd? || step.StartUpdate? || step.StartDelete? {
      StartTraced(s, step, |steps| + 1, t);
      if t == |s.threads| && SpecIn(s'.threads[t].task).Some? {
        NewRequest(steps, step, s, s');
      }
    } else if step.t < |s.threads| {
      ThreadPassesOn(s, step, t);
      if ImageIn(s'.threads[t].task).Some? && ImageIn(s'.threads[t].task) != ImageIn(s.threads[t].task) {
        assert (steps + [step])[|steps|] == Worked(t, Some(step.result.value));
        assert WorkedOut(steps + [step], t, step.result.value);
      }
    }
  }

  lemma {:induction false} NewRequest(steps: seq<Step>, step: Step, s: Server, s': Server)
    requires s == Exec(steps) && s' == Exec(steps + [step]) && step.StartAdd? && |s'.threads| == |s.threads| + 1
    ensures Requested(steps + [step], |s.threads|, step.spec)
  {
    var after := steps + [step];
    assert after[..|steps|] == steps && after[..|steps| + 1] == after && after[|steps|] == step;
  }

  lemma {:induction false} TracedRun(steps: seq<Step>, t: nat)
    requires t < |Exec(steps).threads|
    ensures Traced(steps, t, Exec(steps).threads[t].task)
    decreases |steps|
  {
    if steps != [] {
      var n := |steps| - 1;
      assert steps == steps[..n] + [steps[n]];
      var s := Exec(steps[..n]);
      forall u | 0 <= u < |s.threads|
        ensures Traced(steps[..n], u, s.threads[u].task)
      {
        TracedRun(steps[..n], u);
      }
      RunAppend<Server, Step>(Apply, IDLE, steps[..n], steps[n]);
      StepTraced(steps[..n], steps[n], s, Exec(steps), t);
    }
  }

  lemma {:induction false} AppendedIsOwn(commits: seq<Commit>, c: nat)
    requires c < |commits|
    ensures commits[c] in Own(commits, commits[c].author)
    decreases |commits|
  {
    var n := |commits| - 1;
    if c < n {
      AppendedIsOwn(commits[..n], c);
    }
  }

  /** In every schedule each entry ever appended was made for one accepted request to add and
      what the work on it came to: field by field the request's own words, the path built from
      its id, the size and digest of the compressed file, no digest of the raw image, and the
      raw file's size, or 0 if it is unknown or was never looked at. */
  lemma {:induction false} AppendedIsMade(steps: seq<Step>, c: nat)
    requires c < |Exec(steps).commits| && Exec(steps).commits[c].Appended?
    ensures var commit := Exec(steps).commits[c];
            Made(steps, commit.author, commit.image)
  {
    NoUpdateLost(steps);
    var s := Exec(steps);
    var commit := s.commits[c];
    AppendedIsOwn(s.commits, c);
    assert commit in Owed(commit.author, s.threads[commit.author]);
    TracedRun(steps, commit.author);
  }

  // ---- What becomes of it ----

  predicate SameFile(a: Image, b: Image) {
    && a.id == b.id && a.path == b.path && a.format == b.format && a.compressedSize == b.compressedSize
    && a.rawSize == b.rawSize && a.sha256Compressed == b.sha256Compressed && a.sha256Raw == b.sha256Raw
  }

  /** The update with the id changes the words of the first such entry, all of them, and
      nothing else. */
  lemma {:induction false} UpdateTells(images: seq<Image>, id: string, spec: UpdateSpec, p: nat)
    requires p < |images| && images[p].id == id && forall i :: 0 <= i < p ==> images[i].id != id
    ensures var r := UpdateFirst(images, id, spec);
            && |r| == |images| && (forall i :: 0 <= i < |images| && i != p ==> r[i] == images[i])
            && SameFile(r[p], images[p])
            && r[p].name == spec.name && r[p].os == spec.os && r[p].version == spec.version
            && r[p].architecture == spec.architecture && r[p].firmware == spec.firmware && r[p].description == spec.description
  {
    UpdateFirstAt(images, id, spec, p);
  }

  lemma {:induction false} UpdateKeepsFile(images: seq<Image>, id: string, spec: UpdateSpec, i: nat)
    requires i < |images|
    ensures |UpdateFirst(images, id, spec)| == |images| && SameFile(UpdateFirst(images, id, spec)[i], images[i])
  {
    if images[0].id != id && i > 0 {
      UpdateKeepsFile(images[1..], id, spec, i - 1);
    } else if images[0].id != id {
      UpdateKeepsIds(images[1..], id, spec);
    }
  }

  ghost predicate FileAppended(commits: seq<Commit>, image: Image) {
    exists c :: 0 <= c < |commits| && commits[c].Appended? && SameFile(commits[c].image, image)
  }

  lemma {:induction false} ReplayedFile(commits: seq<Commit>, i: nat)
    requires i < |Replay(commits)|
    ensures FileAppended(commits, Replay(commits)[i])
    decreases |commits|
  {
    var n := |commits| - 1;
    var before := Replay(commits[..n]);
    var image := Replay(commits)[i];
    match commits[n]
    case Appended(_, _) =>
      if i < |before| {
        ReplayedEarlier(commits, image, i);
      } else {
        assert commits[n].image == image;
      }
    case Changed(_, id, spec) =>
      UpdateKeepsIds(before, id, spec);
      UpdateKeepsFile(before, id, spec, i);
      ReplayedEarlier(commits, image, i);
    case Dropped(_, id) =>
      WithoutShorter(before, id);
      assert image in Without(before, id);
      var j :| 0 <= j < |before| && before[j] == image;
      ReplayedEarlier(commits, image, j);
  }

  lemma {:induction false} ReplayedEarlier(commits: seq<Commit>, image: Image, i: nat)
    requires commits != [] && i < |Replay(commits[..|commits| - 1])|
    requires SameFile(Replay(commits[..|commits| - 1])[i], image)
    ensures FileAppended(commits, image)
    decreases |commits|, 0
  {
    var n := |commits| - 1;
    ReplayedFile(commits[..n], i);
    var c :| 0 <= c < n && commits[..n][c].Appended? && SameFile(commits[..n][c].image, Replay(commits[..n])[i]);
    assert commits[c] == commits[..n][c];
  }

  /** The entry's file is what the work on some accepted request to add came to. */
  ghost predicate FileMade(steps: seq<Step>, image: Image) {
    exists t, spec, p :: Requested(steps, t, spec) && WorkedOut(steps, t, p) && FileOf(image, spec, p)
  }

  /** In every schedule of adds, updates and deletes this holds of every entry of the index. */
  lemma {:induction false} IndexIsMade(steps: seq<Step>, i: nat)
    requires i < |Exec(steps).index|
    ensures FileMade(steps, Exec(steps).index[i])
  {
    NoUpdateLost(steps);
    var s := Exec(steps);
    ReplayedFile(s.commits, i);
    var c :| 0 <= c < |s.commits| && s.commits[c].Appended? && SameFile(s.commits[c].image, s.index[i]);
    AppendedIsMade(steps, c);
    var spec, p :| Requested(steps, s.commits[c].author, spec) && WorkedOut(steps, s.commits[c].author, p)
                   && EntryOf(s.commits[c].image, spec, p);
    assert FileOf(s.index[i], spec, p);
  }

  // ---- The agent deploys it ----

  /** The entry as Run gets it. */
  function ForRun(image: Image): Pipeline.Image {
    Pipeline.Image(image.format, image.rawSize, image.sha256Compressed, image.sha256Raw)
  }

  /** Whatever else happens, running such an entry never fails for the digest of the raw image,
      and for that of the compressed one only if the bytes it consumed have another digest than
      the file the work produced. */
  lemma {:induction false} EntryDigestsMatch(
    image: Image, spec: AddSpec, p: Processed, w: Streams.World, f: Streams.Flow, answers: Pipeline.Surroundings)
    requires FileOf(image, spec, p) && f.disk.Valid()
    ensures var r := Pipeline.RunSpec(w, f, ForRun(image), answers);
            && r.err != Some(Pipeline.RawDiffers)
            && (w.sum(r.flow.chain.consumed) == p.sum ==> r.err != Some(Pipeline.CompressedDiffers))
  {
    RunOutcome.LateErrors(w, f, ForRun(image), answers);
  }

  /** The validator and Run know the same formats: an image passes the one exactly if the other
      does not call it unsupported. */
  lemma {:induction false} FormatsAgree(
    format: string, w: Streams.World, f: Streams.Flow, image: Pipeline.Image, answers: Pipeline.Surroundings)
    requires image.format == format && f.disk.Valid() && RunOutcome.Answered(answers)
    ensures Catalog.IsSupportedFormat(format) <==> Pipeline.RunSpec(w, f, image, answers).err != Some(Pipeline.Unsupported)
  {
    RunOutcome.UnsupportedExactly(w, f, image, answers);
  }
}
