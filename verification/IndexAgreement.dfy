/** The server produces the index, the agent validates it: when do they agree? */
module IndexAgreement {
  import opened Wrappers
  import opened Text
  import opened ImageIndex
  import opened ImageJobs
  import opened Catalog
  import opened Runs

  // ---- One entry ----

  /** What every entry the server writes looks like. */
  predicate Produced(img: Image) {
    && CheckSpec(img.id, img.architecture, img.firmware).None?
    && img.path == "/images/" + img.id + ".raw.zst"
    && img.format == "raw.zst"
  }

  /** What it must also be for the agent to take it. */
  predicate Loadable(img: Image) {
    img.name != "" && img.rawSize > 0 && !Contains(img.id, "..") && img.id != "" && img.id[|img.id| - 1] != '.'
  }

  lemma TwoDots(s: string, i: nat)
    ensures OccursAt(s, "..", i) <==> i + 1 < |s| && s[i] == '.' && s[i + 1] == '.'
  {
    if i + 2 <= |s| {
      assert s[i..i + 2] == [s[i], s[i + 1]];
    }
  }

  /** The path the server builds has two dots in a row exactly when the id has, or ends in
      a dot. */
  lemma PathDots(id: string)
    requires id != ""
    ensures Contains("/images/" + id + ".raw.zst", "..") <==> Contains(id, "..") || id[|id| - 1] == '.'
  {
    var path := "/images/" + id + ".raw.zst";
    if i :| 0 <= i <= |path| && OccursAt(path, "..", i) {
      TwoDots(path, i);
      assert i >= 8 && i < 8 + |id|;
      if i + 1 < 8 + |id| {
        TwoDots(id, i - 8);
        assert id[i - 8] == path[i] && id[i - 7] == path[i + 1];
      }
    }
    if i :| 0 <= i <= |id| && OccursAt(id, "..", i) {
      TwoDots(id, i);
      TwoDots(path, i + 8);
    }
    if id[|id| - 1] == '.' {
      TwoDots(path, |id| + 7);
    }
  }

  /** The architecture and the firmware the server allows mean the same to the agent. */
  lemma ProducedTarget(architecture: string, firmware: seq<string>)
    requires CheckTarget(architecture, firmware).None?
    ensures architecture != "" && NormalizeArchitecture(architecture) == Some(architecture)
    ensures |firmware| > 0 && forall i :: 0 <= i < |firmware| ==> KnownFirmware(firmware[i])
  {
    PlainTextUnchanged(architecture);
    PlainTextUnchanged("bios");
    PlainTextUnchanged("uefi");
    assert TrimSpace(ToLower(architecture)) == architecture;
    forall i | 0 <= i < |firmware|
      ensures KnownFirmware(firmware[i])
    {
      assert FirmwareOk(firmware[i]);
    }
  }

  /** The agent takes a produced entry exactly when it is loadable, and leaves it as it is. */
  lemma ProducedAcceptedExactly(img: Image)
    requires Produced(img)
    ensures Check(img).None? <==> Loadable(img)
    ensures Rewritten(img) == img
  {
    PathDots(img.id);
    ProducedTarget(img.architecture, img.firmware);
    PlainTextUnchanged("raw.zst");
    assert img.path[0] == '/';
  }

  // ---- Every index the server can write ----

  predicate Sound(task: Task) {
    match task
    case AddCheck(spec) => CheckSpec(spec.id, spec.architecture, spec.firmware).None?
    case AddUnique(spec) => CheckSpec(spec.id, spec.architecture, spec.firmware).None?
    case AddWork(spec, _) => CheckSpec(spec.id, spec.architecture, spec.firmware).None?
    case AddAppend(image, _) => Produced(image)
    case Change(id, update) => CheckSpec(id, update.architecture, update.firmware).None?
    case _ => true
  }

  ghost predicate AllProduced(images: seq<Image>) {
    forall i :: 0 <= i < |images| ==> Produced(images[i])
  }

  ghost predicate Producing(s: Server) {
    && Exclusive(s) && AllProduced(s.index)
    && forall t :: 0 <= t < |s.threads| ==> Sound(s.threads[t].task)
  }

  lemma {:induction false} UpdateKeepsProduced(images: seq<Image>, id: string, update: UpdateSpec)
    requires AllProduced(images) && CheckSpec(id, update.architecture, update.firmware).None?
    ensures AllProduced(UpdateFirst(images, id, update))
  {
    if images != [] && images[0].id != id {
      UpdateKeepsProduced(images[1..], id, update);
    }
  }

  lemma EffectKeepsProduced(images: seq<Image>, c: Commit)
    requires AllProduced(images)
    requires c.Appended? ==> Produced(c.image)
    requires c.Changed? ==> CheckSpec(c.id, c.update.architecture, c.update.firmware).None?
    ensures AllProduced(Effect(images, c))
  {
    match c
    case Appended(_, _) =>
    case Changed(_, id, update) => UpdateKeepsProduced(images, id, update);
    case Dropped(_, id) =>
      WithoutShorter(images, id);
      forall i | 0 <= i < |Without(images, id)|
        ensures Produced(Without(images, id)[i])
      {
        assert Without(images, id)[i] in Without(images, id);
      }
  }

  lemma ThreadStaysSound(s: Server, step: Step, t: nat)
    requires !step.StartAdd? && !step.StartUpdate? && !step.StartDelete?
    requires step.t < |s.threads| && t < |s.threads| && Sound(s.threads[t].task)
    ensures t < |DoThread(s, step).threads| && Sound(DoThread(s, step).threads[t].task)
  {
  }

  lemma StepKeepsSound(s: Server, step: Step, position: nat, t: nat)
    requires Producing(s) && t < |Apply(s, step, position).threads|
    ensures Sound(Apply(s, step, position).threads[t].task)
  {
    match step
    case StartAdd(_) =>
    case StartUpdate(_, _) =>
    case StartDelete(_) =>
    case _ =>
      if step.t < |s.threads| && t < |s.threads| {
        ThreadStaysSound(s, step, t);
      }
  }

  lemma StepKeepsProducing(s: Server, step: Step, position: nat)
    requires Producing(s)
    ensures Producing(Apply(s, step, position))
  {
    var s' := Apply(s, step, position);
    StepKeepsExclusive(s, step, position);
    forall t | 0 <= t < |s'.threads|
      ensures Sound(s'.threads[t].task)
    {
      StepKeepsSound(s, step, position, t);
    }
    StepKeepsIndexProduced(s, step, position);
  }

  lemma StepKeepsIndexProduced(s: Server, step: Step, position: nat)
    requires Producing(s)
    ensures AllProduced(Apply(s, step, position).index)
  {
    if step.Store? && step.t < |s.threads| && s.threads[step.t].section.Loaded? {
      var commit := CommitOf(s.threads[step.t].task, step.t, s.index);
      if commit.Some? {
        EffectKeepsProduced(s.index, commit.value);
      }
    }
  }

  /** In every schedule of adds, updates and deletes the agent takes the resulting index
      exactly when no id is repeated and every entry is loadable, and its normalisation
      changes nothing. */
  lemma AgentAcceptsExactly(steps: seq<Step>)
    ensures var index := Exec(steps).index;
            && (Acceptable(index) <==> DistinctIds(index) && forall i :: 0 <= i < |index| ==> Loadable(index[i]))
            && AllRewritten(index) == index
  {
    assert Stable<Server, Step>(Apply, Producing) by {
      forall s: Server, step: Step, position: nat | Producing(s)
        ensures Producing(Apply(s, step, position))
      {
        StepKeepsProducing(s, step, position);
      }
    }
    StableHolds<Server, Step>(Apply, IDLE, steps, Producing, 0);
    var index := Exec(steps).index;
    forall i | 0 <= i < |index|
      ensures Check(index[i]).None? <==> Loadable(index[i])
      ensures Rewritten(index[i]) == index[i]
    {
      ProducedAcceptedExactly(index[i]);
    }
  }

  // ---- In terms of the requests ----

  /** An id whose path has no two dots in a row. */
  predicate PlainId(id: string) {
    !Contains(id, "..") && (id != "" ==> id[|id| - 1] != '.')
  }

  predicate GoodAdd(spec: AddSpec) {
    spec.name != "" && PlainId(spec.id) && !Precompressed(spec)
  }

  /** Adds and updates give a name, added ids have no forbidden dots, added images are not
      compressed already, and the raw file of each can be read and is not empty. */
  predicate GoodRequests(s: Server, step: Step) {
    match step
    case StartAdd(spec) => GoodAdd(spec)
    case StartUpdate(_, update) => update.name != ""
    case Worked(_, result) => result.Some? ==> result.value.stat.Some? && result.value.stat.value > 0
    case _ => true
  }

  predicate Good(task: Task) {
    match task
    case AddCheck(spec) => GoodAdd(spec) && IdMatches(spec.id)
    case AddUnique(spec) => GoodAdd(spec) && IdMatches(spec.id)
    case AddWork(spec, _) => GoodAdd(spec) && IdMatches(spec.id)
    case AddAppend(image, _) => Loadable(image)
    case Change(_, update) => update.name != ""
    case _ => true
  }

  ghost predicate AllLoadable(images: seq<Image>) {
    forall i :: 0 <= i < |images| ==> Loadable(images[i])
  }

  ghost predicate Loading(s: Server) {
    && Exclusive(s) && AllLoadable(s.index)
    && forall t :: 0 <= t < |s.threads| ==> Good(s.threads[t].task)
  }

  lemma {:induction false} UpdateKeepsLoadable(images: seq<Image>, id: string, update: UpdateSpec)
    requires AllLoadable(images) && update.name != ""
    ensures AllLoadable(UpdateFirst(images, id, update))
  {
    if images != [] && images[0].id != id {
      UpdateKeepsLoadable(images[1..], id, update);
    }
  }

  lemma EffectKeepsLoadable(images: seq<Image>, c: Commit)
    requires AllLoadable(images)
    requires c.Appended? ==> Loadable(c.image)
    requires c.Changed? ==> c.update.name != ""
    ensures AllLoadable(Effect(images, c))
  {
    match c
    case Appended(_, _) =>
    case Changed(_, id, update) => UpdateKeepsLoadable(images, id, update);
    case Dropped(_, id) =>
      WithoutShorter(images, id);
      forall i | 0 <= i < |Without(images, id)|
        ensures Loadable(Without(images, id)[i])
      {
        assert Without(images, id)[i] in Without(images, id);
      }
  }

  lemma ThreadStaysGood(s: Server, step: Step, t: nat)
    requires !step.StartAdd? && !step.StartUpdate? && !step.StartDelete?
    requires step.t < |s.threads| && t < |s.threads| && Good(s.threads[t].task) && GoodRequests(s, step)
    ensures t < |DoThread(s, step).threads| && Good(DoThread(s, step).threads[t].task)
  {
  }

  lemma StepKeepsGood(s: Server, step: Step, position: nat, t: nat)
    requires Loading(s) && GoodRequests(s, step) && t < |Apply(s, step, position).threads|
    ensures Good(Apply(s, step, position).threads[t].task)
  {
    match step
    case StartAdd(_) =>
    case StartUpdate(_, _) =>
    case StartDelete(_) =>
    case _ =>
      if step.t < |s.threads| && t < |s.threads| {
        ThreadStaysGood(s, step, t);
      }
  }

  lemma StepKeepsLoading(s: Server, step: Step, position: nat)
    requires Loading(s) && GoodRequests(s, step)
    ensures Loading(Apply(s, step, position))
  {
    var s' := Apply(s, step, position);
    StepKeepsExclusive(s, step, position);
    forall t | 0 <= t < |s'.threads|
      ensures Good(s'.threads[t].task)
    {
      StepKeepsGood(s, step, position, t);
    }
    if step.Store? && step.t < |s.threads| && s.threads[step.t].section.Loaded? {
      var commit := CommitOf(s.threads[step.t].task, step.t, s.index);
      if commit.Some? {
        EffectKeepsLoadable(s.index, commit.value);
      }
    }
  }

  /** If every request is good and no append repeats an id, then whatever the schedule of
      adds, updates and deletes, the agent takes the index and leaves it as it is. */
  lemma {:induction false} GoodIndexAccepted(steps: seq<Step>)
    requires Along(Apply, IDLE, steps, FreshAppend) && Along(Apply, IDLE, steps, GoodRequests)
    ensures Acceptable(Exec(steps).index) && AllRewritten(Exec(steps).index) == Exec(steps).index
  {
    assert Inductive<Server, Step>(Apply, GoodRequests, Loading) by {
      forall s: Server, step: Step, position: nat | Loading(s) && GoodRequests(s, step)
        ensures Loading(Apply(s, step, position))
      {
        StepKeepsLoading(s, step, position);
      }
    }
    RunKeeps<Server, Step>(Apply, IDLE, steps, GoodRequests, Loading);
    IdsDistinctExactly(steps);
    AgentAcceptsExactly(steps);
  }

  /** The file Delete unlinks, by name: with distinct ids in an index the server has written, the
      one made for the deleted id if its entry was the last, and otherwise the next entry's. */
  lemma {:induction false} UnlinkedName(images: seq<Image>, id: string, p: nat)
    requires AllProduced(images) && DistinctIds(images) && p < |images| && images[p].id == id
    ensures Base(SlotAfter(images, id).path) == (if p == |images| - 1 then id else images[p + 1].id) + ".raw.zst"
  {
    UnlinkedFile(images, id, p);
    var slot := SlotAfter(images, id);
    assert Produced(slot);
    var name := slot.id + ".raw.zst";
    forall i | 0 <= i < |name|
      ensures name[i] != '/'
    {
      assert i < |slot.id| ==> IdChar(slot.id[i]);
    }
    BaseTells("/images", name);
    assert slot.path == "/images" + "/" + name;
  }

  // ---- Where they disagree ----

  /** One entry of raw size 0 costs the agent the whole index, and an add from a compressed
      raw image always registers size 0. */
  lemma PrecompressedAddRejected(images: seq<Image>, spec: AddSpec, p: Processed)
    requires Precompressed(spec)
    ensures !Acceptable(images + [ImageOf(spec, p)])
  {
    var index := images + [ImageOf(spec, p)];
    assert index[|images|].rawSize == 0 && Check(index[|images|]).Some?;
  }

  const SPEC := AddSpec("path", "/srv/disk.raw", "a", "A", "linux", "1", "x86_64", ["uefi"], "")
  const PROCESSED := Processed(Some(1), 1, "00")

  lemma Take(steps: seq<Step>, s: Server, step: Step) returns (steps': seq<Step>, s': Server)
    requires s == Exec(steps)
    ensures steps' == steps + [step] && s' == Apply(s, step, |steps| + 1) && s' == Exec(steps')
  {
    steps' := steps + [step];
    s' := Apply(s, step, |steps| + 1);
    RunAppend(Apply, IDLE, steps, step);
  }

  /** A thread that needs the lock takes it and reads the index. */
  lemma Enter(steps: seq<Step>, s: Server, t: nat) returns (steps': seq<Step>, s': Server)
    requires s == Exec(steps) && s.lock.None? && t < |s.threads|
    requires s.threads[t].task.NeedsLock() && s.threads[t].section.Outside?
    ensures s' == Exec(steps') && s'.lock == Some(t) && s'.index == s.index
    ensures s'.threads == s.threads[t := Thread(s.threads[t].task, Loaded(s.index))]
  {
    steps', s' := Take(steps, s, Lock(t));
    assert s'.threads == s.threads[t := Thread(s.threads[t].task, Holding)] && s'.index == s.index;
    steps', s' := Take(steps', s', Load(t));
  }

  lemma Exit(steps: seq<Step>, s: Server, t: nat) returns (steps': seq<Step>, s': Server)
    requires s == Exec(steps) && t < |s.threads| && MayLeave(s.threads[t])
    ensures s' == Exec(steps') && s'.lock.None? && s'.index == s.index
    ensures s'.threads == s.threads[t := Thread(Leave(s.threads[t]), Outside)]
  {
    steps', s' := Take(steps, s, Unlock(t));
  }

  lemma PassCheck(steps: seq<Step>, s: Server, t: nat) returns (steps': seq<Step>, s': Server)
    requires s == Exec(steps) && s.lock.None? && s.index == [] && t < |s.threads|
    requires s.threads[t] == Thread(AddCheck(SPEC), Outside)
    ensures s' == Exec(steps') && s'.lock.None? && s'.index == []
    ensures s'.threads == s.threads[t := Thread(AddUnique(SPEC), Outside)]
  {
    steps', s' := Enter(steps, s, t);
    steps', s' := Exit(steps', s', t);
  }

  /** Both adds of one id pass the check before either appends. */
  lemma BothChecked() returns (steps: seq<Step>, s: Server)
    ensures s == Exec(steps) && s.index == [] && s.lock == None
    ensures s.threads == [Thread(AddUnique(SPEC), Outside), Thread(AddUnique(SPEC), Outside)]
  {
    steps, s := Take([], IDLE, StartAdd(SPEC));
    steps, s := Take(steps, s, StartAdd(SPEC));
    steps, s := PassCheck(steps, s, 0);
    steps, s := PassCheck(steps, s, 1);
  }

  lemma AppendEntry(steps: seq<Step>, s: Server, t: nat, job: string) returns (steps': seq<Step>, s': Server)
    requires s == Exec(steps) && s.lock.None? && t < |s.threads|
    requires s.threads[t] == Thread(AddAppend(ImageOf(SPEC, PROCESSED), job), Outside)
    ensures s' == Exec(steps') && s'.lock.None? && s'.index == s.index + [ImageOf(SPEC, PROCESSED)]
    ensures |s'.threads| == |s.threads| && forall u :: 0 <= u < |s.threads| && u != t ==> s'.threads[u] == s.threads[u]
  {
    steps', s' := Enter(steps, s, t);
    steps', s' := Save(steps', s', t, ImageOf(SPEC, PROCESSED), job);
    steps', s' := Exit(steps', s', t);
  }

  lemma Save(steps: seq<Step>, s: Server, t: nat, image: Image, job: string) returns (steps': seq<Step>, s': Server)
    requires s == Exec(steps) && t < |s.threads| && s.threads[t] == Thread(AddAppend(image, job), Loaded(s.index))
    ensures s' == Exec(steps') && s'.index == s.index + [image] && s'.lock == s.lock
    ensures s'.threads == s.threads[t := Thread(AddAppend(image, job), Stored(None))]
  {
    steps', s' := Take(steps, s, Store(t, true));
  }

  /** A thread that has passed its check works, appends and leaves. */
  lemma Finish(steps: seq<Step>, s: Server, t: nat, job: string) returns (steps': seq<Step>, s': Server)
    requires s == Exec(steps) && s.lock.None? && t < |s.threads| && s.threads[t] == Thread(AddUnique(SPEC), Outside)
    ensures s' == Exec(steps') && s'.lock.None? && s'.index == s.index + [ImageOf(SPEC, PROCESSED)]
    ensures |s'.threads| == |s.threads| && forall u :: 0 <= u < |s.threads| && u != t ==> s'.threads[u] == s.threads[u]
  {
    steps', s' := Take(steps, s, Spawn(t, job));
    steps', s' := Take(steps', s', Worked(t, Some(PROCESSED)));
    assert s'.threads == s.threads[t := Thread(AddAppend(ImageOf(SPEC, PROCESSED), job), Outside)];
    steps', s' := AppendEntry(steps', s', t, job);
  }

  /** Without the hypothesis two adds of one id both end up in the index, which the agent
      then refuses as a whole. */
  lemma DuplicateIdReachable()
    ensures exists steps :: !DistinctIds(Exec(steps).index) && !Acceptable(Exec(steps).index)
  {
    var steps, s := BothChecked();
    steps, s := Finish(steps, s, 0, "job-1");
    steps, s := Finish(steps, s, 1, "job-2");
    assert s.index[0].id == s.index[1].id;
    assert !DistinctIds(Exec(steps).index);
  }
}
