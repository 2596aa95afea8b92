/** Add jobs, updates and deletes of images running at the same time
    (server/internal/imagesvc/imagesvc.go). Each request is a thread; the index file is
    read and rewritten in separate steps under `s.mu`, which is modelled too. */
module ImageJobs {
  import opened Wrappers
  import opened Text
  import opened ImageIndex
  import opened Runs

  // ---- Requests ----

  /** Where a thread is inside `s.mu`: not at all, holding it, having read the index, or
      having tried to write it, with what error. */
  datatype Section = Outside | Holding | Loaded(copy: seq<Image>) | Stored(err: Option<SvcError>)

  /** What a thread still has to do. */
  datatype Task =
    | AddCheck(spec: AddSpec)                  // StartAdd: look for the id in the index
    | AddUnique(spec: AddSpec)                 // id not found; next register the job and spawn runAdd
    | AddWork(spec: AddSpec, job: string)      // fetch, convert, compress, checksum
    | AddAppend(image: Image, job: string)     // append to the index
    | AddFinish(image: Image, job: string)     // appended; next mark the job done
    | AddFail(job: string)                     // next mark the job failed
    | AddOver(job: string, entry: Option<Image>)  // the entry it appended, if done
    | AddRefused(spec: AddSpec)                // the id was found; no job
    | Change(id: string, update: UpdateSpec)
    | ChangeOver(id: string, update: UpdateSpec, err: Option<SvcError>)
    | Drop(id: string)
    | DropOver(id: string, err: Option<SvcError>)
  {
    predicate NeedsLock() {
      AddCheck? || AddAppend? || Change? || Drop?
    }

    /** An add that has passed its check and not yet appended or failed. */
    predicate InFlight() {
      AddUnique? || AddWork? || AddAppend?
    }

    function InFlightId(): string
      requires InFlight()
    {
      if AddAppend? then image.id else spec.id
    }

    predicate HasJob() {
      AddWork? || AddAppend? || AddFinish? || AddFail? || AddOver?
    }
  }

  datatype Thread = Thread(task: Task, section: Section)

  datatype Job = Job(stage: string, done: bool)

  /** A rewrite of the index that reached the disk, and the thread that made it. */
  datatype Commit =
    | Appended(author: nat, image: Image)
    | Changed(author: nat, id: string, update: UpdateSpec)
    | Dropped(author: nat, id: string)

  datatype Server = Server(
    index: seq<Image>, lock: Option<nat>, threads: seq<Thread>, jobs: map<string, Job>, commits: seq<Commit>)

  const IDLE := Server([], None, [], map[], [])

  // ---- What runAdd registers ----

  /** A source that is already a compressed raw image; one fetched from a URL is stored
      under a name without suffix and never counts. */
  predicate Precompressed(spec: AddSpec) {
    var lower := ToLower(spec.source);
    (spec.mode == "path" || spec.mode == "upload") && (HasSuffix(lower, ".raw.zst") || HasSuffix(lower, ".img.zst"))
  }

  /** The size registered: zstdRawSize gives 0 whatever the file is; otherwise what Stat
      says of the raw file, or 0 if it fails. */
  function RegisteredSize(spec: AddSpec, stat: Option<nat>): nat {
    if Precompressed(spec) then 0 else if stat.Some? then stat.value else 0
  }

  datatype Processed = Processed(stat: Option<nat>, compressedSize: nat, sum: string)

  function ImageOf(spec: AddSpec, p: Processed): Image {
    Image(spec.id, spec.name, spec.os, spec.version, spec.architecture, spec.firmware,
          "/images/" + spec.id + ".raw.zst", "raw.zst", p.compressedSize, RegisteredSize(spec, p.stat),
          p.sum, "", spec.description)
  }

  // ---- Steps ----

  datatype Step =
    | StartAdd(spec: AddSpec)
    | StartUpdate(id: string, update: UpdateSpec)
    | StartDelete(id: string)
    | Lock(t: nat)
    | Load(t: nat)
    | Store(t: nat, writeOk: bool)
    | Unlock(t: nat)
    | Spawn(t: nat, job: string)                     // register the job as queued, start runAdd
    | Stage(t: nat, stage: string)                   // downloading, converting, compressing, registering
    | Worked(t: nat, result: Option<Processed>)      // None: some step of the work failed
    | Close(t: nat)                                  // mark the job done or failed

  function SetThread(s: Server, t: nat, th: Thread): Server
    requires t < |s.threads|
  {
    s.(threads := s.threads[t := th])
  }

  function AddThread(s: Server, task: Task): Server {
    s.(threads := s.threads + [Thread(task, Outside)])
  }

  /** The commit a writing task makes of what it has read; none if its entry is missing. */
  function CommitOf(task: Task, t: nat, copy: seq<Image>): Option<Commit> {
    match task
    case AddAppend(image, _) => Some(Appended(t, image))
    case Change(id, spec) => if HasId(copy, id) then Some(Changed(t, id, spec)) else None
    case Drop(id) => if HasId(copy, id) then Some(Dropped(t, id)) else None
    case _ => None
  }

  function Effect(images: seq<Image>, c: Commit): seq<Image> {
    match c
    case Appended(_, image) => images + [image]
    case Changed(_, id, spec) => UpdateFirst(images, id, spec)
    case Dropped(_, id) => Without(images, id)
  }

  /** What a thread does when it leaves the critical section; an update and a delete answer
      with the error of their write. */
  function Leave(th: Thread): Task {
    match th.task
    case AddCheck(spec) => if th.section.Loaded? && !HasId(th.section.copy, spec.id) then AddUnique(spec) else AddRefused(spec)
    case AddAppend(image, job) => if th.section == Stored(None) then AddFinish(image, job) else AddFail(job)
    case Change(id, update) => if th.section.Stored? then ChangeOver(id, update, th.section.err) else th.task
    case Drop(id) => if th.section.Stored? then DropOver(id, th.section.err) else th.task
    case _ => th.task
  }

  /** The section is finished once the check has read, or the writer has written. */
  predicate MayLeave(th: Thread) {
    th.section.Stored? || (th.section.Loaded? && th.task.AddCheck?)
  }

  function DoStore(s: Server, t: nat, writeOk: bool): Server
    requires t < |s.threads| && s.threads[t].section.Loaded?
  {
    var th := s.threads[t];
    var commit := CommitOf(th.task, t, th.section.copy);
    if commit.None? then SetThread(s, t, th.(section := Stored(Some(NotFound))))
    else if !writeOk then SetThread(s, t, th.(section := Stored(Some(WriteFailed))))
    else
      SetThread(s, t, th.(section := Stored(None)))
        .(index := Effect(th.section.copy, commit.value), commits := s.commits + [commit.value])
  }

  function DoThread(s: Server, step: Step): Server
    requires !step.StartAdd? && !step.StartUpdate? && !step.StartDelete? && step.t < |s.threads|
  {
    var t := step.t;
    var th := s.threads[t];
    match step
    case Lock(_) =>
      if s.lock.None? && th.task.NeedsLock() && th.section.Outside? then
        SetThread(s, t, th.(section := Holding)).(lock := Some(t))
      else s
    case Load(_) => if th.section.Holding? then SetThread(s, t, th.(section := Loaded(s.index))) else s
    case Store(_, writeOk) => if th.section.Loaded? && !th.task.AddCheck? then DoStore(s, t, writeOk) else s
    case Unlock(_) => if MayLeave(th) then SetThread(s, t, Thread(Leave(th), Outside)).(lock := None) else s
    case Spawn(_, job) =>
      if th.task.AddUnique? then
        SetThread(s, t, th.(task := AddWork(th.task.spec, job))).(jobs := s.jobs[job := Job("queued", false)])
      else s
    case Stage(_, stage) =>
      if th.task.AddWork? && th.task.job in s.jobs then
        s.(jobs := s.jobs[th.task.job := s.jobs[th.task.job].(stage := stage)])
      else s
    case Worked(_, result) =>
      if th.task.AddWork? then
        SetThread(s, t, th.(task := if result.Some? then AddAppend(ImageOf(th.task.spec, result.value), th.task.job)
                                    else AddFail(th.task.job)))
      else s
    case Close(_) =>
      if th.task.AddFinish? then
        SetThread(s, t, th.(task := AddOver(th.task.job, Some(th.task.image)))).(jobs := s.jobs[th.task.job := Job("done", true)])
      else if th.task.AddFail? then
        SetThread(s, t, th.(task := AddOver(th.task.job, None))).(jobs := s.jobs[th.task.job := Job("failed", true)])
      else s
    case _ => s
  }

  function Apply(s: Server, step: Step, position: nat): Server {
    match step
    case StartAdd(spec) =>
      if CheckSpec(spec.id, spec.architecture, spec.firmware).None? then AddThread(s, AddCheck(spec)) else s
    case StartUpdate(id, spec) =>
      if CheckSpec(id, spec.architecture, spec.firmware).None? then AddThread(s, Change(id, spec)) else s
    case StartDelete(id) => AddThread(s, Drop(id))
    case _ => if step.t < |s.threads| then DoThread(s, step) else s
  }

  function Exec(steps: seq<Step>): Server {
    Run(Apply, IDLE, steps)
  }

  // ---- No update is lost ----

  function Replay(commits: seq<Commit>): seq<Image> {
    if commits == [] then []
    else Effect(Replay(commits[..|commits| - 1]), commits[|commits| - 1])
  }

  /** The lock is held by exactly the thread inside the section, and what that thread has
      read is still what is on the disk. */
  ghost predicate Exclusive(s: Server) {
    && (forall t :: 0 <= t < |s.threads| ==> (s.lock == Some(t) <==> !s.threads[t].section.Outside?))
    && (s.lock.Some? ==> s.lock.value < |s.threads|)
    && (forall t :: 0 <= t < |s.threads| && s.threads[t].section.Loaded? ==> s.threads[t].section.copy == s.index)
    && s.index == Replay(s.commits)
  }

  lemma StoreKeepsExclusive(s: Server, t: nat, writeOk: bool)
    requires Exclusive(s) && t < |s.threads| && s.threads[t].section.Loaded?
    ensures Exclusive(DoStore(s, t, writeOk))
  {
    var commit := CommitOf(s.threads[t].task, t, s.index);
    if commit.Some? {
      assert (s.commits + [commit.value])[..|s.commits|] == s.commits;
    }
  }

  lemma StepKeepsExclusive(s: Server, step: Step, position: nat)
    requires Exclusive(s)
    ensures Exclusive(Apply(s, step, position))
  {
    match step
    case Store(t, writeOk) =>
      if t < |s.threads| && s.threads[t].section.Loaded? {
        StoreKeepsExclusive(s, t, writeOk);
      }
    case StartAdd(_) =>
    case StartUpdate(_, _) =>
    case StartDelete(_) =>
    case _ =>
      if step.t < |s.threads| {
        OtherKeepsExclusive(s, step);
      }
  }

  lemma OtherKeepsExclusive(s: Server, step: Step)
    requires Exclusive(s) && !step.StartAdd? && !step.StartUpdate? && !step.StartDelete? && !step.Store?
    requires step.t < |s.threads|
    ensures Exclusive(DoThread(s, step))
  {
  }

  lemma {:induction false} ExclusiveRun(steps: seq<Step>)
    ensures Exclusive(Exec(steps))
  {
    assert Stable<Server, Step>(Apply, Exclusive) by {
      forall s: Server, step: Step, position: nat | Exclusive(s)
        ensures Exclusive(Apply(s, step, position))
      {
        StepKeepsExclusive(s, step, position);
      }
    }
    StableHolds<Server, Step>(Apply, IDLE, steps, Exclusive, 0);
  }

  // ---- Every answer is true ----

  /** The rewrites a thread has made. */
  function Own(commits: seq<Commit>, t: nat): seq<Commit> {
    if commits == [] then []
    else
      var c := commits[|commits| - 1];
      Own(commits[..|commits| - 1], t) + (if c.author == t then [c] else [])
  }

  /** The rewrites it must have made, by where it is and what it has answered: exactly its
      own one once it has succeeded, none before or if it failed. */
  function Owed(t: nat, th: Thread): seq<Commit> {
    match th.task
    case AddAppend(image, _) => if th.section == Stored(None) then [Appended(t, image)] else []
    case AddFinish(image, _) => [Appended(t, image)]
    case AddOver(_, entry) => if entry.Some? then [Appended(t, entry.value)] else []
    case Change(id, update) => if th.section == Stored(None) then [Changed(t, id, update)] else []
    case ChangeOver(id, update, err) => if err.None? then [Changed(t, id, update)] else []
    case Drop(id) => if th.section == Stored(None) then [Dropped(t, id)] else []
    case DropOver(id, err) => if err.None? then [Dropped(t, id)] else []
    case _ => []
  }

  /** Only tasks that need the lock are in the section, and a check never writes. */
  predicate Placed(th: Thread) {
    && (!th.task.NeedsLock() ==> th.section.Outside?)
    && (th.task.AddCheck? ==> !th.section.Stored?)
  }

  ghost predicate Accounted(s: Server) {
    && (forall c :: 0 <= c < |s.commits| ==> s.commits[c].author < |s.threads|)
    && (forall t :: 0 <= t < |s.threads| ==> Placed(s.threads[t]) && Own(s.commits, t) == Owed(t, s.threads[t]))
  }

  lemma {:induction false} OwnsNothing(commits: seq<Commit>, t: nat)
    requires forall c :: 0 <= c < |commits| ==> commits[c].author != t
    ensures Own(commits, t) == []
    decreases |commits|
  {
    if commits != [] {
      OwnsNothing(commits[..|commits| - 1], t);
    }
  }

  lemma OwnSnoc(commits: seq<Commit>, c: Commit, t: nat)
    ensures Own(commits + [c], t) == Own(commits, t) + (if c.author == t then [c] else [])
  {
    assert (commits + [c])[..|commits|] == commits;
  }

  lemma StoreKeepsAccounted(s: Server, t: nat, writeOk: bool)
    requires Accounted(s) && t < |s.threads| && s.threads[t].section.Loaded? && !s.threads[t].task.AddCheck?
    ensures Accounted(DoStore(s, t, writeOk))
  {
    var s' := DoStore(s, t, writeOk);
    var commit := CommitOf(s.threads[t].task, t, s.threads[t].section.copy);
    if commit.Some? && writeOk {
      forall u | 0 <= u < |s.threads|
        ensures Own(s'.commits, u) == Owed(u, s'.threads[u])
      {
        OwnSnoc(s.commits, commit.value, u);
      }
    }
  }

  /** An add that has passed its check and whose entry is not in the index yet. */
  predicate Pending(th: Thread) {
    th.task.InFlight() && th.section != Stored(None)
  }

  /** What a step other than a store does to its thread; it touches neither the index, nor
      the commits, nor another thread. */
  ghost predicate ThreadMoves(s: Server, s': Server, t: nat)
    requires t < |s.threads|
  {
    && s'.index == s.index && s'.commits == s.commits && |s'.threads| == |s.threads|
    && (forall u :: 0 <= u < |s.threads| && u != t ==> s'.threads[u] == s.threads[u])
    && (Placed(s.threads[t]) ==> Placed(s'.threads[t]))
    && (Placed(s.threads[t]) ==> Owed(t, s'.threads[t]) == Owed(t, s.threads[t]))
    && (Pending(s'.threads[t]) ==>
          if Pending(s.threads[t]) then s'.threads[t].task.InFlightId() == s.threads[t].task.InFlightId()
          else s.threads[t].task.AddCheck? && s.threads[t].section.Loaded?
               && !HasId(s.threads[t].section.copy, s.threads[t].task.spec.id)
               && s'.threads[t].task.InFlightId() == s.threads[t].task.spec.id)
  }

  lemma StepMovesThread(s: Server, step: Step)
    requires !step.StartAdd? && !step.StartUpdate? && !step.StartDelete? && !step.Store? && step.t < |s.threads|
    requires Placed(s.threads[step.t])
    ensures ThreadMoves(s, DoThread(s, step), step.t)
  {
  }

  lemma StartsKeepAccounted(s: Server, task: Task)
    requires Accounted(s) && (task.AddCheck? || task.Change? || task.Drop?)
    ensures Accounted(AddThread(s, task))
  {
    OwnsNothing(s.commits, |s.threads|);
    var s' := AddThread(s, task);
    assert s'.commits == s.commits && forall t :: 0 <= t < |s.threads| ==> s'.threads[t] == s.threads[t];
  }

  lemma MoveKeepsAccounted(s: Server, s': Server, t: nat)
    requires Accounted(s) && t < |s.threads| && ThreadMoves(s, s', t)
    ensures Accounted(s')
  {
  }

  lemma {:induction false} StepKeepsAccounted(s: Server, step: Step, position: nat)
    requires Accounted(s)
    ensures Accounted(Apply(s, step, position))
  {
    match step
    case StartAdd(spec) => StartsKeepAccounted(s, AddCheck(spec));
    case StartUpdate(id, update) => StartsKeepAccounted(s, Change(id, update));
    case StartDelete(id) => StartsKeepAccounted(s, Drop(id));
    case Store(t, writeOk) =>
      if t < |s.threads| && s.threads[t].section.Loaded? && !s.threads[t].task.AddCheck? {
        StoreKeepsAccounted(s, t, writeOk);
      }
    case _ =>
      if step.t < |s.threads| {
        StepMovesThread(s, step);
        MoveKeepsAccounted(s, DoThread(s, step), step.t);
      }
  }

  lemma AccountedRun(steps: seq<Step>)
    ensures Accounted(Exec(steps))
  {
    assert Stable<Server, Step>(Apply, Accounted) by {
      forall s: Server, step: Step, position: nat | Accounted(s)
        ensures Accounted(Apply(s, step, position))
      {
        StepKeepsAccounted(s, step, position);
      }
    }
    StableHolds<Server, Step>(Apply, IDLE, steps, Accounted, 0);
  }

  /** In every schedule the index is the result of applying, one after another, every
      rewrite that reached the disk, none of them to a stale copy; and these are, thread by
      thread, exactly the ones the requests answered for: one of its own, with its own id and
      data, for each that succeeded, none for one that failed or is still to write. */
  lemma {:induction false} NoUpdateLost(steps: seq<Step>)
    ensures var s := Exec(steps);
            && s.index == Replay(s.commits)
            && (forall c :: 0 <= c < |s.commits| ==> s.commits[c].author < |s.threads|)
            && (forall t :: 0 <= t < |s.threads| ==> Own(s.commits, t) == Owed(t, s.threads[t]))
            && (forall t, u :: 0 <= t < u < |s.threads| ==> s.threads[t].section.Outside? || s.threads[u].section.Outside?)
  {
    ExclusiveRun(steps);
    AccountedRun(steps);
  }

  /** What a write answers and does to the index as it stands at that moment: an update or
      delete fails exactly if its entry is missing or the write fails, and otherwise it, or
      the append, is what becomes of the index. */
  lemma {:induction false} StoreTakesEffect(steps: seq<Step>, t: nat, writeOk: bool)
    requires t < |Exec(steps).threads|
    requires Exec(steps).threads[t].section.Loaded? && !Exec(steps).threads[t].task.AddCheck?
    ensures var s := Exec(steps);
            var s' := Exec(steps + [Store(t, writeOk)]);
            && t < |s'.threads| && s'.threads[t].section.Stored? && s'.threads[t].task == s.threads[t].task
            && var err := s'.threads[t].section.err;
               match s.threads[t].task
               case Change(id, update) =>
                 && err == (if !HasId(s.index, id) then Some(NotFound) else if !writeOk then Some(WriteFailed) else None)
                 && s'.index == if err.None? then UpdateFirst(s.index, id, update) else s.index
               case Drop(id) =>
                 && err == (if !HasId(s.index, id) then Some(NotFound) else if !writeOk then Some(WriteFailed) else None)
                 && s'.index == if err.None? then Without(s.index, id) else s.index
               case AddAppend(image, _) =>
                 && err == (if writeOk then None else Some(WriteFailed))
                 && s'.index == if err.None? then s.index + [image] else s.index
               case _ => false
  {
    ExclusiveRun(steps);
    AccountedRun(steps);
    RunAppend(Apply, IDLE, steps, Store(t, writeOk));
    assert Placed(Exec(steps).threads[t]);
  }

  // ---- The job map ----

  /** The clock gives every job a name of its own. */
  predicate FreshJob(s: Server, step: Step) {
    step.Spawn? ==> step.job !in s.jobs
  }

  /** Each job is some thread's, says done exactly when that thread has ended, and then
      whether it appended an entry. */
  ghost predicate JobsTold(s: Server) {
    && (forall t :: 0 <= t < |s.threads| && s.threads[t].task.HasJob() ==>
          var task := s.threads[t].task;
          && task.job in s.jobs
          && (s.jobs[task.job].done <==> task.AddOver?)
          && (task.AddOver? ==> s.jobs[task.job].stage == if task.entry.Some? then "done" else "failed"))
    && (forall t, u :: 0 <= t < u < |s.threads| && s.threads[t].task.HasJob() && s.threads[u].task.HasJob() ==>
          s.threads[t].task.job != s.threads[u].task.job)
  }

  /** The other steps leave the job map, and the names and ends of jobs, alone. */
  lemma JobsUntouched(s: Server, step: Step)
    requires step.Lock? || step.Load? || step.Store? || step.Unlock? || step.Worked?
    requires step.t < |s.threads|
    ensures var s' := DoThread(s, step);
            && s'.jobs == s.jobs && |s'.threads| == |s.threads|
            && (forall u :: 0 <= u < |s.threads| && u != step.t ==> s'.threads[u] == s.threads[u])
            && var task := s.threads[step.t].task;
               var task' := s'.threads[step.t].task;
               && (task'.HasJob() ==> task.HasJob() && task'.job == task.job && (task'.AddOver? <==> task.AddOver?))
               && (task'.AddOver? ==> task' == task)
  {
  }

  lemma SpawnKeepsJobsTold(s: Server, t: nat, job: string)
    requires JobsTold(s) && job !in s.jobs && t < |s.threads|
    ensures JobsTold(DoThread(s, Spawn(t, job)))
  {
  }

  lemma StageKeepsJobsTold(s: Server, t: nat, stage: string)
    requires JobsTold(s) && t < |s.threads|
    ensures JobsTold(DoThread(s, Stage(t, stage)))
  {
  }

  lemma CloseKeepsJobsTold(s: Server, t: nat)
    requires JobsTold(s) && t < |s.threads|
    ensures JobsTold(DoThread(s, Close(t)))
  {
  }

  lemma UntouchedKeepsJobsTold(s: Server, step: Step)
    requires step.Lock? || step.Load? || step.Store? || step.Unlock? || step.Worked?
    requires JobsTold(s) && step.t < |s.threads|
    ensures JobsTold(DoThread(s, step))
  {
    JobsUntouched(s, step);
  }

  lemma {:induction false} StepKeepsJobsTold(s: Server, step: Step, position: nat)
    requires JobsTold(s) && FreshJob(s, step)
    ensures JobsTold(Apply(s, step, position))
  {
    if !step.StartAdd? && !step.StartUpdate? && !step.StartDelete? && step.t < |s.threads| {
      match step
      case Spawn(t, job) => SpawnKeepsJobsTold(s, t, job);
      case Stage(t, stage) => StageKeepsJobsTold(s, t, stage);
      case Close(t) => CloseKeepsJobsTold(s, t);
      case _ => UntouchedKeepsJobsTold(s, step);
    }
  }

  lemma {:induction false} JobsToldRun(s: Server, steps: seq<Step>)
    requires JobsTold(s) && Along(Apply, s, steps, FreshJob)
    ensures JobsTold(Run(Apply, s, steps))
  {
    assert Inductive(Apply, FreshJob, JobsTold) by {
      forall x: Server, step: Step, position: nat | JobsTold(x) && FreshJob(x, step)
        ensures JobsTold(Apply(x, step, position))
      {
        StepKeepsJobsTold(x, step, position);
      }
    }
    RunKeeps(Apply, s, steps, FreshJob, JobsTold);
  }

  /** In every schedule a job that has ended appended exactly one entry if it is done and
      none if it failed, the job map says which, and no further step changes its verdict. */
  lemma {:induction false} JobsEndOnce(before: seq<Step>, after: seq<Step>, t: nat)
    requires Along(Apply, IDLE, before, FreshJob) && Along(Apply, Exec(before), after, FreshJob)
    requires t < |Exec(before).threads| && Exec(before).threads[t].task.AddOver?
    ensures var s := Exec(before);
            var task := s.threads[t].task;
            var later := Run(Apply, s, after);
            && Own(s.commits, t) == (if task.entry.Some? then [Appended(t, task.entry.value)] else [])
            && task.job in s.jobs && task.job in later.jobs
            && s.jobs[task.job] == later.jobs[task.job] == Job(if task.entry.Some? then "done" else "failed", true)
  {
    var s := Exec(before);
    var task := s.threads[t].task;
    AccountedRun(before);
    JobsToldRun(IDLE, before);
    var inv := (x: Server) => Accounted(x) && t < |x.threads| && x.threads[t].task == task;
    assert Stable<Server, Step>(Apply, inv) by {
      forall x: Server, step: Step, position: nat | inv(x)
        ensures inv(Apply(x, step, position))
      {
        OverStays(x, step, position, t);
        StepKeepsAccounted(x, step, position);
      }
    }
    StableHolds<Server, Step>(Apply, s, after, inv, 0);
    JobsToldRun(s, after);
  }

  lemma OverStays(s: Server, step: Step, position: nat, t: nat)
    requires t < |s.threads| && s.threads[t].task.AddOver? && Placed(s.threads[t])
    ensures t < |Apply(s, step, position).threads| && Apply(s, step, position).threads[t].task == s.threads[t].task
  {
  }

  // ---- Ids stay distinct ----

  /** No check passes while another add of the same id is pending. */
  predicate NoSameId(s: Server, step: Step) {
    step.Unlock? && step.t < |s.threads| && s.threads[step.t].task.AddCheck? && Leave(s.threads[step.t]).AddUnique? ==>
      forall t :: 0 <= t < |s.threads| && Pending(s.threads[t]) ==>
        s.threads[t].task.InFlightId() != s.threads[step.t].task.spec.id
  }

  ghost predicate IdsDistinct(s: Server) {
    && DistinctIds(s.index)
    && (forall t :: 0 <= t < |s.threads| && Pending(s.threads[t]) ==> !HasId(s.index, s.threads[t].task.InFlightId()))
    && (forall t, u :: 0 <= t < u < |s.threads| && Pending(s.threads[t]) && Pending(s.threads[u]) ==>
          s.threads[t].task.InFlightId() != s.threads[u].task.InFlightId())
  }

  ghost predicate DistinctState(s: Server) {
    Exclusive(s) && IdsDistinct(s) && forall t :: 0 <= t < |s.threads| ==> Placed(s.threads[t])
  }

  lemma {:induction false} UpdateKeepsIds(images: seq<Image>, id: string, spec: UpdateSpec)
    ensures |UpdateFirst(images, id, spec)| == |images|
    ensures forall i :: 0 <= i < |images| ==> UpdateFirst(images, id, spec)[i].id == images[i].id
  {
    if images != [] {
      UpdateKeepsIds(images[1..], id, spec);
    }
  }

  lemma {:induction false} WithoutKeepsDistinct(images: seq<Image>, id: string)
    requires DistinctIds(images)
    ensures DistinctIds(Without(images, id))
    decreases |images|
  {
    if images != [] {
      var n := |images| - 1;
      WithoutKeepsDistinct(images[..n], id);
      WithoutShorter(images[..n], id);
      forall i | 0 <= i < |Without(images[..n], id)|
        ensures Without(images[..n], id)[i].id != images[n].id
      {
        assert Without(images[..n], id)[i] in Without(images[..n], id);
      }
    }
  }

  /** A rewrite keeps ids distinct, and adds none but that of an appended entry. */
  lemma EffectKeepsDistinct(images: seq<Image>, c: Commit)
    requires DistinctIds(images) && (c.Appended? ==> !HasId(images, c.image.id))
    ensures DistinctIds(Effect(images, c))
    ensures forall id :: HasId(Effect(images, c), id) ==> HasId(images, id) || (c.Appended? && id == c.image.id)
  {
    match c
    case Appended(_, image) =>
    case Changed(_, id, spec) => UpdateKeepsIds(images, id, spec);
    case Dropped(_, id) =>
      WithoutKeepsDistinct(images, id);
      WithoutShorter(images, id);
      forall other | HasId(Without(images, id), other)
        ensures HasId(images, other)
      {
        var i :| 0 <= i < |Without(images, id)| && Without(images, id)[i].id == other;
        assert Without(images, id)[i] in Without(images, id);
      }
  }

  lemma StoreKeepsDistinct(s: Server, t: nat, writeOk: bool)
    requires DistinctState(s) && t < |s.threads| && s.threads[t].section.Loaded? && !s.threads[t].task.AddCheck?
    ensures IdsDistinct(DoStore(s, t, writeOk))
  {
    var commit := CommitOf(s.threads[t].task, t, s.index);
    if commit.Some? && writeOk {
      assert s.threads[t].task.AddAppend? ==> Pending(s.threads[t]);
      EffectKeepsDistinct(s.index, commit.value);
    }
  }

  lemma MoveKeepsDistinct(s: Server, s': Server, step: Step)
    requires DistinctState(s) && NoSameId(s, step)
    requires !step.StartAdd? && !step.StartUpdate? && !step.StartDelete? && step.t < |s.threads|
    requires ThreadMoves(s, s', step.t) && (!step.Unlock? && Pending(s'.threads[step.t]) ==> Pending(s.threads[step.t]))
    ensures IdsDistinct(s')
  {
  }

  lemma OnlyUnlockAdmits(s: Server, step: Step)
    requires !step.StartAdd? && !step.StartUpdate? && !step.StartDelete? && !step.Store? && !step.Unlock?
    requires step.t < |s.threads| && Pending(DoThread(s, step).threads[step.t]) && Placed(s.threads[step.t])
    ensures Pending(s.threads[step.t])
  {
  }

  lemma {:induction false} OtherStepsKeepDistinct(s: Server, step: Step, position: nat)
    requires DistinctState(s) && NoSameId(s, step) && !step.Store?
    ensures IdsDistinct(Apply(s, step, position))
  {
    if !step.StartAdd? && !step.StartUpdate? && !step.StartDelete? && step.t < |s.threads| {
      StepMovesThread(s, step);
      if !step.Unlock? && Pending(DoThread(s, step).threads[step.t]) {
        OnlyUnlockAdmits(s, step);
      }
      MoveKeepsDistinct(s, DoThread(s, step), step);
    }
  }

  lemma {:induction false} StepKeepsDistinct(s: Server, step: Step, position: nat)
    requires DistinctState(s) && NoSameId(s, step)
    ensures DistinctState(Apply(s, step, position))
  {
    StepKeepsExclusive(s, step, position);
    if step.Store? {
      if step.t < |s.threads| && s.threads[step.t].section.Loaded? && !s.threads[step.t].task.AddCheck? {
        StoreKeepsDistinct(s, step.t, step.writeOk);
      }
    } else {
      OtherStepsKeepDistinct(s, step, position);
    }
  }

  lemma {:induction false} DistinctIsInductive()
    ensures Inductive(Apply, NoSameId, DistinctState)
  {
    forall s: Server, step: Step, position: nat | DistinctState(s) && NoSameId(s, step)
      ensures DistinctState(Apply(s, step, position))
    {
      StepKeepsDistinct(s, step, position);
    }
  }

  /** If no two adds of one id are ever pending together, then in every schedule the ids in
      the index and of the pending adds are all distinct. */
  lemma {:induction false} IdsStayDistinct(steps: seq<Step>)
    requires Along(Apply, IDLE, steps, NoSameId)
    ensures IdsDistinct(Exec(steps))
  {
    DistinctIsInductive();
    RunKeeps(Apply, IDLE, steps, NoSameId, DistinctState);
  }

  // ---- The exact condition for the index ----

  /** No append reaches the disk when the copy it extends already has the id. */
  predicate FreshAppend(s: Server, step: Step) {
    step.Store? && step.writeOk && step.t < |s.threads| && s.threads[step.t].section.Loaded? && s.threads[step.t].task.AddAppend? ==>
      !HasId(s.threads[step.t].section.copy, s.threads[step.t].task.image.id)
  }

  ghost predicate IndexDistinct(s: Server) {
    DistinctIds(s.index)
  }

  ghost predicate DistinctIndex(s: Server) {
    Exclusive(s) && DistinctIds(s.index)
  }

  lemma FreshStepKeepsDistinct(s: Server, step: Step, position: nat)
    requires DistinctIndex(s) && FreshAppend(s, step)
    ensures DistinctIndex(Apply(s, step, position))
  {
    StepKeepsExclusive(s, step, position);
    if step.Store? && step.t < |s.threads| && s.threads[step.t].section.Loaded? {
      var commit := CommitOf(s.threads[step.t].task, step.t, s.index);
      if commit.Some? && step.writeOk {
        EffectKeepsDistinct(s.index, commit.value);
      }
    }
  }

  lemma StaleAppendBreaks(s: Server, step: Step, position: nat)
    requires DistinctIndex(s) && !FreshAppend(s, step)
    ensures !IndexDistinct(Apply(s, step, position))
  {
    AppendSafeExactly(s.index, s.threads[step.t].task.image);
  }

  /** The exact condition: in every state of a run the ids in the index are distinct if and
      only if no append in it is made to an index that already has the id. */
  lemma {:induction false} IdsDistinctExactly(steps: seq<Step>)
    ensures Along(Apply, IDLE, steps, FreshAppend) <==>
            forall k: nat :: k <= |steps| ==> IndexDistinct(Exec(steps[..k]))
    ensures Along(Apply, IDLE, steps, FreshAppend) ==> DistinctIds(Exec(steps).index)
  {
    forall s: Server, step: Step, position: nat | DistinctIndex(s)
      ensures FreshAppend(s, step) ==> DistinctIndex(Apply(s, step, position))
      ensures !FreshAppend(s, step) ==> !IndexDistinct(Apply(s, step, position))
    {
      if FreshAppend(s, step) {
        FreshStepKeepsDistinct(s, step, position);
      } else {
        StaleAppendBreaks(s, step, position);
      }
    }
    assert Inductive<Server, Step>(Apply, FreshAppend, DistinctIndex);
    assert Breaks<Server, Step>(Apply, FreshAppend, DistinctIndex, IndexDistinct);
    AlongExactly<Server, Step>(Apply, IDLE, steps, FreshAppend, DistinctIndex, IndexDistinct);
  }

  /** It is enough that no check passes while an add of the same id is pending. */
  lemma {:induction false} NoSameIdSuffices(steps: seq<Step>)
    requires Along(Apply, IDLE, steps, NoSameId)
    ensures Along(Apply, IDLE, steps, FreshAppend)
  {
    DistinctIsInductive();
    forall s: Server, step: Step | DistinctState(s)
      ensures FreshAppend(s, step)
    {
      if step.Store? && step.t < |s.threads| && s.threads[step.t].section.Loaded? && s.threads[step.t].task.AddAppend? {
        assert Pending(s.threads[step.t]);
      }
    }
    AlongImplies<Server, Step>(Apply, IDLE, steps, NoSameId, FreshAppend, DistinctState);
  }

  /** Repeating the check at the append would do: an append keeps the index's ids distinct
      exactly when no entry has the new id. */
  lemma AppendSafeExactly(images: seq<Image>, image: Image)
    requires DistinctIds(images)
    ensures DistinctIds(images + [image]) <==> !HasId(images, image.id)
  {
    var r := images + [image];
    assert forall i :: 0 <= i < |images| ==> r[i] == images[i];
    if i :| 0 <= i < |images| && images[i].id == image.id {
      assert r[i].id == r[|images|].id;
    }
  }
}
