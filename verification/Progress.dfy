/** The progress tracker (agent/internal/progress/progress.go): its byte accounting and
    speed sampling, over the reals, and its subscriber channels. */
module Progress {
  import opened Wrappers
  import opened Runs
  import opened Channels

  // ---- Byte accounting and sampling ----

  const WINDOW: real := 0.5

  datatype Meter = Meter(
    downloaded: int, written: int, total: int,
    startedAt: Option<real>, lastSample: Option<real>, lastBytes: int, speed: real)
  {
    /** The call that makes a sample: half a second or more since the last one. */
    predicate Closes(now: real) {
      lastSample.Some? && now - lastSample.value >= WINDOW
    }

    function AddWritten(n: int, now: real): Meter {
      var w := written + n;
      if Closes(now) then
        this.(written := w, speed := (w - lastBytes) as real / (now - lastSample.value),
              lastBytes := w, lastSample := Some(now))
      else if lastSample.Some? then this.(written := w)
      else this.(written := w, lastSample := Some(now), lastBytes := w)
    }

    function Percent(): real {
      if total <= 0 then 0.0
      else
        var p := written as real / total as real * 100.0;
        if p > 100.0 then 100.0 else p
    }

    function Elapsed(now: real): real {
      if startedAt.None? then 0.0 else now - startedAt.value
    }

    function Average(now: real): real {
      if Elapsed(now) > 0.0 then written as real / Elapsed(now) else 0.0
    }

    function Eta(): real {
      if speed > 0.0 && total > written then (total - written) as real / speed else 0.0
    }
  }

  const ZERO := Meter(0, 0, 0, None, None, 0, 0.0)

  function Started(total: int, now: real): Meter {
    Meter(0, 0, total, Some(now), Some(now), 0, 0.0)
  }

  /** A closed sampling window: the bytes credited to it and how long it lasted. */
  datatype Window = Window(bytes: int, duration: real)

  datatype Add = Add(n: int, now: real)

  /** The meter, the windows closed so far, and the time of the latest call. */
  datatype Trace = Trace(meter: Meter, windows: seq<Window>, clock: real)

  function Feed(t: Trace, a: Add, position: nat): Trace {
    var m := t.meter.AddWritten(a.n, a.now);
    Trace(m,
          if t.meter.Closes(a.now) then
            t.windows + [Window(m.written - t.meter.lastBytes, a.now - t.meter.lastSample.value)]
          else t.windows,
          a.now)
  }

  /** Non-negative amounts and a clock that does not go back. */
  predicate Forward(t: Trace, a: Add) {
    a.n >= 0 && a.now >= t.clock
  }

  function Credited(ws: seq<Window>): int {
    if ws == [] then 0 else Credited(ws[..|ws| - 1]) + ws[|ws| - 1].bytes
  }

  function Duration(ws: seq<Window>): real {
    if ws == [] then 0.0 else Duration(ws[..|ws| - 1]) + ws[|ws| - 1].duration
  }

  function Amount(adds: seq<Add>): int {
    if adds == [] then 0 else Amount(adds[..|adds| - 1]) + adds[|adds| - 1].n
  }

  ghost predicate Conserved(t: Trace, total: int, start: real) {
    var m := t.meter;
    && m.startedAt == Some(start) && m.total == total && m.lastSample.Some?
    && Credited(t.windows) == m.lastBytes && 0 <= m.lastBytes <= m.written
    && Duration(t.windows) == m.lastSample.value - start && m.lastSample.value <= t.clock < m.lastSample.value + 0.5
    && (forall i :: 0 <= i < |t.windows| ==> t.windows[i].duration >= 0.5 && t.windows[i].bytes >= 0)
    && m.speed == if t.windows == [] then 0.0
                  else t.windows[|t.windows| - 1].bytes as real / t.windows[|t.windows| - 1].duration
  }

  lemma FeedConserves(t: Trace, a: Add, position: nat, total: int, start: real)
    requires Conserved(t, total, start) && Forward(t, a)
    ensures Conserved(Feed(t, a, position), total, start)
  {
    var t' := Feed(t, a, position);
    if t.meter.Closes(a.now) {
      assert t'.windows[..|t'.windows| - 1] == t.windows;
    }
  }

  lemma {:induction false} WrittenIsAmount(t: Trace, adds: seq<Add>)
    ensures Run(Feed, t, adds).meter.written == t.meter.written + Amount(adds)
    decreases |adds|
  {
    if adds != [] {
      WrittenIsAmount(t, adds[..|adds| - 1]);
    }
  }

  lemma NonNegativeQuotient(a: real, b: real)
    requires a >= 0.0 && b > 0.0
    ensures a / b >= 0.0
  {
  }

  /** After Start and any sequence of AddWritten calls: the bytes written are those added;
      the bytes of the closed windows and those since the last sample make them up exactly;
      the windows tile the time from the start to the last sample, each at least half a
      second long, and less than that has passed since; the speed is that of the last window; speed and ETA are not negative. */
  lemma {:induction false} SamplingConserves(total: int, start: real, adds: seq<Add>)
    requires Along(Feed, Trace(Started(total, start), [], start), adds, Forward)
    ensures var t := Run(Feed, Trace(Started(total, start), [], start), adds);
            && Conserved(t, total, start)
            && t.meter.written == Amount(adds)
            && Credited(t.windows) + (t.meter.written - t.meter.lastBytes) == Amount(adds)
            && t.meter.speed >= 0.0 && t.meter.Eta() >= 0.0
  {
    var t0 := Trace(Started(total, start), [], start);
    var inv := (t: Trace) => Conserved(t, total, start);
    assert Inductive(Feed, Forward, inv) by {
      forall t: Trace, a: Add, position: nat | inv(t) && Forward(t, a)
        ensures inv(Feed(t, a, position))
      {
        FeedConserves(t, a, position, total, start);
      }
    }
    RunKeeps(Feed, t0, adds, Forward, inv);
    WrittenIsAmount(t0, adds);
    var t := Run(Feed, t0, adds);
    if t.windows != [] {
      var w := t.windows[|t.windows| - 1];
      NonNegativeQuotient(w.bytes as real, w.duration);
    }
    if t.meter.speed > 0.0 && t.meter.total > t.meter.written {
      NonNegativeQuotient((t.meter.total - t.meter.written) as real, t.meter.speed);
    }
  }

  lemma ScaleMonotone(a: real, b: real, total: real)
    requires a <= b && total > 0.0
    ensures a / total * 100.0 <= b / total * 100.0
  {
    assert (b - a) / total >= 0.0;
    assert b / total == a / total + (b - a) / total;
  }

  /** The percentage stays within 0..100, does not fall as bytes are written, and for a
      positive total is 100 exactly when everything has been written. */
  lemma {:induction false} PercentBounds(m: Meter, more: nat)
    requires m.written >= 0
    ensures 0.0 <= m.Percent() <= 100.0
    ensures m.Percent() <= m.(written := m.written + more).Percent()
    ensures m.total > 0 ==> (m.Percent() == 100.0 <==> m.written >= m.total)
  {
    if m.total > 0 {
      var total := m.total as real;
      ScaleMonotone(0.0, m.written as real, total);
      ScaleMonotone(m.written as real, (m.written + more) as real, total);
      assert total / total == 1.0;
      if m.written >= m.total {
        ScaleMonotone(total, m.written as real, total);
      } else {
        ScaleMonotone(m.written as real, total, total);
      }
    }
  }

  // ---- Subscribers ----

  datatype Snapshot = Snapshot(
    stage: string, message: string, downloaded: int, written: int, total: int,
    percent: real, speed: real, average: real, elapsed: real, eta: real, error: string)

  /** A broadcast offered to a listener, and how many snapshots it then had queued. */
  datatype Offer<T> = Offer(item: T, queued: nat)

  /** A listener since it subscribed: its channel, what it has received, and the offers. */
  datatype Mailbox<T> = Mailbox(queue: seq<T>, received: seq<T>, log: seq<Offer<T>>) {
    function Send(x: T): Mailbox<T> {
      Mailbox(if |queue| < CAPACITY then queue + [x] else queue, received, log + [Offer(x, |queue|)])
    }

    function Receive(): Mailbox<T> {
      if queue == [] then this else Mailbox(queue[1..], received + [queue[0]], log)
    }
  }

  const NO_MAIL: Mailbox<Snapshot> := Mailbox([], [], [])

  /** The offers made when fewer than sixteen were queued, in order. */
  function Kept<T>(log: seq<Offer<T>>): seq<T> {
    if log == [] then []
    else
      Kept(log[..|log| - 1]) +
      (if log[|log| - 1].queued < CAPACITY then [log[|log| - 1].item] else [])
  }

  datatype MailStep<T> = Send(item: T) | Receive

  function Mail<T>(m: Mailbox<T>, step: MailStep<T>, position: nat): Mailbox<T> {
    match step
    case Send(x) => m.Send(x)
    case Receive => m.Receive()
  }

  /** In every interleaving of broadcasts and receives a listener has received, and has
      queued, in order, exactly the broadcasts since it subscribed that did not find sixteen
      queued; never more than sixteen are queued. */
  lemma {:induction false} MailInOrder<T>(steps: seq<MailStep<T>>)
    ensures var m := Run<Mailbox<T>, MailStep<T>>(Mail, Mailbox([], [], []), steps);
            && m.received + m.queue == Kept(m.log)
            && |m.queue| <= 16
            && ((forall i :: 0 <= i < |m.log| ==> m.log[i].queued < 16) ==> |m.received| + |m.queue| == |m.log|)
    decreases |steps|
  {
    if steps != [] {
      MailInOrder(steps[..|steps| - 1]);
      var before := Run<Mailbox<T>, MailStep<T>>(Mail, Mailbox([], [], []), steps[..|steps| - 1]);
      var after := Mail(before, steps[|steps| - 1], |steps|);
      match steps[|steps| - 1]
      case Send(x) =>
        assert after.log[..|before.log|] == before.log;
        assert before.received + (before.queue + [x]) == before.received + before.queue + [x];
      case Receive =>
        if before.queue != [] {
          assert before.received + [before.queue[0]] + before.queue[1..] == before.received + before.queue;
        }
    }
  }

  class Channel {
    var queue: seq<Snapshot>
    var closed: bool
    ghost var received: seq<Snapshot>
    ghost var log: seq<Offer<Snapshot>>

    ghost function Box(): Mailbox<Snapshot>
      reads this
    {
      Mailbox(queue, received, log)
    }

    constructor ()
      ensures Box() == NO_MAIL && !closed
    {
      queue, closed, received, log := [], false, [], [];
    }

    /** A non-blocking send; sending on a closed channel would panic. */
    method TrySend(x: Snapshot)
      requires !closed
      modifies this
      ensures Box() == old(Box()).Send(x) && !closed
    {
      log := log + [Offer(x, |queue|)];
      if |queue| < CAPACITY {
        queue := queue + [x];
      }
    }

    /** A receive that finds a snapshot. */
    method Receive() returns (x: Snapshot)
      requires queue != []
      modifies this
      ensures x == old(queue)[0]
      ensures Box() == old(Box()).Receive() && closed == old(closed)
    {
      x := queue[0];
      queue := queue[1..];
      received := received + [x];
    }
  }

  class Tracker {
    var stage: string
    var message: string
    var downloaded: int
    var written: int
    var total: int
    var startedAt: Option<real>
    var lastSample: Option<real>
    var lastBytes: int
    var speed: real
    var errMessage: string
    var listeners: seq<Channel>

    /** Listeners are distinct and open. */
    ghost predicate Valid()
      reads this, listeners
    {
      && (forall i, j :: 0 <= i < j < |listeners| ==> listeners[i] != listeners[j])
      && (forall i :: 0 <= i < |listeners| ==> !listeners[i].closed)
    }

    function Gauge(): Meter
      reads this
    {
      Meter(downloaded, written, total, startedAt, lastSample, lastBytes, speed)
    }

    function SnapshotNow(now: real): Snapshot
      reads this
    {
      Snapshot(stage, message, downloaded, written, total,
                        Gauge().Percent(), speed, Gauge().Average(now), Gauge().Elapsed(now), Gauge().Eta(), errMessage)
    }

    constructor ()
      ensures Valid() && listeners == [] && Gauge() == ZERO && stage == "" && errMessage == ""
    {
      stage, message, errMessage := "", "", "";
      downloaded, written, total, lastBytes := 0, 0, 0, 0;
      startedAt, lastSample, speed := None, None, 0.0;
      listeners := [];
    }

    method Start(total: int, now: real)
      requires Valid()
      modifies this
      ensures Valid() && listeners == old(listeners)
      ensures Gauge() == Started(total, now) && stage == "preparing" && message == "" && errMessage == ""
    {
      stage := "preparing";
      message := "";
      downloaded := 0;
      written := 0;
      this.total := total;
      startedAt := Some(now);
      lastSample := startedAt;
      lastBytes := 0;
      speed := 0.0;
      errMessage := "";
    }

    method AddDownloaded(n: int)
      requires Valid()
      modifies this`downloaded
      ensures Valid() && Gauge() == old(Gauge()).(downloaded := old(downloaded) + n)
    {
      downloaded := downloaded + n;
    }

    method AddWritten(n: int, now: real)
      requires Valid()
      modifies this`written, this`speed, this`lastBytes, this`lastSample
      ensures Valid() && Gauge() == old(Gauge()).AddWritten(n, now)
    {
      written := written + n;
      if lastSample.Some? {
        var dt := now - lastSample.value;
        if dt >= WINDOW {
          speed := (written - lastBytes) as real / dt;
          lastBytes := written;
          lastSample := Some(now);
        }
      } else {
        lastSample := Some(now);
        lastBytes := written;
      }
    }

    method SetStage(stage: string, message: string, now: real)
      requires Valid()
      modifies this`stage, this`message, listeners
      ensures Valid() && this.stage == stage && this.message == message
      ensures forall c :: c in listeners ==> c.Box() == old(c.Box()).Send(SnapshotNow(now))
    {
      this.stage := stage;
      this.message := message;
      Broadcast(now);
    }

    method Fail(err: string, now: real)
      requires Valid()
      modifies this`stage, this`errMessage, listeners
      ensures Valid() && stage == "failed" && errMessage == err
      ensures forall c :: c in listeners ==> c.Box() == old(c.Box()).Send(SnapshotNow(now))
    {
      errMessage := err;
      stage := "failed";
      Broadcast(now);
    }

    /** Offers the snapshot to every listener, once each, without blocking. */
    method Broadcast(now: real)
      requires Valid()
      modifies listeners
      ensures Valid()
      ensures forall c :: c in listeners ==> c.Box() == old(c.Box()).Send(SnapshotNow(now))
    {
      var snap := SnapshotNow(now);
      var copied := listeners;
      for i := 0 to |copied|
        invariant Valid()
        invariant forall j :: 0 <= j < i ==> copied[j].Box() == old(copied[j].Box()).Send(snap)
        invariant forall j :: i <= j < |copied| ==> copied[j].Box() == old(copied[j].Box())
      {
        copied[i].TrySend(snap);
      }
    }

    method Subscribe() returns (ch: Channel)
      requires Valid()
      modifies this`listeners
      ensures Valid() && fresh(ch) && listeners == old(listeners) + [ch] && ch.Box() == NO_MAIL
    {
      ch := new Channel();
      listeners := listeners + [ch];
    }

    /** Closes and drops exactly the given listener; the others keep their order. */
    method Unsubscribe(ch: Channel)
      requires Valid()
      modifies this`listeners, ch
      ensures Valid() && ch !in listeners
      ensures ch !in old(listeners) ==> listeners == old(listeners) && unchanged(ch)
      ensures ch in old(listeners) ==>
                ch.closed &&
                (exists i :: 0 <= i < |old(listeners)| && old(listeners)[i] == ch
                             && listeners == old(listeners)[..i] + old(listeners)[i + 1..])
    {
      for i := 0 to |listeners|
        invariant ch !in listeners[..i] && listeners == old(listeners) && unchanged(ch)
      {
        var c := listeners[i];
        if c == ch {
          c.closed := true;
          listeners := listeners[..i] + listeners[i + 1..];
          assert old(listeners)[i] == ch;
          return;
        }
      }
    }
  }

  /** What a snapshot says: the tracker's own fields, the time since the start, the average
      speed over it, and the time the rest will take at the present speed. */
  lemma SnapshotTells(t: Tracker, now: real)
    ensures var s := t.SnapshotNow(now);
            && s.stage == t.stage && s.message == t.message && s.error == t.errMessage
            && s.downloaded == t.downloaded && s.written == t.written && s.total == t.total && s.speed == t.speed
            && (t.startedAt.Some? ==> s.elapsed == now - t.startedAt.value)
            && (t.startedAt.None? ==> s.elapsed == 0.0)
            && (s.elapsed > 0.0 ==> s.average * s.elapsed == t.written as real)
            && (s.elapsed <= 0.0 ==> s.average == 0.0)
            && (t.speed > 0.0 && t.total > t.written ==> s.eta * t.speed == (t.total - t.written) as real)
            && (t.speed <= 0.0 || t.total <= t.written ==> s.eta == 0.0)
            && (0 < t.total && t.written <= t.total ==> s.percent * t.total as real == 100.0 * t.written as real)
            && (t.total <= 0 ==> s.percent == 0.0)
  {
    if 0 < t.total && t.written <= t.total {
      var total := t.total as real;
      var p := t.written as real / total;
      assert p * total == t.written as real;
      assert p <= 1.0;
    }
  }
}
