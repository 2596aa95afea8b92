/** Runs of the node store: what its histories and its liveness view say about any
    sequence of reports. */
module NodeHistory {
  import opened Wrappers
  import opened NodeStore
  import opened Runs

  datatype Event =
    | Register(node: Node)
    | Heartbeat(uuid: string)
    | DeployStart(uuid: string, imageID: string, target: string)
    | DeployEnd(uuid: string, result: string, bytes: int, msg: string)
    | Delete(uuid: string)
  {
    function Subject(): string {
      if Register? then node.uuid else uuid
    }
  }

  /** A request and the server's clock when it is handled. */
  datatype Timed = At(event: Event, time: int)

  type Database = nodes: Nodes | Keyed(nodes) witness map[]

  function Handle(db: Database, e: Timed, position: nat): Database {
    match e.event
    case Register(node) => RegisterSpec(db, node, e.time)
    case Heartbeat(uuid) => HeartbeatSpec(db, uuid, e.time)
    case DeployStart(uuid, imageID, target) => DeployStartSpec(db, uuid, imageID, target, e.time)
    case DeployEnd(uuid, result, bytes, msg) => DeployEndSpec(db, uuid, result, bytes, msg, e.time)
    case Delete(uuid) => DeleteSpec(db, uuid)
  }

  function After(db: Database, events: seq<Timed>): Database {
    Run(Handle, db, events)
  }

  /** No request touches a node other than its subject. */
  lemma OtherNodesUntouched(db: Database, e: Timed, position: nat, uuid: string)
    requires e.event.Subject() != uuid
    ensures var after := Handle(db, e, position);
            (uuid in after <==> uuid in db) && (uuid in db ==> after[uuid] == db[uuid])
  {
  }

  // ---- Histories are append-only below their last record ----

  function Starts(events: seq<Timed>, uuid: string): nat {
    if events == [] then 0
    else
      Starts(events[..|events| - 1], uuid) +
      (if events[|events| - 1].event.DeployStart? && events[|events| - 1].event.uuid == uuid then 1 else 0)
  }

  /** The records keep their image, disk and start time; all but the last are frozen. */
  ghost predicate Extends(older: seq<Deploy>, newer: seq<Deploy>) {
    && |older| <= |newer|
    && (forall i :: 0 <= i < |older| - 1 ==> newer[i] == older[i])
    && (forall i :: 0 <= i < |older| ==>
          newer[i].imageID == older[i].imageID && newer[i].targetDisk == older[i].targetDisk
          && newer[i].startedAt == older[i].startedAt)
  }

  /** What a request about a stored node makes of its history. */
  function NextDeploys(ds: seq<Deploy>, e: Timed): seq<Deploy> {
    match e.event
    case Register(_) => Converge(ds, e.time)
    case DeployStart(_, imageID, target) => ds + [Deploy(imageID, target, e.time, None, RUNNING, 0, "")]
    case DeployEnd(_, result, bytes, msg) => EndRecord(ds, result, bytes, msg, e.time)
    case _ => ds
  }

  lemma HandleStored(db: Database, e: Timed, position: nat, uuid: string)
    requires uuid in db && e.event.Subject() == uuid && !e.event.Delete?
    ensures var after := Handle(db, e, position);
            && uuid in after && after[uuid].firstSeen == db[uuid].firstSeen
            && after[uuid].lastSeen == e.time
            && after[uuid].deploys == NextDeploys(db[uuid].deploys, e)
  {
  }

  lemma NextExtends(ds: seq<Deploy>, e: Timed)
    ensures Extends(ds, NextDeploys(ds, e))
    ensures |NextDeploys(ds, e)| == |ds| + if e.event.DeployStart? then 1 else 0
  {
  }

  /** In every run without a Delete of the node: its history grows by exactly one record for
      each DeployStart, every record but the last is never changed again, a record's image,
      disk and start time are never changed at all, and neither is FirstSeen. */
  lemma {:induction false} HistoryAppendOnly(db: Database, events: seq<Timed>, uuid: string)
    requires uuid in db && forall i :: 0 <= i < |events| ==> events[i].event != Delete(uuid)
    ensures var after := After(db, events);
            && uuid in after && after[uuid].firstSeen == db[uuid].firstSeen
            && Extends(db[uuid].deploys, after[uuid].deploys)
            && |after[uuid].deploys| == |db[uuid].deploys| + Starts(events, uuid)
    decreases |events|
  {
    if events != [] {
      var prefix := events[..|events| - 1];
      HistoryAppendOnly(db, prefix, uuid);
      var e := events[|events| - 1];
      if e.event.Subject() == uuid {
        HandleStored(After(db, prefix), e, |events|, uuid);
        NextExtends(After(db, prefix)[uuid].deploys, e);
      } else {
        OtherNodesUntouched(After(db, prefix), e, |events|, uuid);
      }
    }
  }

  // ---- One open record ----

  predicate Terminal(result: string) {
    result == COMPLETED || result == FAILED || result == CANCELLED
  }

  ghost predicate AllTerminal(ds: seq<Deploy>) {
    forall i :: 0 <= i < |ds| ==> Terminal(ds[i].result)
  }

  ghost predicate OneOpen(ds: seq<Deploy>) {
    ds != [] ==> AllTerminal(ds[..|ds| - 1]) && (ds[|ds| - 1].result == RUNNING || Terminal(ds[|ds| - 1].result))
  }

  /** The node's agent has reported a start and, in the same boot, no end. */
  predicate Open(events: seq<Timed>, uuid: string) {
    events != [] &&
    var e := events[|events| - 1].event;
    if e.Subject() == uuid && (e.Register? || e.DeployEnd?) then false
    else if e.Subject() == uuid && e.DeployStart? then true
    else Open(events[..|events| - 1], uuid)
  }

  /** What one node's agent sends: a boot registers without history, starts and ends
      alternate within a boot (an end may be repeated), results are terminal. A crash may
      cut a boot short anywhere; the next boot registers again. */
  predicate Disciplined(events: seq<Timed>, uuid: string) {
    events == [] ||
    var e := events[|events| - 1].event;
    && Disciplined(events[..|events| - 1], uuid)
    && (e.Subject() == uuid ==>
          && (e.Register? ==> e.node.deploys == [])
          && (e.DeployStart? ==> !Open(events[..|events| - 1], uuid))
          && (e.DeployEnd? ==> Terminal(e.result)))
  }

  lemma ConvergeCloses(ds: seq<Deploy>, now: int)
    requires OneOpen(ds)
    ensures AllTerminal(Converge(ds, now))
  {
    if ds != [] {
      forall i | 0 <= i < |ds|
        ensures Terminal(Converge(ds, now)[i].result)
      {
        if i < |ds| - 1 {
          assert ds[i] == ds[..|ds| - 1][i];
        }
      }
    }
  }

  lemma EndCloses(ds: seq<Deploy>, result: string, bytes: int, msg: string, now: int)
    requires OneOpen(ds) && Terminal(result)
    ensures AllTerminal(EndRecord(ds, result, bytes, msg, now))
  {
    if ds != [] {
      forall i | 0 <= i < |ds|
        ensures Terminal(EndRecord(ds, result, bytes, msg, now)[i].result)
      {
        if i < |ds| - 1 {
          assert ds[i] == ds[..|ds| - 1][i];
        }
      }
    }
  }

  lemma StartOpens(ds: seq<Deploy>, imageID: string, target: string, now: int)
    requires AllTerminal(ds)
    ensures OneOpen(ds + [Deploy(imageID, target, now, None, RUNNING, 0, "")])
  {
    var r := ds + [Deploy(imageID, target, now, None, RUNNING, 0, "")];
    assert r[..|r| - 1] == ds;
  }

  lemma ClosedIsOneOpen(ds: seq<Deploy>)
    requires AllTerminal(ds)
    ensures OneOpen(ds)
  {
  }

  /** In every run of disciplined agents a node has at most one running record: it is the
      last, every earlier one is terminal, and none runs unless the agent is between a
      start and an end of the same boot. */
  lemma {:induction false} OneOpenRecord(db: Database, events: seq<Timed>, uuid: string)
    requires uuid in db ==> AllTerminal(db[uuid].deploys)
    requires Disciplined(events, uuid)
    ensures var after := After(db, events);
            uuid in after ==>
              && OneOpen(after[uuid].deploys)
              && (!Open(events, uuid) ==> AllTerminal(after[uuid].deploys))
    decreases |events|
  {
    if events != [] {
      var prefix := events[..|events| - 1];
      OneOpenRecord(db, prefix, uuid);
      var before := After(db, prefix);
      var e := events[|events| - 1];
      if e.event.Subject() != uuid {
        OtherNodesUntouched(before, e, |events|, uuid);
      } else if uuid in before && !e.event.Delete? {
        var ds := before[uuid].deploys;
        HandleStored(before, e, |events|, uuid);
        match e.event
        case Register(node) =>
          ConvergeCloses(ds, e.time);
          ClosedIsOneOpen(Converge(ds, e.time));
        case DeployEnd(_, result, bytes, msg) =>
          EndCloses(ds, result, bytes, msg, e.time);
          ClosedIsOneOpen(EndRecord(ds, result, bytes, msg, e.time));
        case DeployStart(_, imageID, target) => StartOpens(ds, imageID, target, e.time);
        case _ =>
      } else {
        FirstSeenEmpty(before, e, |events|, uuid);
      }
    }
  }

  lemma FirstSeenEmpty(db: Database, e: Timed, position: nat, uuid: string)
    requires uuid !in db || e.event == Delete(uuid)
    ensures uuid in Handle(db, e, position) ==> e.event.Register? && Handle(db, e, position)[uuid].deploys == e.event.node.deploys
  {
  }

  /** A start keeps the invariant exactly when no record is running. */
  lemma StartSafeExactly(db: Database, uuid: string, imageID: string, target: string, time: int)
    requires uuid in db && OneOpen(db[uuid].deploys)
    ensures OneOpen(Handle(db, At(DeployStart(uuid, imageID, target), time), 0)[uuid].deploys)
            <==> db[uuid].LastResult() != RUNNING
  {
    var ds := db[uuid].deploys;
    var d := Deploy(imageID, target, time, None, RUNNING, 0, "");
    assert (ds + [d])[..|ds|] == ds;
    if ds != [] && ds[|ds| - 1].result != RUNNING {
      forall i | 0 <= i < |ds|
        ensures Terminal(ds[i].result)
      {
        if i < |ds| - 1 {
          assert ds[i] == ds[..|ds| - 1][i];
        }
      }
    }
  }

  // ---- Liveness ----

  predicate Touches(e: Event, uuid: string) {
    e.Subject() == uuid && !e.Delete?
  }

  ghost predicate Chronological(events: seq<Timed>) {
    forall i, j :: 0 <= i < j < |events| ==> events[i].time <= events[j].time
  }

  ghost predicate TouchedSince(events: seq<Timed>, uuid: string, time: int) {
    exists i :: 0 <= i < |events| && Touches(events[i].event, uuid) && events[i].time > time
  }

  /** With non-decreasing times a stored node's LastSeen is the time of the latest request
      about it, so it is online exactly when one of them is less than the timeout old. */
  lemma {:induction false} OnlineExactly(events: seq<Timed>, uuid: string, now: int, timeout: int)
    requires Chronological(events) && uuid in After(map[], events)
    ensures After(map[], events)[uuid].Online(now, timeout) <==> TouchedSince(events, uuid, now - timeout)
    decreases |events|
  {
    var prefix := events[..|events| - 1];
    var e := events[|events| - 1];
    var before := After(map[], prefix);
    if Touches(e.event, uuid) {
      assert After(map[], events)[uuid].lastSeen == e.time;
    } else {
      if e.event.Subject() != uuid {
        OtherNodesUntouched(before, e, |events|, uuid);
      }
      OnlineExactly(prefix, uuid, now, timeout);
      assert TouchedSince(events, uuid, now - timeout) ==> TouchedSince(prefix, uuid, now - timeout) by {
        if i :| 0 <= i < |events| && Touches(events[i].event, uuid) && events[i].time > now - timeout {
          assert prefix[i] == events[i];
        }
      }
      if i :| 0 <= i < |prefix| && Touches(prefix[i].event, uuid) && prefix[i].time > now - timeout {
        assert events[i] == prefix[i];
      }
    }
  }

  /** So while its requests come less than a timeout apart the node is online throughout,
      from one request (at i) to the next (at j) inclusive. */
  lemma GapsBelowTimeoutKeepOnline(events: seq<Timed>, uuid: string, i: nat, k: nat, j: nat, now: int, timeout: int)
    requires Chronological(events) && i < k <= j < |events|
    requires Touches(events[i].event, uuid) && uuid in After(map[], events[..k])
    requires events[j].time - events[i].time < timeout && now <= events[j].time
    ensures After(map[], events[..k])[uuid].Online(now, timeout)
  {
    OnlineExactly(events[..k], uuid, now, timeout);
    assert events[..k][i] == events[i];
  }

  // ---- What a view tells ----

  /** While a node is stored and its agent is between a start and an end of one boot, its
      last record is running; otherwise none is. */
  lemma {:induction false} RunningExactly(events: seq<Timed>, uuid: string)
    requires Disciplined(events, uuid) && uuid in After(map[], events)
    ensures After(map[], events)[uuid].LastResult() == RUNNING <==> Open(events, uuid)
    decreases |events|
  {
    OneOpenRecord(map[], events, uuid);
    if Open(events, uuid) {
      OpenRuns(events, uuid);
    }
  }

  lemma {:induction false} OpenRuns(events: seq<Timed>, uuid: string)
    requires Open(events, uuid) && uuid in After(map[], events)
    ensures After(map[], events)[uuid].LastResult() == RUNNING
    decreases |events|
  {
    var prefix := events[..|events| - 1];
    var e := events[|events| - 1];
    var before := After(map[], prefix);
    if e.event.Subject() != uuid {
      OtherNodesUntouched(before, e, |events|, uuid);
    }
    if !(e.event.Subject() == uuid && e.event.DeployStart?) {
      OpenRuns(prefix, uuid);
    }
  }

  /** What Get shows of a stored node after any disciplined run with non-decreasing times:
      online exactly if one of its requests is less than the timeout old, and deploying
      exactly if it is online and its agent is between a start and an end of one boot; an
      offline node shows how its last deployment ended. */
  lemma {:induction false} ViewTellsExactly(events: seq<Timed>, uuid: string, now: int, timeout: int)
    requires Chronological(events) && Disciplined(events, uuid) && uuid in After(map[], events)
    ensures var node := After(map[], events)[uuid];
            var view := MakeNodeView(node, now, timeout);
            && (view.status.OnlineStatus? <==> TouchedSince(events, uuid, now - timeout))
            && (view.lifecycle.Deploying? <==> TouchedSince(events, uuid, now - timeout) && Open(events, uuid))
            && (view.status.OfflineStatus? && view.lifecycle.LifeCompleted? <==>
                  !TouchedSince(events, uuid, now - timeout) && node.LastResult() == COMPLETED)
  {
    OnlineExactly(events, uuid, now, timeout);
    RunningExactly(events, uuid);
  }

  predicate Registers(e: Event, uuid: string) {
    e.Register? && e.node.uuid == uuid
  }

  /** A node that is not stored stays so, whatever is requested, until it registers. */
  lemma {:induction false} AbsentUntilRegistered(db: Database, events: seq<Timed>, uuid: string)
    requires uuid !in db && forall i :: 0 <= i < |events| ==> !Registers(events[i].event, uuid)
    ensures uuid !in After(db, events)
    decreases |events|
  {
    if events != [] {
      var n := |events| - 1;
      AbsentUntilRegistered(db, events[..n], uuid);
      if events[n].event.Subject() != uuid {
        OtherNodesUntouched(After(db, events[..n]), events[n], |events|, uuid);
      }
    }
  }

  /** A deleted node is forgotten: no later heartbeat or deployment report brings it back,
      and when it registers again it is a new node, first seen then, with the history the
      registration carries. The deletion touches no other node. */
  lemma {:induction false} DeleteForgets(db: Database, uuid: string, position: nat, events: seq<Timed>, node: Node, time: int)
    requires uuid != "" && node.uuid == uuid
    requires forall i :: 0 <= i < |events| ==> !Registers(events[i].event, uuid)
    ensures var gone := Handle(db, At(Delete(uuid), time), position);
            var later := After(gone, events);
            var back := Handle(later, At(Register(node), time), position);
            && uuid !in later && uuid in back
            && back[uuid].firstSeen == time && back[uuid].deploys == node.deploys
            && forall other :: other != uuid ==> (other in gone <==> other in db) && (other in db ==> gone[other] == db[other])
  {
    AbsentUntilRegistered(Handle(db, At(Delete(uuid), time), position), events, uuid);
  }
}
