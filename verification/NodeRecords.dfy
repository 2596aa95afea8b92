/** Where the fields of a stored node and of its records come from, told from the requests. */
module NodeRecords {
  import opened Wrappers
  import opened NodeStore
  import opened NodeHistory
  import opened Runs
  import Text

  // ---- One record ----

  /** What a request makes of the record it writes: a start opens a new one, an end closes the
      last one, a registration closes the last one if it is still running. */
  predicate Writes(e: Timed, before: seq<Deploy>, i: nat, d: Deploy) {
    match e.event
    case DeployStart(_, imageID, target) =>
      i == |before| && d == Deploy(imageID, target, e.time, None, "running", 0, "")
    case DeployEnd(_, result, bytes, msg) =>
      i + 1 == |before| && d == Deploy(before[i].imageID, before[i].targetDisk, before[i].startedAt,
                                       Some(e.time), result, bytes, msg)
    case Register(_) =>
      && i + 1 == |before| && before[i].result == "running"
      && d == Deploy(before[i].imageID, before[i].targetDisk, before[i].startedAt, Some(e.time), "cancelled", before[i].bytesWritten,
                     if before[i].error == "" then "node restarted or interrupted; state converged automatically"
                     else before[i].error)
    case _ => false
  }

  /** Each request leaves a record as it was, or writes it. */
  lemma RequestWrites(db: Database, e: Timed, position: nat, uuid: string, i: nat)
    requires uuid in db && e.event != Delete(uuid)
    requires uuid in Handle(db, e, position) && i < |Handle(db, e, position)[uuid].deploys|
    ensures var before := db[uuid].deploys;
            var d := Handle(db, e, position)[uuid].deploys[i];
            || (i < |before| && d == before[i])
            || (e.event.Subject() == uuid && Writes(e, before, i, d))
  {
    if e.event.Subject() != uuid {
      OtherNodesUntouched(db, e, position, uuid);
    }
  }

  /** The request at `k` wrote the record as it now is. */
  ghost predicate WrittenBy(db: Database, events: seq<Timed>, uuid: string, i: nat, d: Deploy, k: nat) {
    && k < |events| && events[k].event.Subject() == uuid
    && uuid in After(db, events[..k]) && Writes(events[k], After(db, events[..k])[uuid].deploys, i, d)
  }

  lemma {:induction false} WrittenStays(
    db: Database, events: seq<Timed>, e: Timed, uuid: string, i: nat, d: Deploy, k: nat)
    requires WrittenBy(db, events, uuid, i, d, k)
    ensures WrittenBy(db, events + [e], uuid, i, d, k)
  {
    assert (events + [e])[..k] == events[..k] && (events + [e])[k] == events[k];
  }

  /** In every run without a Delete of the node, each of its records is an old one, unchanged,
      or exactly as the last request to write it made it. */
  lemma {:induction false} RecordHasWriter(db: Database, events: seq<Timed>, uuid: string, i: nat)
    requires uuid in db && forall k :: 0 <= k < |events| ==> events[k].event != Delete(uuid)
    requires uuid in After(db, events) && i < |After(db, events)[uuid].deploys|
    ensures var d := After(db, events)[uuid].deploys[i];
            || (i < |db[uuid].deploys| && d == db[uuid].deploys[i])
            || exists k: nat :: WrittenBy(db, events, uuid, i, d, k)
    decreases |events|
  {
    if events != [] {
      var n := |events| - 1;
      var prefix := events[..n];
      assert events == prefix + [events[n]];
      HistoryAppendOnly(db, prefix, uuid);
      var d := After(db, events)[uuid].deploys[i];
      RequestWrites(After(db, prefix), events[n], |events|, uuid, i);
      if i < |After(db, prefix)[uuid].deploys| && d == After(db, prefix)[uuid].deploys[i] {
        RecordHasWriter(db, prefix, uuid, i);
        if k: nat :| WrittenBy(db, prefix, uuid, i, d, k) {
          WrittenStays(db, prefix, events[n], uuid, i, d, k);
        }
      } else {
        assert WrittenBy(db, events, uuid, i, d, n);
      }
    }
  }

  /** So a record says "completed" or "failed" only if it did at first, or if the node's agent
      reported that result, with that byte count and message, while it was the last record:
      closing an interrupted deployment never says so. */
  lemma {:induction false} ResultOnlyReported(db: Database, events: seq<Timed>, uuid: string, i: nat)
    requires uuid in db && forall k :: 0 <= k < |events| ==> events[k].event != Delete(uuid)
    requires uuid in After(db, events) && i < |After(db, events)[uuid].deploys|
    requires After(db, events)[uuid].deploys[i].result == "completed" || After(db, events)[uuid].deploys[i].result == "failed"
    ensures var d := After(db, events)[uuid].deploys[i];
            || (i < |db[uuid].deploys| && d == db[uuid].deploys[i])
            || exists k: nat ::
                 && k < |events| && events[k].event == DeployEnd(uuid, d.result, d.bytesWritten, d.error)
                 && d.endedAt == Some(events[k].time)
                 && uuid in After(db, events[..k]) && |After(db, events[..k])[uuid].deploys| == i + 1
  {
    var d := After(db, events)[uuid].deploys[i];
    RecordHasWriter(db, events, uuid, i);
    if k: nat :| WrittenBy(db, events, uuid, i, d, k) {
      assert events[k].event.DeployEnd?;
      assert events[k].event == DeployEnd(uuid, d.result, d.bytesWritten, d.error);
    }
  }

  // ---- Registration ----

  /** A node's fields are those of a registration, but that it has a host name only when it
      came by bootseed-enter, and that the last error is `lastError`. */
  predicate InfoFrom(info: Info, n: Info, lastError: string) {
    && info.mac == n.mac && info.ip == n.ip && info.architecture == n.architecture && info.bootMode == n.bootMode
    && info.kernelVersion == n.kernelVersion && info.alpineVersion == n.alpineVersion
    && info.agentVersion == n.agentVersion && info.agentPort == n.agentPort && info.agentURL == n.agentURL
    && info.origin == Text.TrimSpace(n.origin)
    && info.hostname == (if Text.TrimSpace(n.origin) == "bootseed-enter" then n.hostname else "")
    && info.networkMode == n.networkMode && info.networkStatus == n.networkStatus
    && info.managementIF == n.managementIF && info.netmask == n.netmask && info.gateway == n.gateway
    && info.dns == n.dns && info.lastError == lastError
  }

  /** The latest registration of the node. */
  function LatestInfo(events: seq<Timed>, uuid: string): Option<Info> {
    if events == [] then None
    else
      var e := events[|events| - 1].event;
      if e.Register? && e.node.uuid == uuid then Some(e.node.info) else LatestInfo(events[..|events| - 1], uuid)
  }

  /** The error last reported: by a registration, or by the end of a deployment since. */
  function LatestError(events: seq<Timed>, uuid: string): string {
    if events == [] then ""
    else
      var e := events[|events| - 1].event;
      if e.Register? && e.node.uuid == uuid then e.node.info.lastError
      else if e.DeployEnd? && e.uuid == uuid then e.msg
      else LatestError(events[..|events| - 1], uuid)
  }

  lemma RequestKeepsInfo(db: Database, e: Timed, position: nat, uuid: string)
    requires uuid in db && e.event != Delete(uuid)
    ensures uuid in Handle(db, e, position)
    ensures var info := Handle(db, e, position)[uuid].info;
            if e.event.Register? && e.event.node.uuid == uuid then InfoFrom(info, e.event.node.info, e.event.node.info.lastError)
            else if e.event.DeployEnd? && e.event.uuid == uuid then info == db[uuid].info.(lastError := e.event.msg)
            else info == db[uuid].info
  {
    if e.event.Subject() != uuid {
      OtherNodesUntouched(db, e, position, uuid);
    }
  }

  /** In every run without a Delete of the node its fields are those of its latest registration,
      and its last error is the one last reported. */
  lemma {:induction false} InfoFromLatest(db: Database, events: seq<Timed>, uuid: string)
    requires uuid in db && forall k :: 0 <= k < |events| ==> events[k].event != Delete(uuid)
    ensures uuid in After(db, events)
    ensures LatestInfo(events, uuid).Some? ==>
              InfoFrom(After(db, events)[uuid].info, LatestInfo(events, uuid).value, LatestError(events, uuid))
    decreases |events|
  {
    if events != [] {
      var n := |events| - 1;
      InfoFromLatest(db, events[..n], uuid);
      RequestKeepsInfo(After(db, events[..n]), events[n], |events|, uuid);
    }
  }

  /** A node's first registration: seen first and last at that time, with its own history. */
  lemma FirstRegistration(db: Database, node: Node, time: int, position: nat)
    requires node.uuid != "" && node.uuid !in db
    ensures var after := Handle(db, At(Register(node), time), position);
            && node.uuid in after
            && after[node.uuid].uuid == node.uuid && after[node.uuid].firstSeen == time && after[node.uuid].lastSeen == time
            && after[node.uuid].deploys == node.deploys
            && InfoFrom(after[node.uuid].info, node.info, node.info.lastError)
  {
  }

  /** A deployment interrupted by a restart: the registration that follows leaves its record
      cancelled, ended then, with the error it had or, if none, the one that says so. */
  lemma {:induction false} InterruptedIsCancelled(db: Database, events: seq<Timed>, node: Node, time: int)
    requires var before := After(db, events);
             node.uuid in before && before[node.uuid].deploys != [] && before[node.uuid].LastResult() == "running"
    ensures var before := After(db, events)[node.uuid].deploys;
            var after := After(db, events + [At(Register(node), time)]);
            && node.uuid in after && |after[node.uuid].deploys| == |before|
            && after[node.uuid].deploys[..|before| - 1] == before[..|before| - 1]
            && var d := before[|before| - 1];
               after[node.uuid].deploys[|before| - 1] ==
               Deploy(d.imageID, d.targetDisk, d.startedAt, Some(time), "cancelled", d.bytesWritten,
                      if d.error == "" then "node restarted or interrupted; state converged automatically" else d.error)
  {
    RunAppend<Database, Timed>(Handle, db, events, At(Register(node), time));
  }

  // ---- The view ----

  /** What a client is shown, in terms of when the node was last seen and of its last record. */
  lemma ViewTellsAll(n: Node, now: int, timeout: int)
    ensures var view := MakeNodeView(n, now, timeout);
            var online := now < n.lastSeen + timeout;
            var last := if |n.deploys| == 0 then "" else n.deploys[|n.deploys| - 1].result;
            && view.node == n && view.lastResult == last && (view.deployedEver <==> n.deploys != [])
            && view.status == (if online then OnlineStatus else OfflineStatus)
            && (view.lifecycle.Deploying? <==> online && last == "running")
            && (view.lifecycle.BootseedOnline? <==> online && last != "running")
            && (view.lifecycle.LifeCompleted? <==> !online && last == "completed")
            && (view.lifecycle.LifeFailed? <==> !online && (last == "failed" || last == "cancelled"))
            && (view.lifecycle.Offline? <==> !online && last !in ["completed", "failed", "cancelled"])
  {
  }
}
