/** Hang detection and forced death of a process (src/k8smgr/main.c). */
module Liveness {
  import opened ElementList

  const K8SMGR_HANG_INTVL := 3
  const FORCED_CHECKS := 5

  /** proc_ctx_t. */
  datatype ProcCtx = ProcCtx(name: string, keepIndex: nat, aliveStatus: int, forceStatus: int)

  /** The shared keepalive counters: each process counts up its own; the checks keep what they last saw and for how
      many checks it has stood still. */
  class Keepalive {
    var cnt: array<int>
    var oldcnt: array<int>
    var retry: array<int>

    ghost predicate Valid()
      reads this
    {
      cnt.Length == oldcnt.Length == retry.Length && oldcnt != retry && cnt != oldcnt && cnt != retry
    }
  }

  // ---------------------------------------------------------------- one process, step by step

  /** What the checks remember of a process. */
  datatype Watch = Watch(oldcnt: int, retry: int, alive: int, force: int)

  datatype Event = Check(cnt: int) | Patch(status: int)

  /** check_proc_alive when the counter shows `cnt`. */
  function CheckStep(w: Watch, cnt: int): Watch {
    var retry := if cnt != w.oldcnt then 0 else w.retry + 1;
    if w.force > 0 then
      if w.force < FORCED_CHECKS then Watch(cnt, retry, 0, w.force + 1) else Watch(cnt, retry, w.alive, 0)
    else Watch(cnt, retry, if retry >= K8SMGR_HANG_INTVL then 0 else 1, w.force)
  }

  /** http_patch_pod_live. */
  function PatchStep(w: Watch, status: int): Watch {
    w.(alive := status, force := if status == 0 then 1 else w.force)
  }

  function Step(w: Watch, e: Event): Watch {
    match e
    case Check(cnt) => CheckStep(w, cnt)
    case Patch(status) => PatchStep(w, status)
  }

  function Run(w: Watch, events: seq<Event>): Watch {
    if events == [] then w else Step(Run(w, events[..|events|-1]), events[|events|-1])
  }

  // ---------------------------------------------------------------- over all traces

  /** The counter values the checks saw, the value known at the start in front. */
  function Seen(start: int, events: seq<Event>): (seen: seq<int>)
    ensures |seen| >= 1
  {
    if events == [] then [start]
    else
      var e := events[|events|-1];
      Seen(start, events[..|events|-1]) + if e.Check? then [e.cnt] else []
  }

  /** None of the last `k` checks saw the counter change. */
  predicate StoodStill(seen: seq<int>, k: nat) {
    k < |seen| && forall i :: |seen| - k <= i < |seen| ==> seen[i] == seen[i-1]
  }

  /** `retry` is the length of the trailing run of checks that saw no change, whatever was patched in between. */
  lemma {:induction false} RetryIsTrailingRun(w: Watch, events: seq<Event>)
    requires w.retry == 0
    ensures var end, seen := Run(w, events), Seen(w.oldcnt, events);
      && end.retry >= 0 && end.oldcnt == seen[|seen|-1] && StoodStill(seen, end.retry)
      && (end.retry + 1 < |seen| ==> !StoodStill(seen, end.retry + 1))
    decreases |events|
  {
    if events == [] {
    } else {
      hide StoodStill;
      var before, e := events[..|events|-1], events[|events|-1];
      RetryIsTrailingRun(w, before);
      if e.Check? {
        var seen := Seen(w.oldcnt, before);
        StillOneMore(seen, e.cnt, Run(w, before).retry);
        StillOneMore(seen, e.cnt, Run(w, before).retry + 1);
        StillOneMore(seen, e.cnt, 0);
        assert Seen(w.oldcnt, events) == seen + [e.cnt];
      } else {
        assert Seen(w.oldcnt, events) == Seen(w.oldcnt, before);
      }
    }
  }

  lemma StillOneMore(seen: seq<int>, cnt: int, k: nat)
    requires |seen| >= 1
    ensures StoodStill(seen + [cnt], k + 1) <==> StoodStill(seen, k) && cnt == seen[|seen|-1]
    ensures StoodStill(seen + [cnt], 0)
  {
    var more := seen + [cnt];
    if StoodStill(more, k + 1) {
      assert more[|more|-1] == more[|more|-2];
      forall i | |seen| - k <= i < |seen| ensures seen[i] == seen[i-1] {
        assert more[i] == more[i-1];
      }
    }
  }

  lemma StillForLess(seen: seq<int>, k: nat)
    ensures forall j: nat :: j <= k && StoodStill(seen, k) ==> StoodStill(seen, j)
  {
  }

  /** An unforced check reports a process dead exactly when the last three checks saw no change. */
  lemma UnforcedCheck(w: Watch, events: seq<Event>, cnt: int)
    requires w.retry == 0 && Run(w, events).force <= 0
    ensures var end := Run(w, events + [Check(cnt)]);
      end.alive == if StoodStill(Seen(w.oldcnt, events + [Check(cnt)]), K8SMGR_HANG_INTVL) then 0 else 1
  {
    var all := events + [Check(cnt)];
    assert all[..|all|-1] == events;
    RetryIsTrailingRun(w, all);
    var seen, end := Seen(w.oldcnt, all), Run(w, all);
    StillForLess(seen, end.retry);
    StillForLess(seen, K8SMGR_HANG_INTVL);
  }

  /** `force_status` stays in 0..5. */
  lemma {:induction false} ForceInRange(w: Watch, events: seq<Event>)
    requires 0 <= w.force <= FORCED_CHECKS
    ensures 0 <= Run(w, events).force <= FORCED_CHECKS
    decreases |events|
  {
    if events == [] {
    } else {
      ForceInRange(w, events[..|events|-1]);
    }
  }

  ghost predicate OnlyChecks(events: seq<Event>) {
    forall i :: 0 <= i < |events| ==> events[i].Check?
  }

  /** After a status=0 patch and no later one, the process is dead through the next five checks, whatever its counter
      does. */
  lemma {:induction false} ForcedDead(w: Watch, checks: seq<Event>)
    requires OnlyChecks(checks) && |checks| <= FORCED_CHECKS
    ensures var end := Run(PatchStep(w, 0), checks);
      end.alive == 0 && end.force == if |checks| < FORCED_CHECKS then |checks| + 1 else 0
    decreases |checks|
  {
    if checks == [] {
    } else {
      ForcedDead(w, checks[..|checks|-1]);
    }
  }

  lemma {:induction false} RunAppend(w: Watch, a: seq<Event>, b: seq<Event>)
    ensures Run(w, a + b) == Run(Run(w, a), b)
    decreases |b|
  {
    if b == [] {
      assert a + b == a;
    } else {
      RunAppend(w, a, b[..|b|-1]);
      assert (a + b)[..|a + b|-1] == a + b[..|b|-1];
    }
  }

  /** The sixth check is decided by the hang window again. */
  lemma SixthCheck(w: Watch, events: seq<Event>, checks: seq<Event>, cnt: int)
    requires w.retry == 0 && OnlyChecks(checks) && |checks| == FORCED_CHECKS
    ensures var all := events + [Patch(0)] + checks + [Check(cnt)];
      Run(w, all).alive == if StoodStill(Seen(w.oldcnt, all), K8SMGR_HANG_INTVL) then 0 else 1
  {
    var before := events + [Patch(0)];
    RunAppend(w, before, checks);
    assert before[..|before|-1] == events;
    ForcedDead(Run(w, events), checks);
    UnforcedCheck(w, before + checks, cnt);
  }

  // ---------------------------------------------------------------- patches and checks in any order

  function Checks(events: seq<Event>): nat {
    if events == [] then 0 else Checks(events[..|events|-1]) + if events[|events|-1].Check? then 1 else 0
  }

  /** Event `z` is the last patch with status 0. */
  ghost predicate LastKill(events: seq<Event>, z: nat) {
    z < |events| && events[z] == Patch(0) && forall i :: z < i < |events| ==> events[i] != Patch(0)
  }

  lemma LastKillSnoc(events: seq<Event>, e: Event, z: nat)
    ensures LastKill(events + [e], z) <==> if e == Patch(0) then z == |events| else LastKill(events, z)
    ensures z < |events| ==>
      Checks((events + [e])[z+1..]) == Checks(events[z+1..]) + if e.Check? then 1 else 0
    ensures Checks((events + [e])[|events|+1..]) == 0
  {
    var all := events + [e];
    assert all[|events|] == e && forall i :: 0 <= i < |events| ==> all[i] == events[i];
    if z < |events| {
      assert all[z+1..] == events[z+1..] + [e];
      assert all[z+1..][..|all[z+1..]|-1] == events[z+1..];
    }
  }

  /** The timer over all traces: it runs for five checks from the last patch with status 0 on; a patch with another
      status neither starts nor stops it. */
  lemma {:induction false} TimerIs(w: Watch, events: seq<Event>, z: nat)
    requires w.force == 0
    ensures LastKill(events, z) ==>
      Run(w, events).force == if Checks(events[z+1..]) < 5 then Checks(events[z+1..]) + 1 else 0
    ensures (forall i: nat :: !LastKill(events, i)) ==> Run(w, events).force == 0
    decreases |events|
  {
    if events == [] {
    } else {
      hide LastKill, Checks;
      var before, e := events[..|events|-1], events[|events|-1];
      assert events == before + [e];
      LastKillSnoc(before, e, z);
      LastKillSnoc(before, e, |before|);
      TimerIs(w, before, z);
      if (forall i: nat :: !LastKill(events, i)) {
        forall i: nat ensures !LastKill(before, i) {
          LastKillSnoc(before, e, i);
        }
      }
    }
  }

  lemma RunSnoc(w: Watch, events: seq<Event>, e: Event)
    ensures Run(w, events + [e]) == Step(Run(w, events), e)
  {
    assert (events + [e])[..|events|] == events;
  }

  /** After a patch the process has the status patched in, and only status 0 touches the timer, which it restarts. */
  lemma AfterPatch(w: Watch, events: seq<Event>, status: int)
    ensures var was, now := Run(w, events), Run(w, events + [Patch(status)]);
      && now.alive == status && now.oldcnt == was.oldcnt && now.retry == was.retry
      && now.force == if status == 0 then 1 else was.force
  {
    RunSnoc(w, events, Patch(status));
  }

  /** After a check: within four checks of the last patch with status 0 the process is dead, whatever was patched in
      since; the fifth leaves the status as it finds it; any other check goes by the last three. */
  lemma AfterCheck(w: Watch, events: seq<Event>, cnt: int, z: nat)
    requires w.force == 0 && w.retry == 0
    ensures var was, all := Run(w, events), events + [Check(cnt)];
      var hung := StoodStill(Seen(w.oldcnt, all), 3);
      && (LastKill(events, z) && Checks(events[z+1..]) < 4 ==> Run(w, all).alive == 0)
      && (LastKill(events, z) && Checks(events[z+1..]) == 4 ==> Run(w, all).alive == was.alive)
      && (LastKill(events, z) && Checks(events[z+1..]) > 4 ==> Run(w, all).alive == if hung then 0 else 1)
      && ((forall i: nat :: !LastKill(events, i)) ==> Run(w, all).alive == if hung then 0 else 1)
  {
    hide LastKill, Checks, StoodStill;
    TimerIs(w, events, z);
    RunSnoc(w, events, Check(cnt));
    if Run(w, events).force <= 0 { UnforcedCheck(w, events, cnt); }
  }

  /** A process killed for a while and patched alive again before the fifth check comes alive at that check, even if its
      counter stands still. */
  lemma RevivedAtTheFifth(w: Watch, events: seq<Event>, a: int, b: int, c: int, d: int, cnt: int, status: int)
    ensures var killed := events + [Patch(0), Check(a), Check(b), Check(c), Check(d)];
      Run(w, killed).alive == 0 && Run(w, killed + [Patch(status), Check(cnt)]).alive == status
  {
    var checks := [Check(a), Check(b), Check(c), Check(d)];
    var killed := events + [Patch(0), Check(a), Check(b), Check(c), Check(d)];
    assert killed == (events + [Patch(0)]) + checks;
    RunAppend(w, events + [Patch(0)], checks);
    RunSnoc(w, events, Patch(0));
    ForcedDead(Run(w, events), checks);
    RunSnoc(w, killed, Patch(status));
    RunSnoc(w, killed + [Patch(status)], Check(cnt));
    assert killed + [Patch(status), Check(cnt)] == (killed + [Patch(status)]) + [Check(cnt)];
  }

  // ---------------------------------------------------------------- on the process list

  /** What the checks remember, as it stands in the list and in the shared counters. */
  ghost function WatchOf(ctx: ProcCtx, keep: Keepalive): Watch
    requires keep.Valid() && ctx.keepIndex < keep.cnt.Length
    reads keep, keep.oldcnt, keep.retry
  {
    Watch(keep.oldcnt[ctx.keepIndex], keep.retry[ctx.keepIndex], ctx.aliveStatus, ctx.forceStatus)
  }

  /** check_proc_alive for the process of entry `i`. */
  method CheckProcAlive(list: NodeList<ProcCtx>, elem: Element<ProcCtx>, ghost i: nat, keep: Keepalive)
    requires list.Valid() && keep.Valid() && i < |list.entries| && elem == Nth(list.elems, i + 1)
    modifies list`entries, elem`data, keep.oldcnt, keep.retry
    ensures list.Valid() && list.elems == old(list.elems)
    ensures var was := old(list.entries[i].data);
      if was.keepIndex >= keep.cnt.Length then
        list.entries == old(list.entries) && keep.oldcnt[..] == old(keep.oldcnt[..])
          && keep.retry[..] == old(keep.retry[..])
      else
        var w := CheckStep(old(WatchOf(was, keep)), keep.cnt[was.keepIndex]);
        var now := was.(aliveStatus := w.alive, forceStatus := w.force);
        && list.entries == old(list.entries)[i := Entry(old(list.entries[i].key), now)]
        && keep.oldcnt[..] == old(keep.oldcnt[..])[was.keepIndex := w.oldcnt]
        && keep.retry[..] == old(keep.retry[..])[was.keepIndex := w.retry]
  {
    hide Sorted;
    assert HoldsAt(list.elems, list.entries, i + 1);
    var ctx := elem.data.value;
    if ctx.keepIndex >= keep.cnt.Length { return; }
    var k := ctx.keepIndex;
    if keep.cnt[k] != keep.oldcnt[k] {
      keep.retry[k] := 0;
    } else {
      keep.retry[k] := keep.retry[k] + 1;
    }
    keep.oldcnt[k] := keep.cnt[k];
    if ctx.forceStatus > 0 {
      var force := ctx.forceStatus;
      ctx := ctx.(forceStatus := force + 1);
      if force < 5 {
        ctx := ctx.(aliveStatus := 0);
      } else {
        ctx := ctx.(forceStatus := 0);
      }
    } else if keep.retry[k] >= K8SMGR_HANG_INTVL {
      ctx := ctx.(aliveStatus := 0);
    } else {
      ctx := ctx.(aliveStatus := 1);
    }
    list.SetData(elem, ctx, i);
  }

  datatype HttpReply = Ok200 | NotFound404 | Unavailable503

  /** http_patch_pod_live with a given status. */
  method HttpPatchPodLive(list: NodeList<ProcCtx>, name: string, status: int) returns (reply: HttpReply)
    requires list.Valid()
    modifies list`entries, list.Repr
    ensures list.Valid() && list.elems == old(list.elems)
    ensures var i := IndexOf(old(list.entries), name);
      if i == |old(list.entries)| then reply == NotFound404 && list.entries == old(list.entries)
      else
        var was := old(list.entries)[i];
        var w := PatchStep(Watch(0, 0, was.data.aliveStatus, was.data.forceStatus), status);
        reply == Ok200
        && list.entries == old(list.entries)[i := Entry(was.key,
           was.data.(aliveStatus := w.alive, forceStatus := w.force))]
  {
    hide Sorted;
    var elem := list.GetElement(name);
    ghost var i := IndexOf(list.entries, name);
    if elem == null { return NotFound404; }
    assert HoldsAt(list.elems, list.entries, i + 1);
    var ctx := elem.data.value.(aliveStatus := status);
    if ctx.aliveStatus == 0 {
      ctx := ctx.(forceStatus := 1);
    }
    list.SetData(elem, ctx, i);
    reply := Ok200;
  }
}
