/** The roles of two pods (src/k8smgr/main.c): each decides on its own, from its health and from what it last heard of
    its peer. */
module ActiveStandby {
  import opened Sequences
  import opened ElementList
  import opened Liveness

  const NO_PEER := -1
  const HTTP_OK := 200
  const HTTP_UNAVAILABLE := 503

  datatype Label = Unlabelled | Active | Standby | ProcFailed | ForceNotReady

  datatype Uri = Start | Ready

  /** `mode` is the pod's own letter of AS_MODE; `allAlive` and `forced` are its health inputs. */
  datatype Pod = Pod(
    mode: char, allAlive: bool, forced: bool,
    sysStatus: int, peerStart: int, peerReady: int, role: Label)
  {
    predicate Healthy() {
      allAlive && !forced
    }
  }

  /** A pod ticks, hears from its peer, or writes its label. `code` is missing when the request failed. */
  datatype PodEvent = Tick(p: nat) | Reply(p: nat, uri: Uri, code: Option<int>) | UpdateLabel(p: nat)

  /** main_tick. */
  function TickStep(pod: Pod): Pod {
    pod.(sysStatus := if pod.allAlive then 1 else 0)
  }

  /** http_recv_reply: a failed request of either kind spoils both values. */
  function ReplyStep(pod: Pod, uri: Uri, code: Option<int>): Pod {
    match code
    case None => pod.(peerStart := NO_PEER, peerReady := NO_PEER)
    case Some(c) =>
      var ok := if c == HTTP_OK then 1 else 0;
      if uri == Start then pod.(peerStart := ok) else pod.(peerReady := ok)
  }

  /** The label of main_update_pod_label. */
  function Decide(pod: Pod): Label {
    if pod.forced then ForceNotReady
    else if pod.sysStatus != 1 then ProcFailed
    else if pod.mode == 'A' then Active
    else if pod.peerStart > 0 && pod.peerReady != 0 then Standby
    else Active
  }

  function PodStep(pod: Pod, e: PodEvent): Pod {
    match e
    case Tick(_) => TickStep(pod)
    case Reply(_, uri, code) => ReplyStep(pod, uri, code)
    case UpdateLabel(_) => pod.(role := Decide(pod))
  }

  /** What pod `p` becomes; the other pod's events do not touch it. */
  function RunPod(pod: Pod, p: nat, events: seq<PodEvent>): Pod {
    if events == [] then pod
    else
      var before := RunPod(pod, p, events[..|events|-1]);
      if events[|events|-1].p == p then PodStep(before, events[|events|-1]) else before
  }

  /** What a pod answers: always started, and ready exactly if healthy (http_reply_pod_start, http_reply_pod_ready). */
  function Answer(peer: Pod, uri: Uri): int {
    if uri == Start || peer.Healthy() then HTTP_OK else HTTP_UNAVAILABLE
  }

  /** The answers pod `p` gets in this run were given by `peer`, whose health stays as it is. */
  ghost predicate Truthful(events: seq<PodEvent>, p: nat, peer: Pod) {
    forall i :: 0 <= i < |events| && events[i].Reply? && events[i].p == p && events[i].code.Some? ==>
      events[i].code.value == Answer(peer, events[i].uri)
  }

  // ---------------------------------------------------------------- what stays

  lemma {:induction false} HealthStays(pod: Pod, p: nat, events: seq<PodEvent>)
    ensures var q := RunPod(pod, p, events); q.mode == pod.mode && q.allAlive == pod.allAlive && q.forced == pod.forced
    decreases |events|
  {
    if events == [] {
    } else {
      HealthStays(pod, p, events[..|events|-1]);
    }
  }

  /** Pod `p` wrote its label for the last time as event `l`, and ticked before. */
  ghost predicate Refreshed(events: seq<PodEvent>, p: nat, l: nat) {
    && l < |events| && events[l] == UpdateLabel(p)
    && (forall i :: l < i < |events| ==> events[i] != UpdateLabel(p))
    && (exists t :: 0 <= t < l && events[t] == Tick(p))
  }

  /** Pod `p` got an answer to `uri`, and no request of its failed since. */
  ghost predicate Known(events: seq<PodEvent>, p: nat, uri: Uri) {
    exists a: nat :: KnownAt(events, p, uri, a)
  }

  ghost predicate KnownAt(events: seq<PodEvent>, p: nat, uri: Uri, a: nat) {
    && a < |events| && events[a].Reply? && events[a].p == p && events[a].uri == uri && events[a].code.Some?
    && forall i :: a < i < |events| && events[i].Reply? && events[i].p == p ==> events[i].code.Some?
  }

  ghost predicate SomeFailed(events: seq<PodEvent>, p: nat) {
    exists f :: 0 <= f < |events| && FailsAt(events, p, f)
  }

  ghost predicate FailsAt(events: seq<PodEvent>, p: nat, f: nat) {
    f < |events| && events[f].Reply? && events[f].p == p && events[f].code.None?
  }

  /** Pod `p` heard from both requests of a poll: each was answered, or some request failed, which decides both. */
  ghost predicate Polled(events: seq<PodEvent>, p: nat) {
    SomeFailed(events, p) || (Known(events, p, Start) && Known(events, p, Ready))
  }

  lemma {:induction false} TickedStatus(pod: Pod, p: nat, events: seq<PodEvent>, t: nat)
    requires t < |events| && events[t] == Tick(p)
    ensures RunPod(pod, p, events).sysStatus == if pod.allAlive then 1 else 0
    decreases |events|
  {
    HealthStays(pod, p, events[..|events|-1]);
    if t >= |events| - 1 {
    } else {
      TickedStatus(pod, p, events[..|events|-1], t);
    }
  }

  /** The last label is the one decided when it was written. */
  lemma {:induction false} LastLabel(pod: Pod, p: nat, events: seq<PodEvent>, l: nat)
    requires l < |events| && events[l] == UpdateLabel(p) && forall i :: l < i < |events| ==> events[i] != UpdateLabel(p)
    ensures RunPod(pod, p, events).role == Decide(RunPod(pod, p, events[..l]))
    decreases |events|
  {
    var before := events[..|events|-1];
    if l >= |events| - 1 {
    } else {
      LastLabel(pod, p, before, l);
      assert before[..l] == events[..l];
    }
  }

  /** What a pod remembers of its peer. */
  function Remembered(pod: Pod, uri: Uri): int {
    if uri == Start then pod.peerStart else pod.peerReady
  }

  /** A known answer tells the truth about the peer, whatever the pod remembered before. */
  lemma {:induction false} KnownValue(pod: Pod, p: nat, events: seq<PodEvent>, peer: Pod, uri: Uri, a: nat)
    requires Truthful(events, p, peer) && KnownAt(events, p, uri, a)
    ensures Remembered(RunPod(pod, p, events), uri) == if Answer(peer, uri) == HTTP_OK then 1 else 0
    decreases |events|
  {
    if a == |events| - 1 {
    } else {
      KnownValue(pod, p, events[..|events|-1], peer, uri, a);
    }
  }

  lemma KnownLater(p: nat, events: seq<PodEvent>, uri: Uri)
    requires events != [] && !FailsAt(events, p, |events| - 1)
    ensures Known(events[..|events|-1], p, uri) ==> Known(events, p, uri)
  {
    var before := events[..|events|-1];
    if a: nat :| KnownAt(before, p, uri, a) {
      assert KnownAt(events, p, uri, a);
    }
  }

  /** Once a request failed, what is not known is spoilt. */
  lemma {:induction false} SpoiltValue(pod: Pod, p: nat, events: seq<PodEvent>, uri: Uri)
    requires SomeFailed(events, p) && !Known(events, p, uri)
    ensures Remembered(RunPod(pod, p, events), uri) == NO_PEER
    decreases |events|
  {
    var k := |events| - 1;
    var before := events[..k];
    if FailsAt(events, p, k) {
    } else {
      var f: nat :| f < |events| && FailsAt(events, p, f);
      assert FailsAt(before, p, f);
      assert !KnownAt(events, p, uri, k);
      KnownLater(p, events, uri);
      SpoiltValue(pod, p, before, uri);
    }
  }

  // ---------------------------------------------------------------- what the two pods come to

  /** What a polled pod believes: its peer is ready if `/start` is known and `/ready` is either spoilt or answered by a
      healthy peer. */
  lemma Believes(pod: Pod, peer: Pod, p: nat, events: seq<PodEvent>)
    requires Truthful(events, p, peer) && Polled(events, p)
    ensures var q := RunPod(pod, p, events);
      q.peerStart > 0 && q.peerReady != 0 <==>
        Known(events, p, Start) && (!Known(events, p, Ready) || peer.Healthy())
  {
    if Known(events, p, Start) {
      var a: nat :| KnownAt(events, p, Start, a);
      KnownValue(pod, p, events, peer, Start, a);
    } else {
      SpoiltValue(pod, p, events, Start);
    }
    if Known(events, p, Ready) {
      var b: nat :| KnownAt(events, p, Ready, b);
      KnownValue(pod, p, events, peer, Ready, b);
    } else {
      SpoiltValue(pod, p, events, Ready);
    }
  }

  /** A refreshed pod's label is decided from its health, its side and what it believes of its peer. */
  lemma RefreshedRole(pod: Pod, peer: Pod, p: nat, events: seq<PodEvent>, l: nat)
    requires Refreshed(events, p, l)
    requires pod.mode == 'A' || (Truthful(events, p, peer) && Polled(events[..l], p))
    ensures var before := events[..l];
      RunPod(pod, p, events).role == Active
      <==> (pod.Healthy() && (pod.mode == 'A'
            || !(Known(before, p, Start) && (!Known(before, p, Ready) || peer.Healthy()))))
  {
    var before := events[..l];
    LastLabel(pod, p, events, l);
    HealthStays(pod, p, before);
    var t :| 0 <= t < l && events[t] == Tick(p);
    TickedStatus(pod, p, before, t);
    if pod.mode != 'A' {
      Believes(pod, peer, p, before);
    }
  }

  /** Every label of a refreshed pod: forced unreadiness comes before a failed process, and that before the side. On the
      other side a healthy pod stands by exactly if it believes its peer ready. */
  lemma RefreshedLabel(pod: Pod, peer: Pod, p: nat, events: seq<PodEvent>, l: nat)
    requires Refreshed(events, p, l)
    ensures var role := RunPod(pod, p, events).role;
      && (role == ForceNotReady <==> pod.forced)
      && (role == ProcFailed <==> !pod.forced && !pod.allAlive)
      && (role in {Active, Standby} <==> pod.Healthy())
      && (pod.mode == 'A' ==> (role == Active <==> pod.Healthy()))
    ensures Truthful(events, p, peer) && Polled(events[..l], p) ==>
      var before := events[..l];
      (RunPod(pod, p, events).role == Standby
       <==> (pod.Healthy() && pod.mode != 'A'
             && Known(before, p, Start) && (!Known(before, p, Ready) || peer.Healthy())))
  {
    var before := events[..l];
    LastLabel(pod, p, events, l);
    HealthStays(pod, p, before);
    var t :| 0 <= t < l && events[t] == Tick(p);
    TickedStatus(pod, p, before, t);
    if Truthful(events, p, peer) && Polled(before, p) {
      assert Truthful(before, p, peer);
      Believes(pod, peer, p, before);
    }
  }

  function ActiveCount(a: Pod, b: Pod): nat {
    (if a.role == Active then 1 else 0) + (if b.role == Active then 1 else 0)
  }

  /** How many pods should be active: one if any can. */
  function Expected(a: Pod, s: Pod): nat {
    if a.Healthy() || s.Healthy() then 1 else 0
  }

  /** Modes AS and SA, `a` being the active side: from any state, once both pods are refreshed and the standby side was
      polled, as many pods are active as should be if and only if the standby side is unhealthy, or its peer is healthy
      and it knows of the start, or its peer is unhealthy and it does not know of the start or knows of the readiness.
      Otherwise there is one too many beside a healthy peer and one too few beside an unhealthy one. */
  lemma ExactlyOneActive(a: Pod, s: Pod, pa: nat, ps: nat, events: seq<PodEvent>, la: nat, ls: nat)
    requires a.mode == 'A' && s.mode != 'A' && Refreshed(events, pa, la) && Refreshed(events, ps, ls)
    requires Truthful(events, ps, a) && Polled(events[..ls], ps)
    ensures var count := ActiveCount(RunPod(a, pa, events), RunPod(s, ps, events));
      var start, ready := Known(events[..ls], ps, Start), Known(events[..ls], ps, Ready);
      && (count == Expected(a, s) <==> !s.Healthy() || (if a.Healthy() then start else !start || ready))
      && (count != Expected(a, s) ==> count == if a.Healthy() then 2 else 0)
  {
    hide Refreshed, Truthful, Polled, Known, RunPod;
    RefreshedRole(a, s, pa, events, la);
    RefreshedRole(s, a, ps, events, ls);
  }

  /** The four ways a poll of the standby side can end: answered, failed, or failed by half in either way. */
  lemma ByOutcome(a: Pod, s: Pod, pa: nat, ps: nat, events: seq<PodEvent>, la: nat, ls: nat)
    requires a.mode == 'A' && s.mode != 'A' && Refreshed(events, pa, la) && Refreshed(events, ps, ls)
    requires Truthful(events, ps, a) && Polled(events[..ls], ps)
    ensures var count := ActiveCount(RunPod(a, pa, events), RunPod(s, ps, events));
      match (Known(events[..ls], ps, Start), Known(events[..ls], ps, Ready))
      case (true, true) => count == Expected(a, s)
      case (true, false) => count == if a.Healthy() then 1 else 0
      case (false, _) => count == (if a.Healthy() then 1 else 0) + (if s.Healthy() then 1 else 0)
  {
    hide Refreshed, Truthful, Polled, Known, RunPod;
    RefreshedRole(a, s, pa, events, la);
    RefreshedRole(s, a, ps, events, ls);
  }

  /** Mode AA: exactly the healthy pods are active, whatever they hear. */
  lemma BothSidesActive(pod: Pod, p: nat, events: seq<PodEvent>, l: nat)
    requires pod.mode == 'A' && Refreshed(events, p, l)
    ensures RunPod(pod, p, events).role == Active <==> pod.Healthy()
  {
    LastLabel(pod, p, events, l);
    HealthStays(pod, p, events[..l]);
    var t :| 0 <= t < l && events[t] == Tick(p);
    TickedStatus(pod, p, events[..l], t);
  }

  const START_REPAIRED := [
    Reply(1, Ready, None), Reply(1, Start, Some(HTTP_OK)), Tick(0), Tick(1), UpdateLabel(0), UpdateLabel(1)]

  const READY_REPAIRED := [
    Reply(1, Start, None), Reply(1, Ready, Some(HTTP_OK)), Tick(0), Tick(1), UpdateLabel(0), UpdateLabel(1)]

  /** One run in which no pod is active although the standby side is healthy: a failed request spoils both values, the
      answer to /start repairs one, and the spoilt other one counts as a ready peer. */
  lemma NoneActive(a: Pod, s: Pod)
    requires a.mode == 'A' && s.mode != 'A' && !a.Healthy() && s.Healthy()
    ensures ActiveCount(RunPod(a, 0, START_REPAIRED), RunPod(s, 1, START_REPAIRED)) == 0
  {
    var events := START_REPAIRED;
    var before := events[..5];
    assert events[2] == Tick(0) && events[3] == Tick(1);
    assert Refreshed(events, 0, 4) && Refreshed(events, 1, 5);
    assert FailsAt(before, 1, 0);
    assert KnownAt(before, 1, Start, 1);
    ExactlyOneActive(a, s, 0, 1, events, 4, 5);
  }

  /** One run in which both are: the same failure, repaired by the answer to /ready alone. */
  lemma BothActive(a: Pod, s: Pod)
    requires a.mode == 'A' && s.mode != 'A' && a.Healthy() && s.Healthy()
    ensures ActiveCount(RunPod(a, 0, READY_REPAIRED), RunPod(s, 1, READY_REPAIRED)) == 2
  {
    var events := READY_REPAIRED;
    var before := events[..5];
    assert events[2] == Tick(0) && events[3] == Tick(1);
    assert Refreshed(events, 0, 4) && Refreshed(events, 1, 5);
    assert FailsAt(before, 1, 0);
    ExactlyOneActive(a, s, 0, 1, events, 4, 5);
  }

  // ---------------------------------------------------------------- the manager

  /** Every process of the list is alive. */
  predicate AllAlive(procs: seq<Entry<ProcCtx>>) {
    procs == [] || (procs[0].data.aliveStatus > 0 && AllAlive(procs[1..]))
  }

  /** One dead process is enough, and an empty list has none. */
  lemma {:induction false} AllAliveIs(procs: seq<Entry<ProcCtx>>)
    ensures AllAlive(procs) <==> forall i :: 0 <= i < |procs| ==> procs[i].data.aliveStatus > 0
  {
    if procs == [] {
    } else {
      AllAliveIs(procs[1..]);
      assert forall i :: 0 < i < |procs| ==> procs[i] == procs[1..][i-1];
    }
  }

  /** proc_check_all_alive. */
  function AliveChecker(): (string, ProcCtx, int) -> (Verdict<ProcCtx>, int) {
    (key: string, ctx: ProcCtx, all: int) => (Keep(ctx), if ctx.aliveStatus <= 0 then 0 else all)
  }

  lemma {:induction false} AliveSweeps(procs: seq<Entry<ProcCtx>>, all: int)
    ensures Swept(procs, AliveChecker(), all) == (procs, if AllAlive(procs) then all else 0)
  {
    if procs == [] {
    } else {
      AliveSweeps(procs[1..], if procs[0].data.aliveStatus <= 0 then 0 else all);
      assert [Entry(procs[0].key, procs[0].data)] + procs[1..] == procs;
    }
  }

  class Manager {
    var procs: NodeList<ProcCtx>
    var forceNotReady: int
    var mySysStatus: int
    var peerPodStart: int
    var peerPodReady: int
    var status: Label
    const confAsMode: string
    const confMySide: nat

    /** The context starts out zeroed. */
    constructor (mode: string, side: nat)
      requires side < |mode|
      ensures Valid() && fresh(procs) && fresh(procs.Repr) && procs.entries == []
      ensures State() == Pod(mode[side], true, false, 0, 0, 0, Unlabelled)
    {
      procs := new NodeList();
      forceNotReady, mySysStatus, peerPodStart, peerPodReady, status := 0, 0, 0, 0, Unlabelled;
      confAsMode, confMySide := mode, side;
    }

    ghost predicate Valid()
      reads this, procs, procs.elems
    {
      procs.Valid() && confMySide < |confAsMode| && (forceNotReady == 0 || forceNotReady == 1)
    }

    ghost function State(): Pod
      requires confMySide < |confAsMode|
      reads this, procs
    {
      Pod(confAsMode[confMySide], AllAlive(procs.entries), forceNotReady == 1,
          mySysStatus, peerPodStart, peerPodReady, status)
    }

    /** Whether list_element finds every process alive. */
    method CheckAll() returns (allPodAlive: int)
      requires Valid()
      modifies procs, procs.Repr
      ensures Valid() && procs.Repr == old(procs.Repr) && procs.entries == old(procs.entries)
      ensures allPodAlive == if AllAlive(procs.entries) then 1 else 0
    {
      hide AllAlive, Swept, AliveChecker, Sorted;
      AliveSweeps(procs.entries, 1);
      allPodAlive := procs.ListElement(RootIgnored, AliveChecker(), 1);
    }

    method MainTick()
      requires Valid()
      modifies this, procs, procs.Repr
      ensures Valid() && State() == TickStep(old(State())) && procs == old(procs) && procs.Repr == old(procs.Repr)
    {
      hide AllAlive, Sorted;
      var allPodAlive := CheckAll();
      mySysStatus := if allPodAlive > 0 then 1 else 0;
    }

    /** http_reply_pod_ready on GET. */
    method HttpReplyPodReady() returns (code: int)
      requires Valid()
      modifies procs, procs.Repr
      ensures Valid() && State() == old(State()) && procs.Repr == old(procs.Repr)
      ensures code == Answer(State(), Ready) == if State().Healthy() then 200 else 503
    {
      hide AllAlive, Sorted;
      if forceNotReady > 0 { return HTTP_UNAVAILABLE; }
      var allPodAlive := CheckAll();
      code := if allPodAlive > 0 then HTTP_OK else HTTP_UNAVAILABLE;
    }

    /** http_reply_pod_ready on PATCH; without a status nothing changes. */
    method HttpPatchPodReady(status: Option<int>) returns (code: int)
      requires Valid()
      modifies this`forceNotReady
      ensures Valid() && code == if status.None? then 503 else 200
      ensures State() == if status.None? then old(State()) else old(State()).(forced := status.value == 0)
    {
      if status.None? { return HTTP_UNAVAILABLE; }
      forceNotReady := if status.value == 0 then 1 else 0;
      code := HTTP_OK;
    }

    method HttpRecvReply(uri: Uri, code: Option<int>)
      requires Valid()
      modifies this`peerPodStart, this`peerPodReady
      ensures Valid() && State() == ReplyStep(old(State()), uri, code)
    {
      if code.None? {
        peerPodStart := -1;
        peerPodReady := -1;
      } else if uri == Start {
        peerPodStart := if code.value == 200 then 1 else 0;
      } else {
        peerPodReady := if code.value == 200 then 1 else 0;
      }
    }

    method MainUpdatePodLabel()
      requires Valid()
      modifies this`status
      ensures Valid() && State() == PodStep(old(State()), UpdateLabel(confMySide))
    {
      var statusMode := confAsMode[confMySide];
      if forceNotReady == 1 {
        status := ForceNotReady;
      } else if mySysStatus != 1 {
        status := ProcFailed;
      } else if statusMode == 'A' {
        status := Active;
      } else if peerPodStart > 0 && peerPodReady != 0 {
        status := Standby;
      } else {
        status := Active;
      }
    }
  }
}
