/** What the server's table says of a pod, over whole runs: which message each field of its record comes from. */
module TopoRecord {
  import opened Sequences
  import opened ElementList
  import opened TopoText
  import opened Registry
  import opened TopoServer

  /** The record the message carries. */
  function Sent(e: Event): NodeInfo
    requires e.Recv? && ParsePod(e.msg).Some?
  {
    ParsePod(e.msg).value
  }

  ghost predicate Present(events: seq<Event>, name: string) {
    exists i: nat :: LastHeard(events, name, i)
  }

  /** Event `f` names `name` when it is not in the table. */
  ghost predicate Registers(events: seq<Event>, name: string, f: nat) {
    f < |events| && Hears(events[f], name) && !Present(events[..f], name)
  }

  /** Event `f` is the last one that registered `name`. */
  ghost predicate RegisteredBy(events: seq<Event>, name: string, f: nat) {
    Registers(events, name, f) && forall k :: f < k < |events| ==> !Registers(events, name, k)
  }

  /** Event `p` is the last message of `name` before event `b`. */
  ghost predicate LastBefore(events: seq<Event>, name: string, p: nat, b: nat) {
    p < b <= |events| && Hears(events[p], name) && forall j :: p < j < b ==> !Hears(events[j], name)
  }

  ghost predicate Moved(events: seq<Event>, name: string, p: nat, b: nat)
    requires b < |events| && Hears(events[b], name)
  {
    LastBefore(events, name, p, b) && Sent(events[p]).Addresses() != Sent(events[b]).Addresses()
  }

  /** Event `b` registered `name` or came with other addresses than the message before it, and all its messages since
      came with the same ones and found it in the table. */
  ghost predicate SettledBy(events: seq<Event>, name: string, b: nat) {
    && b < |events| && Hears(events[b], name)
    && (Registers(events, name, b) || exists p: nat :: Moved(events, name, p, b))
    && forall j :: b < j < |events| && Hears(events[j], name) ==>
         !Registers(events, name, j) && Sent(events[j]).Addresses() == Sent(events[b]).Addresses()
  }

  // ---------------------------------------------------------------- one step

  /** What a readable message does to the record of its name. */
  lemma RecordAfter(records: Records, e: Event, name: string)
    requires Sorted(records) && Hears(e, name)
    ensures var m, m', info := AsMap(records), AsMap(ServerStep(records, e)), Sent(e);
      var shown := if info.podName != "" then info.podName else info.infoName;
      && name in m'
      && (name !in m ==> m'[name] == info.(heartbeat := e.at, infoName := shown))
      && (name in m && m[name].Addresses() == info.Addresses() ==> m'[name] == m[name].(heartbeat := e.at))
      && (name in m && m[name].Addresses() != info.Addresses() ==>
          m'[name] == info.(heartbeat := e.at, infoName := shown, mgntPort := m[name].mgntPort))
  {
    hide Sorted, AsMap, PodUpdate, ParsePod;
    PodUpdateMap(records, ParsePod(e.msg).value.(heartbeat := e.at));
  }

  lemma SplitLast(events: seq<Event>) returns (before: seq<Event>, e: Event)
    requires events != []
    ensures before == events[..|events|-1] && e == events[|events|-1] && events == before + [e]
  {
    before, e := events[..|events|-1], events[|events|-1];
  }

  lemma RegistersSnoc(before: seq<Event>, e: Event, name: string, f: nat)
    ensures Registers(before + [e], name, f)
            <==> if f == |before| then Hears(e, name) && !Present(before, name) else Registers(before, name, f)
  {
    hide Hears, Present;
    var events := before + [e];
    if f < |before| {
      assert events[..f] == before[..f] && events[f] == before[f];
    } else if f == |before| {
      assert events[..f] == before;
    }
  }

  /** A name in the table was last heard of in one event, and it is the last that names it. */
  lemma PresentBefore(start: Records, events: seq<Event>, name: string)
    requires IsStart(start) && WellBehaved(events) && name != OMP
    ensures Sorted(RunServer(start, events)) && (name in AsMap(RunServer(start, events)) <==> Present(events, name))
  {
    hide AsMap, RunServer, Sorted, LastHeard, WellBehaved;
    InTable(start, events, name);
  }

  lemma BehavedBefore(events: seq<Event>)
    requires WellBehaved(events) && events != []
    ensures WellBehaved(events[..|events|-1])
  {
    hide Hears;
  }

  lemma HeardBefore(before: seq<Event>, e: Event, name: string, i: nat)
    requires LastHeard(before + [e], name, i)
    ensures if Hears(e, name) then i == |before| else LastHeard(before, name, i)
  {
    LastHeardSnoc(before, e, name, i);
  }

  // ---------------------------------------------------------------- addresses

  /** A pod in the table stands there with the addresses of its last message. */
  lemma {:induction false} AddressesAre(start: Records, events: seq<Event>, name: string, i: nat)
    requires IsStart(start) && WellBehaved(events) && name != OMP && LastHeard(events, name, i)
    ensures var m := AsMap(RunServer(start, events));
      name in m && m[name].Addresses() == Sent(events[i]).Addresses()
    decreases |events|
  {
    var before, e := SplitLast(events);
    BehavedBefore(events);
    HeardBefore(before, e, name, i);
    PresentBefore(start, before, name);
    assert RunServer(start, events) == ServerStep(RunServer(start, before), e);
    hide AsMap, RunServer, ServerStep, LastHeard, WellBehaved, ParsePod, Present;
    if Hears(e, name) {
      RecordAfter(RunServer(start, before), e, name);
    } else {
      AddressesAre(start, before, name, i);
      PresentBefore(start, events, name);
      assert Present(events, name);
      StepEffect(RunServer(start, before), e, name);
    }
  }

  // ---------------------------------------------------------------- the port

  lemma RegisteredBefore(before: seq<Event>, e: Event, name: string, f: nat)
    requires RegisteredBy(before + [e], name, f)
    ensures if Hears(e, name) && !Present(before, name) then f == |before| else RegisteredBy(before, name, f)
  {
    hide Hears, Present, Registers;
    var events := before + [e];
    RegistersSnoc(before, e, name, f);
    RegistersSnoc(before, e, name, |before|);
    if f < |before| {
      forall k | f < k < |before| ensures !Registers(before, name, k) {
        RegistersSnoc(before, e, name, k);
      }
    }
    RegistersBound(events, name, f);
  }

  lemma RegistersBound(events: seq<Event>, name: string, f: nat)
    requires Registers(events, name, f)
    ensures f < |events| && Hears(events[f], name)
  {
  }

  /** A pod in the table keeps the port it registered with. */
  lemma {:induction false} PortIs(start: Records, events: seq<Event>, name: string, f: nat)
    requires IsStart(start) && WellBehaved(events) && name != OMP
    requires Present(events, name) && RegisteredBy(events, name, f)
    ensures var m := AsMap(RunServer(start, events));
      f < |events| && Hears(events[f], name) && name in m && m[name].mgntPort == Sent(events[f]).mgntPort
    decreases |events|
  {
    var before, e := SplitLast(events);
    RegistersBound(events, name, f);
    BehavedBefore(events);
    RegisteredBefore(before, e, name, f);
    PresentBefore(start, before, name);
    PresentBefore(start, events, name);
    assert RunServer(start, events) == ServerStep(RunServer(start, before), e);
    hide AsMap, RunServer, ServerStep, WellBehaved, ParsePod, RegisteredBy, Present;
    if Hears(e, name) && !Present(before, name) {
      RecordAfter(RunServer(start, before), e, name);
    } else {
      if !Hears(e, name) { StillPresent(before, e, name); }
      PortIs(start, before, name, f);
      StepEffect(RunServer(start, before), e, name);
    }
  }

  lemma StillPresent(before: seq<Event>, e: Event, name: string)
    requires Present(before + [e], name) && !Hears(e, name)
    ensures Present(before, name)
  {
    hide LastHeard, Hears;
    var i: nat :| LastHeard(before + [e], name, i);
    HeardBefore(before, e, name, i);
  }

  // ---------------------------------------------------------------- everything else

  /** The fields of a record besides port and heartbeat. */
  function Body(info: NodeInfo): NodeInfo {
    info.(mgntPort := "", heartbeat := 0)
  }

  /** The message's own record, under the pod's name if it gives one. */
  function Shown(info: NodeInfo): NodeInfo {
    info.(infoName := if info.podName != "" then info.podName else info.infoName)
  }

  lemma MovedSnoc(before: seq<Event>, e: Event, name: string, p: nat, b: nat)
    requires b < |before| && Hears(before[b], name)
    ensures Moved(before + [e], name, p, b) <==> Moved(before, name, p, b)
  {
    hide Hears, ParsePod;
    assert forall j :: 0 <= j < |before| ==> (before + [e])[j] == before[j];
  }

  lemma SettledBefore(before: seq<Event>, e: Event, name: string, b: nat)
    requires SettledBy(before + [e], name, b) && b < |before|
    ensures SettledBy(before, name, b)
    ensures Hears(e, name) ==> Present(before, name) && Sent(e).Addresses() == Sent(before[b]).Addresses()
  {
    var events := before + [e];
    assert forall j :: 0 <= j < |before| ==> events[j] == before[j];
    assert events[|before|] == e;
    hide Hears, Present, Registers, ParsePod, LastBefore;
    RegistersSnoc(before, e, name, b);
    RegistersSnoc(before, e, name, |before|);
    forall j | b < j < |before| ensures Registers(before, name, j) <==> Registers(events, name, j) {
      RegistersSnoc(before, e, name, j);
    }
    if !Registers(before, name, b) {
      var p: nat :| Moved(events, name, p, b);
      MovedSnoc(before, e, name, p, b);
    }
  }

  /** Since it settled, a name was last heard of with the same addresses. */
  lemma SameSince(events: seq<Event>, name: string, b: nat, i: nat)
    requires SettledBy(events, name, b) && LastHeard(events, name, i)
    ensures i >= b && Sent(events[i]).Addresses() == Sent(events[b]).Addresses()
  {
    hide Hears, Present, Registers, ParsePod, Moved;
  }

  lemma LastBeforeIs(before: seq<Event>, e: Event, name: string, p: nat, i: nat)
    requires LastBefore(before + [e], name, p, |before|) && LastHeard(before, name, i)
    ensures p == i
  {
    hide Hears;
    assert forall j :: 0 <= j < |before| ==> (before + [e])[j] == before[j];
  }

  /** A pod in the table stands there, port and heartbeat apart, as the message said that registered it or last changed
      its addresses. */
  lemma {:induction false} BodyIs(start: Records, events: seq<Event>, name: string, b: nat)
    requires IsStart(start) && WellBehaved(events) && name != OMP
    requires Present(events, name) && SettledBy(events, name, b)
    ensures var m := AsMap(RunServer(start, events));
      b < |events| && Hears(events[b], name) && name in m && Body(m[name]) == Body(Shown(Sent(events[b])))
    decreases |events|
  {
    var before, e := SplitLast(events);
    BehavedBefore(events);
    PresentBefore(start, before, name);
    PresentBefore(start, events, name);
    assert b < |events| && Hears(events[b], name);
    assert RunServer(start, events) == ServerStep(RunServer(start, before), e);
    hide AsMap, RunServer, ServerStep, WellBehaved, ParsePod, Registers, LastHeard;
    if b == |before| {
      RecordAfter(RunServer(start, before), e, name);
      if Present(before, name) {
        RegistersSnoc(before, e, name, b);
        var i: nat :| LastHeard(before, name, i);
        AddressesAre(start, before, name, i);
        var p: nat :| Moved(events, name, p, b);
        LastBeforeIs(before, e, name, p, i);
      }
    } else {
      SettledBefore(before, e, name, b);
      if !Hears(e, name) {
        StillPresent(before, e, name);
        StepEffect(RunServer(start, before), e, name);
      } else {
        var i: nat :| LastHeard(before, name, i);
        AddressesAre(start, before, name, i);
        SameSince(before, name, b, i);
        RecordAfter(RunServer(start, before), e, name);
      }
      hide SettledBy;
      BodyIs(start, before, name, b);
    }
  }

  /** The whole record of a pod in the table: the port of the message that registered it, the time of its last message,
      and all the rest of the message that registered it or last changed its addresses. */
  lemma RecordIs(start: Records, events: seq<Event>, name: string, f: nat, b: nat, i: nat)
    requires IsStart(start) && WellBehaved(events) && name != OMP
    requires RegisteredBy(events, name, f) && SettledBy(events, name, b) && LastHeard(events, name, i)
    ensures var m := AsMap(RunServer(start, events));
      && f < |events| && b < |events| && Hears(events[f], name) && Hears(events[b], name) && name in m
      && m[name] == Shown(Sent(events[b])).(mgntPort := Sent(events[f]).mgntPort, heartbeat := events[i].at)
  {
    assert Present(events, name);
    PortIs(start, events, name, f);
    BodyIs(start, events, name, b);
    InTable(start, events, name);
    hide AsMap, RunServer, RegisteredBy, SettledBy, LastHeard, Present, ParsePod, WellBehaved;
  }

  /** There are always such messages. */
  lemma {:induction false} OriginsExist(events: seq<Event>, name: string)
    requires Present(events, name)
    ensures exists f: nat :: RegisteredBy(events, name, f)
    ensures exists b: nat :: SettledBy(events, name, b)
    decreases |events|
  {
    PresentSome(events, name);
    var before, e := SplitLast(events);
    if Hears(e, name) && !Present(before, name) {
      RegistersSnoc(before, e, name, |before|);
      assert RegisteredBy(events, name, |before|);
      assert SettledBy(events, name, |before|);
    } else {
      if !Hears(e, name) { StillPresent(before, e, name); }
      OriginsExist(before, name);
      var f: nat :| RegisteredBy(before, name, f);
      RegisteredAfter(before, e, name, f);
      var b: nat :| SettledBy(before, name, b);
      SettledAfter(before, e, name, b);
    }
  }

  lemma PresentSome(events: seq<Event>, name: string)
    requires Present(events, name)
    ensures events != []
  {
    var i: nat :| LastHeard(events, name, i);
  }

  lemma RegisteredAfter(before: seq<Event>, e: Event, name: string, f: nat)
    requires RegisteredBy(before, name, f) && !(Hears(e, name) && !Present(before, name))
    ensures RegisteredBy(before + [e], name, f)
  {
    hide Hears, Present, Registers;
    RegistersBound(before, name, f);
    forall k | f <= k <= |before|
      ensures Registers(before + [e], name, k) <==> k < |before| && Registers(before, name, k)
    {
      RegistersSnoc(before, e, name, k);
    }
  }

  lemma SettledAfter(before: seq<Event>, e: Event, name: string, b: nat)
    requires SettledBy(before, name, b) && Present(before, name)
    ensures exists c: nat :: SettledBy(before + [e], name, c)
  {
    var events := before + [e];
    var i: nat :| LastHeard(before, name, i);
    SameSince(before, name, b, i);
    assert forall j :: 0 <= j < |before| ==> events[j] == before[j];
    assert events[|before|] == e;
    RegistersSnoc(before, e, name, b);
    RegistersSnoc(before, e, name, |before|);
    if Hears(e, name) && Sent(e).Addresses() != Sent(before[i]).Addresses() {
      assert Moved(events, name, i, |before|);
      assert SettledBy(events, name, |before|);
    } else {
      hide Hears, Present, Registers, ParsePod, LastBefore;
      forall j | b < j < |before| ensures Registers(before, name, j) <==> Registers(events, name, j) {
        RegistersSnoc(before, e, name, j);
      }
      if !Registers(before, name, b) {
        var p: nat :| Moved(before, name, p, b);
        MovedSnoc(before, e, name, p, b);
      }
      assert SettledBy(events, name, b);
    }
  }

  // ---------------------------------------------------------------- the result

  /** What the server makes of its next message: added if the name is not in the table, updated if it was last heard of
      with the same addresses, replaced otherwise, and a failure exactly if it cannot be read. */
  lemma ResultIs(start: Records, events: seq<Event>, msg: string, at: int)
    requires IsStart(start) && WellBehaved(events)
    ensures var res, parsed := PodStep(RunServer(start, events), msg, at).1, ParsePod(msg);
      && (res == NpFailed <==> parsed.None?)
      && (parsed.Some? && parsed.value.name != OMP && !Present(events, parsed.value.name) ==> res == NpAdd)
      && (forall i: nat :: parsed.Some? && parsed.value.name != OMP && LastHeard(events, parsed.value.name, i) ==>
          res == if Sent(events[i]).Addresses() == parsed.value.Addresses() then NpUptm else NpRep)
  {
    hide AsMap, RunServer, WellBehaved, ParsePod;
    var parsed := ParsePod(msg);
    if parsed.Some? && parsed.value.name != OMP {
      var records, name := RunServer(start, events), parsed.value.name;
      PresentBefore(start, events, name);
      AsMapKeys(records, name);
      forall i: nat | LastHeard(events, name, i)
        ensures PodStep(records, msg, at).1
                == if Sent(events[i]).Addresses() == parsed.value.Addresses() then NpUptm else NpRep
      {
        AddressesAre(start, events, name, i);
        assert Present(events, name);
      }
    }
  }

  /** The OMP record stays as it was at the start. */
  lemma {:induction false} OmpStays(start: Records, events: seq<Event>)
    requires IsStart(start) && WellBehaved(events)
    ensures var m := AsMap(RunServer(start, events)); OMP in m && m[OMP] == start[0].data
    decreases |events|
  {
    if events == [] {
      AsMapKeys(start, OMP);
    } else {
      var before, e := SplitLast(events);
      BehavedBefore(events);
      OmpStays(start, before);
      InTable(start, before, OMP);
      InTable(start, events, OMP);
      assert !Hears(e, OMP);
      StepEffect(RunServer(start, before), e, OMP);
    }
  }
}
