/** The server's table over whole runs: pod messages and one-second ticks, in the order they are handled. */
module TopoServer {
  import opened Sequences
  import opened ElementList
  import opened TopoText
  import opened Registry
  import opened TopoClient

  const OMP := "OMP"

  datatype Event = Recv(msg: string, at: int) | Tick(at: int)

  /** The event is a message the server can read, and it names `name`. */
  predicate Hears(e: Event, name: string) {
    e.Recv? && ParsePod(e.msg).Some? && ParsePod(e.msg).value.name == name
  }

  /** udp_server_proc up to its reply, and main_tick. */
  function ServerStep(records: Records, e: Event): Records {
    match e
    case Recv(msg, at) => PodStep(records, msg, at).0
    case Tick(at) => Filter(records, Fresh(at))
  }

  function RunServer(start: Records, events: seq<Event>): Records {
    if events == [] then start
    else ServerStep(RunServer(start, events[..|events|-1]), events[|events|-1])
  }

  /** A server starts with the OMP record alone, which no message has touched. */
  ghost predicate IsStart(start: Records) {
    |start| == 1 && start[0].key == OMP && start[0].data.name == OMP && start[0].data.heartbeat == 0
  }

  /** The clock has been set and never runs backwards; no pod calls itself OMP. */
  ghost predicate WellBehaved(events: seq<Event>) {
    && (forall i :: 0 <= i < |events| ==> events[i].at > 0 && !Hears(events[i], OMP))
    && (forall i, j :: 0 <= i < j < |events| ==> events[i].at <= events[j].at)
  }

  // ---------------------------------------------------------------- one step, on the map

  /** The record a pod's message leaves under its name. */
  function PodRecord(m: map<string, NodeInfo>, info: NodeInfo): NodeInfo {
    if info.name !in m then Named(info)
    else if m[info.name].Addresses() == info.Addresses() then m[info.name].(heartbeat := info.heartbeat)
    else Named(info.(mgntPort := m[info.name].mgntPort))
  }

  lemma PodUpdateMap(records: Records, info: NodeInfo)
    requires Sorted(records)
    ensures var r := PodUpdate(records, info).0;
      Sorted(r) && AsMap(r) == AsMap(records)[info.name := PodRecord(AsMap(records), info)]
  {
    hide Sorted, AsMap, Insert, Replace;
    var i := IndexOf(records, info.name);
    AsMapKeys(records, info.name);
    if i == |records| {
      InsertIsUpdate(records, Entry(info.name, Named(info)));
      InsertSorted(records, Entry(info.name, Named(info)));
    } else if records[i].data.Addresses() == info.Addresses() {
      SetIsUpdate(records, i, records[i].data.(heartbeat := info.heartbeat));
    } else {
      ReplaceIsUpdate(records, i, Named(info.(mgntPort := records[i].data.mgntPort)));
    }
  }

  /** What a step does to the record of one name. */
  lemma StepEffect(records: Records, e: Event, name: string)
    requires Sorted(records)
    ensures var m, m' := AsMap(records), AsMap(ServerStep(records, e));
      && Sorted(ServerStep(records, e))
      && (Hears(e, name) ==> (name in m' && m'[name].heartbeat == e.at
                              && (name in m ==> m'[name].mgntPort == m[name].mgntPort)))
      && (!Hears(e, name) ==> (name in m' <==> name in m && (e.Tick? ==> Fresh(e.at)(m[name]))))
      && (!Hears(e, name) && name in m' ==> m'[name] == m[name])
  {
    hide Sorted, AsMap, PodUpdate, ParsePod, Filter;
    match e {
      case Recv(msg, at) =>
        if ParsePod(msg).Some? {
          PodUpdateMap(records, ParsePod(msg).value.(heartbeat := at));
        }
      case Tick(at) =>
        FilterSorted(records, Fresh(at));
        FilterMap(records, Fresh(at));
    }
  }

  // ---------------------------------------------------------------- who is in the table

  /** Event `i` is the last message naming `name`, and every tick since then came less than 60 seconds after it. */
  ghost predicate LastHeard(events: seq<Event>, name: string, i: nat)
    ensures LastHeard(events, name, i) ==> i < |events|
  {
    && i < |events| && Hears(events[i], name)
    && (forall j :: i < j < |events| ==> !Hears(events[j], name))
    && (forall j :: i < j < |events| && events[j].Tick? ==> events[j].at - events[i].at < 60)
  }

  /** Over all runs: the names stay unique and sorted, the OMP record stays, and any other name is in the table
      exactly if it has been heard from and no tick since its last message came 60 seconds or more after it. */
  lemma {:induction false} InTable(start: Records, events: seq<Event>, name: string)
    requires IsStart(start) && WellBehaved(events)
    ensures var m := AsMap(RunServer(start, events));
      && Sorted(RunServer(start, events))
      && (name == OMP ==> name in m && m[name].heartbeat == 0)
      && (name != OMP ==> (name in m <==> exists i: nat :: LastHeard(events, name, i)))
      && (name != OMP ==> forall i: nat :: LastHeard(events, name, i) ==> m[name].heartbeat == events[i].at)
    decreases |events|
  {
    hide Sorted, AsMap, ServerStep, Hears, LastHeard;
    if events == [] {
      NeverHeard(name);
      StartMap(start, name);
    } else {
      var k := |events| - 1;
      var before, e := events[..k], events[k];
      InTable(start, before, name);
      StepEffect(RunServer(start, before), e, name);
      if name != OMP {
        forall i: nat ensures LastHeard(events, name, i) <==> LastAfter(before, e, name, i) {
          LastHeardSnoc(before, e, name, i);
          assert before + [e] == events;
        }
        if Hears(e, name) {
          assert LastAfter(before, e, name, k);
        } else if i: nat :| LastHeard(before, name, i) {
          LastHeardOnce(before, name, i);
          assert LastHeard(events, name, i) <==> LastAfter(before, e, name, i);
        }
      }
    }
  }

  /** LastHeard one event later. */
  ghost predicate LastAfter(before: seq<Event>, e: Event, name: string, i: nat) {
    if Hears(e, name) then i == |before|
    else LastHeard(before, name, i) && (e.Tick? ==> e.at - before[i].at < 60)
  }

  lemma LastHeardSnoc(before: seq<Event>, e: Event, name: string, i: nat)
    ensures LastHeard(before + [e], name, i) <==> LastAfter(before, e, name, i)
  {
    hide Hears;
    var events := before + [e];
    assert forall j :: 0 <= j < |before| ==> events[j] == before[j];
    assert events[|before|] == e;
  }

  lemma LastHeardOnce(events: seq<Event>, name: string, i: nat)
    requires LastHeard(events, name, i)
    ensures forall j: nat :: LastHeard(events, name, j) ==> j == i
  {
    hide Hears;
  }

  lemma NeverHeard(name: string)
    ensures forall i: nat :: !LastHeard([], name, i)
  {
  }

  lemma StartMap(start: Records, name: string)
    requires IsStart(start)
    ensures Sorted(start) && (name in AsMap(start) <==> name == OMP)
    ensures AsMap(start)[OMP].heartbeat == 0
  {
    AsMapKeys(start, name);
    AsMapKeys(start, OMP);
  }

  // ---------------------------------------------------------------- what follows

  /** After a tick every other record was heard from less than 60 seconds ago, and carries that time. */
  lemma AfterTick(start: Records, events: seq<Event>, name: string)
    requires IsStart(start) && WellBehaved(events) && events != [] && events[|events|-1].Tick?
    requires name != OMP && name in AsMap(RunServer(start, events))
    ensures exists i: nat :: (i < |events| && Hears(events[i], name)
                              && events[|events|-1].at - events[i].at < 60
                              && AsMap(RunServer(start, events))[name].heartbeat == events[i].at)
  {
    hide AsMap, RunServer;
    InTable(start, events, name);
    var i: nat :| LastHeard(events, name, i);
    assert !Hears(events[|events|-1], name);
  }

  /** From event `first` on, each message of `name` is followed by another one less than 60 seconds later, as far
      as the run goes on that long. */
  ghost predicate KeepsTalking(events: seq<Event>, name: string, first: nat) {
    && first < |events| && Hears(events[first], name)
    && forall i :: first <= i < |events| && Hears(events[i], name) ==>
         (events[|events|-1].at - events[i].at < 60 || exists j :: Answers(events, name, i, j))
  }

  ghost predicate Answers(events: seq<Event>, name: string, i: nat, j: nat) {
    i < j < |events| && Hears(events[j], name) && events[j].at - events[i].at < 60
  }

  lemma {:induction false} LastMessage(events: seq<Event>, name: string, first: nat, n: nat) returns (i: nat)
    requires first < n <= |events| && Hears(events[first], name)
    ensures first <= i < n && Hears(events[i], name) && forall j :: i < j < n ==> !Hears(events[j], name)
  {
    if Hears(events[n-1], name) || n - 1 == first { i := n - 1; }
    else { i := LastMessage(events, name, first, n - 1); }
  }

  /** A pod whose messages are always less than 60 seconds apart is never removed. */
  lemma NeverRemoved(start: Records, events: seq<Event>, name: string, first: nat, n: nat)
    requires IsStart(start) && WellBehaved(events) && name != OMP
    requires KeepsTalking(events, name, first) && first < n <= |events|
    ensures name in AsMap(RunServer(start, events[..n]))
  {
    hide AsMap, RunServer, Hears;
    var i := LastMessage(events, name, first, n);
    if events[|events|-1].at - events[i].at >= 60 {
      var j: nat :| Answers(events, name, i, j);
      assert j >= n;
      assert events[n-1].at <= events[j].at;
    }
    assert events[n-1].at - events[i].at < 60;
    assert LastHeard(events[..n], name, i);
    InTable(start, events[..n], name);
  }

  /** As long as a name stays in the table its management port does not change, even when it is replaced. */
  lemma {:induction false} PortStays(start: Records, events: seq<Event>, name: string, from: nat, n: nat)
    requires IsStart(start) && WellBehaved(events) && from <= n <= |events|
    requires forall k :: from <= k <= n ==> name in AsMap(RunServer(start, events[..k]))
    ensures AsMap(RunServer(start, events[..n]))[name].mgntPort
      == AsMap(RunServer(start, events[..from]))[name].mgntPort
  {
    hide AsMap, ServerStep, RunServer, WellBehaved, IsStart, Hears;
    if from >= n {
    } else {
      PortStays(start, events, name, from, n - 1);
      RunOneMore(start, events, n - 1);
      StepEffect(RunServer(start, events[..n-1]), events[n-1], name);
    }
  }

  lemma RunOneMore(start: Records, events: seq<Event>, n: nat)
    requires IsStart(start) && WellBehaved(events) && n < |events|
    ensures Sorted(RunServer(start, events[..n]))
    ensures RunServer(start, events[..n+1]) == ServerStep(RunServer(start, events[..n]), events[n])
  {
    hide AsMap, ServerStep, Hears;
    InTable(start, events[..n], OMP);
    assert events[..n+1][..n] == events[..n];
  }

  // ---------------------------------------------------------------- the server's procedures

  /** The end of init_omp_server: a table with the OMP record. */
  method InitServer(omp: NodeInfo) returns (table: Table)
    requires omp.name == OMP && omp.heartbeat == 0
    ensures fresh(table) && fresh(table.list) && fresh(table.list.Repr) && table.Valid()
    ensures table.Records() == [Entry(OMP, omp)] && IsStart(table.Records())
  {
    table := new Table();
    hide Sorted;
    var _ := table.Add(omp);
  }

  /** udp_server_proc: the message goes into the table, then the whole table goes back to the sender. */
  method UdpServerProc(table: Table, msg: string, now: int) returns (reply: Option<string>)
    requires table.Valid()
    modifies table.list, table.list.Repr
    ensures table.Valid() && fresh(table.list.Repr - old(table.list.Repr))
    ensures table.Records() == ServerStep(old(table.Records()), Recv(msg, now))
    ensures reply == if ParsePod(msg).None? then None else Some(Reply(Infos(table.Records())))
  {
    hide Table.Valid, Table.Records, ParsePod;
    var res := table.ProcPodSendInfo(msg, now);
    if res == NpFailed { return None; }
    var text := table.ReplyMsg();
    reply := Some(text);
  }

  /** main_tick. */
  method MainTick(table: Table, now: int) returns (cleanupCount: nat)
    requires table.Valid()
    modifies table.list, table.list.Repr
    ensures table.Valid() && table.list.Repr == old(table.list.Repr)
    ensures table.Records() == ServerStep(old(table.Records()), Tick(now))
    ensures cleanupCount + |table.Records()| == |old(table.Records())|
  {
    cleanupCount := table.Cleanup(now);
  }
}
