/** One server, its clients, and a network that may lose, delay and repeat what it carries. */
module TopoSystem {
  import opened Sequences
  import opened ElementList
  import opened TopoText
  import opened Registry
  import opened TopoClient
  import opened TopoServer

  const TOPO_MAX_BUFFER := 10240

  datatype Request = Request(sock: nat, msg: string)

  /** `moment` is the place in the server's history of the table the text was printed from. */
  datatype Answer = Answer(sock: nat, text: string, moment: nat)

  /** A client asks on a socket of its own for each request. `moment` tells which table it mirrors: a place in the
      server's history, or -1 for the empty table it starts with. */
  datatype Client = Client(records: Records, waiting: Option<nat>, moment: int)

  /** `asked[sock]` is how far the history had come when the request on that socket was sent. */
  datatype System = System(
    history: seq<Records>, requests: set<Request>, answers: set<Answer>, clients: seq<Client>, asked: map<nat, nat>)
  {
    function Server(): Records
      requires |history| > 0
    {
      history[|history|-1]
    }
  }

  datatype Step =
    | Send(c: nat, sock: nat, msg: string)
    | Serve(request: Request, at: int)
    | ServerTick(at: int)
    | Receive(c: nat, answer: Answer)
    | Timeout(c: nat)

  /** A message whose record clients can read. */
  predicate Sendable(msg: string) {
    ParsePod(msg).Some? && Readable(ParsePod(msg).value) && Readable(Named(ParsePod(msg).value))
  }

  function Served(s: System, msg: string, at: int): Records
    requires |s.history| > 0
  {
    ServerStep(s.Server(), Recv(msg, at))
  }

  /** A request gets a new socket; an answer counts on the socket of its request alone, while that is open. The reply
      has to fit the buffer. */
  ghost predicate Enabled(s: System, step: Step)
    requires |s.history| > 0
  {
    match step
    case Send(c, sock, msg) => c < |s.clients| && s.clients[c].waiting.None? && sock !in s.asked && Sendable(msg)
    case Serve(request, at) => request in s.requests && |Reply(Infos(Served(s, request.msg, at)))| < TOPO_MAX_BUFFER
    case ServerTick(at) => true
    case Receive(c, answer) => c < |s.clients| && answer in s.answers && s.clients[c].waiting == Some(answer.sock)
    case Timeout(c) => c < |s.clients|
  }

  function Apply(s: System, step: Step): System
    requires |s.history| > 0 && Enabled(s, step)
  {
    match step
    case Send(c, sock, msg) =>
      s.(requests := s.requests + {Request(sock, msg)}, asked := s.asked[sock := |s.history| - 1],
         clients := s.clients[c := s.clients[c].(waiting := Some(sock))])
    case Serve(request, at) =>
      var table := Served(s, request.msg, at);
      s.(history := s.history + [table],
         answers := s.answers + {Answer(request.sock, Reply(Infos(table)), |s.history|)})
    case ServerTick(at) => s.(history := s.history + [ServerStep(s.Server(), Tick(at))])
    case Receive(c, answer) =>
      var records := ClientStep(s.clients[c].records, answer.text).0;
      s.(clients := s.clients[c := Client(records, None, answer.moment)])
    case Timeout(c) => s.(clients := s.clients[c := s.clients[c].(waiting := None)])
  }

  ghost predicate Init(s: System) {
    && |s.history| == 1 && IsStart(s.history[0]) && Readable(s.history[0][0].data)
    && s.requests == {} && s.answers == {} && s.asked == map[]
    && forall c :: 0 <= c < |s.clients| ==> s.clients[c] == Client([], None, -1)
  }

  // ---------------------------------------------------------------- well-formed tables stay well formed

  lemma PodKeepsWellFormed(records: Records, info: NodeInfo)
    requires WellFormed(records) && Readable(info) && Readable(Named(info))
    ensures WellFormed(PodUpdate(records, info).0)
  {
    hide Sorted, Insert;
    var i := IndexOf(records, info.name);
    PodUpdateMap(records, info);
    if i == |records| {
      InsertKeepsReadable(records, Entry(info.name, Named(info)));
    } else if records[i].data.Addresses() != info.Addresses() {
      var record := Named(info.(mgntPort := records[i].data.mgntPort));
      PortReadable(info, records[i].data);
      InsertKeepsReadable(RemoveAt(records, i), Entry(info.name, record));
    } else {
      HeartbeatReadable(records[i].data, info.heartbeat);
    }
  }

  lemma HeartbeatReadable(info: NodeInfo, at: int)
    requires Readable(info)
    ensures Readable(info.(heartbeat := at))
  {
    assert info.(heartbeat := at).Fields() == info.Fields();
  }

  lemma PortReadable(info: NodeInfo, already: NodeInfo)
    requires Readable(Named(info)) && Readable(already)
    ensures Readable(Named(info.(mgntPort := already.mgntPort)))
  {
    var f := Named(info.(mgntPort := already.mgntPort)).Fields();
    assert f == Named(info).Fields()[5 := already.Fields()[5]];
  }

  lemma InsertKeepsReadable(records: Records, e: Entry<NodeInfo>)
    requires forall i :: 0 <= i < |records| ==> records[i].key == records[i].data.name && Readable(records[i].data)
    requires e.key == e.data.name && Readable(e.data)
    ensures var t := Insert(records, e);
      forall i :: 0 <= i < |t| ==> t[i].key == t[i].data.name && Readable(t[i].data)
  {
    hide Readable, Position;
  }

  lemma FilterKeepsWellFormed(records: Records, keep: NodeInfo -> bool)
    requires WellFormed(records)
    ensures WellFormed(Filter(records, keep))
  {
    hide Sorted, Readable, Filter;
    FilterSorted(records, keep);
  }

  lemma ServedWellFormed(records: Records, msg: string, at: int)
    requires WellFormed(records) && Sendable(msg)
    ensures WellFormed(ServerStep(records, Recv(msg, at)))
  {
    hide WellFormed, PodUpdate, ParsePod;
    var info := ParsePod(msg).value;
    HeartbeatReadable(info, at);
    HeartbeatReadable(Named(info), at);
    PodKeepsWellFormed(records, info.(heartbeat := at));
  }

  // ---------------------------------------------------------------- the invariant

  /** What a client can see of the table of moment `m`. */
  function Snapshot(history: seq<Records>, m: int): map<string, (string, string)>
    requires m < |history|
  {
    if m < 0 then map[] else Mirror(history[m])
  }

  /** An answer carries a table no older than its request. */
  ghost predicate AnswerOk(s: System, a: Answer) {
    && a.moment < |s.history| && a.text == Reply(Infos(s.history[a.moment]))
    && a.sock in s.asked && s.asked[a.sock] <= a.moment
  }

  /** A client mirrors the table of its moment, and asks for nothing older. */
  ghost predicate ClientOk(s: System, c: Client) {
    && -1 <= c.moment < |s.history| && Sorted(c.records) && Mirror(c.records) == Snapshot(s.history, c.moment)
    && (c.waiting.Some? ==> c.waiting.value in s.asked && c.moment <= s.asked[c.waiting.value])
  }

  ghost predicate Inv(s: System) {
    && |s.history| > 0 && (forall i :: 0 <= i < |s.history| ==> WellFormed(s.history[i]))
    && (forall r :: r in s.requests ==> Sendable(r.msg) && r.sock in s.asked)
    && (forall a :: a in s.answers ==> AnswerOk(s, a))
    && (forall sock :: sock in s.asked ==> s.asked[sock] < |s.history|)
    && (forall i :: 0 <= i < |s.clients| ==> ClientOk(s, s.clients[i]))
  }

  lemma InitHolds(s: System)
    requires Init(s)
    ensures Inv(s)
  {
    hide Readable;
  }

  /** A longer history, more answers and more open sockets keep answers and clients as they were. */
  lemma Grows(s: System, t: System)
    requires Inv(s) && s.history <= t.history
    requires forall sock :: sock in s.asked ==> sock in t.asked && t.asked[sock] == s.asked[sock]
    ensures forall a :: AnswerOk(s, a) ==> AnswerOk(t, a)
    ensures forall c :: ClientOk(s, c) ==> ClientOk(t, c)
  {
    hide WellFormed, Mirror, Reply, Sendable, Sorted;
    forall m: nat | m < |s.history| ensures t.history[m] == s.history[m] {
    }
  }

  /** A client that takes in an answer mirrors the table the answer was printed from. */
  lemma ReceiveOk(s: System, c: Client, a: Answer)
    requires Inv(s) && ClientOk(s, c) && a in s.answers
    ensures ClientOk(s, Client(ClientStep(c.records, a.text).0, None, a.moment))
  {
    hide WellFormed, Mirror, Reply, Sendable, Sorted, ClientStep;
    assert AnswerOk(s, a);
    ClientMirrors(c.records, s.history[a.moment]);
  }

  lemma StepKeepsInv(s: System, step: Step)
    requires Inv(s) && Enabled(s, step)
    ensures Inv(Apply(s, step))
  {
    hide WellFormed, Mirror, Reply, Sendable, Sorted, ClientStep, AnswerOk, ClientOk, ServerStep;
    var t := Apply(s, step);
    Grows(s, t);
    match step {
      case Send(c, sock, msg) => SendOk(s, c, sock, t);
      case Serve(request, at) =>
        ServedWellFormed(s.Server(), request.msg, at);
        AnswerHolds(s, request, t);
      case ServerTick(at) => FilterKeepsWellFormed(s.Server(), Fresh(at)); TickIs(s.Server(), at);
      case Receive(c, answer) => ReceiveOk(s, s.clients[c], answer); SameHistory(s, t);
      case Timeout(c) => TimeoutOk(s, s.clients[c]); SameHistory(s, t);
    }
  }

  lemma TickIs(records: Records, at: int)
    ensures ServerStep(records, Tick(at)) == Filter(records, Fresh(at))
  {
  }

  lemma SameHistory(s: System, t: System)
    requires s.history == t.history && s.asked == t.asked
    ensures forall c :: ClientOk(s, c) <==> ClientOk(t, c)
  {
  }

  lemma TimeoutOk(s: System, c: Client)
    requires ClientOk(s, c)
    ensures ClientOk(s, c.(waiting := None))
  {
  }

  lemma SendOk(s: System, c: nat, sock: nat, t: System)
    requires |s.history| > 0 && c < |s.clients| && ClientOk(s, s.clients[c])
    requires t.history == s.history && t.asked == s.asked[sock := |s.history| - 1]
    ensures ClientOk(t, s.clients[c].(waiting := Some(sock)))
  {
  }

  lemma AnswerHolds(s: System, request: Request, t: System)
    requires Inv(s) && request in s.requests && t.asked == s.asked
    requires |t.history| == |s.history| + 1
    ensures AnswerOk(t, Answer(request.sock, Reply(Infos(t.Server())), |s.history|))
  {
    hide Reply, WellFormed;
  }

  // ---------------------------------------------------------------- whole runs

  /** A run: each state follows from the one before by an enabled step. */
  ghost predicate Behavior(states: seq<System>, steps: seq<Step>) {
    && |states| == |steps| + 1 && Init(states[0])
    && (forall i :: 0 <= i < |states| ==> |states[i].history| > 0)
    && (forall i :: 0 <= i < |steps| ==> Enabled(states[i], steps[i]) && states[i+1] == Apply(states[i], steps[i]))
  }

  lemma {:induction false} AlwaysInv(states: seq<System>, steps: seq<Step>, n: nat)
    requires Behavior(states, steps) && n < |states|
    ensures Inv(states[n]) && |states[n].clients| == |states[0].clients|
  {
    hide Inv, Init, Enabled;
    if n == 0 {
      InitHolds(states[0]);
    } else {
      AlwaysInv(states, steps, n - 1);
      StepKeepsInv(states[n-1], steps[n-1]);
      StepForward(states[n-1], steps[n-1]);
    }
  }

  /** No step takes a client back in the history, or the history back. */
  lemma StepForward(s: System, step: Step)
    requires Inv(s) && Enabled(s, step)
    ensures var t := Apply(s, step);
      && s.history <= t.history && |t.clients| == |s.clients|
      && (forall sock :: sock in s.asked ==> sock in t.asked && t.asked[sock] == s.asked[sock])
      && forall c :: 0 <= c < |s.clients| ==> s.clients[c].moment <= t.clients[c].moment
  {
    hide WellFormed, Mirror, Reply, Sendable, Sorted, ClientStep, ServerStep;
    if step.Receive? {
      assert ClientOk(s, s.clients[step.c]) && AnswerOk(s, step.answer);
    }
  }

  lemma {:induction false} Forward(states: seq<System>, steps: seq<Step>, i: nat, j: nat)
    requires Behavior(states, steps) && i <= j < |states|
    ensures states[i].history <= states[j].history && |states[i].clients| == |states[j].clients|
    ensures forall sock :: sock in states[i].asked ==>
      sock in states[j].asked && states[j].asked[sock] == states[i].asked[sock]
    ensures forall c :: 0 <= c < |states[i].clients| ==> states[i].clients[c].moment <= states[j].clients[c].moment
  {
    hide Inv, Init, Enabled, Apply;
    if i >= j {
    } else {
      Forward(states, steps, i, j - 1);
      AlwaysInv(states, steps, j - 1);
      StepForward(states[j-1], steps[j-1]);
    }
  }

  /** Over every run, each client mirrors the server's table of some earlier moment, or the empty table it started
      with, and these moments never go backwards. */
  lemma ClientsFollow(states: seq<System>, steps: seq<Step>, c: nat)
    requires Behavior(states, steps) && c < |states[0].clients|
    ensures forall i :: 0 <= i < |states| ==>
      (c < |states[i].clients| && states[i].clients[c].moment < |states[i].history|
       && Mirror(states[i].clients[c].records) == Snapshot(states[i].history, states[i].clients[c].moment))
    ensures forall i, j :: 0 <= i <= j < |states| ==> states[i].clients[c].moment <= states[j].clients[c].moment
  {
    hide Mirror, Snapshot, Init, Enabled, Apply;
    forall i | 0 <= i < |states| ensures c < |states[i].clients| && ClientOk(states[i], states[i].clients[c]) {
      AlwaysInv(states, steps, i);
    }
    forall i, j | 0 <= i <= j < |states| ensures states[i].clients[c].moment <= states[j].clients[c].moment {
      Forward(states, steps, i, j);
    }
  }

  /** From state `from` on, client `c` sent a request and received an answer to it. */
  ghost predicate AskedAndAnswered(states: seq<System>, steps: seq<Step>, from: nat, c: nat, a: nat, b: nat)
    requires Behavior(states, steps)
  {
    && from <= a < b < |steps|
    && steps[a].Send? && steps[a].c == c
    && steps[b].Receive? && steps[b].c == c && steps[b].answer.sock == steps[a].sock
  }

  ghost predicate Answered(states: seq<System>, steps: seq<Step>, from: nat, c: nat)
    requires Behavior(states, steps)
  {
    exists a: nat, b: nat :: AskedAndAnswered(states, steps, from, c, a, b)
  }

  /** The answer to a request shows a table no older than the request. */
  lemma AnswerIsRecent(states: seq<System>, steps: seq<Step>, from: nat, c: nat, a: nat, b: nat)
    requires Behavior(states, steps) && AskedAndAnswered(states, steps, from, c, a, b)
    ensures c < |states[|steps|].clients| && states[|steps|].clients[c].moment >= |states[from].history| - 1
  {
    hide Mirror, Sorted, WellFormed, Reply, Sendable, ClientStep, ServerStep, Init;
    var sock := steps[a].sock;
    AlwaysInv(states, steps, b);
    Forward(states, steps, from, a);
    Forward(states, steps, a + 1, b);
    Forward(states, steps, b + 1, |steps|);
    assert states[a+1] == Apply(states[a], steps[a]);
    assert states[b+1] == Apply(states[b], steps[b]);
    assert AnswerOk(states[b], steps[b].answer);
  }

  /** Once the server's table shows the same to clients from some state on, one answered request for each client
      makes all clients agree with it, and so with each other. */
  lemma ClientsAgree(states: seq<System>, steps: seq<Step>, from: nat, view: map<string, (string, string)>)
    requires Behavior(states, steps) && from < |states|
    requires var last := states[|steps|];
      forall m :: |states[from].history| - 1 <= m < |last.history| ==> Snapshot(last.history, m) == view
    requires forall c :: 0 <= c < |states[0].clients| ==> Answered(states, steps, from, c)
    ensures forall c :: 0 <= c < |states[|steps|].clients| ==> Mirror(states[|steps|].clients[c].records) == view
  {
    hide Mirror, Snapshot, Init, Enabled, Apply, AskedAndAnswered;
    var last := states[|steps|];
    AlwaysInv(states, steps, |steps|);
    forall c | 0 <= c < |last.clients| ensures Mirror(last.clients[c].records) == view {
      assert Answered(states, steps, from, c);
      var a: nat, b: nat :| AskedAndAnswered(states, steps, from, c, a, b);
      AnswerIsRecent(states, steps, from, c, a, b);
      assert ClientOk(last, last.clients[c]);
    }
  }
}
