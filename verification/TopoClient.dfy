/** The client's half of src/topo/udp.c: its table follows the server's by mark and sweep. */
module TopoClient {
  import opened Sequences
  import opened ElementList
  import opened TopoText
  import opened Registry

  /** The lines of a reply, one after the other, and how many of them added or replaced a record. */
  function ProcLines(records: Records, lines: seq<string>): (Records, nat)
    decreases lines
  {
    if lines == [] then (records, 0)
    else
      var (r, res) := OmpStep(records, lines[0]);
      var (rest, n) := ProcLines(r, lines[1..]);
      (rest, n + if res == NpAdd || res == NpRep then 1 else 0)
  }

  /** What udp_client_proc does with a reply. */
  function ClientStep(records: Records, msg: string): (Records, nat) {
    var (marked, n) := ProcLines(Unset(records), Tokens(msg));
    SweepFilters(marked, Checked(), 0);
    (Filter(marked, Checked()), n + |marked| - |Filter(marked, Checked())|)
  }

  /** The loop of udp_client_proc over the lines, then the sweep. */
  method ClientUpdate(table: Table, msg: string) returns (updateCount: nat)
    requires table.Valid()
    modifies table.list, table.list.Repr
    ensures table.Valid() && fresh(table.list.Repr - old(table.list.Repr))
    ensures (table.Records(), updateCount) == ClientStep(old(table.Records()), msg)
  {
    hide Table.Valid, Table.Records, OmpStep, Unset, Filter;
    updateCount := 0;
    table.UnsetChkFlag();
    ghost var start := table.Records();
    var lines := Tokens(msg);
    var i := 0;
    assert lines[0..] == lines;
    while i < |lines|
      invariant 0 <= i <= |lines| && table.Valid() && fresh(table.list.Repr - old(table.list.Repr))
      invariant var (end, n) := ProcLines(start, lines); var (end', n') := ProcLines(table.Records(), lines[i..]);
        end == end' && n == updateCount + n'
    {
      assert lines[i..][1..] == lines[i+1..];
      var res := table.ProcOmpSendInfo(lines[i]);
      if res == NpAdd || res == NpRep { updateCount := updateCount + 1; }
      i := i + 1;
    }
    var cleared := table.RemoveUncheckNode();
    updateCount := updateCount + cleared;
  }

  // ---------------------------------------------------------------- what a client can see of a table

  /** From name to addresses. */
  function Mirror(records: Records): map<string, (string, string)> {
    var m := AsMap(records);
    map k | k in m :: m[k].Addresses()
  }

  function CheckedNames(records: Records): set<string> {
    var m := AsMap(records);
    set k | k in m && m[k].checked
  }

  function Added<V>(was: map<string, V>, now: map<string, V>): set<string> {
    now.Keys - was.Keys
  }

  function Changed<V(==)>(was: map<string, V>, now: map<string, V>): set<string> {
    set k | k in now && k in was && now[k] != was[k]
  }

  function Removed<V>(was: map<string, V>, now: map<string, V>): set<string> {
    was.Keys - now.Keys
  }

  lemma {:induction false} SetIsUpdate(records: Records, i: nat, info: NodeInfo)
    requires Sorted(records) && i < |records|
    ensures Sorted(records[i := Entry(records[i].key, info)])
    ensures AsMap(records[i := Entry(records[i].key, info)]) == AsMap(records)[records[i].key := info]
  {
    hide Less;
    var t := records[i := Entry(records[i].key, info)];
    forall j, k | 0 <= j < k < |t| ensures Less(t[j].key, t[k].key) {
      assert t[j].key == records[j].key && t[k].key == records[k].key;
    }
    SortedTail(records);
    if i > 0 {
      assert t[1..] == records[1..][i-1 := Entry(records[i].key, info)];
      assert records[i] == records[1..][i-1];
      SetIsUpdate(records[1..], i - 1, info);
    } else {
      assert t[1..] == records[1..];
    }
  }

  /** Replacing a record puts the new one under its name, where the old one stood in the order. */
  lemma ReplaceIsUpdate(records: Records, i: nat, info: NodeInfo)
    requires Sorted(records) && i < |records| && info.name == records[i].key
    ensures Sorted(Replace(records, i, info)) && AsMap(Replace(records, i, info)) == AsMap(records)[info.name := info]
  {
    hide Sorted, AsMap, RemoveAt, Insert;
    RemoveSorted(records, i);
    RemovedGone(records, i);
    RemoveIsDelete(records, i);
    InsertIsUpdate(RemoveAt(records, i), Entry(info.name, info));
    InsertSorted(RemoveAt(records, i), Entry(info.name, info));
  }

  /** The record a line leaves under its name. */
  function Marked(m: map<string, NodeInfo>, info: NodeInfo): NodeInfo {
    if info.name in m && m[info.name].Addresses() == info.Addresses() then m[info.name].(checked := true) else info
  }

  lemma OmpUpdateMap(records: Records, info: NodeInfo)
    requires Sorted(records)
    ensures var (r, res) := OmpUpdate(records, info);
      && Sorted(r) && AsMap(r) == AsMap(records)[info.name := Marked(AsMap(records), info)]
      && (res == NpAdd <==> info.name !in AsMap(records))
      && (res == NpRep <==> info.name in AsMap(records) && AsMap(records)[info.name].Addresses() != info.Addresses())
  {
    hide Sorted, AsMap, Insert, Replace;
    var i := IndexOf(records, info.name);
    AsMapKeys(records, info.name);
    if i == |records| {
      InsertIsUpdate(records, Entry(info.name, info));
      InsertSorted(records, Entry(info.name, info));
    } else if records[i].data.Addresses() == info.Addresses() {
      SetIsUpdate(records, i, records[i].data.(checked := true));
    } else {
      ReplaceIsUpdate(records, i, info);
    }
  }

  /** A readable line, as the client's table sees it. */
  lemma LineEffect(records: Records, info: NodeInfo)
    requires Sorted(records) && Readable(info)
    ensures var (r, res) := OmpStep(records, Line(info));
      && Sorted(r) && Mirror(r) == Mirror(records)[info.name := info.Addresses()]
      && CheckedNames(r) == CheckedNames(records) + {info.name}
      && (res == NpAdd <==> info.name !in Mirror(records))
      && (res == NpRep <==> info.name in Mirror(records) && Mirror(records)[info.name] != info.Addresses())
  {
    hide Sorted, AsMap, OmpUpdate, ParseOmp, Line, Readable;
    LineRoundTrip(info);
    OmpUpdateMap(records, ParseOmp(Line(info)).value.(checked := true));
  }

  /** A table whose reply a client reads right: sorted, under their own names, every record readable. */
  ghost predicate WellFormed(records: Records) {
    && Sorted(records)
    && forall i :: 0 <= i < |records| ==> records[i].key == records[i].data.name && Readable(records[i].data)
  }

  function Lines(records: Records): (lines: seq<string>)
    ensures |lines| == |records| && forall i :: 0 <= i < |records| ==> lines[i] == Line(records[i].data)
  {
    if records == [] then [] else [Line(records[0].data)] + Lines(records[1..])
  }

  lemma TokensOfReply(server: Records)
    requires WellFormed(server)
    ensures Tokens(Reply(Infos(server))) == Lines(server)
  {
    ReplyTokens(Infos(server));
  }

  lemma MirrorCons(e: Entry<NodeInfo>, rest: Records)
    ensures Mirror([e] + rest) == Mirror(rest)[e.key := e.data.Addresses()]
  {
    AsMapCons(e, rest);
  }

  lemma ElsewhereSame<V>(was: map<string, V>, now: map<string, V>, name: string, value: V)
    requires name !in now
    ensures Added(was[name := value], now) == Added(was, now) && Changed(was[name := value], now) == Changed(was, now)
  {
  }

  lemma AddedOneMore<V>(was: map<string, V>, now: map<string, V>, name: string, value: V)
    requires name !in now
    ensures |Added(was, now[name := value])| == |Added(was, now)| + if name !in was then 1 else 0
  {
    assert now[name := value].Keys == now.Keys + {name};
    DifferenceOneMore(now.Keys, was.Keys, name);
  }

  lemma DifferenceOneMore(a: set<string>, b: set<string>, x: string)
    requires x !in a
    ensures |(a + {x}) - b| == |a - b| + if x !in b then 1 else 0
  {
    if x in b {
      assert (a + {x}) - b == a - b;
    } else {
      assert (a + {x}) - b == (a - b) + {x};
    }
  }

  lemma ChangedOneMore<V>(was: map<string, V>, now: map<string, V>, name: string, value: V)
    requires name !in now
    ensures |Changed(was, now[name := value])| == |Changed(was, now)| + if name in was
      && was[name] != value then 1 else 0
  {
    var c := Changed(was, now);
    assert Changed(was, now[name := value]) == if name in was && was[name] != value then c + {name} else c;
  }

  lemma MergeOneMore<V>(was: map<string, V>, now: map<string, V>, name: string, value: V)
    requires name !in now
    ensures was[name := value] + now == was + now[name := value]
  {
  }

  lemma KeysOneMore<V>(names: set<string>, now: map<string, V>, name: string, value: V)
    ensures names + {name} + now.Keys == names + now[name := value].Keys
  {
  }

  /** How many names of `now` are new or have other values. */
  function Differing<V(==)>(was: map<string, V>, now: map<string, V>): nat {
    |Added(was, now)| + |Changed(was, now)|
  }

  /** Counting the differences of two maps one new name at a time. */
  lemma OneMoreName<V>(was: map<string, V>, now: map<string, V>, name: string, value: V)
    requires name !in now
    ensures Differing(was, now[name := value])
            == Differing(was[name := value], now) + if name !in was || was[name] != value then 1 else 0
    ensures was[name := value] + now == was + now[name := value]
  {
    hide Added, Changed;
    ElsewhereSame(was, now, name, value);
    AddedOneMore(was, now, name, value);
    ChangedOneMore(was, now, name, value);
    MergeOneMore(was, now, name, value);
  }

  /** All lines of a reply: the server's records laid over the client's, marked, and the differences counted. */
  lemma {:induction false} LinesEffect(records: Records, server: Records)
    requires Sorted(records) && WellFormed(server)
    ensures var (r, n) := ProcLines(records, Lines(server));
      && Sorted(r) && Mirror(r) == Mirror(records) + Mirror(server)
      && CheckedNames(r) == CheckedNames(records) + Mirror(server).Keys
      && n == Differing(Mirror(records), Mirror(server))
    decreases |server|
  {
    hide OmpStep, Sorted, Mirror, CheckedNames, Readable, Line, AsMap, Differing;
    if server == [] {
      NoRecords(Mirror(records));
    } else {
      var e, rest := server[0], server[1..];
      assert server == [e] + rest && Lines(server)[1..] == Lines(rest);
      TailWellFormed(server);
      LineEffect(records, e.data);
      LinesEffect(OmpStep(records, Line(e.data)).0, rest);
      MirrorCons(e, rest);
      OneMoreName(Mirror(records), Mirror(rest), e.key, e.data.Addresses());
      KeysOneMore(CheckedNames(records), Mirror(rest), e.key, e.data.Addresses());
    }
  }

  lemma TailWellFormed(server: Records)
    requires WellFormed(server) && server != []
    ensures WellFormed(server[1..]) && server[0].key !in Mirror(server[1..])
  {
    SortedTail(server);
    AsMapKeys(server[1..], server[0].key);
  }

  lemma NoRecords<V>(m: map<string, V>)
    ensures Mirror([]) == map[] && m + map[] == m
    ensures Differing(m, map[]) == 0
  {
    assert Added(m, map[]) == {};
    assert Changed(m, map[]) == {};
  }

  // ---------------------------------------------------------------- the sweep

  lemma {:induction false} UnsetEffect(records: Records)
    requires Sorted(records)
    ensures Sorted(Unset(records)) && Mirror(Unset(records)) == Mirror(records) && CheckedNames(Unset(records)) == {}
  {
    UnsetKeys(records);
    UnsetMap(records);
  }

  lemma {:induction false} UnsetKeys(records: Records)
    ensures |Unset(records)| == |records|
    ensures forall i :: 0 <= i < |records| ==> Unset(records)[i].key == records[i].key
  {
    if records == [] {
    } else {
      UnsetKeys(records[1..]);
    }
  }

  lemma {:induction false} UnsetMap(records: Records)
    ensures AsMap(Unset(records)).Keys == AsMap(records).Keys
    ensures forall k :: k in AsMap(records) ==> AsMap(Unset(records))[k] == AsMap(records)[k].(checked := false)
  {
    if records == [] {
    } else {
      UnsetMap(records[1..]);
    }
  }


  lemma MirrorOfKept(records: Records, f: Records)
    requires AsMap(f) == KeptOf(AsMap(records), Checked())
    ensures Mirror(f) == Restrict(Mirror(records), CheckedNames(records))
    ensures Mirror(f).Keys == CheckedNames(records) <= Mirror(records).Keys
    ensures Mirror(f).Keys == AsMap(f).Keys && Mirror(records).Keys == AsMap(records).Keys
  {
    hide AsMap;
  }

  function Restrict<V>(m: map<string, V>, names: set<string>): map<string, V> {
    map k | k in m && k in names :: m[k]
  }

  /** What a client keeps in the sweep, seen as a map: the marked names. */
  lemma SweepEffect(records: Records)
    requires Sorted(records)
    ensures var f := Filter(records, Checked());
      && Sorted(f) && Mirror(f) == Restrict(Mirror(records), CheckedNames(records))
      && |f| <= |records| && |records| - |f| == |Mirror(records).Keys - CheckedNames(records)|
  {
    hide Sorted, AsMap, Mirror, CheckedNames, Filter;
    var f := Filter(records, Checked());
    SweepFilters(records, Checked(), 0);
    FilterSorted(records, Checked());
    FilterMap(records, Checked());
    SizeOfMap(records);
    SizeOfMap(f);
    MirrorOfKept(records, f);
    SubsetSize(Mirror(records).Keys, CheckedNames(records));
  }

  /** A client step makes an exact mirror of the table the reply was printed from, and the update count is the
      number of names that were added, changed and removed: zero exactly when the mirror did not change. */
  lemma ClientMirrors(records: Records, server: Records)
    requires Sorted(records) && WellFormed(server)
    ensures var (r, updateCount) := ClientStep(records, Reply(Infos(server)));
      var was, now := Mirror(records), Mirror(server);
      && Sorted(r) && Mirror(r) == now
      && updateCount == |Added(was, now)| + |Changed(was, now)| + |Removed(was, now)|
      && (updateCount == 0 <==> was == now)
  {
    hide Sorted, Mirror, CheckedNames, Filter, Unset, ProcLines, Tokens, WellFormed;
    var was, now := Mirror(records), Mirror(server);
    var start := Unset(records);
    var marked := ProcLines(start, Lines(server)).0;
    UnsetEffect(records);
    TokensOfReply(server);
    LinesEffect(start, server);
    SweepEffect(marked);
    Overlaid(was, now);
    NoDifference(was, now);
  }

  lemma Overlaid<V>(was: map<string, V>, now: map<string, V>)
    ensures Restrict(was + now, {} + now.Keys) == now
    ensures (was + now).Keys - ({} + now.Keys) == Removed(was, now)
  {
  }

  lemma NoDifference<V>(was: map<string, V>, now: map<string, V>)
    ensures |Added(was, now)| + |Changed(was, now)| + |Removed(was, now)| == 0 <==> was == now
  {
    var a, c, r := Added(was, now), Changed(was, now), Removed(was, now);
    if a == {} && c == {} && r == {} {
      forall k ensures k in was <==> k in now {
        assert k !in a && k !in r;
      }
      forall k | k in was ensures was[k] == now[k] {
        assert k !in c;
      }
    }
  }

  // ---------------------------------------------------------------- whole records

  /** The record a client reads in the line printed for `info`. */
  function ReadBack(info: NodeInfo): NodeInfo
    requires ParseOmp(Line(info)).Some?
  {
    ParseOmp(Line(info)).value
  }

  lemma {:induction false} LinesRecord(records: Records, server: Records, name: string)
    requires Sorted(records) && WellFormed(server)
    ensures var m, now, s := AsMap(records), AsMap(ProcLines(records, Lines(server)).0), AsMap(server);
      && (name !in s ==> (name in now <==> name in m) && (name in m ==> now[name] == m[name]))
      && (name in s ==>
          (&& ParseOmp(Line(s[name])).Some? && name in now
           && now[name] == if name in m && m[name].Addresses() == s[name].Addresses() then m[name].(checked := true)
                           else ReadBack(s[name]).(checked := true)))
    decreases |server|
  {
    hide OmpUpdate, Sorted, Readable, Line, AsMap, Mirror, ParseOmp;
    AsMapKeys(server, name);
    if server == [] {
    } else {
      var e, rest := server[0], server[1..];
      assert server == [e] + rest && Lines(server)[1..] == Lines(rest);
      TailWellFormed(server);
      LineRoundTrip(e.data);
      OmpUpdateMap(records, ParseOmp(Line(e.data)).value.(checked := true));
      LinesRecord(OmpStep(records, Line(e.data)).0, rest, name);
      AsMapCons(e, rest);
      NotInMirror(rest, e.key);
    }
  }

  lemma NotInMirror(records: Records, name: string)
    ensures name in Mirror(records) <==> name in AsMap(records)
  {
    hide AsMap;
  }

  /** After a client step the client has exactly the server's names. Under each it keeps its old record if that has the
      addresses of the server's, and has otherwise what it reads in the server's line. */
  lemma ClientRecords(records: Records, server: Records, name: string)
    requires Sorted(records) && WellFormed(server)
    ensures var m, now, s := AsMap(records), AsMap(ClientStep(records, Reply(Infos(server))).0), AsMap(server);
      && (name in now <==> name in s)
      && (name in s ==>
          (&& ParseOmp(Line(s[name])).Some?
           && now[name] == if name in m && m[name].Addresses() == s[name].Addresses() then m[name].(checked := true)
                           else ReadBack(s[name]).(checked := true)))
  {
    hide Sorted, AsMap, Filter, ProcLines, Tokens, WellFormed, ParseOmp;
    UnsetEffect(records);
    UnsetMap(records);
    TokensOfReply(server);
    LinesRecord(Unset(records), server, name);
    LinesEffect(Unset(records), server);
    FilterMap(ProcLines(Unset(records), Lines(server)).0, Checked());
  }

  /** A line that cannot be read neither changes the table nor counts as an update, wherever it stands. */
  lemma {:induction false} UnreadableIgnored(records: Records, before: seq<string>, line: string, behind: seq<string>)
    requires ParseOmp(line).None?
    ensures ProcLines(records, before + [line] + behind) == ProcLines(records, before + behind)
    decreases |before|
  {
    hide OmpUpdate, ParseOmp;
    var all := before + [line] + behind;
    if before == [] {
      assert all[0] == line && all[1..] == behind && before + behind == behind;
      assert OmpStep(records, line) == (records, NpNone);
    } else {
      assert all[1..] == before[1..] + [line] + behind && (before + behind)[1..] == before[1..] + behind;
      UnreadableIgnored(OmpStep(records, before[0]).0, before[1..], line, behind);
    }
  }
}
