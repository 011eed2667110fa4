/** The node table of src/topo/node.c: what each operation does to the sorted list of records. */
module Registry {
  import opened Sequences
  import opened ElementList
  import opened TopoText

  const ASSOC_CLEAR_TM := 60

  type Records = seq<Entry<NodeInfo>>

  datatype NpResult = NpFailed | NpNone | NpAdd | NpRep | NpUptm

  // ---------------------------------------------------------------- one message

  /** rem_element and add_element with the same key. */
  function Replace(records: Records, i: nat, info: NodeInfo): Records
    requires i < |records|
  {
    Insert(RemoveAt(records, i), Entry(info.name, info))
  }

  /** info_name takes the pod name, if there is one. */
  function Named(info: NodeInfo): NodeInfo {
    if info.podName != "" then info.(infoName := info.podName) else info
  }

  /** node_proc_pod_send_info for a parsed message. */
  function PodUpdate(records: Records, info: NodeInfo): (Records, NpResult) {
    var i := IndexOf(records, info.name);
    if i == |records| then (Insert(records, Entry(info.name, Named(info))), NpAdd)
    else
      var already := records[i].data;
      if already.Addresses() == info.Addresses() then
        (records[i := Entry(records[i].key, already.(heartbeat := info.heartbeat))], NpUptm)
      else
        (Replace(records, i, Named(info.(mgntPort := already.mgntPort))), NpRep)
  }

  /** node_proc_pod_send_info at time `now`. */
  function PodStep(records: Records, msg: string, now: int): (Records, NpResult) {
    match ParsePod(msg)
    case None => (records, NpFailed)
    case Some(info) => PodUpdate(records, info.(heartbeat := now))
  }

  /** node_proc_omp_send_info for a parsed line. */
  function OmpUpdate(records: Records, info: NodeInfo): (Records, NpResult) {
    var i := IndexOf(records, info.name);
    if i == |records| then (Insert(records, Entry(info.name, info)), NpAdd)
    else
      var already := records[i].data;
      if already.Addresses() == info.Addresses() then
        (records[i := Entry(records[i].key, already.(checked := true))], NpUptm)
      else
        (Replace(records, i, info), NpRep)
  }

  /** node_proc_omp_send_info. */
  function OmpStep(records: Records, line: string): (Records, NpResult) {
    match ParseOmp(line)
    case None => (records, NpNone)
    case Some(info) => OmpUpdate(records, info.(checked := true))
  }

  // ---------------------------------------------------------------- sweeps

  function Filter(records: Records, keep: NodeInfo -> bool): Records {
    if records == [] then []
    else (if keep(records[0].data) then [records[0]] else []) + Filter(records[1..], keep)
  }

  /** A callback that removes what `keep` refuses and counts what it removed. */
  function Sweeper(keep: NodeInfo -> bool): (string, NodeInfo, nat) -> (Verdict<NodeInfo>, nat) {
    (key: string, info: NodeInfo, count: nat) => if keep(info) then (Keep(info), count) else (Remove, count + 1)
  }

  /** A removal sweep leaves what a filter leaves, and counts the rest. */
  lemma {:induction false} SweepFilters(records: Records, keep: NodeInfo -> bool, count: nat)
    ensures |Filter(records, keep)| <= |records|
    ensures Swept(records, Sweeper(keep), count)
            == (Filter(records, keep), count + |records| - |Filter(records, keep)|)
  {
    if records == [] {
    } else {
      SweepFilters(records[1..], keep, if keep(records[0].data) then count else count + 1);
    }
  }

  /** assoc_info_clean_cb: the OMP record, never heard from, is exempt. */
  function Fresh(now: int): NodeInfo -> bool {
    (info: NodeInfo) => info.heartbeat == 0 || now - info.heartbeat < ASSOC_CLEAR_TM
  }

  function Checked(): NodeInfo -> bool {
    (info: NodeInfo) => info.checked
  }

  function Unset(records: Records): Records {
    if records == [] then [] else [Entry(records[0].key, records[0].data.(checked := false))] + Unset(records[1..])
  }

  /** assoc_info_unset_cb. */
  function Unsetter(): (string, NodeInfo, int) -> (Verdict<NodeInfo>, int) {
    (key: string, info: NodeInfo, acc: int) => (Keep(info.(checked := false)), acc)
  }

  lemma {:induction false} UnsetSweeps(records: Records, acc: int)
    ensures Swept(records, Unsetter(), acc) == (Unset(records), acc)
  {
    if records == [] {
    } else {
      UnsetSweeps(records[1..], acc);
    }
  }

  function Infos(records: Records): (infos: seq<NodeInfo>)
    ensures |infos| == |records|
    ensures forall i :: 0 <= i < |records| ==> infos[i] == records[i].data
  {
    if records == [] then [] else [records[0].data] + Infos(records[1..])
  }

  /** assoc_info_reply_cb: a line is put behind what the buffer holds. */
  function Replier(): (string, NodeInfo, string) -> (Verdict<NodeInfo>, string) {
    (key: string, info: NodeInfo, buffer: string) => (Keep(info), buffer + Line(info) + [EOL])
  }

  lemma {:induction false} ReplySweeps(records: Records, buffer: string)
    ensures Swept(records, Replier(), buffer) == (records, buffer + Reply(Infos(records)))
  {
    if records == [] {
      assert buffer + "" == buffer;
    } else {
      var line := Line(records[0].data) + [EOL];
      ReplySweeps(records[1..], buffer + Line(records[0].data) + [EOL]);
      assert buffer + Line(records[0].data) + [EOL] == buffer + line;
      assert (buffer + line) + Reply(Infos(records[1..])) == buffer + (line + Reply(Infos(records[1..])));
      assert [Entry(records[0].key, records[0].data)] + records[1..] == records;
      assert Infos(records)[1..] == Infos(records[1..]);
    }
  }

  /** Once removed, a key is not found any more. */
  lemma RemovedGone(records: Records, i: nat)
    requires Sorted(records) && i < |records|
    ensures IndexOf(RemoveAt(records, i), records[i].key) == |RemoveAt(records, i)|
  {
    hide Less;
    var t := RemoveAt(records, i);
    var j := IndexOf(t, records[i].key);
    if j < |t| {
      assert t[j] == records[if j < i then j else j + 1];
      SortedDistinct(records, if j < i then j else j + 1, i);
      assert false;
    }
  }

  function KeptOf(m: map<string, NodeInfo>, keep: NodeInfo -> bool): map<string, NodeInfo> {
    map k | k in m && keep(m[k]) :: m[k]
  }

  lemma KeptOneMore(m: map<string, NodeInfo>, keep: NodeInfo -> bool, key: string, info: NodeInfo)
    requires key !in m
    ensures KeptOf(m[key := info], keep) == if keep(info) then KeptOf(m, keep)[key := info] else KeptOf(m, keep)
  {
  }

  /** Filtering a table filters its map. */
  lemma {:induction false} FilterMap(records: Records, keep: NodeInfo -> bool)
    requires Sorted(records)
    ensures AsMap(Filter(records, keep)) == KeptOf(AsMap(records), keep)
  {
    hide Sorted, KeptOf;
    if records == [] {
      assert KeptOf(map[], keep) == map[] by { KeptNone(keep); }
    } else {
      SortedTail(records);
      FilterMap(records[1..], keep);
      AsMapKeys(records[1..], records[0].key);
      KeptOneMore(AsMap(records[1..]), keep, records[0].key, records[0].data);
      var f := Filter(records[1..], keep);
      AsMapCons(records[0], f);
      assert Filter(records, keep) == if keep(records[0].data) then [records[0]] + f else f;
    }
  }

  lemma KeptNone(keep: NodeInfo -> bool)
    ensures KeptOf(map[], keep) == map[]
  {
  }

  lemma {:induction false} SizeOfMap(records: Records)
    requires Sorted(records)
    ensures |AsMap(records).Keys| == |records|
  {
    hide Sorted;
    if records == [] {
    } else {
      SortedTail(records);
      SizeOfMap(records[1..]);
      AsMapKeys(records[1..], records[0].key);
      assert AsMap(records).Keys == AsMap(records[1..]).Keys + {records[0].key};
    }
  }

  lemma SubsetSize<T>(a: set<T>, b: set<T>)
    requires b <= a
    ensures |a| - |b| == |a - b|
  {
    assert a == b + (a - b);
  }

  lemma {:induction false} FilterSorted(records: Records, keep: NodeInfo -> bool)
    requires Sorted(records)
    ensures var f := Filter(records, keep);
      Sorted(f) && forall i :: 0 <= i < |f| ==> exists j :: 0 <= j < |records| && records[j] == f[i]
  {
    hide Less;
    if records == [] {
    } else {
      SortedTail(records);
      FilterSorted(records[1..], keep);
      var f, g := Filter(records, keep), Filter(records[1..], keep);
      forall i | 0 <= i < |f| ensures exists j :: 0 <= j < |records| && records[j] == f[i] {
        if keep(records[0].data) && i == 0 {
          assert records[0] == f[0];
        } else {
          var k := if keep(records[0].data) then i - 1 else i;
          assert f[i] == g[k];
          var j :| 0 <= j < |records| - 1 && records[1..][j] == g[k];
          assert records[j+1] == f[i];
        }
      }
      forall i, j | 0 <= i < j < |f| ensures Less(f[i].key, f[j].key) {
        if keep(records[0].data) {
          if i == 0 {
            var k :| 0 <= k < |records| - 1 && records[1..][k] == g[j-1];
            assert records[k+1] == f[j];
          } else {
            assert f[i] == g[i-1] && f[j] == g[j-1];
          }
        }
      }
    }
  }

  // ---------------------------------------------------------------- the table in the heap

  class Table {
    var list: NodeList<NodeInfo>

    ghost predicate Valid()
      reads this, list, list.elems
    {
      list.Valid()
    }

    ghost function Records(): Records
      reads this, list
    {
      list.entries
    }

    constructor ()
      ensures Valid() && Records() == [] && fresh(list) && fresh(list.Repr)
    {
      list := new NodeList();
    }

    /** new_element and add_element for a record. */
    method Add(info: NodeInfo) returns (r: int)
      requires Valid()
      modifies list, list.Repr
      ensures Valid() && fresh(list.Repr - old(list.Repr))
      ensures r == if IndexOf(old(Records()), info.name) < |old(Records())| then -1 else 0
      ensures Records() == if r == 0 then Insert(old(Records()), Entry(info.name, info)) else old(Records())
    {
      hide Sorted, Insert, IndexOf;
      var item := new Element(Some(info.name), Some(info));
      r := list.AddElement(item);
    }

    /** The element of a record and what it holds. */
    method Find(name: string) returns (elem: Element?<NodeInfo>)
      requires Valid()
      ensures elem == Nth(list.elems, IndexOf(Records(), name) + 1) && |list.elems| == |Records()| + 1
      ensures elem == null <==> IndexOf(Records(), name) == |Records()|
      ensures elem != null ==> elem.data == Some(Records()[IndexOf(Records(), name)].data)
    {
      hide Sorted, IndexOf;
      elem := list.GetElement(name);
      assert elem != null ==> HoldsAt(list.elems, list.entries, IndexOf(Records(), name) + 1);
    }

    /** node_proc_pod_send_info: a message from a pod, received at time `now`. */
    method ProcPodSendInfo(msg: string, now: int) returns (res: NpResult)
      requires Valid()
      modifies list, list.Repr
      ensures Valid() && fresh(list.Repr - old(list.Repr))
      ensures (Records(), res) == PodStep(old(Records()), msg, now)
    {
      hide Valid, Records, IndexOf, Insert, ParsePod, RemoveAt, Sorted;
      var parsed := ParsePod(msg);
      if parsed.None? { return NpFailed; }
      var info := parsed.value.(heartbeat := now);
      var elem := Find(info.name);
      if elem == null {
        if info.podName != "" { info := info.(infoName := info.podName); }
        var _ := Add(info);
        return NpAdd;
      }
      ghost var i := IndexOf(Records(), info.name);
      var already := elem.data.value;
      if already.mgntPri == info.mgntPri && already.servPri == info.servPri {
        SetRecord(elem, already.(heartbeat := info.heartbeat), i);
        return NpUptm;
      }
      info := info.(mgntPort := already.mgntPort);
      if info.podName != "" { info := info.(infoName := info.podName); }
      ReplaceRecord(elem, info, i);
      res := NpRep;
    }

    /** node_proc_omp_send_info: a line of the reply. */
    method ProcOmpSendInfo(line: string) returns (res: NpResult)
      requires Valid()
      modifies list, list.Repr
      ensures Valid() && fresh(list.Repr - old(list.Repr))
      ensures (Records(), res) == OmpStep(old(Records()), line)
    {
      hide Valid, Records, IndexOf, Insert, ParseOmp, RemoveAt, Sorted;
      var parsed := ParseOmp(line);
      if parsed.None? { return NpNone; }
      var info := parsed.value.(checked := true);
      var elem := Find(info.name);
      if elem == null {
        var _ := Add(info);
        return NpAdd;
      }
      ghost var i := IndexOf(Records(), info.name);
      var already := elem.data.value;
      if already.mgntPri == info.mgntPri && already.servPri == info.servPri {
        SetRecord(elem, already.(checked := true), i);
        return NpUptm;
      }
      ReplaceRecord(elem, info, i);
      res := NpRep;
    }

    /** A field of a record written in place. */
    method SetRecord(elem: Element<NodeInfo>, info: NodeInfo, ghost i: nat)
      requires Valid() && i < |Records()| && elem == Nth(list.elems, i + 1)
      modifies list, list.Repr
      ensures Valid() && list.Repr == old(list.Repr)
      ensures Records() == old(Records())[i := Entry(old(Records())[i].key, info)]
    {
      hide Sorted;
      list.SetData(elem, info, i);
    }

    /** rem_element, then a new element with the same key. */
    method ReplaceRecord(elem: Element<NodeInfo>, info: NodeInfo, ghost i: nat)
      requires Valid() && i < |Records()| && elem == Nth(list.elems, i + 1) && Records()[i].key == info.name
      modifies list, list.Repr
      ensures Valid() && fresh(list.Repr - old(list.Repr))
      ensures Records() == Replace(old(Records()), i, info)
    {
      hide RemoveAt, Insert;
      RemovedGone(Records(), i);
      hide Sorted;
      list.RemElement(elem, i);
      var _ := Add(info);
    }

    /** assoc_info_cleanup at time `now`: how many records were removed. */
    method Cleanup(now: int) returns (clearCount: nat)
      requires Valid()
      modifies list, list.Repr
      ensures Valid() && list.Repr == old(list.Repr)
      ensures Records() == Filter(old(Records()), Fresh(now)) && clearCount + |Records()| == |old(Records())|
    {
      hide Sorted, Filter, Swept, Sweeper;
      SweepFilters(Records(), Fresh(now), 0);
      clearCount := list.ListElement(RootIgnored, Sweeper(Fresh(now)), 0);
    }

    /** assoc_info_unset_chk_flag. */
    method UnsetChkFlag()
      requires Valid()
      modifies list, list.Repr
      ensures Valid() && list.Repr == old(list.Repr) && Records() == Unset(old(Records()))
    {
      hide Sorted, Unset, Swept, Unsetter;
      UnsetSweeps(Records(), 0);
      var _ := list.ListElement(RootIgnored, Unsetter(), 0);
    }

    /** assoc_info_remove_uncheck_node. */
    method RemoveUncheckNode() returns (clearCount: nat)
      requires Valid()
      modifies list, list.Repr
      ensures Valid() && list.Repr == old(list.Repr)
      ensures Records() == Filter(old(Records()), Checked()) && clearCount + |Records()| == |old(Records())|
    {
      hide Sorted, Filter, Swept, Sweeper;
      SweepFilters(Records(), Checked(), 0);
      clearCount := list.ListElement(RootIgnored, Sweeper(Checked()), 0);
    }

    /** assoc_info_reply_msg into an empty buffer. */
    method ReplyMsg() returns (reply: string)
      requires Valid()
      modifies list, list.Repr
      ensures Valid() && list.Repr == old(list.Repr) && Records() == old(Records())
      ensures reply == Reply(Infos(Records()))
    {
      hide Sorted, Swept, Replier;
      ReplySweeps(Records(), "");
      assert "" + Reply(Infos(Records())) == Reply(Infos(Records()));
      reply := list.ListElement(RootIgnored, Replier(), "");
    }
  }
}
