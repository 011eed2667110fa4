/** Messages as a name server writes them, octet by octet after sections 4.1.1 to 4.1.4 of RFC 1035, and what the reader
    makes of them: compression pointers, and where the records and their parts stand. */
module DnsWire {
  import opened Sequences
  import opened DnsName
  import opened DnsMessage

  // ---------------------------------------------------------------- octets in their places

  ghost predicate Stands(msg: seq<Octet>, at: nat, s: seq<Octet>) {
    at + |s| <= |msg| && msg[at..at+|s|] == s
  }

  lemma StandsInside(msg: seq<Octet>, at: nat, a: seq<Octet>, b: seq<Octet>)
    requires Stands(msg, at, a + b)
    ensures Stands(msg, at, a) && Stands(msg, at + |a|, b)
  {
    var s := a + b;
    assert msg[at..at+|s|][..|a|] == msg[at..at+|a|];
    assert msg[at..at+|s|][|a|..] == msg[at+|a|..at+|s|];
  }

  lemma OneStands(msg: seq<Octet>, at: nat, b: Octet)
    requires Stands(msg, at, [b])
    ensures at < |msg| && msg[at] == b
  {
    assert msg[at] == msg[at..at+1][0];
  }

  lemma PairStands(msg: seq<Octet>, at: nat, a: Octet, b: Octet)
    requires Stands(msg, at, [a, b])
    ensures at + 1 < |msg| && msg[at] == a && msg[at+1] == b
  {
    assert msg[at] == msg[at..at+2][0] && msg[at+1] == msg[at..at+2][1];
  }

  lemma Slice(msg: seq<Octet>, at: nat, s: seq<Octet>)
    requires Stands(msg, at, s)
    ensures at + |s| <= |msg| && msg[at..at+|s|] == s
  {
  }

  // ---------------------------------------------------------------- compressed names

  /** Section 4.1.4: a pointer is two octets that begin with two one bits; the rest is the offset. */
  function PointerOctets(o: nat): (p: seq<Octet>)
    requires o < 0x4000
    ensures |p| == 2
  {
    [192 + o / 256, o % 256]
  }

  /** The labels stand at `at`, and behind them the pointer to offset `o`. */
  ghost predicate RefersTo(msg: seq<Octet>, labels: Name, at: nat, o: nat) {
    && o < 0x4000 && AllPlain(labels) && Stands(msg, at, Wire(labels))
    && Stands(msg, at + |Wire(labels)|, PointerOctets(o))
  }

  /** A compressed name is its labels and those of the name it refers to, and takes two octets more than its labels. */
  lemma {:induction false} PointerIsName(msg: seq<Octet>, labels: Name, rest: Name, start: nat, at: nat, o: nat)
    requires RefersTo(msg, labels, at, o) && o < start && NameAt(msg, o, o) == Some(rest)
    ensures AllPlain(labels) && NameAt(msg, start, at) == Some(labels + rest)
    ensures WireCount(msg, at) == |Wire(labels)| + 2
    decreases |labels|
  {
    if labels == [] {
      PairStands(msg, at, 192 + o / 256, o % 256);
      PointerAlone(msg, rest, start, at, o);
      assert labels + rest == rest;
    } else {
      var l, tail := labels[0], labels[1..];
      FirstLabel(msg, labels, at, o);
      hide *;
      PointerIsName(msg, tail, rest, start, at + 1 + |l|, o);
      LabelIsName(msg, start, at, l, tail + rest);
      LabelFirst(labels, rest);
    }
  }

  lemma FirstLabel(msg: seq<Octet>, labels: Name, at: nat, o: nat)
    requires RefersTo(msg, labels, at, o) && labels != []
    ensures var l, tail := labels[0], labels[1..];
      && PlainLabel(l) && AllPlain(labels) && AllPlain(tail) && RefersTo(msg, tail, at + 1 + |l|, o)
      && at + 1 + |l| <= |msg| && msg[at] == |l| && msg[at+1..at+1+|l|] == l
      && |Wire(labels)| == 1 + |l| + |Wire(tail)|
  {
    hide *;
    Referred(msg, labels, at, o);
    PlainParts(labels);
    FirstWire(labels);
    LabelParts(msg, at, labels[0], Wire(labels[1..]));
    Refers(msg, labels[1..], at + 1 + |labels[0]|, o, at + |Wire(labels)|);
  }

  lemma PlainParts(labels: Name)
    requires AllPlain(labels) && labels != []
    ensures Short(labels) && Short(labels[1..]) && |labels[0]| < 0x100
    ensures PlainLabel(labels[0]) && AllPlain(labels[1..])
  {
    hide Plain;
  }

  lemma Referred(msg: seq<Octet>, labels: Name, at: nat, o: nat)
    requires RefersTo(msg, labels, at, o)
    ensures o < 0x4000 && AllPlain(labels) && Stands(msg, at, Wire(labels))
    ensures Stands(msg, at + |Wire(labels)|, PointerOctets(o))
  {
    hide Wire, AllPlain, Stands, PointerOctets;
  }

  lemma Refers(msg: seq<Octet>, labels: Name, at: nat, o: nat, e: nat)
    requires o < 0x4000 && AllPlain(labels) && e == at + |Wire(labels)|
    requires Stands(msg, at, Wire(labels)) && Stands(msg, e, PointerOctets(o))
    ensures RefersTo(msg, labels, at, o)
  {
    hide Wire, AllPlain, Stands, PointerOctets;
  }

  lemma LabelParts(msg: seq<Octet>, at: nat, l: seq<Octet>, w: seq<Octet>)
    requires |l| < 0x100 && Stands(msg, at, [|l|] + l + w)
    ensures at + 1 + |l| <= |msg| && msg[at] == |l| && msg[at+1..at+1+|l|] == l && Stands(msg, at + 1 + |l|, w)
  {
    hide Stands;
    StandsInside(msg, at, [|l|] + l, w);
    StandsInside(msg, at, [|l|], l);
    OneStands(msg, at, |l|);
    Slice(msg, at + 1, l);
  }

  lemma FirstWire(labels: Name)
    requires labels != [] && Short(labels)
    ensures Wire(labels) == [|labels[0]|] + labels[0] + Wire(labels[1..])
    ensures |Wire(labels)| == 1 + |labels[0]| + |Wire(labels[1..])|
  {
  }

  lemma PointerAlone(msg: seq<Octet>, rest: Name, start: nat, at: nat, o: nat)
    requires at + 2 <= |msg| && msg[at] == 192 + o / 256 && msg[at+1] == o % 256
    requires o < start && o < 0x4000 && NameAt(msg, o, o) == Some(rest)
    ensures NameAt(msg, start, at) == Some(rest) && WireCount(msg, at) == 2
  {
    assert Target(msg, at) == o;
  }

  lemma LabelFirst(labels: Name, rest: Name)
    requires labels != []
    ensures [labels[0]] + (labels[1..] + rest) == labels + rest
  {
  }

  /** ReadName on a compressed name: labels, then the two octets that refer to offset `o`. */
  method ReadCompressed(msg: seq<Octet>, at: nat, o: nat, ghost labels: Name, ghost rest: Name)
      returns (name: array<Octet>, count: nat)
    requires RefersTo(msg, labels, at, o) && o < at && NameAt(msg, o, o) == Some(rest)
    requires labels + rest != [] && AllPlain(labels + rest) && |Wire(labels + rest)| < NAME_BUFFER
    ensures fresh(name) && Holds(name, Dotted(labels + rest)) && count == |Wire(labels)| + 2
  {
    PointerIsName(msg, labels, rest, at, at, o);
    hide NameAt, WireCount, Wire, Dotted;
    name, count := ReadName(msg, at);
  }

  // ---------------------------------------------------------------- what a server writes

  /** Labels, and behind them either the end of the name or the offset of the rest of it. */
  datatype WireName = WireName(labels: Name, to: Option<nat>)

  /** Sixteen bits, the higher eight first. */
  function Two(n: nat): seq<Octet>
    requires n < 0x1_0000
  {
    [n / 256, n % 256]
  }

  ghost predicate Writable(n: WireName) {
    AllPlain(n.labels) && (n.to.Some? ==> n.to.value < 0x4000)
  }

  function NameOctets(n: WireName): seq<Octet>
    requires Writable(n)
  {
    Wire(n.labels) + match n.to { case None => [0] case Some(o) => PointerOctets(o) }
  }

  datatype Data = Address(octets: seq<Octet>) | Domain(name: WireName)

  datatype Record = Record(owner: WireName, typ: nat, cls: nat, ttlHigh: nat, ttlLow: nat, data: Data)

  ghost predicate WritableRecord(r: Record) {
    && Writable(r.owner) && (r.data.Domain? ==> Writable(r.data.name))
    && r.typ < 0x1_0000 && r.cls < 0x1_0000 && r.ttlHigh < 0x1_0000 && r.ttlLow < 0x1_0000
    && |DataOctets(r.data)| < 0x1_0000
  }

  function DataOctets(d: Data): seq<Octet>
    requires d.Domain? ==> Writable(d.name)
  {
    match d
    case Address(octets) => octets
    case Domain(n) => NameOctets(n)
  }

  /** Section 4.1.3: owner, type, class, time to live, length of the data, data. */
  function RecordOctets(r: Record): seq<Octet>
    requires WritableRecord(r)
  {
    NameOctets(r.owner)
      + (Two(r.typ) + Two(r.cls) + Two(r.ttlHigh) + Two(r.ttlLow) + Two(|DataOctets(r.data)|)) + DataOctets(r.data)
  }

  function SectionOctets(rs: seq<Record>): seq<Octet>
    requires forall i :: 0 <= i < |rs| ==> WritableRecord(rs[i])
  {
    if rs == [] then [] else SectionOctets(rs[..|rs|-1]) + RecordOctets(rs[|rs|-1])
  }

  datatype Message = Message(
    id: nat, flags: nat, question: Name, qtype: nat, qclass: nat,
    answers: seq<Record>, authorities: seq<Record>, additionals: seq<Record>)

  ghost predicate WritableSection(rs: seq<Record>) {
    |rs| < 0x1_0000 && forall i :: 0 <= i < |rs| ==> WritableRecord(rs[i])
  }

  ghost predicate WritableMessage(m: Message) {
    && m.id < 0x1_0000 && m.flags < 0x1_0000 && m.qtype < 0x1_0000 && m.qclass < 0x1_0000
    && AllPlain(m.question) && WritableSection(m.answers) && WritableSection(m.authorities)
    && WritableSection(m.additionals)
  }

  /** Section 4.1.1: identification, flags, and how many questions, answers, authority and additional records follow. */
  function HeaderOctets(m: Message): seq<Octet>
    requires WritableMessage(m)
  {
    Two(m.id) + Two(m.flags) + Two(1) + Two(|m.answers|) + Two(|m.authorities|) + Two(|m.additionals|)
  }

  /** Section 4.1.2: the one question. */
  function QuestionOctets(m: Message): seq<Octet>
    requires WritableMessage(m)
  {
    Wire(m.question) + [0] + Two(m.qtype) + Two(m.qclass)
  }

  function MessageOctets(m: Message): seq<Octet>
    requires WritableMessage(m)
  {
    HeaderOctets(m) + QuestionOctets(m)
      + SectionOctets(m.answers) + SectionOctets(m.authorities) + SectionOctets(m.additionals)
  }

  // ---------------------------------------------------------------- what the reader finds

  /** The whole name: the labels and, behind a pointer, those of the name it refers to. */
  function Resolved(msg: seq<Octet>, n: WireName): Option<Name> {
    match n.to
    case None => Some(n.labels)
    case Some(o) =>
      match NameAt(msg, o, o)
      case None => None
      case Some(rest) => Some(n.labels + rest)
  }

  /** The name refers backwards, to a name, and the whole is one the reader is meant for. */
  ghost predicate GoodName(msg: seq<Octet>, n: WireName, at: nat) {
    && Writable(n) && (n.to.Some? ==> n.to.value < at)
    && Resolved(msg, n).Some? && Resolved(msg, n).value != [] && AllPlain(Resolved(msg, n).value)
    && |Wire(Resolved(msg, n).value)| < NAME_BUFFER
  }

  lemma NameStands(msg: seq<Octet>, n: WireName, at: nat)
    requires GoodName(msg, n, at) && Stands(msg, at, NameOctets(n))
    ensures NameAt(msg, at, at) == Resolved(msg, n) && WireCount(msg, at) == |NameOctets(n)| && Readable(msg, at)
  {
    hide NameAt, WireCount, Wire, Stands;
    var w := Wire(n.labels);
    match n.to {
      case None =>
        StandsInside(msg, at, w, [0]);
        Slice(msg, at, w);
        OneStands(msg, at + |w|, 0);
        WireIsName(msg, n.labels, at, at);
      case Some(o) =>
        StandsInside(msg, at, w, PointerOctets(o));
        PointerIsName(msg, n.labels, NameAt(msg, o, o).value, at, at, o);
    }
  }

  lemma TwoStands(msg: seq<Octet>, at: nat, n: nat)
    requires n < 0x1_0000 && Stands(msg, at, Two(n))
    ensures Short16(msg, at) == n
  {
    assert msg[at] == msg[at..at+2][0] && msg[at+1] == msg[at..at+2][1];
  }

  /** The five fields of the fixed part. */
  lemma FieldsStand(msg: seq<Octet>, at: nat, a: nat, b: nat, c: nat, d: nat, e: nat)
    requires a < 0x1_0000 && b < 0x1_0000 && c < 0x1_0000 && d < 0x1_0000 && e < 0x1_0000
    requires Stands(msg, at, Two(a) + Two(b) + Two(c) + Two(d) + Two(e))
    ensures Short16(msg, at) == a && Short16(msg, at + 2) == b && Short16(msg, at + 4) == c
    ensures Short16(msg, at + 6) == d && Short16(msg, at + 8) == e
  {
    var (f, g, h, i, j) := (Two(a), Two(b), Two(c), Two(d), Two(e));
    hide Two, Short16;
    assert |f| == |g| == |h| == |i| == |j| == 2 by { TwoSize(a); TwoSize(b); TwoSize(c); TwoSize(d); TwoSize(e); }
    StandsInside(msg, at, f + g + h + i, j);
    StandsInside(msg, at, f + g + h, i);
    StandsInside(msg, at, f + g, h);
    StandsInside(msg, at, f, g);
    TwoStands(msg, at, a);
    TwoStands(msg, at + 2, b);
    TwoStands(msg, at + 4, c);
    TwoStands(msg, at + 6, d);
    TwoStands(msg, at + 8, e);
  }

  lemma TwoSize(n: nat)
    requires n < 0x1_0000
    ensures |Two(n)| == 2
  {
  }

  /** The reader finds every part of a record where the server wrote it. */
  lemma RecordStands(msg: seq<Octet>, r: Record, at: nat)
    requires WritableRecord(r) && GoodName(msg, r.owner, at) && Stands(msg, at, RecordOctets(r))
    ensures NameAt(msg, at, at) == Resolved(msg, r.owner) && Readable(msg, at) && FixedFits(msg, at)
    ensures FixedAt(msg, at) == at + |NameOctets(r.owner)| && TypeOf(msg, at) == r.typ
    ensures Short16(msg, FixedAt(msg, at) + 2) == r.cls
    ensures Short16(msg, FixedAt(msg, at) + 4) == r.ttlHigh && Short16(msg, FixedAt(msg, at) + 6) == r.ttlLow
    ensures DataLen(msg, at) == |DataOctets(r.data)| && DataAt(msg, at) == FixedAt(msg, at) + 10
    ensures EndOf(msg, at) == at + |RecordOctets(r)| <= |msg| && Stands(msg, DataAt(msg, at), DataOctets(r.data))
  {
    hide *;
    RecordParts(msg, r, at);
    OwnerGood(r);
    NameStands(msg, r.owner, at);
    FixedStands(msg, at, |NameOctets(r.owner)|, r.typ, r.cls, r.ttlHigh, r.ttlLow, |DataOctets(r.data)|);
  }

  lemma OwnerGood(r: Record)
    requires WritableRecord(r)
    ensures Writable(r.owner) && (r.data.Domain? ==> Writable(r.data.name)) && |DataOctets(r.data)| < 0x1_0000
    ensures r.typ < 0x1_0000 && r.cls < 0x1_0000 && r.ttlHigh < 0x1_0000 && r.ttlLow < 0x1_0000
  {
    hide Writable, DataOctets;
  }

  /** The fixed part behind an owner of `n` octets. */
  lemma FixedStands(msg: seq<Octet>, at: nat, n: nat, typ: nat, cls: nat, high: nat, low: nat, len: nat)
    requires typ < 0x1_0000 && cls < 0x1_0000 && high < 0x1_0000 && low < 0x1_0000 && len < 0x1_0000
    requires WireCount(msg, at) == n && at + n + 10 + len <= |msg|
    requires Stands(msg, at + n, Two(typ) + Two(cls) + Two(high) + Two(low) + Two(len))
    ensures FixedFits(msg, at) && FixedAt(msg, at) == at + n && TypeOf(msg, at) == typ && DataLen(msg, at) == len
    ensures Short16(msg, at + n + 2) == cls && Short16(msg, at + n + 4) == high && Short16(msg, at + n + 6) == low
    ensures DataAt(msg, at) == at + n + 10 && EndOf(msg, at) == at + n + 10 + len
  {
    hide WireCount, Stands, Two, Short16;
    FieldsStand(msg, at + n, typ, cls, high, low, len);
  }

  lemma RecordParts(msg: seq<Octet>, r: Record, at: nat)
    requires WritableRecord(r) && Stands(msg, at, RecordOctets(r))
    ensures var n, d := |NameOctets(r.owner)|, DataOctets(r.data);
      && |RecordOctets(r)| == n + 10 + |d| && at + n + 10 + |d| <= |msg| && Stands(msg, at, NameOctets(r.owner))
      && Stands(msg, at + n, Two(r.typ) + Two(r.cls) + Two(r.ttlHigh) + Two(r.ttlLow) + Two(|d|))
      && Stands(msg, at + n + 10, d)
  {
    var n, d := NameOctets(r.owner), DataOctets(r.data);
    var fixed := Two(r.typ) + Two(r.cls) + Two(r.ttlHigh) + Two(r.ttlLow) + Two(|d|);
    hide NameOctets, Two, Stands, DataOctets;
    assert |fixed| == 10 by {
      TwoSize(r.typ); TwoSize(r.cls); TwoSize(r.ttlHigh); TwoSize(r.ttlLow); TwoSize(|d|);
    }
    StandsInside(msg, at, n + fixed, d);
    StandsInside(msg, at, n, fixed);
    Slice(msg, at + |n| + 10, d);
  }

  /** A record the reader is meant for: its data are an address, or a name; with `auth` always a name. */
  ghost predicate GoodRecord(msg: seq<Octet>, r: Record, at: nat, auth: bool) {
    && WritableRecord(r) && GoodName(msg, r.owner, at)
    && if !auth && r.typ == 1 then r.data.Address?
       else r.data.Domain? && GoodName(msg, r.data.name, at + |NameOctets(r.owner)| + 10)
  }

  /** The slot holds the record as it was written: the dotted owner, the place of the fixed part, and the address or the
      dotted name of the data. */
  ghost predicate HoldsRecord(slot: ResRecord, msg: seq<Octet>, r: Record, at: nat, auth: bool)
    requires GoodRecord(msg, r, at, auth)
  {
    && Text(slot.name, Dotted(Resolved(msg, r.owner).value)) && slot.resource == at + |NameOctets(r.owner)|
    && match r.data
       case Address(octets) => slot.rdata == octets + [0]
       case Domain(n) => Text(slot.rdata, Dotted(Resolved(msg, n).value))
  }

  lemma RecordReads(msg: seq<Octet>, r: Record, at: nat, auth: bool)
    requires GoodRecord(msg, r, at, auth) && Stands(msg, at, RecordOctets(r))
    ensures RecordOk(msg, at, auth)
    ensures forall slot :: SlotHolds(slot, msg, at, auth) ==> HoldsRecord(slot, msg, r, at, auth)
  {
    RecordStands(msg, r, at);
    hide NameAt, WireCount, NameOctets, RecordOctets, Readable, Dotted, Text, Short16;
    if r.data.Domain? {
      NameStands(msg, r.data.name, DataAt(msg, at));
    }
  }

  ghost predicate WritableAll(rs: seq<Record>) {
    forall i :: 0 <= i < |rs| ==> WritableRecord(rs[i])
  }

  /** Where record `k` of a section was written. */
  function Place(rs: seq<Record>, at: nat, k: nat): nat
    requires WritableAll(rs) && k <= |rs|
  {
    at + |SectionOctets(rs[..k])|
  }

  ghost predicate GoodSection(msg: seq<Octet>, rs: seq<Record>, at: nat, auth: bool) {
    WritableAll(rs) && forall k :: 0 <= k < |rs| ==> GoodRecord(msg, rs[k], Place(rs, at, k), auth)
  }

  lemma SectionSnoc(rs: seq<Record>, k: nat)
    requires WritableAll(rs) && k < |rs|
    ensures SectionOctets(rs[..k+1]) == SectionOctets(rs[..k]) + RecordOctets(rs[k])
  {
    assert rs[..k+1][..k] == rs[..k] && rs[..k+1][k] == rs[k];
  }

  lemma {:induction false} SectionPrefix(msg: seq<Octet>, rs: seq<Record>, at: nat, k: nat, n: nat)
    requires WritableAll(rs) && k <= n <= |rs| && Stands(msg, at, SectionOctets(rs[..n]))
    ensures Stands(msg, at, SectionOctets(rs[..k]))
    decreases n
  {
    if k == n {
    } else {
      SectionSnoc(rs, n - 1);
      StandsInside(msg, at, SectionOctets(rs[..n-1]), RecordOctets(rs[n-1]));
      SectionPrefix(msg, rs, at, k, n - 1);
    }
  }

  lemma SectionAt(msg: seq<Octet>, rs: seq<Record>, at: nat, k: nat)
    requires WritableAll(rs) && k < |rs| && Stands(msg, at, SectionOctets(rs))
    ensures Stands(msg, Place(rs, at, k), RecordOctets(rs[k]))
    ensures Place(rs, at, k + 1) == Place(rs, at, k) + |RecordOctets(rs[k])|
  {
    hide Stands, SectionOctets, RecordOctets, WritableRecord;
    assert rs[..|rs|] == rs;
    SectionPrefix(msg, rs, at, k + 1, |rs|);
    SectionSnoc(rs, k);
    StandsInside(msg, at, SectionOctets(rs[..k]), RecordOctets(rs[k]));
  }

  /** The reader finds record `k` where it was written. */
  lemma {:induction false} RecordPlace(msg: seq<Octet>, rs: seq<Record>, at: nat, auth: bool, k: nat)
    requires WritableAll(rs) && GoodSection(msg, rs, at, auth) && k <= |rs| && Stands(msg, at, SectionOctets(rs))
    ensures RecordAt(msg, at, k) == Place(rs, at, k)
  {
    hide *;
    if k == 0 {
      PlaceZero(msg, rs, at);
    } else {
      RecordPlace(msg, rs, at, auth, k - 1);
      GoodAt(msg, rs, at, auth, k - 1);
      SectionAt(msg, rs, at, k - 1);
      PlaceEnds(msg, rs[k-1], Place(rs, at, k - 1), auth);
      RecordNext(msg, at, k);
    }
  }

  lemma PlaceZero(msg: seq<Octet>, rs: seq<Record>, at: nat)
    requires WritableAll(rs)
    ensures Place(rs, at, 0) == RecordAt(msg, at, 0)
  {
    assert rs[..0] == [];
  }

  lemma RecordNext(msg: seq<Octet>, at: nat, k: nat)
    requires k > 0
    ensures RecordAt(msg, at, k) == EndOf(msg, RecordAt(msg, at, k - 1))
  {
  }

  lemma GoodAt(msg: seq<Octet>, rs: seq<Record>, at: nat, auth: bool, k: nat)
    requires GoodSection(msg, rs, at, auth) && k < |rs|
    ensures WritableAll(rs) && GoodRecord(msg, rs[k], Place(rs, at, k), auth)
  {
  }

  lemma PlaceEnds(msg: seq<Octet>, r: Record, at: nat, auth: bool)
    requires GoodRecord(msg, r, at, auth) && Stands(msg, at, RecordOctets(r))
    ensures EndOf(msg, at) == at + |RecordOctets(r)|
  {
    RecordStands(msg, r, at);
  }

  /** A section is read as it was written. */
  lemma SectionReads(msg: seq<Octet>, rs: seq<Record>, at: nat, auth: bool, slots: seq<ResRecord>)
    requires GoodSection(msg, rs, at, auth) && Stands(msg, at, SectionOctets(rs))
    ensures SectionOk(msg, at, |rs|, auth) && RecordAt(msg, at, |rs|) == at + |SectionOctets(rs)|
    ensures |slots| == |rs| && AllHold(slots, msg, at, auth) ==>
      forall k :: 0 <= k < |rs| ==> HoldsRecord(slots[k], msg, rs[k], Place(rs, at, k), auth)
  {
    hide GoodRecord, HoldsRecord, SlotHolds, RecordOk, RecordOctets, Stands, RecordAt, SectionOctets;
    assert rs[..|rs|] == rs;
    RecordPlace(msg, rs, at, auth, |rs|);
    forall k | 0 <= k < |rs|
      ensures RecordOk(msg, RecordAt(msg, at, k), auth) && RecordAt(msg, at, k) == Place(rs, at, k)
      ensures forall slot :: SlotHolds(slot, msg, RecordAt(msg, at, k), auth) ==>
        HoldsRecord(slot, msg, rs[k], Place(rs, at, k), auth)
    {
      RecordPlace(msg, rs, at, auth, k);
      SectionAt(msg, rs, at, k);
      RecordReads(msg, rs[k], Place(rs, at, k), auth);
    }
  }

  /** Where the three sections were written. */
  function AnswersAt(m: Message): nat
    requires WritableMessage(m)
  {
    |HeaderOctets(m)| + |QuestionOctets(m)|
  }

  function AuthoritiesAt(m: Message): nat
    requires WritableMessage(m)
  {
    AnswersAt(m) + |SectionOctets(m.answers)|
  }

  function AdditionalsAt(m: Message): nat
    requires WritableMessage(m)
  {
    AuthoritiesAt(m) + |SectionOctets(m.authorities)|
  }

  /** A message the reader is meant for: at most twenty records in a section, each of them good. */
  ghost predicate GoodMessage(m: Message) {
    && WritableMessage(m) && |m.answers| <= 20 && |m.authorities| <= 20 && |m.additionals| <= 20
    && GoodSection(MessageOctets(m), m.answers, AnswersAt(m), false)
    && GoodSection(MessageOctets(m), m.authorities, AuthoritiesAt(m), true)
    && GoodSection(MessageOctets(m), m.additionals, AdditionalsAt(m), false)
  }

  lemma PartsStand(m: Message)
    requires WritableMessage(m)
    ensures var msg := MessageOctets(m);
      && Stands(msg, 0, HeaderOctets(m)) && Stands(msg, |HeaderOctets(m)|, QuestionOctets(m))
      && Stands(msg, AnswersAt(m), SectionOctets(m.answers))
      && Stands(msg, AuthoritiesAt(m), SectionOctets(m.authorities))
      && Stands(msg, AdditionalsAt(m), SectionOctets(m.additionals))
  {
    hide HeaderOctets, QuestionOctets, SectionOctets, Stands, WritableRecord, AllPlain;
    FiveStand(HeaderOctets(m), QuestionOctets(m), SectionOctets(m.answers), SectionOctets(m.authorities),
              SectionOctets(m.additionals));
  }

  lemma FiveStand(h: seq<Octet>, q: seq<Octet>, a: seq<Octet>, b: seq<Octet>, c: seq<Octet>)
    ensures var msg := h + q + a + b + c;
      && Stands(msg, 0, h) && Stands(msg, |h|, q) && Stands(msg, |h| + |q|, a) && Stands(msg, |h| + |q| + |a|, b)
      && Stands(msg, |h| + |q| + |a| + |b|, c)
  {
    var msg := h + q + a + b + c;
    assert Stands(msg, 0, msg);
    hide Stands;
    StandsInside(msg, 0, h + q + a + b, c);
    StandsInside(msg, 0, h + q + a, b);
    StandsInside(msg, 0, h + q, a);
    StandsInside(msg, 0, h, q);
  }

  /** The six fields of the header: the counts stand at octets 6, 8 and 10. */
  lemma HeaderStands(msg: seq<Octet>, m: Message)
    requires WritableMessage(m) && Stands(msg, 0, HeaderOctets(m))
    ensures |HeaderOctets(m)| == 12
    ensures Short16(msg, 6) == |m.answers| && Short16(msg, 8) == |m.authorities| && Short16(msg, 10) == |m.additionals|
  {
    var (n, x, y, z) := (1, |m.answers|, |m.authorities|, |m.additionals|);
    var rest := Two(m.flags) + Two(n) + Two(x) + Two(y) + Two(z);
    hide Short16, Two;
    TwoSize(m.id); TwoSize(m.flags); TwoSize(n); TwoSize(x); TwoSize(y); TwoSize(z);
    assert HeaderOctets(m) == Two(m.id) + rest;
    StandsInside(msg, 0, Two(m.id), rest);
    FieldsStand(msg, 2, m.flags, n, x, y, z);
  }

  /** The question is skipped: its name ends at the zero, and four octets follow. */
  lemma QuestionStands(msg: seq<Octet>, m: Message)
    requires WritableMessage(m) && Stands(msg, 12, QuestionOctets(m))
    ensures NameAt(msg, 12, 12).Some? && Uncompressed(msg, 12) && RecordsAt(msg) == 12 + |QuestionOctets(m)|
  {
    var w := Wire(m.question);
    StandsInside(msg, 12, w + [0], Two(m.qtype) + Two(m.qclass));
    assert w + [0] + Two(m.qtype) + Two(m.qclass) == (w + [0]) + (Two(m.qtype) + Two(m.qclass));
    StandsInside(msg, 12, w, [0]);
    assert msg[12+|w|..12+|w|+1] == [0];
    WireIsName(msg, m.question, 12, 12);
    WireUncompressed(msg, m.question, 12);
  }

  lemma {:induction false} WireUncompressed(msg: seq<Octet>, labels: Name, at: nat)
    requires AllPlain(labels) && Stands(msg, at, Wire(labels)) && at + |Wire(labels)| < |msg|
    requires msg[at+|Wire(labels)|] == 0
    ensures Uncompressed(msg, at)
    decreases |labels|
  {
    if labels == [] {
    } else {
      WireSplits(msg, at, labels[0], Wire(labels[1..]));
      WireUncompressed(msg, labels[1..], at + 1 + |labels[0]|);
    }
  }

  /** Slot `k` holds record `k` of the section as it was written. */
  ghost predicate SectionHeld(slots: seq<ResRecord>, msg: seq<Octet>, rs: seq<Record>, at: nat, auth: bool) {
    && GoodSection(msg, rs, at, auth) && |rs| <= |slots|
    && forall k :: 0 <= k < |rs| ==> HoldsRecord(slots[k], msg, rs[k], Place(rs, at, k), auth)
  }

  /** Where the reader looks for a section it was written, and its count is right. */
  ghost predicate SectionFound(msg: seq<Octet>, rs: seq<Record>, at: nat, auth: bool, count: nat, lookedFor: nat) {
    && GoodSection(msg, rs, at, auth) && Stands(msg, at, SectionOctets(rs)) && count == |rs| && lookedFor == at
    && SectionOk(msg, at, |rs|, auth)
  }

  ghost predicate MessageFound(m: Message, msg: seq<Octet>) {
    && WritableMessage(m) && MessageOk(msg)
    && SectionFound(msg, m.answers, AnswersAt(m), false, Short16(msg, 6), RecordsAt(msg))
    && SectionFound(msg, m.authorities, AuthoritiesAt(m), true, Short16(msg, 8), AuthorityAt(msg))
    && SectionFound(msg, m.additionals, AdditionalsAt(m), false, Short16(msg, 10), AdditionalAt(msg))
  }

  lemma SlotsHold(msg: seq<Octet>, rs: seq<Record>, at: nat, auth: bool, count: nat, lookedFor: nat,
                  slots: seq<ResRecord>)
    requires SectionFound(msg, rs, at, auth, count, lookedFor) && count <= |slots|
    requires SectionOk(msg, lookedFor, count, auth) && AllHold(slots[..count], msg, lookedFor, auth)
    ensures SectionHeld(slots, msg, rs, at, auth)
  {
    hide GoodRecord, HoldsRecord, SectionOk, AllHold, Stands, SectionOctets;
    SectionReads(msg, rs, at, auth, slots[..count]);
    forall k | 0 <= k < |rs| ensures HoldsRecord(slots[k], msg, rs[k], Place(rs, at, k), auth) {
      assert slots[..count][k] == slots[k];
    }
  }

  /** Where a section ends the next one begins. */
  lemma SectionEnds(msg: seq<Octet>, rs: seq<Record>, at: nat, auth: bool)
    requires GoodSection(msg, rs, at, auth) && Stands(msg, at, SectionOctets(rs))
    ensures SectionFound(msg, rs, at, auth, |rs|, at) && RecordAt(msg, at, |rs|) == at + |SectionOctets(rs)|
  {
    hide GoodSection, Stands, SectionOk, RecordAt, SectionOctets;
    SectionReads(msg, rs, at, auth, []);
  }

  /** Header and question lead to the first section, and the sections stand one behind the other. */
  lemma HeadReads(m: Message)
    requires WritableMessage(m)
    ensures var msg := MessageOctets(m);
      && |msg| >= HEADER_SIZE && NameAt(msg, HEADER_SIZE, HEADER_SIZE).Some? && Uncompressed(msg, HEADER_SIZE)
      && RecordsAt(msg) == AnswersAt(m)
      && Short16(msg, 6) == |m.answers| && Short16(msg, 8) == |m.authorities| && Short16(msg, 10) == |m.additionals|
  {
    var msg := MessageOctets(m);
    PartsStand(m);
    Slice(msg, 0, HeaderOctets(m));
    HeaderStands(msg, m);
    QuestionStands(msg, m);
    hide MessageOctets, HeaderOctets, QuestionOctets, SectionOctets, Short16, NameAt, Uncompressed, RecordsAt, Stands;
  }

  /** Three sections, each where the one before ends. */
  lemma SectionsFound(msg: seq<Octet>, a: seq<Record>, b: seq<Record>, c: seq<Record>, at: nat, next: nat, last: nat)
    requires HeadOk(msg) && at == RecordsAt(msg)
    requires Short16(msg, 6) == |a| <= 20 && Short16(msg, 8) == |b| <= 20 && Short16(msg, 10) == |c| <= 20
    requires GoodSection(msg, a, at, false) && GoodSection(msg, b, next, true) && GoodSection(msg, c, last, false)
    requires Stands(msg, at, SectionOctets(a)) && Stands(msg, next, SectionOctets(b))
    requires Stands(msg, last, SectionOctets(c))
    requires next == at + |SectionOctets(a)| && last == next + |SectionOctets(b)|
    ensures MessageOk(msg) && SectionFound(msg, a, at, false, Short16(msg, 6), RecordsAt(msg))
    ensures SectionFound(msg, b, next, true, Short16(msg, 8), AuthorityAt(msg))
    ensures SectionFound(msg, c, last, false, Short16(msg, 10), AdditionalAt(msg))
  {
    hide SectionOctets, GoodSection, SectionOk, RecordAt, RecordsAt, NameAt;
    hide Stands, Uncompressed, Short16, SectionFound;
    SectionEnds(msg, a, at, false);
    SectionEnds(msg, b, next, true);
    SectionEnds(msg, c, last, false);
    FoundOk(msg, a, at, false);
    FoundOk(msg, b, next, true);
    FoundOk(msg, c, last, false);
  }

  ghost predicate HeadOk(msg: seq<Octet>) {
    |msg| >= HEADER_SIZE && NameAt(msg, HEADER_SIZE, HEADER_SIZE).Some? && Uncompressed(msg, HEADER_SIZE)
  }

  lemma MessageReads(m: Message)
    requires GoodMessage(m)
    ensures MessageFound(m, MessageOctets(m))
  {
    var msg := MessageOctets(m);
    HeadReads(m);
    PartsStand(m);
    Counted(msg, m);
    SectionsFound(msg, m.answers, m.authorities, m.additionals, AnswersAt(m), AuthoritiesAt(m), AdditionalsAt(m));
    hide *;
    FoundAll(m, msg);
  }

  lemma FoundAll(m: Message, msg: seq<Octet>)
    requires WritableMessage(m) && MessageOk(msg)
    requires SectionFound(msg, m.answers, AnswersAt(m), false, Short16(msg, 6), RecordsAt(msg))
    requires SectionFound(msg, m.authorities, AuthoritiesAt(m), true, Short16(msg, 8), AuthorityAt(msg))
    requires SectionFound(msg, m.additionals, AdditionalsAt(m), false, Short16(msg, 10), AdditionalAt(msg))
    ensures MessageFound(m, msg)
  {
    hide SectionFound, WritableMessage;
  }

  lemma FoundOk(msg: seq<Octet>, rs: seq<Record>, at: nat, auth: bool)
    requires SectionFound(msg, rs, at, auth, |rs|, at)
    ensures SectionOk(msg, at, |rs|, auth)
  {
  }

  lemma Counted(msg: seq<Octet>, m: Message)
    requires WritableMessage(m)
    ensures AuthoritiesAt(m) == AnswersAt(m) + |SectionOctets(m.answers)|
    ensures AdditionalsAt(m) == AuthoritiesAt(m) + |SectionOctets(m.authorities)|
  {
  }

  /** What a server wrote is what parseDnsResult finds: slot `k` of each section holds record `k`, its owner and its
      name decompressed, its fixed part where it stands in the message. */
  method ParseWritten(answers: array<ResRecord>, auth: array<ResRecord>, addit: array<ResRecord>, m: Message)
    requires answers.Length == 20 && auth.Length == 20 && addit.Length == 20
    requires answers != auth && answers != addit && auth != addit && GoodMessage(m)
    modifies answers, auth, addit
    ensures SectionHeld(answers[..], MessageOctets(m), m.answers, AnswersAt(m), false)
    ensures SectionHeld(auth[..], MessageOctets(m), m.authorities, AuthoritiesAt(m), true)
    ensures SectionHeld(addit[..], MessageOctets(m), m.additionals, AdditionalsAt(m), false)
  {
    var msg := MessageOctets(m);
    MessageReads(m);
    ReadInto(answers, auth, addit, msg);
    AllSlotsHold(msg, m, answers[..], auth[..], addit[..]);
  }

  lemma AllSlotsHold(msg: seq<Octet>, m: Message, answers: seq<ResRecord>, auth: seq<ResRecord>, addit: seq<ResRecord>)
    requires |answers| == |auth| == |addit| == 20 && MessageFound(m, msg)
    requires AllHold(answers[..Short16(msg, 6)], msg, RecordsAt(msg), false)
    requires AllHold(auth[..Short16(msg, 8)], msg, AuthorityAt(msg), true)
    requires AllHold(addit[..Short16(msg, 10)], msg, AdditionalAt(msg), false)
    ensures SectionHeld(answers, msg, m.answers, AnswersAt(m), false)
    ensures SectionHeld(auth, msg, m.authorities, AuthoritiesAt(m), true)
    ensures SectionHeld(addit, msg, m.additionals, AdditionalsAt(m), false)
  {
    hide SectionFound, SectionOk, AllHold, SectionHeld, RecordAt, NameAt, Uncompressed, Short16;
    SlotsHold(msg, m.answers, AnswersAt(m), false, Short16(msg, 6), RecordsAt(msg), answers);
    SlotsHold(msg, m.authorities, AuthoritiesAt(m), true, Short16(msg, 8), AuthorityAt(msg), auth);
    SlotsHold(msg, m.additionals, AdditionalsAt(m), false, Short16(msg, 10), AdditionalAt(msg), addit);
  }

  /** ParseDnsResult, its slots seen as sequences. */
  method ReadInto(answers: array<ResRecord>, auth: array<ResRecord>, addit: array<ResRecord>, msg: seq<Octet>)
    requires answers.Length == 20 && auth.Length == 20 && addit.Length == 20
    requires answers != auth && answers != addit && auth != addit && MessageOk(msg)
    modifies answers, auth, addit
    ensures AllHold(answers[..][..Short16(msg, 6)], msg, RecordsAt(msg), false)
    ensures AllHold(auth[..][..Short16(msg, 8)], msg, AuthorityAt(msg), true)
    ensures AllHold(addit[..][..Short16(msg, 10)], msg, AdditionalAt(msg), false)
  {
    hide AllHold, SectionOk, RecordAt, NameAt, WireCount, Uncompressed;
    ParseDnsResult(answers, auth, addit, msg);
    assert answers[..Short16(msg, 6)] == answers[..][..Short16(msg, 6)];
    assert auth[..Short16(msg, 8)] == auth[..][..Short16(msg, 8)];
    assert addit[..Short16(msg, 10)] == addit[..][..Short16(msg, 10)];
  }
}
