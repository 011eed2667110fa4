/** The record cursor of dnsUtil.c (parseDnsResult): section 4.1.3 of RFC 1035. */
module DnsMessage {
  import opened DnsName

  const HEADER_SIZE := 12
  const QUESTION_SIZE := 4
  const R_DATA_SIZE := 10
  const MAX_RES_RECORD_CNT := 20
  const T_A := 1

  /** ntohs. */
  function Short16(msg: seq<Octet>, at: nat): nat
    requires at + 2 <= |msg|
  {
    var high: int := msg[at];
    high * 0x100 + msg[at+1]
  }

  // ---------------------------------------------------------------- where the records are

  /** The fixed part of the record at `pos` stands behind its owner name: type, class, time to live, data length. */
  function FixedAt(msg: seq<Octet>, pos: nat): nat {
    pos + WireCount(msg, pos)
  }

  predicate FixedFits(msg: seq<Octet>, pos: nat) {
    FixedAt(msg, pos) + R_DATA_SIZE <= |msg|
  }

  function TypeOf(msg: seq<Octet>, pos: nat): nat
    requires FixedFits(msg, pos)
  {
    Short16(msg, FixedAt(msg, pos))
  }

  function DataLen(msg: seq<Octet>, pos: nat): nat
    requires FixedFits(msg, pos)
  {
    Short16(msg, FixedAt(msg, pos) + 8)
  }

  function DataAt(msg: seq<Octet>, pos: nat): nat {
    FixedAt(msg, pos) + R_DATA_SIZE
  }

  /** Where the next record begins: behind as much data as the record says it has. */
  function EndOf(msg: seq<Octet>, pos: nat): nat {
    if FixedFits(msg, pos) then DataAt(msg, pos) + DataLen(msg, pos) else |msg|
  }

  /** Where record `k` of a section begins that begins at `pos`. */
  function RecordAt(msg: seq<Octet>, pos: nat, k: nat): nat {
    if k == 0 then pos else EndOf(msg, RecordAt(msg, pos, k - 1))
  }

  /** Its data is a name that fills it. */
  ghost predicate NameValued(msg: seq<Octet>, pos: nat)
    requires FixedFits(msg, pos)
  {
    Readable(msg, DataAt(msg, pos)) && WireCount(msg, DataAt(msg, pos)) == DataLen(msg, pos)
  }

  /** A record the reader is meant for: an address, or name-valued; `auth` leaves the name-valued ones only. */
  ghost predicate RecordOk(msg: seq<Octet>, pos: nat, auth: bool) {
    && Readable(msg, pos) && FixedFits(msg, pos) && EndOf(msg, pos) <= |msg|
    && if !auth && TypeOf(msg, pos) == T_A then true else NameValued(msg, pos)
  }

  ghost predicate SectionOk(msg: seq<Octet>, pos: nat, n: nat, auth: bool) {
    forall k :: 0 <= k < n ==> RecordOk(msg, RecordAt(msg, pos, k), auth)
  }

  // ---------------------------------------------------------------- the result slots

  /** RES_RECORD: what the two buffers hold, which nothing changes before they are freed, and the offset of the fixed
      part in the message. */
  datatype ResRecord = ResRecord(name: seq<Octet>, resource: nat, rdata: seq<Octet>)

  /** A buffer with the C string `s` in it. */
  ghost predicate Text(m: seq<Octet>, s: seq<Octet>) {
    |s| < |m| && m[..|s|] == s && m[|s|] == 0 && 0 !in s
  }

  /** The owner name of a record in dotted form. */
  function OwnerOf(msg: seq<Octet>, pos: nat): seq<Octet>
    requires NameAt(msg, pos, pos).Some? && NameAt(msg, pos, pos).value != []
  {
    Dotted(NameAt(msg, pos, pos).value)
  }

  /** The slot holds the record at `pos`: owner, fixed part, and the address octets or the dotted name. */
  ghost predicate SlotHolds(slot: ResRecord, msg: seq<Octet>, pos: nat, auth: bool)
    requires RecordOk(msg, pos, auth)
  {
    && Text(slot.name, OwnerOf(msg, pos)) && slot.resource == FixedAt(msg, pos)
    && if !auth && TypeOf(msg, pos) == T_A
       then slot.rdata == msg[DataAt(msg, pos)..EndOf(msg, pos)] + [0]
       else Text(slot.rdata, OwnerOf(msg, DataAt(msg, pos)))
  }

  /** The copy of an address record's data. */
  method CopyData(msg: seq<Octet>, reader: nat, len: nat) returns (rdata: array<Octet>)
    requires reader + len <= |msg|
    ensures fresh(rdata) && rdata.Length == len + 1 && rdata[..] == msg[reader..reader+len] + [0]
  {
    rdata := new Octet[len + 1];
    for j := 0 to len
      invariant rdata[..j] == msg[reader..reader+j]
    {
      rdata[j] := msg[reader+j];
    }
    rdata[len] := 0;
    assert rdata[..] == rdata[..len] + [rdata[len]];
  }

  /** The body of the answer loop and of the additional loop; with `auth`, of the authority loop, which takes every
      record for a name-valued one. */
  method ReadRecord(msg: seq<Octet>, at: nat, auth: bool) returns (slot: ResRecord, reader: nat)
    requires RecordOk(msg, at, auth)
    ensures SlotHolds(slot, msg, at, auth) && reader == EndOf(msg, at)
  {
    hide Readable, Holds, OwnerOf, NameAt, WireCount, Text;
    ReadableName(msg, at);
    var name, stop := ReadName(msg, at);
    HeldText(name, OwnerOf(msg, at));
    reader := at + stop;
    var resource := reader;
    reader := reader + R_DATA_SIZE;
    if !auth && Short16(msg, resource) == T_A {
      var len := Short16(msg, resource + 8);
      var rdata := CopyData(msg, reader, len);
      slot := ResRecord(name[..], resource, rdata[..]);
      reader := reader + len;
    } else {
      ReadableName(msg, reader);
      var rdata, stop2 := ReadName(msg, reader);
      HeldText(rdata, OwnerOf(msg, reader));
      slot := ResRecord(name[..], resource, rdata[..]);
      reader := reader + stop2;
    }
  }

  lemma HeldText(a: array<Octet>, s: seq<Octet>)
    requires Holds(a, s)
    ensures Text(a[..], s)
  {
  }

  lemma ReadableName(msg: seq<Octet>, pos: nat)
    requires Readable(msg, pos)
    ensures NameAt(msg, pos, pos).Some? && NameAt(msg, pos, pos).value != []
    ensures OwnerOf(msg, pos) == Dotted(NameAt(msg, pos, pos).value)
  {
  }

  /** Slot `i` holds record `i` of the section. */
  ghost predicate AllHold(slots: seq<ResRecord>, msg: seq<Octet>, at: nat, auth: bool)
    requires SectionOk(msg, at, |slots|, auth)
  {
    forall i :: 0 <= i < |slots| ==> SlotHolds(slots[i], msg, RecordAt(msg, at, i), auth)
  }

  lemma NoneToHold(msg: seq<Octet>, at: nat, auth: bool)
    ensures SectionOk(msg, at, 0, auth) && AllHold([], msg, at, auth)
  {
  }

  lemma OneMoreHolds(slots: seq<ResRecord>, slot: ResRecord, msg: seq<Octet>, at: nat, auth: bool)
    requires SectionOk(msg, at, |slots| + 1, auth) && AllHold(slots, msg, at, auth)
    requires SlotHolds(slot, msg, RecordAt(msg, at, |slots|), auth)
    ensures AllHold(slots + [slot], msg, at, auth)
  {
  }

  /** How many records of a section are read. */
  function Taken(loopCnt: nat): nat {
    if loopCnt < MAX_RES_RECORD_CNT then loopCnt else MAX_RES_RECORD_CNT
  }

  /** One section: slot `i` takes record `i`, up to the number of slots. */
  method ReadSection(slots: array<ResRecord>, msg: seq<Octet>, at: nat, loopCnt: nat, auth: bool) returns (reader: nat)
    requires slots.Length == MAX_RES_RECORD_CNT && SectionOk(msg, at, Taken(loopCnt), auth)
    modifies slots
    ensures reader == RecordAt(msg, at, Taken(loopCnt)) && AllHold(slots[..Taken(loopCnt)], msg, at, auth)
    ensures forall i :: Taken(loopCnt) <= i < slots.Length ==> slots[i] == old(slots[i])
  {
    hide RecordOk, EndOf, SlotHolds, AllHold;
    reader := at;
    NoneToHold(msg, at, auth);
    var i := 0;
    while i < loopCnt
      invariant 0 <= i <= Taken(loopCnt) && reader == RecordAt(msg, at, i)
      invariant SectionOk(msg, at, i, auth) && AllHold(slots[..i], msg, at, auth)
      invariant forall k :: i <= k < slots.Length ==> slots[k] == old(slots[k])
    {
      if i == MAX_RES_RECORD_CNT { break; }
      var slot, next := ReadRecord(msg, reader, auth);
      OneMoreHolds(slots[..i], slot, msg, at, auth);
      slots[i] := slot;
      assert slots[..i+1] == slots[..i] + [slot];
      reader := next;
      i := i + 1;
    }
  }

  // ---------------------------------------------------------------- the whole message

  /** The name at `pos` ends with a zero, not with a pointer. */
  predicate Uncompressed(msg: seq<Octet>, pos: nat)
    decreases |msg| - pos
  {
    pos < |msg| && (msg[pos] == 0 || (msg[pos] < FIRST_JUMP && Uncompressed(msg, pos + 1 + msg[pos])))
  }

  /** How far strlen goes. */
  function ZeroFrom(msg: seq<Octet>, pos: nat): (n: nat)
    decreases |msg| - pos
  {
    if pos >= |msg| || msg[pos] == 0 then 0 else 1 + ZeroFrom(msg, pos + 1)
  }

  lemma {:induction false} ZeroBehind(msg: seq<Octet>, pos: nat, n: nat)
    requires pos + n <= |msg| && forall i :: pos <= i < pos + n ==> msg[i] != 0
    ensures ZeroFrom(msg, pos) == n + ZeroFrom(msg, pos + n)
    decreases n
  {
    if n == 0 {
    } else {
      ZeroBehind(msg, pos + 1, n - 1);
    }
  }

  /** The string length of an uncompressed name and its terminator are what it takes on the wire. */
  lemma {:induction false} StrLenIsWire(msg: seq<Octet>, start: nat, pos: nat)
    requires NameAt(msg, start, pos).Some? && Uncompressed(msg, pos)
    ensures ZeroFrom(msg, pos) + 1 == WireCount(msg, pos) && pos + WireCount(msg, pos) <= |msg|
    decreases |msg| - pos
  {
    if msg[pos] == 0 {
    } else {
      var n := msg[pos];
      StrLenIsWire(msg, start, pos + 1 + n);
      ZeroBehind(msg, pos, 1 + n);
    }
  }

  method StrLenAt(msg: seq<Octet>, at: nat) returns (n: nat)
    requires at + ZeroFrom(msg, at) < |msg|
    ensures n == ZeroFrom(msg, at)
  {
    n := 0;
    while msg[at+n] != 0
      invariant n + ZeroFrom(msg, at + n) == ZeroFrom(msg, at)
      decreases ZeroFrom(msg, at) - n
    {
      n := n + 1;
    }
  }

  /** The records begin behind the header and the one question. */
  function RecordsAt(msg: seq<Octet>): nat {
    HEADER_SIZE + WireCount(msg, HEADER_SIZE) + QUESTION_SIZE
  }

  function AuthorityAt(msg: seq<Octet>): nat
    requires |msg| >= HEADER_SIZE
  {
    RecordAt(msg, RecordsAt(msg), Short16(msg, 6))
  }

  function AdditionalAt(msg: seq<Octet>): nat
    requires |msg| >= HEADER_SIZE
  {
    RecordAt(msg, AuthorityAt(msg), Short16(msg, 8))
  }

  /** A message with an uncompressed question and at most 20 well-formed records in each section. */
  ghost predicate MessageOk(msg: seq<Octet>) {
    && |msg| >= HEADER_SIZE && NameAt(msg, HEADER_SIZE, HEADER_SIZE).Some? && Uncompressed(msg, HEADER_SIZE)
    && Short16(msg, 6) <= MAX_RES_RECORD_CNT && SectionOk(msg, RecordsAt(msg), Short16(msg, 6), false)
    && Short16(msg, 8) <= MAX_RES_RECORD_CNT && SectionOk(msg, AuthorityAt(msg), Short16(msg, 8), true)
    && Short16(msg, 10) <= MAX_RES_RECORD_CNT && SectionOk(msg, AdditionalAt(msg), Short16(msg, 10), false)
  }

  /** parseDnsResult: slot `i` of each section holds record `i` of that section of the message. */
  method ParseDnsResult(answers: array<ResRecord>, auth: array<ResRecord>, addit: array<ResRecord>, msg: seq<Octet>)
    requires answers.Length == MAX_RES_RECORD_CNT && auth.Length == MAX_RES_RECORD_CNT
      && addit.Length == MAX_RES_RECORD_CNT
    requires answers != auth && answers != addit && auth != addit
    requires MessageOk(msg)
    modifies answers, auth, addit
    ensures AllHold(answers[..Short16(msg, 6)], msg, RecordsAt(msg), false)
    ensures AllHold(auth[..Short16(msg, 8)], msg, AuthorityAt(msg), true)
    ensures AllHold(addit[..Short16(msg, 10)], msg, AdditionalAt(msg), false)
  {
    hide AllHold, SectionOk, RecordAt, NameAt, WireCount, Uncompressed, ZeroFrom;
    StrLenIsWire(msg, HEADER_SIZE, HEADER_SIZE);
    var query := StrLenAt(msg, HEADER_SIZE);
    var reader := HEADER_SIZE + (query + 1) + QUESTION_SIZE;
    reader := ReadSection(answers, msg, reader, Short16(msg, 6), false);
    reader := ReadSection(auth, msg, reader, Short16(msg, 8), true);
    reader := ReadSection(addit, msg, reader, Short16(msg, 10), false);
  }
}
