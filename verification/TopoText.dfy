/** The node records of src/topo and the text they travel in. */
module TopoText {
  import opened Sequences

  const BAR := '|'
  const EOL := '\n'
  const FIELD_MAX := 127

  /** node_info_t. `heartbeat` is zero for a record that no pod message has touched. */
  datatype NodeInfo = NodeInfo(
    name: string, typ: string, group: string,
    mgntPri: string, mgntSec: string, mgntPort: string,
    servPri: string, servSec: string,
    infoName: string, vnfcId: string,
    nodeName: string, podName: string,
    checked: bool, heartbeat: int)
  {
    /** The part of a record a client compares. */
    function Addresses(): (string, string) {
      (mgntPri, servPri)
    }

    /** The fields of a reply line. */
    function Fields(): seq<string> {
      [name, typ, group, mgntPri, mgntSec, mgntPort, servPri, servSec, infoName, vnfcId]
    }
  }

  // ---------------------------------------------------------------- sscanf

  /** %127[^|]: what stands before the next bar, cut at `max`. */
  function ScanField(s: string, max: nat): string {
    if s == "" || max == 0 || s[0] == BAR then "" else [s[0]] + ScanField(s[1..], max - 1)
  }

  predicate White(c: char) {
    c == ' ' || c == '\t' || c == '\n' || c == '\r' || c == '\U{0B}' || c == '\U{0C}'
  }

  predicate NoWhite(s: string) {
    forall i :: 0 <= i < |s| ==> !White(s[i])
  }

  function SkipWhite(s: string): string {
    if s != "" && White(s[0]) then SkipWhite(s[1..]) else s
  }

  /** %127s, without the white space in front. */
  function ScanWord(s: string, max: nat): string {
    if s == "" || max == 0 || White(s[0]) then "" else [s[0]] + ScanWord(s[1..], max - 1)
  }

  /** The fields matched by `n` times "%127[^|]|" and one "%127s": matching stops at the first empty field and
      at a field not followed by a bar. */
  function ScanFields(s: string, n: nat): (fields: seq<string>)
    ensures |fields| <= n + 1
  {
    if n == 0 then
      var w := ScanWord(SkipWhite(s), FIELD_MAX);
      if w == "" then [] else [w]
    else
      var f := ScanField(s, FIELD_MAX);
      FieldLength(s, FIELD_MAX);
      if f == "" then []
      else if |f| < |s| && s[|f|] == BAR then [f] + ScanFields(s[|f|+1..], n - 1)
      else [f]
  }

  lemma {:induction false} FieldLength(s: string, max: nat)
    ensures |ScanField(s, max)| <= |s|
  {
    if s != "" && max > 0 && s[0] != BAR { FieldLength(s[1..], max - 1); }
  }

  /** A field never matched stays empty, the record having been cleared. */
  function FieldAt(fields: seq<string>, i: nat): string {
    if i < |fields| then fields[i] else ""
  }

  /** assoc_info_get_from_pod. */
  function ParsePod(msg: string): Option<NodeInfo> {
    var f := ScanFields(msg, 7);
    if f == [] then None
    else
      Some(NodeInfo(
        FieldAt(f, 0), FieldAt(f, 1), FieldAt(f, 2), FieldAt(f, 3), "NULL", FieldAt(f, 5), FieldAt(f, 4), "NULL",
        "", "", FieldAt(f, 6), FieldAt(f, 7), false, 0))
  }

  /** assoc_info_get_from_omp. */
  function ParseOmp(line: string): Option<NodeInfo> {
    var f := ScanFields(line, 9);
    if f == [] then None
    else
      Some(NodeInfo(
        FieldAt(f, 0), FieldAt(f, 1), FieldAt(f, 2), FieldAt(f, 3), FieldAt(f, 4), FieldAt(f, 5), FieldAt(f, 6),
        FieldAt(f, 7), FieldAt(f, 8), FieldAt(f, 9), "", "", false, 0))
  }

  // ---------------------------------------------------------------- printing

  /** assoc_info_reply_cb without the end of line. The port is an array, so it is always printed. */
  function Line(info: NodeInfo): string {
    JoinWith(info.Fields(), BAR)
  }

  /** The message of udp_client_proc. */
  function PodMessage(name: string, typ: string, group: string, nodeIp: string, podIp: string, port: string,
                      nodeName: string, podName: string): string {
    JoinWith([name, typ, group, nodeIp, podIp, port, nodeName, podName], BAR)
  }

  /** strtok on "\n": the pieces that are not empty. */
  function Tokens(msg: string): seq<string> {
    NotEmpty(SplitOn(msg, EOL))
  }

  function NotEmpty(pieces: seq<string>): seq<string> {
    if pieces == [] then [] else (if pieces[0] == "" then [] else [pieces[0]]) + NotEmpty(pieces[1..])
  }

  // ---------------------------------------------------------------- they undo each other

  /** A field that survives the way through a line. */
  predicate Clean(f: string) {
    BAR !in f && EOL !in f && |f| <= FIELD_MAX
  }

  lemma {:induction false} ScanWhole(f: string, rest: string, max: nat)
    requires BAR !in f && |f| <= max && (rest == "" || rest[0] == BAR)
    ensures ScanField(f + rest, max) == f
  {
    if f == "" {
      assert f + rest == rest;
    } else {
      assert (f + rest)[1..] == f[1..] + rest;
      ScanWhole(f[1..], rest, max - 1);
    }
  }

  predicate AllClean(fields: seq<string>) {
    forall i :: 0 <= i < |fields| ==> Clean(fields[i])
  }

  predicate NoneEmpty(fields: seq<string>, m: nat) {
    forall i :: 0 <= i < |fields| && i < m ==> fields[i] != ""
  }

  /** The first `m` fields are those scanned first. */
  predicate Leads(scanned: seq<string>, fields: seq<string>, m: nat)
    requires m <= |fields|
  {
    |scanned| >= m && forall i :: 0 <= i < m ==> scanned[i] == fields[i]
  }

  /** Scanning a joined line gives back its leading fields as far as they are not empty. */
  lemma {:induction false} ScanJoined(fields: seq<string>, m: nat)
    requires m < |fields| && AllClean(fields) && NoneEmpty(fields, m)
    ensures Leads(ScanFields(JoinWith(fields, BAR), |fields| - 1), fields, m)
    decreases |fields|
  {
    hide ScanFields, JoinWith, AllClean, NoneEmpty, Leads, Clean;
    if m == 0 {
      LeadsNone(ScanFields(JoinWith(fields, BAR), |fields| - 1), fields);
    } else {
      Unfold(fields, m);
      ScanJoined(fields[1..], m - 1);
      ScanFirst(fields);
      OneMoreField(fields, ScanFields(JoinWith(fields[1..], BAR), |fields| - 2), m);
    }
  }

  lemma LeadsNone(scanned: seq<string>, fields: seq<string>)
    ensures Leads(scanned, fields, 0)
  {
  }

  lemma Unfold(fields: seq<string>, m: nat)
    requires 0 < m < |fields| && AllClean(fields) && NoneEmpty(fields, m)
    ensures AllClean(fields[1..]) && NoneEmpty(fields[1..], m - 1) && Clean(fields[0]) && fields[0] != ""
  {
    hide Clean;
  }

  lemma ScanFirst(fields: seq<string>)
    requires |fields| > 1 && Clean(fields[0]) && fields[0] != ""
    ensures ScanFields(JoinWith(fields, BAR), |fields| - 1)
            == [fields[0]] + ScanFields(JoinWith(fields[1..], BAR), |fields| - 2)
  {
    hide ScanFields;
    ScanStep(fields[0], JoinWith(fields[1..], BAR), |fields| - 1);
  }

  lemma OneMoreField(fields: seq<string>, rest: seq<string>, m: nat)
    requires 0 < m < |fields| && Leads(rest, fields[1..], m - 1)
    ensures Leads([fields[0]] + rest, fields, m)
  {
  }

  /** One field and its bar. */
  lemma ScanStep(f: string, rest: string, n: nat)
    requires Clean(f) && f != "" && n > 0
    ensures ScanFields(f + [BAR] + rest, n) == [f] + ScanFields(rest, n - 1)
  {
    hide ScanField, ScanWord, SkipWhite;
    var s := f + [BAR] + rest;
    assert s == f + ([BAR] + rest);
    ScanWhole(f, [BAR] + rest, FIELD_MAX);
    assert s[|f|+1..] == rest;
  }

  /** What a record needs so that a client reads its name and addresses right: clean fields, the first seven not
      empty. */
  predicate Readable(info: NodeInfo) {
    && (forall i :: 0 <= i < 10 ==> Clean(info.Fields()[i]))
    && (forall i :: 0 <= i < 7 ==> info.Fields()[i] != "")
  }

  /** The reply printer and the line parser undo each other on what a client compares. */
  lemma LineRoundTrip(info: NodeInfo)
    requires Readable(info)
    ensures var p := ParseOmp(Line(info));
      p.Some? && p.value.name == info.name && p.value.Addresses() == info.Addresses()
  {
    var f := info.Fields();
    ScanJoined(f, 7);
    var scanned := ScanFields(Line(info), 9);
    assert scanned[0] == f[0] && scanned[3] == f[3] && scanned[6] == f[6];
  }

  lemma {:induction false} WordWhole(w: string, max: nat)
    requires |w| <= max && NoWhite(w)
    ensures ScanWord(w, max) == w && SkipWhite(w) == w
  {
    if w == "" {
    } else {
      WordWhole(w[1..], max - 1);
    }
  }

  /** If no field is empty, every field comes back. */
  lemma {:induction false} ScanAll(fields: seq<string>)
    requires |fields| >= 1 && forall i :: 0 <= i < |fields| ==> Clean(fields[i]) && fields[i] != ""
    requires NoWhite(fields[|fields|-1])
    ensures ScanFields(JoinWith(fields, BAR), |fields| - 1) == fields
  {
    hide ScanFields;
    if |fields| == 1 {
      WordWhole(fields[0], FIELD_MAX);
      ScanLast(fields[0]);
    } else {
      ScanStep(fields[0], JoinWith(fields[1..], BAR), |fields| - 1);
      ScanAll(fields[1..]);
    }
  }

  lemma ScanLast(s: string)
    requires s != "" && ScanWord(s, FIELD_MAX) == s && SkipWhite(s) == s
    ensures ScanFields(s, 0) == [s]
  {
  }

  /** Scanning stops at the first empty field. */
  lemma {:induction false} ScanUntilEmpty(fields: seq<string>, m: nat)
    requires m < |fields| && fields[m] == "" && CleanTo(fields, m)
    ensures ScanFields(JoinWith(fields, BAR), |fields| - 1) == fields[..m]
    decreases m
  {
    hide ScanFields, JoinWith, CleanTo, Clean;
    if m == 0 {
      ScanNothing(fields);
    } else {
      CleanTail(fields, m);
      ScanUntilEmpty(fields[1..], m - 1);
      ScanFirst(fields);
      FirstOf(fields, m);
    }
  }

  /** The first `m` fields are clean and not empty. */
  predicate CleanTo(fields: seq<string>, m: nat)
    requires m <= |fields|
  {
    forall i :: 0 <= i < m ==> Clean(fields[i]) && fields[i] != ""
  }

  lemma CleanTail(fields: seq<string>, m: nat)
    requires 0 < m < |fields| && CleanTo(fields, m)
    ensures CleanTo(fields[1..], m - 1) && Clean(fields[0]) && fields[0] != "" && fields[1..][m-1] == fields[m]
  {
    hide Clean;
  }

  lemma FirstOf(fields: seq<string>, m: nat)
    requires 0 < m < |fields|
    ensures fields[..m] == [fields[0]] + fields[1..][..m-1]
  {
  }

  lemma ScanNothing(fields: seq<string>)
    requires |fields| >= 1 && fields[0] == ""
    ensures ScanFields(JoinWith(fields, BAR), |fields| - 1) == []
  {
    var s := JoinWith(fields, BAR);
    if |fields| > 1 {
      assert s == [BAR] + JoinWith(fields[1..], BAR);
    }
  }

  /** A field longer than 127 characters is cut there, and nothing behind it is read. */
  lemma LongField(f: string, rest: string, n: nat)
    requires BAR !in f && |f| > 127 && n > 0
    ensures ScanFields(f + rest, n) == [f[..127]]
  {
    var s := f + rest;
    FieldCut(f, rest, FIELD_MAX);
    assert s[127] == f[127] != BAR;
    hide ScanField;
  }

  lemma {:induction false} FieldCut(f: string, rest: string, max: nat)
    requires BAR !in f && |f| > max
    ensures ScanField(f + rest, max) == f[..max]
  {
    if max == 0 {
    } else {
      assert (f + rest)[1..] == f[1..] + rest;
      FieldCut(f[1..], rest, max - 1);
      assert f[..max] == [f[0]] + f[1..][..max-1];
    }
  }

  /** Blank, tabulators, and the ends of lines and pages. */
  predicate IsSpace(c: char) {
    c in {' ', '\t', '\n', '\r', '\U{0B}', '\U{0C}'}
  }

  /** The last field is the first word there: white space in front of it is skipped, and white space ends it. */
  lemma LastField(lead: string, w: string, rest: string)
    requires (forall i :: 0 <= i < |lead| ==> IsSpace(lead[i])) && (forall i :: 0 <= i < |w| ==> !IsSpace(w[i]))
    requires 1 <= |w| <= 127 && (rest == "" || IsSpace(rest[0]))
    ensures ScanFields(lead + w + rest, 0) == [w]
  {
    LeadSkipped(lead, w + rest);
    assert lead + w + rest == lead + (w + rest);
    WordTaken(w, rest, FIELD_MAX);
  }

  lemma {:induction false} LeadSkipped(lead: string, s: string)
    requires (forall i :: 0 <= i < |lead| ==> IsSpace(lead[i])) && s != "" && !IsSpace(s[0])
    ensures SkipWhite(lead + s) == s
  {
    if lead == "" {
      assert lead + s == s;
    } else {
      assert (lead + s)[1..] == lead[1..] + s;
      LeadSkipped(lead[1..], s);
    }
  }

  lemma {:induction false} WordTaken(w: string, rest: string, max: nat)
    requires (forall i :: 0 <= i < |w| ==> !IsSpace(w[i])) && |w| <= max && (rest == "" || IsSpace(rest[0]))
    ensures ScanWord(w + rest, max) == w
  {
    if w == "" {
      assert w + rest == rest;
    } else {
      assert (w + rest)[1..] == w[1..] + rest;
      WordTaken(w[1..], rest, max - 1);
    }
  }

  /** What a client reads in a line: the leading fields as far as none is empty, `m` of them, each in its place, and
      nothing in the others. */
  lemma LineRead(info: NodeInfo, m: nat)
    requires m <= 10 && CleanTo(info.Fields(), m)
    requires if m < 10 then info.Fields()[m] == "" else NoWhite(info.vnfcId)
    ensures m == 0 ==> ParseOmp(Line(info)).None?
    ensures m > 0 ==> ParseOmp(Line(info)) == Some(NodeInfo(
      info.name,
      if m > 1 then info.typ else "", if m > 2 then info.group else "",
      if m > 3 then info.mgntPri else "", if m > 4 then info.mgntSec else "", if m > 5 then info.mgntPort else "",
      if m > 6 then info.servPri else "", if m > 7 then info.servSec else "",
      if m > 8 then info.infoName else "", if m > 9 then info.vnfcId else "", "", "", false, 0))
  {
    var f := info.Fields();
    if m < 10 {
      ScanUntilEmpty(f, m);
    } else {
      ScanAll(f);
    }
    hide ScanFields, JoinWith, Clean;
    var scanned := ScanFields(Line(info), 9);
    assert |scanned| == m && forall i :: 0 <= i < m ==> scanned[i] == f[i];
  }

  /** A line of a reply, spelt out. */
  lemma LineText(info: NodeInfo)
    ensures Line(info)
            == info.name + ("|" + (info.typ + ("|" + (info.group + ("|" + (info.mgntPri + ("|" + (info.mgntSec + ("|"
               + (info.mgntPort + ("|" + (info.servPri + ("|" + (info.servSec + ("|" + (info.infoName + ("|"
               + info.vnfcId)))))))))))))))))
  {
    var f := info.Fields();
    hide JoinWith;
    assert f == f[0..];
    JoinFrom(f, 9);
    JoinFrom(f, 8);
    JoinFrom(f, 7);
    JoinFrom(f, 6);
    JoinFrom(f, 5);
    JoinFrom(f, 4);
    JoinFrom(f, 3);
    JoinFrom(f, 2);
    JoinFrom(f, 1);
    JoinFrom(f, 0);
    assert JoinWith(f[8..], BAR) == f[8] + ("|" + JoinWith(f[9..], BAR));
    assert JoinWith(f[7..], BAR) == f[7] + ("|" + JoinWith(f[8..], BAR));
    assert JoinWith(f[6..], BAR) == f[6] + ("|" + JoinWith(f[7..], BAR));
    assert JoinWith(f[5..], BAR) == f[5] + ("|" + JoinWith(f[6..], BAR));
    assert JoinWith(f[4..], BAR) == f[4] + ("|" + JoinWith(f[5..], BAR));
    assert JoinWith(f[3..], BAR) == f[3] + ("|" + JoinWith(f[4..], BAR));
    assert JoinWith(f[2..], BAR) == f[2] + ("|" + JoinWith(f[3..], BAR));
    assert JoinWith(f[1..], BAR) == f[1] + ("|" + JoinWith(f[2..], BAR));
    assert JoinWith(f[0..], BAR) == f[0] + ("|" + JoinWith(f[1..], BAR));
  }

  lemma JoinFrom(fields: seq<string>, i: nat)
    requires i < |fields|
    ensures i + 1 == |fields| ==> JoinWith(fields[i..], BAR) == fields[i]
    ensures i + 1 < |fields| ==> JoinWith(fields[i..], BAR) == fields[i] + ("|" + JoinWith(fields[i+1..], BAR))
  {
    assert fields[i..][1..] == fields[i+1..];
    if i + 1 < |fields| {
      assert fields[i] + [BAR] + JoinWith(fields[i+1..], BAR) == fields[i] + ("|" + JoinWith(fields[i+1..], BAR));
    }
  }

  /** The server reads the message of a pod as the pod wrote it. */
  lemma PodRoundTrip(
    name: string, typ: string, group: string, nodeIp: string, podIp: string, port: string,
    nodeName: string, podName: string)
    requires forall f :: f in [name, typ, group, nodeIp, podIp, port, nodeName, podName] ==> Clean(f) && f != ""
    requires NoWhite(podName)
    ensures ParsePod(PodMessage(name, typ, group, nodeIp, podIp, port, nodeName, podName))
            == Some(NodeInfo(name, typ, group, nodeIp, "NULL", port, podIp, "NULL", "", "", nodeName, podName,
                             false, 0))
  {
    hide ScanFields;
    var f := [name, typ, group, nodeIp, podIp, port, nodeName, podName];
    forall i | 0 <= i < 8 ensures Clean(f[i]) && f[i] != "" {
      assert f[i] in f;
    }
    ScanAll(f);
  }

  // ---------------------------------------------------------------- a whole reply

  /** The reply for a table: one line for each record. */
  function Reply(infos: seq<NodeInfo>): string {
    if infos == [] then "" else Line(infos[0]) + [EOL] + Reply(infos[1..])
  }

  lemma {:induction false} NoneJoined(fields: seq<string>)
    requires |fields| >= 1 && forall i :: 0 <= i < |fields| ==> EOL !in fields[i]
    ensures EOL !in JoinWith(fields, BAR)
  {
    if |fields| <= 1 {
    } else {
      NoneJoined(fields[1..]);
    }
  }

  /** Cutting a reply at its line ends gives back the lines. */
  lemma {:induction false} ReplyTokens(infos: seq<NodeInfo>)
    requires forall i :: 0 <= i < |infos| ==> Readable(infos[i])
    ensures |Tokens(Reply(infos))| == |infos|
    ensures forall i :: 0 <= i < |infos| ==> Tokens(Reply(infos))[i] == Line(infos[i])
  {
    if infos == [] {
      assert SplitOn("", EOL) == [""];
      assert NotEmpty([""]) == [] + NotEmpty([]);
    } else {
      var line, s := Line(infos[0]), Reply(infos);
      var rest := infos[1..];
      NoneJoined(infos[0].Fields());
      assert s[|line|] == EOL && s[..|line|] == line && s[|line|+1..] == Reply(rest);
      SplitAtFirst(s, EOL, |line|);
      ReplyTokens(rest);
      LineNotEmpty(infos[0]);
      assert ([line] + SplitOn(Reply(rest), EOL))[1..] == SplitOn(Reply(rest), EOL);
      assert Tokens(s) == [line] + Tokens(Reply(rest));
      forall i | 0 <= i < |infos| ensures Tokens(s)[i] == Line(infos[i]) {
        if i > 0 { assert infos[i] == rest[i-1]; }
      }
    }
  }

  lemma LineNotEmpty(info: NodeInfo)
    ensures Line(info) != ""
  {
    assert |info.Fields()| == 10;
  }
}
