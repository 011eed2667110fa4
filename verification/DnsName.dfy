/** Domain names on the wire and in dotted form (ReadName and ChangetoDnsNameFormat of dnsUtil.c): sections 3.1 and
    4.1.4 of RFC 1035. */
module DnsName {
  import opened Sequences

  type Octet = b: int | 0 <= b < 0x100
  type Name = seq<seq<Octet>>

  const DOT: Octet := 46
  const NAME_BUFFER := 256
  const FIRST_JUMP := 192

  /** Labels whose length fits an octet. */
  ghost predicate Short(labels: Name) {
    forall i :: 0 <= i < |labels| ==> |labels[i]| < 0x100
  }

  /** The expanded form of a name without the zero at its end: each label behind its length. */
  function Wire(labels: Name): seq<Octet>
    requires Short(labels)
  {
    if labels == [] then [] else [|labels[0]|] + labels[0] + Wire(labels[1..])
  }

  /** Where a pointer leads. */
  function Target(msg: seq<Octet>, pos: nat): nat
    requires pos + 1 < |msg| && msg[pos] >= FIRST_JUMP
  {
    (msg[pos] - FIRST_JUMP) * 0x100 + msg[pos+1]
  }

  /** An octet that is neither the end of a name nor a pointer. */
  predicate Plain(b: Octet) {
    1 <= b < FIRST_JUMP
  }

  ghost predicate PlainLabel(l: seq<Octet>) {
    1 <= |l| < FIRST_JUMP && forall i :: 0 <= i < |l| ==> Plain(l[i])
  }

  ghost predicate AllPlain(labels: Name) {
    forall i :: 0 <= i < |labels| ==> PlainLabel(labels[i])
  }

  /** The name at `pos`, in a run of labels that began at `start`: labels up to a zero or a pointer, and behind a
      pointer the name there. A pointer leads to before the run it ends. */
  function NameAt(msg: seq<Octet>, start: nat, pos: nat): Option<Name>
    decreases start, |msg| - pos
  {
    if pos >= |msg| then None
    else if msg[pos] == 0 then Some([])
    else if msg[pos] >= FIRST_JUMP then
      if pos + 1 < |msg| && Target(msg, pos) < start then NameAt(msg, Target(msg, pos), Target(msg, pos)) else None
    else
      var n := msg[pos];
      if pos + 1 + n > |msg| || exists i :: pos < i <= pos + n && !Plain(msg[i]) then None
      else
        match NameAt(msg, start, pos + 1 + n)
        case None => None
        case Some(rest) => Some([msg[pos+1..pos+1+n]] + rest)
  }

  /** How many octets the name takes where it stands: up to the zero, or up to the pointer. */
  function WireCount(msg: seq<Octet>, pos: nat): nat
    decreases |msg| - pos
  {
    if pos >= |msg| || msg[pos] == 0 then 1
    else if msg[pos] >= FIRST_JUMP then 2
    else 1 + msg[pos] + WireCount(msg, pos + 1 + msg[pos])
  }

  /** A name the reader is meant for: not the root, and short enough for its buffer. */
  ghost predicate Readable(msg: seq<Octet>, pos: nat) {
    var name := NameAt(msg, pos, pos);
    name.Some? && name.value != [] && (NameIsPlain(msg, pos, pos); |Wire(name.value)| < NAME_BUFFER)
  }

  lemma {:induction false} NameIsPlain(msg: seq<Octet>, start: nat, pos: nat)
    ensures NameAt(msg, start, pos).Some? ==> AllPlain(NameAt(msg, start, pos).value)
    decreases start, |msg| - pos
  {
    if NameAt(msg, start, pos).Some? && msg[pos] != 0 {
      if msg[pos] >= FIRST_JUMP {
        NameIsPlain(msg, Target(msg, pos), Target(msg, pos));
      } else {
        NameIsPlain(msg, start, pos + 1 + msg[pos]);
      }
    }
  }

  // ---------------------------------------------------------------- octet by octet

  /** The octets a walk along the name collects. */
  function Walk(msg: seq<Octet>, start: nat, pos: nat): Option<seq<Octet>>
    decreases start, |msg| - pos
  {
    if pos >= |msg| then None
    else if msg[pos] == 0 then Some([])
    else if msg[pos] >= FIRST_JUMP then
      if pos + 1 < |msg| && Target(msg, pos) < start then Walk(msg, Target(msg, pos), Target(msg, pos)) else None
    else
      match Walk(msg, start, pos + 1)
      case None => None
      case Some(rest) => Some([msg[pos]] + rest)
  }

  /** How many octets the walk passes before it ends or jumps, and what ends it: the zero or the two of a pointer. */
  function WalkCount(msg: seq<Octet>, pos: nat): nat
    decreases |msg| - pos
  {
    if pos >= |msg| || msg[pos] == 0 then 1
    else if msg[pos] >= FIRST_JUMP then 2
    else 1 + WalkCount(msg, pos + 1)
  }

  /** A walk passes plain octets one by one. */
  lemma {:induction false} WalkOver(msg: seq<Octet>, start: nat, pos: nat, n: nat)
    requires pos + n <= |msg| && forall i :: pos <= i < pos + n ==> Plain(msg[i])
    requires Walk(msg, start, pos + n).Some?
    ensures Walk(msg, start, pos) == Some(msg[pos..pos+n] + Walk(msg, start, pos + n).value)
    ensures WalkCount(msg, pos) == n + WalkCount(msg, pos + n)
    decreases n
  {
    if n == 0 {
      assert msg[pos..pos] + Walk(msg, start, pos).value == Walk(msg, start, pos).value;
    } else {
      WalkOver(msg, start, pos + 1, n - 1);
      assert msg[pos..pos+n] == [msg[pos]] + msg[pos+1..pos+n];
      var rest := Walk(msg, start, pos + n).value;
      assert [msg[pos]] + (msg[pos+1..pos+n] + rest) == msg[pos..pos+n] + rest;
    }
  }

  /** The walk along a name collects its expanded form. */
  lemma {:induction false} WalkIsWire(msg: seq<Octet>, start: nat, pos: nat)
    requires NameAt(msg, start, pos).Some?
    ensures (NameIsPlain(msg, start, pos); Walk(msg, start, pos) == Some(Wire(NameAt(msg, start, pos).value)))
    ensures WalkCount(msg, pos) == WireCount(msg, pos)
    decreases start, |msg| - pos
  {
    NameIsPlain(msg, start, pos);
    if msg[pos] == 0 {
    } else if msg[pos] >= FIRST_JUMP {
      WalkIsWire(msg, Target(msg, pos), Target(msg, pos));
    } else {
      var n := msg[pos];
      WalkIsWire(msg, start, pos + 1 + n);
      WalkOver(msg, start, pos, 1 + n);
      var rest := NameAt(msg, start, pos + 1 + n).value;
      var text := msg[pos+1..pos+1+n];
      assert msg[pos..pos+1+n] == [n] + text;
      assert NameAt(msg, start, pos) == Some([text] + rest);
      assert ([text] + rest)[1..] == rest;
    }
  }

  // ---------------------------------------------------------------- the reader

  /** `a` holds the C string `s`. */
  ghost predicate Holds(a: array<Octet>, s: seq<Octet>)
    reads a
  {
    |s| < a.Length && a[..|s|] == s && a[|s|] == 0 && forall i :: 0 <= i < |s| ==> s[i] != 0
  }

  method StrLen(a: array<Octet>, ghost s: seq<Octet>) returns (n: nat)
    requires Holds(a, s)
    ensures n == |s|
  {
    n := 0;
    while a[n] != 0
      invariant n <= |s|
      decreases |s| - n
    {
      assert a[n] == a[..|s|][n] || n == |s|;
      n := n + 1;
    }
  }

  /** The first loop of ReadName: the octets of the name, pointers followed, and how many of them stand here. */
  method Collect(msg: seq<Octet>, at: nat, name: array<Octet>) returns (p: nat, count: nat)
    requires name.Length == NAME_BUFFER && Walk(msg, at, at).Some? && |Walk(msg, at, at).value| < NAME_BUFFER
    modifies name
    ensures p == |Walk(msg, at, at).value| && name[..p] == Walk(msg, at, at).value
    ensures count == WalkCount(msg, at)
  {
    var reader: nat, jumped := at, false;
    ghost var start: nat := at;
    ghost var whole := Walk(msg, at, at).value;
    p, count := 0, 1;
    assert name[..0] + whole == whole;
    while msg[reader] != 0
      invariant reader < |msg| && Walk(msg, start, reader).Some?
      invariant p <= |whole| && name[..p] + Walk(msg, start, reader).value == whole
      invariant if jumped then count + 1 == WalkCount(msg, at)
        else count + WalkCount(msg, reader) == 1 + WalkCount(msg, at)
      decreases start, |msg| - reader
    {
      if msg[reader] >= FIRST_JUMP {
        var high: int := msg[reader];
        reader := high * 0x100 + msg[reader+1] - 49152;
        start := reader;
        jumped := true;
      } else {
        ghost var rest := Walk(msg, start, reader + 1).value;
        CollectOne(name[..p], msg[reader], rest);
        name[p] := msg[reader];
        assert name[..p+1] == name[..p] + [msg[reader]];
        p := p + 1;
        reader := reader + 1;
        if !jumped { count := count + 1; }
      }
    }
    if jumped { count := count + 1; }
  }

  lemma CollectOne(done: seq<Octet>, b: Octet, rest: seq<Octet>)
    ensures done + ([b] + rest) == (done + [b]) + rest
  {
  }

  /** Every label with a dot behind it. */
  function WithDots(labels: Name): seq<Octet> {
    if labels == [] then [] else labels[0] + [DOT] + WithDots(labels[1..])
  }

  /** The dotted form. */
  function Dotted(labels: Name): seq<Octet>
    requires labels != []
  {
    JoinWith(labels, DOT)
  }

  /** The dot is ASCII 46. */
  lemma DottedSpelt(labels: Name)
    requires labels != []
    ensures Dotted(labels) == JoinWith(labels, 46)
  {
  }

  lemma {:induction false} DotsAreDotted(labels: Name)
    requires labels != []
    ensures WithDots(labels) == Dotted(labels) + [DOT]
  {
    if |labels| == 1 {
      assert WithDots(labels[1..]) == [];
    } else {
      DotsAreDotted(labels[1..]);
      assert labels[0] + [DOT] + (Dotted(labels[1..]) + [DOT]) == (labels[0] + [DOT] + Dotted(labels[1..])) + [DOT];
    }
  }

  lemma {:induction false} WireLength(labels: Name)
    requires Short(labels)
    ensures |Wire(labels)| == |WithDots(labels)|
  {
    if labels == [] {
    } else {
      WireLength(labels[1..]);
    }
  }

  /** The inner loop of the conversion: the label behind position `i` moves down by one. */
  method ShiftLabel(name: array<Octet>, from: nat, n: nat) returns (i: nat)
    requires from + n < name.Length
    modifies name
    ensures i == from + n
    ensures var was := old(name[..]); name[..] == was[..from] + was[from+1..from+1+n] + was[from+n..]
  {
    i := from;
    ghost var was := name[..];
    for j := 0 to n
      invariant i == from + j
      invariant name[..from] == was[..from] && name[i..] == was[i..]
      invariant name[from..i] == was[from+1..from+1+j]
    {
      name[i] := name[i+1];
      i := i + 1;
    }
    assert name[..] == name[..from] + name[from..i] + name[i..];
  }

  /** Where the conversion stands after `k` labels: those with a dot behind them, the rest as they came. */
  ghost predicate HalfDotted(m: seq<Octet>, labels: Name, k: nat, i: nat)
    requires Short(labels)
  {
    k <= |labels| && i == |WithDots(labels[..k])| && m == WithDots(labels[..k]) + Wire(labels[k..])
  }

  lemma {:induction false} WithDotsSnoc(labels: Name, l: seq<Octet>)
    ensures WithDots(labels + [l]) == WithDots(labels) + l + [DOT]
  {
    if labels == [] {
      assert [] + [l] == [l] && WithDots([l]) == l + [DOT] + [];
    } else {
      assert (labels + [l])[1..] == labels[1..] + [l];
      WithDotsSnoc(labels[1..], l);
      assert labels[0] + [DOT] + (WithDots(labels[1..]) + l + [DOT])
        == labels[0] + [DOT] + WithDots(labels[1..]) + l + [DOT];
    }
  }

  /** The label at hand. */
  lemma NextLabel(m: seq<Octet>, labels: Name, k: nat, i: nat)
    requires Short(labels) && HalfDotted(m, labels, k, i)
    ensures i <= |m| && (i < |m| <==> k < |labels|)
    ensures k < |labels| ==> i + |labels[k]| < |m| && m[i] == |labels[k]| && m[i+1..i+1+|labels[k]|] == labels[k]
  {
    if k < |labels| {
      var l, rest := labels[k], Wire(labels[k+1..]);
      assert labels[k..][1..] == labels[k+1..];
      assert m == WithDots(labels[..k]) + ([|l|] + l + rest);
    }
  }

  /** The label moved down and a dot put behind it. */
  lemma OneLabelDotted(m: seq<Octet>, m': seq<Octet>, labels: Name, k: nat, i: nat)
    requires Short(labels) && HalfDotted(m, labels, k, i) && k < |labels| && i + |labels[k]| < |m|
    requires m' == m[..i] + labels[k] + [DOT] + m[i+|labels[k]|+1..]
    ensures HalfDotted(m', labels, k + 1, i + |labels[k]| + 1)
  {
    var l, rest, done := labels[k], Wire(labels[k+1..]), WithDots(labels[..k]);
    assert labels[k..][1..] == labels[k+1..];
    assert labels[..k+1] == labels[..k] + [l];
    WithDotsSnoc(labels[..k], l);
    assert m == done + ([|l|] + l + rest);
    assert m[..i] == done && m[i+|l|+1..] == rest;
  }

  lemma Undotted(labels: Name, m: seq<Octet>, i: nat)
    requires labels != [] && AllPlain(labels) && HalfDotted(m, labels, |labels|, i)
    ensures i == |m| == |Dotted(labels)| + 1 && m[..i-1] == Dotted(labels)
    ensures forall j :: 0 <= j < |Dotted(labels)| ==> Dotted(labels)[j] != 0
  {
    assert labels[..|labels|] == labels && labels[|labels|..] == [];
    DotsAreDotted(labels);
    NoZeroDotted(labels);
  }

  lemma {:induction false} NoZeroDotted(labels: Name)
    requires labels != [] && AllPlain(labels)
    ensures forall j :: 0 <= j < |Dotted(labels)| ==> Dotted(labels)[j] != 0
  {
    if |labels| <= 1 {
    } else {
      NoZeroDotted(labels[1..]);
      assert Dotted(labels) == labels[0] + [DOT] + Dotted(labels[1..]);
    }
  }

  lemma LabelShifted(was: seq<Octet>, now: seq<Octet>, i: nat, p: nat, len: nat)
    requires i + p < len <= |was| && now == (was[..i] + was[i+1..i+1+p] + was[i+p..])[i+p := DOT]
    ensures now[..len] == was[..len][..i] + was[..len][i+1..i+1+p] + [DOT] + was[..len][i+p+1..]
    ensures now[len..] == was[len..]
  {
    var m := was[..len];
    assert m[..i] == was[..i] && m[i+1..i+1+p] == was[i+1..i+1+p];
    var done := was[..i] + was[i+1..i+1+p];
    assert |done| == i + p && now == (done + was[i+p..])[i+p := DOT] == done + was[i+p..][0 := DOT];
    assert was[i+p..][0 := DOT] == [DOT] + was[i+p+1..];
    assert now == done + [DOT] + was[i+p+1..];
    assert was[i+p+1..] == m[i+p+1..] + was[len..];
    assert now == (done + [DOT] + m[i+p+1..]) + was[len..];
  }

  /** The `p` octets behind a length octet moved over it, and a dot in the place they leave. */
  method MoveLabel(name: array<Octet>, i: nat, p: nat, ghost len: nat) returns (next: nat)
    requires i + p < len <= name.Length
    modifies name
    ensures next == i + p + 1
    ensures var m := old(name[..len]); name[..len] == m[..i] + m[i+1..i+1+p] + [DOT] + m[i+p+1..]
    ensures name[len..] == old(name[len..])
  {
    ghost var was := name[..];
    var end := ShiftLabel(name, i, p);
    name[end] := DOT;
    next := end + 1;
    LabelShifted(was, name[..], i, p, len);
    assert name[..len] == name[..][..len] && old(name[..len]) == was[..len];
  }

  /** The body of the second loop of ReadName: one length octet and its label become the label and a dot. */
  method DotLabel(name: array<Octet>, i: nat, ghost len: nat, ghost labels: Name, ghost k: nat) returns (next: nat)
    requires len < name.Length && AllPlain(labels) && HalfDotted(name[..len], labels, k, i) && k < |labels|
    modifies name
    ensures HalfDotted(name[..len], labels, k + 1, next) && name[len..] == old(name[len..])
  {
    hide HalfDotted, Wire;
    ghost var m := name[..len];
    NextLabel(m, labels, k, i);
    assert name[i] == m[i];
    next := MoveLabel(name, i, name[i], len);
    OneLabelDotted(m, name[..len], labels, k, i);
  }

  /** The second loop of ReadName: 3www6google3com becomes www.google.com in place. */
  method ToDotted(name: array<Octet>, ghost labels: Name)
    requires labels != [] && AllPlain(labels) && Holds(name, Wire(labels))
    modifies name
    ensures Holds(name, Dotted(labels))
  {
    hide HalfDotted, Wire, Dotted, WithDots;
    ghost var k: nat := 0;
    var i: nat := 0;
    var len := StrLen(name, Wire(labels));
    NothingDotted(labels);
    while i < len
      invariant k <= |labels| && HalfDotted(name[..len], labels, k, i) && name[len] == 0
      decreases |labels| - k
    {
      NextLabel(name[..len], labels, k, i);
      i := DotLabel(name, i, len, labels, k);
      k := k + 1;
    }
    NextLabel(name[..len], labels, k, i);
    Undotted(labels, name[..len], i);
    name[i-1] := 0;
  }

  lemma NothingDotted(labels: Name)
    requires Short(labels)
    ensures HalfDotted(Wire(labels), labels, 0, 0)
  {
    assert labels[0..] == labels;
    assert [] + Wire(labels) == Wire(labels);
  }

  lemma {:induction false} NoZeroWire(labels: Name)
    requires AllPlain(labels)
    ensures forall j :: 0 <= j < |Wire(labels)| ==> Wire(labels)[j] != 0
  {
    if labels == [] {
    } else {
      NoZeroWire(labels[1..]);
    }
  }

  /** ReadName: the dotted form of the name at `at`, and how many octets it takes there. */
  method ReadName(msg: seq<Octet>, at: nat) returns (name: array<Octet>, count: nat)
    requires Readable(msg, at)
    ensures fresh(name) && name.Length == NAME_BUFFER && Holds(name, Dotted(NameAt(msg, at, at).value))
    ensures count == WireCount(msg, at)
  {
    hide Walk, WalkCount, WireCount, NameAt, Dotted, Wire;
    ghost var labels := NameAt(msg, at, at).value;
    NameIsPlain(msg, at, at);
    WalkIsWire(msg, at, at);
    NoZeroWire(labels);
    name := new Octet[NAME_BUFFER];
    var p, c := Collect(msg, at, name);
    name[p] := 0;
    ToDotted(name, labels);
    count := c;
  }

  // ---------------------------------------------------------------- the writer

  lemma {:induction false} WireSnoc(labels: Name, l: seq<Octet>)
    requires Short(labels) && |l| < 0x100
    ensures Wire(labels + [l]) == Wire(labels) + ([|l|] + l)
  {
    if labels == [] {
      assert [] + [l] == [l] && Wire([l]) == [|l|] + l + [];
    } else {
      assert (labels + [l])[1..] == labels[1..] + [l];
      WireSnoc(labels[1..], l);
      var first := [|labels[0]|] + labels[0];
      assert first + (Wire(labels[1..]) + ([|l|] + l)) == first + Wire(labels[1..]) + ([|l|] + l);
    }
  }

  /** The label that ends at `i`. */
  lemma LabelEnds(text: seq<Octet>, labels: Name, lock: nat, i: nat, k: nat)
    requires lock <= i <= |text| && k <= |labels| && SplitOn(text[lock..], DOT) == labels[k..]
    requires DOT !in text[lock..i] && (i < |text| ==> text[i] == DOT)
    ensures k < |labels| && labels[k] == text[lock..i]
    ensures if i < |text| then SplitOn(text[i+1..], DOT) == labels[k+1..] else k + 1 == |labels|
  {
    hide SplitOn;
    var rest := text[lock..];
    if i < |text| {
      assert rest[..i-lock] == text[lock..i] && rest[i-lock+1..] == text[i+1..];
      SplitAtFirst(rest, DOT, i - lock);
      assert labels[k+1..] == labels[k..][1..];
    } else {
      assert rest == text[lock..i];
      SplitNone(rest, DOT);
    }
  }

  /** One label with its length in front. */
  method PutLabel(dns: array<Octet>, at: nat, host: array<Octet>, lock: nat, i: nat) returns (next: nat)
    requires dns != host && lock <= i < host.Length && i - lock < 0x100 && at + (i - lock) < dns.Length
    modifies dns
    ensures next == at + (i - lock) + 1
    ensures dns[..] == old(dns[..at]) + ([i - lock] + host[lock..i]) + old(dns[next..])
  {
    dns[at] := i - lock;
    ghost var m := dns[..];
    next := at + 1;
    var from := lock;
    while from < i
      invariant lock <= from <= i && next == at + 1 + (from - lock)
      invariant dns[..at+1] == m[..at+1] && dns[next..] == m[next..]
      invariant dns[at+1..next] == host[lock..from]
    {
      dns[next] := host[from];
      next := next + 1;
      from := from + 1;
    }
    LabelPlaced(old(dns[..]), dns[..], at, host[lock..i]);
  }

  lemma LabelPlaced(was: seq<Octet>, now: seq<Octet>, at: nat, l: seq<Octet>)
    requires |l| < 0x100 && at + 1 + |l| <= |was| == |now|
    requires now[..at] == was[..at] && now[at] == |l|
    requires now[at+1..at+1+|l|] == l && now[at+1+|l|..] == was[at+1+|l|..]
    ensures now == was[..at] + ([|l|] + l) + was[at+1+|l|..]
  {
    ThreeSlices(now, at, at + 1 + |l|);
    assert now[at..at+1+|l|] == [now[at]] + now[at+1..at+1+|l|];
  }

  /** Where the writer stands: the first `k` labels are out. */
  ghost predicate Written(m: seq<Octet>, was: seq<Octet>, labels: Name, at: nat, k: nat, out: nat)
    requires Short(labels)
  {
    && at <= out <= |m| == |was| && k <= |labels| && m[..at] == was[..at] && m[out..] == was[out..]
    && m[at..out] == Wire(labels[..k])
  }

  lemma WrittenOneMore(m: seq<Octet>, m': seq<Octet>, was: seq<Octet>, labels: Name, at: nat, k: nat, out: nat)
    requires Short(labels) && Written(m, was, labels, at, k, out) && k < |labels|
    requires var next := out + |labels[k]| + 1; next <= |m| && m' == m[..out] + ([|labels[k]|] + labels[k]) + m[next..]
    ensures Written(m', was, labels, at, k + 1, out + |labels[k]| + 1)
  {
    assert labels[..k+1] == labels[..k] + [labels[k]];
    WireSnoc(labels[..k], labels[k]);
  }

  lemma NothingWritten(m: seq<Octet>, labels: Name, at: nat)
    requires Short(labels) && at <= |m|
    ensures Written(m, m, labels, at, 0, at)
  {
  }

  lemma AllWritten(m: seq<Octet>, was: seq<Octet>, labels: Name, at: nat, out: nat)
    requires Short(labels) && Written(m, was, labels, at, |labels|, out)
    ensures at <= out <= |m| == |was| && m[..at] == was[..at] && m[out..] == was[out..] && m[at..out] == Wire(labels)
  {
    assert labels[..|labels|] == labels;
  }

  /** strcat(host, "."): the new length. */
  method AppendDot(host: array<Octet>, ghost text: seq<Octet>) returns (n: nat)
    requires Holds(host, text) && |text| + 2 <= host.Length
    modifies host
    ensures n == |text| + 1 && host[..n+1] == text + [DOT, 0]
  {
    n := StrLen(host, text);
    host[n] := DOT;
    host[n+1] := 0;
    n := n + 1;
  }

  /** What the writer does at a dot: the label that ends there goes out. */
  method CloseLabel(dns: array<Octet>, out: nat, host: array<Octet>, lock: nat, i: nat,
                    ghost text: seq<Octet>, ghost was: seq<Octet>, ghost at: nat, ghost k: nat) returns (next: nat)
    requires dns != host && lock <= i <= |text| && |text| + 2 <= host.Length && host[..|text|+2] == text + [DOT, 0]
    requires Short(SplitOn(text, DOT)) && k <= |SplitOn(text, DOT)|
    requires SplitOn(text[lock..], DOT) == SplitOn(text, DOT)[k..]
    requires DOT !in text[lock..i] && (i < |text| ==> text[i] == DOT)
    requires Written(dns[..], was, SplitOn(text, DOT), at, k, out) && out + (i - lock) < dns.Length
    modifies dns
    ensures next == out + (i - lock) + 1 && Written(dns[..], was, SplitOn(text, DOT), at, k + 1, next)
    ensures if i < |text| then SplitOn(text[i+1..], DOT) == SplitOn(text, DOT)[k+1..] else k + 1 == |SplitOn(text, DOT)|
    ensures k + 1 <= |SplitOn(text, DOT)|
  {
    hide SplitOn, Written, Wire;
    ghost var labels, m := SplitOn(text, DOT), dns[..];
    LabelEnds(text, labels, lock, i, k);
    assert host[lock..i] == text[lock..i] by {
      forall j | lock <= j < i ensures host[j] == text[j] {
        assert host[j] == host[..|text|+2][j];
      }
    }
    next := PutLabel(dns, out, host, lock, i);
    WrittenOneMore(m, dns[..], was, labels, at, k, out);
  }

  /** ChangetoDnsNameFormat: `host` takes a dot at its end, and its labels go to `dns` with their lengths. */
  method ChangetoDnsNameFormat(dns: array<Octet>, at: nat, host: array<Octet>, ghost text: seq<Octet>)
    requires dns != host && Holds(host, text) && |text| + 2 <= host.Length && at + |text| + 2 <= dns.Length
    requires Short(SplitOn(text, DOT))
    modifies dns, host
    ensures host[..|text|+2] == text + [DOT, 0]
    ensures dns[..at] == old(dns[..at]) && dns[at+|text|+2..] == old(dns[at+|text|+2..])
    ensures dns[at..at+|text|+2] == Wire(SplitOn(text, DOT)) + [0]
  {
    hide SplitOn, Written, Wire;
    ghost var labels := SplitOn(text, DOT);
    ghost var was := dns[..];
    var n := AppendDot(host, text);
    var lock: nat, i: nat, out := 0, 0, at;
    ghost var k: nat := 0;
    NothingWritten(was, labels, at);
    assert text[0..] == text;
    while i < n
      invariant i <= n && lock <= i && host[..|text|+2] == text + [DOT, 0]
      invariant DOT !in (text + [DOT])[lock..i]
      invariant out == at + lock && Written(dns[..], was, labels, at, k, out)
      invariant if lock <= |text| then k <= |labels| && SplitOn(text[lock..], DOT) == labels[k..] else k == |labels|
    {
      assert host[i] == (text + [DOT])[i];
      if host[i] == DOT {
        assert text[lock..i] == (text + [DOT])[lock..i];
        out := CloseLabel(dns, out, host, lock, i, text, was, at, k);
        lock := i + 1;
        k := k + 1;
      }
      i := i + 1;
    }
    assert (text + [DOT])[|text|] == DOT;
    AllWritten(dns[..], was, labels, at, out);
    dns[out] := 0;
    assert dns[at..at+|text|+2] == dns[at..out] + [0];
  }

  // ---------------------------------------------------------------- they undo each other

  lemma LabelIsName(msg: seq<Octet>, start: nat, at: nat, l: seq<Octet>, rest: Name)
    requires PlainLabel(l) && at + 1 + |l| <= |msg| && msg[at] == |l| && msg[at+1..at+1+|l|] == l
    requires NameAt(msg, start, at + 1 + |l|) == Some(rest)
    ensures NameAt(msg, start, at) == Some([l] + rest)
    ensures WireCount(msg, at) == 1 + |l| + WireCount(msg, at + 1 + |l|)
  {
    assert forall i :: at < i <= at + |l| ==> msg[i] == l[i-at-1];
  }

  lemma SliceOfSlice<T>(s: seq<T>, a: nat, b: nat, c: nat, d: nat)
    requires a <= b <= |s| && c <= d <= b - a
    ensures s[a..b][c..d] == s[a+c..a+d]
  {
    var t := s[a..b];
    assert |t| == b - a && forall i :: 0 <= i < |t| ==> t[i] == s[a+i];
    assert |t[c..d]| == |s[a+c..a+d]|;
    forall i | 0 <= i < d - c ensures t[c..d][i] == s[a+c..a+d][i] {
      assert t[c..d][i] == t[c+i];
    }
  }

  lemma WireSplits(msg: seq<Octet>, at: nat, l: seq<Octet>, rest: seq<Octet>)
    requires |l| < 0x100 && at + 1 + |l| + |rest| <= |msg|
    requires msg[at..at+1+|l|+|rest|] == [|l|] + l + rest
    ensures msg[at] == |l| && msg[at+1..at+1+|l|] == l && msg[at+1+|l|..at+1+|l|+|rest|] == rest
  {
    var w := msg[at..at+1+|l|+|rest|];
    assert msg[at] == w[0];
    SliceOfSlice(msg, at, at + |w|, 1, 1 + |l|);
    SliceOfSlice(msg, at, at + |w|, 1 + |l|, |w|);
    assert w[1..1+|l|] == l && w[1+|l|..|w|] == rest;
  }

  /** Labels on the wire, ended by a zero, are the name there. */
  lemma {:induction false} WireIsName(msg: seq<Octet>, labels: Name, start: nat, at: nat)
    requires AllPlain(labels) && at + |Wire(labels)| < |msg|
    requires msg[at..at+|Wire(labels)|] == Wire(labels) && msg[at+|Wire(labels)|] == 0
    ensures NameAt(msg, start, at) == Some(labels) && WireCount(msg, at) == |Wire(labels)| + 1
    decreases |labels|
  {
    if labels == [] {
    } else {
      var l, rest := labels[0], labels[1..];
      assert |Wire(labels)| == 1 + |l| + |Wire(rest)|;
      WireSplits(msg, at, l, Wire(rest));
      WireIsName(msg, rest, start, at + 1 + |l|);
      LabelIsName(msg, start, at, l, rest);
      assert labels == [l] + rest;
    }
  }

  /** A host name label: 1 to 63 ASCII octets without a dot. */
  ghost predicate HostLabel(l: seq<Octet>) {
    1 <= |l| <= 63 && DOT !in l && forall i :: 0 <= i < |l| ==> 1 <= l[i] < 0x80
  }

  ghost predicate HostLabels(labels: Name): (b: bool)
    ensures b ==> AllPlain(labels)
  {
    forall i :: 0 <= i < |labels| ==> HostLabel(labels[i])
  }

  /** For every host within the limit of 255 octets, ReadName applied to what ChangetoDnsNameFormat wrote gives the host
      back and consumes all of it. */
  lemma HostRoundTrip(labels: Name, msg: seq<Octet>, at: nat)
    requires labels != [] && HostLabels(labels) && |Wire(labels)| + 1 <= 255
    requires Short(SplitOn(Dotted(labels), DOT)) && at + |Dotted(labels)| + 2 <= |msg|
    requires msg[at..at+|Dotted(labels)|+2] == Wire(SplitOn(Dotted(labels), DOT)) + [0]
    ensures Readable(msg, at) && Dotted(NameAt(msg, at, at).value) == Dotted(labels)
    ensures WireCount(msg, at) == |Dotted(labels)| + 2
  {
    hide Wire, Dotted, SplitOn, NameAt, WireCount;
    SplitDotted(labels);
    WireLength(labels);
    DotsAreDotted(labels);
    var n := |Wire(labels)|;
    var w := msg[at..at+n+1];
    assert w == Wire(labels) + [0];
    assert msg[at..at+n] == w[..n] && msg[at+n] == w[n];
    WireIsName(msg, labels, at, at);
  }

  /** Write a host into a message and read it back: the buffer read holds the host as it was given, and the count is
      what the writer filled. */
  method WriteAndRead(dns: array<Octet>, at: nat, host: array<Octet>, ghost labels: Name)
      returns (name: array<Octet>, count: nat)
    requires labels != [] && HostLabels(labels) && |Wire(labels)| + 1 <= 255
    requires dns != host && Holds(host, Dotted(labels)) && |Dotted(labels)| + 2 <= host.Length
    requires at + |Dotted(labels)| + 2 <= dns.Length
    modifies dns, host
    ensures fresh(name) && name.Length == NAME_BUFFER && Holds(name, Dotted(labels)) && count == |Dotted(labels)| + 2
    ensures var (msg, was) := (dns[..], old(dns[..])); msg[..at] == was[..at] && msg[at+count..] == was[at+count..]
  {
    HostIsShort(labels);
    hide *;
    ghost var text := Dotted(labels);
    WriteHost(dns, at, host, text);
    name, count := ReadHost(dns[..], at, labels);
  }

  lemma HostIsShort(labels: Name)
    requires labels != [] && HostLabels(labels)
    ensures AllPlain(labels) && Short(SplitOn(Dotted(labels), DOT))
  {
    SplitDotted(labels);
  }

  /** What was written for a host, read. */
  method ReadHost(msg: seq<Octet>, at: nat, ghost labels: Name) returns (name: array<Octet>, count: nat)
    requires labels != [] && HostLabels(labels) && |Wire(labels)| + 1 <= 255
    requires Short(SplitOn(Dotted(labels), DOT)) && at + |Dotted(labels)| + 2 <= |msg|
    requires msg[at..at+|Dotted(labels)|+2] == Wire(SplitOn(Dotted(labels), DOT)) + [0]
    ensures fresh(name) && name.Length == NAME_BUFFER && Holds(name, Dotted(labels)) && count == |Dotted(labels)| + 2
  {
    HostRoundTrip(labels, msg, at);
    hide *;
    name, count := ReadName(msg, at);
  }

  /** ChangetoDnsNameFormat, its result seen in the whole buffer. */
  method WriteHost(dns: array<Octet>, at: nat, host: array<Octet>, ghost text: seq<Octet>)
    requires dns != host && Holds(host, text) && |text| + 2 <= host.Length && at + |text| + 2 <= dns.Length
    requires Short(SplitOn(text, DOT))
    modifies dns, host
    ensures var (msg, was) := (dns[..], old(dns[..]));
      && msg[at..at+|text|+2] == Wire(SplitOn(text, DOT)) + [0]
      && msg[..at] == was[..at] && msg[at+|text|+2..] == was[at+|text|+2..]
  {
    hide SplitOn, Wire, Holds, Short;
    ChangetoDnsNameFormat(dns, at, host, text);
  }

  lemma SplitDotted(labels: Name)
    requires labels != [] && HostLabels(labels)
    ensures SplitOn(Dotted(labels), DOT) == labels
  {
    SplitJoin(labels, DOT);
  }
}
