/** The UTF-8 encoding of fort.c: the scheme of section 3 of RFC 3629, for every code point up to 0x1FFFFF. Bytes and
    code points are integers; a test of a byte against a mask is the range of bytes that pass it. */
module Utf8Codec {
  import opened Sequences

  type Byte = b: int | 0 <= b < 0x100
  type CodePoint = nat

  const MAX_CODE_POINT := 0x1F_FFFF

  // ---------------------------------------------------------------- bytes

  /** (0xf8 & b) == 0xf0, and so on. */
  predicate Lead4(b: Byte) { 0xf0 <= b < 0xf8 }
  predicate Lead3(b: Byte) { 0xe0 <= b < 0xf0 }
  predicate Lead2(b: Byte) { 0xc0 <= b < 0xe0 }
  predicate Ascii(b: Byte) { b < 0x80 }

  /** A continuation byte. */
  predicate Cont(b: Byte) { 0x80 <= b < 0xc0 }

  /** The ranges are what the masks of the C text select. */
  lemma MasksAreRanges(b: bv8)
    ensures (b & 0xf8 == 0xf0 <==> 0xf0 <= b <= 0xf7) && (b & 0xf0 == 0xe0 <==> 0xe0 <= b <= 0xef)
    ensures (b & 0xe0 == 0xc0 <==> 0xc0 <= b <= 0xdf) && (b & 0x80 == 0 <==> b <= 0x7f)
    ensures b & 0xc0 == 0x80 <==> 0x80 <= b <= 0xbf
    ensures 0xf0 <= b <= 0xf7 ==> (b & 0x07 == 0 <==> b == 0xf0)
    ensures 0xe0 <= b <= 0xef ==> (b & 0x0f == 0 <==> b == 0xe0)
    ensures 0xc0 <= b <= 0xdf ==> (b & 0x1e == 0 <==> b <= 0xc1)
    ensures 0x80 <= b <= 0xbf ==> (b & 0x30 == 0 <==> b <= 0x8f) && (b & 0x20 == 0 <==> b <= 0x9f)
  {
  }

  /** By how much a first byte moves on; what is no first byte counts as one. */
  function StepSize(b: Byte): (n: nat)
    ensures 1 <= n <= 4
  {
    if Lead4(b) then 4 else if Lead3(b) then 3 else if Lead2(b) then 2 else 1
  }

  // ---------------------------------------------------------------- encoding

  predicate InRange(c: CodePoint) {
    1 <= c <= MAX_CODE_POINT
  }

  /** utf8codepointsize. */
  function Size(c: CodePoint): (n: nat)
    ensures 1 <= n <= 4
  {
    if c < 0x80 then 1 else if c < 0x800 then 2 else if c < 0x1_0000 then 3 else 4
  }

  /** `c` shifted right by six. */
  function Shr6(c: CodePoint): (r: CodePoint)
    ensures r * 0x40 <= c < r * 0x40 + 0x40
  {
    c / 0x40
  }

  /** The low six bits of `c` in a continuation byte. */
  function Tail(c: CodePoint): (b: Byte)
    ensures Cont(b) && c == Shr6(c) * 0x40 + Payload(b)
  {
    0x80 + c % 0x40
  }

  /** What a continuation byte carries. */
  function Payload(b: Byte): nat {
    b % 0x40
  }

  /** The bytes utf8catcodepoint writes. */
  function Encode(c: CodePoint): (bytes: seq<Byte>)
    requires c <= MAX_CODE_POINT
    ensures |bytes| == Size(c)
  {
    var c1 := Shr6(c);
    var c2 := Shr6(c1);
    var c3 := Shr6(c2);
    if c < 0x80 then [c]
    else if c < 0x800 then [0xc0 + c1, Tail(c)]
    else if c < 0x1_0000 then [0xe0 + c2, Tail(c1), Tail(c)]
    else [0xf0 + c3, Tail(c2), Tail(c1), Tail(c)]
  }

  ghost predicate AllInRange(cps: seq<CodePoint>) {
    forall i :: 0 <= i < |cps| ==> InRange(cps[i])
  }

  function EncodeAll(cps: seq<CodePoint>): seq<Byte>
    requires AllInRange(cps)
  {
    if cps == [] then [] else Encode(cps[0]) + EncodeAll(cps[1..])
  }

  // ---------------------------------------------------------------- decoding

  /** The code point utf8codepoint reads. */
  function Decode(t: seq<Byte>): CodePoint
    requires |t| > 0 && |t| >= StepSize(t[0])
  {
    var b: int := t[0];
    if Lead4(b) then (((b - 0xf0) * 0x40 + Payload(t[1])) * 0x40 + Payload(t[2])) * 0x40 + Payload(t[3])
    else if Lead3(b) then ((b - 0xe0) * 0x40 + Payload(t[1])) * 0x40 + Payload(t[2])
    else if Lead2(b) then (b - 0xc0) * 0x40 + Payload(t[1])
    else b
  }

  /** The byte at `i`, or the terminator. */
  function At(t: seq<Byte>, i: nat): Byte {
    if i < |t| then t[i] else 0
  }

  /** What utf8valid checks at a position: the right number of continuation bytes, no shorter encoding, and for a
      sequence of several bytes no further continuation byte. */
  predicate Good(t: seq<Byte>) {
    var b0, b1, b2, b3, b4 := At(t, 0), At(t, 1), At(t, 2), At(t, 3), At(t, 4);
    if Lead4(b0) then Cont(b1) && Cont(b2) && Cont(b3) && !Cont(b4) && !(b0 == 0xf0 && b1 < 0x90)
    else if Lead3(b0) then Cont(b1) && Cont(b2) && !Cont(b3) && !(b0 == 0xe0 && b1 < 0xa0)
    else if Lead2(b0) then Cont(b1) && !Cont(b2) && !(b0 < 0xc2)
    else Ascii(b0)
  }

  /** The shape of one encoded code point. */
  lemma EncodeShape(c: CodePoint)
    requires InRange(c)
    ensures var e := Encode(c);
      && StepSize(e[0]) == Size(c) && !Cont(e[0]) && (forall i :: 0 <= i < |e| ==> e[i] != 0)
      && (forall i :: 1 <= i < |e| ==> Cont(e[i])) && Decode(e) == c
  {
    hide Payload, Tail, Shr6;
  }

  // ---------------------------------------------------------------- valid texts

  /** What follows an encoded code point does not continue it. */
  predicate EndsHere(rest: seq<Byte>) {
    !Cont(At(rest, 0))
  }

  /** An encoded code point passes the checks, and decoding it gives it back. */
  lemma EncodeIsGood(c: CodePoint, rest: seq<Byte>)
    requires InRange(c) && EndsHere(rest)
    ensures var t := Encode(c) + rest;
      && Good(t) && StepSize(t[0]) == Size(c) && Decode(t) == c && t[..Size(c)] == Encode(c) && t[Size(c)..] == rest
  {
    EncodeShape(c);
    hide Shr6, Payload, Tail;
    var t := Encode(c) + rest;
    forall i: nat ensures At(t, i) == if i < Size(c) then Encode(c)[i] else At(rest, i - Size(c)) {
    }
    TightLead(c);
  }

  /** The smallest first bytes only occur where a shorter encoding does not fit. */
  lemma TightLead(c: CodePoint)
    requires InRange(c)
    ensures Size(c) == 4 && Encode(c)[0] == 0xf0 ==> Encode(c)[1] >= 0x90
    ensures Size(c) == 3 && Encode(c)[0] == 0xe0 ==> Encode(c)[1] >= 0xa0
    ensures Size(c) == 2 ==> Encode(c)[0] >= 0xc2
  {
  }

  /** What passes the checks is the encoding of a code point, and nothing continues it. */
  lemma GoodIsEncode(t: seq<Byte>)
    requires t != [] && Good(t) && forall i :: 0 <= i < |t| ==> t[i] != 0
    ensures var n := StepSize(t[0]);
      n <= |t| && InRange(Decode(t)) && Encode(Decode(t)) == t[..n] && (n > 1 ==> EndsHere(t[n..]))
  {
    var n := StepSize(t[0]);
    assert Cont(At(t, n - 1)) || n == 1;
    assert n > 1 ==> At(t[n..], 0) == At(t, n);
    forall b: Byte | Cont(b) ensures b == 0x80 + Payload(b) {
    }
    DecodeParts(t);
  }

  lemma Pushed(q: nat, b: Byte)
    requires Cont(b)
    ensures Shr6(q * 0x40 + Payload(b)) == q && Tail(q * 0x40 + Payload(b)) == b
  {
  }

  lemma DecodeParts(t: seq<Byte>)
    requires t != [] && Good(t) && |t| >= StepSize(t[0])
    ensures var c := Decode(t);
      var c1 := Shr6(c);
      var c2 := Shr6(c1);
      && (StepSize(t[0]) == 4 ==> Tail(c) == t[3] && Tail(c1) == t[2] && Tail(c2) == t[1] && Shr6(c2) == t[0] - 0xf0)
      && (StepSize(t[0]) == 3 ==> Tail(c) == t[2] && Tail(c1) == t[1] && c2 == t[0] - 0xe0)
      && (StepSize(t[0]) == 2 ==> Tail(c) == t[1] && c1 == t[0] - 0xc0)
      && Size(c) == StepSize(t[0])
  {
    hide Shr6, Tail;
    var b: int := t[0];
    if StepSize(t[0]) == 4 {
      Pushed(b - 0xf0, t[1]);
      Pushed((b - 0xf0) * 0x40 + Payload(t[1]), t[2]);
      Pushed(((b - 0xf0) * 0x40 + Payload(t[1])) * 0x40 + Payload(t[2]), t[3]);
    } else if StepSize(t[0]) == 3 {
      Pushed(b - 0xe0, t[1]);
      Pushed((b - 0xe0) * 0x40 + Payload(t[1]), t[2]);
    } else if StepSize(t[0]) == 2 {
      Pushed(b - 0xc0, t[1]);
    }
  }

  /** A text is what encoding a sequence of code points yields. */
  ghost predicate IsText(t: seq<Byte>) {
    exists cps: seq<CodePoint> :: AllInRange(cps) && EncodeAll(cps) == t
  }

  /** The code points utf8codepoint yields one after the other. */
  function DecodeAll(t: seq<Byte>): seq<CodePoint> {
    if t == [] || |t| < StepSize(t[0]) then [] else [Decode(t)] + DecodeAll(t[StepSize(t[0])..])
  }

  lemma EncodedEnds(cps: seq<CodePoint>)
    requires AllInRange(cps)
    ensures EndsHere(EncodeAll(cps))
  {
    if cps != [] { EncodeShape(cps[0]); }
  }

  lemma {:induction false} NoZeroInside(cps: seq<CodePoint>)
    requires AllInRange(cps)
    ensures forall i :: 0 <= i < |EncodeAll(cps)| ==> EncodeAll(cps)[i] != 0
  {
    if cps == [] {
    } else {
      EncodeShape(cps[0]);
      NoZeroInside(cps[1..]);
    }
  }

  /** A text that is not empty starts with one good code point, and a text follows. */
  lemma TextHead(t: seq<Byte>)
    requires IsText(t) && t != []
    ensures Good(t) && StepSize(t[0]) <= |t| && InRange(Decode(t)) && EndsHere(t[StepSize(t[0])..])
    ensures t == Encode(Decode(t)) + t[StepSize(t[0])..] && IsText(t[StepSize(t[0])..])
  {
    hide Good, Encode, Decode;
    var cps :| AllInRange(cps) && EncodeAll(cps) == t;
    var rest := EncodeAll(cps[1..]);
    EncodedEnds(cps[1..]);
    EncodeIsGood(cps[0], rest);
  }

  /** One good code point in front of a text makes a text. */
  lemma TextCons(t: seq<Byte>)
    requires t != [] && Good(t) && (forall i :: 0 <= i < |t| ==> t[i] != 0)
    requires StepSize(t[0]) <= |t| ==> IsText(t[StepSize(t[0])..])
    ensures StepSize(t[0]) <= |t| && IsText(t)
  {
    hide Good, Encode, Decode;
    GoodIsEncode(t);
    var n := StepSize(t[0]);
    var cps :| AllInRange(cps) && EncodeAll(cps) == t[n..];
    var all := [Decode(t)] + cps;
    assert all[1..] == cps;
    assert EncodeAll(all) == t;
  }

  lemma EmptyText()
    ensures IsText([])
  {
    assert EncodeAll([]) == [];
  }

  /** Decoding what was encoded gives back the code points. */
  lemma {:induction false} DecodeEncode(cps: seq<CodePoint>)
    requires AllInRange(cps)
    ensures DecodeAll(EncodeAll(cps)) == cps
  {
    hide Good, Encode, Decode;
    if cps == [] {
    } else {
      EncodedEnds(cps[1..]);
      EncodeIsGood(cps[0], EncodeAll(cps[1..]));
      DecodeEncode(cps[1..]);
    }
  }

  /** Encoding what was decoded from a text gives back its bytes. */
  lemma EncodeDecode(t: seq<Byte>)
    requires IsText(t)
    ensures AllInRange(DecodeAll(t)) && EncodeAll(DecodeAll(t)) == t
  {
    var cps :| AllInRange(cps) && EncodeAll(cps) == t;
    DecodeEncode(cps);
  }

  lemma DecodeAllStep(t: seq<Byte>)
    requires IsText(t) && t != []
    ensures StepSize(t[0]) <= |t| && DecodeAll(t) == [Decode(t)] + DecodeAll(t[StepSize(t[0])..])
  {
    TextHead(t);
  }

  /** Two code points with the same bytes are the same. */
  lemma SamePrefix(c: CodePoint, d: CodePoint, rest: seq<Byte>)
    requires InRange(c) && InRange(d) && Encode(c) <= Encode(d) + rest
    ensures c == d
  {
    EncodeShape(c);
    EncodeShape(d);
    assert Encode(c)[0] == Encode(d)[0];
    assert Encode(c) == (Encode(d) + rest)[..Size(c)] == Encode(d);
  }

  // ---------------------------------------------------------------- the functions on C strings

  /** A C string that ends with the memory it stands in, so that no byte behind the terminator can be read. */
  ghost predicate CString(m: seq<Byte>) {
    |m| > 0 && m[|m|-1] == 0 && forall i :: 0 <= i < |m| - 1 ==> m[i] != 0
  }

  function TextOf(m: seq<Byte>): seq<Byte>
    requires |m| > 0
  {
    m[..|m|-1]
  }

  /** No code point starts here that ends where its encoding ends. */
  ghost predicate Malformed(t: seq<Byte>) {
    forall c :: InRange(c) ==> !(Encode(c) <= t && (Size(c) == 1 || EndsHere(t[Size(c)..])))
  }

  lemma NotGoodIsMalformed(t: seq<Byte>)
    requires t != [] && !Good(t)
    ensures Malformed(t) && !IsText(t)
  {
    hide Good, Encode;
    if IsText(t) { TextHead(t); }
    forall c | InRange(c) && Encode(c) <= t && (Size(c) == 1 || EndsHere(t[Size(c)..])) ensures false {
      assert t == Encode(c) + t[Size(c)..];
      if Size(c) > 1 {
        EncodeIsGood(c, t[Size(c)..]);
      } else {
        AsciiIsGood(c, t);
      }
    }
  }

  lemma AsciiIsGood(c: CodePoint, t: seq<Byte>)
    requires InRange(c) && Size(c) == 1 && Encode(c) <= t
    ensures Good(t)
  {
  }

  /** The body of the loop of utf8valid: by how much to move on, or zero for a malformed position. */
  method CheckCodePoint(str: array<Byte>, s: nat) returns (step: nat)
    requires CString(str[..]) && s < str.Length - 1
    ensures step == if Good(TextOf(str[..])[s..]) then StepSize(str[s]) else 0
  {
    ghost var t := TextOf(str[..])[s..];
    assert forall i: nat :: s + i < str.Length ==> At(t, i) == str[s+i];
    if Lead4(str[s]) {
      if !Cont(str[s+1]) || !Cont(str[s+2]) || !Cont(str[s+3]) { return 0; }
      if Cont(str[s+4]) { return 0; }
      if str[s] == 0xf0 && str[s+1] < 0x90 { return 0; }
      step := 4;
    } else if Lead3(str[s]) {
      if !Cont(str[s+1]) || !Cont(str[s+2]) { return 0; }
      if Cont(str[s+3]) { return 0; }
      if str[s] == 0xe0 && str[s+1] < 0xa0 { return 0; }
      step := 3;
    } else if Lead2(str[s]) {
      if !Cont(str[s+1]) { return 0; }
      if Cont(str[s+2]) { return 0; }
      if str[s] < 0xc2 { return 0; }
      step := 2;
    } else if Ascii(str[s]) {
      step := 1;
    } else {
      step := 0;
    }
  }

  /** One good code point further. */
  lemma OneFurther(t: seq<Byte>, s: nat)
    requires s < |t| && Good(t[s..]) && (forall i :: 0 <= i < |t| ==> t[i] != 0) && IsText(t[..s])
    ensures var n := s + StepSize(t[s]);
      n <= |t| && IsText(t[..n]) && (IsText(t[n..]) <==> IsText(t[s..]))
  {
    hide Good, Encode, Decode;
    GoodIsEncode(t[s..]);
    var n := StepSize(t[s]);
    assert t[s..][n..] == t[s+n..];
    if IsText(t[s+n..]) { TextCons(t[s..]); }
    if IsText(t[s..]) { TextHead(t[s..]); }
    var cps :| AllInRange(cps) && EncodeAll(cps) == t[..s];
    EncodeSnoc(cps, Decode(t[s..]));
    assert t[..s+n] == t[..s] + t[s..][..n];
    assert AllInRange(cps + [Decode(t[s..])]);
  }

  lemma {:induction false} EncodeSnoc(cps: seq<CodePoint>, c: CodePoint)
    requires AllInRange(cps) && InRange(c)
    ensures EncodeAll(cps + [c]) == EncodeAll(cps) + Encode(c)
  {
    hide Encode;
    if cps == [] {
      assert [] + [c] == [c] && EncodeAll([c]) == Encode(c) + [];
    } else {
      assert (cps + [c])[1..] == cps[1..] + [c];
      EncodeSnoc(cps[1..], c);
    }
  }

  /** utf8valid: no position for a text, otherwise the first one where no code point is encoded. */
  method Utf8Valid(str: array<Byte>) returns (bad: Option<nat>)
    requires CString(str[..])
    ensures bad.None? <==> IsText(TextOf(str[..]))
    ensures bad.Some? ==> bad.value < str.Length - 1 && Malformed(TextOf(str[..])[bad.value..])
    ensures bad.Some? ==> IsText(TextOf(str[..])[..bad.value])
  {
    hide Good, IsText, StepSize, Malformed;
    ghost var t := TextOf(str[..]);
    var s: nat := 0;
    EmptyText();
    assert t[0..] == t;
    while str[s] != 0
      invariant s <= |t| && IsText(t[..s])
      invariant IsText(t[s..]) <==> IsText(t)
      decreases |t| - s
    {
      var step := CheckCodePoint(str, s);
      if step == 0 {
        NotGoodIsMalformed(t[s..]);
        return Some(s);
      }
      OneFurther(t, s);
      s := s + step;
    }
    assert t[..s] == t;
    return None;
  }

  /** utf8len on a text: the number of its code points. */
  method Utf8Len(str: array<Byte>) returns (length: nat)
    requires CString(str[..]) && IsText(TextOf(str[..]))
    ensures length == |DecodeAll(TextOf(str[..]))|
  {
    hide IsText, DecodeAll;
    ghost var t := TextOf(str[..]);
    var s: nat := 0;
    length := 0;
    assert t[0..] == t;
    while str[s] != 0
      invariant s <= |t| && IsText(t[s..])
      invariant length + |DecodeAll(t[s..])| == |DecodeAll(t)|
      decreases |t| - s
    {
      var step := if Lead4(str[s]) then 4 else if Lead3(str[s]) then 3 else if Lead2(str[s]) then 2 else 1;
      assert step == StepSize(t[s..][0]);
      DecodeAllStep(t[s..]);
      TextHead(t[s..]);
      assert t[s..][step..] == t[s+step..];
      s := s + step;
      length := length + 1;
    }
    DecodeNone();
    assert t[s..] == [];
  }

  lemma DecodeNone()
    ensures DecodeAll([]) == []
  {
  }

  /** utf8codepoint at a position of a text: the code point there and the position behind it; at the terminator
      the code point is zero. */
  method Utf8CodePoint(str: array<Byte>, s: nat) returns (next: nat, c: CodePoint)
    requires CString(str[..]) && s < str.Length && IsText(TextOf(str[..])[s..])
    ensures s == str.Length - 1 ==> c == 0 && next == str.Length
    ensures s < str.Length - 1 ==>
      (InRange(c) && next == s + Size(c) < str.Length && IsText(TextOf(str[..])[next..])
       && TextOf(str[..])[s..] == Encode(c) + TextOf(str[..])[next..])
  {
    hide IsText, Good, Encode;
    ghost var t := TextOf(str[..])[s..];
    if s < str.Length - 1 {
      TextHead(t);
      assert t[0] == str[s];
      SizeOfDecoded(t);
      assert forall n: nat :: n <= |t| ==> t[n..] == TextOf(str[..])[s+n..];
    }
    var b: int := str[s];
    if Lead4(b) {
      c := ((b - 0xf0) * 0x40 + Payload(str[s+1])) * 0x40 + Payload(str[s+2]);
      c := c * 0x40 + Payload(str[s+3]);
      next := s + 4;
    } else if Lead3(b) {
      c := ((b - 0xe0) * 0x40 + Payload(str[s+1])) * 0x40 + Payload(str[s+2]);
      next := s + 3;
    } else if Lead2(b) {
      c := (b - 0xc0) * 0x40 + Payload(str[s+1]);
      next := s + 2;
    } else {
      c := b;
      next := s + 1;
    }
  }

  lemma SizeOfDecoded(t: seq<Byte>)
    requires t != [] && Good(t) && |t| >= StepSize(t[0])
    ensures Size(Decode(t)) == StepSize(t[0])
  {
    DecodeParts(t);
  }

  /** utf8catcodepoint: the encoding written at `s` if it fits in `n` bytes. */
  method Utf8CatCodePoint(str: array<Byte>, s: nat, c: CodePoint, n: nat) returns (next: Option<nat>)
    requires c <= MAX_CODE_POINT && s + n <= str.Length
    modifies str
    ensures next == if Size(c) <= n then Some(s + Size(c)) else None
    ensures next.None? ==> str[..] == old(str[..])
    ensures next.Some? ==> str[..] == old(str[..s]) + Encode(c) + old(str[s+Size(c)..])
  {
    hide Shr6, Tail;
    if c < 0x80 {
      if n < 1 { return None; }
      str[s] := c;
      return Some(s + 1);
    } else if c < 0x800 {
      if n < 2 { return None; }
      str[s] := 0xc0 + Shr6(c);
      str[s+1] := Tail(c);
      return Some(s + 2);
    } else if c < 0x1_0000 {
      if n < 3 { return None; }
      str[s] := 0xe0 + Shr6(Shr6(c));
      str[s+1] := Tail(Shr6(c));
      str[s+2] := Tail(c);
      return Some(s + 3);
    } else {
      if n < 4 { return None; }
      str[s] := 0xf0 + Shr6(Shr6(Shr6(c)));
      str[s+1] := Tail(Shr6(Shr6(c)));
      str[s+2] := Tail(Shr6(c));
      str[s+3] := Tail(c);
      return Some(s + 4);
    }
  }
}
