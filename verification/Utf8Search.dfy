/** Code-point-stepping search in fort.c: on texts it finds what a byte search finds. */
module Utf8Search {
  import opened Sequences
  import opened Utf8Codec

  /** `n` occurs in `h` at byte `p`. */
  predicate OccursAt(h: seq<Byte>, n: seq<Byte>, p: nat) {
    p <= |h| && n <= h[p..]
  }

  /** A text starts a code point exactly where a byte is no continuation byte: UTF-8 synchronises itself. */
  lemma {:induction false} Synchronised(t: seq<Byte>, p: nat)
    requires IsText(t) && p < |t| && !Cont(t[p])
    ensures IsText(t[p..])
    decreases |t|
  {
    hide Encode, Good, Decode;
    if p == 0 {
      assert t[0..] == t;
    } else {
      TextHead(t);
      var n := StepSize(t[0]);
      EncodeShape(Decode(t));
      SizeOfDecoded(t);
      assert forall i :: 0 <= i < n ==> t[i] == Encode(Decode(t))[i];
      assert p >= n;
      Synchronised(t[n..], p - n);
      assert t[n..][p-n..] == t[p..];
    }
  }

  /** The first byte of a text is no continuation byte. */
  lemma StartsClean(t: seq<Byte>)
    requires IsText(t) && t != []
    ensures !Cont(t[0])
  {
    hide Encode, Good;
    TextHead(t);
    EncodeShape(Decode(t));
  }

  /** So nothing is missed by going from `s` straight to the next code point. */
  lemma NoneBetween(h: seq<Byte>, n: seq<Byte>, s: nat, p: nat)
    requires IsText(h[..]) && s < p && s < |h| && IsText(h[s..]) && IsText(n) && n != [] && OccursAt(h, n, p)
    ensures p >= s + StepSize(h[s])
  {
    hide Encode, Good, Decode;
    StartsClean(n);
    var t := h[s..];
    TextHead(t);
    EncodeShape(Decode(t));
    SizeOfDecoded(t);
    assert h[p] == n[0];
    assert forall i :: 1 <= i < StepSize(h[s]) ==> h[s+i] == t[i] && Cont(t[i]);
  }

  /** The inner loop of utf8str: how far needle and haystack agree from `h` on. */
  method Agree(hay: array<Byte>, needle: array<Byte>, at: nat) returns (n: nat)
    requires CString(hay[..]) && CString(needle[..]) && at < hay.Length
    ensures n < needle.Length && (needle[n] == 0 <==> OccursAt(TextOf(hay[..]), TextOf(needle[..]), at))
  {
    var h := at;
    n := 0;
    while hay[h] == needle[n] && hay[h] != 0 && needle[n] != 0
      invariant n < needle.Length && h == at + n < hay.Length
      invariant hay[at..h] == needle[..n]
      decreases needle.Length - n
    {
      n := n + 1;
      h := h + 1;
    }
    ghost var t, w := TextOf(hay[..]), TextOf(needle[..]);
    if needle[n] == 0 {
      assert n == |w| && t[at..][..n] == w;
    } else {
      assert OccursAt(t, w, at) ==> w[n] == t[at..][n];
    }
  }

  /** utf8str: the first byte position at which the needle occurs, if there is one. */
  method Utf8Str(hay: array<Byte>, needle: array<Byte>) returns (r: Option<nat>)
    requires CString(hay[..]) && CString(needle[..])
    requires IsText(TextOf(hay[..])) && IsText(TextOf(needle[..]))
    ensures r.Some? ==> OccursAt(TextOf(hay[..]), TextOf(needle[..]), r.value)
    ensures forall p: nat :: (if r.Some? then p < r.value else p < hay.Length) ==>
      !OccursAt(TextOf(hay[..]), TextOf(needle[..]), p)
  {
    hide IsText, OccursAt, Encode;
    ghost var t, w := TextOf(hay[..]), TextOf(needle[..]);
    if needle[0] == 0 {
      EmptyOccurs(t, w);
      return Some(0);
    }
    var h: nat := 0;
    assert t[0..] == t == t[..];
    while hay[h] != 0
      invariant h <= |t| && IsText(t[h..])
      invariant forall p: nat :: p < h ==> !OccursAt(t, w, p)
      decreases |t| - h
    {
      var n := Agree(hay, needle, h);
      if needle[n] == 0 { return Some(h); }
      var next, c := Utf8CodePoint(hay, h);
      StepIs(t[h..], c, t[next..]);
      forall p: nat | p < next ensures !OccursAt(t, w, p) {
        if h < p && OccursAt(t, w, p) {
          NoneBetween(t, w, h, p);
        }
      }
      h := next;
    }
    NotAtEnd(t, w);
    return None;
  }

  lemma StepIs(t: seq<Byte>, c: CodePoint, rest: seq<Byte>)
    requires InRange(c) && t == Encode(c) + rest && IsText(rest)
    ensures StepSize(t[0]) == Size(c)
  {
    EncodeShape(c);
  }

  lemma EmptyOccurs(h: seq<Byte>, n: seq<Byte>)
    requires n == []
    ensures OccursAt(h, n, 0)
  {
  }

  lemma NotAtEnd(h: seq<Byte>, n: seq<Byte>)
    requires n != []
    ensures !OccursAt(h, n, |h|)
  {
  }

  // ---------------------------------------------------------------- one code point

  /** The byte position of code point `k`. */
  function Offset(cps: seq<CodePoint>, k: nat): nat
    requires AllInRange(cps) && k <= |cps|
  {
    if k == 0 then 0 else Size(cps[0]) + Offset(cps[1..], k - 1)
  }

  /** The bytes of a code point stand in a text at its places, and nowhere else. */
  lemma {:induction false} OccursAtItsPlaces(cps: seq<CodePoint>, c: CodePoint, k: nat)
    requires AllInRange(cps) && k < |cps| && cps[k] == c
    ensures OccursAt(EncodeAll(cps), Encode(c), Offset(cps, k))
  {
    hide Encode;
    var t := EncodeAll(cps);
    if k == 0 {
    } else {
      OccursAtItsPlaces(cps[1..], c, k - 1);
      var n := Size(cps[0]);
      assert t[n..] == EncodeAll(cps[1..]);
      assert t[n + Offset(cps[1..], k - 1)..] == t[n..][Offset(cps[1..], k - 1)..];
    }
  }

  lemma {:induction false} OnlyAtItsPlaces(cps: seq<CodePoint>, c: CodePoint, p: nat) returns (k: nat)
    requires AllInRange(cps) && InRange(c) && OccursAt(EncodeAll(cps), Encode(c), p)
    ensures k < |cps| && cps[k] == c && Offset(cps, k) == p
    decreases |cps|
  {
    hide Encode;
    var t := EncodeAll(cps);
    assert t != [] && cps != [];
    var n, rest := Size(cps[0]), EncodeAll(cps[1..]);
    if p == 0 {
      assert t[0..] == t;
      SamePrefix(c, cps[0], rest);
      k := 0;
    } else {
      WholeTexts(cps, c);
      NoneBetween(t, Encode(c), 0, p);
      StepIs(t, cps[0], rest);
      assert t[n..] == rest && t[p..] == rest[p-n..];
      k := OnlyAtItsPlaces(cps[1..], c, p - n);
      k := k + 1;
    }
  }

  lemma WholeTexts(cps: seq<CodePoint>, c: CodePoint)
    requires AllInRange(cps) && cps != [] && InRange(c)
    ensures var t := EncodeAll(cps);
      IsText(t[..]) && IsText(t[0..]) && IsText(Encode(c)) && IsText(EncodeAll(cps[1..]))
  {
    var t := EncodeAll(cps);
    assert t[..] == t[0..] == t;
    assert EncodeAll([c]) == Encode(c) + [] == Encode(c);
  }

  lemma {:induction false} OffsetsGrow(cps: seq<CodePoint>, j: nat, k: nat)
    requires AllInRange(cps) && j < k <= |cps|
    ensures Offset(cps, j) < Offset(cps, k)
  {
    if j == 0 {
    } else {
      OffsetsGrow(cps[1..], j - 1, k - 1);
    }
  }

  lemma {:induction false} OffsetsInside(cps: seq<CodePoint>, k: nat)
    requires AllInRange(cps) && k <= |cps|
    ensures Offset(cps, k) <= |EncodeAll(cps)|
  {
    if k == 0 {
    } else {
      OffsetsInside(cps[1..], k - 1);
    }
  }

  /** The search for the bytes of a code point finds its first place among the code points. */
  lemma FirstPlace(cps: seq<CodePoint>, c: CodePoint, r: Option<nat>)
    requires AllInRange(cps) && InRange(c)
    requires r.Some? ==> OccursAt(EncodeAll(cps), Encode(c), r.value)
    requires forall p: nat :: (if r.Some? then p < r.value else p <= |EncodeAll(cps)|) ==>
      !OccursAt(EncodeAll(cps), Encode(c), p)
    ensures r.None? <==> c !in cps
    ensures r.Some? ==> exists k: nat :: k < |cps| && cps[k] == c && c !in cps[..k] && r.value == Offset(cps, k)
  {
    hide Encode, EncodeAll, Offset, OccursAt;
    if c in cps {
      var k :| 0 <= k < |cps| && cps[k] == c;
      OccursAtItsPlaces(cps, c, k);
      OffsetsInside(cps, k);
    }
    if r.Some? {
      var k := OnlyAtItsPlaces(cps, c, r.value);
      forall j: nat | j < k ensures cps[j] != c {
        if cps[j] == c {
          OccursAtItsPlaces(cps, c, j);
          OffsetsGrow(cps, j, k);
        }
      }
    }
  }

  /** utf8chr: the terminator for zero, otherwise the byte position of the first place of the code point. The needle
      is the encoding and its terminator. */
  method Utf8Chr(src: array<Byte>, chr: CodePoint) returns (r: Option<nat>)
    requires CString(src[..]) && IsText(TextOf(src[..])) && chr <= MAX_CODE_POINT
    ensures chr == 0 ==> r == Some(src.Length - 1)
    ensures var cps := DecodeAll(TextOf(src[..])); AllInRange(cps) && (chr != 0 ==> (
      && (r.None? <==> chr !in cps)
      && (r.Some? ==> exists k: nat :: k < |cps| && cps[k] == chr && chr !in cps[..k] && r.value == Offset(cps, k))))
  {
    hide IsText, Encode, OccursAt, DecodeAll, EncodeAll;
    EncodeDecode(TextOf(src[..]));
    if chr == 0 {
      var s: nat := 0;
      while src[s] != 0
        invariant s < src.Length
        decreases src.Length - s
      {
        s := s + 1;
      }
      return Some(s);
    }
    var c := new Byte[Size(chr) + 1];
    var end := Utf8CatCodePoint(c, 0, chr, Size(chr));
    c[Size(chr)] := 0;
    EncodeShape(chr);
    assert TextOf(c[..]) == Encode(chr);
    OneCodePoint(chr);
    r := Utf8Str(src, c);
    ghost var t, cps := TextOf(src[..]), DecodeAll(TextOf(src[..]));
    assert EncodeAll(cps) == t && src.Length == |t| + 1;
    forall p: nat | if r.Some? then p < r.value else p <= |EncodeAll(cps)|
      ensures !OccursAt(EncodeAll(cps), Encode(chr), p)
    {
      assert !OccursAt(t, TextOf(c[..]), p);
    }
    FirstPlace(cps, chr, r);
  }

  lemma OneCodePoint(c: CodePoint)
    requires InRange(c)
    ensures IsText(Encode(c))
  {
    assert EncodeAll([c]) == Encode(c) + [] == Encode(c);
  }
}
