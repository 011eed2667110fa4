/** Case mapping in fort.c, by code point and in place. */
module Utf8Case {
  import opened Utf8Codec

  // ---------------------------------------------------------------- the tables

  predicate UpperBlock(c: CodePoint) {
    0x0041 <= c <= 0x005a || 0x00c0 <= c <= 0x00d6 || 0x00d8 <= c <= 0x00de ||
    0x0391 <= c <= 0x03a1 || 0x03a3 <= c <= 0x03ab
  }

  predicate LowerBlock(c: CodePoint) {
    0x0061 <= c <= 0x007a || 0x00e0 <= c <= 0x00f6 || 0x00f8 <= c <= 0x00fe ||
    0x03b1 <= c <= 0x03c1 || 0x03c3 <= c <= 0x03cb
  }

  /** Blocks of pairs, the upper case even. */
  predicate EvenPairs(c: CodePoint) {
    0x0100 <= c <= 0x012f || 0x0132 <= c <= 0x0137 || 0x014a <= c <= 0x0177 ||
    0x0182 <= c <= 0x0185 || 0x01a0 <= c <= 0x01a5 || 0x01de <= c <= 0x01ef ||
    0x01f8 <= c <= 0x021f || 0x0222 <= c <= 0x0233 || 0x0246 <= c <= 0x024f ||
    0x03d8 <= c <= 0x03ef
  }

  /** Blocks of pairs, the upper case odd. */
  predicate OddPairs(c: CodePoint) {
    0x0139 <= c <= 0x0148 || 0x0179 <= c <= 0x017e || 0x01af <= c <= 0x01b0 ||
    0x01b3 <= c <= 0x01b6 || 0x01cd <= c <= 0x01dc
  }

  /** The single cases of utf8lwrcodepoint. */
  function LowerOf(c: CodePoint): CodePoint {
    match c
    case 0x0178 => 0x00ff case 0x0243 => 0x0180 case 0x018e => 0x01dd case 0x023d => 0x019a
    case 0x0220 => 0x019e case 0x01b7 => 0x0292 case 0x01c4 => 0x01c6 case 0x01c7 => 0x01c9
    case 0x01ca => 0x01cc case 0x01f1 => 0x01f3 case 0x01f7 => 0x01bf case 0x0187 => 0x0188
    case 0x018b => 0x018c case 0x0191 => 0x0192 case 0x0198 => 0x0199 case 0x01a7 => 0x01a8
    case 0x01ac => 0x01ad case 0x01af => 0x01b0 case 0x01b8 => 0x01b9 case 0x01bc => 0x01bd
    case 0x01f4 => 0x01f5 case 0x023b => 0x023c case 0x0241 => 0x0242 case 0x03fd => 0x037b
    case 0x03fe => 0x037c case 0x03ff => 0x037d case 0x037f => 0x03f3 case 0x0386 => 0x03ac
    case 0x0388 => 0x03ad case 0x0389 => 0x03ae case 0x038a => 0x03af case 0x038c => 0x03cc
    case 0x038e => 0x03cd case 0x038f => 0x03ce case 0x0370 => 0x0371 case 0x0372 => 0x0373
    case 0x0376 => 0x0377 case 0x03f4 => 0x03d1 case 0x03cf => 0x03d7 case 0x03f9 => 0x03f2
    case 0x03f7 => 0x03f8 case 0x03fa => 0x03fb
    case _ => c
  }

  /** The single cases of utf8uprcodepoint. */
  function UpperOf(c: CodePoint): CodePoint {
    match c
    case 0x00ff => 0x0178 case 0x0180 => 0x0243 case 0x01dd => 0x018e case 0x019a => 0x023d
    case 0x019e => 0x0220 case 0x0292 => 0x01b7 case 0x01c6 => 0x01c4 case 0x01c9 => 0x01c7
    case 0x01cc => 0x01ca case 0x01f3 => 0x01f1 case 0x01bf => 0x01f7 case 0x0188 => 0x0187
    case 0x018c => 0x018b case 0x0192 => 0x0191 case 0x0199 => 0x0198 case 0x01a8 => 0x01a7
    case 0x01ad => 0x01ac case 0x01b0 => 0x01af case 0x01b9 => 0x01b8 case 0x01bd => 0x01bc
    case 0x01f5 => 0x01f4 case 0x023c => 0x023b case 0x0242 => 0x0241 case 0x037b => 0x03fd
    case 0x037c => 0x03fe case 0x037d => 0x03ff case 0x03f3 => 0x037f case 0x03ac => 0x0386
    case 0x03ad => 0x0388 case 0x03ae => 0x0389 case 0x03af => 0x038a case 0x03cc => 0x038c
    case 0x03cd => 0x038e case 0x03ce => 0x038f case 0x0371 => 0x0370 case 0x0373 => 0x0372
    case 0x0377 => 0x0376 case 0x03d1 => 0x03f4 case 0x03d7 => 0x03cf case 0x03f2 => 0x03f9
    case 0x03f8 => 0x03f7 case 0x03fb => 0x03fa
    case _ => c
  }

  function Odd(c: CodePoint): CodePoint {
    if c % 2 == 0 then c + 1 else c
  }

  function Even(c: CodePoint): CodePoint {
    if c % 2 == 0 then c else c - 1
  }

  /** utf8lwrcodepoint. */
  function Lwr(c: CodePoint): CodePoint {
    if UpperBlock(c) then c + 32
    else if EvenPairs(c) then Odd(c)
    else if OddPairs(c) then Even(c + 1)
    else LowerOf(c)
  }

  /** utf8uprcodepoint. */
  function Upr(c: CodePoint): CodePoint {
    if LowerBlock(c) then c - 32
    else if EvenPairs(c) then Even(c)
    else if OddPairs(c) then Odd(c - 1)
    else UpperOf(c)
  }

  // ---------------------------------------------------------------- what the tables keep

  predicate InBlocks(c: CodePoint) {
    EvenPairs(c) || OddPairs(c)
  }

  /** A single case leads out of the blocks, to a code point that is lower case already and leads back. */
  lemma LowerOfSingle(c: CodePoint)
    requires LowerOf(c) != c && !InBlocks(c)
    ensures var d := LowerOf(c);
      !InBlocks(d) && !UpperBlock(d) && !LowerBlock(d) && UpperOf(d) == c && 0x80 <= c < 0x800 && 0x80 <= d < 0x800
  {
  }

  lemma UpperOfSingle(c: CodePoint)
    requires UpperOf(c) != c && !InBlocks(c)
    ensures var d := UpperOf(c);
      !InBlocks(d) && !UpperBlock(d) && !LowerBlock(d) && LowerOf(d) == c && 0x80 <= c < 0x800 && 0x80 <= d < 0x800
  {
  }

  lemma LowerOfTwice(c: CodePoint)
    ensures LowerOf(LowerOf(c)) == LowerOf(c)
  {
  }

  lemma UpperOfTwice(c: CodePoint)
    ensures UpperOf(UpperOf(c)) == UpperOf(c)
  {
  }

  /** The single cases leave the blocks of shifted letters alone. */
  lemma ShiftedAlone(c: CodePoint)
    requires UpperBlock(c) || LowerBlock(c)
    ensures !InBlocks(c) && LowerOf(c) == c && UpperOf(c) == c && !(UpperBlock(c) && LowerBlock(c))
  {
  }

  /** Lower case stays lower case, takes as many bytes, and is never the terminator. */
  lemma LwrIsStable(c: CodePoint)
    ensures Lwr(Lwr(c)) == Lwr(c) && Size(Lwr(c)) == Size(c) && (InRange(Lwr(c)) <==> InRange(c))
  {
    if UpperBlock(c) {
      ShiftedAlone(c + 32);
    } else if InBlocks(c) {
      LwrInBlocks(c);
    } else if LowerOf(c) != c {
      LowerOfSingle(c);
      LowerOfTwice(c);
      hide LowerOf, UpperOf, EvenPairs, OddPairs, UpperBlock, LowerBlock;
    }
  }

  /** The paired letters stay in their blocks. */
  lemma LwrInBlocks(c: CodePoint)
    requires InBlocks(c) && !UpperBlock(c)
    ensures Lwr(Lwr(c)) == Lwr(c) && Size(Lwr(c)) == Size(c) && (InRange(Lwr(c)) <==> InRange(c))
  {
    hide LowerOf, UpperOf;
  }

  lemma UprIsStable(c: CodePoint)
    ensures Upr(Upr(c)) == Upr(c) && Size(Upr(c)) == Size(c) && (InRange(Upr(c)) <==> InRange(c))
  {
    hide LowerOf, UpperOf;
    if LowerBlock(c) {
      ShiftedAlone(c - 32);
    } else if !InBlocks(c) && UpperOf(c) != c {
      UpperOfSingle(c);
      UpperOfTwice(c);
    }
  }

  /** The two tables undo each other wherever they change anything. */
  lemma LwrIsUndone(c: CodePoint)
    requires Lwr(c) != c
    ensures Upr(Lwr(c)) == c
  {
    hide LowerOf, UpperOf;
    if UpperBlock(c) {
      ShiftedAlone(c + 32);
    } else if !InBlocks(c) {
      LowerOfSingle(c);
    }
  }

  lemma UprIsUndone(c: CodePoint)
    requires Upr(c) != c
    ensures Lwr(Upr(c)) == c
  {
    hide LowerOf, UpperOf;
    if LowerBlock(c) {
      ShiftedAlone(c - 32);
    } else if !InBlocks(c) {
      UpperOfSingle(c);
    }
  }

  // ---------------------------------------------------------------- one table for both directions

  /** Upper and lower case where the two are not neighbours in a block. */
  const SINGLES: set<(CodePoint, CodePoint)> := {
    (0x0178, 0x00ff), (0x0187, 0x0188), (0x018b, 0x018c), (0x018e, 0x01dd), (0x0191, 0x0192), (0x0198, 0x0199),
    (0x01a7, 0x01a8), (0x01ac, 0x01ad), (0x01b7, 0x0292), (0x01b8, 0x01b9), (0x01bc, 0x01bd), (0x01c4, 0x01c6),
    (0x01c7, 0x01c9), (0x01ca, 0x01cc), (0x01f1, 0x01f3), (0x01f4, 0x01f5), (0x01f7, 0x01bf), (0x0220, 0x019e),
    (0x023b, 0x023c), (0x023d, 0x019a), (0x0241, 0x0242), (0x0243, 0x0180), (0x0370, 0x0371), (0x0372, 0x0373),
    (0x0376, 0x0377), (0x037f, 0x03f3), (0x0386, 0x03ac), (0x0388, 0x03ad), (0x0389, 0x03ae), (0x038a, 0x03af),
    (0x038c, 0x03cc), (0x038e, 0x03cd), (0x038f, 0x03ce), (0x03cf, 0x03d7), (0x03f4, 0x03d1), (0x03f7, 0x03f8),
    (0x03f9, 0x03f2), (0x03fa, 0x03fb), (0x03fd, 0x037b), (0x03fe, 0x037c), (0x03ff, 0x037d)
  }

  /** The pairs of upper and lower case: letters 32 apart, neighbours with the upper case even, neighbours with the
      upper case odd, and single ones. */
  predicate CasePair(u: CodePoint, l: CodePoint) {
    || (l == u + 32 && (0x41 <= u <= 0x5a || 0xc0 <= u <= 0xd6 || 0xd8 <= u <= 0xde || 0x391 <= u <= 0x3a1
                        || 0x3a3 <= u <= 0x3ab))
    || (l == u + 1 && u % 2 == 0 && (0x100 <= u <= 0x12e || 0x132 <= u <= 0x136 || 0x14a <= u <= 0x176
                                     || 0x182 <= u <= 0x184 || 0x1a0 <= u <= 0x1a4 || 0x1de <= u <= 0x1ee
                                     || 0x1f8 <= u <= 0x21e || 0x222 <= u <= 0x232 || 0x246 <= u <= 0x24e
                                     || 0x3d8 <= u <= 0x3ee))
    || (l == u + 1 && u % 2 == 1 && (0x139 <= u <= 0x147 || 0x179 <= u <= 0x17d || u == 0x1af
                                     || 0x1b3 <= u <= 0x1b5 || 0x1cd <= u <= 0x1db))
    || Single(u, l)
  }

  predicate Single(u: CodePoint, l: CodePoint) {
    (u, l) in SINGLES
  }

  /** The two lists of single cases are this one, but for a pair that the blocks have already. */
  lemma LowerSingles(c: CodePoint, d: CodePoint)
    ensures Single(c, d) <==> LowerOf(c) == d != c && c != 0x1af
  {
  }

  lemma UpperSingles(c: CodePoint, d: CodePoint)
    ensures Single(c, d) <==> UpperOf(d) == c != d && d != 0x1b0
  {
  }

  /** A single pair has nothing to do with the blocks. */
  lemma SingleAlone(u: CodePoint, l: CodePoint)
    requires Single(u, l)
    ensures !InBlocks(u) && !InBlocks(l) && !UpperBlock(u) && !LowerBlock(l) && u != l
  {
  }

  /** Lower-casing changes exactly the upper case of a pair, into its lower case. */
  lemma LwrIsPairs(c: CodePoint, d: CodePoint)
    ensures Lwr(c) == d != c <==> CasePair(c, d)
  {
    LowerSingles(c, d);
    hide LowerOf;
    hide Single;
    if Single(c, d) { SingleAlone(c, d); }
  }

  /** Upper-casing changes exactly the lower case of a pair, into its upper case. */
  lemma UprIsPairs(c: CodePoint, d: CodePoint)
    ensures Upr(d) == c != d <==> CasePair(c, d)
  {
    UpperSingles(c, d);
    hide UpperOf;
    hide Single;
    if Single(c, d) { SingleAlone(c, d); }
  }

  // ---------------------------------------------------------------- in place

  function LwrAll(cps: seq<CodePoint>): (r: seq<CodePoint>)
    ensures |r| == |cps| && forall i :: 0 <= i < |cps| ==> r[i] == Lwr(cps[i])
  {
    if cps == [] then [] else [Lwr(cps[0])] + LwrAll(cps[1..])
  }

  lemma {:induction false} LwrAllKeeps(cps: seq<CodePoint>)
    requires AllInRange(cps)
    ensures AllInRange(LwrAll(cps)) && |EncodeAll(LwrAll(cps))| == |EncodeAll(cps)|
      && LwrAll(LwrAll(cps)) == LwrAll(cps)
  {
    hide Lwr, Encode, Size;
    if cps == [] {
    } else {
      LwrIsStable(cps[0]);
      LwrAllKeeps(cps[1..]);
    }
  }

  lemma LwrAllSnoc(cps: seq<CodePoint>, k: nat)
    requires k < |cps|
    ensures LwrAll(cps[..k+1]) == LwrAll(cps[..k]) + [Lwr(cps[k])]
  {
  }

  lemma Framed(front: seq<Byte>, back: seq<Byte>)
    requires (forall i :: 0 <= i < |front| ==> front[i] != 0) && (forall i :: 0 <= i < |back| ==> back[i] != 0)
    ensures var m := front + back + [0];
      CString(m) && TextOf(m) == front + back && TextOf(m)[|front|..] == back
  {
  }

  /** Where the in-place loop stands after `k` code points: those in lower case, the rest as they were. */
  ghost predicate LowerUpTo(m: seq<Byte>, cps: seq<CodePoint>, k: nat, p: nat)
    requires AllInRange(cps) && k <= |cps|
  {
    && AllInRange(LwrAll(cps[..k])) && p == |EncodeAll(LwrAll(cps[..k]))|
    && m == EncodeAll(LwrAll(cps[..k])) + EncodeAll(cps[k..]) + [0]
  }

  lemma LowerUpToShape(m: seq<Byte>, cps: seq<CodePoint>, k: nat, p: nat)
    requires AllInRange(cps) && k <= |cps| && LowerUpTo(m, cps, k, p)
    ensures CString(m) && p < |m| && TextOf(m)[p..] == EncodeAll(cps[k..]) && IsText(TextOf(m)[p..])
    ensures k < |cps| <==> p < |m| - 1
    ensures k < |cps| ==> TextOf(m)[p..] == Encode(cps[k]) + EncodeAll(cps[k+1..])
  {
    hide Encode;
    NoZeroInside(LwrAll(cps[..k]));
    NoZeroInside(cps[k..]);
    Framed(EncodeAll(LwrAll(cps[..k])), EncodeAll(cps[k..]));
    if k < |cps| { assert cps[k..][1..] == cps[k+1..]; }
  }

  lemma LowerUpToStep(m: seq<Byte>, m': seq<Byte>, cps: seq<CodePoint>, k: nat, p: nat)
    requires AllInRange(cps) && k < |cps| && LowerUpTo(m, cps, k, p) && p + Size(cps[k]) <= |m|
    requires InRange(Lwr(cps[k])) && m' == m[..p] + Encode(Lwr(cps[k])) + m[p+Size(cps[k])..]
    ensures LowerUpTo(m', cps, k + 1, p + Size(cps[k]))
  {
    hide Encode, Lwr;
    LwrIsStable(cps[k]);
    LwrAllSnoc(cps, k);
    EncodeSnoc(LwrAll(cps[..k]), Lwr(cps[k]));
    assert cps[k..][1..] == cps[k+1..];
    var front := EncodeAll(LwrAll(cps[..k]));
    Spliced(front, Encode(cps[k]), EncodeAll(cps[k+1..]));
  }

  lemma Spliced(front: seq<Byte>, mid: seq<Byte>, rest: seq<Byte>)
    ensures var m := front + (mid + rest) + [0];
      m[..|front|] == front && m[|front|+|mid|..] == rest + [0]
  {
  }

  lemma LowerAtStart(m: seq<Byte>, cps: seq<CodePoint>)
    requires CString(m) && AllInRange(cps) && EncodeAll(cps) == TextOf(m)
    ensures LowerUpTo(m, cps, 0, 0)
  {
    assert cps[..0] == [] && cps[0..] == cps;
    assert [] + EncodeAll(cps) + [0] == m;
  }

  lemma LowerAtEnd(m: seq<Byte>, cps: seq<CodePoint>, p: nat)
    requires AllInRange(cps) && LowerUpTo(m, cps, |cps|, p)
    ensures CString(m) && IsText(TextOf(m)) && DecodeAll(TextOf(m)) == LwrAll(cps)
  {
    LowerUpToShape(m, cps, |cps|, p);
    assert cps[..|cps|] == cps && cps[|cps|..] == [];
    assert TextOf(m) == EncodeAll(LwrAll(cps));
    DecodeEncode(LwrAll(cps));
  }

  /** utf8codepoint on a half mapped text: the next code point not mapped yet, or the terminator. */
  method NextUnmapped(str: array<Byte>, ghost cps: seq<CodePoint>, ghost k: nat, p: nat) returns (pn: nat,
    cp: CodePoint)
    requires AllInRange(cps) && k <= |cps| && LowerUpTo(str[..], cps, k, p)
    ensures if k < |cps| then cp == cps[k] && pn == p + Size(cp) < str.Length else cp == 0
  {
    hide Encode, EncodeAll, IsText, LowerUpTo, CString, TextOf;
    LowerUpToShape(str[..], cps, k, p);
    pn, cp := Utf8CodePoint(str, p);
    if k < |cps| { SamePrefix(cp, cps[k], EncodeAll(cps[k+1..])); }
  }

  /** utf8lwr: every code point of a text is mapped in place; the text keeps its length and stays a text. */
  method Utf8Lwr(str: array<Byte>)
    requires CString(str[..]) && IsText(TextOf(str[..]))
    modifies str
    ensures CString(str[..]) && IsText(TextOf(str[..]))
    ensures DecodeAll(TextOf(str[..])) == LwrAll(old(DecodeAll(TextOf(str[..]))))
  {
    hide Encode, EncodeAll, DecodeAll, IsText, Lwr, LowerUpTo, Size;
    ghost var cps, k: nat := DecodeAll(TextOf(str[..])), 0;
    EncodeDecode(TextOf(str[..]));
    LowerAtStart(str[..], cps);
    var p: nat := 0;
    var pn, cp := NextUnmapped(str, cps, k, p);
    while cp != 0
      invariant k <= |cps| && LowerUpTo(str[..], cps, k, p)
      invariant if k < |cps| then cp == cps[k] && pn == p + Size(cp) < str.Length else cp == 0
      decreases |cps| - k
    {
      var lwrCp := Lwr(cp);
      var size := Size(lwrCp);
      LwrIsStable(cp);
      ghost var m := str[..];
      if lwrCp != cp {
        var _ := Utf8CatCodePoint(str, p, lwrCp, size);
      } else {
        LowerUpToShape(m, cps, k, p);
        SameBytes(m, cp, EncodeAll(cps[k+1..]), p);
      }
      LowerUpToStep(m, str[..], cps, k, p);
      k := k + 1;
      p := pn;
      pn, cp := NextUnmapped(str, cps, k, p);
    }
    assert k == |cps|;
    LowerAtEnd(str[..], cps, p);
  }

  /** Writing the bytes that stand there already changes nothing. */
  lemma SameBytes(m: seq<Byte>, c: CodePoint, rest: seq<Byte>, p: nat)
    requires c <= MAX_CODE_POINT && p < |m| && TextOf(m)[p..] == Encode(c) + rest
    ensures p + Size(c) <= |m| && m == m[..p] + Encode(c) + m[p+Size(c)..]
  {
    hide Encode;
    assert m[p..p+Size(c)] == TextOf(m)[p..][..Size(c)] == Encode(c);
  }
}
