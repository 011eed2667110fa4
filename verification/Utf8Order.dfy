/** The bytes of an encoded code point spelt out, and the order of texts: comparing bytes is comparing code points
    (section 1 of RFC 3629). */
module Utf8Order {
  import opened Utf8Codec

  /** The leading byte and the six bits of each continuation byte. */
  lemma EncodeSpelt(c: CodePoint)
    requires c <= MAX_CODE_POINT
    ensures c < 0x80 ==> Encode(c) == [c]
    ensures 0x80 <= c < 0x800 ==> Encode(c) == [0xc0 + c / 0x40, 0x80 + c % 0x40]
    ensures 0x800 <= c < 0x1_0000 ==> Encode(c) == [0xe0 + c / 0x1000, 0x80 + c / 0x40 % 0x40, 0x80 + c % 0x40]
    ensures 0x1_0000 <= c ==>
      Encode(c) == [0xf0 + c / 0x4_0000, 0x80 + c / 0x1000 % 0x40, 0x80 + c / 0x40 % 0x40, 0x80 + c % 0x40]
  {
    assert c / 0x40 / 0x40 == c / 0x1000 && c / 0x1000 / 0x40 == c / 0x4_0000;
  }

  // ---------------------------------------------------------------- order

  /** The first place where the two differ decides; a prefix comes first. */
  ghost predicate DecidedAt(a: seq<int>, b: seq<int>, k: nat) {
    && k <= |a| && k <= |b| && a[..k] == b[..k]
    && (if k < |a| && k < |b| then a[k] < b[k] else k == |a| < |b|)
  }

  ghost predicate Before(a: seq<int>, b: seq<int>) {
    exists k: nat :: DecidedAt(a, b, k)
  }

  /** The encoding of a smaller code point is smaller at the first byte that differs, and neither is a prefix. */
  lemma CodePointOrder(c: CodePoint, d: CodePoint) returns (k: nat)
    requires InRange(c) && InRange(d) && c < d
    ensures k < Size(c) && k < Size(d) && Encode(c)[..k] == Encode(d)[..k] && Encode(c)[k] < Encode(d)[k]
  {
    k := FirstByte(c, d);
    SamePrefix(Encode(c), Encode(d), k);
  }

  lemma FirstByte(c: CodePoint, d: CodePoint) returns (k: nat)
    requires InRange(c) && InRange(d) && c < d
    ensures k < Size(c) && k < Size(d) && Encode(c)[k] < Encode(d)[k]
    ensures forall i :: 0 <= i < k ==> Encode(c)[i] == Encode(d)[i]
  {
    EncodeDigits(c);
    EncodeDigits(d);
    DigitsInOrder(c, d);
    EncodeDiffers(c, d);
    hide *;
    if Size(c) != Size(d) || Size(c) == 1 {
      k := 0;
    } else {
      k := FirstDigit(Encode(c), Encode(d));
    }
  }

  function Top(c: CodePoint, unit: nat): (n: nat)
    requires unit > 0
  {
    c / unit
  }

  function Mid(c: CodePoint, unit: nat): (n: nat)
    requires unit > 0
    ensures n < 0x40
  {
    c / unit % 0x40
  }

  lemma EncodeDigits(c: CodePoint)
    requires InRange(c)
    ensures Size(c) == 1 ==> Encode(c) == [c] && c < 0x80
    ensures Size(c) == 2 ==> Encode(c) == [0xc0 + Top(c, 0x40), 0x80 + Mid(c, 1)] && Top(c, 0x40) < 0x20
    ensures Size(c) == 3 ==>
      Encode(c) == [0xe0 + Top(c, 0x1000), 0x80 + Mid(c, 0x40), 0x80 + Mid(c, 1)] && Top(c, 0x1000) < 0x10
    ensures Size(c) == 4 ==>
      Encode(c) == [0xf0 + Top(c, 0x4_0000), 0x80 + Mid(c, 0x1000), 0x80 + Mid(c, 0x40), 0x80 + Mid(c, 1)]
  {
    EncodeSpelt(c);
    hide Encode;
  }

  lemma DigitsInOrder(c: CodePoint, d: CodePoint)
    requires c < d
    ensures Size(c) <= Size(d)
    ensures Top(c, 0x40) <= Top(d, 0x40) && Top(c, 0x1000) <= Top(d, 0x1000) && Top(c, 0x4_0000) <= Top(d, 0x4_0000)
    ensures Top(c, 0x40) == Top(d, 0x40) ==> Mid(c, 1) <= Mid(d, 1)
    ensures Top(c, 0x1000) == Top(d, 0x1000) ==> Mid(c, 0x40) <= Mid(d, 0x40)
    ensures Top(c, 0x1000) == Top(d, 0x1000) && Mid(c, 0x40) == Mid(d, 0x40) ==> Top(c, 0x40) == Top(d, 0x40)
    ensures Top(c, 0x4_0000) == Top(d, 0x4_0000) ==> Mid(c, 0x1000) <= Mid(d, 0x1000)
    ensures Top(c, 0x4_0000) == Top(d, 0x4_0000) && Mid(c, 0x1000) == Mid(d, 0x1000) ==>
      Top(c, 0x1000) == Top(d, 0x1000)
  {
    SixBits(c, d);
  }

  lemma EncodeDiffers(c: CodePoint, d: CodePoint)
    requires InRange(c) && InRange(d) && c != d
    ensures Encode(c) != Encode(d)
  {
    EncodeShape(c);
    EncodeShape(d);
  }

  /** Two to four digits, the first ones in order and each later one if those before it are equal. */
  lemma FirstDigit(e: seq<int>, f: seq<int>) returns (k: nat)
    requires 2 <= |e| == |f| <= 4 && e[0] <= f[0] && (e[0] == f[0] ==> e[1] <= f[1])
    requires |e| > 2 && e[0] == f[0] && e[1] == f[1] ==> e[2] <= f[2]
    requires |e| > 3 && e[0] == f[0] && e[1] == f[1] && e[2] == f[2] ==> e[3] <= f[3]
    requires e != f
    ensures k < |e| && e[k] < f[k] && forall i :: 0 <= i < k ==> e[i] == f[i]
  {
    assert (forall i :: 0 <= i < |e| ==> e[i] == f[i]) ==> e == f;
    k := if e[0] != f[0] then 0 else if e[1] != f[1] then 1 else if |e| > 2 && e[2] != f[2] then 2 else 3;
  }

  lemma SamePrefix(e: seq<int>, f: seq<int>, k: nat)
    requires k <= |e| && k <= |f| && forall i :: 0 <= i < k ==> e[i] == f[i]
    ensures e[..k] == f[..k]
  {
  }

  lemma SixBits(c: CodePoint, d: CodePoint)
    requires c < d
    ensures c / 0x40 == d / 0x40 ==> c % 0x40 < d % 0x40
    ensures c / 0x1000 == d / 0x1000 ==> c / 0x40 % 0x40 <= d / 0x40 % 0x40
    ensures c / 0x1000 == d / 0x1000 && c / 0x40 % 0x40 == d / 0x40 % 0x40 ==> c / 0x40 == d / 0x40
    ensures c / 0x4_0000 == d / 0x4_0000 ==> c / 0x1000 % 0x40 <= d / 0x1000 % 0x40
    ensures c / 0x4_0000 == d / 0x4_0000 && c / 0x1000 % 0x40 == d / 0x1000 % 0x40 ==> c / 0x1000 == d / 0x1000
  {
    Shifts(c);
    Shifts(d);
    Digit(c, d);
    Digit(c / 0x40, d / 0x40);
    Digit(c / 0x1000, d / 0x1000);
  }

  lemma Shifts(c: CodePoint)
    ensures c / 0x40 / 0x40 == c / 0x1000 && c / 0x1000 / 0x40 == c / 0x4_0000
  {
  }

  /** The last six bits and the rest. */
  lemma Digit(c: CodePoint, d: CodePoint)
    requires c <= d
    ensures c / 0x40 <= d / 0x40 && (c / 0x40 == d / 0x40 ==> c % 0x40 <= d % 0x40)
    ensures c / 0x40 == d / 0x40 && c % 0x40 == d % 0x40 ==> c == d
  {
  }

  // ---------------------------------------------------------------- whole texts

  lemma {:induction false} EncodeAllAppend(a: seq<CodePoint>, b: seq<CodePoint>)
    requires AllInRange(a) && AllInRange(b)
    ensures AllInRange(a + b) && EncodeAll(a + b) == EncodeAll(a) + EncodeAll(b)
  {
    hide Encode;
    if a == [] {
      assert a + b == b;
    } else {
      assert (a + b)[1..] == a[1..] + b;
      EncodeAllAppend(a[1..], b);
    }
  }

  /** The encodings of two texts from their first different code points on. */
  lemma OrderHere(front: seq<int>, e: seq<int>, f: seq<int>, a: seq<int>, b: seq<int>, k: nat)
    requires k < |e| && k < |f| && e[..k] == f[..k] && e[k] < f[k]
    ensures Before(front + (e + a), front + (f + b))
  {
    var s, t, n := front + (e + a), front + (f + b), |front| + k;
    assert s[..n] == front + e[..k] && t[..n] == front + f[..k];
    assert DecidedAt(s, t, n);
  }

  /** Texts in the order of their code points are in the order of their bytes. */
  lemma TextOrder(a: seq<CodePoint>, b: seq<CodePoint>, k: nat)
    requires AllInRange(a) && AllInRange(b) && DecidedAt(a, b, k)
    ensures Before(EncodeAll(a), EncodeAll(b))
  {
    hide Encode, Before, DecidedAt;
    Decided(a, b, k);
    EncodeAllAppend(a[..k], a[k..]);
    EncodeAllAppend(b[..k], b[k..]);
    assert a == a[..k] + a[k..] && b == b[..k] + b[k..];
    if k < |a| {
      var j := CodePointOrder(a[k], b[k]);
      OrderHere(EncodeAll(a[..k]), Encode(a[k]), Encode(b[k]), EncodeAll(a[k+1..]), EncodeAll(b[k+1..]), j);
      assert a[k..][1..] == a[k+1..] && b[k..][1..] == b[k+1..];
    } else {
      assert a[k..] == [] && EncodeAll(a) == EncodeAll(b[..k]) + [];
      PrefixBefore(EncodeAll(b[..k]), Encode(b[k]) + EncodeAll(b[k+1..]));
      assert b[k..][1..] == b[k+1..];
    }
  }

  lemma Decided(a: seq<int>, b: seq<int>, k: nat)
    requires DecidedAt(a, b, k)
    ensures k <= |a| && k < |b| && a[..k] == b[..k] && (k < |a| ==> a[k] < b[k])
  {
  }

  lemma PrefixBefore(a: seq<int>, rest: seq<int>)
    requires rest != []
    ensures Before(a + [], a + rest)
  {
    assert (a + [])[..|a|] == (a + rest)[..|a|];
    assert DecidedAt(a + [], a + rest, |a|);
  }

  /** Two different sequences are in one order, and in one only. */
  lemma {:induction false} BeforeOrder(a: seq<int>, b: seq<int>)
    ensures a == b || Before(a, b) || Before(b, a)
    ensures !(Before(a, b) && Before(b, a)) && !Before(a, a)
  {
    if a == [] || b == [] || a[0] != b[0] {
      if a != b {
        assert DecidedAt(a, b, 0) || DecidedAt(b, a, 0);
      }
    } else {
      BeforeOrder(a[1..], b[1..]);
      BeforeTail(a, b);
      BeforeTail(b, a);
      BeforeTail(a, a);
      assert a == [a[0]] + a[1..] && b == [b[0]] + b[1..];
    }
  }

  lemma BeforeTail(a: seq<int>, b: seq<int>)
    requires a != [] && b != [] && a[0] == b[0]
    ensures Before(a, b) <==> Before(a[1..], b[1..])
  {
    if k: nat :| DecidedAt(a[1..], b[1..], k) {
      assert a[..k+1] == [a[0]] + a[1..][..k] && b[..k+1] == [b[0]] + b[1..][..k];
      assert DecidedAt(a, b, k + 1);
    }
    if k: nat :| DecidedAt(a, b, k) {
      assert a[1..][..k-1] == a[..k][1..] && b[1..][..k-1] == b[..k][1..];
      assert DecidedAt(a[1..], b[1..], k - 1);
    }
  }

  /** Comparing the bytes of two texts is comparing their code points. */
  lemma BytesAreOrdered(a: seq<CodePoint>, b: seq<CodePoint>)
    requires AllInRange(a) && AllInRange(b)
    ensures Before(a, b) <==> Before(EncodeAll(a), EncodeAll(b))
  {
    hide EncodeAll, DecidedAt;
    BeforeOrder(a, b);
    BeforeOrder(EncodeAll(a), EncodeAll(b));
    if k: nat :| DecidedAt(a, b, k) { TextOrder(a, b, k); }
    if k: nat :| DecidedAt(b, a, k) { TextOrder(b, a, k); }
  }
}
