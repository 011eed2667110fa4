/** Facts about sequences shared by the other modules: splitting on a separator, joining,
    flattening, summing. */
module Sequences {

  datatype Option<+T> = None | Some(value: T)

  /** The pieces of `s` between occurrences of `sep`; one piece more than there are separators. */
  function SplitOn<T(==)>(s: seq<T>, sep: T): (r: seq<seq<T>>)
    ensures |r| >= 1
  {
    if s == [] then [[]]
    else
      var rest := SplitOn(s[1..], sep);
      if s[0] == sep then [[]] + rest else [[s[0]] + rest[0]] + rest[1..]
  }

  function JoinWith<T>(parts: seq<seq<T>>, sep: T): seq<T>
    requires |parts| >= 1
  {
    if |parts| == 1 then parts[0] else parts[0] + [sep] + JoinWith(parts[1..], sep)
  }

  function Flatten<T>(parts: seq<seq<T>>): seq<T> {
    if parts == [] then [] else parts[0] + Flatten(parts[1..])
  }

  /** `mv` put in front of what stands at `pos`. */
  function InsertAt<T>(cur: seq<T>, pos: nat, mv: seq<T>): seq<T>
    requires pos <= |cur|
  {
    cur[..pos] + mv + cur[pos..]
  }

  /** Without the element at `i`. */
  function RemoveAt<T>(cur: seq<T>, i: nat): seq<T>
    requires i < |cur|
  {
    cur[..i] + cur[i+1..]
  }

  /** The sum of `n` elements of `w` from position `c` on. */
  function SumRange(w: seq<nat>, c: nat, n: nat): nat
    requires c + n <= |w|
  {
    if n == 0 then 0 else SumRange(w, c, n - 1) + w[c + n - 1]
  }

  function Max(a: nat, b: nat): nat {
    if a > b then a else b
  }

  function Repeat<T>(part: seq<T>, n: nat): seq<T> {
    if n == 0 then [] else part + Repeat(part, n - 1)
  }

  lemma {:induction false} RepeatLength<T>(part: seq<T>, n: nat)
    ensures |Repeat(part, n)| == Times(|part|, n)
  {
    if n == 0 {
    } else {
      RepeatLength(part, n - 1);
    }
  }

  lemma {:induction false} RepeatSnoc<T>(part: seq<T>, n: nat)
    ensures Repeat(part, n + 1) == Repeat(part, n) + part
  {
    if n == 0 {
    } else {
      RepeatSnoc(part, n - 1);
      calc {
        Repeat(part, n + 1);
        part + Repeat(part, n);
        part + (Repeat(part, n - 1) + part);
        (part + Repeat(part, n - 1)) + part;
      }
    }
  }

  lemma {:induction false} FlattenAppend<T>(a: seq<seq<T>>, b: seq<seq<T>>)
    ensures Flatten(a + b) == Flatten(a) + Flatten(b)
  {
    if a == [] {
      assert a + b == b;
    } else {
      assert (a + b)[1..] == a[1..] + b;
      FlattenAppend(a[1..], b);
    }
  }

  lemma {:induction false} FlattenSnoc<T>(a: seq<seq<T>>, x: seq<T>)
    ensures Flatten(a + [x]) == Flatten(a) + x
  {
    FlattenAppend(a, [x]);
    assert Flatten([x]) == x + Flatten([]) == x;
  }

  lemma {:induction false} SumRangeSplit(w: seq<nat>, c: nat, a: nat, b: nat)
    requires c + a + b <= |w|
    ensures SumRange(w, c, a + b) == SumRange(w, c, a) + SumRange(w, c + a, b)
  {
    if b == 0 {
    } else {
      SumRangeSplit(w, c, a, b - 1);
    }
  }

  lemma {:induction false} SumRangeMonotone(w: seq<nat>, t: seq<nat>, c: nat, n: nat)
    requires |w| == |t| && c + n <= |w|
    requires forall i :: 0 <= i < |w| ==> w[i] <= t[i]
    ensures SumRange(w, c, n) <= SumRange(t, c, n)
  {
    if n == 0 {
    } else {
      SumRangeMonotone(w, t, c, n - 1);
    }
  }

  /** `m * n`, kept away from the solver's nonlinear arithmetic. */
  function Times(m: nat, n: nat): nat {
    if n == 0 then 0 else m + Times(m, n - 1)
  }

  lemma {:induction false} TimesIsProduct(m: nat, n: nat)
    ensures Times(m, n) == m * n
  {
    if n == 0 {
    } else {
      TimesIsProduct(m, n - 1);
      assert m * n == m * (n - 1) + m;
    }
  }

  lemma {:induction false} TimesSum(m: nat, a: nat, b: nat)
    requires 1 <= m
    ensures Times(m, a + b) == Times(m, a) + Times(m, b) && a <= Times(m, a)
  {
    if a == 0 {
    } else {
      TimesSum(m, a - 1, b);
    }
  }

  /** Splitting at the first separator. */
  lemma {:induction false} SplitAtFirst<T>(s: seq<T>, sep: T, k: nat)
    requires k < |s| && s[k] == sep && sep !in s[..k]
    ensures SplitOn(s, sep) == [s[..k]] + SplitOn(s[k+1..], sep)
  {
    if k == 0 {
    } else {
      assert s[0] in s[..k];
      assert s[1..][..k-1] == s[..k][1..];
      SplitAtFirst(s[1..], sep, k - 1);
      assert s[1..][k..] == s[k+1..];
      assert [s[0]] + s[1..][..k-1] == s[..k];
    }
  }

  lemma {:induction false} SplitNone<T>(s: seq<T>, sep: T)
    requires sep !in s
    ensures SplitOn(s, sep) == [s]
  {
    if s == [] {
    } else {
      SplitNone(s[1..], sep);
      assert [s[0]] + s[1..] == s;
    }
  }

  lemma {:induction false} SplitPiecesFree<T>(s: seq<T>, sep: T)
    ensures forall i :: 0 <= i < |SplitOn(s, sep)| ==> sep !in SplitOn(s, sep)[i]
  {
    if s == [] {
    } else {
      SplitPiecesFree(s[1..], sep);
    }
  }

  lemma {:induction false} JoinSplit<T>(s: seq<T>, sep: T)
    ensures JoinWith(SplitOn(s, sep), sep) == s
  {
    if s == [] {
    } else {
      var rest := SplitOn(s[1..], sep);
      JoinSplit(s[1..], sep);
      if s[0] == sep {
        assert SplitOn(s, sep)[1..] == rest;
        assert [] + [sep] + s[1..] == s;
      } else {
        assert SplitOn(s, sep)[1..] == rest[1..];
        assert [s[0]] + s[1..] == s;
        if |rest| > 1 {
          assert ([s[0]] + rest[0]) + [sep] + JoinWith(rest[1..], sep) == [s[0]] + JoinWith(rest, sep);
        }
      }
    }
  }

  lemma {:induction false} SplitJoin<T>(parts: seq<seq<T>>, sep: T)
    requires |parts| >= 1
    requires forall i :: 0 <= i < |parts| ==> sep !in parts[i]
    ensures SplitOn(JoinWith(parts, sep), sep) == parts
  {
    if |parts| == 1 {
      SplitNone(parts[0], sep);
    } else {
      var s := JoinWith(parts, sep);
      var k := |parts[0]|;
      assert s[..k] == parts[0] && s[k] == sep;
      assert s[k+1..] == JoinWith(parts[1..], sep);
      SplitJoin(parts[1..], sep);
      SplitAtFirst(s, sep, k);
    }
  }

  /** What splitting means: the one way to write a sequence as pieces without the separator, joined by it. */
  lemma SplitIsUnique<T>(s: seq<T>, sep: T, pieces: seq<seq<T>>)
    ensures pieces == SplitOn(s, sep)
            <==> |pieces| >= 1 && JoinWith(pieces, sep) == s && forall i :: 0 <= i < |pieces| ==> sep !in pieces[i]
  {
    hide SplitOn, JoinWith;
    SplitPiecesFree(s, sep);
    JoinSplit(s, sep);
    if |pieces| >= 1 && JoinWith(pieces, sep) == s && forall i :: 0 <= i < |pieces| ==> sep !in pieces[i] {
      SplitJoin(pieces, sep);
    }
  }

  lemma ThreeSlices<T>(s: seq<T>, a: nat, b: nat)
    requires a <= b <= |s|
    ensures s == s[..a] + s[a..b] + s[b..]
  {
  }
}
