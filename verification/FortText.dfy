/** The byte-string text of a table cell: its lines, its visible width and height
    (string_buffer.c inside fort.c). */
module FortText {
  import opened Sequences

  const NEWLINE := '\n'

  function Lines(text: string): (r: seq<string>)
    ensures |r| >= 1
  {
    SplitOn(text, NEWLINE)
  }

  function LongestOf(lines: seq<string>): nat {
    if lines == [] then 0 else Max(|lines[0]|, LongestOf(lines[1..]))
  }

  function TextWidth(text: string): nat {
    LongestOf(Lines(text))
  }

  function TextHeight(text: string): nat {
    if text == "" then 0 else |Lines(text)|
  }

  lemma {:induction false} LongestIsMaximum(lines: seq<string>)
    requires |lines| >= 1
    ensures forall i :: 0 <= i < |lines| ==> |lines[i]| <= LongestOf(lines)
    ensures exists i :: 0 <= i < |lines| && |lines[i]| == LongestOf(lines)
  {
    if |lines| <= 1 {
    } else {
      LongestIsMaximum(lines[1..]);
      var k :| 0 <= k < |lines| - 1 && |lines[1..][k]| == LongestOf(lines[1..]);
      assert lines[1..][k] == lines[k+1];
      forall i | 0 <= i < |lines| ensures |lines[i]| <= LongestOf(lines) {
        if i > 0 { assert lines[i] == lines[1..][i-1]; }
      }
      if |lines[0]| >= LongestOf(lines[1..]) { assert |lines[0]| == LongestOf(lines); }
    }
  }

  lemma {:induction false} LongestSnoc(lines: seq<string>, s: string)
    ensures LongestOf(lines + [s]) == Max(LongestOf(lines), |s|)
  {
    if lines == [] {
    } else {
      assert (lines + [s])[1..] == lines[1..] + [s];
      LongestSnoc(lines[1..], s);
    }
  }

  /** strchr: the first occurrence of `ch` at or after `from`. */
  method StrChr(s: string, from: nat, ch: char) returns (r: Option<nat>)
    requires from <= |s|
    ensures r.None? ==> ch !in s[from..]
    ensures r.Some? ==> from <= r.value < |s| && s[r.value] == ch && ch !in s[from..r.value]
  {
    var i := from;
    while i < |s|
      invariant from <= i <= |s|
      invariant ch !in s[from..i]
    {
      if s[i] == ch { return Some(i); }
      i := i + 1;
    }
    r := None;
  }

  /** One strchr step splits off one piece. */
  lemma SplitStep(s: string, from: nat, k: nat, ch: char)
    requires from <= k < |s| && s[k] == ch && ch !in s[from..k]
    ensures SplitOn(s[from..], ch) == [s[from..k]] + SplitOn(s[k+1..], ch)
  {
    var t := s[from..];
    assert t[..k-from] == s[from..k];
    assert t[k-from+1..] == s[k+1..];
    SplitAtFirst(t, ch, k - from);
  }

  /** strchr as a step from one piece to the next. */
  method NextPiece(s: string, at: nat, ch: char) returns (p: Option<nat>)
    requires at <= |s|
    ensures p.Some? <==> |SplitOn(s[at..], ch)| > 1
    ensures p.Some? ==> at <= p.value < |s| && SplitOn(s[p.value+1..], ch) == SplitOn(s[at..], ch)[1..]
    ensures p.Some? ==> s[at..p.value] == SplitOn(s[at..], ch)[0]
    ensures p.None? ==> s[at..] == SplitOn(s[at..], ch)[0]
  {
    p := StrChr(s, at, ch);
    if p.Some? {
      SplitStep(s, at, p.value, ch);
    } else {
      SplitNone(s[at..], ch);
    }
  }

  /** strchr_count: one less than the number of pieces. */
  method StrChrCount(s: string, ch: char) returns (count: nat)
    ensures count + 1 == |SplitOn(s, ch)|
  {
    hide SplitOn;
    count := 0;
    ghost var at: nat := 0;
    assert s[0..] == s;
    var p: Option<nat> := NextPiece(s, 0, ch);
    while p.Some?
      invariant at <= |s|
      invariant count + |SplitOn(s[at..], ch)| == |SplitOn(s, ch)|
      invariant p.Some? <==> |SplitOn(s[at..], ch)| > 1
      invariant p.Some? ==> at <= p.value < |s| && SplitOn(s[p.value+1..], ch) == SplitOn(s[at..], ch)[1..]
      decreases |SplitOn(s[at..], ch)|
    {
      count := count + 1;
      at := p.value + 1;
      p := NextPiece(s, p.value + 1, ch);
    }
  }

  /** Where the n-th piece of `str` begins, if there is one. */
  method StrNSubstringBeg(str: string, sep: char, n: nat) returns (r: Option<nat>)
    ensures r.Some? <==> n < |SplitOn(str, sep)|
    ensures r.Some? ==> r.value <= |str| && SplitOn(str[r.value..], sep) == SplitOn(str, sep)[n..]
  {
    hide SplitOn;
    assert str[0..] == str;
    if n == 0 { return Some(0); }
    var p: Option<nat> := NextPiece(str, 0, sep);
    var k := n - 1;
    while k > 0
      invariant 0 <= k < n
      invariant p.Some? <==> n - k < |SplitOn(str, sep)|
      invariant p.Some? ==> p.value < |str| && SplitOn(str[p.value+1..], sep) == SplitOn(str, sep)[n-k..]
    {
      if p.None? { return None; }
      k := k - 1;
      p := NextPiece(str, p.value + 1, sep);
    }
    r := if p.Some? then Some(p.value + 1) else None;
  }

  /** str_n_substring: the bounds of the n-th piece, or nothing when there are n pieces or fewer. */
  method StrNSubstring(str: string, sep: char, n: nat) returns (r: Option<(nat, nat)>)
    ensures r.Some? <==> n < |SplitOn(str, sep)|
    ensures r.Some? ==> r.value.0 <= r.value.1 <= |str| && str[r.value.0..r.value.1] == SplitOn(str, sep)[n]
  {
    var beg := StrNSubstringBeg(str, sep, n);
    if beg.None? { return None; }
    var en := NextPiece(str, beg.value, sep);
    r := Some((beg.value, if en.None? then |str| else en.value));
  }

  /** buffer_text_visible_width for a byte string. */
  method VisibleWidth(text: string) returns (width: nat)
    ensures width == TextWidth(text)
  {
    width := 0;
    var n := 0;
    while true
      invariant n <= |Lines(text)|
      invariant width == LongestOf(Lines(text)[..n])
      decreases |Lines(text)| - n
    {
      var piece := StrNSubstring(text, NEWLINE, n);
      if piece.None? {
        assert Lines(text)[..n] == Lines(text);
        return;
      }
      assert Lines(text)[..n+1] == Lines(text)[..n] + [Lines(text)[n]];
      LongestSnoc(Lines(text)[..n], Lines(text)[n]);
      width := Max(width, piece.value.1 - piece.value.0);
      n := n + 1;
    }
  }

  /** buffer_text_visible_height for a byte string. */
  method VisibleHeight(text: string) returns (height: nat)
    ensures height == TextHeight(text)
  {
    if |text| == 0 { return 0; }
    var separators := StrChrCount(text, NEWLINE);
    height := 1 + separators;
  }
}
