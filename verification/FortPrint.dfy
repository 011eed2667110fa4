/** The printers: an output cursor in a fixed buffer, and the functions that write through it. */
module FortPrint {
  import opened Sequences
  import opened FortLayout

  const INT_MAX := 0x7FFF_FFFF

  /** The value a size takes when it is returned as an int. */
  function AsInt(n: nat): int {
    var m := n % 0x1_0000_0000;
    if m <= INT_MAX then m else m - 0x1_0000_0000
  }

  /** f_conv_context_t: `pos` is where u.buf points, `avail` is raw_avail. What has been written
      is always followed by a terminator. */
  class Conv {
    const buf: array<char>
    var pos: nat
    var avail: nat

    ghost predicate Valid()
      reads this, buf
    {
      pos + avail == buf.Length && (pos > 0 ==> avail > 0 && buf[pos] == '\0')
    }

    ghost function Text(): string
      reads this, buf
      requires Valid()
    {
      buf[..pos]
    }

    constructor (buf: array<char>)
      ensures Valid() && this.buf == buf && Text() == "" && pos == 0 && avail == buf.Length
    {
      this.buf := buf;
      pos, avail := 0, buf.Length;
    }
  }

  /** `c` has gone from writing `before`, with `room` bytes left, to having written `text` after it. */
  ghost predicate Wrote(c: Conv, before: string, room: nat, text: string)
    reads c, c.buf
  {
    c.Valid() && c.Text() == before + text && c.avail + |text| == room
  }

  /** snprint_n_strings: refuses without touching anything, or writes `n` copies and a terminator. */
  method PrintNStrings(c: Conv, n: nat, str: string) returns (ret: int)
    requires c.Valid()
    modifies c, c.buf
    ensures c.Valid()
    ensures ret >= 0 <==> |Repeat(str, n)| < old(c.avail) && |Repeat(str, n)| <= INT_MAX
    ensures ret >= 0 ==> ret == |Repeat(str, n)| && Wrote(c, old(c.Text()), old(c.avail), Repeat(str, n))
    ensures ret < 0 ==> ret == -1 && c.pos == old(c.pos) && c.buf[..] == old(c.buf[..])
  {
    RepeatLength(str, n);
    TimesIsProduct(|str|, n);
    var total := n * |str|;
    if c.avail <= total { return -1; }
    if n == 0 { return 0; }
    if total > INT_MAX { return -1; }
    if |str| == 0 { return 0; }
    PutCopies(c, n, str, total);
    ret := total;
  }

  /** The part of snprint_n_strings that writes: the bytes are set, the terminator goes behind them, then the copies
      over them. */
  method PutCopies(c: Conv, n: nat, str: string, total: nat)
    requires c.Valid() && total == |Repeat(str, n)| < c.avail
    modifies c, c.buf
    ensures Wrote(c, old(c.Text()), old(c.avail), Repeat(str, n))
  {
    hide Repeat;
    ghost var text := Repeat(str, n);
    forall i | c.pos <= i < c.pos + total { c.buf[i] := '0'; }
    c.buf[c.pos + total] := '\0';
    FillCopies(c.buf, c.pos, n, str);
    Grown(old(c.buf[..]), c.buf[..], c.pos, text);
    c.pos := c.pos + total;
    c.avail := c.avail - total;
  }

  /** Bytes written behind a prefix that stayed. */
  lemma Grown(was: string, now: string, pos: nat, text: string)
    requires |was| == |now| && pos + |text| <= |now| && now[pos..pos+|text|] == text
    requires forall i :: 0 <= i < pos ==> now[i] == was[i]
    ensures now[..pos+|text|] == was[..pos] + text
  {
    assert now[..pos] == was[..pos];
    assert now[..pos+|text|] == now[..pos] + now[pos..pos+|text|];
  }

  /** The copying loop of snprint_n_strings. */
  method FillCopies(buf: array<char>, at: nat, n: nat, str: string)
    requires at + |Repeat(str, n)| <= buf.Length
    modifies buf
    ensures buf[at..at+|Repeat(str, n)|] == Repeat(str, n)
    ensures forall i :: 0 <= i < at || at + |Repeat(str, n)| <= i < buf.Length ==> buf[i] == old(buf[i])
  {
    var p := at;
    for i := 0 to n
      invariant p == at + |Repeat(str, i)|
      invariant |Repeat(str, i)| <= |Repeat(str, n)|
      invariant buf[at..p] == Repeat(str, i)
      invariant forall k :: 0 <= k < at || at + |Repeat(str, n)| <= k < buf.Length ==> buf[k] == old(buf[k])
    {
      RepeatSnoc(str, i);
      RepeatGrows(str, i + 1, n);
      ghost var done := buf[at..p];
      ghost var start := p;
      for k := 0 to |str|
        invariant p == start + k
        invariant buf[at..start] == done
        invariant buf[start..p] == str[..k]
        invariant forall m :: 0 <= m < at || at + |Repeat(str, n)| <= m < buf.Length ==> buf[m] == old(buf[m])
      {
        buf[p] := str[k];
        p := p + 1;
      }
      assert buf[at..p] == buf[at..start] + buf[start..p];
      assert str[..|str|] == str;
    }
  }

  lemma {:induction false} RepeatGrows(part: string, i: nat, n: nat)
    requires i <= n
    ensures |Repeat(part, i)| <= |Repeat(part, n)|
  {
    if i >= n {
    } else {
      RepeatGrows(part, i, n - 1);
      RepeatSnoc(part, n - 1);
    }
  }

  /** ft_nprint. Its guard is two too lax, and the two lengths it lets through wrongly are left out. */
  method NPrint(c: Conv, str: string, beg: nat, end: nat) returns (ret: int)
    requires c.Valid() && beg <= end <= |str| && (end - beg < c.avail || end - beg > c.avail + 1)
    modifies c, c.buf
    ensures if end - beg < old(c.avail) then
              ret == end - beg && Wrote(c, old(c.Text()), old(c.avail), str[beg..end])
            else
              ret == -1 && c.pos == old(c.pos) && c.avail == old(c.avail) && c.buf[..] == old(c.buf[..])
  {
    var len := end - beg;
    if c.avail + 1 < len { return -1; }
    ghost var before := c.buf[..c.pos];
    forall i | 0 <= i < len { c.buf[c.pos + i] := str[beg + i]; }
    assert c.buf[..c.pos] == before;
    assert c.buf[c.pos..c.pos+len] == str[beg..end];
    c.pos := c.pos + len;
    c.avail := c.avail - len;
    assert c.buf[..c.pos] == before + c.buf[c.pos-len..c.pos];
    c.buf[c.pos] := '\0';
    ret := len;
  }

  lemma {:induction false} SpacesAreCopies(n: nat)
    ensures Repeat(" ", n) == Spaces(n)
  {
    if n == 0 {
    } else {
      SpacesAreCopies(n - 1);
    }
  }

  /** print_n_strings of spaces where there is room. */
  method PutSpaces(c: Conv, n: nat) returns (ret: int)
    requires c.Valid() && n < c.avail && n <= INT_MAX
    modifies c, c.buf
    ensures ret == n && Wrote(c, old(c.Text()), old(c.avail), Spaces(n))
  {
    SpacesAreCopies(n);
    ret := PrintNStrings(c, n, " ");
  }

  /** print_n_strings of one copy where there is room. */
  method PutOnce(c: Conv, str: string) returns (ret: int)
    requires c.Valid() && |str| < c.avail && |str| <= INT_MAX
    modifies c, c.buf
    ensures ret == |str| && Wrote(c, old(c.Text()), old(c.avail), str)
  {
    assert Repeat(str, 1) == str + Repeat(str, 0) == str;
    ret := PrintNStrings(c, 1, str);
  }

  /** A tag and the spaces after it. */
  method PutTagAndSpaces(c: Conv, tag: string, n: nat) returns (ret: int)
    requires c.Valid() && |tag| + n < c.avail && |tag| + n <= INT_MAX
    modifies c, c.buf
    ensures ret == |tag| + n && Wrote(c, old(c.Text()), old(c.avail), tag + Spaces(n))
  {
    ghost var before := c.Text();
    var first := PutOnce(c, tag);
    if first < 0 { return -1; }
    var second := PutSpaces(c, n);
    if second < 0 { return -1; }
    assert (before + tag) + Spaces(n) == before + (tag + Spaces(n));
    ret := first + second;
  }

  /** Spaces and the tag after them. */
  method PutSpacesAndTag(c: Conv, n: nat, tag: string) returns (ret: int)
    requires c.Valid() && |tag| + n < c.avail && |tag| + n <= INT_MAX
    modifies c, c.buf
    ensures ret == |tag| + n && Wrote(c, old(c.Text()), old(c.avail), Spaces(n) + tag)
  {
    ghost var before := c.Text();
    var first := PutSpaces(c, n);
    if first < 0 { return -1; }
    var second := PutOnce(c, tag);
    if second < 0 { return -1; }
    assert (before + Spaces(n)) + tag == before + (Spaces(n) + tag);
    ret := first + second;
  }
}
