/** The growable vector (vector.c inside fort.c): a buffer, the part of it in use, and in-place moves. */
module FortVector {
  import opened Sequences

  /** `cur[pos..]` overwritten with `mv`, growing at the end where needed. */
  function Overwrite<T>(cur: seq<T>, pos: nat, mv: seq<T>): seq<T>
    requires pos <= |cur|
  {
    cur[..pos] + mv + if pos + |mv| < |cur| then cur[pos+|mv|..] else []
  }

  /** What Overwrite pushes out. */
  function Displaced<T>(cur: seq<T>, pos: nat, mv: seq<T>): seq<T>
    requires pos <= |cur|
  {
    if pos + |mv| < |cur| then cur[pos..pos+|mv|] else cur[pos..]
  }

  /** Swapping in `mv` neither loses nor duplicates an element. */
  lemma OverwriteConserves<T>(cur: seq<T>, pos: nat, mv: seq<T>)
    requires pos <= |cur|
    ensures multiset(Overwrite(cur, pos, mv)) + multiset(Displaced(cur, pos, mv)) == multiset(cur) + multiset(mv)
  {
    var head, out := cur[..pos], Displaced(cur, pos, mv);
    var tail := if pos + |mv| < |cur| then cur[pos+|mv|..] else [];
    assert cur == head + out + tail;
    assert multiset(cur) == multiset(head) + multiset(out) + multiset(tail);
    assert multiset(Overwrite(cur, pos, mv)) == multiset(head) + multiset(mv) + multiset(tail);
  }

  /** memcpy between two buffers. */
  method MemCpy<T>(dst: array<T>, at: nat, src: array<T>, from: nat, n: nat)
    requires dst != src && at + n <= dst.Length && from + n <= src.Length
    modifies dst
    ensures var was := old(dst[..]); dst[..] == was[..at] + src[from..from+n] + was[at+n..]
  {
    ghost var was := dst[..];
    forall i | 0 <= i < n { dst[at + i] := src[from + i]; }
    Copied(was, dst[..], at, src[from..from+n]);
  }

  lemma Copied<T>(was: seq<T>, now: seq<T>, at: nat, block: seq<T>)
    requires at + |block| <= |was| == |now|
    requires forall i :: 0 <= i < |was| && !(at <= i < at + |block|) ==> now[i] == was[i]
    requires forall i :: 0 <= i < |block| ==> now[at+i] == block[i]
    ensures now == was[..at] + block + was[at+|block|..]
  {
    assert now[at..at+|block|] == block;
  }

  lemma Inserted<T>(was: seq<T>, now: seq<T>, pos: nat, item: T)
    requires pos < |was| && |now| == |was| + 1 && now[pos] == item
    requires forall i :: 0 <= i < pos ==> now[i] == was[i]
    requires forall i :: pos <= i < |was| ==> now[i+1] == was[i]
    ensures now == InsertAt(was, pos, [item])
  {
    assert now[..pos] == was[..pos] && now[pos+1..] == was[pos..];
    ThreeSlices(now, pos, pos + 1);
  }

  /** memmove by one position towards the end. */
  method MoveUp<T>(data: array<T>, pos: nat, size: nat)
    requires pos <= size < data.Length
    modifies data
    ensures forall i :: 0 <= i < pos ==> data[i] == old(data[i])
    ensures forall i :: pos <= i < size ==> data[i+1] == old(data[i])
  {
    forall i | pos <= i < size { data[i+1] := data[i]; }
  }

  /** The buffer after the copy, seen through the size in use. */
  lemma OverwritePrefix<T>(d: seq<T>, size: nat, pos: nat, m: seq<T>)
    requires pos <= size <= |d| && pos + |m| <= |d|
    ensures (d[..pos] + m + d[pos+|m|..])[..Max(size, pos + |m|)] == Overwrite(d[..size], pos, m)
  {
    var t := d[..pos] + m + d[pos+|m|..];
    var end := Max(size, pos + |m|);
    assert t[..end] == d[..pos] + m + d[pos+|m|..end];
    if pos + |m| < size {
      assert d[..size][pos+|m|..] == d[pos+|m|..end];
    }
  }

  lemma DisplacedSlice<T>(d: seq<T>, size: nat, pos: nat, m: seq<T>)
    requires pos <= size <= |d|
    ensures Displaced(d[..size], pos, m) == d[pos..if pos + |m| < size then pos + |m| else size]
  {
  }

  /** The three copies of vector_swap. */
  method SwapBlocks<T(0)>(dst: array<T>, size: nat, pos: nat, mv: array<T>, m: nat) returns (moved: nat)
    requires dst != mv && pos <= size <= dst.Length && m <= mv.Length && pos + m <= dst.Length
    modifies dst, mv
    ensures moved <= mv.Length
    ensures dst[..Max(size, pos + m)] == Overwrite(old(dst[..size]), pos, old(mv[..m]))
    ensures mv[..moved] == Displaced(old(dst[..size]), pos, old(mv[..m]))
  {
    hide Overwrite, Displaced;
    moved := if size > pos then (if size - pos < m then size - pos else m) else 0;
    DisplacedSlice(dst[..], size, pos, mv[..m]);
    var tmp := SaveBlock(dst, pos, moved);
    assert dst[..][..size] == dst[..size];
    OverwriteBlock(dst, size, pos, mv, m);
    TakeBlock(mv, tmp);
  }

  method SaveBlock<T(0)>(src: array<T>, from: nat, n: nat) returns (tmp: array<T>)
    requires from + n <= src.Length
    ensures fresh(tmp) && tmp[..] == src[..][from..from+n]
  {
    tmp := new T[n];
    MemCpy(tmp, 0, src, from, n);
  }

  method OverwriteBlock<T>(dst: array<T>, size: nat, pos: nat, mv: array<T>, m: nat)
    requires dst != mv && pos <= size <= dst.Length && m <= mv.Length && pos + m <= dst.Length
    modifies dst
    ensures dst[..Max(size, pos + m)] == Overwrite(old(dst[..size]), pos, mv[..m])
  {
    hide Overwrite;
    ghost var d := dst[..];
    MemCpy(dst, pos, mv, 0, m);
    assert mv[0..m] == mv[..m] && d[..size] == old(dst[..size]);
    OverwritePrefix(d, size, pos, mv[..m]);
    assert dst[..Max(size, pos + m)] == dst[..][..Max(size, pos + m)];
  }

  method TakeBlock<T>(mv: array<T>, tmp: array<T>)
    requires mv != tmp && tmp.Length <= mv.Length
    modifies mv
    ensures mv[..tmp.Length] == tmp[..]
  {
    MemCpy(mv, 0, tmp, 0, tmp.Length);
    assert mv[..tmp.Length] == mv[..][..tmp.Length];
  }

  /** `data` is the allocated buffer, so its length is m_capacity; `size` is m_size. */
  class Vector<T(0)> {
    var data: array<T>
    var size: nat

    ghost predicate Valid()
      reads this
    {
      size <= data.Length
    }

    ghost function Items(): seq<T>
      reads this, data
      requires Valid()
    {
      data[..size]
    }

    /** create_vector. */
    constructor (capacity: nat)
      ensures Valid() && Items() == [] && data.Length == capacity && fresh(data)
    {
      data := new T[capacity];
      size := 0;
    }

    /** vector_reallocate_: the same elements in a larger buffer. */
    method Reallocate(capacity: nat)
      requires Valid() && capacity > data.Length
      modifies this
      ensures Valid() && Items() == old(Items()) && size == old(size) && data.Length == capacity && fresh(data)
    {
      var bigger := new T[capacity];
      forall i | 0 <= i < size { bigger[i] := data[i]; }
      data := bigger;
    }

    /** vector_push: the capacity doubles when it is used up, so it has to be positive. */
    method Push(item: T)
      requires Valid() && data.Length > 0
      modifies this, data
      ensures Valid() && Items() == old(Items()) + [item]
      ensures data.Length == if old(size) == old(data.Length) then 2 * old(data.Length) else old(data.Length)
      ensures data == old(data) || fresh(data)
    {
      if size == data.Length {
        Reallocate(data.Length * 2);
      }
      data[size] := item;
      size := size + 1;
    }

    /** vector_insert within the elements or right behind them. */
    method Insert(item: T, pos: nat)
      requires Valid() && pos <= size
      modifies this, data
      ensures Valid() && Items() == InsertAt(old(Items()), pos, [item])
      ensures data.Length == Max(old(data.Length), old(size) + 1)
      ensures data == old(data) || fresh(data)
    {
      ghost var before := Items();
      var needed := Max(pos + 1, size + 1);
      if data.Length < needed {
        Reallocate(needed);
      }
      assert Items() == before;
      if pos >= size {
        data[pos] := item;
        size := pos + 1;
      } else {
        MoveUp(data, pos, size);
        data[pos] := item;
        size := size + 1;
        Inserted(before, Items(), pos, item);
      }
    }

    /** vector_split: the elements from `pos` on move to a vector of their own, exactly large enough. */
    method Split(pos: nat) returns (tail: Vector<T>)
      requires Valid()
      modifies this
      ensures Valid() && tail.Valid() && fresh(tail) && fresh(tail.data)
      ensures data == old(data)
      ensures Items() == if pos < old(size) then old(Items())[..pos] else old(Items())
      ensures tail.Items() == if pos < old(size) then old(Items())[pos..] else []
      ensures tail.data.Length == tail.size
    {
      var trailing := if size > pos then size - pos else 0;
      tail := new Vector(trailing);
      if trailing == 0 { return; }
      forall i | 0 <= i < trailing { tail.data[i] := data[pos + i]; }
      tail.size := trailing;
      size := pos;
    }

    /** vector_swap: `mv` is written over this vector from `pos` on, and takes what stood there. */
    method Swap(mv: Vector<T>, pos: nat)
      requires Valid() && mv.Valid() && mv != this && mv.data != data && pos <= size
      modifies this, data, mv, mv.data
      ensures Valid() && mv.Valid()
      ensures Items() == Overwrite(old(Items()), pos, old(mv.Items()))
      ensures mv.Items() == Displaced(old(Items()), pos, old(mv.Items()))
      ensures data.Length == (if old(mv.size) == 0 then old(data.Length) else Max(old(data.Length), pos + old(mv.size)))
      ensures data == old(data) || fresh(data)
      ensures mv.data == old(mv.data)
    {
      ghost var cur, moved := Items(), mv.Items();
      if mv.size == 0 { return; }
      var minTargSize := pos + mv.size;
      if data.Length < minTargSize {
        Reallocate(minTargSize);
      }
      assert Items() == cur && mv.Items() == moved;
      var newMvSize := SwapBlocks(data, size, pos, mv.data, mv.size);
      size := Max(size, minTargSize);
      mv.size := newMvSize;
    }

    method Clear()
      requires Valid()
      modifies this`size
      ensures Valid() && Items() == []
    {
      size := 0;
    }

    /** vector_erase: the elements behind `index` move down by one. */
    method Erase(index: nat) returns (ok: bool)
      requires Valid()
      modifies this`size, data
      ensures Valid() && ok == (index < old(size))
      ensures Items() == if ok then RemoveAt(old(Items()), index) else old(Items())
    {
      if size == 0 || index >= size { return false; }
      ghost var before := Items();
      forall i | index <= i < size - 1 { data[i] := data[i+1]; }
      assert forall i :: index <= i < size - 1 ==> data[i] == before[i+1];
      size := size - 1;
      ok := true;
    }
  }
}
