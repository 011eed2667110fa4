/** The sorted doubly linked list of src/libs/elem.c. */
module ElementList {
  import opened Sequences

  /** strcmp, its sign alone. */
  function StrCmp(a: string, b: string): int {
    if a == "" && b == "" then 0
    else if a == "" then -1
    else if b == "" then 1
    else if a[0] != b[0] then (if a[0] < b[0] then -1 else 1)
    else StrCmp(a[1..], b[1..])
  }

  predicate Less(a: string, b: string) {
    StrCmp(a, b) < 0
  }

  lemma {:induction false} StrCmpZero(a: string, b: string)
    ensures StrCmp(a, b) == 0 <==> a == b
  {
    if a != "" && b != "" && a[0] == b[0] {
      StrCmpZero(a[1..], b[1..]);
      assert a == [a[0]] + a[1..] && b == [b[0]] + b[1..];
    }
  }

  lemma {:induction false} StrCmpFlips(a: string, b: string)
    ensures StrCmp(a, b) == -StrCmp(b, a)
  {
    if a != "" && b != "" && a[0] == b[0] { StrCmpFlips(a[1..], b[1..]); }
  }

  lemma {:induction false} LessTransitive(a: string, b: string, c: string)
    requires Less(a, b) && Less(b, c)
    ensures Less(a, c)
  {
    if a != "" && b != "" && c != "" && a[0] == b[0] == c[0] { LessTransitive(a[1..], b[1..], c[1..]); }
  }

  /** The first place where two keys differ decides. */
  ghost predicate SmallerAt(a: string, b: string, k: nat) {
    && k <= |a| && k <= |b| && a[..k] == b[..k]
    && (if k < |a| && k < |b| then a[k] < b[k] else k == |a| < |b|)
  }

  lemma {:induction false} LessIs(a: string, b: string)
    ensures Less(a, b) <==> exists k: nat :: SmallerAt(a, b, k)
  {
    if a == "" || b == "" || a[0] != b[0] {
      if Less(a, b) { assert SmallerAt(a, b, 0); }
    } else {
      LessIs(a[1..], b[1..]);
      if k: nat :| SmallerAt(a[1..], b[1..], k) {
        assert a[..k+1] == [a[0]] + a[1..][..k] && b[..k+1] == [b[0]] + b[1..][..k];
        assert SmallerAt(a, b, k + 1);
      }
      if k: nat :| SmallerAt(a, b, k) {
        assert a[1..][..k-1] == a[..k][1..] && b[1..][..k-1] == b[..k][1..];
        assert SmallerAt(a[1..], b[1..], k - 1);
      }
    }
  }

  lemma LessOrder(a: string, b: string)
    ensures a == b || Less(a, b) || Less(b, a)
    ensures !(Less(a, b) && Less(b, a)) && !Less(a, a)
  {
    StrCmpZero(a, b);
    StrCmpFlips(a, b);
    StrCmpFlips(a, a);
  }

  lemma LessFlip(a: string, b: string)
    ensures Less(a, b) <==> StrCmp(b, a) > 0
  {
    StrCmpFlips(a, b);
  }

  datatype Entry<D> = Entry(key: string, data: D)

  /** Strictly sorted, so without duplicates. */
  ghost predicate Sorted<D>(entries: seq<Entry<D>>) {
    forall i, j :: 0 <= i < j < |entries| ==> Less(entries[i].key, entries[j].key)
  }

  /** The place of `key`; the length when it is not there. */
  function IndexOf<D>(entries: seq<Entry<D>>, key: string): (i: nat)
    ensures i <= |entries| && (i < |entries| ==> entries[i].key == key)
    ensures forall j :: 0 <= j < i ==> entries[j].key != key
  {
    if entries == [] || entries[0].key == key then 0 else 1 + IndexOf(entries[1..], key)
  }

  /** How many leading keys are smaller than `key`: where it belongs. */
  function Position<D>(entries: seq<Entry<D>>, key: string): (p: nat)
    ensures p <= |entries| && (p < |entries| ==> !Less(entries[p].key, key))
    ensures forall j :: 0 <= j < p ==> Less(entries[j].key, key)
  {
    if entries == [] || !Less(entries[0].key, key) then 0 else 1 + Position(entries[1..], key)
  }

  /** In a sorted list the search for `key` stops at its place. */
  lemma PositionIs<D>(entries: seq<Entry<D>>, key: string, p: nat)
    requires Sorted(entries) && p <= |entries|
    requires forall j :: 0 <= j < p ==> Less(entries[j].key, key)
    requires p < |entries| ==> !Less(entries[p].key, key)
    ensures Position(entries, key) == p
    ensures IndexOf(entries, key) < |entries| <==> p < |entries| && entries[p].key == key
  {
    hide Less;
    forall j | 0 <= j < |entries| && j != p ensures entries[j].key != key {
      LessOrder(entries[j].key, key);
      if j > p {
        LessOrder(entries[p].key, key);
      }
    }
  }

  function Insert<D>(entries: seq<Entry<D>>, e: Entry<D>): seq<Entry<D>> {
    InsertAt(entries, Position(entries, e.key), [e])
  }

  function AsMap<D>(entries: seq<Entry<D>>): map<string, D> {
    if entries == [] then map[] else AsMap(entries[1..])[entries[0].key := entries[0].data]
  }

  lemma SortedDistinct<D>(entries: seq<Entry<D>>, i: nat, j: nat)
    requires Sorted(entries) && i < |entries| && j < |entries| && entries[i].key == entries[j].key
    ensures i == j
  {
    hide Less;
    LessOrder(entries[i].key, entries[j].key);
  }

  /** The map of a list has the keys of the list. */
  lemma {:induction false} AsMapKeys<D>(entries: seq<Entry<D>>, key: string)
    ensures key in AsMap(entries) <==> IndexOf(entries, key) < |entries|
    ensures key in AsMap(entries) ==> AsMap(entries)[key] == entries[IndexOf(entries, key)].data
  {
    if entries == [] {
    } else {
      AsMapKeys(entries[1..], key);
    }
  }

  lemma SortedTail<D>(entries: seq<Entry<D>>)
    requires Sorted(entries) && entries != []
    ensures Sorted(entries[1..]) && IndexOf(entries[1..], entries[0].key) == |entries| - 1
  {
    hide Less;
    var i := IndexOf(entries[1..], entries[0].key);
    if i < |entries| - 1 { SortedDistinct(entries, 0, i + 1); }
  }

  lemma InsertFirst<D>(entries: seq<Entry<D>>, e: Entry<D>)
    ensures if entries == [] || !Less(entries[0].key, e.key) then Insert(entries, e) == [e] + entries
            else Insert(entries, e) == [entries[0]] + Insert(entries[1..], e)
  {
    hide Less;
    if entries != [] && Less(entries[0].key, e.key) {
      hide InsertAt;
      InsertBehindFirst(entries, Position(entries[1..], e.key), [e]);
    }
  }

  lemma InsertBehindFirst<T>(s: seq<T>, pos: nat, mv: seq<T>)
    requires s != [] && pos < |s|
    ensures InsertAt(s, pos + 1, mv) == [s[0]] + InsertAt(s[1..], pos, mv)
  {
  }

  lemma NotFirst<D>(entries: seq<Entry<D>>, key: string)
    requires entries != [] && IndexOf(entries, key) == |entries|
    ensures entries[0].key != key && IndexOf(entries[1..], key) == |entries[1..]|
  {
  }

  lemma UpdatesCommute<K, V>(m: map<K, V>, k: K, v: V, l: K, w: V)
    requires k != l
    ensures m[k := v][l := w] == m[l := w][k := v]
  {
  }

  /** Inserting a new key adds it to the map. */
  lemma {:induction false} InsertIsUpdate<D>(entries: seq<Entry<D>>, e: Entry<D>)
    requires IndexOf(entries, e.key) == |entries|
    ensures AsMap(Insert(entries, e)) == AsMap(entries)[e.key := e.data]
  {
    hide *;
    InsertFirst(entries, e);
    if entries == [] || !Less(entries[0].key, e.key) {
      AsMapCons(e, entries);
    } else {
      var first, rest := entries[0], entries[1..];
      NotFirst(entries, e.key);
      InsertIsUpdate(rest, e);
      AsMapCons(first, Insert(rest, e));
      AsMapCons(first, rest);
      assert entries == [first] + rest;
      UpdatesCommute(AsMap(rest), e.key, e.data, first.key, first.data);
    }
  }

  lemma {:induction false} InsertSorted<D>(entries: seq<Entry<D>>, e: Entry<D>)
    requires Sorted(entries) && IndexOf(entries, e.key) == |entries|
    ensures Sorted(Insert(entries, e))
  {
    hide Less, Position;
    var p, t := Position(entries, e.key), Insert(entries, e);
    forall i | p <= i < |entries| ensures Less(e.key, entries[i].key) {
      LessOrder(entries[p].key, e.key);
      if i > p { LessTransitive(e.key, entries[p].key, entries[i].key); }
    }
    forall i, j | 0 <= i < j < |t| ensures Less(t[i].key, t[j].key) {
      assert i != p ==> t[i] == entries[if i < p then i else i - 1];
      assert j != p ==> t[j] == entries[if j < p then j else j - 1];
    }
  }

  lemma RemoveSorted<D>(entries: seq<Entry<D>>, i: nat)
    requires Sorted(entries) && i < |entries|
    ensures Sorted(RemoveAt(entries, i))
  {
    hide Less;
    var t := RemoveAt(entries, i);
    forall j, k | 0 <= j < k < |t| ensures Less(t[j].key, t[k].key) {
      assert t[j] == entries[if j < i then j else j + 1] && t[k] == entries[if k < i then k else k + 1];
    }
  }

  lemma AsMapCons<D>(e: Entry<D>, rest: seq<Entry<D>>)
    ensures AsMap([e] + rest) == AsMap(rest)[e.key := e.data]
  {
    assert ([e] + rest)[1..] == rest;
  }

  lemma ConsOf<T>(s: seq<T>, i: nat)
    requires 0 < i < |s|
    ensures s == [s[0]] + s[1..] && s[i] == s[1..][i-1] && RemoveAt(s, i) == [s[0]] + RemoveAt(s[1..], i - 1)
  {
  }

  /** Removing an entry takes its key from the map. */
  lemma {:induction false} RemoveIsDelete<D>(entries: seq<Entry<D>>, i: nat)
    requires Sorted(entries) && i < |entries|
    ensures AsMap(RemoveAt(entries, i)) == AsMap(entries) - {entries[i].key}
  {
    hide AsMap, Less, Sorted, RemoveAt;
    var rest := entries[1..];
    SortedTail(entries);
    if i == 0 {
      AsMapKeys(rest, entries[0].key);
      assert entries == [entries[0]] + rest;
      AsMapCons(entries[0], rest);
      RemoveFirst(entries);
    } else {
      ConsOf(entries, i);
      RemoveIsDelete(rest, i - 1);
      AsMapCons(entries[0], rest);
      AsMapCons(entries[0], RemoveAt(rest, i - 1));
      DeleteElsewhere(AsMap(rest), entries[0].key, entries[0].data, entries[i].key);
    }
  }

  lemma RemoveFirst<T>(s: seq<T>)
    requires s != []
    ensures RemoveAt(s, 0) == s[1..]
  {
  }

  lemma DeleteElsewhere<D>(m: map<string, D>, key: string, data: D, gone: string)
    requires key != gone
    ensures m[key := data] - {gone} == (m - {gone})[key := data]
  {
  }

  // ---------------------------------------------------------------- the heap

  class Element<D> {
    var forward: Element?<D>
    var backward: Element?<D>
    var key: Option<string>
    var data: Option<D>

    /** new_element. */
    constructor (key: Option<string>, data: Option<D>)
      ensures forward == null && backward == null && this.key == key && this.data == data
    {
      forward, backward, this.key, this.data := null, null, key, data;
    }
  }

  function Nth<D>(elems: seq<Element<D>>, i: int): Element?<D> {
    if 0 <= i < |elems| then elems[i] else null
  }

  function Only<D>(e: Element?<D>): set<Element<D>> {
    if e == null then {} else {e}
  }

  /** insque: `item` goes right behind `prev`. */
  method InsQue<D>(item: Element<D>, prev: Element<D>)
    requires item != prev && item != prev.forward
    modifies item`forward, item`backward, prev`forward, Only(prev.forward)`backward
    ensures item.forward == old(prev.forward) && item.backward == prev && prev.forward == item
    ensures old(prev.forward) != null ==> old(prev.forward).backward == item
  {
    var next := prev.forward;
    prev.forward := item;
    if next != null { next.backward := item; }
    item.forward := next;
    item.backward := prev;
  }

  /** remque: the neighbours of `item` are linked to each other. */
  method RemQue<D>(item: Element<D>)
    requires item.forward != item && item.backward != item
    modifies Only(item.forward)`backward, Only(item.backward)`forward
    ensures item.forward != null ==> item.forward.backward == item.backward
    ensures item.backward != null ==> item.backward.forward == item.forward
  {
    var next, prev := item.forward, item.backward;
    if next != null { next.backward := prev; }
    if prev != null { prev.forward := next; }
  }

  ghost predicate Distinct<D>(elems: seq<Element<D>>) {
    forall i, j :: 0 <= i < j < |elems| ==> elems[i] != elems[j]
  }

  /** Element `i` is linked to its neighbours in `elems`. */
  ghost predicate LinkedAt<D>(elems: seq<Element<D>>, i: nat)
    requires i < |elems|
    reads elems[i]
  {
    elems[i].forward == Nth(elems, i + 1) && elems[i].backward == Nth(elems, i - 1)
  }

  /** Element `i` holds its entry; the first one, the root, holds nothing. */
  ghost predicate HoldsAt<D>(elems: seq<Element<D>>, entries: seq<Entry<D>>, i: nat)
    requires |elems| == |entries| + 1 && i < |elems|
    reads elems[i]
  {
    if i == 0 then elems[i].key == None && elems[i].data == None
    else elems[i].key == Some(entries[i-1].key) && elems[i].data == Some(entries[i-1].data)
  }

  /** The elements of a list and what they hold: the root first, then one for each entry. */
  ghost predicate Linked<D>(elems: seq<Element<D>>, entries: seq<Entry<D>>)
    reads elems
  {
    && |elems| == |entries| + 1
    && Distinct(elems)
    && (forall i :: 0 <= i < |elems| ==> LinkedAt(elems, i))
    && (forall i :: 0 <= i < |elems| ==> HoldsAt(elems, entries, i))
  }

  // ---------------------------------------------------------------- traversal with a callback

  /** What a callback does to the element it visits. */
  datatype Verdict<D> = Keep(data: D) | Remove

  /** The callbacks that read or change records return at once for the root; only the printers make a header of it. */
  function RootIgnored<A>(acc: A): A {
    acc
  }

  /** One visit to each entry, in order: what is left, and the callback's own state. */
  function Swept<D, A>(entries: seq<Entry<D>>, cb: (string, D, A) -> (Verdict<D>, A), acc: A): (seq<Entry<D>>, A) {
    if entries == [] then ([], acc)
    else
      var (v, acc1) := cb(entries[0].key, entries[0].data, acc);
      var (rest, acc2) := Swept(entries[1..], cb, acc1);
      ((if v.Keep? then [Entry(entries[0].key, v.data)] else []) + rest, acc2)
  }

  class NodeList<D> {
    var root: Element<D>
    ghost var elems: seq<Element<D>>
    ghost var entries: seq<Entry<D>>
    ghost var Repr: set<Element<D>>

    /** Forward and backward links are inverse, the keys strictly sorted behind the root. */
    ghost predicate Valid()
      reads this, elems
    {
      Linked(elems, entries) && root == elems[0] && Sorted(entries) && forall e :: e in elems ==> e in Repr
    }

    constructor ()
      ensures Valid() && entries == [] && fresh(Repr)
    {
      root := new Element(None, None);
      elems, entries, Repr := [root], [], {root};
    }

    lemma Links(i: nat)
      requires Valid() && (i == 0 || i < |elems|)
      ensures |elems| == |entries| + 1 && elems[0] == root
      ensures elems[i].forward == Nth(elems, i + 1)
    {
      hide Less, StrCmp;
      assert LinkedAt(elems, i);
    }

    /** get_element. */
    method GetElement(key: string) returns (e: Element?<D>)
      requires Valid()
      ensures IndexOf(entries, key) <= |entries|
      ensures e == Nth(elems, IndexOf(entries, key) + 1)
    {
      hide StrCmp, Less;
      var traverse: Element?<D> := root;
      ghost var k: nat := 0;
      while traverse != null
        invariant k <= |elems| && traverse == Nth(elems, k)
        invariant forall j :: 0 <= j < |entries| && j + 1 < k ==> entries[j].key != key
        decreases |elems| - k
      {
        assert LinkedAt(elems, k) && HoldsAt(elems, entries, k);
        if traverse.key.Some? {
          StrCmpZero(traverse.key.value, key);
          if StrCmp(traverse.key.value, key) == 0 {
            return traverse;
          }
        }
        traverse := traverse.forward;
        k := k + 1;
      }
      return null;
    }

    /** The loop of add_element: the last element whose key is smaller, or the root; none if the key is there. */
    method FindTarget(key: string) returns (target: Element?<D>)
      requires Valid()
      ensures target == null <==> IndexOf(entries, key) < |entries|
      ensures target != null ==> target == elems[Position(entries, key)]
    {
      hide StrCmp, Less, Position, IndexOf, Sorted;
      target := root;
      var traverse: Element?<D> := root;
      ghost var k: nat := 0;
      while traverse != null
        invariant k <= |elems| && traverse == Nth(elems, k)
        invariant target == elems[if k == 0 then 0 else k - 1]
        invariant forall j :: 0 <= j < |entries| && j + 1 < k ==> Less(entries[j].key, key)
        decreases |elems| - k
      {
        assert LinkedAt(elems, k) && HoldsAt(elems, entries, k);
        if traverse.key.None? || StrCmp(key, traverse.key.value) > 0 {
          if traverse.key.Some? { LessFlip(traverse.key.value, key); }
          target := traverse;
        } else {
          LessFlip(traverse.key.value, key);
          assert !Less(entries[k-1].key, key);
          PositionIs(entries, key, k - 1);
          StrCmpZero(key, traverse.key.value);
          if StrCmp(key, traverse.key.value) == 0 {
            return null;
          } else {
            break;
          }
        }
        traverse := traverse.forward;
        k := k + 1;
      }
      if traverse == null { PositionIs(entries, key, |entries|); }
    }

    /** insque behind the element of place `p`. */
    method InsertBehind(item: Element<D>, target: Element<D>, ghost p: nat, ghost e: Entry<D>)
      requires Valid() && item !in elems && item.key == Some(e.key) && item.data == Some(e.data)
      requires p == Position(entries, e.key) && target == elems[p] && IndexOf(entries, e.key) == |entries|
      modifies this`elems, this`entries, this`Repr, Repr, item
      ensures Valid() && root == old(root) && Repr == old(Repr) + {item}
      ensures entries == Insert(old(entries), e) && elems == InsertAt<Element<D>>(old(elems), p + 1, [item])
    {
      hide StrCmp, Less, Position, IndexOf, Sorted, InsertAt, Insert;
      assert LinkedAt(elems, p);
      InsQue(item, target);
      InsertSorted(entries, e);
      InsertShape(elems, entries, p, item, e);
      ghost var was, held := elems, entries;
      elems := InsertAt<Element<D>>(elems, p + 1, [item]);
      entries := Insert(entries, e);
      Repr := Repr + {item};
      forall i | 0 <= i < |elems| ensures LinkedAt(elems, i) && HoldsAt(elems, entries, i) {
        if i <= p {
          assert old(LinkedAt(was, i)) && old(HoldsAt(was, held, i));
        } else if i > p + 1 {
          assert old(LinkedAt(was, i - 1)) && old(HoldsAt(was, held, i - 1));
        }
      }
    }

    /** add_element: -1 if the key is there already, otherwise the element takes its place in the order. */
    method AddElement(item: Element<D>) returns (r: int)
      requires Valid() && item !in elems && item.key.Some? && item.data.Some?
      modifies this`elems, this`entries, this`Repr, Repr, item
      ensures Valid() && root == old(root) && Repr <= old(Repr) + {item}
      ensures r == if IndexOf(old(entries), old(item.key.value)) < |old(entries)| then -1 else 0
      ensures r == -1 ==> elems == old(elems) && entries == old(entries)
      ensures r == 0 ==> entries == Insert(old(entries), Entry(old(item.key.value), old(item.data.value)))
    {
      hide *;
      var target := FindTarget(item.key.value);
      if target == null { return -1; }
      InsertBehind(item, target, Position(entries, item.key.value), Entry(item.key.value, item.data.value));
      r := 0;
    }

    /** rem_element for the element of entry `i`; nothing for no element. */
    method RemElement(item: Element?<D>, ghost i: nat)
      requires Valid() && item == Nth(elems, i + 1)
      modifies this`elems, this`entries, Repr
      ensures Valid() && root == old(root)
      ensures entries == if item == null then old(entries) else RemoveAt(old(entries), i)
      ensures elems == if item == null then old(elems) else RemoveAt<Element<D>>(old(elems), i + 1)
    {
      hide StrCmp, Less, Position, IndexOf, Sorted;
      if item == null { return; }
      assert LinkedAt(elems, i + 1);
      RemQue(item);
      RemoveSorted(entries, i);
      RemoveShape(elems, entries, i);
      ghost var was, held := elems, entries;
      elems := RemoveAt<Element<D>>(elems, i + 1);
      entries := RemoveAt(entries, i);
      forall j | 0 <= j < |elems| ensures LinkedAt(elems, j) && HoldsAt(elems, entries, j) {
        if j <= i {
          assert old(LinkedAt(was, j)) && old(HoldsAt(was, held, j));
        } else {
          assert old(LinkedAt(was, j + 1)) && old(HoldsAt(was, held, j + 1));
        }
      }
    }

    /** What a callback writes into the data of the element it visits. */
    method SetData(item: Element<D>, data: D, ghost i: nat)
      requires Valid() && i < |entries| && item == elems[i+1]
      modifies this`entries, item`data
      ensures Valid() && entries == old(entries)[i := Entry(old(entries)[i].key, data)]
    {
      hide StrCmp, Less;
      item.data := Some(data);
      ghost var held := entries;
      entries := entries[i := Entry(entries[i].key, data)];
      forall j | 0 <= j < |elems| ensures LinkedAt(elems, j) && HoldsAt(elems, entries, j) {
        assert old(LinkedAt(elems, j)) && old(HoldsAt(elems, entries, j));
      }
    }

    /** The callback on the element of entry `i`. */
    method Visit<A>(cb: (string, D, A) -> (Verdict<D>, A), item: Element<D>, ghost i: nat, acc: A) returns (after: A)
      requires Valid() && i < |entries| && item == elems[i+1]
      modifies this`elems, this`entries, Repr
      ensures Valid() && root == old(root)
      ensures var (v, acc1) := cb(old(entries)[i].key, old(entries)[i].data, acc);
        && after == acc1
        && elems == (if v.Keep? then old(elems) else RemoveAt<Element<D>>(old(elems), i + 1))
        && entries == if v.Keep? then old(entries)[i := Entry(old(entries)[i].key, v.data)]
           else RemoveAt(old(entries), i)
    {
      hide Sorted;
      assert HoldsAt(elems, entries, i + 1);
      var (v, acc1) := cb(item.key.value, item.data.value, acc);
      match v {
        case Remove => RemElement(item, i);
        case Keep(data) => SetData(item, data, i);
      }
      after := acc1;
    }

    /** list_element: the next element is read before the callback, which may remove the one it visits. The root comes
        first; it holds no data, and `atRoot` is what the callback makes of it. */
    method ListElement<A>(atRoot: A -> A, cb: (string, D, A) -> (Verdict<D>, A), start: A) returns (acc: A)
      requires Valid()
      modifies this`elems, this`entries, Repr
      ensures Valid() && root == old(root)
      ensures (entries, acc) == Swept(old(entries), cb, atRoot(start))
    {
      hide Sorted, Swept, RemoveAt, Linked, LinkedAt, Distinct, HoldsAt, Together, Valid, Less, StrCmp;
      Links(0);
      var now: Element?<D> := root.forward;
      acc := atRoot(start);
      ghost var doneE: seq<Element<D>>, done: seq<Entry<D>>, m: nat := [root], [], 0;
      SweptWhole(entries, cb, atRoot(start));
      while now != null
        invariant Valid() && root == old(root) && m <= |old(entries)| && now == Nth(old(elems), m + 1)
        invariant |doneE| == |done| + 1 && elems == doneE + old(elems)[m+1..]
        invariant entries == done + old(entries)[m..]
        invariant Swept(old(entries), cb, atRoot(start)) == Together(done, Swept(old(entries)[m..], cb, acc))
        decreases |old(entries)| - m
      {
        Advance(doneE, old(elems), m + 1);
        ghost var here: Element<D>, was := old(elems)[m+1], old(entries)[m];
        assert now == elems[|doneE|] == here;
        Links(|doneE|);
        var next := now.forward;
        SweptStep(old(entries), cb, acc, done, m);
        Advance(done, old(entries), m);
        var after := Visit(cb, now, |done|, acc);
        ghost var v := cb(was.key, was.data, acc).0;
        if v.Keep? {
          AdvanceWith(done, old(entries), m, Entry(was.key, v.data));
          doneE := doneE + [here];
          done := done + [Entry(was.key, v.data)];
        }
        acc := after;
        now := next;
        m := m + 1;
      }
      SweptEnd(old(entries), cb, acc, done);
      assert entries == done;
    }
  }

  function Keys<D>(entries: seq<Entry<D>>): seq<string> {
    if entries == [] then [] else [entries[0].key] + Keys(entries[1..])
  }

  /** A callback that writes down whom it visits and removes whom `remove` tells it to. */
  function Recorder<D>(remove: (string, D) -> bool): (string, D, seq<string>) -> (Verdict<D>, seq<string>) {
    (key: string, data: D, seen: seq<string>) => (if remove(key, data) then Remove else Keep(data), seen + [key])
  }

  /** Every original element is visited exactly once, in order, whichever of them the callback removes. */
  lemma {:induction false} VisitsEachOnce<D>(entries: seq<Entry<D>>, remove: (string, D) -> bool, seen: seq<string>)
    ensures Swept(entries, Recorder(remove), seen).1 == seen + Keys(entries)
  {
    if entries == [] {
      assert seen + [] == seen;
    } else {
      VisitsEachOnce(entries[1..], remove, seen + [entries[0].key]);
      assert (seen + [entries[0].key]) + Keys(entries[1..]) == seen + ([entries[0].key] + Keys(entries[1..]));
    }
  }

  lemma Advance<T>(done: seq<T>, all: seq<T>, m: nat)
    requires m < |all|
    ensures (done + all[m..])[|done|] == all[m]
    ensures RemoveAt(done + all[m..], |done|) == done + all[m+1..]
    ensures done + all[m..] == (done + [all[m]]) + all[m+1..]
  {
  }

  lemma AdvanceWith<T>(done: seq<T>, all: seq<T>, m: nat, x: T)
    requires m < |all|
    ensures (done + all[m..])[|done| := x] == (done + [x]) + all[m+1..]
  {
  }

  function Together<D, A>(done: seq<Entry<D>>, rest: (seq<Entry<D>>, A)): (seq<Entry<D>>, A) {
    (done + rest.0, rest.1)
  }

  lemma SweptWhole<D, A>(entries: seq<Entry<D>>, cb: (string, D, A) -> (Verdict<D>, A), acc: A)
    ensures entries[0..] == entries && Swept(entries, cb, acc) == Together([], Swept(entries[0..], cb, acc))
  {
    assert entries[0..] == entries;
    assert [] + Swept(entries, cb, acc).0 == Swept(entries, cb, acc).0;
  }

  lemma SweptStep<D, A>(entries: seq<Entry<D>>, cb: (string, D, A) -> (Verdict<D>, A), acc: A,
                        done: seq<Entry<D>>, m: nat)
    requires m < |entries|
    ensures var (v, acc1) := cb(entries[m].key, entries[m].data, acc);
      Together(done, Swept(entries[m..], cb, acc))
      == Together(if v.Keep? then done + [Entry(entries[m].key, v.data)] else done, Swept(entries[m+1..], cb, acc1))
  {
    assert entries[m..][1..] == entries[m+1..];
    var v := cb(entries[m].key, entries[m].data, acc).0;
    var rest := Swept(entries[m+1..], cb, cb(entries[m].key, entries[m].data, acc).1).0;
    if v.Keep? {
      assert done + ([Entry(entries[m].key, v.data)] + rest) == (done + [Entry(entries[m].key, v.data)]) + rest;
    } else {
      assert done + ([] + rest) == done + rest;
    }
  }

  lemma SweptEnd<D, A>(entries: seq<Entry<D>>, cb: (string, D, A) -> (Verdict<D>, A), acc: A, done: seq<Entry<D>>)
    ensures Together(done, Swept(entries[|entries|..], cb, acc)) == (done, acc)
  {
    assert done + [] == done;
  }

  lemma InsertShape<D>(elems: seq<Element<D>>, entries: seq<Entry<D>>, p: nat, item: Element<D>, e: Entry<D>)
    requires |elems| == |entries| + 1 && p == Position(entries, e.key)
    ensures var t := InsertAt<Element<D>>(elems, p + 1, [item]);
      |t| == |elems| + 1 && t[p+1] == item
      && (forall i :: 0 <= i <= p ==> t[i] == elems[i]) && (forall i :: p + 1 < i < |t| ==> t[i] == elems[i-1])
    ensures var t := Insert(entries, e);
      |t| == |entries| + 1 && t[p] == e
      && (forall i :: 0 <= i < p ==> t[i] == entries[i]) && (forall i :: p < i < |t| ==> t[i] == entries[i-1])
  {
  }

  lemma RemoveShape<D>(elems: seq<Element<D>>, entries: seq<Entry<D>>, p: nat)
    requires |elems| == |entries| + 1 && p < |entries|
    ensures var t := RemoveAt<Element<D>>(elems, p + 1);
      |t| == |elems| - 1
      && (forall i :: 0 <= i <= p ==> t[i] == elems[i]) && (forall i :: p < i < |t| ==> t[i] == elems[i+1])
    ensures var t := RemoveAt(entries, p);
      |t| == |entries| - 1
      && (forall i :: 0 <= i < p ==> t[i] == entries[i]) && (forall i :: p <= i < |t| ==> t[i] == entries[i+1])
  {
  }
}
