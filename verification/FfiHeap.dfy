/**
 * Memory that crosses the C interface: exact-length slices of bytes and of structures, and single
 * boxed structures. Releasing a structure walks everything it owns; that walk is the
 * specification of every free function, and it is undone exactly by the matching allocation.
 */
module FfiHeap {
  import opened Common

  type Addr = nat

  const NULL: Addr := 0

  /** The C structures that own memory. */
  datatype Kind = Item | Parameter | Entry | EntryList | Node | Help | HelpList | Strings | Detail | HostResult
                | Invocation | Apply | Uninstall

  /** One field of a structure: a number, an owned byte buffer, an owned array or an owned box. */
  datatype Slot = Num(value: int) | Buf(ptr: Addr, len: nat) | Arr(kind: Kind, ptr: Addr, len: nat)
                | Own(kind: Kind, ptr: Addr)

  type Row = seq<Slot>

  datatype Block = Bytes(data: seq<Byte>) | Rows(kind: Kind, rows: seq<Row>) | Boxed(kind: Kind, row: Row)

  type Live = map<Addr, Block>

  // ----- layouts -----

  /** The shape of a field without its contents. */
  function Bare(s: Slot): Slot {
    match s
    case Num(_) => Num(0)
    case Buf(_, _) => Buf(NULL, 0)
    case Arr(k, _, _) => Arr(k, NULL, 0)
    case Own(k, _) => Own(k, NULL)
  }

  const TEXT := Buf(NULL, 0)
  const NUMBER := Num(0)

  function ArrayOf(k: Kind): Slot { Arr(k, NULL, 0) }

  /** The owning fields and numbers of each structure, in the order in which it is freed. */
  function Layout(k: Kind): Row {
    match k
    case Item => [TEXT]
    case Parameter => [TEXT, TEXT, TEXT, NUMBER]
    case Entry => [TEXT, TEXT, TEXT, TEXT, TEXT, TEXT, TEXT, ArrayOf(Parameter)]
    case EntryList => [ArrayOf(Entry)]
    case Node => [TEXT, TEXT, ArrayOf(Item), NUMBER]
    case Help => [TEXT, TEXT, TEXT, TEXT, TEXT, TEXT, TEXT, ArrayOf(Item), NUMBER, ArrayOf(Node)]
    case HelpList => [ArrayOf(Help)]
    case Strings => [ArrayOf(Item)]
    case Detail => [TEXT, TEXT, TEXT, TEXT, TEXT, TEXT, TEXT, ArrayOf(Item), NUMBER, TEXT, TEXT]
    case HostResult => [TEXT, TEXT, NUMBER]
    case Invocation => [TEXT, NUMBER, TEXT, NUMBER, NUMBER, Own(HostResult, NULL)]
    case Apply => [TEXT, TEXT, TEXT, TEXT, NUMBER, TEXT]
    case Uninstall => [TEXT, NUMBER, TEXT]
  }

  predicate Shaped(k: Kind, row: Row) {
    |row| == |Layout(k)| && forall i :: 0 <= i < |row| ==> Bare(row[i]) == Layout(k)[i]
  }

  // ----- releasing -----

  /** A field that owns nothing: a number, a null pointer or a zero length. */
  predicate Empty(s: Slot) {
    match s
    case Num(_) => true
    case Buf(p, n) => p == NULL || n == 0
    case Arr(_, p, n) => p == NULL || n == 0
    case Own(_, p) => p == NULL
  }

  /** The allocation at the field's address is the one its type and length describe. */
  predicate Fits(s: Slot, b: Block) {
    match s
    case Num(_) => false
    case Buf(_, n) => b.Bytes? && |b.data| == n
    case Arr(k, _, n) => b.Rows? && b.kind == k && |b.rows| == n && forall i :: 0 <= i < n ==> Shaped(k, b.rows[i])
    case Own(k, _) => b.Boxed? && b.kind == k && Shaped(k, b.row)
  }

  function Flat(rows: seq<Row>): Row {
    if rows == [] then [] else rows[0] + Flat(rows[1..])
  }

  /** The fields found inside an allocation. */
  function Kids(b: Block): Row {
    match b
    case Bytes(_) => []
    case Rows(_, rows) => Flat(rows)
    case Boxed(_, row) => row
  }

  /** What a reader sees while walking a structure. */
  datatype Event = Number(value: int) | Text(data: seq<Byte>) | Count(n: nat) | Maybe(there: bool)

  function Seen(s: Slot, live: Live): Event {
    match s
    case Num(v) => Number(v)
    case Buf(p, n) => Text(if !Empty(s) && p in live && live[p].Bytes? then live[p].data else [])
    case Arr(_, p, n) => Count(if Empty(s) then 0 else n)
    case Own(_, p) => Maybe(!Empty(s))
  }

  /** What remains after a release, and what was seen on the way. */
  datatype Walk = Walk(rest: Live, seen: seq<Event>)

  function Saw(e: Event, w: Option<Walk>): Option<Walk> {
    if w.None? then None else Some(Walk(w.value.rest, [e] + w.value.seen))
  }

  /**
   * Release every field of `slots` and everything below: each allocation must still be there and
   * fit, so that releasing twice or with a wrong length has no result.
   */
  ghost function Take(live: Live, slots: Row): (r: Option<Walk>)
    decreases live.Keys, |slots|
  {
    if slots == [] then Some(Walk(live, []))
    else
      var s := slots[0];
      if Empty(s) then Saw(Seen(s, live), Take(live, slots[1..]))
      else if s.ptr in live && Fits(s, live[s.ptr]) then
        Saw(Seen(s, live), Take(live - {s.ptr}, Kids(live[s.ptr]) + slots[1..]))
      else None
  }

  ghost function Then(w: Option<Walk>, slots: Row): (r: Option<Walk>) {
    if w.None? then None
    else
      var next := Take(w.value.rest, slots);
      if next.None? then None else Some(Walk(next.value.rest, w.value.seen + next.value.seen))
  }

  lemma SawThen(e: Event, w: Option<Walk>, slots: Row)
    ensures Then(Saw(e, w), slots) == Saw(e, Then(w, slots))
  {
    if w.Some? {
      var next := Take(w.value.rest, slots);
      if next.Some? {
        assert ([e] + w.value.seen) + next.value.seen == [e] + (w.value.seen + next.value.seen);
      }
    }
  }

  /** Releasing a list of fields is releasing its parts in turn. */
  lemma {:induction false} TakeConcat(live: Live, a: Row, b: Row)
    ensures Take(live, a + b) == Then(Take(live, a), b)
    decreases live.Keys, |a|
  {
    if a == [] {
      assert a + b == b;
      assert forall x: seq<Event> :: [] + x == x;
    } else {
      var s := a[0];
      assert (a + b)[1..] == a[1..] + b;
      if Empty(s) {
        TakeConcat(live, a[1..], b);
        SawThen(Seen(s, live), Take(live, a[1..]), b);
      } else if s.ptr in live && Fits(s, live[s.ptr]) {
        var kids := Kids(live[s.ptr]);
        assert kids + (a[1..] + b) == (kids + a[1..]) + b;
        TakeConcat(live - {s.ptr}, kids + a[1..], b);
        SawThen(Seen(s, live), Take(live - {s.ptr}, kids + a[1..]), b);
      }
    }
  }

  lemma TakeOne(live: Live, s: Slot)
    ensures Take(live, [s]) ==
      if Empty(s) then Some(Walk(live, [Seen(s, live)]))
      else if s.ptr in live && Fits(s, live[s.ptr]) then Saw(Seen(s, live), Take(live - {s.ptr}, Kids(live[s.ptr])))
      else None
  {
    var one := [s];
    assert one[0] == s && one[1..] == [];
    if Empty(s) {
      assert Take(live, one) == Saw(Seen(s, live), Take(live, []));
      assert [Seen(s, live)] + [] == [Seen(s, live)];
    } else if s.ptr in live {
      assert Kids(live[s.ptr]) + one[1..] == Kids(live[s.ptr]);
    }
  }

  /** Memory elsewhere does not matter, and it stays. */
  lemma {:induction false} TakeFrame(live: Live, more: Live, slots: Row)
    requires live.Keys !! more.Keys && Take(live, slots).Some?
    ensures var w := Take(live, slots).value; Take(live + more, slots) == Some(Walk(w.rest + more, w.seen))
    decreases live.Keys, |slots|
  {
    if slots != [] {
      var s := slots[0];
      if Empty(s) {
        TakeFrame(live, more, slots[1..]);
      } else {
        assert (live + more) - {s.ptr} == (live - {s.ptr}) + more;
        TakeFrame(live - {s.ptr}, more, Kids(live[s.ptr]) + slots[1..]);
      }
    }
  }

  lemma {:induction false} TakeShrinks(live: Live, slots: Row)
    requires Take(live, slots).Some?
    ensures Take(live, slots).value.rest.Keys <= live.Keys
    decreases live.Keys, |slots|
  {
    if slots != [] {
      var s := slots[0];
      if Empty(s) {
        TakeShrinks(live, slots[1..]);
      } else {
        TakeShrinks(live - {s.ptr}, Kids(live[s.ptr]) + slots[1..]);
      }
    }
  }

  /** Two releases may change places: each sees the same and the same memory remains. */
  lemma {:induction false} TakeCommutes(live: Live, a: Row, b: Row)
    requires Take(live, a).Some? && Take(Take(live, a).value.rest, b).Some?
    ensures Take(live, b).Some?
    ensures var w := Take(live, b).value;
      && w.seen == Take(Take(live, a).value.rest, b).value.seen
      && Take(w.rest, a) == Some(Walk(Take(Take(live, a).value.rest, b).value.rest, Take(live, a).value.seen))
    decreases live.Keys, |a|
  {
    if a != [] {
      var s := a[0];
      if Empty(s) {
        TakeCommutes(live, a[1..], b);
      } else {
        var less: Live := live - {s.ptr};
        var here: Live := map[s.ptr := live[s.ptr]];
        TakeCommutes(less, Kids(live[s.ptr]) + a[1..], b);
        assert live == less + here;
        TakeFrame(less, here, b);
        var x: Live := Take(less, b).value.rest;
        TakeShrinks(less, b);
        assert (x + here) - {s.ptr} == x && (x + here)[s.ptr] == live[s.ptr];
      }
    }
  }

  /** `row` owns exactly what `live` has beyond `base`, and reads as `seen`. */
  ghost predicate Owns(live: Live, row: Row, base: Live, seen: seq<Event>) {
    Take(live, row) == Some(Walk(base, seen))
  }

  /** Fields allocated later, on top of a finished row, extend it. */
  lemma OwnsAppend(base: Live, l1: Live, l2: Live, row: Row, more: Row, seen: seq<Event>, also: seq<Event>)
    requires Owns(l1, row, base, seen) && Owns(l2, more, l1, also)
    ensures Owns(l2, row + more, base, seen + also)
  {
    TakeCommutes(l2, more, row);
    TakeConcat(l2, row, more);
  }

  /** Whatever owns memory can be released once only: the heap that is left no longer fits. */
  lemma ReleasedOnce(live: Live, s: Slot)
    requires Take(live, [s]).Some? && !Empty(s)
    ensures Take(Take(live, [s]).value.rest, [s]).None?
  {
    TakeOne(live, s);
    TakeShrinks(live - {s.ptr}, Kids(live[s.ptr]));
    TakeOne(Take(live, [s]).value.rest, s);
  }

  // ----- the allocator -----

  class Heap {
    var live: Live

    constructor ()
      ensures live == map[]
    {
      live := map[];
    }

    /** Any address that is not null and not in use. */
    method Allocate(block: Block) returns (p: Addr)
      modifies this
      ensures p != NULL && p !in old(live) && live == old(live)[p := block]
    {
      var hint: int := *;
      p := if hint > 0 then hint else 1;
      while p in live
        invariant p > 0
        decreases set q | q in live && q >= p
      {
        ghost var before := set q | q in live && q >= p;
        ghost var after := set q | q in live && q >= p + 1;
        assert p in before && p !in after;
        p := p + 1;
      }
      live := live[p := block];
    }

    method Deallocate(p: Addr)
      requires p in live
      modifies this
      ensures live == old(live) - {p}
    {
      live := live - {p};
    }

    // ----- byte buffers -----

    /** An empty text is a null pointer with length zero. */
    method AllocText(data: seq<Byte>) returns (s: Slot)
      modifies this
      ensures s.Buf? && Owns(live, [s], old(live), [Text(data)])
      ensures s.len == |data| && (s.ptr == NULL <==> data == [])
    {
      if data == [] {
        TakeOne(live, Buf(NULL, 0));
        return Buf(NULL, 0);
      }
      var p := Allocate(Bytes(data));
      s := Buf(p, |data|);
      assert live - {p} == old(live);
      TakeOne(live, s);
      assert [Text(data)] + [] == [Text(data)];
    }

    method AllocOptionalText(data: Option<seq<Byte>>) returns (s: Slot)
      modifies this
      ensures s.Buf? && Owns(live, [s], old(live), [Text(if data.Some? then data.value else [])])
    {
      if data.None? {
        TakeOne(live, Buf(NULL, 0));
        return Buf(NULL, 0);
      }
      s := AllocText(data.value);
    }

    /** `luaskills_ffi_buffer_free` and `free_ffi_bytes`. */
    method FreeText(s: Slot)
      requires s.Buf? && Take(live, [s]).Some?
      modifies this
      ensures live == Take(old(live), [s]).value.rest
    {
      TakeOne(live, s);
      if !Empty(s) {
        Deallocate(s.ptr);
      }
    }

    /** Several buffers, one after the other. */
    method AllocTexts(texts: seq<seq<Byte>>) returns (row: Row)
      modifies this
      ensures |row| == |texts| && forall i :: 0 <= i < |row| ==> row[i].Buf?
      ensures Owns(live, row, old(live), TextEvents(texts))
    {
      row := [];
      for i := 0 to |texts|
        invariant |row| == i && forall k :: 0 <= k < i ==> row[k].Buf?
        invariant Owns(live, row, old(live), TextEvents(texts[..i]))
      {
        ghost var before := live;
        var s := AllocText(texts[i]);
        OwnsAppend(old(live), before, live, row, [s], TextEvents(texts[..i]), [Text(texts[i])]);
        row := row + [s];
        assert texts[..i + 1][..i] == texts[..i];
      }
      assert texts[..|texts|] == texts;
    }

    method FreeTexts(row: Row)
      requires Take(live, row).Some? && forall i :: 0 <= i < |row| ==> row[i].Buf?
      modifies this
      ensures live == Take(old(live), row).value.rest
    {
      for i := 0 to |row|
        invariant Take(live, row[i..]).Some? && Take(live, row[i..]).value.rest == Take(old(live), row).value.rest
      {
        assert row[i..] == [row[i]] + row[i + 1..];
        TakeConcat(live, [row[i]], row[i + 1..]);
        FreeText(row[i]);
      }
      assert row[|row|..] == [];
    }

    // ----- slices and boxes -----

    /** `alloc_ffi_boxed_slice`: the slice takes over what its rows own. */
    method AllocSlice(k: Kind, rows: seq<Row>, ghost base: Live, ghost seen: seq<Event>) returns (s: Slot)
      requires forall i :: 0 <= i < |rows| ==> Shaped(k, rows[i])
      requires Owns(live, Flat(rows), base, seen)
      modifies this
      ensures s.Arr? && s.kind == k && Owns(live, [s], base, [Count(|rows|)] + seen)
    {
      if rows == [] {
        TakeOne(live, Arr(k, NULL, 0));
        return Arr(k, NULL, 0);
      }
      var p := Allocate(Rows(k, rows));
      s := Arr(k, p, |rows|);
      assert live - {p} == old(live);
      TakeOne(live, s);
    }

    /** `take_ffi_boxed_slice`: the rows come back and the slice's own memory goes. */
    method TakeSlice(s: Slot) returns (rows: seq<Row>)
      requires s.Arr? && Take(live, [s]).Some?
      modifies this
      ensures forall i :: 0 <= i < |rows| ==> Shaped(s.kind, rows[i])
      ensures Take(live, Flat(rows)).Some? && Take(live, Flat(rows)).value.rest == Take(old(live), [s]).value.rest
    {
      TakeOne(live, s);
      if Empty(s) {
        return [];
      }
      rows := live[s.ptr].rows;
      Deallocate(s.ptr);
    }

    /** `Box::into_raw(Box::new(…))`. */
    method AllocBox(k: Kind, row: Row, ghost base: Live, ghost seen: seq<Event>) returns (s: Slot)
      requires Shaped(k, row) && Owns(live, row, base, seen)
      modifies this
      ensures s.Own? && s.kind == k && s.ptr != NULL && Owns(live, [s], base, [Maybe(true)] + seen)
    {
      var p := Allocate(Boxed(k, row));
      s := Own(k, p);
      assert live - {p} == old(live);
      TakeOne(live, s);
    }

    /** `*Box::from_raw(…)` of a pointer that is not null. */
    method TakeBox(s: Slot) returns (row: Row)
      requires s.Own? && s.ptr != NULL && Take(live, [s]).Some?
      modifies this
      ensures Shaped(s.kind, row)
      ensures Take(live, row).Some? && Take(live, row).value.rest == Take(old(live), [s]).value.rest
    {
      TakeOne(live, s);
      row := live[s.ptr].row;
      Deallocate(s.ptr);
    }
  }

  function TextEvents(texts: seq<seq<Byte>>): (r: seq<Event>)
    ensures |r| == |texts| && forall i :: 0 <= i < |r| ==> r[i] == Text(texts[i])
  {
    if texts == [] then [] else TextEvents(texts[..|texts| - 1]) + [Text(texts[|texts| - 1])]
  }
}
