/**
 * The result structures of the C interface. Every allocation is proved to own exactly the memory
 * it added and to read back as the value it was made from, and every free function to release
 * exactly what the structure owns; so a result freed once leaves the heap as it was.
 */
module FfiStructures {
  import opened Common
  import opened FfiHeap

  type Utf8Text = seq<Byte>

  // ----- runtime values; a serialization that fails is `None` -----

  datatype ParameterValue = ParameterValue(name: Utf8Text, paramType: Utf8Text, description: Utf8Text, required: bool)

  datatype EntryValue = EntryValue(canonicalName: Utf8Text, skillId: Utf8Text, localName: Utf8Text, rootName: Utf8Text,
                                   skillDir: Utf8Text, description: Utf8Text, schema: Option<Utf8Text>,
                                   parameters: seq<ParameterValue>)

  datatype NodeValue = NodeValue(flowName: Utf8Text, description: Utf8Text, related: seq<Utf8Text>, isMain: bool)

  datatype HelpValue = HelpValue(skillId: Utf8Text, skillName: Utf8Text, version: Utf8Text, rootName: Utf8Text,
                                 skillDir: Utf8Text, main: NodeValue, flows: seq<NodeValue>)

  datatype DetailValue = DetailValue(skillId: Utf8Text, skillName: Utf8Text, version: Utf8Text, rootName: Utf8Text,
                                     skillDir: Utf8Text, flowName: Utf8Text, description: Utf8Text,
                                       related: seq<Utf8Text>,
                                     isMain: bool, contentType: Utf8Text, content: Utf8Text)

  datatype HostValue = HostValue(kind: Utf8Text, payload: Option<Utf8Text>)

  datatype Overflow = Truncate | Page

  datatype InvocationValue = InvocationValue(content: Utf8Text, overflow: Option<Overflow>, hint: Option<Utf8Text>,
                                             bytes: nat, lines: nat, host: Option<HostValue>)

  datatype ApplyValue = ApplyValue(skillId: Utf8Text, status: Utf8Text, message: Utf8Text, version: Option<Utf8Text>,
                                   sourceType: int, locator: Option<Utf8Text>)

  datatype UninstallValue = UninstallValue(skillId: Utf8Text, removed: bool, message: Utf8Text)

  // ----- how they read -----

  function Flag(b: bool): Event { Number(if b then 1 else 0) }

  function OrEmpty(t: Option<Utf8Text>): Utf8Text { if t.Some? then t.value else [] }

  function Reads<T>(vs: seq<T>, one: T -> seq<Event>): (r: seq<Event>) {
    if vs == [] then [] else Reads(vs[..|vs| - 1], one) + one(vs[|vs| - 1])
  }

  function ListReads<T>(vs: seq<T>, one: T -> seq<Event>): (r: seq<Event>) {
    [Count(|vs|)] + Reads(vs, one)
  }

  function ItemReads(t: Utf8Text): seq<Event> { [Text(t)] }

  function ParameterReads(v: ParameterValue): seq<Event> {
    TextEvents([v.name, v.paramType, v.description]) + [Flag(v.required)]
  }

  function EntryReads(v: EntryValue): seq<Event> {
    TextEvents([v.canonicalName, v.skillId, v.localName, v.rootName, v.skillDir, v.description, OrEmpty(v.schema)])
      + ListReads(v.parameters, ParameterReads)
  }

  function NodeReads(v: NodeValue): seq<Event> {
    (TextEvents([v.flowName, v.description]) + ListReads(v.related, ItemReads)) + [Flag(v.isMain)]
  }

  function HelpReads(v: HelpValue): seq<Event> {
    (TextEvents([v.skillId, v.skillName, v.version, v.rootName, v.skillDir]) + NodeReads(v.main))
      + ListReads(v.flows, NodeReads)
  }

  function DetailReads(v: DetailValue): seq<Event> {
    ((TextEvents([v.skillId, v.skillName, v.version, v.rootName, v.skillDir, v.flowName, v.description])
      + ListReads(v.related, ItemReads)) + [Flag(v.isMain)]) + TextEvents([v.contentType, v.content])
  }

  function HostReads(v: HostValue): seq<Event> {
    TextEvents([v.kind, OrEmpty(v.payload)]) + [Number(|OrEmpty(v.payload)|)]
  }

  function OverflowCode(o: Option<Overflow>): int {
    if o.None? then 0 else if o.value.Truncate? then 1 else 2
  }

  function HeadReads(v: InvocationValue): seq<Event> {
    ((([Text(v.content)] + [Number(OverflowCode(v.overflow))]) + [Text(OrEmpty(v.hint))]) + [Number(v.bytes)])
      + [Number(v.lines)]
  }

  function HostBoxReads(host: Option<HostValue>): seq<Event> {
    if host.None? then [Maybe(false)] else [Maybe(true)] + HostReads(host.value)
  }

  function InvocationReads(v: InvocationValue): seq<Event> {
    HeadReads(v) + HostBoxReads(v.host)
  }

  function ApplyReads(v: ApplyValue): seq<Event> {
    ((TextEvents([v.skillId, v.status, v.message]) + [Text(OrEmpty(v.version))]) + [Number(v.sourceType)])
      + [Text(OrEmpty(v.locator))]
  }

  function UninstallReads(v: UninstallValue): seq<Event> {
    ([Text(v.skillId)] + [Flag(v.removed)]) + [Text(v.message)]
  }

  // ----- helpers -----

  lemma OwnsNumber(live: Live, v: int)
    ensures Owns(live, [Num(v)], live, [Number(v)])
  {
    TakeOne(live, Num(v));
  }

  lemma {:induction false} FlatSnoc(rows: seq<Row>, row: Row)
    ensures Flat(rows + [row]) == Flat(rows) + row
  {
    if rows == [] {
      assert [row][1..] == [];
      assert row + [] == row;
    } else {
      FlatSnoc(rows[1..], row);
      assert (rows + [row])[1..] == rows[1..] + [row];
    }
  }

  /** A release in two steps. */
  lemma Split(live: Live, row: Row, k: nat)
    requires k <= |row|
    ensures Take(live, row) == Then(Take(live, row[..k]), row[k..])
  {
    assert row == row[..k] + row[k..];
    TakeConcat(live, row[..k], row[k..]);
  }

  /** One more row at the end of an array under construction. */
  lemma ArrayStep(base: Live, l1: Live, l2: Live, rows: seq<Row>, row: Row, seen: seq<Event>, also: seq<Event>)
    requires Owns(l1, Flat(rows), base, seen) && Owns(l2, row, l1, also)
    ensures Owns(l2, Flat(rows + [row]), base, seen + also)
  {
    FlatSnoc(rows, row);
    OwnsAppend(base, l1, l2, Flat(rows), row, seen, also);
  }

  predicate AllShaped(k: Kind, rows: seq<Row>) {
    forall i :: 0 <= i < |rows| ==> Shaped(k, rows[i])
  }

  /** An array of structures under construction: the rows so far and what they own. */
  ghost predicate Built(live: Live, k: Kind, rows: seq<Row>, base: Live, seen: seq<Event>) {
    AllShaped(k, rows) && Owns(live, Flat(rows), base, seen)
  }

  lemma BuiltNext(k: Kind, base: Live, l1: Live, l2: Live, rows: seq<Row>, row: Row, seen: seq<Event>, also: seq<Event>)
    requires Built(l1, k, rows, base, seen) && Shaped(k, row) && Owns(l2, row, l1, also)
    ensures Built(l2, k, rows + [row], base, seen + also)
  {
    ArrayStep(base, l1, l2, rows, row, seen, also);
  }

  lemma ReadsStep<T>(vs: seq<T>, one: T -> seq<Event>, i: nat)
    requires i < |vs|
    ensures Reads(vs[..i + 1], one) == Reads(vs[..i], one) + one(vs[i])
  {
    assert vs[..i + 1][..i] == vs[..i];
  }

  lemma FlatFrom(live: Live, rows: seq<Row>, i: nat)
    requires i < |rows|
    ensures Take(live, Flat(rows[i..])) == Then(Take(live, rows[i]), Flat(rows[i + 1..]))
  {
    assert rows[i..][0] == rows[i] && rows[i..][1..] == rows[i + 1..];
    TakeConcat(live, rows[i], Flat(rows[i + 1..]));
  }

  // ----- string arrays -----

  method AllocStringArray(heap: Heap, values: seq<Utf8Text>) returns (s: Slot)
    modifies heap
    ensures s.Arr? && s.kind == Item && Owns(heap.live, [s], old(heap.live), ListReads(values, ItemReads))
  {
    var rows: seq<Row> := [];
    ghost var base := heap.live;
    for i := 0 to |values|
      invariant |rows| == i && Built(heap.live, Item, rows, base, Reads(values[..i], ItemReads))
    {
      ghost var before := heap.live;
      var t := heap.AllocText(values[i]);
      BuiltNext(Item, base, before, heap.live, rows, [t], Reads(values[..i], ItemReads), [Text(values[i])]);
      ReadsStep(values, ItemReads, i);
      rows := rows + [[t]];
    }
    assert values[..|values|] == values;
    s := heap.AllocSlice(Item, rows, base, Reads(values, ItemReads));
  }

  method FreeStringArray(heap: Heap, s: Slot)
    requires s.Arr? && s.kind == Item && Take(heap.live, [s]).Some?
    modifies heap
    ensures heap.live == Take(old(heap.live), [s]).value.rest
  {
    var rows := heap.TakeSlice(s);
    for i := 0 to |rows|
      invariant Take(heap.live, Flat(rows[i..])).Some?
      invariant Take(heap.live, Flat(rows[i..])).value.rest == Take(old(heap.live), [s]).value.rest
    {
      FlatFrom(heap.live, rows, i);
      assert rows[i] == [rows[i][0]];
      assert Bare(rows[i][0]) == Layout(Item)[0];
      heap.FreeText(rows[i][0]);
    }
  }

  // ----- entries -----

  method AllocParameter(heap: Heap, v: ParameterValue) returns (row: Row)
    modifies heap
    ensures Shaped(Parameter, row) && Owns(heap.live, row, old(heap.live), ParameterReads(v))
  {
    var texts := [v.name, v.paramType, v.description];
    row := heap.AllocTexts(texts);
    var flag := if v.required then 1 else 0;
    OwnsNumber(heap.live, flag);
    OwnsAppend(old(heap.live), heap.live, heap.live, row, [Num(flag)], TextEvents(texts), [Number(flag)]);
    row := row + [Num(flag)];
  }

  method FreeParameter(heap: Heap, row: Row)
    requires Shaped(Parameter, row) && Take(heap.live, row).Some?
    modifies heap
    ensures heap.live == Take(old(heap.live), row).value.rest
  {
    Split(heap.live, row, 3);
    assert forall i :: 0 <= i < 3 ==> Bare(row[i]) == Layout(Parameter)[i];
    heap.FreeTexts(row[..3]);
    assert row[3..] == [row[3]] && Bare(row[3]) == NUMBER;
    TakeOne(heap.live, row[3]);
  }

  method AllocParameters(heap: Heap, values: seq<ParameterValue>) returns (s: Slot)
    modifies heap
    ensures s.Arr? && s.kind == Parameter && Owns(heap.live, [s], old(heap.live), ListReads(values, ParameterReads))
  {
    var rows: seq<Row> := [];
    ghost var base := heap.live;
    for i := 0 to |values|
      invariant |rows| == i && Built(heap.live, Parameter, rows, base, Reads(values[..i], ParameterReads))
    {
      ghost var before := heap.live;
      var row := AllocParameter(heap, values[i]);
      BuiltNext(Parameter, base, before, heap.live, rows, row, Reads(values[..i], ParameterReads),
        ParameterReads(values[i]));
      ReadsStep(values, ParameterReads, i);
      rows := rows + [row];
    }
    assert values[..|values|] == values;
    s := heap.AllocSlice(Parameter, rows, base, Reads(values, ParameterReads));
  }

  method FreeParameters(heap: Heap, s: Slot)
    requires s.Arr? && s.kind == Parameter && Take(heap.live, [s]).Some?
    modifies heap
    ensures heap.live == Take(old(heap.live), [s]).value.rest
  {
    var rows := heap.TakeSlice(s);
    for i := 0 to |rows|
      invariant Take(heap.live, Flat(rows[i..])).Some?
      invariant Take(heap.live, Flat(rows[i..])).value.rest == Take(old(heap.live), [s]).value.rest
    {
      FlatFrom(heap.live, rows, i);
      FreeParameter(heap, rows[i]);
    }
  }

  /** The schema is serialized first, so a failure leaves nothing behind. */
  method AllocEntry(heap: Heap, v: EntryValue) returns (r: Option<Row>)
    modifies heap
    ensures r.Some? <==> v.schema.Some?
    ensures r.Some? ==> Shaped(Entry, r.value) && Owns(heap.live, r.value, old(heap.live), EntryReads(v))
    ensures r.None? ==> heap.live == old(heap.live)
  {
    if v.schema.None? {
      return None;
    }
    var parameters := AllocParameters(heap, v.parameters);
    ghost var mid := heap.live;
    var texts := [v.canonicalName, v.skillId, v.localName, v.rootName, v.skillDir, v.description, v.schema.value];
    var row := heap.AllocTexts(texts);
    OwnsSwapLast(heap.live, [parameters], row, old(heap.live), ListReads(v.parameters, ParameterReads),
      TextEvents(texts), mid);
    r := Some(row + [parameters]);
  }

  /** What was allocated first may come last in the structure. */
  lemma OwnsSwapLast(live: Live, early: Row, late: Row, base: Live, x: seq<Event>, y: seq<Event>, mid: Live)
    requires Owns(mid, early, base, x) && Owns(live, late, mid, y)
    ensures Owns(live, late + early, base, y + x)
  {
    TakeConcat(live, late, early);
  }

  method FreeEntry(heap: Heap, row: Row)
    requires Shaped(Entry, row) && Take(heap.live, row).Some?
    modifies heap
    ensures heap.live == Take(old(heap.live), row).value.rest
  {
    Split(heap.live, row, 7);
    assert forall i :: 0 <= i < 7 ==> Bare(row[i]) == Layout(Entry)[i];
    heap.FreeTexts(row[..7]);
    assert row[7..] == [row[7]] && Bare(row[7]) == Layout(Entry)[7];
    FreeParameters(heap, row[7]);
  }

  method FreeEntries(heap: Heap, rows: seq<Row>)
    requires AllShaped(Entry, rows) && Take(heap.live, Flat(rows)).Some?
    modifies heap
    ensures heap.live == Take(old(heap.live), Flat(rows)).value.rest
  {
    for i := 0 to |rows|
      invariant Take(heap.live, Flat(rows[i..])).Some?
      invariant Take(heap.live, Flat(rows[i..])).value.rest == Take(old(heap.live), Flat(rows)).value.rest
    {
      FlatFrom(heap.live, rows, i);
      FreeEntry(heap, rows[i]);
    }
  }

  predicate AllSerialize(values: seq<EntryValue>) {
    forall i :: 0 <= i < |values| ==> values[i].schema.Some?
  }

  /** The descriptors of the first `n` entries, built on top of `base`. */
  ghost predicate BuiltEntries(live: Live, rows: seq<Row>, base: Live, values: seq<EntryValue>, n: nat)
    requires n <= |values|
  {
    |rows| == n && Built(live, Entry, rows, base, Reads(values[..n], EntryReads))
  }

  /** Entry number `n` of a list: a failure makes the descriptors already allocated go away again. */
  method AllocNextEntry(heap: Heap, values: seq<EntryValue>, n: nat, rows: seq<Row>, ghost base: Live)
    returns (r: Option<seq<Row>>)
    requires n < |values| && BuiltEntries(heap.live, rows, base, values, n)
    modifies heap
    ensures r.Some? <==> values[n].schema.Some?
    ensures r.Some? ==> BuiltEntries(heap.live, r.value, base, values, n + 1)
    ensures r.None? ==> heap.live == base
  {
    ghost var before, seen := heap.live, Reads(values[..n], EntryReads);
    var row := AllocEntry(heap, values[n]);
    if row.None? {
      FreeEntries(heap, rows);
      return None;
    }
    BuiltNext(Entry, base, before, heap.live, rows, row.value, seen, EntryReads(values[n]));
    ReadsStep(values, EntryReads, n);
    r := Some(rows + [row.value]);
  }

  method AllocEntries(heap: Heap, values: seq<EntryValue>) returns (r: Option<seq<Row>>)
    modifies heap
    ensures r.Some? <==> AllSerialize(values)
    ensures r.Some? ==> BuiltEntries(heap.live, r.value, old(heap.live), values, |values|)
    ensures r.None? ==> heap.live == old(heap.live)
  {
    ghost var base := heap.live;
    r := Some([]);
    for i := 0 to |values|
      invariant r.Some? && forall k :: 0 <= k < i ==> values[k].schema.Some?
      invariant BuiltEntries(heap.live, r.value, base, values, i)
    {
      r := AllocNextEntry(heap, values, i, r.value, base);
      if r.None? {
        return;
      }
    }
  }

  method AllocEntryList(heap: Heap, values: seq<EntryValue>) returns (r: Option<Slot>)
    modifies heap
    ensures r.Some? <==> AllSerialize(values)
    ensures r.Some? ==> r.value.Arr? && r.value.kind == Entry
    ensures r.Some? ==> Owns(heap.live, [r.value], old(heap.live), ListReads(values, EntryReads))
    ensures r.None? ==> heap.live == old(heap.live)
  {
    var rows := AllocEntries(heap, values);
    if rows.None? {
      return None;
    }
    assert values[..|values|] == values;
    var s := heap.AllocSlice(Entry, rows.value, old(heap.live), Reads(values, EntryReads));
    r := Some(s);
  }

  // ----- help -----

  method AllocNode(heap: Heap, v: NodeValue) returns (row: Row)
    modifies heap
    ensures Shaped(Node, row) && Owns(heap.live, row, old(heap.live), NodeReads(v))
  {
    var related := AllocStringArray(heap, v.related);
    ghost var mid := heap.live;
    var texts := [v.flowName, v.description];
    row := heap.AllocTexts(texts);
    var list := ListReads(v.related, ItemReads);
    OwnsSwapLast(heap.live, [related], row, old(heap.live), list, TextEvents(texts), mid);
    row := row + [related];
    var flag := if v.isMain then 1 else 0;
    OwnsNumber(heap.live, flag);
    OwnsAppend(old(heap.live), heap.live, heap.live, row, [Num(flag)], TextEvents(texts) + list, [Number(flag)]);
    row := row + [Num(flag)];
  }

  method FreeNode(heap: Heap, row: Row)
    requires Shaped(Node, row) && Take(heap.live, row).Some?
    modifies heap
    ensures heap.live == Take(old(heap.live), row).value.rest
  {
    Split(heap.live, row, 2);
    assert forall i :: 0 <= i < 4 ==> Bare(row[i]) == Layout(Node)[i];
    heap.FreeTexts(row[..2]);
    Split(heap.live, row[2..], 1);
    assert row[2..][..1] == [row[2]] && row[2..][1..] == [row[3]];
    FreeStringArray(heap, row[2]);
    TakeOne(heap.live, row[3]);
  }

  method AllocNodes(heap: Heap, values: seq<NodeValue>) returns (s: Slot)
    modifies heap
    ensures s.Arr? && s.kind == Node && Owns(heap.live, [s], old(heap.live), ListReads(values, NodeReads))
  {
    var rows: seq<Row> := [];
    ghost var base := heap.live;
    for i := 0 to |values|
      invariant |rows| == i && Built(heap.live, Node, rows, base, Reads(values[..i], NodeReads))
    {
      ghost var before := heap.live;
      var row := AllocNode(heap, values[i]);
      BuiltNext(Node, base, before, heap.live, rows, row, Reads(values[..i], NodeReads), NodeReads(values[i]));
      ReadsStep(values, NodeReads, i);
      rows := rows + [row];
    }
    assert values[..|values|] == values;
    s := heap.AllocSlice(Node, rows, base, Reads(values, NodeReads));
  }

  method FreeNodes(heap: Heap, s: Slot)
    requires s.Arr? && s.kind == Node && Take(heap.live, [s]).Some?
    modifies heap
    ensures heap.live == Take(old(heap.live), [s]).value.rest
  {
    var rows := heap.TakeSlice(s);
    for i := 0 to |rows|
      invariant Take(heap.live, Flat(rows[i..])).Some?
      invariant Take(heap.live, Flat(rows[i..])).value.rest == Take(old(heap.live), [s]).value.rest
    {
      FlatFrom(heap.live, rows, i);
      FreeNode(heap, rows[i]);
    }
  }

  method AllocHelp(heap: Heap, v: HelpValue) returns (row: Row)
    modifies heap
    ensures Shaped(Help, row) && Owns(heap.live, row, old(heap.live), HelpReads(v))
  {
    var flows := AllocNodes(heap, v.flows);
    ghost var mid := heap.live;
    var texts := [v.skillId, v.skillName, v.version, v.rootName, v.skillDir];
    row := heap.AllocTexts(texts);
    ghost var named := heap.live;
    var main := AllocNode(heap, v.main);
    OwnsAppend(mid, named, heap.live, row, main, TextEvents(texts), NodeReads(v.main));
    row := row + main;
    OwnsSwapLast(heap.live, [flows], row, old(heap.live), ListReads(v.flows, NodeReads),
                 TextEvents(texts) + NodeReads(v.main), mid);
    HelpShape(row, flows);
    row := row + [flows];
  }

  lemma HelpShape(row: Row, flows: Slot)
    requires |row| == 9 && (forall i :: 0 <= i < 5 ==> row[i].Buf?) && Shaped(Node, row[5..])
    requires flows.Arr? && flows.kind == Node
    ensures Shaped(Help, row + [flows])
  {
    assert forall i :: 5 <= i < 9 ==> row[i] == row[5..][i - 5];
  }

  method FreeHelp(heap: Heap, row: Row)
    requires Shaped(Help, row) && Take(heap.live, row).Some?
    modifies heap
    ensures heap.live == Take(old(heap.live), row).value.rest
  {
    assert forall i :: 0 <= i < 10 ==> Bare(row[i]) == Layout(Help)[i];
    Split(heap.live, row, 5);
    heap.FreeTexts(row[..5]);
    var rest := row[5..];
    Split(heap.live, rest, 4);
    assert Shaped(Node, rest[..4]);
    FreeNode(heap, rest[..4]);
    assert rest[4..] == [row[9]];
    FreeNodes(heap, row[9]);
  }

  method AllocHelps(heap: Heap, values: seq<HelpValue>) returns (s: Slot)
    modifies heap
    ensures s.Arr? && s.kind == Help && Owns(heap.live, [s], old(heap.live), ListReads(values, HelpReads))
  {
    var rows: seq<Row> := [];
    ghost var base := heap.live;
    for i := 0 to |values|
      invariant |rows| == i && Built(heap.live, Help, rows, base, Reads(values[..i], HelpReads))
    {
      ghost var before := heap.live;
      var row := AllocHelp(heap, values[i]);
      BuiltNext(Help, base, before, heap.live, rows, row, Reads(values[..i], HelpReads), HelpReads(values[i]));
      ReadsStep(values, HelpReads, i);
      rows := rows + [row];
    }
    assert values[..|values|] == values;
    s := heap.AllocSlice(Help, rows, base, Reads(values, HelpReads));
  }
}
