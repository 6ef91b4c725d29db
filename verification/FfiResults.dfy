/**
 * The results handed to a C caller behind one pointer, their free functions, and the bridge that
 * takes back the two buffers a host callback returns.
 */
module FfiResults {
  import opened Common
  import opened FfiHeap
  import opened FfiStructures

  // ----- boxed lists -----

  method NewStrings(heap: Heap, values: seq<Utf8Text>) returns (s: Slot)
    modifies heap
    ensures s.Own? && s.kind == Strings && s.ptr != NULL
    ensures Owns(heap.live, [s], old(heap.live), [Maybe(true)] + ListReads(values, ItemReads))
  {
    var list := AllocStringArray(heap, values);
    s := heap.AllocBox(Strings, [list], old(heap.live), ListReads(values, ItemReads));
  }

  /** `luaskills_ffi_string_array_free`. */
  method FreeStrings(heap: Heap, s: Slot)
    requires s.Own? && s.kind == Strings && Take(heap.live, [s]).Some?
    modifies heap
    ensures heap.live == Take(old(heap.live), [s]).value.rest
  {
    TakeOne(heap.live, s);
    if s.ptr != NULL {
      var row := heap.TakeBox(s);
      assert Bare(row[0]) == Layout(Strings)[0] && row == [row[0]];
      FreeStringArray(heap, row[0]);
    }
  }

  /** The entry list; a schema that cannot be serialized leaves the heap untouched. */
  method NewEntryList(heap: Heap, values: seq<EntryValue>) returns (r: Option<Slot>)
    modifies heap
    ensures r.Some? <==> AllSerialize(values)
    ensures r.Some? ==> r.value.Own? && r.value.kind == EntryList && r.value.ptr != NULL
    ensures r.Some? ==> Owns(heap.live, [r.value], old(heap.live), [Maybe(true)] + ListReads(values, EntryReads))
    ensures r.None? ==> heap.live == old(heap.live)
  {
    var list := AllocEntryList(heap, values);
    if list.None? {
      return None;
    }
    var s := heap.AllocBox(EntryList, [list.value], old(heap.live), ListReads(values, EntryReads));
    r := Some(s);
  }

  /** `luaskills_ffi_entry_list_free`. */
  method FreeEntryList(heap: Heap, s: Slot)
    requires s.Own? && s.kind == EntryList && Take(heap.live, [s]).Some?
    modifies heap
    ensures heap.live == Take(old(heap.live), [s]).value.rest
  {
    TakeOne(heap.live, s);
    if s.ptr != NULL {
      var row := heap.TakeBox(s);
      assert Bare(row[0]) == Layout(EntryList)[0] && row == [row[0]];
      var rows := heap.TakeSlice(row[0]);
      FreeEntries(heap, rows);
    }
  }

  method NewHelpList(heap: Heap, values: seq<HelpValue>) returns (s: Slot)
    modifies heap
    ensures s.Own? && s.kind == HelpList && s.ptr != NULL
    ensures Owns(heap.live, [s], old(heap.live), [Maybe(true)] + ListReads(values, HelpReads))
  {
    var list := AllocHelps(heap, values);
    s := heap.AllocBox(HelpList, [list], old(heap.live), ListReads(values, HelpReads));
  }

  /** `luaskills_ffi_help_list_free`. */
  method FreeHelpList(heap: Heap, s: Slot)
    requires s.Own? && s.kind == HelpList && Take(heap.live, [s]).Some?
    modifies heap
    ensures heap.live == Take(old(heap.live), [s]).value.rest
  {
    TakeOne(heap.live, s);
    if s.ptr != NULL {
      var row := heap.TakeBox(s);
      assert Bare(row[0]) == Layout(HelpList)[0] && row == [row[0]];
      var rows := heap.TakeSlice(row[0]);
      for i := 0 to |rows|
        invariant Take(heap.live, Flat(rows[i..])).Some?
        invariant Take(heap.live, Flat(rows[i..])).value.rest == Take(old(heap.live), [s]).value.rest
      {
        FlatFrom(heap.live, rows, i);
        FreeHelp(heap, rows[i]);
      }
    }
  }

  // ----- releasing a row field by field -----

  /** One field of a row: the rest is what remains to be released. */
  lemma Field(live: Live, row: Row, i: nat)
    requires i < |row|
    ensures Take(live, row[i..]) == Then(Take(live, [row[i]]), row[i + 1..])
  {
    assert row[i..] == [row[i]] + row[i + 1..];
    TakeConcat(live, [row[i]], row[i + 1..]);
  }

  /** A number in a row releases nothing. */
  lemma NumberField(live: Live, row: Row, i: nat)
    requires i < |row| && row[i].Num? && Take(live, row[i..]).Some?
    ensures Take(live, row[i + 1..]).Some? && Take(live, row[i + 1..]).value.rest == Take(live, row[i..]).value.rest
  {
    Field(live, row, i);
    TakeOne(live, row[i]);
  }

  method FreeField(heap: Heap, row: Row, i: nat)
    requires i < |row| && row[i].Buf? && Take(heap.live, row[i..]).Some?
    modifies heap
    ensures Take(heap.live, row[i + 1..]).Some?
    ensures Take(heap.live, row[i + 1..]).value.rest == Take(old(heap.live), row[i..]).value.rest
  {
    Field(heap.live, row, i);
    heap.FreeText(row[i]);
  }

  /** The buffers from field `lo` up to field `hi`. */
  method FreeSpan(heap: Heap, row: Row, lo: nat, hi: nat)
    requires lo <= hi <= |row| && (forall i :: lo <= i < hi ==> row[i].Buf?) && Take(heap.live, row[lo..]).Some?
    modifies heap
    ensures Take(heap.live, row[hi..]).Some?
    ensures Take(heap.live, row[hi..]).value.rest == Take(old(heap.live), row[lo..]).value.rest
  {
    for i := lo to hi
      invariant Take(heap.live, row[i..]).Some?
      invariant Take(heap.live, row[i..]).value.rest == Take(old(heap.live), row[lo..]).value.rest
    {
      FreeField(heap, row, i);
    }
  }

  method FreeItemsField(heap: Heap, row: Row, i: nat)
    requires i < |row| && row[i].Arr? && row[i].kind == Item && Take(heap.live, row[i..]).Some?
    modifies heap
    ensures Take(heap.live, row[i + 1..]).Some?
    ensures Take(heap.live, row[i + 1..]).value.rest == Take(old(heap.live), row[i..]).value.rest
  {
    Field(heap.live, row, i);
    FreeStringArray(heap, row[i]);
  }

  lemma ShapedAt(k: Kind, row: Row)
    requires Shaped(k, row)
    ensures forall i :: 0 <= i < |row| ==> Bare(row[i]) == Layout(k)[i]
  {
  }

  // ----- help detail -----

  method NewDetail(heap: Heap, v: DetailValue) returns (s: Slot)
    modifies heap
    ensures s.Own? && s.kind == Detail && s.ptr != NULL
    ensures Owns(heap.live, [s], old(heap.live), [Maybe(true)] + DetailReads(v))
  {
    ghost var base := heap.live;
    var related := AllocStringArray(heap, v.related);
    ghost var list := ListReads(v.related, ItemReads);
    ghost var l1 := heap.live;
    var texts := [v.skillId, v.skillName, v.version, v.rootName, v.skillDir, v.flowName, v.description];
    var row := heap.AllocTexts(texts);
    OwnsSwapLast(heap.live, [related], row, base, list, TextEvents(texts), l1);
    row := row + [related];
    var flag := if v.isMain then 1 else 0;
    OwnsNumber(heap.live, flag);
    OwnsAppend(base, heap.live, heap.live, row, [Num(flag)], TextEvents(texts) + list, [Number(flag)]);
    row := row + [Num(flag)];
    ghost var l2 := heap.live;
    var more := heap.AllocTexts([v.contentType, v.content]);
    OwnsAppend(base, l2, heap.live, row, more, (TextEvents(texts) + list) + [Number(flag)],
      TextEvents([v.contentType, v.content]));
    s := heap.AllocBox(Detail, row + more, base, DetailReads(v));
  }

  /** `luaskills_ffi_help_detail_free`. */
  method FreeDetail(heap: Heap, s: Slot)
    requires s.Own? && s.kind == Detail && Take(heap.live, [s]).Some?
    modifies heap
    ensures heap.live == Take(old(heap.live), [s]).value.rest
  {
    TakeOne(heap.live, s);
    if s.ptr != NULL {
      var row := heap.TakeBox(s);
      FreeDetailRow(heap, row);
    }
  }

  method FreeDetailRow(heap: Heap, row: Row)
    requires Shaped(Detail, row) && Take(heap.live, row).Some?
    modifies heap
    ensures heap.live == Take(old(heap.live), row).value.rest
  {
    ShapedAt(Detail, row);
    assert row[0..] == row && row[11..] == [];
    FreeSpan(heap, row, 0, 7);
    FreeItemsField(heap, row, 7);
    NumberField(heap.live, row, 8);
    FreeSpan(heap, row, 9, 11);
  }

  // ----- invocation result -----

  method AllocHost(heap: Heap, v: HostValue) returns (r: Option<Row>)
    modifies heap
    ensures r.Some? <==> v.payload.Some?
    ensures r.Some? ==> Shaped(HostResult, r.value) && Owns(heap.live, r.value, old(heap.live), HostReads(v))
    ensures r.None? ==> heap.live == old(heap.live)
  {
    if v.payload.None? {
      return None;
    }
    var texts := [v.kind, v.payload.value];
    var row := heap.AllocTexts(texts);
    var size := |v.payload.value|;
    OwnsNumber(heap.live, size);
    OwnsAppend(old(heap.live), heap.live, heap.live, row, [Num(size)], TextEvents(texts), [Number(size)]);
    r := Some(row + [Num(size)]);
  }

  /** The optional box around a host result: a null pointer when there is none. */
  method AllocHostBox(heap: Heap, host: Option<HostValue>) returns (r: Option<Slot>)
    modifies heap
    ensures r.Some? <==> host.None? || host.value.payload.Some?
    ensures r.Some? ==> r.value.Own? && r.value.kind == HostResult
    ensures r.Some? ==> Owns(heap.live, [r.value], old(heap.live), HostBoxReads(host))
    ensures r.None? ==> heap.live == old(heap.live)
  {
    if host.None? {
      TakeOne(heap.live, Own(HostResult, NULL));
      return Some(Own(HostResult, NULL));
    }
    var row := AllocHost(heap, host.value);
    if row.None? {
      return None;
    }
    var s := heap.AllocBox(HostResult, row.value, old(heap.live), HostReads(host.value));
    r := Some(s);
  }

  // Fields added to a row under construction.

  lemma OwnsField(base: Live, l1: Live, l2: Live, row: Row, s: Slot, seen: seq<Event>, e: Event)
    requires Owns(l1, row, base, seen) && Owns(l2, [s], l1, [e])
    ensures Owns(l2, row + [s], base, seen + [e])
  {
    OwnsAppend(base, l1, l2, row, [s], seen, [e]);
  }

  method AddText(heap: Heap, row: Row, data: Option<Utf8Text>, ghost base: Live, ghost seen: seq<Event>)
    returns (more: Row)
    requires Owns(heap.live, row, base, seen)
    modifies heap
    ensures |more| == |row| + 1 && more[..|row|] == row && more[|row|].Buf?
    ensures Owns(heap.live, more, base, seen + [Text(OrEmpty(data))])
  {
    var s := heap.AllocOptionalText(data);
    OwnsField(base, old(heap.live), heap.live, row, s, seen, Text(OrEmpty(data)));
    more := row + [s];
  }

  method AddNumber(heap: Heap, row: Row, value: int, ghost base: Live, ghost seen: seq<Event>) returns (more: Row)
    requires Owns(heap.live, row, base, seen)
    ensures more == row + [Num(value)] && Owns(heap.live, more, base, seen + [Number(value)])
  {
    OwnsNumber(heap.live, value);
    OwnsField(base, heap.live, heap.live, row, Num(value), seen, Number(value));
    more := row + [Num(value)];
  }

  /** The fields before the host box. */
  method AllocHead(heap: Heap, v: InvocationValue) returns (row: Row)
    modifies heap
    ensures |row| == 5 && row[0].Buf? && row[1].Num? && row[2].Buf? && row[3].Num? && row[4].Num?
    ensures Owns(heap.live, row, old(heap.live), HeadReads(v))
  {
    ghost var base := heap.live;
    var content := heap.AllocText(v.content);
    ghost var s1 := [Text(v.content)];
    row := AddNumber(heap, [content], OverflowCode(v.overflow), base, s1);
    ghost var s2 := s1 + [Number(OverflowCode(v.overflow))];
    row := AddText(heap, row, v.hint, base, s2);
    ghost var s3 := s2 + [Text(OrEmpty(v.hint))];
    row := AddNumber(heap, row, v.bytes, base, s3);
    row := AddNumber(heap, row, v.lines, base, s3 + [Number(v.bytes)]);
  }

  /** The host result is allocated first, so that its failure leaves nothing behind. */
  /** The word after the content tells the three overflow modes apart. */
  lemma OverflowWritten(v: InvocationValue)
    ensures var e := InvocationReads(v);
      && |e| > 1
      && (e[1] == Number(0) <==> v.overflow == None)
      && (e[1] == Number(1) <==> v.overflow == Some(Truncate))
      && (e[1] == Number(2) <==> v.overflow == Some(Page))
  {
    var e := HeadReads(v);
    assert InvocationReads(v)[1] == e[1] == Number(OverflowCode(v.overflow));
  }

  method NewInvocation(heap: Heap, v: InvocationValue) returns (r: Option<Slot>)
    modifies heap
    ensures r.Some? <==> v.host.None? || v.host.value.payload.Some?
    ensures r.Some? ==> r.value.Own? && r.value.kind == Invocation && r.value.ptr != NULL
    ensures r.Some? ==> Owns(heap.live, [r.value], old(heap.live), [Maybe(true)] + InvocationReads(v))
    ensures r.None? ==> heap.live == old(heap.live)
  {
    ghost var base := heap.live;
    var host := AllocHostBox(heap, v.host);
    if host.None? {
      return None;
    }
    ghost var mid := heap.live;
    var row := AllocHead(heap, v);
    OwnsSwapLast(heap.live, [host.value], row, base, HostBoxReads(v.host), HeadReads(v), mid);
    var s := heap.AllocBox(Invocation, row + [host.value], base, InvocationReads(v));
    r := Some(s);
  }

  method FreeHostBox(heap: Heap, s: Slot)
    requires s.Own? && s.kind == HostResult && Take(heap.live, [s]).Some?
    modifies heap
    ensures heap.live == Take(old(heap.live), [s]).value.rest
  {
    TakeOne(heap.live, s);
    if s.ptr != NULL {
      var row := heap.TakeBox(s);
      assert forall i :: 0 <= i < 3 ==> Bare(row[i]) == Layout(HostResult)[i];
      Split(heap.live, row, 2);
      heap.FreeTexts(row[..2]);
      assert row[2..] == [row[2]];
      TakeOne(heap.live, row[2]);
    }
  }

  /** `luaskills_ffi_invocation_result_free`. */
  method FreeInvocation(heap: Heap, s: Slot)
    requires s.Own? && s.kind == Invocation && Take(heap.live, [s]).Some?
    modifies heap
    ensures heap.live == Take(old(heap.live), [s]).value.rest
  {
    TakeOne(heap.live, s);
    if s.ptr != NULL {
      var row := heap.TakeBox(s);
      FreeInvocationRow(heap, row);
    }
  }

  method FreeInvocationRow(heap: Heap, row: Row)
    requires Shaped(Invocation, row) && Take(heap.live, row).Some?
    modifies heap
    ensures heap.live == Take(old(heap.live), row).value.rest
  {
    ShapedAt(Invocation, row);
    assert row[0..] == row && row[5..] == [row[5]];
    FreeField(heap, row, 0);
    NumberField(heap.live, row, 1);
    FreeField(heap, row, 2);
    NumberField(heap.live, row, 3);
    NumberField(heap.live, row, 4);
    FreeHostBox(heap, row[5]);
  }

  // ----- lifecycle results -----

  method NewApply(heap: Heap, v: ApplyValue) returns (s: Slot)
    modifies heap
    ensures s.Own? && s.kind == Apply && s.ptr != NULL
    ensures Owns(heap.live, [s], old(heap.live), [Maybe(true)] + ApplyReads(v))
  {
    ghost var base := heap.live;
    var texts := [v.skillId, v.status, v.message];
    var row := heap.AllocTexts(texts);
    ghost var s1 := TextEvents(texts);
    row := AddText(heap, row, v.version, base, s1);
    ghost var s2 := s1 + [Text(OrEmpty(v.version))];
    row := AddNumber(heap, row, v.sourceType, base, s2);
    row := AddText(heap, row, v.locator, base, s2 + [Number(v.sourceType)]);
    s := heap.AllocBox(Apply, row, base, ApplyReads(v));
  }

  /** `luaskills_ffi_skill_apply_result_free`. */
  method FreeApply(heap: Heap, s: Slot)
    requires s.Own? && s.kind == Apply && Take(heap.live, [s]).Some?
    modifies heap
    ensures heap.live == Take(old(heap.live), [s]).value.rest
  {
    TakeOne(heap.live, s);
    if s.ptr != NULL {
      var row := heap.TakeBox(s);
      ShapedAt(Apply, row);
      assert row[0..] == row && row[6..] == [];
      FreeSpan(heap, row, 0, 4);
      NumberField(heap.live, row, 4);
      FreeField(heap, row, 5);
    }
  }

  method NewUninstall(heap: Heap, v: UninstallValue) returns (s: Slot)
    modifies heap
    ensures s.Own? && s.kind == Uninstall && s.ptr != NULL
    ensures Owns(heap.live, [s], old(heap.live), [Maybe(true)] + UninstallReads(v))
  {
    ghost var base := heap.live;
    var id := heap.AllocText(v.skillId);
    var flag := if v.removed then 1 else 0;
    var row := AddNumber(heap, [id], flag, base, [Text(v.skillId)]);
    row := AddText(heap, row, Some(v.message), base, [Text(v.skillId)] + [Number(flag)]);
    s := heap.AllocBox(Uninstall, row, base, UninstallReads(v));
  }

  /** `luaskills_ffi_skill_uninstall_result_free`. */
  method FreeUninstall(heap: Heap, s: Slot)
    requires s.Own? && s.kind == Uninstall && Take(heap.live, [s]).Some?
    modifies heap
    ensures heap.live == Take(old(heap.live), [s]).value.rest
  {
    TakeOne(heap.live, s);
    if s.ptr != NULL {
      var row := heap.TakeBox(s);
      assert forall i :: 0 <= i < 3 ==> Bare(row[i]) == Layout(Uninstall)[i];
      assert row[0..] == row && row[3..] == [];
      FreeField(heap, row, 0);
      NumberField(heap.live, row, 1);
      FreeField(heap, row, 2);
    }
  }

  // ----- round trips -----

  /** A list of entries of any size and nesting, allocated and freed, leaves the heap as it was. */
  method EntryListRoundTrip(heap: Heap, values: seq<EntryValue>)
    modifies heap
    ensures heap.live == old(heap.live)
  {
    var r := NewEntryList(heap, values);
    if r.Some? {
      FreeEntryList(heap, r.value);
    }
  }

  method StringsRoundTrip(heap: Heap, values: seq<Utf8Text>)
    modifies heap
    ensures heap.live == old(heap.live)
  {
    var s := NewStrings(heap, values);
    FreeStrings(heap, s);
  }

  method HelpListRoundTrip(heap: Heap, values: seq<HelpValue>)
    modifies heap
    ensures heap.live == old(heap.live)
  {
    var s := NewHelpList(heap, values);
    FreeHelpList(heap, s);
  }

  /** Two results freed in the order of their allocation, not in reverse. */
  method InterleavedRoundTrip(heap: Heap, v: InvocationValue, d: DetailValue)
    modifies heap
    ensures heap.live == old(heap.live)
  {
    ghost var base := heap.live;
    var r := NewInvocation(heap, v);
    if r.Some? {
      ghost var mid := heap.live;
      var s := NewDetail(heap, d);
      TakeCommutes(heap.live, [s], [r.value]);
      FreeInvocation(heap, r.value);
      FreeDetail(heap, s);
    } else {
      var s := NewDetail(heap, d);
      FreeDetail(heap, s);
    }
  }

  // ----- callback buffers -----

  datatype Taken = Absent | Present(text: Utf8Text) | NullWithLength | NotUtf8

  /** What a returned buffer means to the bridge. */
  ghost function Meaning(s: Slot, live: Live, utf8: Utf8Text -> bool): Taken
    requires s.Buf?
  {
    if s.ptr == NULL then (if s.len == 0 then Absent else NullWithLength)
    else
      var data := Seen(s, live).data;
      if utf8(data) then Present(data) else NotUtf8
  }

  /** Copy a returned buffer and release it; a decoding failure comes after the release. */
  method TakeBuffer(heap: Heap, s: Slot, utf8: Utf8Text -> bool) returns (r: Taken)
    requires s.Buf? && Take(heap.live, [s]).Some?
    modifies heap
    ensures heap.live == Take(old(heap.live), [s]).value.rest
    ensures r == Meaning(s, old(heap.live), utf8)
  {
    TakeOne(heap.live, s);
    if s.ptr == NULL {
      return if s.len == 0 then Absent else NullWithLength;
    }
    var data := if s.len == 0 then [] else heap.live[s.ptr].data;
    heap.FreeText(s);
    r := if utf8(data) then Present(data) else NotUtf8;
  }

  datatype Reply = Replied(text: Utf8Text) | HostFailed(message: Option<Utf8Text>) | BadBuffer | NoResponse
                 | UnexpectedError(complaint: Utf8Text)

  /** The outcome of a callback that returned `status` and two buffers. */
  ghost function ReplyOf(ok: bool, response: Taken, error: Taken): Reply {
    if !ok then
      match error
      case Absent => HostFailed(None)
      case Present(m) => HostFailed(Some(m))
      case _ => BadBuffer
    else if error.NullWithLength? || error.NotUtf8? then BadBuffer
    else
      match response
      case Absent => NoResponse
      case Present(t) => if error.Present? && error.text != [] then UnexpectedError(error.text) else Replied(t)
      case _ => BadBuffer
  }

  /** Not a text and not nothing. */
  predicate Unusable(t: Taken) {
    t == NullWithLength || t == NotUtf8
  }

  /**
   * What the bridge reports for which status and buffers: the response for a success with a
   * response and no message, or an empty one; the host's own message, or its absence, for a
   * failure, whatever the response; and a refusal for the rest, in the order in which the
   * buffers are judged.
   */
  lemma RepliesExactly(ok: bool, response: Taken, error: Taken, text: Utf8Text)
    ensures var r := ReplyOf(ok, response, error);
      && (r == Replied(text) <==> ok && response == Present(text) && (error == Absent || error == Present([])))
      && (r == HostFailed(None) <==> !ok && error == Absent)
      && (r == HostFailed(Some(text)) <==> !ok && error == Present(text))
      && (r == UnexpectedError(text) <==> ok && response.Present? && error == Present(text) && text != [])
      && (r == NoResponse <==> ok && response == Absent && !Unusable(error))
      && (r == BadBuffer <==> Unusable(error) || (ok && Unusable(response)))
  {
  }

  /** A text that a callback hands over in a buffer is the text that the bridge takes, and nothing leaks. */
  method TextHandedOver(heap: Heap, text: Utf8Text, utf8: Utf8Text -> bool) returns (r: Taken)
    modifies heap
    ensures heap.live == old(heap.live)
    ensures r == if text == [] then Absent else if utf8(text) then Present(text) else NotUtf8
  {
    var s := heap.AllocText(text);
    TakeOne(heap.live, s);
    assert Take(heap.live, [s]).value.seen[0] == Seen(s, heap.live) == Text(text);
    r := TakeBuffer(heap, s, utf8);
  }

  /**
   * The bridge after the callback returned. On every exit both buffers have been released, each
   * exactly once, whether decoding them failed or not.
   */
  method FinishCallback(heap: Heap, ok: bool, response: Slot, error: Slot, utf8: Utf8Text -> bool) returns (r: Reply)
    requires response.Buf? && error.Buf? && Take(heap.live, [error, response]).Some?
    modifies heap
    ensures heap.live == Take(old(heap.live), [error, response]).value.rest
    ensures r == ReplyOf(ok, Meaning(response, old(heap.live), utf8), Meaning(error, old(heap.live), utf8))
  {
    ghost var before := heap.live;
    Pair(before, error, response);
    var message := TakeBuffer(heap, error, utf8);
    MeaningKept(before, error, response, utf8);
    if !ok {
      heap.FreeText(response);
      match message {
        case Absent => return HostFailed(None);
        case Present(m) => return HostFailed(Some(m));
        case _ => return BadBuffer;
      }
    }
    var text := TakeBuffer(heap, response, utf8);
    if message.NullWithLength? || message.NotUtf8? {
      return BadBuffer;
    }
    match text {
      case Absent => r := NoResponse;
      case Present(t) =>
        r := if message.Present? && message.text != [] then UnexpectedError(message.text) else Replied(t);
      case _ => r := BadBuffer;
    }
  }

  lemma Pair(live: Live, a: Slot, b: Slot)
    ensures Take(live, [a, b]) == Then(Take(live, [a]), [b])
  {
    assert [a, b] == [a] + [b];
    TakeConcat(live, [a], [b]);
  }

  /** Releasing one buffer does not change what the other one means. */
  lemma MeaningKept(live: Live, a: Slot, b: Slot, utf8: Utf8Text -> bool)
    requires a.Buf? && b.Buf? && Take(live, [a, b]).Some?
    ensures Take(live, [a]).Some? && Meaning(b, Take(live, [a]).value.rest, utf8) == Meaning(b, live, utf8)
  {
    Pair(live, a, b);
    TakeOne(live, a);
    var less := Take(live, [a]).value.rest;
    TakeOne(less, b);
  }
}
