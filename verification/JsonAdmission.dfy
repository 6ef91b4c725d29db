/**
 * Admission of embedded JSON: a first pass in which a visitor, driven by the decoder,
 * refuses duplicate members and numbers the decoder cannot represent, and a second
 * pass over the same bytes that range-checks integer tokens.
 *
 * `limit` is the decoder's bound on open containers and `finite` its verdict on a
 * token read as a floating-point number.
 */
module JsonAdmission {
  import opened Common
  import opened Utf8
  import opened JsonGrammar
  import opened JsonParser
  import opened JsonScanner

  type Finite = seq<Byte> -> bool

  predicate IntegerInRange(n: Number) {
    IsInteger(n) && ValidNumber(n) && I64_MIN <= IntegerValue(n) <= U64_MAX
  }

  /** The decoder reads integers in range as such and everything else as a float. */
  predicate Decodes(n: Number, finite: Finite) {
    IntegerInRange(n) || finite(TokenOf(n))
  }

  predicate AllDecode(ns: seq<Number>, finite: Finite) {
    forall i :: 0 <= i < |ns| ==> Decodes(ns[i], finite)
  }

  // ----- what one pass of the visitor decides, by tree -----

  predicate OkValue(s: seq<Byte>, d: nat, finite: Finite) {
    var r := ParseValue(s, d);
    r.Some? && Valid(r.value.0) && UniqueKeys(r.value.0) && AllDecode(Numbers(r.value.0), finite)
  }

  predicate OkElems(s: seq<Byte>, d: nat, finite: Finite) {
    var r := ParseElems(s, d);
    r.Some? && ValidElems(r.value.0) && UniqueKeysElems(r.value.0) && AllDecode(NumbersElems(r.value.0), finite)
  }

  predicate Fresh(keys: seq<Text>, seen: set<Text>) {
    Distinct(keys) && forall k :: k in keys ==> k !in seen
  }

  /** As for elements, and no key is among those `seen` or repeated. */
  predicate AdmitMembers(ms: Members, seen: set<Text>, finite: Finite)
    requires ValidMembers(ms)
  {
    Fresh(Keys(ms), seen) && UniqueKeysMembers(ms) && AllDecode(NumbersMembers(ms), finite)
  }

  predicate OkMembers(s: seq<Byte>, d: nat, seen: set<Text>, finite: Finite) {
    var r := ParseMembers(s, d);
    r.Some? && ValidMembers(r.value.0) && AdmitMembers(r.value.0, seen, finite)
  }

  lemma AllDecodeConcat(a: seq<Number>, b: seq<Number>, finite: Finite)
    ensures AllDecode(a + b, finite) <==> AllDecode(a, finite) && AllDecode(b, finite)
  {
    assert forall i :: 0 <= i < |b| ==> (a + b)[|a| + i] == b[i];
    assert forall i :: 0 <= i < |a| ==> (a + b)[i] == a[i];
  }

  lemma StepElems(s: seq<Byte>, d: nat, finite: Finite)
    ensures var r := ParseValue(Span(IsSpace, s).1, d);
            if r.None? then !OkElems(s, d, finite)
            else
              var s3 := Span(IsSpace, r.value.1).1;
              var next := Expect(COMMA, s3);
              if next.None? then
                && OkElems(s, d, finite) == OkValue(Span(IsSpace, s).1, d, finite)
                && (OkElems(s, d, finite) ==> ParseElems(s, d).value.1 == s3)
              else
                && OkElems(s, d, finite) == (OkValue(Span(IsSpace, s).1, d, finite) && OkElems(next.value, d, finite))
                && (OkElems(s, d, finite) ==> ParseElems(s, d).value.1 == ParseElems(next.value, d).value.1)
  {
    SoundElems(s, d);
    var s1 := Span(IsSpace, s).1;
    SoundValue(s1, d);
    var r := ParseValue(s1, d);
    if r.Some? {
      var next := Expect(COMMA, Span(IsSpace, r.value.1).1);
      if next.Some? {
        SoundElems(next.value, d);
        if ParseElems(next.value, d).Some? {
          AllDecodeConcat(Numbers(r.value.0), NumbersElems(ParseElems(next.value, d).value.0), finite);
        }
      } else {
        assert Numbers(r.value.0) + [] == Numbers(r.value.0);
      }
    }
  }

  lemma StepFresh(k: Text, t: seq<Text>, seen: set<Text>)
    ensures Fresh([k] + t, seen) <==> k !in seen && Fresh(t, seen + {k})
  {
    var keys := [k] + t;
    assert forall i :: 0 <= i < |t| ==> t[i] == keys[i + 1];
    assert k == keys[0] && k in keys;
    if k !in seen && Fresh(t, seen + {k}) {
      forall i, j | 0 <= i < j < |keys|
        ensures keys[i] != keys[j]
      {
        assert keys[j] == t[j - 1] && t[j - 1] in t;
      }
    }
  }

  /** One member is accepted: its key is new and its value is admitted. */
  predicate OkMember(s: seq<Byte>, d: nat, seen: set<Text>, finite: Finite) {
    var r := ParseMember(s, d);
    r.Some? && ValidMembers(r.value.0) && AdmitMembers(r.value.0, seen, finite)
  }

  lemma AdmitOne(m: Members, seen: set<Text>, finite: Finite)
    requires m.Member? && ValidMembers(m)
    ensures AdmitMembers(m, seen, finite)
       <==> DecodeChars(m.key.name) !in seen && UniqueKeys(m.v) && AllDecode(Numbers(m.v), finite)
  {
    assert Keys(m) == [DecodeChars(m.key.name)];
    assert NumbersMembers(m) == Numbers(m.v);
  }

  lemma AdmitMore(m: Members, t: Members, seen: set<Text>, finite: Finite)
    requires m.Member? && ValidMembers(m) && ValidMembers(t)
    ensures AdmitMembers(Members.Members(m.key, m.v, m.post, t), seen, finite)
       <==> AdmitMembers(m, seen, finite) && AdmitMembers(t, seen + {DecodeChars(m.key.name)}, finite)
  {
    AdmitOne(m, seen, finite);
    AllDecodeConcat(Numbers(m.v), NumbersMembers(t), finite);
    StepFresh(DecodeChars(m.key.name), Keys(t), seen);
  }

  /** Without an accepted first member nothing is accepted. */
  lemma NoFirstMember(s: seq<Byte>, d: nat, seen: set<Text>, finite: Finite)
    requires !OkMember(s, d, seen, finite)
    ensures !OkMembers(s, d, seen, finite)
  {
    SoundMember(s, d);
    if ParseMember(s, d).Some? {
      var (m, s1) := ParseMember(s, d).value;
      var next := Expect(COMMA, s1);
      if next.Some? {
        SoundMembers(next.value, d);
        var r := ParseMembers(next.value, d);
        if r.Some? {
          AdmitMore(m, r.value.0, seen, finite);
        }
      }
    }
  }

  /** An accepted first member without a comma after it is all there is. */
  lemma LastMember(s: seq<Byte>, d: nat, seen: set<Text>, finite: Finite)
    requires OkMember(s, d, seen, finite) && Expect(COMMA, ParseMember(s, d).value.1).None?
    ensures OkMembers(s, d, seen, finite) && ParseMembers(s, d).value.1 == ParseMember(s, d).value.1
  {
  }

  /** After an accepted first member and a comma, the rest decides, its name being taken. */
  lemma FirstMember(s: seq<Byte>, d: nat, seen: set<Text>, finite: Finite)
    requires OkMember(s, d, seen, finite) && Expect(COMMA, ParseMember(s, d).value.1).Some?
    ensures var (m, s1) := ParseMember(s, d).value;
            var rest := Expect(COMMA, s1).value;
            && OkMembers(s, d, seen, finite) == OkMembers(rest, d, seen + {DecodeChars(m.key.name)}, finite)
            && (OkMembers(s, d, seen, finite) ==> ParseMembers(s, d).value.1 == ParseMembers(rest, d).value.1)
  {
    SoundMember(s, d);
    var (m, s1) := ParseMember(s, d).value;
    var rest := Expect(COMMA, s1).value;
    SoundMembers(rest, d);
    var r := ParseMembers(rest, d);
    if r.Some? {
      AdmitMore(m, r.value.0, seen, finite);
    }
  }

  lemma StepMembers(s: seq<Byte>, d: nat, seen: set<Text>, finite: Finite)
    ensures !OkMember(s, d, seen, finite) ==> !OkMembers(s, d, seen, finite)
    ensures OkMember(s, d, seen, finite) ==>
              var (m, s1) := ParseMember(s, d).value;
              var next := Expect(COMMA, s1);
              if next.None? then
                OkMembers(s, d, seen, finite) && ParseMembers(s, d).value.1 == s1
              else
                && OkMembers(s, d, seen, finite) == OkMembers(next.value, d, seen + {DecodeChars(m.key.name)}, finite)
                && (OkMembers(s, d, seen, finite)
                    ==> ParseMembers(s, d).value.1 == ParseMembers(next.value, d).value.1)
  {
    if !OkMember(s, d, seen, finite) {
      NoFirstMember(s, d, seen, finite);
    } else if Expect(COMMA, ParseMember(s, d).value.1).None? {
      LastMember(s, d, seen, finite);
    } else {
      FirstMember(s, d, seen, finite);
    }
  }

  // ----- the visitor -----

  /** Visit one value; the rest of the input when it is accepted. */
  method VisitValue(s: seq<Byte>, d: nat, finite: Finite) returns (r: Option<seq<Byte>>)
    ensures r.Some? <==> OkValue(s, d, finite)
    ensures r.Some? ==> r.value == ParseValue(s, d).value.1
    decreases |s|, 0
  {
    SoundValue(s, d);
    if s == [] {
      return None;
    }
    if s[0] == OPEN_ARRAY {
      if d == 0 {
        return None;
      }
      r := VisitSeq(s[1..], d - 1, finite);
    } else if s[0] == OPEN_OBJECT {
      if d == 0 {
        return None;
      }
      r := VisitMap(s[1..], d - 1, finite);
    } else {
      r := VisitScalar(s, finite);
    }
  }

  lemma ScalarNumbers(v: Value, finite: Finite)
    requires !v.Arr? && !v.Obj?
    ensures AllDecode(Numbers(v), finite) <==> (v.Num? ==> Decodes(v.n, finite))
  {
    if v.Num? {
      assert Numbers(v) == [v.n] && Numbers(v)[0] == v.n;
    }
  }

  method VisitScalar(s: seq<Byte>, finite: Finite) returns (r: Option<seq<Byte>>)
    requires s != []
    ensures r.Some? <==> ParseScalar(s).Some? && AllDecode(Numbers(ParseScalar(s).value.0), finite)
    ensures r.Some? ==> r.value == ParseScalar(s).value.1
  {
    var p := ParseScalar(s);
    if p.None? {
      return None;
    }
    ScalarNumbers(p.value.0, finite);
    if p.value.0.Num? && !Decodes(p.value.0.n, finite) {
      return None;
    }
    return Some(p.value.1);
  }

  /** Visit the elements after an opening bracket, through the closing one. */
  method VisitSeq(s: seq<Byte>, d: nat, finite: Finite) returns (r: Option<seq<Byte>>)
    ensures r.Some? <==> (var p := ParseArray(s, d);
                          p.Some? && Valid(p.value.0) && UniqueKeys(p.value.0) && AllDecode(Numbers(p.value.0), finite))
    ensures r.Some? ==> r.value == ParseArray(s, d).value.1
    decreases |s|, 2
  {
    SoundArray(s, d);
    SoundElems(s, d);
    r := Expect(CLOSE_ARRAY, Span(IsSpace, s).1);
    if r.Some? {
      return;
    }
    var cur := s;
    var more := true;
    while more
      invariant |cur| <= |s|
      invariant more ==> OkElems(s, d, finite) == OkElems(cur, d, finite)
      invariant more && OkElems(s, d, finite) ==> ParseElems(s, d).value.1 == ParseElems(cur, d).value.1
      invariant !more ==> OkElems(s, d, finite) && ParseElems(s, d).value.1 == cur
      decreases more, |cur|
    {
      StepElems(cur, d, finite);
      var value := VisitValue(Span(IsSpace, cur).1, d, finite);
      if value.None? {
        return None;
      }
      var after := Span(IsSpace, value.value).1;
      var next := Expect(COMMA, after);
      match next {
        case None => cur, more := after, false;
        case Some(t) => cur := t;
      }
    }
    r := Expect(CLOSE_ARRAY, cur);
  }

  /** Visit one member and the white space after it; its key must not be in `keys`. */
  method VisitMember(s: seq<Byte>, d: nat, keys: set<Text>, finite: Finite) returns (r: Option<(Text, seq<Byte>)>)
    ensures r.Some? <==> OkMember(s, d, keys, finite)
    ensures r.Some? ==> var (m, rest) := ParseMember(s, d).value; r.value == (DecodeChars(m.key.name), rest)
    decreases |s|, 1
  {
    SoundMember(s, d);
    SoundKey(s);
    if ParseMember(s, d).Some? {
      AdmitOne(ParseMember(s, d).value.0, keys, finite);
    }
    var k := ParseKey(s);
    if k.None? {
      return None;
    }
    var key := DecodeChars(k.value.0.name);
    if key in keys {
      return None;
    }
    SoundValue(k.value.1, d);
    var value := VisitValue(k.value.1, d, finite);
    if value.None? {
      return None;
    }
    return Some((key, Span(IsSpace, value.value).1));
  }

  /** Visit the members after an opening brace, through the closing one, gathering their keys. */
  method VisitMap(s: seq<Byte>, d: nat, finite: Finite) returns (r: Option<seq<Byte>>)
    ensures r.Some? <==> (var p := ParseObject(s, d);
                          p.Some? && Valid(p.value.0) && UniqueKeys(p.value.0) && AllDecode(Numbers(p.value.0), finite))
    ensures r.Some? ==> r.value == ParseObject(s, d).value.1
    decreases |s|, 3
  {
    SoundObject(s, d);
    SoundMembers(s, d);
    r := Expect(CLOSE_OBJECT, Span(IsSpace, s).1);
    if r.Some? {
      return;
    }
    var keys: set<Text> := {};
    var cur := s;
    var more := true;
    while more
      invariant |cur| <= |s|
      invariant more ==> OkMembers(s, d, {}, finite) == OkMembers(cur, d, keys, finite)
      invariant more && OkMembers(s, d, {}, finite) ==> ParseMembers(s, d).value.1 == ParseMembers(cur, d).value.1
      invariant !more ==> OkMembers(s, d, {}, finite) && ParseMembers(s, d).value.1 == cur
      decreases more, |cur|
    {
      StepMembers(cur, d, keys, finite);
      var member := VisitMember(cur, d, keys, finite);
      if member.None? {
        return None;
      }
      keys := keys + {member.value.0};
      var next := Expect(COMMA, member.value.1);
      match next {
        case None => cur, more := member.value.1, false;
        case Some(t) => cur := t;
      }
    }
    r := Expect(CLOSE_OBJECT, cur);
  }

  // ----- the whole check -----

  /** A number an admitted text may hold. */
  predicate NumberAdmitted(n: Number, finite: Finite) {
    if IsInteger(n) then IntegerInRange(n) else finite(TokenOf(n))
  }

  /** `doc` is the reading of `bytes`, and everything it says is admitted. */
  predicate Admitted(doc: Document, bytes: seq<Byte>, limit: nat, finite: Finite) {
    && ValidDocument(doc) && Render(doc) == bytes && Depth(doc.v) <= limit
    && UniqueKeys(doc.v)
    && forall n :: n in Numbers(doc.v) ==> NumberAdmitted(n, finite)
  }

  lemma {:induction false} NumbersValid(v: Value)
    requires Valid(v)
    ensures forall n :: n in Numbers(v) ==> ValidNumber(n)
    decreases v, 0
  {
    if v.Arr? {
      NumbersValidElems(v.es);
    } else if v.Obj? {
      NumbersValidMembers(v.ms);
    }
  }

  lemma {:induction false} NumbersValidElems(es: Elems)
    requires ValidElems(es)
    ensures forall n :: n in NumbersElems(es) ==> ValidNumber(n)
    decreases es, 1
  {
    NumbersValid(es.v);
    if es.Elems? {
      NumbersValidElems(es.tail);
    }
  }

  lemma {:induction false} NumbersValidMembers(ms: Members)
    requires ValidMembers(ms)
    ensures forall n :: n in NumbersMembers(ms) ==> ValidNumber(n)
    decreases ms, 1
  {
    NumbersValid(ms.v);
    if ms.Members? {
      NumbersValidMembers(ms.tail);
    }
  }

  /** Both passes together decide number admission. */
  lemma PassesTogether(v: Value, finite: Finite)
    requires Valid(v)
    ensures AllDecode(Numbers(v), finite) && (forall t :: t in TokensOf(Numbers(v)) ==> TokenFits(t))
       <==> forall n :: n in Numbers(v) ==> NumberAdmitted(n, finite)
  {
    var ns := Numbers(v);
    NumbersValid(v);
    forall n | n in ns
      ensures NumberAdmitted(n, finite) <==> Decodes(n, finite) && TokenFits(TokenOf(n))
    {
      TokenFitsMeaning(n);
    }
    assert forall i :: 0 <= i < |ns| ==> TokensOf(ns)[i] == TokenOf(ns[i]) && ns[i] in ns;
  }

  /** Accept exactly the texts that have an admitted reading. */
  method Validate(bytes: seq<Byte>, limit: nat, finite: Finite) returns (ok: bool)
    ensures ok <==> exists doc :: Admitted(doc, bytes, limit, finite)
  {
    forall doc | Admitted(doc, bytes, limit, finite)
      ensures ParseDocument(bytes, limit) == Some(doc)
    {
      CompleteDocument(doc, limit);
    }
    SoundDocument(bytes, limit);
    var start := Span(IsSpace, bytes).1;
    SoundValue(start, limit);
    if ParseValue(start, limit).Some? {
      PassesTogether(ParseValue(start, limit).value.0, finite);
    }
    var visited := VisitValue(start, limit, finite);
    if visited.None? {
      return false;
    }
    if Span(IsSpace, visited.value).1 != [] {
      return false;
    }
    ghost var doc := ParseDocument(bytes, limit).value;
    TokensDocument(doc);
    ok := ScanNumbers(bytes);
    assert ok <==> Admitted(doc, bytes, limit, finite);
  }
}
