/**
 * The decoder's reading of a text, left to right and greedy, with a bound on open
 * containers. `ParseDocument` accepts exactly the renderings of syntax trees: the
 * `Sound` lemmas are one half, the `Complete` lemmas the other.
 */
module JsonParser {
  import opened Common
  import opened Utf8
  import opened JsonGrammar

  /** Read the byte `b`. */
  function Expect(b: Byte, s: seq<Byte>): (r: Option<seq<Byte>>)
    ensures r.Some? ==> |r.value| < |s|
  {
    if s != [] && s[0] == b then Some(s[1..]) else None
  }

  // ----- numbers -----

  function ParseFrac(s: seq<Byte>): (r: Option<(Option<seq<Byte>>, seq<Byte>)>)
    ensures r.Some? ==> |r.value.1| <= |s|
  {
    match Expect(DOT, s)
    case None => Some((None, s))
    case Some(s1) =>
      var (f, rest) := Span(IsDigit, s1);
      if f == [] then None else Some((Some(f), rest))
  }

  function ParseExp(s: seq<Byte>): (r: Option<(Option<Exponent>, seq<Byte>)>)
    ensures r.Some? ==> |r.value.1| <= |s|
  {
    if s != [] && IsExponentMark(s[0]) then
      var signed := 1 < |s| && (s[1] == PLUS || s[1] == MINUS);
      var sign := if signed then [s[1]] else [];
      var (digits, rest) := Span(IsDigit, s[1 + |sign|..]);
      if digits == [] then None else Some((Some(Exponent(s[0], sign, digits)), rest))
    else Some((None, s))
  }

  function ParseUnsigned(s: seq<Byte>): (r: Option<(Number, seq<Byte>)>)
    ensures r.Some? ==> |r.value.1| < |s|
  {
    var (whole, s1) := Span(IsDigit, s);
    if whole == [] || (|whole| > 1 && whole[0] == ZERO) then None
    else
      match ParseFrac(s1)
      case None => None
      case Some((frac, s2)) =>
        match ParseExp(s2)
        case None => None
        case Some((exp, s3)) => Some((Number(false, whole, frac, exp), s3))
  }

  function ParseNumber(s: seq<Byte>): (r: Option<(Number, seq<Byte>)>)
    ensures r.Some? ==> |r.value.1| < |s|
  {
    match Expect(MINUS, s)
    case None => ParseUnsigned(s)
    case Some(s1) =>
      match ParseUnsigned(s1)
      case None => None
      case Some((n, rest)) => Some((n.(neg := true), rest))
  }

  // ----- strings -----

  function ParseUnicode(s: seq<Byte>): (r: Option<(seq<Byte>, seq<Byte>)>)
    ensures r.Some? ==> IsHex4(r.value.0) && |r.value.1| < |s|
  {
    if 6 <= |s| && s[0] == BACKSLASH && s[1] == LETTER_U && All(IsHex, s[2..6]) then Some((s[2..6], s[6..]))
    else None
  }

  function ParseChar(s: seq<Byte>): (r: Option<(StrChar, seq<Byte>)>)
    requires s != [] && s[0] != QUOTE
    ensures r.Some? ==> |r.value.1| < |s|
  {
    if s[0] != BACKSLASH then
      match DecodeOne(s)
      case Some((c, rest)) => if c < 0x20 then None else Some((Plain(c), rest))
      case None => None
    else if 2 <= |s| && IsEscape(s[1]) then Some((Escape(s[1]), s[2..]))
    else
      match ParseUnicode(s)
      case None => None
      case Some((hi, rest)) =>
        if !(0xD800 <= Hex4(hi) < 0xE000) then Some((Unicode(hi), rest))
        else
          match ParseUnicode(rest)
          case None => None
          case Some((lo, after)) =>
            if Hex4(hi) < 0xDC00 && 0xDC00 <= Hex4(lo) < 0xE000 then Some((Pair(hi, lo), after))
            else None
  }

  /** Read characters up to and including the closing quote. */
  function ParseChars(s: seq<Byte>): (r: Option<(seq<StrChar>, seq<Byte>)>)
    ensures r.Some? ==> |r.value.1| < |s|
  {
    if s == [] then None
    else if s[0] == QUOTE then Some(([], s[1..]))
    else
      match ParseChar(s)
      case None => None
      case Some((c, s1)) =>
        match ParseChars(s1)
        case None => None
        case Some((cs, rest)) => Some(([c] + cs, rest))
  }

  function ParseString(s: seq<Byte>): (r: Option<(seq<StrChar>, seq<Byte>)>)
    ensures r.Some? ==> |r.value.1| < |s|
  {
    match Expect(QUOTE, s)
    case None => None
    case Some(s1) => ParseChars(s1)
  }

  // ----- values -----

  function ParseLiteral(s: seq<Byte>): (r: Option<(Value, seq<Byte>)>)
    ensures r.Some? ==> |r.value.1| < |s| && !r.value.0.Arr? && !r.value.0.Obj?
  {
    if NULL_TEXT <= s then Some((Null, s[4..]))
    else if TRUE_TEXT <= s then Some((True, s[4..]))
    else if FALSE_TEXT <= s then Some((False, s[5..]))
    else None
  }

  function ParseScalar(s: seq<Byte>): (r: Option<(Value, seq<Byte>)>)
    requires s != []
    ensures r.Some? ==> |r.value.1| < |s| && !r.value.0.Arr? && !r.value.0.Obj?
  {
    if s[0] == QUOTE then
      match ParseString(s)
      case None => None
      case Some((cs, rest)) => Some((Str(cs), rest))
    else if s[0] == MINUS || IsDigit(s[0]) then
      match ParseNumber(s)
      case None => None
      case Some((n, rest)) => Some((Num(n), rest))
    else ParseLiteral(s)
  }

  function ParseValue(s: seq<Byte>, d: nat): (r: Option<(Value, seq<Byte>)>)
    ensures r.Some? ==> |r.value.1| < |s|
    decreases |s|, 0
  {
    if s == [] then None
    else if s[0] == OPEN_ARRAY then
      if d == 0 then None else ParseArray(s[1..], d - 1)
    else if s[0] == OPEN_OBJECT then
      if d == 0 then None else ParseObject(s[1..], d - 1)
    else ParseScalar(s)
  }

  /** Read what follows an opening bracket, through the closing one. */
  function ParseArray(s: seq<Byte>, d: nat): (r: Option<(Value, seq<Byte>)>)
    ensures r.Some? ==> |r.value.1| < |s|
    decreases |s|, 2
  {
    var (space, s1) := Span(IsSpace, s);
    match Expect(CLOSE_ARRAY, s1)
    case Some(rest) => Some((EmptyArr(space), rest))
    case None =>
      match ParseElems(s, d)
      case None => None
      case Some((es, s2)) =>
        match Expect(CLOSE_ARRAY, s2)
        case None => None
        case Some(rest) => Some((Arr(es), rest))
  }

  function ParseElems(s: seq<Byte>, d: nat): (r: Option<(Elems, seq<Byte>)>)
    ensures r.Some? ==> |r.value.1| < |s|
    decreases |s|, 1
  {
    var (pre, s1) := Span(IsSpace, s);
    match ParseValue(s1, d)
    case None => None
    case Some((v, s2)) =>
      var (post, s3) := Span(IsSpace, s2);
      match Expect(COMMA, s3)
      case None => Some((Elem(pre, v, post), s3))
      case Some(s4) =>
        match ParseElems(s4, d)
        case None => None
        case Some((tail, rest)) => Some((Elems.Elems(pre, v, post, tail), rest))
  }

  /** Read what follows an opening brace, through the closing one. */
  function ParseObject(s: seq<Byte>, d: nat): (r: Option<(Value, seq<Byte>)>)
    ensures r.Some? ==> |r.value.1| < |s|
    decreases |s|, 3
  {
    var (space, s1) := Span(IsSpace, s);
    match Expect(CLOSE_OBJECT, s1)
    case Some(rest) => Some((EmptyObj(space), rest))
    case None =>
      match ParseMembers(s, d)
      case None => None
      case Some((ms, s2)) =>
        match Expect(CLOSE_OBJECT, s2)
        case None => None
        case Some(rest) => Some((Obj(ms), rest))
  }

  function ParseKey(s: seq<Byte>): (r: Option<(Key, seq<Byte>)>)
    ensures r.Some? ==> |r.value.1| < |s|
  {
    var (pre, s1) := Span(IsSpace, s);
    match ParseString(s1)
    case None => None
    case Some((name, s2)) =>
      var (mid, s3) := Span(IsSpace, s2);
      match Expect(COLON, s3)
      case None => None
      case Some(s4) =>
        var (gap, rest) := Span(IsSpace, s4);
        Some((Key(pre, name, mid, gap), rest))
  }

  /** One member and the white space after it. */
  function ParseMember(s: seq<Byte>, d: nat): (r: Option<(Members, seq<Byte>)>)
    ensures r.Some? ==> |r.value.1| < |s| && r.value.0.Member?
    decreases |s|, 1
  {
    match ParseKey(s)
    case None => None
    case Some((key, s1)) =>
      match ParseValue(s1, d)
      case None => None
      case Some((v, s2)) =>
        var (post, s3) := Span(IsSpace, s2);
        Some((Member(key, v, post), s3))
  }

  function ParseMembers(s: seq<Byte>, d: nat): (r: Option<(Members, seq<Byte>)>)
    ensures r.Some? ==> |r.value.1| < |s|
    decreases |s|, 2
  {
    match ParseMember(s, d)
    case None => None
    case Some((m, s1)) =>
      match Expect(COMMA, s1)
      case None => Some((m, s1))
      case Some(s2) =>
        match ParseMembers(s2, d)
        case None => None
        case Some((tail, rest)) => Some((Members.Members(m.key, m.v, m.post, tail), rest))
  }

  function ParseDocument(s: seq<Byte>, d: nat): Option<Document> {
    var (pre, s1) := Span(IsSpace, s);
    match ParseValue(s1, d)
    case None => None
    case Some((v, s2)) =>
      var (post, s3) := Span(IsSpace, s2);
      if s3 == [] then Some(Document(pre, v, post)) else None
  }

  // ----- soundness -----

  lemma SoundExpect(b: Byte, s: seq<Byte>)
    ensures Expect(b, s).Some? ==> s == [b] + Expect(b, s).value
  {
  }

  predicate ValidExp(e: Option<Exponent>) {
    ValidNumber(Number(false, [ZERO], None, e))
  }

  predicate ValidFrac(f: Option<seq<Byte>>) {
    f.Some? ==> f.value != [] && All(IsDigit, f.value)
  }

  lemma SoundFrac(s: seq<Byte>)
    ensures var r := ParseFrac(s); r.Some? ==> ValidFrac(r.value.0) && s == PutFrac(r.value.0, r.value.1)
  {
    SoundExpect(DOT, s);
  }

  lemma SoundExp(s: seq<Byte>)
    ensures var r := ParseExp(s); r.Some? ==> ValidExp(r.value.0) && s == PutExp(r.value.0, r.value.1)
  {
    var r := ParseExp(s);
    if r.Some? && r.value.0.Some? {
      var sign := r.value.0.value.sign;
      assert s == [s[0]] + (sign + s[1 + |sign|..]);
    }
  }

  lemma SoundNumber(s: seq<Byte>)
    ensures var r := ParseNumber(s); r.Some? ==> ValidNumber(r.value.0) && s == PutNumber(r.value.0, r.value.1)
  {
    SoundExpect(MINUS, s);
    if Expect(MINUS, s).Some? {
      SoundUnsigned(s[1..]);
    } else {
      SoundUnsigned(s);
    }
  }

  lemma SoundUnsigned(s: seq<Byte>)
    ensures var r := ParseUnsigned(s);
            r.Some? ==> ValidNumber(r.value.0) && !r.value.0.neg && s == PutUnsigned(r.value.0, r.value.1)
  {
    var (whole, s1) := Span(IsDigit, s);
    SoundFrac(s1);
    if ParseFrac(s1).Some? {
      SoundExp(ParseFrac(s1).value.1);
    }
  }

  lemma SoundUnicode(s: seq<Byte>)
    ensures var r := ParseUnicode(s); r.Some? ==> s == [BACKSLASH, LETTER_U] + (r.value.0 + r.value.1)
  {
    if ParseUnicode(s).Some? {
      assert s == [s[0], s[1]] + (s[2..6] + s[6..]);
    }
  }

  lemma SoundChar(s: seq<Byte>)
    requires s != [] && s[0] != QUOTE
    ensures var r := ParseChar(s); r.Some? ==> ValidChar(r.value.0) && s == PutChar(r.value.0, r.value.1)
  {
    SoundUnicode(s);
    if ParseUnicode(s).Some? {
      SoundUnicode(ParseUnicode(s).value.1);
    }
    if 2 <= |s| {
      assert s == [s[0], s[1]] + s[2..];
    }
  }

  lemma {:induction false} SoundChars(s: seq<Byte>)
    ensures var r := ParseChars(s);
            r.Some? ==> ValidChars(r.value.0) && s == PutChars(r.value.0, [QUOTE] + r.value.1)
    decreases |s|
  {
    if s != [] && s[0] != QUOTE {
      SoundChar(s);
      var r := ParseChar(s);
      if r.Some? {
        SoundChars(r.value.1);
        var q := ParseChars(r.value.1);
        if q.Some? {
          assert ([r.value.0] + q.value.0)[1..] == q.value.0;
        }
      }
    } else if s != [] {
      assert s == [s[0]] + s[1..];
    }
  }

  lemma SoundString(s: seq<Byte>)
    ensures var r := ParseString(s); r.Some? ==> ValidChars(r.value.0) && s == PutString(r.value.0, r.value.1)
  {
    SoundExpect(QUOTE, s);
    if Expect(QUOTE, s).Some? {
      SoundChars(s[1..]);
    }
  }

  /** `v` is a tree no deeper than `d`, and `s` is its text followed by `rest`. */
  predicate Reads(s: seq<Byte>, d: nat, v: Value, rest: seq<Byte>) {
    Valid(v) && Depth(v) <= d && s == Put(v, rest)
  }

  lemma SoundLiteral(s: seq<Byte>, d: nat)
    ensures var r := ParseLiteral(s); r.Some? ==> Reads(s, d, r.value.0, r.value.1)
  {
    if NULL_TEXT <= s {
      assert s == NULL_TEXT + s[4..];
    } else if TRUE_TEXT <= s {
      assert s == TRUE_TEXT + s[4..];
    } else if FALSE_TEXT <= s {
      assert s == FALSE_TEXT + s[5..];
    }
  }

  lemma SoundScalar(s: seq<Byte>, d: nat)
    requires s != []
    ensures var r := ParseScalar(s); r.Some? ==> Reads(s, d, r.value.0, r.value.1)
  {
    if s[0] == QUOTE {
      SoundString(s);
    } else if s[0] == MINUS || IsDigit(s[0]) {
      SoundNumber(s);
    } else {
      SoundLiteral(s, d);
    }
  }

  lemma {:induction false} SoundValue(s: seq<Byte>, d: nat)
    ensures var r := ParseValue(s, d); r.Some? ==> Reads(s, d, r.value.0, r.value.1)
    decreases |s|, 0
  {
    if s != [] {
      assert s == [s[0]] + s[1..];
      if s[0] == OPEN_ARRAY && 0 < d {
        SoundArray(s[1..], d - 1);
      } else if s[0] == OPEN_OBJECT && 0 < d {
        SoundObject(s[1..], d - 1);
      } else {
        SoundScalar(s, d);
      }
    }
  }

  lemma {:induction false} SoundArray(s: seq<Byte>, d: nat)
    ensures var r := ParseArray(s, d); r.Some? ==> Reads([OPEN_ARRAY] + s, d + 1, r.value.0, r.value.1)
    decreases |s|, 2
  {
    SoundExpect(CLOSE_ARRAY, Span(IsSpace, s).1);
    SoundElems(s, d);
    var r := ParseElems(s, d);
    if r.Some? {
      SoundExpect(CLOSE_ARRAY, r.value.1);
    }
  }

  lemma {:induction false} SoundElems(s: seq<Byte>, d: nat)
    ensures var r := ParseElems(s, d);
            r.Some? ==> ValidElems(r.value.0) && DepthElems(r.value.0) <= d && s == PutElems(r.value.0, r.value.1)
    decreases |s|, 1
  {
    var s1 := Span(IsSpace, s).1;
    SoundValue(s1, d);
    var r := ParseValue(s1, d);
    if r.Some? {
      var s3 := Span(IsSpace, r.value.1).1;
      SoundExpect(COMMA, s3);
      if Expect(COMMA, s3).Some? {
        SoundElems(s3[1..], d);
      }
    }
  }

  lemma {:induction false} SoundObject(s: seq<Byte>, d: nat)
    ensures var r := ParseObject(s, d); r.Some? ==> Reads([OPEN_OBJECT] + s, d + 1, r.value.0, r.value.1)
    decreases |s|, 3
  {
    SoundExpect(CLOSE_OBJECT, Span(IsSpace, s).1);
    SoundMembers(s, d);
    var r := ParseMembers(s, d);
    if r.Some? {
      SoundExpect(CLOSE_OBJECT, r.value.1);
    }
  }

  lemma SoundKey(s: seq<Byte>)
    ensures var r := ParseKey(s); r.Some? ==> ValidKey(r.value.0) && s == PutKey(r.value.0, r.value.1)
  {
    var s1 := Span(IsSpace, s).1;
    SoundString(s1);
    var r := ParseString(s1);
    if r.Some? {
      SoundExpect(COLON, Span(IsSpace, r.value.1).1);
    }
  }

  /** `ms` is a list of members no deeper than `d`, and `s` is its text followed by `rest`. */
  predicate ReadsMembers(s: seq<Byte>, d: nat, ms: Members, rest: seq<Byte>) {
    ValidMembers(ms) && DepthMembers(ms) <= d && s == PutMembers(ms, rest)
  }

  lemma {:induction false} SoundMember(s: seq<Byte>, d: nat)
    ensures var r := ParseMember(s, d); r.Some? ==> ReadsMembers(s, d, r.value.0, r.value.1)
    decreases |s|, 1
  {
    SoundKey(s);
    var k := ParseKey(s);
    if k.Some? {
      SoundValue(k.value.1, d);
    }
  }

  lemma {:induction false} SoundMembers(s: seq<Byte>, d: nat)
    ensures var r := ParseMembers(s, d); r.Some? ==> ReadsMembers(s, d, r.value.0, r.value.1)
    decreases |s|, 2
  {
    SoundMember(s, d);
    var m := ParseMember(s, d);
    if m.Some? {
      var s1 := m.value.1;
      SoundExpect(COMMA, s1);
      if Expect(COMMA, s1).Some? {
        SoundMembers(s1[1..], d);
      }
    }
  }

  /** Whatever is read is a tree that renders to the text. */
  lemma SoundDocument(s: seq<Byte>, d: nat)
    ensures var r := ParseDocument(s, d);
            r.Some? ==> ValidDocument(r.value) && Depth(r.value.v) <= d && Render(r.value) == s
  {
    var (pre, s1) := Span(IsSpace, s);
    SoundValue(s1, d);
    if ParseDocument(s, d).Some? {
      var s2 := ParseValue(s1, d).value.1;
      var (post, s3) := Span(IsSpace, s2);
      assert s2 == post;
    }
  }

  // ----- completeness -----

  /** What may follow a number: nothing that could be read as part of it. */
  predicate NumberEnds(rest: seq<Byte>) {
    rest == [] || !IsNumberByte(rest[0])
  }

  lemma CompleteExp(e: Option<Exponent>, rest: seq<Byte>)
    requires ValidExp(e) && NumberEnds(rest)
    ensures ParseExp(PutExp(e, rest)) == Some((e, rest))
  {
    if e.Some? {
      var s := PutExp(e, rest);
      var x := e.value;
      var t := x.digits + rest;
      assert s[1..] == x.sign + t;
      assert x.sign == [] ==> s[1..] == t;
      assert s[1 + |x.sign|..] == t;
      SpanUnique(IsDigit, x.digits, rest);
    }
  }

  lemma CompleteFrac(f: Option<seq<Byte>>, rest: seq<Byte>)
    requires f.Some? ==> f.value != [] && All(IsDigit, f.value)
    requires rest == [] || (!IsDigit(rest[0]) && rest[0] != DOT)
    ensures ParseFrac(PutFrac(f, rest)) == Some((f, rest))
  {
    if f.Some? {
      assert PutFrac(f, rest)[1..] == f.value + rest;
      SpanUnique(IsDigit, f.value, rest);
    }
  }

  lemma CompleteUnsigned(n: Number, rest: seq<Byte>)
    requires ValidNumber(n) && NumberEnds(rest)
    ensures ParseUnsigned(PutUnsigned(n, rest)) == Some((n.(neg := false), rest))
  {
    var s2 := PutExp(n.exp, rest);
    SpanUnique(IsDigit, n.whole, PutFrac(n.frac, s2));
    CompleteFrac(n.frac, s2);
    CompleteExp(n.exp, rest);
  }

  lemma CompleteNumber(n: Number, rest: seq<Byte>)
    requires ValidNumber(n) && NumberEnds(rest)
    ensures ParseNumber(PutNumber(n, rest)) == Some((n, rest))
    ensures var s := PutNumber(n, rest); s != [] && (s[0] == MINUS || IsDigit(s[0]))
  {
    CompleteUnsigned(n, rest);
    var s := PutNumber(n, rest);
    if n.neg {
      assert s[1..] == PutUnsigned(n, rest);
    } else {
      assert s[0] == n.whole[0];
    }
  }

  lemma CompleteUnicode(h: seq<Byte>, rest: seq<Byte>)
    requires IsHex4(h)
    ensures ParseUnicode([BACKSLASH, LETTER_U] + (h + rest)) == Some((h, rest))
  {
    var s := [BACKSLASH, LETTER_U] + (h + rest);
    assert s[2..6] == h && s[6..] == rest;
  }

  lemma CompleteChar(c: StrChar, rest: seq<Byte>)
    requires ValidChar(c)
    ensures PutChar(c, rest)[0] != QUOTE
    ensures ParseChar(PutChar(c, rest)) == Some((c, rest))
  {
    var s := PutChar(c, rest);
    match c
    case Plain(p) =>
      assert s[0] == EncodeOne(p)[0];
      DecodeEncodeOne(p, rest);
    case Escape(b) =>
      assert s[2..] == rest;
    case Unicode(h) =>
      CompleteUnicode(h, rest);
    case Pair(hi, lo) =>
      CompleteUnicode(hi, [BACKSLASH, LETTER_U] + (lo + rest));
      CompleteUnicode(lo, rest);
  }

  lemma ParseCharsStep(s: seq<Byte>, c: StrChar, s1: seq<Byte>, cs: seq<StrChar>, rest: seq<Byte>)
    requires s != [] && s[0] != QUOTE && ParseChar(s) == Some((c, s1)) && ParseChars(s1) == Some((cs, rest))
    ensures ParseChars(s) == Some(([c] + cs, rest))
  {
  }

  lemma {:induction false} CompleteChars(cs: seq<StrChar>, rest: seq<Byte>)
    requires ValidChars(cs)
    ensures ParseChars(PutChars(cs, [QUOTE] + rest)) == Some((cs, rest))
  {
    if cs == [] {
      assert ([QUOTE] + rest)[1..] == rest;
    } else {
      var s1 := PutChars(cs[1..], [QUOTE] + rest);
      CompleteChar(cs[0], s1);
      CompleteChars(cs[1..], rest);
      ParseCharsStep(PutChar(cs[0], s1), cs[0], s1, cs[1..], rest);
      assert cs == [cs[0]] + cs[1..];
    }
  }

  lemma CompleteString(cs: seq<StrChar>, rest: seq<Byte>)
    requires ValidChars(cs)
    ensures ParseString(PutString(cs, rest)) == Some((cs, rest))
  {
    assert PutString(cs, rest)[1..] == PutChars(cs, [QUOTE] + rest);
    CompleteChars(cs, rest);
  }

  /** What may follow a value inside a container, after white space. */
  predicate Follows(rest: seq<Byte>) {
    rest != [] && (rest[0] == COMMA || rest[0] == CLOSE_ARRAY || rest[0] == CLOSE_OBJECT)
  }

  lemma CompleteSpace(space: seq<Byte>, rest: seq<Byte>)
    requires All(IsSpace, space)
    ensures rest == [] || !IsSpace(rest[0]) ==> Span(IsSpace, space + rest) == (space, rest)
    ensures rest == [] || Follows(rest) ==> NumberEnds(space + rest)
  {
    if rest == [] || !IsSpace(rest[0]) {
      SpanUnique(IsSpace, space, rest);
    }
    if space == [] {
      assert space + rest == rest;
    } else {
      assert (space + rest)[0] == space[0];
    }
  }

  lemma CompleteExpect(b: Byte, rest: seq<Byte>)
    ensures Expect(b, [b] + rest) == Some(rest)
  {
  }

  /** A value starts with a byte that is neither white space nor a closing bracket. */
  lemma FirstByte(v: Value, rest: seq<Byte>)
    requires Valid(v)
    ensures var s := Put(v, rest); s != [] && !IsSpace(s[0]) && s[0] != CLOSE_ARRAY
  {
    match v
    case Num(n) => assert n.neg || PutNumber(n, rest)[0] == n.whole[0];
    case _ =>
  }

  lemma CompleteLiteral(v: Value, d: nat, rest: seq<Byte>)
    requires v.Null? || v.True? || v.False?
    ensures ParseValue(Put(v, rest), d) == Some((v, rest))
  {
    var s := Put(v, rest);
    if v.False? {
      assert s[5..] == rest;
    } else {
      assert s[4..] == rest;
    }
  }

  lemma CompleteEmpty(v: Value, d: nat, rest: seq<Byte>)
    requires (v.EmptyArr? || v.EmptyObj?) && Valid(v) && 0 < d
    ensures ParseValue(Put(v, rest), d) == Some((v, rest))
  {
    var close := if v.EmptyArr? then CLOSE_ARRAY else CLOSE_OBJECT;
    CompleteSpace(v.space, [close] + rest);
    CompleteExpect(close, rest);
    assert Put(v, rest)[1..] == v.space + ([close] + rest);
  }

  lemma CompleteScalar(v: Value, d: nat, rest: seq<Byte>)
    requires Valid(v) && (v.Str? || (v.Num? && NumberEnds(rest)))
    ensures ParseValue(Put(v, rest), d) == Some((v, rest))
  {
    if v.Num? {
      CompleteNumber(v.n, rest);
    } else {
      CompleteString(v.s, rest);
    }
  }

  lemma EnterArray(s: seq<Byte>, d: nat, v: Value, rest: seq<Byte>)
    requires ParseArray(s, d) == Some((v, rest))
    ensures ParseValue([OPEN_ARRAY] + s, d + 1) == Some((v, rest))
  {
    assert ([OPEN_ARRAY] + s)[1..] == s;
  }

  lemma EnterObject(s: seq<Byte>, d: nat, v: Value, rest: seq<Byte>)
    requires ParseObject(s, d) == Some((v, rest))
    ensures ParseValue([OPEN_OBJECT] + s, d + 1) == Some((v, rest))
  {
    assert ([OPEN_OBJECT] + s)[1..] == s;
  }

  lemma {:induction false} CompleteValue(v: Value, d: nat, rest: seq<Byte>)
    requires Valid(v) && Depth(v) <= d && (v.Num? ==> NumberEnds(rest))
    ensures ParseValue(Put(v, rest), d) == Some((v, rest))
    decreases v, 0
  {
    if v.Arr? {
      CompleteArray(v.es, d - 1, rest);
    } else if v.Obj? {
      CompleteObject(v.ms, d - 1, rest);
    } else if v.Num? || v.Str? {
      CompleteScalar(v, d, rest);
    } else if v.EmptyArr? || v.EmptyObj? {
      CompleteEmpty(v, d, rest);
    } else {
      CompleteLiteral(v, d, rest);
    }
  }

  lemma {:induction false} CompleteArray(es: Elems, d: nat, rest: seq<Byte>)
    requires ValidElems(es) && DepthElems(es) <= d
    ensures ParseValue(Put(Arr(es), rest), d + 1) == Some((Arr(es), rest))
    decreases es, 1
  {
    var t := [CLOSE_ARRAY] + rest;
    var follow := if es.Elem? then t else [COMMA] + PutElems(es.tail, t);
    var s1 := Put(es.v, es.post + follow);
    FirstByte(es.v, es.post + follow);
    CompleteSpace(es.pre, s1);
    CompleteElems(es, d, t);
    CompleteExpect(CLOSE_ARRAY, rest);
    EnterArray(PutElems(es, t), d, Arr(es), rest);
  }

  lemma {:induction false} CompleteElems(es: Elems, d: nat, rest: seq<Byte>)
    requires ValidElems(es) && DepthElems(es) <= d && rest != [] && rest[0] == CLOSE_ARRAY
    ensures ParseElems(PutElems(es, rest), d) == Some((es, rest))
    decreases es, 0
  {
    var follow := if es.Elem? then rest else [COMMA] + PutElems(es.tail, rest);
    var s2 := es.post + follow;
    FirstByte(es.v, s2);
    CompleteSpace(es.pre, Put(es.v, s2));
    CompleteSpace(es.post, follow);
    CompleteValue(es.v, d, s2);
    if es.Elems? {
      CompleteExpect(COMMA, PutElems(es.tail, rest));
      CompleteElems(es.tail, d, rest);
    }
  }

  lemma CompleteKey(k: Key, rest: seq<Byte>)
    requires ValidKey(k) && rest != [] && !IsSpace(rest[0])
    ensures ParseKey(PutKey(k, rest)) == Some((k, rest))
  {
    var s4 := k.gap + rest;
    var s3 := [COLON] + s4;
    CompleteSpace(k.pre, PutString(k.name, k.mid + s3));
    CompleteString(k.name, k.mid + s3);
    CompleteSpace(k.mid, s3);
    CompleteExpect(COLON, s4);
    CompleteSpace(k.gap, rest);
  }

  lemma {:induction false} CompleteObject(ms: Members, d: nat, rest: seq<Byte>)
    requires ValidMembers(ms) && DepthMembers(ms) <= d
    ensures ParseValue(Put(Obj(ms), rest), d + 1) == Some((Obj(ms), rest))
    decreases ms, 2
  {
    var t := [CLOSE_OBJECT] + rest;
    NotEmpty(ms, t);
    CompleteMembers(ms, d, t);
    CompleteExpect(CLOSE_OBJECT, rest);
    EnterObject(PutMembers(ms, t), d, Obj(ms), rest);
  }

  lemma NotEmpty(ms: Members, rest: seq<Byte>)
    requires ValidMembers(ms)
    ensures Expect(CLOSE_OBJECT, Span(IsSpace, PutMembers(ms, rest)).1) == None
  {
    var follow := if ms.Member? then rest else [COMMA] + PutMembers(ms.tail, rest);
    var value := Put(ms.v, ms.post + follow);
    CompleteSpace(ms.key.pre, PutString(ms.key.name, ms.key.mid + ([COLON] + (ms.key.gap + value))));
  }

  lemma {:induction false} CompleteMember(key: Key, v: Value, post: seq<Byte>, d: nat, follow: seq<Byte>)
    requires ValidKey(key) && Valid(v) && All(IsSpace, post) && Depth(v) <= d && Follows(follow)
    ensures ParseMember(PutKey(key, Put(v, post + follow)), d) == Some((Member(key, v, post), follow))
    decreases v, 1
  {
    var s2 := post + follow;
    FirstByte(v, s2);
    CompleteKey(key, Put(v, s2));
    CompleteSpace(post, follow);
    CompleteValue(v, d, s2);
  }

  lemma {:induction false} CompleteMembers(ms: Members, d: nat, rest: seq<Byte>)
    requires ValidMembers(ms) && DepthMembers(ms) <= d && rest != [] && rest[0] == CLOSE_OBJECT
    ensures ParseMembers(PutMembers(ms, rest), d) == Some((ms, rest))
    decreases ms, 1
  {
    if ms.Member? {
      CompleteMember(ms.key, ms.v, ms.post, d, rest);
    } else {
      CompleteMember(ms.key, ms.v, ms.post, d, [COMMA] + PutMembers(ms.tail, rest));
      CompleteExpect(COMMA, PutMembers(ms.tail, rest));
      CompleteMembers(ms.tail, d, rest);
    }
  }

  /** Reading a rendered tree gives that tree back: a text has one syntax tree. */
  lemma CompleteDocument(doc: Document, d: nat)
    requires ValidDocument(doc) && Depth(doc.v) <= d
    ensures ParseDocument(Render(doc), d) == Some(doc)
  {
    FirstByte(doc.v, doc.post);
    CompleteSpace(doc.pre, Put(doc.v, doc.post));
    assert doc.post + [] == doc.post;
    CompleteSpace(doc.post, []);
    CompleteValue(doc.v, d, doc.post);
  }
}
