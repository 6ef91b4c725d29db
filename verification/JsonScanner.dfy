/**
 * The byte scanner that runs after a text has been proved to be JSON. It has no
 * grammar: it skips strings, isolates runs of number bytes and steps over all else,
 * and it never checks a bound inside a string. On the text of a syntax tree it sees
 * exactly the tree's number tokens, in order.
 */
module JsonScanner {
  import opened Common
  import opened Utf8
  import opened JsonGrammar
  import opened JsonParser

  const I64_MIN := -0x8000_0000_0000_0000
  const U64_MAX := 0xFFFF_FFFF_FFFF_FFFF

  /** What is left after the closing quote; `None` when the scan would run off the end. */
  function SkipString(s: seq<Byte>): Option<seq<Byte>> {
    if s == [] then None
    else if s[0] == QUOTE then Some(s[1..])
    else if s[0] == BACKSLASH then (if |s| < 2 then None else SkipString(s[2..]))
    else SkipString(s[1..])
  }

  predicate StartsNumber(b: Byte) {
    b == MINUS || IsDigit(b)
  }

  lemma SkipShrinks(s: seq<Byte>)
    ensures SkipString(s).Some? ==> |SkipString(s).value| < |s|
  {
  }

  function Prepend(ts: seq<seq<Byte>>, o: Option<seq<seq<Byte>>>): Option<seq<seq<Byte>>> {
    if o.None? then None else Some(ts + o.value)
  }

  /** The tokens the scanner isolates from `s`; `None` when it would run off the end. */
  function Tokens(s: seq<Byte>): Option<seq<seq<Byte>>>
    decreases |s|
  {
    if s == [] then Some([])
    else if s[0] == QUOTE then
      SkipShrinks(s[1..]);
      var rest := SkipString(s[1..]);
      if rest.None? then None else Tokens(rest.value)
    else if StartsNumber(s[0]) then
      var (t, rest) := Span(IsNumberByte, s);
      Prepend([t], Tokens(rest))
    else Tokens(s[1..])
  }

  // ----- on the text of a tree -----

  predicate Ordinary(b: Byte) {
    b != QUOTE && b != BACKSLASH
  }

  lemma {:induction false} SkipOrdinary(a: seq<Byte>, rest: seq<Byte>)
    requires All(Ordinary, a)
    ensures SkipString(a + rest) == SkipString(rest)
  {
    if a == [] {
      assert a + rest == rest;
    } else {
      assert (a + rest)[1..] == a[1..] + rest;
      SkipOrdinary(a[1..], rest);
    }
  }

  lemma SkipEscape(b: Byte, rest: seq<Byte>)
    ensures SkipString([BACKSLASH, b] + rest) == SkipString(rest)
  {
    assert ([BACKSLASH, b] + rest)[2..] == rest;
  }

  lemma SkipChar(c: StrChar, rest: seq<Byte>)
    requires ValidChar(c)
    ensures SkipString(PutChar(c, rest)) == SkipString(rest)
  {
    match c
    case Plain(p) =>
      SkipOrdinary(EncodeOne(p), rest);
    case Escape(b) =>
      SkipEscape(b, rest);
    case Unicode(h) =>
      SkipEscape(LETTER_U, h + rest);
      SkipOrdinary(h, rest);
    case Pair(hi, lo) =>
      var after := [BACKSLASH, LETTER_U] + (lo + rest);
      SkipEscape(LETTER_U, hi + after);
      SkipOrdinary(hi, after);
      SkipEscape(LETTER_U, lo + rest);
      SkipOrdinary(lo, rest);
  }

  lemma {:induction false} SkipChars(cs: seq<StrChar>, rest: seq<Byte>)
    requires ValidChars(cs)
    ensures SkipString(PutChars(cs, [QUOTE] + rest)) == Some(rest)
  {
    if cs == [] {
      assert ([QUOTE] + rest)[1..] == rest;
    } else {
      SkipChar(cs[0], PutChars(cs[1..], [QUOTE] + rest));
      SkipChars(cs[1..], rest);
    }
  }

  lemma TokensString(cs: seq<StrChar>, rest: seq<Byte>)
    requires ValidChars(cs)
    ensures Tokens(PutString(cs, rest)) == Tokens(rest)
  {
    assert PutString(cs, rest)[1..] == PutChars(cs, [QUOTE] + rest);
    SkipChars(cs, rest);
  }

  predicate Passive(b: Byte) {
    b != QUOTE && !StartsNumber(b)
  }

  lemma {:induction false} TokensPassive(a: seq<Byte>, rest: seq<Byte>)
    requires All(Passive, a)
    ensures Tokens(a + rest) == Tokens(rest)
  {
    if a == [] {
      assert a + rest == rest;
    } else {
      assert (a + rest)[1..] == a[1..] + rest;
      TokensPassive(a[1..], rest);
    }
  }

  /** The token a number is written as. */
  function TokenOf(n: Number): seq<Byte> {
    PutNumber(n, [])
  }

  lemma Concat(a: seq<Byte>, b: seq<Byte>, rest: seq<Byte>)
    ensures a + (b + rest) == (a + b) + rest
    ensures All(IsNumberByte, a) && All(IsNumberByte, b) ==> All(IsNumberByte, a + b)
  {
  }

  lemma ExpText(e: Option<Exponent>, rest: seq<Byte>)
    requires ValidExp(e)
    ensures PutExp(e, rest) == PutExp(e, []) + rest && All(IsNumberByte, PutExp(e, []))
  {
    if e.Some? {
      var x := e.value;
      assert x.digits + [] == x.digits;
      Concat(x.sign, x.digits, rest);
      Concat([x.mark], x.sign + x.digits, rest);
    } else {
      assert [] + rest == rest;
    }
  }

  lemma FracText(f: Option<seq<Byte>>, a: seq<Byte>, rest: seq<Byte>)
    requires ValidFrac(f) && All(IsNumberByte, a)
    ensures PutFrac(f, a + rest) == PutFrac(f, a) + rest && All(IsNumberByte, PutFrac(f, a))
  {
    if f.Some? {
      Concat(f.value, a, rest);
      Concat([DOT], f.value + a, rest);
    }
  }

  lemma NumberText(n: Number, rest: seq<Byte>)
    requires ValidNumber(n)
    ensures PutNumber(n, rest) == TokenOf(n) + rest
    ensures All(IsNumberByte, TokenOf(n)) && TokenOf(n) != [] && StartsNumber(TokenOf(n)[0])
  {
    var exp := PutExp(n.exp, []);
    ExpText(n.exp, rest);
    FracText(n.frac, exp, rest);
    var frac := PutFrac(n.frac, exp);
    Concat(n.whole, frac, rest);
    if n.neg {
      Concat([MINUS], n.whole + frac, rest);
    } else {
      assert TokenOf(n)[0] == n.whole[0];
    }
  }

  lemma TokensNumber(n: Number, rest: seq<Byte>)
    requires ValidNumber(n) && NumberEnds(rest)
    ensures Tokens(PutNumber(n, rest)) == Prepend([TokenOf(n)], Tokens(rest))
  {
    NumberText(n, rest);
    SpanUnique(IsNumberByte, TokenOf(n), rest);
  }

  function TokensOf(ns: seq<Number>): seq<seq<Byte>> {
    seq(|ns|, i requires 0 <= i < |ns| => TokenOf(ns[i]))
  }

  lemma TokensOfConcat(a: seq<Number>, b: seq<Number>, o: Option<seq<seq<Byte>>>)
    ensures Prepend(TokensOf(a), Prepend(TokensOf(b), o)) == Prepend(TokensOf(a + b), o)
    ensures Prepend(TokensOf([]), o) == o
  {
    assert TokensOf(a + b) == TokensOf(a) + TokensOf(b);
    if o.Some? {
      assert TokensOf(a) + (TokensOf(b) + o.value) == TokensOf(a + b) + o.value;
      assert TokensOf([]) + o.value == o.value;
    }
  }

  lemma TokensScalar(v: Value, rest: seq<Byte>)
    requires Valid(v) && !v.Arr? && !v.Obj? && (v.Num? ==> NumberEnds(rest))
    ensures Tokens(Put(v, rest)) == Prepend(TokensOf(Numbers(v)), Tokens(rest))
  {
    TokensOfConcat([], [], Tokens(rest));
    match v
    case Num(n) =>
      TokensNumber(n, rest);
      assert TokensOf([n]) == [TokenOf(n)];
    case Str(cs) => TokensString(cs, rest);
    case EmptyArr(space) =>
      TokensPassive([OPEN_ARRAY], space + ([CLOSE_ARRAY] + rest));
      TokensPassive(space, [CLOSE_ARRAY] + rest);
      TokensPassive([CLOSE_ARRAY], rest);
    case EmptyObj(space) =>
      TokensPassive([OPEN_OBJECT], space + ([CLOSE_OBJECT] + rest));
      TokensPassive(space, [CLOSE_OBJECT] + rest);
      TokensPassive([CLOSE_OBJECT], rest);
    case Null => TokensPassive(NULL_TEXT, rest);
    case True => TokensPassive(TRUE_TEXT, rest);
    case False => TokensPassive(FALSE_TEXT, rest);
  }

  /** The scanner isolates the number tokens of a value and nothing else. */
  lemma {:induction false} TokensValue(v: Value, rest: seq<Byte>)
    requires Valid(v) && (v.Num? ==> NumberEnds(rest))
    ensures Tokens(Put(v, rest)) == Prepend(TokensOf(Numbers(v)), Tokens(rest))
    decreases v, 0
  {
    if v.Arr? {
      var t := [CLOSE_ARRAY] + rest;
      TokensPassive([OPEN_ARRAY], PutElems(v.es, t));
      TokensElems(v.es, t);
      TokensPassive([CLOSE_ARRAY], rest);
    } else if v.Obj? {
      var t := [CLOSE_OBJECT] + rest;
      TokensPassive([OPEN_OBJECT], PutMembers(v.ms, t));
      TokensMembers(v.ms, t);
      TokensPassive([CLOSE_OBJECT], rest);
    } else {
      TokensScalar(v, rest);
    }
  }

  lemma {:induction false} TokensElems(es: Elems, rest: seq<Byte>)
    requires ValidElems(es) && Follows(rest)
    ensures Tokens(PutElems(es, rest)) == Prepend(TokensOf(NumbersElems(es)), Tokens(rest))
    decreases es, 1
  {
    var follow := if es.Elem? then rest else [COMMA] + PutElems(es.tail, rest);
    TokensPassive(es.pre, Put(es.v, es.post + follow));
    CompleteSpace(es.post, follow);
    TokensValue(es.v, es.post + follow);
    TokensPassive(es.post, follow);
    if es.Elem? {
      assert Numbers(es.v) + [] == Numbers(es.v);
    } else {
      TokensPassive([COMMA], PutElems(es.tail, rest));
      TokensElems(es.tail, rest);
      TokensOfConcat(Numbers(es.v), NumbersElems(es.tail), Tokens(rest));
    }
  }

  lemma TokensKey(k: Key, rest: seq<Byte>)
    requires ValidKey(k)
    ensures Tokens(PutKey(k, rest)) == Tokens(rest)
  {
    var s3 := [COLON] + (k.gap + rest);
    TokensPassive(k.pre, PutString(k.name, k.mid + s3));
    TokensString(k.name, k.mid + s3);
    TokensPassive(k.mid, s3);
    TokensPassive([COLON], k.gap + rest);
    TokensPassive(k.gap, rest);
  }

  lemma {:induction false} TokensMembers(ms: Members, rest: seq<Byte>)
    requires ValidMembers(ms) && Follows(rest)
    ensures Tokens(PutMembers(ms, rest)) == Prepend(TokensOf(NumbersMembers(ms)), Tokens(rest))
    decreases ms, 1
  {
    var follow := if ms.Member? then rest else [COMMA] + PutMembers(ms.tail, rest);
    TokensKey(ms.key, Put(ms.v, ms.post + follow));
    CompleteSpace(ms.post, follow);
    TokensValue(ms.v, ms.post + follow);
    TokensPassive(ms.post, follow);
    if ms.Member? {
      assert Numbers(ms.v) + [] == Numbers(ms.v);
    } else {
      TokensPassive([COMMA], PutMembers(ms.tail, rest));
      TokensMembers(ms.tail, rest);
      TokensOfConcat(Numbers(ms.v), NumbersMembers(ms.tail), Tokens(rest));
    }
  }

  /** On a whole text the scan stays in bounds and yields the document's number tokens in order. */
  lemma TokensDocument(doc: Document)
    requires ValidDocument(doc)
    ensures Tokens(Render(doc)) == Some(TokensOf(Numbers(doc.v)))
  {
    assert doc.post + [] == doc.post;
    CompleteSpace(doc.post, []);
    TokensPassive(doc.pre, Put(doc.v, doc.post));
    TokensValue(doc.v, doc.post);
    TokensPassive(doc.post, []);
    assert TokensOf(Numbers(doc.v)) + [] == TokensOf(Numbers(doc.v));
  }

  // ----- the range check -----

  function Decimal(digits: seq<Byte>): int
    requires All(IsDigit, digits)
  {
    if digits == [] then 0 else Decimal(digits[..|digits| - 1]) * 10 + (digits[|digits| - 1] - ZERO)
  }

  predicate HasFractionByte(t: seq<Byte>) {
    exists i :: 0 <= i < |t| && (t[i] == DOT || IsExponentMark(t[i]))
  }

  /** Does `t`, a sign and digits, parse as a 64-bit signed integer? */
  predicate FitsSigned(t: seq<Byte>) {
    1 < |t| && t[0] == MINUS && All(IsDigit, t[1..]) && I64_MIN <= -Decimal(t[1..])
  }

  /** Does `t`, digits only, parse as a 64-bit unsigned integer? */
  predicate FitsUnsigned(t: seq<Byte>) {
    t != [] && All(IsDigit, t) && Decimal(t) <= U64_MAX
  }

  /** The scanner's verdict on one token. */
  predicate TokenFits(t: seq<Byte>) {
    HasFractionByte(t) || if t != [] && t[0] == MINUS then FitsSigned(t) else FitsUnsigned(t)
  }

  predicate IsInteger(n: Number) {
    n.frac.None? && n.exp.None?
  }

  function IntegerValue(n: Number): int
    requires ValidNumber(n)
  {
    if n.neg then -Decimal(n.whole) else Decimal(n.whole)
  }

  lemma {:induction false} DecimalNonNegative(digits: seq<Byte>)
    requires All(IsDigit, digits)
    ensures 0 <= Decimal(digits)
  {
    if digits != [] {
      DecimalNonNegative(digits[..|digits| - 1]);
    }
  }

  lemma IntegerToken(n: Number)
    requires ValidNumber(n) && IsInteger(n)
    ensures TokenOf(n) == (if n.neg then [MINUS] + n.whole else n.whole)
    ensures !HasFractionByte(TokenOf(n))
  {
    assert n.whole + [] == n.whole;
  }

  lemma FractionToken(n: Number)
    requires ValidNumber(n) && !IsInteger(n)
    ensures HasFractionByte(TokenOf(n))
  {
    var tail := PutFrac(n.frac, PutExp(n.exp, []));
    assert tail[0] == DOT || IsExponentMark(tail[0]);
    var i := |n.whole| + if n.neg then 1 else 0;
    assert TokenOf(n)[i] == tail[0];
  }

  /** The token check is the range check on the number's value. */
  lemma TokenFitsMeaning(n: Number)
    requires ValidNumber(n)
    ensures TokenFits(TokenOf(n)) <==> (IsInteger(n) ==> I64_MIN <= IntegerValue(n) <= U64_MAX)
  {
    DecimalNonNegative(n.whole);
    if IsInteger(n) {
      IntegerToken(n);
      assert n.neg ==> TokenOf(n)[1..] == n.whole;
    } else {
      FractionToken(n);
    }
  }

  /** Step over a string whose opening quote is at `start - 1`. */
  method StringEnd(bytes: seq<Byte>, start: nat) returns (index: nat)
    requires start <= |bytes| && SkipString(bytes[start..]).Some?
    ensures start < index <= |bytes| && Some(bytes[index..]) == SkipString(bytes[start..])
  {
    index := start;
    while bytes[index] != QUOTE
      invariant start <= index < |bytes|
      invariant SkipString(bytes[index..]) == SkipString(bytes[start..])
      decreases |bytes| - index
    {
      ghost var s := bytes[index..];
      assert s[1..] == bytes[index + 1..];
      assert |s| >= 2 ==> s[2..] == bytes[index + 2..];
      if bytes[index] == BACKSLASH {
        index := index + 1;
      }
      index := index + 1;
    }
    assert bytes[index..][1..] == bytes[index + 1..];
    index := index + 1;
  }

  /** Step over the run of number bytes at `start`. */
  method NumberEnd(bytes: seq<Byte>, start: nat) returns (index: nat)
    requires start <= |bytes|
    ensures start <= index <= |bytes| && (bytes[start..index], bytes[index..]) == Span(IsNumberByte, bytes[start..])
  {
    index := start;
    ghost var (tok, rest) := Span(IsNumberByte, bytes[start..]);
    ghost var end := start + |tok|;
    assert tok == bytes[start..end] && rest == bytes[end..];
    assert forall i :: start <= i < end ==> bytes[i] == tok[i - start];
    assert end < |bytes| ==> bytes[end] == rest[0];
    while index < |bytes| && IsNumberByte(bytes[index])
      invariant start <= index <= end
    {
      index := index + 1;
    }
  }

  /** The scan: on a text it can read to the end, it accepts when every token fits. */
  method ScanNumbers(bytes: seq<Byte>) returns (ok: bool)
    requires Tokens(bytes).Some?
    ensures ok <==> forall t :: t in Tokens(bytes).value ==> TokenFits(t)
  {
    var index := 0;
    assert bytes[0..] == bytes;
    while index < |bytes|
      invariant 0 <= index <= |bytes| && Tokens(bytes[index..]).Some?
      invariant forall t :: t in Tokens(bytes).value ==> TokenFits(t) || t in Tokens(bytes[index..]).value
      invariant forall t :: t in Tokens(bytes[index..]).value ==> t in Tokens(bytes).value
    {
      ghost var here := bytes[index..];
      assert here[1..] == bytes[index + 1..];
      if bytes[index] == QUOTE {
        index := StringEnd(bytes, index + 1);
      } else if StartsNumber(bytes[index]) {
        var start := index;
        index := NumberEnd(bytes, start);
        var token := bytes[start..index];
        assert Tokens(here) == Prepend([token], Tokens(bytes[index..]));
        assert token in Tokens(here).value;
        if !TokenFits(token) {
          return false;
        }
      } else {
        index := index + 1;
      }
    }
    return true;
  }
}
