/**
 * JSON texts as concrete syntax trees, after RFC 8259: every byte of a text, white
 * space and spelling of escapes included, is recorded in the tree, so that the tree
 * gives back the text exactly. Sections 4 (objects), 6 (numbers) and 7 (strings).
 *
 * `Put(x, rest)` is the text of `x` followed by `rest`; writing what follows as an
 * argument keeps every concatenation nested to the right.
 */
module JsonGrammar {
  import opened Common
  import opened Utf8

  const QUOTE: Byte := 0x22
  const BACKSLASH: Byte := 0x5C
  const COMMA: Byte := 0x2C
  const COLON: Byte := 0x3A
  const DOT: Byte := 0x2E
  const PLUS: Byte := 0x2B
  const MINUS: Byte := 0x2D
  const ZERO: Byte := 0x30
  const LETTER_U: Byte := 0x75
  const OPEN_ARRAY: Byte := 0x5B
  const CLOSE_ARRAY: Byte := 0x5D
  const OPEN_OBJECT: Byte := 0x7B
  const CLOSE_OBJECT: Byte := 0x7D
  const NULL_TEXT: seq<Byte> := [0x6E, 0x75, 0x6C, 0x6C]
  const TRUE_TEXT: seq<Byte> := [0x74, 0x72, 0x75, 0x65]
  const FALSE_TEXT: seq<Byte> := [0x66, 0x61, 0x6C, 0x73, 0x65]

  predicate IsSpace(b: Byte) {
    b == 0x20 || b == 0x09 || b == 0x0A || b == 0x0D
  }

  predicate IsExponentMark(b: Byte) {
    b == 0x65 || b == 0x45
  }

  /** The bytes a number token may be made of. */
  predicate IsNumberByte(b: Byte) {
    IsDigit(b) || b == MINUS || b == PLUS || b == DOT || IsExponentMark(b)
  }

  predicate IsHex(b: Byte) {
    IsDigit(b) || 0x41 <= b <= 0x46 || 0x61 <= b <= 0x66
  }

  predicate All(p: Byte -> bool, s: seq<Byte>) {
    forall i :: 0 <= i < |s| ==> p(s[i])
  }

  // ----- numbers -----

  datatype Exponent = Exponent(mark: Byte, sign: seq<Byte>, digits: seq<Byte>)

  datatype Number = Number(neg: bool, whole: seq<Byte>, frac: Option<seq<Byte>>, exp: Option<Exponent>)

  predicate ValidNumber(n: Number) {
    && n.whole != [] && All(IsDigit, n.whole) && (|n.whole| == 1 || n.whole[0] != ZERO)
    && (n.frac.Some? ==> n.frac.value != [] && All(IsDigit, n.frac.value))
    && (n.exp.Some? ==>
          && IsExponentMark(n.exp.value.mark)
          && (n.exp.value.sign == [] || n.exp.value.sign == [PLUS] || n.exp.value.sign == [MINUS])
          && n.exp.value.digits != [] && All(IsDigit, n.exp.value.digits))
  }

  function PutFrac(f: Option<seq<Byte>>, rest: seq<Byte>): seq<Byte> {
    if f.None? then rest else [DOT] + (f.value + rest)
  }

  function PutExp(e: Option<Exponent>, rest: seq<Byte>): seq<Byte> {
    if e.None? then rest else [e.value.mark] + (e.value.sign + (e.value.digits + rest))
  }

  /** The whole part, fraction and exponent. */
  function PutUnsigned(n: Number, rest: seq<Byte>): (r: seq<Byte>)
    ensures |rest| + |n.whole| <= |r|
  {
    n.whole + PutFrac(n.frac, PutExp(n.exp, rest))
  }

  function PutNumber(n: Number, rest: seq<Byte>): (r: seq<Byte>)
    ensures |rest| + |n.whole| <= |r|
  {
    if n.neg then [MINUS] + PutUnsigned(n, rest) else PutUnsigned(n, rest)
  }

  // ----- strings -----

  /** One character of a string, as it is spelled. */
  datatype StrChar =
    | Plain(c: CodePoint)
    | Escape(b: Byte)
    | Unicode(h: seq<Byte>)
    | Pair(hi: seq<Byte>, lo: seq<Byte>)

  function HexDigit(b: Byte): (r: int)
    requires IsHex(b)
    ensures 0 <= r < 16
  {
    if IsDigit(b) then b - 0x30 else if b <= 0x46 then b - 0x37 else b - 0x57
  }

  predicate IsHex4(h: seq<Byte>) {
    |h| == 4 && All(IsHex, h)
  }

  function Hex4(h: seq<Byte>): (r: int)
    requires IsHex4(h)
    ensures 0 <= r < 0x10000
  {
    ((HexDigit(h[0]) * 16 + HexDigit(h[1])) * 16 + HexDigit(h[2])) * 16 + HexDigit(h[3])
  }

  predicate IsEscape(b: Byte) {
    b in {0x22, 0x5C, 0x2F, 0x62, 0x66, 0x6E, 0x72, 0x74}
  }

  predicate ValidChar(c: StrChar) {
    match c
    case Plain(p) => 0x20 <= p && p != QUOTE && p != BACKSLASH
    case Escape(b) => IsEscape(b)
    case Unicode(h) => IsHex4(h) && !(0xD800 <= Hex4(h) < 0xE000)
    case Pair(hi, lo) => IsHex4(hi) && IsHex4(lo) && 0xD800 <= Hex4(hi) < 0xDC00 && 0xDC00 <= Hex4(lo) < 0xE000
  }

  predicate ValidChars(s: seq<StrChar>) {
    forall i :: 0 <= i < |s| ==> ValidChar(s[i])
  }

  function DecodeChar(c: StrChar): CodePoint
    requires ValidChar(c)
  {
    match c
    case Plain(p) => p
    case Escape(b) =>
      if b == 0x62 then 8 else if b == 0x66 then 12 else if b == 0x6E then 10
      else if b == 0x72 then 13 else if b == 0x74 then 9 else b
    case Unicode(h) => Hex4(h)
    case Pair(hi, lo) => 0x10000 + (Hex4(hi) - 0xD800) * 0x400 + (Hex4(lo) - 0xDC00)
  }

  /** What a string denotes: two spellings of one key are the same key. */
  function DecodeChars(s: seq<StrChar>): Text
    requires ValidChars(s)
  {
    seq(|s|, i requires 0 <= i < |s| => DecodeChar(s[i]))
  }

  function PutChar(c: StrChar, rest: seq<Byte>): (r: seq<Byte>)
    ensures |rest| < |r|
  {
    match c
    case Plain(p) => EncodeOne(p) + rest
    case Escape(b) => [BACKSLASH, b] + rest
    case Unicode(h) => [BACKSLASH, LETTER_U] + (h + rest)
    case Pair(hi, lo) => [BACKSLASH, LETTER_U] + (hi + ([BACKSLASH, LETTER_U] + (lo + rest)))
  }

  function PutChars(s: seq<StrChar>, rest: seq<Byte>): (r: seq<Byte>)
    ensures |rest| <= |r|
  {
    if s == [] then rest else PutChar(s[0], PutChars(s[1..], rest))
  }

  function PutString(s: seq<StrChar>, rest: seq<Byte>): (r: seq<Byte>)
    ensures |rest| < |r|
  {
    [QUOTE] + PutChars(s, [QUOTE] + rest)
  }

  // ----- values -----

  datatype Value =
    | Null
    | True
    | False
    | Num(n: Number)
    | Str(s: seq<StrChar>)
    | EmptyArr(space: seq<Byte>)
    | Arr(es: Elems)
    | EmptyObj(space: seq<Byte>)
    | Obj(ms: Members)

  datatype Elems =
    | Elem(pre: seq<Byte>, v: Value, post: seq<Byte>)
    | Elems(pre: seq<Byte>, v: Value, post: seq<Byte>, tail: Elems)

  /** A member up to its value: white space, the name, white space, a colon, white space. */
  datatype Key = Key(pre: seq<Byte>, name: seq<StrChar>, mid: seq<Byte>, gap: seq<Byte>)

  datatype Members =
    | Member(key: Key, v: Value, post: seq<Byte>)
    | Members(key: Key, v: Value, post: seq<Byte>, tail: Members)

  /** A whole text: one value with white space around it and nothing else. */
  datatype Document = Document(pre: seq<Byte>, v: Value, post: seq<Byte>)

  predicate Valid(v: Value) {
    match v
    case Num(n) => ValidNumber(n)
    case Str(s) => ValidChars(s)
    case EmptyArr(space) => All(IsSpace, space)
    case Arr(es) => ValidElems(es)
    case EmptyObj(space) => All(IsSpace, space)
    case Obj(ms) => ValidMembers(ms)
    case _ => true
  }

  predicate ValidElems(es: Elems) {
    All(IsSpace, es.pre) && Valid(es.v) && All(IsSpace, es.post) && (es.Elems? ==> ValidElems(es.tail))
  }

  predicate ValidKey(k: Key) {
    All(IsSpace, k.pre) && ValidChars(k.name) && All(IsSpace, k.mid) && All(IsSpace, k.gap)
  }

  predicate ValidMembers(ms: Members) {
    ValidKey(ms.key) && Valid(ms.v) && All(IsSpace, ms.post) && (ms.Members? ==> ValidMembers(ms.tail))
  }

  predicate ValidDocument(d: Document) {
    All(IsSpace, d.pre) && Valid(d.v) && All(IsSpace, d.post)
  }

  function Put(v: Value, rest: seq<Byte>): (r: seq<Byte>)
    ensures |rest| <= |r| && (!v.Num? ==> |rest| < |r|)
    decreases v
  {
    match v
    case Null => NULL_TEXT + rest
    case True => TRUE_TEXT + rest
    case False => FALSE_TEXT + rest
    case Num(n) => PutNumber(n, rest)
    case Str(s) => PutString(s, rest)
    case EmptyArr(space) => [OPEN_ARRAY] + (space + ([CLOSE_ARRAY] + rest))
    case Arr(es) => [OPEN_ARRAY] + PutElems(es, [CLOSE_ARRAY] + rest)
    case EmptyObj(space) => [OPEN_OBJECT] + (space + ([CLOSE_OBJECT] + rest))
    case Obj(ms) => [OPEN_OBJECT] + PutMembers(ms, [CLOSE_OBJECT] + rest)
  }

  function PutElems(es: Elems, rest: seq<Byte>): (r: seq<Byte>)
    ensures |rest| <= |r|
    decreases es
  {
    es.pre + Put(es.v, es.post + if es.Elem? then rest else [COMMA] + PutElems(es.tail, rest))
  }

  function PutKey(k: Key, rest: seq<Byte>): (r: seq<Byte>)
    ensures |rest| < |r|
  {
    k.pre + PutString(k.name, k.mid + ([COLON] + (k.gap + rest)))
  }

  function PutMembers(ms: Members, rest: seq<Byte>): (r: seq<Byte>)
    ensures |rest| <= |r|
    decreases ms
  {
    PutKey(ms.key, Put(ms.v, ms.post + if ms.Member? then rest else [COMMA] + PutMembers(ms.tail, rest)))
  }

  function Render(d: Document): seq<Byte> {
    d.pre + Put(d.v, d.post)
  }

  /** How many containers are open at the deepest point. */
  function Depth(v: Value): nat {
    match v
    case EmptyArr(_) => 1
    case EmptyObj(_) => 1
    case Arr(es) => 1 + DepthElems(es)
    case Obj(ms) => 1 + DepthMembers(ms)
    case _ => 0
  }

  function Max(a: nat, b: nat): nat {
    if a < b then b else a
  }

  function DepthElems(es: Elems): nat {
    if es.Elem? then Depth(es.v) else Max(Depth(es.v), DepthElems(es.tail))
  }

  function DepthMembers(ms: Members): nat {
    if ms.Member? then Depth(ms.v) else Max(Depth(ms.v), DepthMembers(ms.tail))
  }

  // ----- what a text says -----

  /** The number tokens of a text, in the order they are written. */
  function Numbers(v: Value): seq<Number> {
    match v
    case Num(n) => [n]
    case Arr(es) => NumbersElems(es)
    case Obj(ms) => NumbersMembers(ms)
    case _ => []
  }

  function NumbersElems(es: Elems): seq<Number> {
    Numbers(es.v) + (if es.Elem? then [] else NumbersElems(es.tail))
  }

  function NumbersMembers(ms: Members): seq<Number> {
    Numbers(ms.v) + (if ms.Member? then [] else NumbersMembers(ms.tail))
  }

  /** The decoded keys of one object, in order. */
  function Keys(ms: Members): seq<Text>
    requires ValidMembers(ms)
  {
    [DecodeChars(ms.key.name)] + (if ms.Member? then [] else Keys(ms.tail))
  }

  predicate Distinct(keys: seq<Text>) {
    forall i, j :: 0 <= i < j < |keys| ==> keys[i] != keys[j]
  }

  /** No object at any depth has two members with one decoded key. */
  predicate UniqueKeys(v: Value)
    requires Valid(v)
  {
    match v
    case Arr(es) => UniqueKeysElems(es)
    case Obj(ms) => Distinct(Keys(ms)) && UniqueKeysMembers(ms)
    case _ => true
  }

  predicate UniqueKeysElems(es: Elems)
    requires ValidElems(es)
  {
    UniqueKeys(es.v) && (es.Elems? ==> UniqueKeysElems(es.tail))
  }

  predicate UniqueKeysMembers(ms: Members)
    requires ValidMembers(ms)
  {
    UniqueKeys(ms.v) && (ms.Members? ==> UniqueKeysMembers(ms.tail))
  }
}
