/**
 * What the spellings of a string denote, after section 7 of RFC 8259: a table of the two-character
 * escapes, the four hexadecimal digits of a code unit, and surrogate pairs. Member names are
 * compared by what they denote, so an object with one name spelled two ways is refused.
 */
module JsonSpelling {
  import opened Common
  import opened Utf8
  import opened JsonGrammar
  import opened JsonParser
  import opened JsonScanner
  import opened JsonAdmission

  // ----- the characters and numbers of the grammar -----

  function Chars(s: seq<Byte>): (t: string)
    ensures |t| == |s|
  {
    seq(|s|, i requires 0 <= i < |s| => s[i] as char)
  }

  /** The bytes of the grammar as characters. */
  lemma Vocabulary(b: Byte)
    ensures IsSpace(b) <==> b as char in " \t\n\r"
    ensures IsExponentMark(b) <==> b as char in "eE"
    ensures Chars([QUOTE, BACKSLASH, LETTER_U]) == "\"\\u"
    ensures Chars([OPEN_ARRAY, COMMA, CLOSE_ARRAY]) == "[,]"
    ensures Chars([OPEN_OBJECT, COLON, CLOSE_OBJECT]) == "{:}"
    ensures Chars([MINUS, ZERO, DOT, PLUS]) == "-0.+"
    ensures Chars(NULL_TEXT) == "null" && Chars(TRUE_TEXT) == "true" && Chars(FALSE_TEXT) == "false"
  {
  }

  lemma DigitsVocabulary(b: Byte)
    ensures IsDigit(b) <==> b as char in "0123456789"
  {
    var digits := "0123456789";
    assert IsDigit(b) ==> digits[b - 0x30] == b as char;
  }

  /** The range of integers, in decimal. */
  lemma IntegerRange()
    ensures I64_MIN == -9_223_372_036_854_775_808 && U64_MAX == 18_446_744_073_709_551_615
  {
  }

  /** The digits that are written for a number have its value. */
  lemma {:induction false} DecimalValue(n: nat, digits: seq<Byte>)
    requires Chars(digits) == Common.Decimal(n)
    ensures All(IsDigit, digits) && JsonScanner.Decimal(digits) == n
  {
    var s := Common.Decimal(n);
    forall i | 0 <= i < |digits|
      ensures IsDigit(digits[i]) && digits[i] as char == s[i]
    {
      assert Chars(digits)[i] == s[i];
    }
    if n >= 10 {
      var init := digits[..|digits| - 1];
      assert Chars(init) == Common.Decimal(n / 10);
      DecimalValue(n / 10, init);
    }
  }

  // ----- the table -----

  /** The letter after the backslash, and the code point. */
  const ESCAPES: seq<(Byte, CodePoint)> := [
    (0x22, 0x22), (0x5C, 0x5C), (0x2F, 0x2F), (0x62, 0x08), (0x66, 0x0C), (0x6E, 0x0A), (0x72, 0x0D), (0x74, 0x09)]

  /** The same escapes with the four digits that spell the code point after "\u". */
  const LONG_ESCAPES: seq<(Byte, seq<Byte>)> := [
    (0x22, [0x30, 0x30, 0x32, 0x32]), (0x5C, [0x30, 0x30, 0x35, 0x43]), (0x2F, [0x30, 0x30, 0x32, 0x46]),
    (0x62, [0x30, 0x30, 0x30, 0x38]), (0x66, [0x30, 0x30, 0x30, 0x43]), (0x6E, [0x30, 0x30, 0x30, 0x41]),
    (0x72, [0x30, 0x30, 0x30, 0x44]), (0x74, [0x30, 0x30, 0x30, 0x39])]

  const LOWER_DIGITS: seq<Byte> :=
    [0x30, 0x31, 0x32, 0x33, 0x34, 0x35, 0x36, 0x37, 0x38, 0x39, 0x61, 0x62, 0x63, 0x64, 0x65, 0x66]
  const UPPER_DIGITS: seq<Byte> :=
    [0x30, 0x31, 0x32, 0x33, 0x34, 0x35, 0x36, 0x37, 0x38, 0x39, 0x41, 0x42, 0x43, 0x44, 0x45, 0x46]

  predicate WritesDigit(b: Byte, d: nat) {
    d < 16 && (b == LOWER_DIGITS[d] || b == UPPER_DIGITS[d])
  }

  /** The four digits of `n`, the highest first, each in either case. */
  predicate Writes(h: seq<Byte>, n: nat) {
    && |h| == 4 && n < 0x10000
    && WritesDigit(h[0], n / 0x1000) && WritesDigit(h[1], n / 0x100 % 0x10)
    && WritesDigit(h[2], n / 0x10 % 0x10) && WritesDigit(h[3], n % 0x10)
  }

  /** `c` is a spelling of the code point `p`. */
  predicate Spells(c: StrChar, p: CodePoint) {
    match c
    case Plain(q) => q == p && p >= 0x20 && p != 0x22 && p != 0x5C
    case Escape(b) => (b, p) in ESCAPES
    case Unicode(h) => p < 0x10000 && !(0xD800 <= p <= 0xDFFF) && Writes(h, p)
    case Pair(hi, lo) =>
      p >= 0x10000 && Writes(hi, 0xD800 + (p - 0x10000) / 0x400) && Writes(lo, 0xDC00 + (p - 0x10000) % 0x400)
  }

  lemma DigitWritten(b: Byte, d: nat)
    ensures WritesDigit(b, d) <==> IsHex(b) && HexDigit(b) == d
  {
  }

  lemma Hex4Written(h: seq<Byte>, n: nat)
    ensures Writes(h, n) <==> IsHex4(h) && Hex4(h) == n
  {
    if |h| == 4 {
      var a, b, c, d := h[0], h[1], h[2], h[3];
      if n < 0x10000 {
        DigitWritten(a, n / 0x1000);
        DigitWritten(b, n / 0x100 % 0x10);
        DigitWritten(c, n / 0x10 % 0x10);
        DigitWritten(d, n % 0x10);
      }
      if IsHex4(h) {
        assert IsHex(a) && IsHex(b) && IsHex(c) && IsHex(d);
        DigitsOf(HexDigit(a), HexDigit(b), HexDigit(c), HexDigit(d), n);
      }
      if IsHex(a) && IsHex(b) && IsHex(c) && IsHex(d) {
        assert h == [a, b, c, d];
      }
    }
  }

  lemma DigitsOf(a: nat, b: nat, c: nat, d: nat, n: nat)
    requires a < 16 && b < 16 && c < 16 && d < 16
    ensures ((a * 16 + b) * 16 + c) * 16 + d == n <==>
      n < 0x10000 && a == n / 0x1000 && b == n / 0x100 % 0x10 && c == n / 0x10 % 0x10 && d == n % 0x10
  {
    LastDigit((a * 16 + b) * 16 + c, d, n);
    LastDigit(a * 16 + b, c, n / 16);
    LastDigit(a, b, n / 0x100);
    assert n / 16 / 16 == n / 0x100 && n / 0x100 / 16 == n / 0x1000;
  }

  lemma LastDigit(rest: nat, d: nat, n: nat)
    requires d < 16
    ensures rest * 16 + d == n <==> rest == n / 16 && d == n % 16
  {
  }

  /** The characters of the grammar are the spellings of the table, and denote what they spell. */
  lemma SpellingsExact(c: StrChar, p: CodePoint)
    ensures Spells(c, p) <==> ValidChar(c) && DecodeChar(c) == p
  {
    match c
    case Plain(_) =>
    case Escape(b) =>
    case Unicode(h) => Hex4Written(h, p);
    case Pair(hi, lo) =>
      if p >= 0x10000 {
        Hex4Written(hi, 0xD800 + (p - 0x10000) / 0x400);
        Hex4Written(lo, 0xDC00 + (p - 0x10000) % 0x400);
      }
  }

  /** Each two-character escape denotes what its long form denotes. */
  lemma EscapesAgree(i: nat)
    requires i < |LONG_ESCAPES|
    ensures var (b, h) := LONG_ESCAPES[i];
      ValidChar(Escape(b)) && ValidChar(Unicode(h)) && DecodeChar(Escape(b)) == DecodeChar(Unicode(h))
    ensures forall b :: ValidChar(Escape(b)) ==> exists j :: 0 <= j < |LONG_ESCAPES| && LONG_ESCAPES[j].0 == b
  {
    forall b: Byte | ValidChar(Escape(b))
      ensures exists j :: 0 <= j < |LONG_ESCAPES| && LONG_ESCAPES[j].0 == b
    {
      assert LONG_ESCAPES[0].0 == 0x22 && LONG_ESCAPES[1].0 == 0x5C && LONG_ESCAPES[2].0 == 0x2F;
      assert LONG_ESCAPES[3].0 == 0x62 && LONG_ESCAPES[4].0 == 0x66 && LONG_ESCAPES[5].0 == 0x6E;
      assert LONG_ESCAPES[6].0 == 0x72 && LONG_ESCAPES[7].0 == 0x74;
    }
  }

  // ----- names -----

  /** `name` is a spelling of the text `t`. */
  predicate SpellsText(name: seq<StrChar>, t: Text) {
    |name| == |t| && forall i :: 0 <= i < |t| ==> Spells(name[i], t[i])
  }

  lemma TextSpelled(name: seq<StrChar>, t: Text)
    ensures SpellsText(name, t) <==> ValidChars(name) && DecodeChars(name) == t
  {
    forall i | 0 <= i < |name| && i < |t|
      ensures Spells(name[i], t[i]) <==> ValidChar(name[i]) && DecodeChar(name[i]) == t[i]
    {
      SpellingsExact(name[i], t[i]);
    }
    if SpellsText(name, t) {
      assert forall i :: 0 <= i < |name| ==> ValidChar(name[i]);
    }
  }

  /** What follows the key in member `i` of an object. */
  function Nth(ms: Members, i: nat): (r: Members)
    decreases i
  {
    if i == 0 || ms.Member? then ms else Nth(ms.tail, i - 1)
  }

  function Size(ms: Members): (n: nat)
    ensures n > 0
  {
    if ms.Member? then 1 else 1 + Size(ms.tail)
  }

  lemma {:induction false} KeyNumber(ms: Members, i: nat)
    requires ValidMembers(ms) && i < Size(ms)
    ensures |Keys(ms)| == Size(ms) && ValidMembers(Nth(ms, i)) && Keys(ms)[i] == DecodeChars(Nth(ms, i).key.name)
    decreases ms
  {
    if ms.Members? {
      KeyNumber(ms.tail, if i > 0 then i - 1 else 0);
    }
  }

  /** Every member's name is a spelling of its text in `names`. */
  ghost predicate Named(ms: Members, names: seq<Text>) {
    |names| == Size(ms) && forall i :: 0 <= i < |names| ==> SpellsText(Nth(ms, i).key.name, names[i])
  }

  /** The keys that are compared are the texts that the names spell. */
  lemma KeysAreNames(ms: Members, names: seq<Text>)
    requires ValidMembers(ms) && Named(ms, names)
    ensures Keys(ms) == names
  {
    KeyNumber(ms, 0);
    forall i | 0 <= i < |names|
      ensures Keys(ms)[i] == names[i]
    {
      KeyNumber(ms, i);
      TextSpelled(Nth(ms, i).key.name, names[i]);
    }
  }

  /**
   * An object is refused when two of its names spell one text, in whatever way, and with names that
   * spell different texts it is accepted if its values are.
   */
  lemma NamesDecide(doc: Document, names: seq<Text>, limit: nat, finite: Finite)
    requires ValidDocument(doc) && Depth(doc.v) <= limit && doc.v.Obj? && Named(doc.v.ms, names)
    ensures (exists d :: Admitted(d, Render(doc), limit, finite)) <==>
      && (forall i, j :: 0 <= i < j < |names| ==> names[i] != names[j])
      && UniqueKeysMembers(doc.v.ms) && forall n :: n in Numbers(doc.v) ==> NumberAdmitted(n, finite)
  {
    KeysAreNames(doc.v.ms, names);
    CompleteDocument(doc, limit);
    forall d | Admitted(d, Render(doc), limit, finite)
      ensures d == doc
    {
      CompleteDocument(d, limit);
    }
    if Distinct(names) && UniqueKeysMembers(doc.v.ms) && forall n :: n in Numbers(doc.v) ==> NumberAdmitted(n, finite) {
      assert Admitted(doc, Render(doc), limit, finite);
    }
  }

  // ----- two texts -----

  const ONE: Number := Number(false, [0x31], None, None)

  /** An object with two members of the value 1. */
  function TwoMembers(a: seq<StrChar>, b: seq<StrChar>): Document {
    Document([], Obj(Members(Key([], a, [], []), Num(ONE), [], Member(Key([], b, [], []), Num(ONE), []))), [])
  }

  lemma TwoNames(a: seq<StrChar>, b: seq<StrChar>, x: Text, y: Text, limit: nat, finite: Finite)
    requires limit > 0 && SpellsText(a, x) && SpellsText(b, y)
    ensures (exists d :: Admitted(d, Render(TwoMembers(a, b)), limit, finite)) <==> x != y
  {
    var doc := TwoMembers(a, b);
    TextSpelled(a, x);
    TextSpelled(b, y);
    var ms := doc.v.ms;
    assert Valid(Num(ONE)) && ValidMembers(ms.tail) && ValidMembers(ms);
    assert UniqueKeysMembers(ms.tail) && UniqueKeysMembers(ms);
    assert Depth(Num(ONE)) == 0 && DepthMembers(ms.tail) == 0 && DepthMembers(ms) == 0;
    assert Nth(ms, 0).key.name == a && Nth(ms, 1).key.name == b && Size(ms) == 2;
    assert Named(ms, [x, y]);
    NamesDecide(doc, [x, y], limit, finite);
    assert Numbers(Num(ONE)) == [ONE] && NumbersMembers(ms.tail) == [ONE] && NumbersMembers(ms) == [ONE, ONE];
    OneAdmitted(finite);
  }

  lemma OneAdmitted(finite: Finite)
    ensures NumberAdmitted(ONE, finite)
  {
  }

  lemma NewlineSpelled()
    ensures SpellsText([Escape(0x6E)], [0x0A]) && SpellsText([Plain(0x6E)], [0x6E])
    ensures SpellsText([Unicode([0x30, 0x30, 0x30, 0x61])], [0x0A])
  {
    assert ESCAPES[5] == (0x6E, 0x0A);
    assert LOWER_DIGITS[0] == 0x30 && LOWER_DIGITS[10] == 0x61;
  }

  /** The text {"\n":1,"n":2} up to its values has two names, and {"\n":1,"\u000a":2} one name twice. */
  lemma ControlNames(limit: nat, finite: Finite)
    requires limit > 0
    ensures var newline, letter, long := [Escape(0x6E)], [Plain(0x6E)], [Unicode([0x30, 0x30, 0x30, 0x61])];
      && (exists d :: Admitted(d, Render(TwoMembers(newline, letter)), limit, finite))
      && !(exists d :: Admitted(d, Render(TwoMembers(newline, long)), limit, finite))
  {
    var newline, letter, long := [Escape(0x6E)], [Plain(0x6E)], [Unicode([0x30, 0x30, 0x30, 0x61])];
    NewlineSpelled();
    TwoNames(newline, letter, [0x0A], [0x6E], limit, finite);
    TwoNames(newline, long, [0x0A], [0x0A], limit, finite);
  }
}
