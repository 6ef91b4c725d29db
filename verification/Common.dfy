/** Small vocabulary shared by every module: optional values, bytes and byte spans. */
module Common {
  datatype Option<+T> = None | Some(value: T)

  type Byte = b: int | 0 <= b < 256

  predicate IsDigit(b: Byte) {
    0x30 <= b <= 0x39
  }

  predicate IsDigitChar(c: char) {
    '0' <= c <= '9'
  }

  function DigitOf(d: nat): char
    requires d < 10
  {
    '0' + d as char
  }

  /** A number as `str` writes it. */
  function Decimal(n: nat): (s: string)
    ensures s != "" && forall i :: 0 <= i < |s| ==> IsDigitChar(s[i])
    ensures s[0] == '0' ==> n == 0
  {
    if n < 10 then [DigitOf(n)] else Decimal(n / 10) + [DigitOf(n % 10)]
  }

  /** `n` lower-case hexadecimal characters. */
  predicate LowerHex(s: string, n: nat) {
    |s| == n && forall i :: 0 <= i < |s| ==> IsDigitChar(s[i]) || 'a' <= s[i] <= 'f'
  }

  /** A SHA-256 digest in text form. */
  predicate Sha256Text(s: string) {
    LowerHex(s, 64)
  }

  /** A full Git object name. */
  predicate FullSha(s: string) {
    LowerHex(s, 40)
  }

  /** The longest prefix of `s` whose bytes all satisfy `p`, and what follows it. */
  function Span(p: Byte -> bool, s: seq<Byte>): (r: (seq<Byte>, seq<Byte>))
    ensures r.0 + r.1 == s
    ensures forall i :: 0 <= i < |r.0| ==> p(r.0[i])
    ensures r.1 == [] || !p(r.1[0])
  {
    if s == [] || !p(s[0]) then ([], s)
    else
      var (a, b) := Span(p, s[1..]);
      assert ([s[0]] + a) + b == [s[0]] + (a + b) == s;
      ([s[0]] + a, b)
  }

  /** A span is determined by any split whose left part is in the class and whose right part is not. */
  lemma {:induction false} SpanUnique(p: Byte -> bool, a: seq<Byte>, b: seq<Byte>)
    requires forall i :: 0 <= i < |a| ==> p(a[i])
    requires b == [] || !p(b[0])
    ensures Span(p, a + b) == (a, b)
  {
    if a == [] {
      assert a + b == b;
    } else {
      assert (a + b)[1..] == a[1..] + b;
      SpanUnique(p, a[1..], b);
      assert a == [a[0]] + a[1..];
    }
  }
}
