/** The hash computer (MultiHash): the inputs are fed, in order, into one digest
    instance, and each byte of the digest is written as two lower-case hex digits.
    The digest primitive itself (SHA-256 by default, over the UTF-8 bytes of the
    text) is not modelled: it is a function passed in. */
module Hashing {

  type byte = b: int | 0 <= b < 256

  /** The cryptographic digest of a text, as a function of the text. */
  type Digest = string -> seq<byte>

  /** '0'-'9' and 'a'-'f'. */
  predicate IsHexChar(c: char) {
    '0' <= c <= '9' || 'a' <= c <= 'f'
  }

  /** The text is made of lower-case hex digits only. */
  predicate IsLowerHex(s: string) {
    forall i :: 0 <= i < |s| ==> IsHexChar(s[i])
  }

  /** The lower-case hex digit of a nibble. */
  function HexDigit(n: int): (c: char)
    requires 0 <= n < 16
    ensures IsHexChar(c)
  {
    if n < 10 then ('0' as int + n) as char else ('a' as int + n - 10) as char
  }

  /** The value of a lower-case hex digit: the inverse of HexDigit. */
  function HexValue(c: char): (v: int)
    requires IsHexChar(c)
    ensures 0 <= v < 16 && HexDigit(v) == c
  {
    if '0' <= c <= '9' then c as int - '0' as int else c as int - 'a' as int + 10
  }

  /** `b.ToString("x2")`: high nibble then low nibble. */
  function ByteToHex(b: byte): (s: string)
    ensures |s| == 2 && IsLowerHex(s)
  {
    [HexDigit(b / 16), HexDigit(b % 16)]
  }

  /** The digest written out byte by byte. */
  function Hex(bytes: seq<byte>): (s: string)
    ensures |s| == 2 * |bytes|
    ensures IsLowerHex(s)
  {
    if bytes == [] then [] else ByteToHex(bytes[0]) + Hex(bytes[1..])
  }

  /** Reads a hex text back into bytes, two digits per byte. */
  function Unhex(s: string): (bytes: seq<byte>)
    requires |s| % 2 == 0 && IsLowerHex(s)
  {
    if s == [] then [] else [HexValue(s[0]) * 16 + HexValue(s[1])] + Unhex(s[2..])
  }

  lemma HexDigitValue(n: int)
    requires 0 <= n < 16
    ensures HexValue(HexDigit(n)) == n
  {
  }

  /** Hex encoding loses nothing: the bytes can be read back from the text. */
  lemma {:induction false} UnhexHex(bytes: seq<byte>)
    ensures Unhex(Hex(bytes)) == bytes
  {
    if bytes != [] {
      var b := bytes[0];
      var s := Hex(bytes);
      assert s[2..] == Hex(bytes[1..]);
      HexDigitValue(b / 16);
      HexDigitValue(b % 16);
      UnhexHex(bytes[1..]);
    }
  }

  /** So two digests with the same text are the same bytes. */
  lemma HexInjective(a: seq<byte>, b: seq<byte>)
    requires Hex(a) == Hex(b)
    ensures a == b
  {
    UnhexHex(a);
    UnhexHex(b);
  }

  /** The inputs one after another, as the digest instance receives them. */
  function Concat(inputs: seq<string>): (s: string)
    ensures |inputs| == 1 ==> s == inputs[0]
  {
    if inputs == [] then [] else inputs[0] + Concat(inputs[1..])
  }

  lemma {:induction false} ConcatAppend(a: seq<string>, b: seq<string>)
    ensures Concat(a + b) == Concat(a) + Concat(b)
  {
    if a != [] {
      assert (a + b)[1..] == a[1..] + b;
      ConcatAppend(a[1..], b);
    } else {
      assert a + b == b;
    }
  }

  /** MultiHash: the hex text of the digest of all inputs taken together. */
  function MultiHash(digest: Digest, inputs: seq<string>): (h: string)
    ensures IsLowerHex(h)
    ensures |h| == 2 * |digest(Concat(inputs))|
  {
    Hex(digest(Concat(inputs)))
  }

  /** Only the concatenation of the inputs matters, not where one input ends and the
      next begins: hashing a list split in two is hashing the two halves joined. */
  lemma MultiHashSplit(digest: Digest, a: seq<string>, b: seq<string>)
    ensures MultiHash(digest, a + b) == MultiHash(digest, [Concat(a) + Concat(b)])
  {
    ConcatAppend(a, b);
  }
}
