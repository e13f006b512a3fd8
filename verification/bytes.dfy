/**
 * Byte sequences and the two byte/text encodings the engine relies on:
 * the lower-case hexadecimal form of a digest (`hexdigest()`) and the UTF-8
 * encoding of a password (`str.encode()`).
 */
module Bytes {

  newtype byte = x: int | 0 <= x < 256

  // ---------------------------------------------------------------------
  // Lower-case hexadecimal
  // ---------------------------------------------------------------------

  predicate IsHexChar(c: char)
  {
    ('0' <= c <= '9') || ('a' <= c <= 'f')
  }

  /** The hex digit for a nibble value. */
  function HexChar(n: int): (c: char)
    requires 0 <= n < 16
    ensures IsHexChar(c)
  {
    if n < 10 then ('0' as int + n) as char else ('a' as int + n - 10) as char
  }

  /** Two hex digits per byte, high nibble first, as `hexdigest()` renders a digest. */
  function Hex(bs: seq<byte>): (r: string)
    ensures |r| == 2 * |bs|
    ensures forall i :: 0 <= i < |r| ==> IsHexChar(r[i])
  {
    if |bs| == 0 then ""
    else [HexChar(bs[0] as int / 16), HexChar(bs[0] as int % 16)] + Hex(bs[1..])
  }

  /** Distinct digests have distinct hex renderings, so comparing hex strings compares digests. */
  lemma {:induction false} HexInjective(a: seq<byte>, b: seq<byte>)
    ensures Hex(a) == Hex(b) <==> a == b
  {
    if Hex(a) == Hex(b) && |a| > 0 {
      var ha, hb := Hex(a), Hex(b);
      assert ha[0] == hb[0] && ha[1] == hb[1];
      assert a[0] as int / 16 == b[0] as int / 16;
      assert a[0] as int % 16 == b[0] as int % 16;
      assert a[0] == b[0];
      assert Hex(a[1..]) == ha[2..] == hb[2..] == Hex(b[1..]);
      HexInjective(a[1..], b[1..]);
      assert a == [a[0]] + a[1..];
      assert b == [b[0]] + b[1..];
    }
  }

  // ---------------------------------------------------------------------
  // UTF-8
  // ---------------------------------------------------------------------

  /** The number of bytes of a UTF-8 sequence, read off its lead byte. */
  function SequenceLength(lead: byte): nat
  {
    if lead < 0x80 then 1 else if lead < 0xE0 then 2 else if lead < 0xF0 then 3 else 4
  }

  /** The UTF-8 encoding of one Unicode scalar value. */
  function EncodeChar(c: char): (r: seq<byte>)
    ensures 1 <= |r| <= 4
    ensures |r| == SequenceLength(r[0])
    ensures forall i :: 1 <= i < |r| ==> 0x80 <= r[i] < 0xC0
  {
    var n := c as int;
    if n < 0x80 then [n as byte]
    else if n < 0x800 then [(0xC0 + n / 64) as byte, (0x80 + n % 64) as byte]
    else if n < 0x10000 then
      [(0xE0 + n / 4096) as byte, (0x80 + n / 64 % 64) as byte, (0x80 + n % 64) as byte]
    else
      [(0xF0 + n / 262144) as byte, (0x80 + n / 4096 % 64) as byte,
       (0x80 + n / 64 % 64) as byte, (0x80 + n % 64) as byte]
  }

  /** Every scalar value has its own UTF-8 sequence. */
  lemma EncodeCharInjective(a: char, b: char)
    requires EncodeChar(a) == EncodeChar(b)
    ensures a == b
  {
    var n, m := a as int, b as int;
    var e := EncodeChar(a);
    if |e| == 2 {
      assert n / 64 == m / 64 && n % 64 == m % 64;
    } else if |e| == 3 {
      assert n / 4096 == m / 4096 && n / 64 % 64 == m / 64 % 64 && n % 64 == m % 64;
      DivSplit(n);
      DivSplit(m);
    } else if |e| == 4 {
      assert n / 262144 == m / 262144 && n / 4096 % 64 == m / 4096 % 64;
      assert n / 64 % 64 == m / 64 % 64 && n % 64 == m % 64;
      DivSplit(n);
      DivSplit(m);
    }
  }

  /** Base-64 digit decomposition used to undo the continuation-byte arithmetic. */
  lemma DivSplit(n: nat)
    ensures n / 64 == 64 * (n / 4096) + n / 64 % 64
    ensures n / 4096 == 64 * (n / 262144) + n / 4096 % 64
    ensures n == 64 * (n / 64) + n % 64
  {
    assert n / 4096 == (n / 64) / 64;
    assert n / 262144 == (n / 4096) / 64;
  }

  /** `str.encode()`: the UTF-8 encoding of a string. */
  function Utf8(s: string): (r: seq<byte>)
    ensures |s| <= |r| <= 4 * |s|
    ensures |s| > 0 ==> |EncodeChar(s[0])| <= |r| && r[..|EncodeChar(s[0])|] == EncodeChar(s[0])
  {
    if |s| == 0 then [] else EncodeChar(s[0]) + Utf8(s[1..])
  }

  /** Different passwords are different byte strings before they reach the hash. */
  lemma {:induction false} Utf8Injective(s: string, t: string)
    ensures Utf8(s) == Utf8(t) <==> s == t
  {
    if Utf8(s) == Utf8(t) && (|s| > 0 || |t| > 0) {
      assert |s| > 0 && |t| > 0;
      var es, et := EncodeChar(s[0]), EncodeChar(t[0]);
      assert es[0] == Utf8(s)[0] == Utf8(t)[0] == et[0];
      assert |es| == |et|;
      assert es == Utf8(s)[..|es|] == Utf8(t)[..|et|] == et;
      EncodeCharInjective(s[0], t[0]);
      assert Utf8(s[1..]) == Utf8(s)[|es|..] == Utf8(t)[|et|..] == Utf8(t[1..]);
      Utf8Injective(s[1..], t[1..]);
      assert s == [s[0]] + s[1..];
      assert t == [t[0]] + t[1..];
    }
  }
}
