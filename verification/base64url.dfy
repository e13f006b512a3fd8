/**
 * The URL- and filename-safe Base64 alphabet of section 5 of RFC 4648:
 * `A-Z a-z 0-9 - _`, with `=` padding to a multiple of four characters.
 * `Encode` is `base64.urlsafe_b64encode`; `Decode` is the strict inverse the
 * cipher applies to the key it is given.
 */
module Base64Url {
  import opened Bytes
  import opened Results

  predicate IsUrlSafeChar(c: char)
  {
    ('A' <= c <= 'Z') || ('a' <= c <= 'z') || ('0' <= c <= '9') || c == '-' || c == '_'
  }

  /** The character for a six-bit value, in alphabet order. */
  function CharOf(n: int): (c: char)
    requires 0 <= n < 64
    ensures IsUrlSafeChar(c)
  {
    if n < 26 then ('A' as int + n) as char
    else if n < 52 then ('a' as int + n - 26) as char
    else if n < 62 then ('0' as int + n - 52) as char
    else if n == 62 then '-'
    else '_'
  }

  /** The six-bit value of an alphabet character; `None` outside the alphabet (so for `=`). */
  function ValueOf(c: char): (r: Option<int>)
    ensures r.Some? <==> IsUrlSafeChar(c)
    ensures r.Some? ==> 0 <= r.value < 64 && CharOf(r.value) == c
  {
    if 'A' <= c <= 'Z' then Some(c as int - 'A' as int)
    else if 'a' <= c <= 'z' then Some(c as int - 'a' as int + 26)
    else if '0' <= c <= '9' then Some(c as int - '0' as int + 52)
    else if c == '-' then Some(62)
    else if c == '_' then Some(63)
    else None
  }

  lemma ValueOfCharOf(n: int)
    requires 0 <= n < 64
    ensures ValueOf(CharOf(n)) == Some(n)
  {
  }

  /** Number of `=` characters that close the encoding of `n` bytes. */
  function PadCount(n: nat): nat
  {
    (3 - n % 3) % 3
  }

  /** Three bytes become four characters. */
  function EncodeGroup(b0: byte, b1: byte, b2: byte): string
  {
    var x, y, z := b0 as int, b1 as int, b2 as int;
    [CharOf(x / 4), CharOf(x % 4 * 16 + y / 16), CharOf(y % 16 * 4 + z / 64), CharOf(z % 64)]
  }

  /** The final one or two bytes, padded with `=` to four characters. */
  function EncodeTail(b: seq<byte>): string
    requires 1 <= |b| <= 2
  {
    var x := b[0] as int;
    if |b| == 1 then [CharOf(x / 4), CharOf(x % 4 * 16), '=', '=']
    else
      var y := b[1] as int;
      [CharOf(x / 4), CharOf(x % 4 * 16 + y / 16), CharOf(y % 16 * 4), '=']
  }

  /** `urlsafe_b64encode`: four characters per started group of three bytes. */
  function Encode(b: seq<byte>): string
  {
    if |b| == 0 then ""
    else if |b| < 3 then EncodeTail(b)
    else EncodeGroup(b[0], b[1], b[2]) + Encode(b[3..])
  }

  /** Four characters per started group of three bytes. */
  lemma {:induction false} EncodeLength(b: seq<byte>)
    ensures |Encode(b)| == (|b| + 2) / 3 * 4
  {
    if |b| >= 3 {
      EncodeLength(b[3..]);
      assert (|b| + 2) / 3 == (|b[3..]| + 2) / 3 + 1;
    }
  }

  /** Alphabet characters, followed by exactly `pad` closing `=`. */
  predicate PaddedShape(r: string, pad: nat)
  {
    && pad <= |r|
    && (forall i :: 0 <= i < |r| ==> (IsUrlSafeChar(r[i]) <==> i < |r| - pad))
    && (forall i :: 0 <= i < |r| ==> (r[i] == '=' <==> i >= |r| - pad))
  }

  /** A full group is four alphabet characters. */
  lemma GroupShape(b0: byte, b1: byte, b2: byte)
    ensures PaddedShape(EncodeGroup(b0, b1, b2), 0)
  {
  }

  /** The final one or two bytes leave two or one `=`. */
  lemma TailShape(b: seq<byte>)
    requires 1 <= |b| <= 2
    ensures PaddedShape(EncodeTail(b), 3 - |b|)
  {
    var t := EncodeTail(b);
    if |b| == 1 {
      assert t == [t[0], t[1], '=', '='];
    } else {
      assert t == [t[0], t[1], t[2], '='];
    }
  }

  /** A full group in front of a well-shaped encoding keeps the shape. */
  lemma ShapeCons(g: string, rest: string, pad: nat)
    requires |g| == 4 && PaddedShape(g, 0) && PaddedShape(rest, pad)
    ensures PaddedShape(g + rest, pad)
  {
    var r := g + rest;
    forall i | 0 <= i < |r|
      ensures IsUrlSafeChar(r[i]) <==> i < |r| - pad
      ensures r[i] == '=' <==> i >= |r| - pad
    {
      if i < 4 {
        assert r[i] == g[i];
      } else {
        assert r[i] == rest[i - 4];
      }
    }
  }

  /**
   * Every character of an encoding is from the alphabet except the closing
   * padding, which is `=` and as long as `PadCount` says.
   */
  lemma {:induction false} EncodeShape(b: seq<byte>)
    ensures PaddedShape(Encode(b), PadCount(|b|))
  {
    if 1 <= |b| < 3 {
      TailShape(b);
      assert PadCount(|b|) == 3 - |b|;
    } else if |b| >= 3 {
      EncodeShape(b[3..]);
      assert PadCount(|b[3..]|) == PadCount(|b|);
      EncodeUnfold(b);
      GroupShape(b[0], b[1], b[2]);
      ShapeCons(EncodeGroup(b[0], b[1], b[2]), Encode(b[3..]), PadCount(|b|));
    }
  }

  /** Four alphabet characters become three bytes; padding is not accepted here. */
  function DecodeGroup(q: string): (r: Option<seq<byte>>)
    requires |q| == 4
  {
    var v0, v1, v2, v3 := ValueOf(q[0]), ValueOf(q[1]), ValueOf(q[2]), ValueOf(q[3]);
    if v0.None? || v1.None? || v2.None? || v3.None? then None
    else
      var s0, s1, s2, s3 := v0.value, v1.value, v2.value, v3.value;
      Some([(s0 * 4 + s1 / 16) as byte, (s1 % 16 * 16 + s2 / 4) as byte, (s2 % 4 * 64 + s3) as byte])
  }

  /** The last group of an encoding, which may end in one or two `=`. */
  function DecodeFinal(q: string): (r: Option<seq<byte>>)
    requires |q| == 4
  {
    if q[2] == '=' && q[3] == '=' then
      var v0, v1 := ValueOf(q[0]), ValueOf(q[1]);
      if v0.None? || v1.None? then None
      else Some([(v0.value * 4 + v1.value / 16) as byte])
    else if q[3] == '=' then
      var v0, v1, v2 := ValueOf(q[0]), ValueOf(q[1]), ValueOf(q[2]);
      if v0.None? || v1.None? || v2.None? then None
      else Some([(v0.value * 4 + v1.value / 16) as byte, (v1.value % 16 * 16 + v2.value / 4) as byte])
    else DecodeGroup(q)
  }

  /**
   * Strict decoding: the length must be a multiple of four, padding may only
   * close the last group, and every other character must be in the alphabet.
   */
  function Decode(s: string): (r: Option<seq<byte>>)
    decreases |s|
  {
    if |s| == 0 then Some([])
    else if |s| < 4 then None
    else if |s| == 4 then DecodeFinal(s)
    else
      var head := DecodeGroup(s[..4]);
      var rest := Decode(s[4..]);
      if head.None? || rest.None? then None else Some(head.value + rest.value)
  }

  /** The first byte is the first sextet and the top two bits of the second. */
  lemma FirstByte(x: int, y: int)
    requires 0 <= x < 256 && 0 <= y < 256
    ensures x / 4 * 4 + (x % 4 * 16 + y / 16) / 16 == x
  {
    assert (x % 4 * 16 + y / 16) / 16 == x % 4;
  }

  /** The second byte is the low four bits of the second sextet and the top four of the third. */
  lemma SecondByte(x: int, y: int, z: int)
    requires 0 <= x < 256 && 0 <= y < 256 && 0 <= z < 256
    ensures (x % 4 * 16 + y / 16) % 16 * 16 + (y % 16 * 4 + z / 64) / 4 == y
  {
    assert (x % 4 * 16 + y / 16) % 16 == y / 16;
    assert (y % 16 * 4 + z / 64) / 4 == y % 16;
  }

  /** The third byte is the low two bits of the third sextet and the fourth sextet. */
  lemma ThirdByte(y: int, z: int)
    requires 0 <= y < 256 && 0 <= z < 256
    ensures (y % 16 * 4 + z / 64) % 4 * 64 + z % 64 == z
  {
    assert (y % 16 * 4 + z / 64) % 4 == z / 64;
  }

  lemma GroupRoundTrip(b0: byte, b1: byte, b2: byte)
    ensures DecodeGroup(EncodeGroup(b0, b1, b2)) == Some([b0, b1, b2])
    ensures DecodeFinal(EncodeGroup(b0, b1, b2)) == Some([b0, b1, b2])
  {
    var x, y, z := b0 as int, b1 as int, b2 as int;
    var s0, s1, s2, s3 := x / 4, x % 4 * 16 + y / 16, y % 16 * 4 + z / 64, z % 64;
    ValueOfCharOf(s0);
    ValueOfCharOf(s1);
    ValueOfCharOf(s2);
    ValueOfCharOf(s3);
    FirstByte(x, y);
    SecondByte(x, y, z);
    ThirdByte(y, z);
    var q := EncodeGroup(b0, b1, b2);
    assert q == [CharOf(s0), CharOf(s1), CharOf(s2), CharOf(s3)];
    assert DecodeGroup(q) == Some([(s0 * 4 + s1 / 16) as byte, (s1 % 16 * 16 + s2 / 4) as byte, (s2 % 4 * 64 + s3) as byte]);
  }

  lemma TailRoundTrip(b: seq<byte>)
    requires 1 <= |b| <= 2
    ensures DecodeFinal(EncodeTail(b)) == Some(b)
  {
    var x := b[0] as int;
    if |b| == 1 {
      ValueOfCharOf(x / 4);
      ValueOfCharOf(x % 4 * 16);
      FirstByte(x, 0);
      assert b == [b[0]];
    } else {
      var y := b[1] as int;
      ValueOfCharOf(x / 4);
      ValueOfCharOf(x % 4 * 16 + y / 16);
      ValueOfCharOf(y % 16 * 4);
      FirstByte(x, y);
      SecondByte(x, y, 0);
      assert b == [b[0], b[1]];
    }
  }

  /** Decoding a group followed by more groups decodes each in turn. */
  lemma DecodeCons(g: string, rest: string, head: seq<byte>, tail: seq<byte>)
    requires |g| == 4 && |rest| > 0
    requires DecodeGroup(g) == Some(head) && Decode(rest) == Some(tail)
    ensures Decode(g + rest) == Some(head + tail)
  {
    var s := g + rest;
    assert s[..4] == g;
    assert s[4..] == rest;
  }

  /** Encoding of three or more bytes: a full group, then the encoding of the rest. */
  lemma EncodeUnfold(b: seq<byte>)
    requires |b| >= 3
    ensures Encode(b) == EncodeGroup(b[0], b[1], b[2]) + Encode(b[3..])
  {
  }

  /**
   * One more group in front of a decodable encoding. The encoding `e` is kept
   * abstract here so that the solver does not unfold the character arithmetic.
   */
  lemma GroupStep(b: seq<byte>, e: string, rest: string)
    requires |b| > 3 && |rest| > 0
    requires Decode(rest) == Some(b[3..])
    requires e == EncodeGroup(b[0], b[1], b[2]) + rest
    ensures Decode(e) == Some(b)
  {
    GroupRoundTrip(b[0], b[1], b[2]);
    DecodeCons(EncodeGroup(b[0], b[1], b[2]), rest, [b[0], b[1], b[2]], b[3..]);
    assert b == [b[0], b[1], b[2]] + b[3..];
  }

  /** The inductive step of the round trip. */
  lemma RoundTripStep(b: seq<byte>)
    requires |b| > 3
    requires Decode(Encode(b[3..])) == Some(b[3..])
    ensures Decode(Encode(b)) == Some(b)
  {
    EncodeUnfold(b);
    GroupStep(b, Encode(b), Encode(b[3..]));
  }

  /** Decoding undoes encoding, for every byte string. */
  lemma {:induction false} RoundTrip(b: seq<byte>)
    ensures Decode(Encode(b)) == Some(b)
  {
    if |b| == 0 {
    } else if |b| < 3 {
      TailRoundTrip(b);
    } else if |b| == 3 {
      GroupRoundTrip(b[0], b[1], b[2]);
      EncodeUnfold(b);
      assert Encode(b) == EncodeGroup(b[0], b[1], b[2]);
      assert b == [b[0], b[1], b[2]];
    } else {
      RoundTrip(b[3..]);
      RoundTripStep(b);
    }
  }

  /** A consequence of the round trip: distinct byte strings never share an encoding. */
  lemma EncodeInjective(a: seq<byte>, b: seq<byte>)
    ensures Encode(a) == Encode(b) <==> a == b
  {
    RoundTrip(a);
    RoundTrip(b);
  }
}
