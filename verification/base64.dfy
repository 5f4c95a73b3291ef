/** src/base64.cpp: the standard base64 alphabet of section 4 of RFC 4648
    with '=' padding, used to carry the tail of a large data file inside
    the XMP packet of a Bluesky image. */
module Base64 {
  import opened Wrappers
  import opened Bytes

  const Pad: byte := 0x3D  // '='

  /** The alphabet character for a 6-bit value: 'A'..'Z', 'a'..'z',
      '0'..'9', '+', '/' (the 64-character table of the encoder). */
  function SextetChar(v: bv32): byte
    requires v < 64
  {
    if v < 26 then (v as byte) + 0x41
    else if v < 52 then ((v - 26) as byte) + 0x61
    else if v < 62 then ((v - 52) as byte) + 0x30
    else if v == 62 then 0x2B
    else 0x2F
  }

  /** The decoder's 256-entry lookup table: the 6-bit value of an alphabet
      character, and nothing (the table's -1) for every other byte, '='
      included. */
  function CharValue(c: byte): (v: Option<bv32>)
    ensures v.Some? ==> v.value < 64
  {
    if 0x41 <= c <= 0x5A then Some((c - 0x41) as bv32)
    else if 0x61 <= c <= 0x7A then Some((c - 0x61) as bv32 + 26)
    else if 0x30 <= c <= 0x39 then Some((c - 0x30) as bv32 + 52)
    else if c == 0x2B then Some(62)
    else if c == 0x2F then Some(63)
    else None
  }

  /** The two tables are inverse: decoding an alphabet character gives back
      its value, and '=' is never an alphabet character. */
  lemma CharValueOfSextetChar(v: bv32)
    requires v < 64
    ensures CharValue(SextetChar(v)) == Some(v)
    ensures SextetChar(v) != Pad
  {
  }

  /** Conversely every byte the decoder accepts is the encoder's character
      for its value. */
  lemma SextetCharOfCharValue(c: byte)
    requires CharValue(c).Some?
    ensures SextetChar(CharValue(c).value) == c
  {
  }

  function Triple(a: byte, b: byte, c: byte): bv32
  {
    (a as bv32 << 16) | (b as bv32 << 8) | c as bv32
  }

  /** One output quartet for a group of `n` (1 to 3) input bytes; the
      missing bytes are taken as zero and their characters become '='. */
  function EncodeGroup(a: byte, b: byte, c: byte, n: nat): (q: seq<byte>)
    requires 1 <= n <= 3
    ensures |q| == 4
  {
    QuartetChars(Triple(a, b, c), n)
  }

  /** The four characters for a 24-bit group value of which the first `n`
      bytes are real. */
  function QuartetChars(t: bv32, n: nat): (q: seq<byte>)
    requires 1 <= n <= 3
    ensures |q| == 4
  {
    [SextetChar((t >> 18) & 0x3F), SextetChar((t >> 12) & 0x3F),
     if n > 1 then SextetChar((t >> 6) & 0x3F) else Pad,
     if n > 2 then SextetChar(t & 0x3F) else Pad]
  }

  /** binaryToBase64, without the destination prefix it appends to. */
  function Encode(d: seq<byte>): (r: seq<byte>)
    ensures |r| % 4 == 0
    ensures |r| == 0 <==> |d| == 0
    ensures |r| == 4 <==> 1 <= |d| <= 3
    decreases |d|
  {
    if |d| == 0 then []
    else
      var n := if |d| >= 3 then 3 else |d|;
      EncodeGroup(d[0], if n > 1 then d[1] else 0, if n > 2 then d[2] else 0, n) + Encode(d[n..])
  }

  /** Four output characters for every started group of three bytes. */
  lemma {:induction false} EncodeLength(d: seq<byte>)
    ensures |Encode(d)| == (|d| + 2) / 3 * 4
    decreases |d|
  {
    if |d| > 0 {
      var n := if |d| >= 3 then 3 else |d|;
      EncodeLength(d[n..]);
      assert |Encode(d)| == 4 + |Encode(d[n..])|;
    }
  }

  /** The encoder emits only alphabet characters, except for '=' in the
      last two places. */
  lemma {:induction false} EncodeAlphabet(d: seq<byte>)
    ensures forall i :: 0 <= i < |Encode(d)| ==>
      CharValue(Encode(d)[i]).Some? || (Encode(d)[i] == Pad && i >= |Encode(d)| - 2)
    decreases |d|
  {
    if |d| > 0 {
      var n := if |d| >= 3 then 3 else |d|;
      var b: byte := if n > 1 then d[1] else 0;
      var c: byte := if n > 2 then d[2] else 0;
      var q := EncodeGroup(d[0], b, c, n);
      QuartetAlphabet(d[0], b, c, n);
      EncodeAlphabet(d[n..]);
      var rest := Encode(d[n..]);
      assert Encode(d) == q + rest;
      assert n < 3 ==> |rest| == 0;
      forall i | 0 <= i < |q| + |rest|
        ensures CharValue((q + rest)[i]).Some? || ((q + rest)[i] == Pad && i >= |q| + |rest| - 2)
      {
        if i >= 4 {
          assert (q + rest)[i] == rest[i - 4];
        } else {
          assert (q + rest)[i] == q[i];
        }
      }
    }
  }

  /** Where the encoder's quartet may hold padding. */
  lemma QuartetAlphabet(a: byte, b: byte, c: byte, n: nat)
    requires 1 <= n <= 3
    ensures var q := EncodeGroup(a, b, c, n);
      CharValue(q[0]).Some? && CharValue(q[1]).Some? &&
      (CharValue(q[2]).Some? || (q[2] == Pad && n == 1)) &&
      (CharValue(q[3]).Some? || (q[3] == Pad && n < 3))
  {
    QuartetCharsAlphabet(Triple(a, b, c), n);
  }

  lemma QuartetCharsAlphabet(t: bv32, n: nat)
    requires 1 <= n <= 3
    ensures var q := QuartetChars(t, n);
      CharValue(q[0]).Some? && CharValue(q[1]).Some? &&
      (CharValue(q[2]).Some? || (q[2] == Pad && n == 1)) &&
      (CharValue(q[3]).Some? || (q[3] == Pad && n < 3))
  {
    CharValueOfSextetChar((t >> 18) & 0x3F);
    CharValueOfSextetChar((t >> 12) & 0x3F);
    CharValueOfSextetChar((t >> 6) & 0x3F);
    CharValueOfSextetChar(t & 0x3F);
  }

  datatype DecodeError = BadLength | BadPadding | PaddingNotFinal | BadCharacter

  function Recombine(v0: bv32, v1: bv32, v2: bv32, v3: bv32): bv32
  {
    (v0 << 18) | (v1 << 12) | (v2 << 6) | v3
  }

  /** One quartet: a '=' in the third place needs a '=' in the fourth,
      padding is allowed only in the final quartet, and every non-padding
      character must be in the alphabet; checked in that order. */
  function DecodeQuartet(c0: byte, c1: byte, c2: byte, c3: byte, last: bool): (r: Result<seq<byte>, DecodeError>)
    ensures c2 == Pad && c3 != Pad ==> r == Failure(BadPadding)
    ensures !(c2 == Pad && c3 != Pad) && (c2 == Pad || c3 == Pad) && !last ==> r == Failure(PaddingNotFinal)
    ensures r.Success? <==>
      !(c2 == Pad && c3 != Pad) && ((c2 != Pad && c3 != Pad) || last) &&
      CharValue(c0).Some? && CharValue(c1).Some? && (c2 == Pad || CharValue(c2).Some?) && (c3 == Pad || CharValue(c3).Some?)
    ensures r.Success? ==> |r.value| == 3 - (if c2 == Pad then 1 else 0) - (if c3 == Pad then 1 else 0)
  {
    var p2 := c2 == Pad;
    var p3 := c3 == Pad;
    if p2 && !p3 then Failure(BadPadding)
    else if (p2 || p3) && !last then Failure(PaddingNotFinal)
    else
      var v0 := CharValue(c0);
      var v1 := CharValue(c1);
      var v2 := if p2 then Some(0) else CharValue(c2);
      var v3 := if p3 then Some(0) else CharValue(c3);
      if v0.None? || v1.None? || v2.None? || v3.None? then Failure(BadCharacter)
      else
        Success(QuartetBytes(Recombine(v0.value, v1.value, v2.value, v3.value), p2, p3))
  }

  /** The bytes a quartet contributes: the high byte of its 24-bit value,
      then the middle and low bytes unless their characters were padding. */
  function QuartetBytes(t: bv32, p2: bool, p3: bool): (r: seq<byte>)
    ensures |r| == 3 - (if p2 then 1 else 0) - (if p3 then 1 else 0)
  {
    [((t >> 16) & 0xFF) as byte]
      + (if !p2 then [((t >> 8) & 0xFF) as byte] else [])
      + (if !p3 then [(t & 0xFF) as byte] else [])
  }

  /** The quartets of `s` in order; the first bad quartet decides the error. */
  function DecodeQuartets(s: seq<byte>): (r: Result<seq<byte>, DecodeError>)
    requires |s| % 4 == 0
    ensures r.Success? ==> 3 * (|s| / 4) - 2 <= |r.value| <= 3 * (|s| / 4)
    ensures r.Success? && |s| >= 4 && s[|s| - 2] != Pad && s[|s| - 1] != Pad ==> |r.value| == 3 * (|s| / 4)
    decreases |s|
  {
    if |s| == 0 then Success([])
    else
      var q :- DecodeQuartet(s[0], s[1], s[2], s[3], |s| == 4);
      var rest :- DecodeQuartets(s[4..]);
      assert |s| > 4 ==> s[4..][|s| - 6] == s[|s| - 2] && s[4..][|s| - 5] == s[|s| - 1];
      Success(q + rest)
  }

  /** appendBase64AsBinary: the decoded bytes appended to `dest`; an empty
      input or one whose length is not a multiple of four is rejected. */
  function AppendBase64AsBinary(s: seq<byte>, dest: seq<byte>): (r: Result<seq<byte>, DecodeError>)
    ensures |s| == 0 || |s| % 4 != 0 ==> r == Failure(BadLength)
    ensures r.Success? ==> |s| > 0 && |s| % 4 == 0 && |r.value| >= |dest| && r.value[..|dest|] == dest
    ensures r.Success? ==> 3 * (|s| / 4) - 2 <= |r.value| - |dest| <= 3 * (|s| / 4)
  {
    if |s| == 0 || |s| % 4 != 0 then Failure(BadLength)
    else
      var d :- DecodeQuartets(s);
      assert (dest + d)[..|dest|] == dest;
      Success(dest + d)
  }

  /** Bit-level inverse of one group: the sextets of a triple recombine
      into the bytes they came from. */
  lemma GroupBits(a: byte, b: byte, c: byte)
    ensures var t := Triple(a, b, c);
      Recombine(((t >> 18) & 0x3F), ((t >> 12) & 0x3F), ((t >> 6) & 0x3F), (t & 0x3F)) == t
    ensures var t := Triple(a, b, c);
      ((t >> 16) & 0xFF) as byte == a && ((t >> 8) & 0xFF) as byte == b && (t & 0xFF) as byte == c
  {
  }

  /** A quartet of alphabet characters, with `pads` trailing '=' in place
      of the last ones, decodes to the bytes of the recombined value. */
  lemma DecodeAlphabetQuartet(v0: bv32, v1: bv32, v2: bv32, v3: bv32, pads: nat, last: bool)
    requires v0 < 64 && v1 < 64 && v2 < 64 && v3 < 64
    requires pads <= 2 && (pads > 0 ==> last)
    requires pads == 2 ==> v2 == 0
    requires pads >= 1 ==> v3 == 0
    ensures DecodeQuartet(SextetChar(v0), SextetChar(v1),
        if pads == 2 then Pad else SextetChar(v2),
        if pads >= 1 then Pad else SextetChar(v3), last)
      == Success(QuartetBytes(Recombine(v0, v1, v2, v3), pads == 2, pads >= 1))
  {
    CharValueOfSextetChar(v0);
    CharValueOfSextetChar(v1);
    CharValueOfSextetChar(v2);
    CharValueOfSextetChar(v3);
  }

  /** The bytes recovered from the sextets of a group are the group's
      bytes. */
  lemma GroupBytes(a: byte, b: byte, c: byte, n: nat)
    requires 1 <= n <= 3
    requires n < 3 ==> c == 0
    requires n < 2 ==> b == 0
    ensures var t := Triple(a, b, c);
      QuartetBytes(Recombine((t >> 18) & 0x3F, (t >> 12) & 0x3F,
        if n > 1 then (t >> 6) & 0x3F else 0, if n > 2 then t & 0x3F else 0), n == 1, n <= 2)
      == [a, b, c][..n]
  {
    var t := Triple(a, b, c);
    GroupBits(a, b, c);
    if n == 3 {
      assert QuartetBytes(t, false, false) == [a, b, c];
    } else if n == 2 {
      assert QuartetBytes(t, false, true) == [a, b];
    } else {
      assert QuartetBytes(t, true, true) == [a];
    }
  }

  /** The encoder's quartet for a group value decodes to the bytes of the
      value recombined from its sextets. */
  lemma DecodeQuartetChars(t: bv32, n: nat, last: bool)
    requires 1 <= n <= 3 && (n < 3 ==> last)
    ensures var q := QuartetChars(t, n);
      DecodeQuartet(q[0], q[1], q[2], q[3], last)
      == Success(QuartetBytes(Recombine((t >> 18) & 0x3F, (t >> 12) & 0x3F,
        if n > 1 then (t >> 6) & 0x3F else 0, if n > 2 then t & 0x3F else 0), n == 1, n <= 2))
  {
    var v2: bv32 := if n > 1 then (t >> 6) & 0x3F else 0;
    var v3: bv32 := if n > 2 then t & 0x3F else 0;
    DecodeAlphabetQuartet((t >> 18) & 0x3F, (t >> 12) & 0x3F, v2, v3, 3 - n, last);
  }

  /** One group round-trips: the quartet the encoder makes for the `n`
      bytes of a group decodes to exactly those bytes. */
  lemma DecodeEncodeGroup(a: byte, b: byte, c: byte, n: nat, last: bool)
    requires 1 <= n <= 3
    requires n < 3 ==> last
    requires n < 3 ==> c == 0
    requires n < 2 ==> b == 0
    ensures var q := EncodeGroup(a, b, c, n);
      DecodeQuartet(q[0], q[1], q[2], q[3], last) == Success([a, b, c][..n])
  {
    GroupBytes(a, b, c, n);
    DecodeQuartetChars(Triple(a, b, c), n, last);
  }

  /** Decoding a quartet followed by more quartets. */
  lemma DecodeCons(e: seq<byte>, q: seq<byte>, rest: seq<byte>, x: seq<byte>, y: seq<byte>)
    requires |q| == 4 && |rest| % 4 == 0 && e == q + rest
    requires DecodeQuartet(q[0], q[1], q[2], q[3], |rest| == 0) == Success(x)
    requires DecodeQuartets(rest) == Success(y)
    ensures DecodeQuartets(e) == Success(x + y)
  {
    assert e[..4] == q && e[4..] == rest;
  }

  /** Decoding undoes encoding, quartet by quartet. */
  lemma {:induction false} DecodeEncode(d: seq<byte>)
    ensures DecodeQuartets(Encode(d)) == Success(d)
    decreases |d|
  {
    if |d| > 0 {
      var n := if |d| >= 3 then 3 else |d|;
      var b := if n > 1 then d[1] else 0;
      var c := if n > 2 then d[2] else 0;
      var q := EncodeGroup(d[0], b, c, n);
      var rest := Encode(d[n..]);
      DecodeEncodeGroup(d[0], b, c, n, |rest| == 0);
      DecodeEncode(d[n..]);
      DecodeCons(Encode(d), q, rest, [d[0], b, c][..n], d[n..]);
      assert [d[0], b, c][..n] + d[n..] == d;
    }
  }

  /** The round trip the Bluesky embedding relies on: decoding the encoder's
      output for a non-empty file appends exactly that file. */
  lemma RoundTrip(d: seq<byte>, dest: seq<byte>)
    requires |d| > 0
    ensures AppendBase64AsBinary(Encode(d), dest) == Success(dest + d)
  {
    var e := Encode(d);
    assert |e| > 0 && |e| % 4 == 0;
    DecodeEncode(d);
  }

  /** The empty file is the one input that does not round-trip: it encodes
      to nothing, and the decoder rejects empty input. */
  lemma EmptyDoesNotRoundTrip(dest: seq<byte>)
    ensures Encode([]) == []
    ensures AppendBase64AsBinary(Encode([]), dest) == Failure(BadLength)
  {
  }

  /** Encoding is injective, so distinct files give distinct texts. */
  lemma EncodeInjective(d1: seq<byte>, d2: seq<byte>)
    requires Encode(d1) == Encode(d2)
    ensures d1 == d2
  {
    DecodeEncode(d1);
    DecodeEncode(d2);
  }

  /** Test vectors of section 10 of RFC 4648 ("f", "fo", "foo"). */
  lemma Vectors()
    ensures Encode([0x66]) == [0x5A, 0x67, Pad, Pad]
    ensures Encode([0x66, 0x6F]) == [0x5A, 0x6D, 0x38, Pad]
    ensures Encode([0x66, 0x6F, 0x6F]) == [0x5A, 0x6D, 0x39, 0x76]
  {
  }

  /** Decoding "Zm8=" after an existing byte appends "fo". */
  lemma DecodeVector()
    ensures AppendBase64AsBinary([0x5A, 0x6D, 0x38, Pad], [0x01]) == Success([0x01, 0x66, 0x6F])
  {
    var s: seq<byte> := [0x5A, 0x6D, 0x38, Pad];
    var dest: seq<byte> := [0x01];
    Vectors();
    RoundTrip([0x66, 0x6F], dest);
    assert AppendBase64AsBinary(s, dest) == Success(dest + [0x66, 0x6F]);
    assert dest + [0x66, 0x6F] == [0x01, 0x66, 0x6F];
  }

  /** A single '=' in third position is a padding error, not a character
      error, because the padding test comes first. */
  lemma PaddingCheckedFirst()
    ensures AppendBase64AsBinary([0x5A, 0x6D, Pad, 0x21], []) == Failure(BadPadding)
    ensures AppendBase64AsBinary([0x5A, 0x6D, 0x38, Pad, 0x5A, 0x6D, 0x38, 0x76], []) == Failure(PaddingNotFinal)
  {
  }
}
