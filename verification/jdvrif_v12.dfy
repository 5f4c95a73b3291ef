/** src/jdvrif.cpp (jdvrif v1.2): the value writer, the insert-mode guards,
    and encryptDecrypt, the XOR loop that encodes the filename with a
    fixed key and the data with the encoded filename, and that on
    extraction skips the 18-byte profile headers spread through the data. */
module JdvrifV12 {
  import opened Wrappers
  import opened Bytes
  import BinaryIo

  const HeaderLength: nat := 0x12
  const MaxFilenameLength: nat := 0x17
  const MaxFileSize: nat := 0xC800000
  const BlockSize: nat := 65535

  /** XOR_KEY: the std::string "\xFF\xD8\xFF\xE2\xFF\xFF". */
  const XorKey: seq<byte> := [0xFF, 0xD8, 0xFF, 0xE2, 0xFF, 0xFF]

  // ---------------------------------------------------------------------
  // ValueUpdater
  // ---------------------------------------------------------------------

  /** Byte e of `value` counted from the least significant end:
      `(value >> 8 * e) & 0xff`. */
  function ByteAt(value: nat, e: nat): byte
  {
    ByteOf(Digit(value, e))
  }

  /** The base-256 digit e of `value`, one shift at a time. */
  function Digit(value: nat, e: nat): (d: nat)
    ensures d < 256
  {
    if e == 0 then value % 256 else Digit(value / 256, e - 1)
  }

  /** Digit e is the shift by 8 * e bits, masked to a byte. */
  lemma {:induction false} DigitIsShift(value: nat, e: nat)
    ensures Digit(value, e) == (value / Pow256(e)) % 256
  {
    if e > 0 {
      DigitIsShift(value / 256, e - 1);
      DivDiv(value, 256, Pow256(e - 1));
    }
  }

  /** ValueUpdater::Value: `bits / 8` bytes of `value`, most significant
      first, from `index` on. A bit count that is not a multiple of 8 or
      above 32, or a write past the end, is undefined in the source. */
  function ValueWrite(v: seq<byte>, index: nat, value: nat, bits: nat): (r: seq<byte>)
    requires bits % 8 == 0 && bits <= 32 && index + bits / 8 <= |v|
    ensures |r| == |v|
    decreases bits
  {
    if bits == 0 then v
    else ValueWrite(v[index := ByteAt(value, (bits - 8) / 8)], index + 1, value, bits - 8)
  }

  /** Byte by byte: position `index + t` receives byte t of the big-endian
      value, and nothing else changes. */
  lemma ValueWriteStep(v: seq<byte>, index: nat, value: nat, n: nat)
    requires 0 < n <= 4 && index + n <= |v|
    ensures ValueWrite(v, index, value, 8 * n) == ValueWrite(v[index := ByteAt(value, n - 1)], index + 1, value, 8 * (n - 1))
  {
    assert (8 * n - 8) / 8 == n - 1;
  }

  lemma {:induction false} ValueWriteBytes(v: seq<byte>, index: nat, value: nat, n: nat)
    requires n <= 4 && index + n <= |v|
    ensures forall j :: 0 <= j < |v| && !(index <= j < index + n) ==> ValueWrite(v, index, value, 8 * n)[j] == v[j]
    ensures forall j :: index <= j < index + n ==>
      ValueWrite(v, index, value, 8 * n)[j] == ByteAt(value, index + n - 1 - j)
    decreases n
  {
    if n > 0 {
      var r := ValueWrite(v, index, value, 8 * n);
      var w := v[index := ByteAt(value, n - 1)];
      ValueWriteStep(v, index, value, n);
      ValueWriteBytes(w, index + 1, value, n - 1);
      forall j | 0 <= j < |v| && !(index <= j < index + n)
        ensures r[j] == v[j]
      {
        assert r[j] == w[j];
      }
      assert r[index] == w[index];
      forall j | index + 1 <= j < index + n
        ensures r[j] == ByteAt(value, index + n - 1 - j)
      {
        var k: nat := index + n - 1 - j;
        assert (index + 1) + (n - 1) - 1 - j == k;
      }
    }
  }

  /** (x / a) / b == x / (a * b). */
  lemma DivDiv(x: nat, a: nat, b: nat)
    requires a > 0 && b > 0
    ensures x / a / b == x / (a * b)
  {
    var q := x / a;
    var r := x % a;
    var s := q / b;
    var t := q % b;
    assert x == a * q + r;
    assert q == b * s + t;
    assert a * q == a * b * s + a * t by {
      assert a * (b * s + t) == a * (b * s) + a * t;
    }
    assert a * t + r < a * b by {
      assert a * t <= a * (b - 1) by { MulLe(a, t, b - 1); }
      assert a * (b - 1) == a * b - a;
    }
    assert x == s * (a * b) + (a * t + r);
    LemmaModUnique(x, a * b, s, a * t + r);
    var d := x / (a * b);
    assert x == d * (a * b) + x % (a * b);
    assert (d - s) * (a * b) == 0;
    if d > s { MulPos(d - s, a * b); }
    if d < s { MulPos(s - d, a * b); }
  }

  lemma MulLe(a: nat, t: nat, u: nat)
    requires t <= u
    ensures a * t <= a * u
  {
  }

  /** Byte k of the n-byte big-endian encoding is digit n - 1 - k. */
  lemma {:induction false} ToBEAt(x: nat, n: nat, k: nat)
    requires k < n
    ensures ToBE(x, n)[k] as nat == Digit(x, n - 1 - k)
  {
    if k == n - 1 {
      ByteOfMod(x);
    } else {
      ToBEAt(x / 256, n - 1, k);
    }
  }

  lemma SameByte(a: byte, b: byte)
    requires a as nat == b as nat
    ensures a == b
  {
    ByteIntByte(a);
    ByteIntByte(b);
  }

  lemma ByteAtIsToBE(value: nat, n: nat, t: nat)
    requires t < n
    ensures ByteAt(value, n - 1 - t) == ToBE(value, n)[t]
  {
    ToBEAt(value, n, t);
    SameByte(ByteAt(value, n - 1 - t), ToBE(value, n)[t]);
  }

  /** The older writer agrees with the big-endian field writer the later
      versions share: it writes exactly BinaryIo.WriteBE's bytes. */
  lemma ValueWriteIsWriteBE(v: seq<byte>, index: nat, value: nat, n: nat)
    requires n <= 4 && index + n <= |v|
    ensures ValueWrite(v, index, value, 8 * n) == BinaryIo.WriteBE(v, index, value, n)
    ensures Bytes.BE(ValueWrite(v, index, value, 8 * n)[index..index + n]) == value % Pow256(n)
  {
    var r := ValueWrite(v, index, value, 8 * n);
    var w := BinaryIo.WriteBE(v, index, value, n);
    ValueWriteBytes(v, index, value, n);
    forall j | index <= j < index + n
      ensures r[j] == w[j]
    {
      assert w[j] == w[index..index + n][j - index];
      ByteAtIsToBE(value, n, j - index);
    }
    assert r == w;
  }

  // ---------------------------------------------------------------------
  // Filename reduction and guards
  // ---------------------------------------------------------------------

  const Slash: byte := 0x2F
  const Backslash: byte := 0x5C

  predicate IsSeparator(c: byte)
  {
    c == Slash || c == Backslash
  }

  /** find_last_of("\\/") over the first `n` characters. */
  function LastSeparator(s: seq<byte>, n: nat): (r: Option<nat>)
    requires n <= |s|
    ensures r.Some? ==> r.value < n && IsSeparator(s[r.value]) && forall j :: r.value < j < n ==> !IsSeparator(s[j])
    ensures r.None? ==> forall j :: 0 <= j < n ==> !IsSeparator(s[j])
  {
    if n == 0 then None
    else if IsSeparator(s[n - 1]) then Some(n - 1)
    else LastSeparator(s, n - 1)
  }

  /** Insert mode keeps only the text after the last '/' or '\'. */
  function ReduceName(name: seq<byte>): (r: seq<byte>)
  {
    match LastSeparator(name, |name|)
    case None => name
    case Some(i) => name[i + 1..]
  }

  /** The reduced name holds no separator and is what follows the last
      one: the name is a directory part ending in a separator (or
      nothing) followed by it. */
  lemma ReduceNameSplits(name: seq<byte>)
    ensures var r := ReduceName(name);
      && (forall j :: 0 <= j < |r| ==> !IsSeparator(r[j]))
      && |r| <= |name| && name == name[..|name| - |r|] + r
      && (|r| < |name| ==> IsSeparator(name[|name| - |r| - 1]))
  {
    var r := ReduceName(name);
    match LastSeparator(name, |name|)
    case None =>
    case Some(i) =>
      assert forall j :: 0 <= j < |r| ==> r[j] == name[i + 1 + j];
      assert name == name[..i + 1] + r;
  }

  /** Reducing twice is reducing once. */
  lemma ReduceNameIdempotent(name: seq<byte>)
    ensures ReduceName(ReduceName(name)) == ReduceName(name)
  {
    ReduceNameSplits(name);
    var r := ReduceName(name);
    assert LastSeparator(r, |r|).None?;
  }

  /** NAME_LENGTH: the length narrowed to `uint8_t`. */
  function NameLength(name: seq<byte>): (l: nat)
    ensures l < 256
    ensures |name| < 256 ==> l == |name|
  {
    |name| % 256
  }

  /** The size test of insert mode: the image, the data and one 18-byte
      profile header per started 65535 bytes plus one must fit in 200 MB. */
  predicate InsertSizeAccepted(imageSize: nat, fileSize: nat)
  {
    !(imageSize + fileSize + (fileSize / BlockSize * HeaderLength + HeaderLength) > MaxFileSize)
  }

  /** A larger image or a larger data file is never accepted where a
      smaller one was refused. */
  lemma InsertSizeMonotone(imageSize: nat, fileSize: nat, image2: nat, file2: nat)
    requires imageSize <= image2 && fileSize <= file2
    requires InsertSizeAccepted(image2, file2)
    ensures InsertSizeAccepted(imageSize, fileSize)
  {
    assert fileSize / BlockSize <= file2 / BlockSize;
  }

  /** What an accepted pair leaves room for: the data and image together
      stay 18 bytes under the limit, and a file of 200 MB never passes. */
  lemma InsertSizeBound(imageSize: nat, fileSize: nat)
    requires InsertSizeAccepted(imageSize, fileSize)
    ensures imageSize + fileSize + HeaderLength <= MaxFileSize
    ensures fileSize < MaxFileSize
  {
  }

  const JpgSig: seq<byte> := [0xFF, 0xD8, 0xFF]

  /** ShortImage stands for the read past the end of an image shorter
      than the signature. */
  datatype InsertCheckError = ShortImage | NotJpg | TooLarge

  /** The insert-mode checks before encryption: the image must start with
      FF D8 FF, then the size test. Reading the three bytes of a shorter
      image is undefined in the source, and an error here. */
  function CheckInsert(image: seq<byte>, fileSize: nat): (r: Option<InsertCheckError>)
    ensures r == Some(ShortImage) <==> |image| < 3
    ensures r.None? <==> |image| >= 3 && image[..3] == JpgSig && InsertSizeAccepted(|image|, fileSize)
    ensures r == Some(NotJpg) <==> |image| >= 3 && image[..3] != JpgSig
  {
    if |image| < 3 then Some(ShortImage)
    else if image[..3] != JpgSig then Some(NotJpg)
    else if !InsertSizeAccepted(|image|, fileSize) then Some(TooLarge)
    else None
  }

  // ---------------------------------------------------------------------
  // Key streams
  // ---------------------------------------------------------------------

  /** The filename key stream: XOR_KEY and its terminating zero, with
      period 7. */
  const NameKeyCycle: seq<byte> := XorKey + [0]

  function NameKeyAt(j: nat): byte
  {
    NameKeyCycle[j % 7]
  }

  /** The first `l` characters of `name` XORed with the filename key
      stream. */
  function CodeName(name: seq<byte>, l: nat): (r: seq<byte>)
    requires l <= |name|
    ensures |r| == l
  {
    seq(l, j requires 0 <= j < l => name[j] ^ NameKeyAt(j))
  }

  /** Byte j of the data key stream for the key `key`: the key and one zero
      byte, with period |key| + 1. */
  function DataKeyAt(key: seq<byte>, j: nat): byte
  {
    CharAt(key, j % (|key| + 1))
  }

  /** `s[p]` of a std::string: the character, or the terminating zero at
      p == |s| (the loop never looks further). */
  function CharAt(s: seq<byte>, p: nat): byte
  {
    if p < |s| then s[p] else 0
  }

  function XorStream(data: seq<byte>, key: seq<byte>): (r: seq<byte>)
    ensures |r| == |data|
  {
    seq(|data|, j requires 0 <= j < |data| => data[j] ^ DataKeyAt(key, j))
  }

  /** Coding a name twice gives it back. */
  lemma CodeNameTwice(name: seq<byte>, l: nat)
    requires l <= |name|
    ensures CodeName(CodeName(name, l), l) == name[..l]
  {
    var c := CodeName(name, l);
    forall j | 0 <= j < l
      ensures CodeName(c, l)[j] == name[j]
    {
      assert c[j] == name[j] ^ NameKeyAt(j);
      XorTwice(name[j], NameKeyAt(j));
    }
  }

  /** XORing data twice with the same key stream gives it back. */
  lemma XorStreamTwice(data: seq<byte>, key: seq<byte>)
    ensures XorStream(XorStream(data, key), key) == data
  {
    var c := XorStream(data, key);
    forall j | 0 <= j < |data|
      ensures XorStream(c, key)[j] == data[j]
    {
      XorTwice(data[j], DataKeyAt(key, j));
    }
  }

  lemma XorTwice(a: byte, k: byte)
    ensures (a ^ k) ^ k == a
  {
  }

  // ---------------------------------------------------------------------
  // encryptDecrypt
  // ---------------------------------------------------------------------

  datatype Mode = Insert | Extract

  /** The encoded (or decoded) filename and data. */
  datatype Coded = Coded(name: seq<byte>, data: seq<byte>)

  /** Reading past the end of the buffer (undefined behaviour in the
      source), or one of the two exits before the loop. */
  datatype JdvError = NameTooLong | FileTooSmall | ReadPastEnd

  /** XOR_KEY[q], with the terminating zero at q == 6. */
  function KeyChar(q: nat): byte
  {
    if q < |XorKey| then XorKey[q] else 0
  }

  /** The loop's variables: `i` is Index_Pos, `n` FILE_SIZE, `p`
      Name_Key_Pos, `q` Xor_Key_Pos, `k` Offset_Index, `outName` Out_Name,
      and `out` the encrypted or decrypted bytes so far. */
  datatype State = State(i: nat, n: nat, p: nat, q: nat, k: nat, outName: seq<byte>, out: seq<byte>)

  /** The name half of a pass: while the name lasts, Xor_Key_Pos wraps
      past the key's terminating zero and one more name character is coded. */
  function NamePart(inName: seq<byte>, l: nat, s: State): (r: State)
    requires l <= |inName|
  {
    if s.i < l then
      var q1 := if s.q > 6 then 0 else s.q;
      s.(q := q1 + 1, outName := s.outName + [inName[s.i] ^ KeyChar(q1)])
    else s
  }

  /** Name_Key_Pos once the name is done: it wraps past the name's last
      character (the terminating zero at position l). */
  function PReset(s: State, l: nat): nat
  {
    if s.i >= l && s.p > l then 0 else s.p
  }

  /** Whether, in extract mode, a header starts right after the byte
      just read. An offset is looked at only while `k` is inside `offsets`. */
  predicate SkipsHeader(mode: Mode, offsets: seq<nat>, s: State)
  {
    mode == Extract && s.k < |offsets| && s.i + 1 == offsets[s.k]
  }

  /** The key byte for data byte i: from the coded name built so far when
      inserting, from the stored name when extracting. */
  function DataKeyByte(mode: Mode, inName: seq<byte>, t: State, p1: nat): byte
  {
    if mode == Insert then CharAt(t.outName, p1) else CharAt(inName, p1)
  }

  /** One pass of the while loop, once `data[i]` is known to exist. */
  function Next(mode: Mode, inName: seq<byte>, l: nat, data: seq<byte>, offsets: seq<nat>, s: State): (r: State)
    requires l <= |inName| && s.i < |data|
    ensures r.n + s.i + 1 == s.n + r.i
  {
    var t := NamePart(inName, l, s);
    var p1 := PReset(s, l);
    var skip := SkipsHeader(mode, offsets, s);
    State(if skip then s.i + 1 + HeaderLength else s.i + 1,
          if skip then s.n + HeaderLength else s.n,
          p1 + 1, t.q,
          if skip then s.k + 1 else s.k,
          t.outName,
          s.out + [data[s.i] ^ DataKeyByte(mode, inName, t, p1)])
  }

  /** The while loop: it runs while FILE_SIZE > Index_Pos; a read at or
      past the end of the buffer is undefined in the source. */
  function Loop(mode: Mode, inName: seq<byte>, l: nat, data: seq<byte>, offsets: seq<nat>, s: State): Result<Coded, JdvError>
    requires l <= |inName|
    decreases s.n - s.i
  {
    if s.n <= s.i then Success(Coded(s.outName, s.out))
    else if s.i >= |data| then Failure(ReadPastEnd)
    else Loop(mode, inName, l, data, offsets, Next(mode, inName, l, data, offsets, s))
  }

  /** encryptDecrypt. In insert mode `fileName` is the user's filename and
      `data` the data file; in extract mode `fileName` is the stored encoded
      name and `data` what is left of the image, with header offsets. */
  function EncryptDecrypt(mode: Mode, fileName: seq<byte>, data: seq<byte>, offsets: seq<nat>): Result<Coded, JdvError>
  {
    var name := if mode == Insert then ReduceName(fileName) else fileName;
    var l := NameLength(name);
    var n := |data| % 0x1_0000_0000;
    if l > MaxFilenameLength then Failure(NameTooLong)
    else if l > n then Failure(FileTooSmall)
    else Loop(mode, name, l, data, offsets, State(0, n, 0, 0, 0, [], []))
  }

  // ---------------------------------------------------------------------
  // The loop's counters
  // ---------------------------------------------------------------------

  /** Name_Key_Pos after `m` bytes of output. */
  predicate PAfter(m: nat, p: nat, l: nat)
  {
    if m == 0 then p == 0 else p == (m - 1) % (l + 1) + 1
  }

  /** Xor_Key_Pos after `m` characters of the name. */
  predicate QAfter(m: nat, q: nat)
  {
    if m == 0 then q == 0 else q == (m - 1) % 7 + 1
  }

  lemma ModNext(m: nat, d: nat)
    requires m > 0 && d > 0
    ensures (m - 1) % d + 1 == d ==> m % d == 0
    ensures (m - 1) % d + 1 < d ==> m % d == (m - 1) % d + 1
  {
    var a := (m - 1) / d;
    var b := (m - 1) % d;
    assert m - 1 == a * d + b;
    if b + 1 == d {
      assert m == (a + 1) * d;
      LemmaModUnique(m, d, a + 1, 0);
    } else {
      assert m == a * d + (b + 1);
      LemmaModUnique(m, d, a, b + 1);
    }
  }

  /** The reset of Name_Key_Pos leaves it at m mod (l + 1). */
  lemma PStep(m: nat, p: nat, l: nat)
    requires PAfter(m, p, l)
    ensures var p1 := if m >= l && p > l then 0 else p;
      p1 == m % (l + 1) && PAfter(m + 1, p1 + 1, l)
  {
    if m > 0 {
      ModNext(m, l + 1);
      if m < l + 1 {
        LemmaModUnique(m - 1, l + 1, 0, m - 1);
        LemmaModUnique(m, l + 1, 0, m);
      }
    }
    LemmaModUnique(m, l + 1, m / (l + 1), m % (l + 1));
  }

  /** The reset of Xor_Key_Pos leaves it at m mod 7. */
  lemma QStep(m: nat, q: nat)
    requires QAfter(m, q)
    ensures var q1 := if q > 6 then 0 else q;
      q1 == m % 7 && QAfter(m + 1, q1 + 1) && KeyChar(q1) == NameKeyAt(m)
  {
  }

  /** The first min(m, l) characters of the coded name. */
  predicate NameSoFar(inName: seq<byte>, l: nat, m: nat, outName: seq<byte>)
    requires l <= |inName|
  {
    && |outName| == (if m < l then m else l)
    && forall j :: 0 <= j < |outName| ==> outName[j] == inName[j] ^ NameKeyAt(j)
  }

  /** While the name lasts, each pass codes one more of its characters. */
  lemma NameStep(inName: seq<byte>, l: nat, m: nat, q: nat, outName: seq<byte>)
    requires l <= |inName| && NameSoFar(inName, l, m, outName) && QAfter(m, q) && m < l
    ensures var q1 := if q > 6 then 0 else q;
      NameSoFar(inName, l, m + 1, outName + [inName[m] ^ KeyChar(q1)]) && QAfter(m + 1, q1 + 1)
  {
    QStep(m, q);
    var q1 := if q > 6 then 0 else q;
    NameGrows(inName, l, m, KeyChar(q1), outName);
  }

  lemma NameGrows(inName: seq<byte>, l: nat, m: nat, x: byte, outName: seq<byte>)
    requires l <= |inName| && NameSoFar(inName, l, m, outName) && m < l
    requires x == NameKeyAt(m)
    ensures NameSoFar(inName, l, m + 1, outName + [inName[m] ^ x])
  {
  }

  /** Once the name is coded, it is left alone. */
  lemma NameDone(inName: seq<byte>, l: nat, m: nat, outName: seq<byte>)
    requires l <= |inName| && NameSoFar(inName, l, m, outName) && l <= m
    ensures NameSoFar(inName, l, m + 1, outName)
  {
  }

  lemma ModBounds(x: nat, d: nat)
    requires d > 0
    ensures x % d < d && x % d <= x
  {
  }

  /** The data key byte read from the name so far at position m mod (l + 1)
      is byte m of the key stream of the whole coded name. */
  lemma KeyFromName(inName: seq<byte>, l: nat, m: nat, outName: seq<byte>)
    requires l <= |inName| && NameSoFar(inName, l, m + 1, outName)
    ensures CharAt(outName, m % (l + 1)) == DataKeyAt(CodeName(inName, l), m)
  {
    var r := m % (l + 1);
    ModBounds(m, l + 1);
    if r < l {
      assert outName[r] == CodeName(inName, l)[r];
    }
  }

  // ---------------------------------------------------------------------
  // Insert mode
  // ---------------------------------------------------------------------

  /** The state of the insert loop after `s.i` passes. */
  predicate InsertInv(inName: seq<byte>, l: nat, data: seq<byte>, s: State)
  {
    && l <= |inName| && l <= s.n <= |data| && s.i <= s.n && |s.out| == s.i
    && CodedPrefix(data, CodeName(inName, l), s.out)
    && NameSoFar(inName, l, s.i, s.outName)
    && PAfter(s.i, s.p, l) && (s.i <= l ==> QAfter(s.i, s.q))
  }

  /** Every output byte so far is the data byte at the same place under
      the key stream of `key`. */
  predicate CodedPrefix(data: seq<byte>, key: seq<byte>, out: seq<byte>)
  {
    |out| <= |data| && forall j :: 0 <= j < |out| ==> out[j] == data[j] ^ DataKeyAt(key, j)
  }

  lemma CodedGrows(data: seq<byte>, key: seq<byte>, out: seq<byte>, x: byte)
    requires CodedPrefix(data, key, out) && |out| < |data| && x == DataKeyAt(key, |out|)
    ensures CodedPrefix(data, key, out + [data[|out|] ^ x])
  {
  }

  lemma InsertStepOut(inName: seq<byte>, l: nat, data: seq<byte>, offsets: seq<nat>, s: State)
    requires l <= |inName| && s.i < |data| && |s.out| == s.i
    requires CodedPrefix(data, CodeName(inName, l), s.out) && PAfter(s.i, s.p, l)
    requires NameSoFar(inName, l, s.i + 1, Next(Insert, inName, l, data, offsets, s).outName)
    ensures var r := Next(Insert, inName, l, data, offsets, s);
      CodedPrefix(data, CodeName(inName, l), r.out) && PAfter(s.i + 1, r.p, l)
  {
    var r := Next(Insert, inName, l, data, offsets, s);
    PStep(s.i, s.p, l);
    KeyFromName(inName, l, s.i, r.outName);
    CodedGrows(data, CodeName(inName, l), s.out, DataKeyAt(CodeName(inName, l), s.i));
  }

  lemma InsertStep(inName: seq<byte>, l: nat, data: seq<byte>, offsets: seq<nat>, s: State)
    requires InsertInv(inName, l, data, s) && s.i < s.n
    ensures InsertInv(inName, l, data, Next(Insert, inName, l, data, offsets, s))
  {
    NamePass(Insert, inName, l, data, offsets, s, s.i);
    InsertStepOut(inName, l, data, offsets, s);
  }

  /** The insert loop codes the name with the fixed key stream and the
      data with the coded name. */
  lemma {:induction false} InsertLoopCodes(inName: seq<byte>, l: nat, data: seq<byte>, offsets: seq<nat>, s: State)
    requires InsertInv(inName, l, data, s)
    ensures Loop(Insert, inName, l, data, offsets, s)
         == Success(Coded(CodeName(inName, l), XorStream(data[..s.n], CodeName(inName, l))))
    decreases s.n - s.i
  {
    var key := CodeName(inName, l);
    if s.n <= s.i {
      assert s.outName == key;
      assert s.out == XorStream(data[..s.n], key);
    } else {
      InsertStep(inName, l, data, offsets, s);
      InsertLoopCodes(inName, l, data, offsets, Next(Insert, inName, l, data, offsets, s));
    }
  }

  /** Insert mode: the reduced name must fit in 23 characters and in the
      file; then the name is coded with the fixed key and the data with
      the coded name. */
  lemma InsertCodes(fileName: seq<byte>, data: seq<byte>, offsets: seq<nat>)
    requires |data| < 0x1_0000_0000
    ensures var name := ReduceName(fileName); var l := NameLength(name);
      var r := EncryptDecrypt(Insert, fileName, data, offsets);
      && (r == Failure(NameTooLong) <==> l > MaxFilenameLength)
      && (r == Failure(FileTooSmall) <==> l <= MaxFilenameLength && l > |data|)
      && (r.Success? <==> l <= MaxFilenameLength && l <= |data|)
      && (r.Success? ==> r.value == Coded(CodeName(name, l), XorStream(data, CodeName(name, l))))
  {
    var name := ReduceName(fileName);
    var l := NameLength(name);
    assert |data| % 0x1_0000_0000 == |data|;
    if l <= MaxFilenameLength && l <= |data| {
      InsertLoopCodes(name, l, data, offsets, State(0, |data|, 0, 0, 0, [], []));
      assert data[..|data|] == data;
    }
  }

  // ---------------------------------------------------------------------
  // Extract mode
  // ---------------------------------------------------------------------

  /** Where header k sits in the data: the number of data bytes before it. */
  function DataOffset(offsets: seq<nat>, k: nat): int
    requires k < |offsets|
  {
    offsets[k] - HeaderLength * k
  }

  /** The headers the loop can find: the first comes after at least one
      byte and after the name, and each next one after at least one more
      data byte. */
  predicate WellPlaced(offsets: seq<nat>, l: nat)
  {
    && (|offsets| > 0 ==> DataOffset(offsets, 0) >= 1 && DataOffset(offsets, 0) >= l)
    && forall k :: 0 <= k < |offsets| - 1 ==> DataOffset(offsets, k) < DataOffset(offsets, k + 1)
  }

  /** The first header from j on that comes after data byte m: the number
      of headers before byte m when j is 0. */
  function Skipped(offsets: seq<nat>, m: nat, j: nat): (r: nat)
    requires j <= |offsets|
    ensures j <= r <= |offsets|
    decreases |offsets| - j
  {
    if j < |offsets| && DataOffset(offsets, j) <= m then Skipped(offsets, m, j + 1) else j
  }

  lemma {:induction false} SkippedIs(offsets: seq<nat>, m: nat, j: nat, k: nat)
    requires j <= k <= |offsets|
    requires forall t :: j <= t < k ==> DataOffset(offsets, t) <= m
    requires k < |offsets| ==> DataOffset(offsets, k) > m
    ensures Skipped(offsets, m, j) == k
    decreases k - j
  {
    if j < k {
      SkippedIs(offsets, m, j + 1, k);
    }
  }

  /** Where the m-th data byte is read from. */
  function Pos(offsets: seq<nat>, m: nat): nat
  {
    m + HeaderLength * Skipped(offsets, m, 0)
  }

  /** Every one of the first `count` data bytes lies inside the buffer. */
  predicate Reachable(buffer: seq<byte>, offsets: seq<nat>, count: nat)
  {
    forall m :: 0 <= m < count ==> Pos(offsets, m) < |buffer|
  }

  /** The first `count` data bytes, read around the headers. */
  function Gather(buffer: seq<byte>, offsets: seq<nat>, count: nat): (r: seq<byte>)
    requires Reachable(buffer, offsets, count)
    ensures |r| == count
  {
    seq(count, m requires 0 <= m < count => buffer[Pos(offsets, m)])
  }

  /** The header bookkeeping after m data bytes with k headers skipped. */
  predicate SkipState(offsets: seq<nat>, m: nat, k: nat)
  {
    && k <= |offsets|
    && (forall t :: 0 <= t < k ==> DataOffset(offsets, t) <= m)
    && (k < |offsets| ==> DataOffset(offsets, k) > m)
  }

  /** After byte m the loop skips header k exactly when it comes next. */
  lemma SkipStep(offsets: seq<nat>, l: nat, m: nat, k: nat)
    requires WellPlaced(offsets, l) && SkipState(offsets, m, k)
    ensures Pos(offsets, m) == m + HeaderLength * k
    ensures var skip := k < |offsets| && m + 1 + HeaderLength * k == offsets[k];
      SkipState(offsets, m + 1, if skip then k + 1 else k)
  {
    SkippedIs(offsets, m, 0, k);
  }

  /** The state of the extract loop after |s.out| bytes of output. */
  predicate ExtractInv(inName: seq<byte>, data: seq<byte>, offsets: seq<nat>, count: nat, s: State)
  {
    var l := |inName|;
    var m := |s.out|;
    && l < 256 && l <= count && m <= count
    && WellPlaced(offsets, l) && SkipState(offsets, m, s.k)
    && s.i == m + HeaderLength * s.k && s.n == count + HeaderLength * s.k
    && DecodedPrefix(data, offsets, inName, s.out)
    && NameSoFar(inName, l, m, s.outName)
    && PAfter(m, s.p, l) && (m <= l ==> QAfter(m, s.q))
  }

  /** Every output byte so far is the byte read around the headers under
      the key stream of `key`. */
  predicate DecodedPrefix(data: seq<byte>, offsets: seq<nat>, key: seq<byte>, out: seq<byte>)
  {
    forall j :: 0 <= j < |out| ==> Pos(offsets, j) < |data| && out[j] == data[Pos(offsets, j)] ^ DataKeyAt(key, j)
  }

  lemma DecodedGrows(data: seq<byte>, offsets: seq<nat>, key: seq<byte>, out: seq<byte>, i: nat, x: byte)
    requires DecodedPrefix(data, offsets, key, out)
    requires Pos(offsets, |out|) == i < |data| && x == DataKeyAt(key, |out|)
    ensures DecodedPrefix(data, offsets, key, out + [data[i] ^ x])
  {
  }

  /** The extract pass in full: one byte out, decoded with the stored
      name, and header k skipped when it begins right after it. */
  lemma ExtractNext(inName: seq<byte>, data: seq<byte>, offsets: seq<nat>, s: State)
    requires s.i < |data|
    ensures var l := |inName|;
      var r := Next(Extract, inName, l, data, offsets, s);
      var p1 := PReset(s, l);
      var skip := s.k < |offsets| && s.i + 1 == offsets[s.k];
      && r.out == s.out + [data[s.i] ^ CharAt(inName, p1)]
      && r.p == p1 + 1
      && r.k == (if skip then s.k + 1 else s.k)
      && r.i == (if skip then s.i + 1 + HeaderLength else s.i + 1)
      && r.n == (if skip then s.n + HeaderLength else s.n)
  {
  }

  /** The data side of one extract pass: one more byte decoded from
      where it lies, with the header bookkeeping kept. */
  lemma ExtractStepSkip(inName: seq<byte>, data: seq<byte>, offsets: seq<nat>, count: nat, s: State, m: nat)
    requires s.i < |data| && |s.out| == m && WellPlaced(offsets, |inName|) && SkipState(offsets, m, s.k)
    requires s.i == m + HeaderLength * s.k && s.n == count + HeaderLength * s.k
    ensures var r := Next(Extract, inName, |inName|, data, offsets, s);
      && Pos(offsets, m) == s.i
      && |r.out| == m + 1 && SkipState(offsets, m + 1, r.k)
      && r.i == m + 1 + HeaderLength * r.k && r.n == count + HeaderLength * r.k
  {
    ExtractNext(inName, data, offsets, s);
    SkipStep(offsets, |inName|, m, s.k);
  }

  lemma ExtractStepOut(inName: seq<byte>, data: seq<byte>, offsets: seq<nat>, s: State, m: nat)
    requires s.i < |data| && |s.out| == m && Pos(offsets, m) == s.i
    requires DecodedPrefix(data, offsets, inName, s.out) && PAfter(m, s.p, |inName|)
    requires s.i >= |inName| <==> m >= |inName|
    ensures var r := Next(Extract, inName, |inName|, data, offsets, s);
      DecodedPrefix(data, offsets, inName, r.out) && PAfter(m + 1, r.p, |inName|)
  {
    var l := |inName|;
    ExtractNext(inName, data, offsets, s);
    PStep(m, s.p, l);
    DecodedGrows(data, offsets, inName, s.out, s.i, CharAt(inName, PReset(s, l)));
  }

  /** The data side of one extract pass: one more byte decoded from
      where it lies, with the header bookkeeping kept. */
  lemma ExtractStepData(inName: seq<byte>, data: seq<byte>, offsets: seq<nat>, count: nat, s: State)
    requires ExtractInv(inName, data, offsets, count, s) && s.i < s.n && s.i < |data|
    ensures var r := Next(Extract, inName, |inName|, data, offsets, s); var m := |s.out|;
      && |r.out| == m + 1 && SkipState(offsets, m + 1, r.k)
      && r.i == m + 1 + HeaderLength * r.k && r.n == count + HeaderLength * r.k
      && DecodedPrefix(data, offsets, inName, r.out)
      && PAfter(m + 1, r.p, |inName|)
  {
    var m := |s.out|;
    if s.k > 0 {
      assert DataOffset(offsets, 0) <= m;
    }
    ExtractStepSkip(inName, data, offsets, count, s, m);
    ExtractStepOut(inName, data, offsets, s, m);
  }

  /** What one pass does to the name: while i < l it appends the next
      coded character. */
  lemma NextNameBefore(mode: Mode, inName: seq<byte>, l: nat, data: seq<byte>, offsets: seq<nat>, s: State)
    requires l <= |inName| && s.i < |data| && s.i < l
    ensures var r := Next(mode, inName, l, data, offsets, s); var q1 := if s.q > 6 then 0 else s.q;
      r.outName == s.outName + [inName[s.i] ^ KeyChar(q1)] && r.q == q1 + 1
  {
  }

  /** ... and after the name it leaves the name alone. */
  lemma NextNameAfter(mode: Mode, inName: seq<byte>, l: nat, data: seq<byte>, offsets: seq<nat>, s: State)
    requires l <= |inName| && s.i < |data| && l <= s.i
    ensures Next(mode, inName, l, data, offsets, s).outName == s.outName
  {
  }

  /** The name side of any pass, after m name-or-data steps: the name
      grows by one coded character while i < l and is left alone after. */
  lemma NamePass(mode: Mode, inName: seq<byte>, l: nat, data: seq<byte>, offsets: seq<nat>, s: State, m: nat)
    requires l <= |inName| && s.i < |data|
    requires NameSoFar(inName, l, m, s.outName) && (m <= l ==> QAfter(m, s.q))
    requires (s.i < l ==> s.i == m) && (s.i >= l ==> m >= l)
    ensures var r := Next(mode, inName, l, data, offsets, s);
      NameSoFar(inName, l, m + 1, r.outName) && (m + 1 <= l ==> QAfter(m + 1, r.q))
  {
    if s.i < l {
      NextNameBefore(mode, inName, l, data, offsets, s);
      NameStep(inName, l, m, s.q, s.outName);
    } else {
      NextNameAfter(mode, inName, l, data, offsets, s);
      NameDone(inName, l, m, s.outName);
    }
  }

  /** The name side of one extract pass: while the name lasts no header
      has been skipped yet. */
  lemma ExtractStepName(inName: seq<byte>, data: seq<byte>, offsets: seq<nat>, count: nat, s: State)
    requires ExtractInv(inName, data, offsets, count, s) && s.i < s.n && s.i < |data|
    ensures var r := Next(Extract, inName, |inName|, data, offsets, s); var m := |s.out|;
      NameSoFar(inName, |inName|, m + 1, r.outName) && (m + 1 <= |inName| ==> QAfter(m + 1, r.q))
  {
    var l := |inName|;
    var m := |s.out|;
    if s.k > 0 {
      assert DataOffset(offsets, 0) <= m;
    }
    NamePass(Extract, inName, l, data, offsets, s, m);
  }

  lemma ExtractStep(inName: seq<byte>, data: seq<byte>, offsets: seq<nat>, count: nat, s: State)
    requires ExtractInv(inName, data, offsets, count, s) && s.i < s.n && s.i < |data|
    ensures ExtractInv(inName, data, offsets, count, Next(Extract, inName, |inName|, data, offsets, s))
  {
    ExtractStepData(inName, data, offsets, count, s);
    ExtractStepName(inName, data, offsets, count, s);
  }

  /** The extract loop decodes the name, and either every remaining data
      byte is inside the buffer and the output is the gathered bytes
      decoded with the stored name, or it reads past the end. */
  lemma {:induction false} ExtractLoopDecodes(inName: seq<byte>, data: seq<byte>, offsets: seq<nat>, count: nat, s: State)
    requires ExtractInv(inName, data, offsets, count, s)
    ensures var r := Loop(Extract, inName, |inName|, data, offsets, s);
      && (r.Success? <==> Reachable(data, offsets, count))
      && (r.Failure? ==> r.error == ReadPastEnd)
      && (r.Success? ==> r.value == Coded(CodeName(inName, |inName|), XorStream(Gather(data, offsets, count), inName)))
    decreases s.n - s.i
  {
    var l := |inName|;
    var m := |s.out|;
    SkipStep(offsets, l, m, s.k);
    if s.n <= s.i {
      assert s.outName == CodeName(inName, l);
      assert s.out == XorStream(Gather(data, offsets, count), inName);
    } else if s.i >= |data| {
      assert Pos(offsets, m) >= |data|;
    } else {
      ExtractStep(inName, data, offsets, count, s);
      ExtractLoopDecodes(inName, data, offsets, count, Next(Extract, inName, l, data, offsets, s));
    }
  }

  /** Extract mode with well-placed headers: after the two exits, the
      stored name is decoded, and the data is read around the headers and
      decoded with the stored name, unless a read falls past the end. */
  lemma ExtractDecodes(storedName: seq<byte>, data: seq<byte>, offsets: seq<nat>)
    requires |storedName| < 256 && |data| < 0x1_0000_0000
    requires WellPlaced(offsets, |storedName|)
    ensures var r := EncryptDecrypt(Extract, storedName, data, offsets); var l := |storedName|;
      && (r == Failure(NameTooLong) <==> l > MaxFilenameLength)
      && (r == Failure(FileTooSmall) <==> l <= MaxFilenameLength && l > |data|)
      && (l <= MaxFilenameLength && l <= |data| ==>
            (r.Success? <==> Reachable(data, offsets, |data|))
            && (r.Success? ==> r.value == Coded(CodeName(storedName, l), XorStream(Gather(data, offsets, |data|), storedName))))
  {
    var l := |storedName|;
    if l <= MaxFilenameLength && l <= |data| {
      ExtractLoopDecodes(storedName, data, offsets, |data|, State(0, |data|, 0, 0, 0, [], []));
    }
  }

  // ---------------------------------------------------------------------
  // Where the data bytes are read from
  // ---------------------------------------------------------------------

  /** Skipped counts exactly the headers whose data offset is at most m. */
  lemma {:induction false} SkippedSpec(offsets: seq<nat>, m: nat, j: nat)
    requires j <= |offsets|
    ensures var r := Skipped(offsets, m, j);
      && (forall t :: j <= t < r ==> DataOffset(offsets, t) <= m)
      && (r < |offsets| ==> DataOffset(offsets, r) > m)
    decreases |offsets| - j
  {
    if j < |offsets| && DataOffset(offsets, j) <= m {
      SkippedSpec(offsets, m, j + 1);
    }
  }

  /** Data offsets of well-placed headers only grow. */
  lemma {:induction false} DataOffsetGrows(offsets: seq<nat>, l: nat, a: nat, b: nat)
    requires WellPlaced(offsets, l) && a <= b < |offsets|
    ensures DataOffset(offsets, a) <= DataOffset(offsets, b)
    decreases b - a
  {
    if a < b {
      DataOffsetGrows(offsets, l, a, b - 1);
      assert DataOffset(offsets, b - 1) < DataOffset(offsets, b);
    }
  }

  /** A data byte is never read from inside a header: each position the
      loop reads lies before header k or past its 18 bytes. */
  lemma PosAvoidsHeaders(offsets: seq<nat>, l: nat, m: nat, k: nat)
    requires WellPlaced(offsets, l) && k < |offsets|
    ensures Pos(offsets, m) < offsets[k] || offsets[k] + HeaderLength <= Pos(offsets, m)
  {
    var r := Skipped(offsets, m, 0);
    SkippedSpec(offsets, m, 0);
    if k >= r {
      DataOffsetGrows(offsets, l, r, k);
      MulLe(HeaderLength, r, k);
    } else {
      assert DataOffset(offsets, k) <= m;
      MulLe(HeaderLength, k + 1, r);
    }
  }

  /** Skipping more headers for a later byte. */
  lemma SkippedGrows(offsets: seq<nat>, m: nat, m2: nat)
    requires m <= m2
    ensures Skipped(offsets, m, 0) <= Skipped(offsets, m2, 0)
  {
    var r := Skipped(offsets, m, 0);
    var r2 := Skipped(offsets, m2, 0);
    SkippedSpec(offsets, m, 0);
    SkippedSpec(offsets, m2, 0);
  }

  /** The data bytes are read in order, each from a later position. */
  lemma PosIncreasing(offsets: seq<nat>, m: nat, m2: nat)
    requires m < m2
    ensures Pos(offsets, m) < Pos(offsets, m2)
  {
    SkippedGrows(offsets, m, m2);
    MulLe(HeaderLength, Skipped(offsets, m, 0), Skipped(offsets, m2, 0));
  }

  /** The m-th data byte lies past m and at most 18 bytes per header
      further on. */
  lemma PosBounds(offsets: seq<nat>, m: nat)
    ensures m + HeaderLength * Skipped(offsets, m, 0) == Pos(offsets, m)
    ensures m <= Pos(offsets, m) <= m + HeaderLength * |offsets|
  {
    MulLe(HeaderLength, Skipped(offsets, m, 0), |offsets|);
  }

  // ---------------------------------------------------------------------
  // The trim before decryption
  // ---------------------------------------------------------------------

  /** The end of the image part kept for decryption: FILE_SIZE as written
      (the data without its headers), or FILE_SIZE plus one header length
      per header, as evidently intended. */
  function TrimEnd(storedSize: nat, offsets: seq<nat>, keepHeaders: bool): nat
  {
    if keepHeaders then storedSize + HeaderLength * |offsets| else storedSize
  }

  /** Extraction after findProfileHeaders as written: the buffer (the image
      from the data on) is cut at FILE_SIZE before the loop runs with
      FILE_SIZE as its bound. Cutting past the end is undefined. */
  function ExtractTrimmed(storedName: seq<byte>, buffer: seq<byte>, offsets: seq<nat>, storedSize: nat): Result<Coded, JdvError>
    requires storedSize < 0x1_0000_0000
  {
    if storedSize > |buffer| then Failure(ReadPastEnd)
    else EncryptDecrypt(Extract, storedName, buffer[..TrimEnd(storedSize, offsets, false)], offsets)
  }

  /** As written, the cut keeps too little: as soon as one header lies
      among the data bytes, the last bytes are read from past the cut. */
  lemma TrimmedReadsPastEnd(storedName: seq<byte>, buffer: seq<byte>, offsets: seq<nat>, storedSize: nat)
    requires |storedName| <= MaxFilenameLength && |storedName| <= storedSize <= |buffer| && storedSize < 0x1_0000_0000
    requires WellPlaced(offsets, |storedName|) && |offsets| > 0 && DataOffset(offsets, 0) < storedSize
    ensures ExtractTrimmed(storedName, buffer, offsets, storedSize) == Failure(ReadPastEnd)
  {
    var data := buffer[..storedSize];
    ExtractDecodes(storedName, data, offsets);
    var last: nat := storedSize - 1;
    SkippedSpec(offsets, last, 0);
    assert Skipped(offsets, last, 0) >= 1;
    assert Pos(offsets, last) >= |data|;
    assert !Reachable(data, offsets, storedSize);
    var r := EncryptDecrypt(Extract, storedName, data, offsets);
    assert r != Failure(NameTooLong) && r != Failure(FileTooSmall);
    assert r.Failure?;
    assert r.error == ReadPastEnd;
    assert ExtractTrimmed(storedName, buffer, offsets, storedSize) == r;
  }

  /** A small case: a one-character name, two data bytes and one header
      after the first byte. The stored size is 2, the cut keeps 2 bytes,
      and the second data byte is read from position 19. */
  lemma TrimmedExample()
    ensures ExtractTrimmed([0x61], seq(21, j => 0), [1], 2) == Failure(ReadPastEnd)
    ensures Pos([1], 1) == 19
  {
    assert WellPlaced([1], 1);
    TrimmedReadsPastEnd([0x61], seq(21, j => 0), [1], 2);
    assert Skipped([1], 1, 1) == 1;
  }

  /** Extraction with the cut placed after the data and all its headers,
      the loop still bounded by FILE_SIZE. */
  function ExtractCorrected(storedName: seq<byte>, buffer: seq<byte>, offsets: seq<nat>, storedSize: nat): (r: Result<Coded, JdvError>)
    requires storedSize < 0x1_0000_0000
  {
    var end := TrimEnd(storedSize, offsets, true);
    var l := NameLength(storedName);
    if end > |buffer| then Failure(ReadPastEnd)
    else if l > MaxFilenameLength then Failure(NameTooLong)
    else if l > storedSize then Failure(FileTooSmall)
    else Loop(Extract, storedName, l, buffer[..end], offsets, State(0, storedSize, 0, 0, 0, [], []))
  }

  /** With the corrected cut every data byte is inside the kept buffer,
      so extraction always succeeds: it decodes the stored name, and the
      FILE_SIZE data bytes read around the headers. */
  lemma CorrectedExtractDecodes(storedName: seq<byte>, buffer: seq<byte>, offsets: seq<nat>, storedSize: nat)
    requires |storedName| <= MaxFilenameLength && |storedName| <= storedSize < 0x1_0000_0000
    requires WellPlaced(offsets, |storedName|)
    requires TrimEnd(storedSize, offsets, true) <= |buffer|
    ensures var data := buffer[..TrimEnd(storedSize, offsets, true)];
      && Reachable(data, offsets, storedSize)
      && ExtractCorrected(storedName, buffer, offsets, storedSize)
         == Success(Coded(CodeName(storedName, |storedName|), XorStream(Gather(data, offsets, storedSize), storedName)))
  {
    var data := buffer[..TrimEnd(storedSize, offsets, true)];
    forall m | 0 <= m < storedSize
      ensures Pos(offsets, m) < |data|
    {
      PosBounds(offsets, m);
    }
    ExtractLoopDecodes(storedName, data, offsets, storedSize, State(0, storedSize, 0, 0, 0, [], []));
  }

  /** Round trip without headers: extraction of what insertion wrote gives
      back the data and the reduced filename, cut to its length as
      narrowed to a byte. */
  lemma InsertThenExtract(fileName: seq<byte>, data: seq<byte>)
    requires |data| < 0x1_0000_0000
    requires EncryptDecrypt(Insert, fileName, data, []).Success?
    ensures var c := EncryptDecrypt(Insert, fileName, data, []).value;
      var name := ReduceName(fileName);
      EncryptDecrypt(Extract, c.name, c.data, []) == Success(Coded(name[..NameLength(name)], data))
  {
    InsertCodes(fileName, data, []);
    var name := ReduceName(fileName);
    var l := NameLength(name);
    var c := EncryptDecrypt(Insert, fileName, data, []).value;
    ExtractDecodes(c.name, c.data, []);
    CodeNameTwice(name, l);
    assert Gather(c.data, [], |c.data|) == c.data;
    XorStreamTwice(data, c.name);
  }
}
