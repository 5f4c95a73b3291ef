/** The rotating-key cipher of the older jdvin/jdvout pair
    (src/jdvin/encrypt.cpp, src/jdvout/decrypt.cpp). Encryption draws a
    12-byte key, reverses it before every byte, codes the file name with
    it and the data with the coded name. Decryption takes the key from
    the end of the stored name, writes the data back in place and steps
    over the 18-byte profile headers found between the data. */
module RotatingCipher {
  import opened Wrappers
  import opened Bytes
  import JdvrifV12

  const KeyLength: nat := 12
  const NameLengthIndex: nat := 0x50
  const NameIndex: nat := 0x51
  const KeyIndex: nat := 0x260
  const ProfileSize: nat := 663

  /** ProfileTooShort: the template is shorter than the fixed writes and
      the insert position (undefined in the source). KeyPastEnd: the key
      copy reads past the end of the stored name. ReadPastEnd: a data read
      past the end of the image. */
  datatype CipherError = ProfileTooShort | KeyPastEnd | ReadPastEnd

  // ---------------------------------------------------------------------
  // The key
  // ---------------------------------------------------------------------

  function Reverse(s: seq<byte>): (r: seq<byte>)
    ensures |r| == |s|
  {
    seq(|s|, k requires 0 <= k < |s| => s[|s| - 1 - k])
  }

  lemma ReverseTwice(s: seq<byte>)
    ensures Reverse(Reverse(s)) == s
  {
  }

  /** The key array after `t` calls of std::reverse. */
  function Reversals(key: seq<byte>, t: nat): (r: seq<byte>)
    ensures |r| == |key|
  {
    if t == 0 then key else Reverse(Reversals(key, t - 1))
  }

  /** The key array used by pass j: reversed once more before each pass. */
  function KeyAt(key: seq<byte>, j: nat): (r: seq<byte>)
    ensures |r| == |key|
  {
    Reversals(key, j + 1)
  }

  /** Pass j uses the reversed key when j is even and the key as drawn
      when j is odd. */
  lemma {:induction false} KeyAlternates(key: seq<byte>, j: nat)
    ensures KeyAt(key, j) == if j % 2 == 0 then Reverse(key) else key
  {
    assert KeyAt(key, j) == Reverse(Reversals(key, j));
    if j > 0 {
      KeyAlternates(key, j - 1);
      assert (j - 1) % 2 == 0 <==> j % 2 == 1;
      ReverseTwice(key);
    }
  }

  /** Byte j of a name run through the key stream: the name byte XOR the
      byte at j mod 12 of the key array of pass j. */
  function NameByte(src: seq<byte>, key: seq<byte>, j: nat): byte
    requires j < |src| && |key| == KeyLength
  {
    src[j] ^ KeyAt(key, j)[j % KeyLength]
  }

  /** The first `count` bytes of a name run through the key stream. */
  function KeyedName(src: seq<byte>, key: seq<byte>, count: nat): (r: seq<byte>)
    requires count <= |src| && |key| == KeyLength
    ensures |r| == count
  {
    seq(count, j requires 0 <= j < count => NameByte(src, key, j))
  }

  /** Running a name through the same key stream twice gives it back. */
  lemma KeyedNameTwice(src: seq<byte>, key: seq<byte>, count: nat)
    requires count <= |src| && |key| == KeyLength
    ensures KeyedName(KeyedName(src, key, count), key, count) == src[..count]
  {
    var e := KeyedName(src, key, count);
    forall j | 0 <= j < count
      ensures NameByte(e, key, j) == src[j]
    {
      JdvrifV12.XorTwice(src[j], KeyAt(key, j)[j % KeyLength]);
    }
  }

  // ---------------------------------------------------------------------
  // The data key
  // ---------------------------------------------------------------------

  /** The cycle length of the name key position: L, or 1 for an empty
      name (the position is then reset before every byte). */
  function Period(l: nat): (d: nat)
    ensures d > 0
  {
    if l == 0 then 1 else l
  }

  /** Data key byte j: character j mod L of the coded name, or the
      string's terminating zero when the name is empty. */
  function DataKey(name: seq<byte>, l: nat, j: nat): byte
  {
    JdvrifV12.CharAt(name, j % Period(l))
  }

  /** The data XOR the coded name's key stream. */
  function XorData(data: seq<byte>, name: seq<byte>, l: nat): (r: seq<byte>)
    ensures |r| == |data|
  {
    seq(|data|, j requires 0 <= j < |data| => data[j] ^ DataKey(name, l, j))
  }

  // ---------------------------------------------------------------------
  // One pass of either loop
  // ---------------------------------------------------------------------

  /** The key array, Xor_Key_Pos and the name coded so far. */
  datatype NameState = NameState(key: seq<byte>, x: nat, coded: seq<byte>)

  /** The name side of a pass at read index i: the key is reversed, and
      while i < L the next name byte is coded at the wrapped key position. */
  function NamePass(src: seq<byte>, l: nat, i: nat, ns: NameState): (r: NameState)
    requires l <= |src| && |ns.key| == KeyLength
    ensures |r.key| == KeyLength
    ensures |r.coded| == if i < l then |ns.coded| + 1 else |ns.coded|
  {
    var key1 := Reverse(ns.key);
    if i < l then
      var x0 := if ns.x >= KeyLength then 0 else ns.x;
      NameState(key1, x0 + 1, ns.coded + [src[i] ^ key1[x0]])
    else
      NameState(key1, ns.x, ns.coded)
  }

  /** Name_Key_Pos as the pass reads it: reset to 0 once past the name
      and at or beyond L. */
  function NameKeyPos(l: nat, i: nat, p: nat): nat
  {
    if i >= l && p >= l then 0 else p
  }

  /** Xor_Key_Pos after m name bytes. */
  predicate XAfter(m: nat, x: nat)
  {
    if m == 0 then x == 0 else x == (m - 1) % KeyLength + 1
  }

  /** Name_Key_Pos after m passes. */
  predicate PAfter(m: nat, p: nat, l: nat)
  {
    if m == 0 then p == 0 else p == (m - 1) % Period(l) + 1
  }

  lemma XStep(m: nat, x: nat)
    requires XAfter(m, x)
    ensures var x0 := if x >= KeyLength then 0 else x;
      x0 == m % KeyLength && XAfter(m + 1, x0 + 1)
  {
    if m > 0 {
      JdvrifV12.ModNext(m, KeyLength);
    }
  }

  /** The reset of Name_Key_Pos leaves it at m mod L for pass m, provided
      the read index is m while the name lasts. */
  lemma PStep(m: nat, p: nat, l: nat, i: nat)
    requires PAfter(m, p, l)
    requires (i < l ==> i == m) && (i >= l ==> m >= l)
    ensures var p1 := NameKeyPos(l, i, p);
      p1 == m % Period(l) && PAfter(m + 1, p1 + 1, l)
  {
    var d := Period(l);
    if m > 0 {
      JdvrifV12.ModNext(m, d);
      if m < l {
        LemmaModUnique(m - 1, d, 0, m - 1);
        LemmaModUnique(m, d, 0, m);
      }
    }
    LemmaModUnique(m, d, m / d, m % d);
  }

  /** The first min(m, L) bytes of the name run through the key stream. */
  predicate NameSoFar(src: seq<byte>, key: seq<byte>, l: nat, m: nat, coded: seq<byte>)
    requires l <= |src| && |key| == KeyLength
  {
    && |coded| == Min(m, l)
    && forall j :: 0 <= j < |coded| ==> coded[j] == NameByte(src, key, j)
  }

  lemma NameGrows(src: seq<byte>, key: seq<byte>, l: nat, m: nat, coded: seq<byte>, b: byte)
    requires l <= |src| && |key| == KeyLength && m < l
    requires NameSoFar(src, key, l, m, coded) && b == NameByte(src, key, m)
    ensures NameSoFar(src, key, l, m + 1, coded + [b])
  {
  }

  /** While the name lasts, pass m codes name byte m with the key array of
      pass m. */
  lemma NameStep(src: seq<byte>, key: seq<byte>, l: nat, m: nat, ns: NameState)
    requires l <= |src| && |key| == KeyLength && m < l
    requires ns.key == Reversals(key, m) && NameSoFar(src, key, l, m, ns.coded) && XAfter(m, ns.x)
    ensures var r := NamePass(src, l, m, ns);
      r.key == Reversals(key, m + 1) && NameSoFar(src, key, l, m + 1, r.coded) && XAfter(m + 1, r.x)
  {
    XStep(m, ns.x);
    var x0 := if ns.x >= KeyLength then 0 else ns.x;
    assert Reverse(ns.key) == KeyAt(key, m);
    NameGrows(src, key, l, m, ns.coded, src[m] ^ Reverse(ns.key)[x0]);
  }

  /** Past the name, a pass only reverses the key. */
  lemma NameDone(src: seq<byte>, key: seq<byte>, l: nat, m: nat, i: nat, ns: NameState)
    requires l <= |src| && |key| == KeyLength && l <= m && l <= i
    requires ns.key == Reversals(key, m) && NameSoFar(src, key, l, m, ns.coded)
    ensures var r := NamePass(src, l, i, ns);
      r.key == Reversals(key, m + 1) && NameSoFar(src, key, l, m + 1, r.coded)
  {
  }

  /** The name side of pass m at read index i, which is m while the name
      lasts. */
  lemma NameSide(src: seq<byte>, key: seq<byte>, l: nat, m: nat, i: nat, ns: NameState)
    requires l <= |src| && |key| == KeyLength
    requires (i < l ==> i == m) && (i >= l ==> m >= l)
    requires ns.key == Reversals(key, m) && NameSoFar(src, key, l, m, ns.coded) && (m <= l ==> XAfter(m, ns.x))
    ensures var r := NamePass(src, l, i, ns);
      && r.key == Reversals(key, m + 1) && NameSoFar(src, key, l, m + 1, r.coded)
      && (m + 1 <= l ==> XAfter(m + 1, r.x))
  {
    if i < l {
      NameStep(src, key, l, m, ns);
    } else {
      NameDone(src, key, l, m, i, ns);
    }
  }

  // ---------------------------------------------------------------------
  // encryptFile
  // ---------------------------------------------------------------------

  /** The encrypt loop after `i` passes: the ciphertext so far is `out`. */
  datatype EncState = EncState(i: nat, ns: NameState, p: nat, out: seq<byte>)

  function EncNext(name: seq<byte>, l: nat, data: seq<byte>, s: EncState): (r: EncState)
    requires l <= |name| && |s.ns.key| == KeyLength && s.i < |data|
    ensures |r.ns.key| == KeyLength && r.i == s.i + 1
  {
    var ns := NamePass(name, l, s.i, s.ns);
    var p1 := NameKeyPos(l, s.i, s.p);
    EncState(s.i + 1, ns, p1 + 1, s.out + [data[s.i] ^ JdvrifV12.CharAt(ns.coded, p1)])
  }

  function EncLoop(name: seq<byte>, l: nat, data: seq<byte>, s: EncState): (r: EncState)
    requires l <= |name| && |s.ns.key| == KeyLength && |s.ns.coded| <= Min(s.i, l)
    ensures |r.ns.coded| <= l
    ensures s.i <= |data| ==> |r.out| == |s.out| + |data| - s.i
    decreases |data| - s.i
  {
    if s.i >= |data| then s else EncLoop(name, l, data, EncNext(name, l, data, s))
  }

  /** Write `w` over `v` from `at` on. */
  function Overwrite(v: seq<byte>, at: nat, w: seq<byte>): (r: seq<byte>)
    requires at + |w| <= |v|
    ensures |r| == |v|
  {
    v[..at] + w + v[at + |w|..]
  }

  /** The profile after encryption: the key at 0x260, the name length at
      0x50, the coded name from 0x51 on, and the ciphertext inserted at
      663. */
  function Store(profile: seq<byte>, key: seq<byte>, l: nat, coded: seq<byte>, cipher: seq<byte>): (r: seq<byte>)
    requires |profile| >= ProfileSize && |key| == KeyLength && l < 256 && |coded| < 256
    ensures |r| == |profile| + |cipher|
  {
    var p1 := Overwrite(profile, KeyIndex, key);
    var p2 := p1[NameLengthIndex := ByteOf(l)];
    var p3 := Overwrite(p2, NameIndex, coded);
    p3[..ProfileSize] + cipher + p3[ProfileSize..]
  }

  /** encryptFile with the random key as a parameter. The name length is
      kept modulo 256, and the loop runs once per data byte. */
  function EncryptFile(profile: seq<byte>, data: seq<byte>, fileName: seq<byte>, key: seq<byte>): (r: Result<seq<byte>, CipherError>)
    requires |key| == KeyLength
    ensures r.Success? ==> |r.value| == |profile| + |data|
  {
    if |profile| < ProfileSize then Failure(ProfileTooShort)
    else
      var l := |fileName| % 256;
      var s := EncLoop(fileName, l, data, EncState(0, NameState(key, 0, []), 0, []));
      Success(Store(profile, key, l, s.ns.coded, s.out))
  }

  /** Every ciphertext byte so far is the data byte XOR the key stream of
      the whole coded name. */
  predicate CodedPrefix(data: seq<byte>, e: seq<byte>, l: nat, out: seq<byte>)
  {
    && |out| <= |data|
    && forall j :: 0 <= j < |out| ==> out[j] == data[j] ^ DataKey(e, l, j)
  }

  /** The encrypt loop after s.i passes. */
  predicate EncInv(name: seq<byte>, l: nat, data: seq<byte>, key: seq<byte>, s: EncState)
  {
    && l <= |name| && |key| == KeyLength && s.i <= |data| && |s.out| == s.i
    && s.ns.key == Reversals(key, s.i) && NameSoFar(name, key, l, s.i, s.ns.coded)
    && (s.i <= l ==> XAfter(s.i, s.ns.x)) && PAfter(s.i, s.p, l)
    && CodedPrefix(data, KeyedName(name, key, Min(|data|, l)), l, s.out)
  }

  /** The key byte pass m reads from the name coded so far is byte m of
      the key stream of the whole coded name. */
  lemma KeyFromName(name: seq<byte>, key: seq<byte>, l: nat, n: nat, m: nat, coded: seq<byte>)
    requires l <= |name| && |key| == KeyLength && m < n
    requires NameSoFar(name, key, l, m + 1, coded)
    ensures JdvrifV12.CharAt(coded, m % Period(l)) == DataKey(KeyedName(name, key, Min(n, l)), l, m)
  {
    var r := m % Period(l);
    JdvrifV12.ModBounds(m, Period(l));
    if l > 0 {
      assert coded[r] == KeyedName(name, key, Min(n, l))[r];
    }
  }

  lemma CodedGrows(data: seq<byte>, e: seq<byte>, l: nat, out: seq<byte>, b: byte)
    requires CodedPrefix(data, e, l, out) && |out| < |data| && b == DataKey(e, l, |out|)
    ensures CodedPrefix(data, e, l, out + [data[|out|] ^ b])
  {
  }

  lemma EncStep(name: seq<byte>, l: nat, data: seq<byte>, key: seq<byte>, s: EncState)
    requires EncInv(name, l, data, key, s) && s.i < |data|
    ensures EncInv(name, l, data, key, EncNext(name, l, data, s))
  {
    var m := s.i;
    NameSide(name, key, l, m, m, s.ns);
    PStep(m, s.p, l, m);
    var ns := NamePass(name, l, m, s.ns);
    KeyFromName(name, key, l, |data|, m, ns.coded);
    CodedGrows(data, KeyedName(name, key, Min(|data|, l)), l, s.out, JdvrifV12.CharAt(ns.coded, NameKeyPos(l, m, s.p)));
  }

  /** The encrypt loop codes min(|data|, L) name bytes and XORs every data
      byte with the coded name's key stream. */
  lemma {:induction false} EncLoopCodes(name: seq<byte>, l: nat, data: seq<byte>, key: seq<byte>, s: EncState)
    requires EncInv(name, l, data, key, s) && |s.ns.coded| <= Min(s.i, l)
    ensures var r := EncLoop(name, l, data, s); var e := KeyedName(name, key, Min(|data|, l));
      r.ns.coded == e && r.out == XorData(data, e, l)
    decreases |data| - s.i
  {
    if s.i >= |data| {
      var e := KeyedName(name, key, Min(|data|, l));
      assert s.ns.coded == e;
      assert s.out == XorData(data, e, l);
    } else {
      EncStep(name, l, data, key, s);
      EncLoopCodes(name, l, data, key, EncNext(name, l, data, s));
    }
  }

  // ---------------------------------------------------------------------
  // Where encryptFile puts things
  // ---------------------------------------------------------------------

  /** The bytes of an overwrite: `w` in its window, `v` elsewhere. */
  lemma OverwriteAt(v: seq<byte>, at: nat, w: seq<byte>)
    requires at + |w| <= |v|
    ensures var r := Overwrite(v, at, w);
      && r[at..at + |w|] == w
      && (forall j :: 0 <= j < at ==> r[j] == v[j])
      && (forall j :: at + |w| <= j < |v| ==> r[j] == v[j])
  {
  }

  /** What Store writes, and that every other byte of the template is
      kept. */
  lemma StoreLayout(profile: seq<byte>, key: seq<byte>, l: nat, coded: seq<byte>, cipher: seq<byte>)
    requires |profile| >= ProfileSize && |key| == KeyLength && l < 256 && |coded| < 256
    ensures var r := Store(profile, key, l, coded, cipher);
      && r[KeyIndex..KeyIndex + KeyLength] == key
      && r[NameLengthIndex] as nat == l
      && r[NameIndex..NameIndex + |coded|] == coded
      && r[ProfileSize..ProfileSize + |cipher|] == cipher
      && r[ProfileSize + |cipher|..] == profile[ProfileSize..]
      && (forall j :: 0 <= j < NameLengthIndex ==> r[j] == profile[j])
      && (forall j :: NameIndex + |coded| <= j < KeyIndex ==> r[j] == profile[j])
      && (forall j :: KeyIndex + KeyLength <= j < ProfileSize ==> r[j] == profile[j])
  {
    var p1 := Overwrite(profile, KeyIndex, key);
    var p2 := p1[NameLengthIndex := ByteOf(l)];
    var p3 := Overwrite(p2, NameIndex, coded);
    var r := Store(profile, key, l, coded, cipher);
    OverwriteAt(profile, KeyIndex, key);
    OverwriteAt(p2, NameIndex, coded);
    assert r[..ProfileSize] == p3[..ProfileSize];
    assert r[ProfileSize + |cipher|..] == p3[ProfileSize..];
    assert r[KeyIndex..KeyIndex + KeyLength] == p3[KeyIndex..KeyIndex + KeyLength];
    assert r[NameIndex..NameIndex + |coded|] == p3[NameIndex..NameIndex + |coded|];
    assert p3[KeyIndex..KeyIndex + KeyLength] == p1[KeyIndex..KeyIndex + KeyLength];
  }

  /** encryptFile fails only on a template too short for its writes;
      otherwise the key sits at 0x260, L at 0x50, the name coded with the
      rotating key from 0x51 on, and from 663 on the data XOR the coded
      name's key stream, followed by the rest of the template. */
  lemma EncryptLays(profile: seq<byte>, data: seq<byte>, fileName: seq<byte>, key: seq<byte>)
    requires |key| == KeyLength
    ensures var r := EncryptFile(profile, data, fileName, key);
      var l := |fileName| % 256; var e := KeyedName(fileName, key, Min(|data|, l));
      && (r.Failure? <==> |profile| < ProfileSize)
      && (r.Success? ==>
            && |r.value| == |profile| + |data|
            && r.value[KeyIndex..KeyIndex + KeyLength] == key
            && r.value[NameLengthIndex] as nat == l
            && r.value[NameIndex..NameIndex + |e|] == e
            && r.value[ProfileSize..ProfileSize + |data|] == XorData(data, e, l)
            && r.value[ProfileSize + |data|..] == profile[ProfileSize..])
  {
    if |profile| >= ProfileSize {
      var l := |fileName| % 256;
      var s0 := EncState(0, NameState(key, 0, []), 0, []);
      EncLoopCodes(fileName, l, data, key, s0);
      var s := EncLoop(fileName, l, data, s0);
      StoreLayout(profile, key, l, s.ns.coded, s.out);
    }
  }

  // ---------------------------------------------------------------------
  // decryptFile
  // ---------------------------------------------------------------------

  /** The decrypt loop: read index, bound, write index, name state, name
      key position, next header and the image written in place. */
  datatype DecState = DecState(i: nat, n: nat, d: nat, ns: NameState, p: nat, k: nat, img: seq<byte>)

  /** The read index has just reached the next recorded header. An offset
      index past the recorded headers never matches. */
  predicate SkipsHeader(offsets: seq<nat>, s: DecState)
  {
    s.k < |offsets| && s.i + 1 == offsets[s.k]
  }

  function DecNext(fn: seq<byte>, l: nat, offsets: seq<nat>, s: DecState): (r: DecState)
    requires l <= |fn| && |s.ns.key| == KeyLength && s.d <= s.i < |s.img|
    ensures |r.ns.key| == KeyLength && r.d <= r.i && |r.img| == |s.img|
    ensures r.n + s.i + 1 == s.n + r.i
  {
    var ns := NamePass(fn, l, s.i, s.ns);
    var p1 := NameKeyPos(l, s.i, s.p);
    var skip := SkipsHeader(offsets, s);
    DecState(
      if skip then s.i + 1 + JdvrifV12.HeaderLength else s.i + 1,
      if skip then s.n + JdvrifV12.HeaderLength else s.n,
      s.d + 1, ns, p1 + 1,
      if skip then s.k + 1 else s.k,
      s.img[s.d := s.img[s.i] ^ JdvrifV12.CharAt(fn, p1)])
  }

  function DecLoop(fn: seq<byte>, l: nat, offsets: seq<nat>, s: DecState): Result<DecState, CipherError>
    requires l <= |fn| && |s.ns.key| == KeyLength && s.d <= s.i
    decreases s.n - s.i
  {
    if s.n <= s.i then Success(s)
    else if s.i >= |s.img| then Failure(ReadPastEnd)
    else DecLoop(fn, l, offsets, DecNext(fn, l, offsets, s))
  }

  /** The decrypted name and the image after decryption. */
  datatype Decrypted = Decrypted(name: seq<byte>, data: seq<byte>)

  /** decryptFile: L is the stored name's length less 12, modulo 256; the
      key is the 12 bytes after it. The image keeps its size: the loop
      writes each decoded byte over the front of it. */
  function DecryptFile(image: seq<byte>, offsets: seq<nat>, fileName: seq<byte>): Result<Decrypted, CipherError>
  {
    var l := (|fileName| - KeyLength) % 256;
    if |fileName| < l + KeyLength then Failure(KeyPastEnd)
    else
      var key := fileName[l..l + KeyLength];
      match DecLoop(fileName, l, offsets, DecState(0, |image|, 0, NameState(key, 0, []), 0, 0, image))
      case Failure(e) => Failure(e)
      case Success(s) => Success(Decrypted(s.ns.coded, s.img))
  }

  /** Every byte written so far is the byte read around the headers XOR
      the stored name's key stream. */
  predicate DecodedPrefix(img0: seq<byte>, offsets: seq<nat>, fn: seq<byte>, l: nat, m: nat, img: seq<byte>)
  {
    && m <= |img|
    && forall j :: 0 <= j < m ==>
         JdvrifV12.Pos(offsets, j) < |img0| && img[j] == img0[JdvrifV12.Pos(offsets, j)] ^ DataKey(fn, l, j)
  }

  /** Nothing from position m on has been written yet. */
  predicate Untouched(img0: seq<byte>, m: nat, img: seq<byte>)
  {
    |img| == |img0| && forall j :: m <= j < |img| ==> img[j] == img0[j]
  }

  /** The decrypt loop after s.d passes over the image `img0`. */
  predicate DecInv(fn: seq<byte>, l: nat, key: seq<byte>, img0: seq<byte>, offsets: seq<nat>, count: nat, s: DecState)
  {
    var m := s.d;
    && l <= |fn| && |key| == KeyLength && m <= |img0| && m <= count
    && JdvrifV12.WellPlaced(offsets, l) && JdvrifV12.SkipState(offsets, m, s.k)
    && s.i == m + JdvrifV12.HeaderLength * s.k && s.n == count + JdvrifV12.HeaderLength * s.k
    && DecodedPrefix(img0, offsets, fn, l, m, s.img) && Untouched(img0, m, s.img)
    && s.ns.key == Reversals(key, m) && NameSoFar(fn, key, l, m, s.ns.coded)
    && (m <= l ==> XAfter(m, s.ns.x)) && PAfter(m, s.p, l)
  }

  lemma DecodedGrows(img0: seq<byte>, offsets: seq<nat>, fn: seq<byte>, l: nat, m: nat, img: seq<byte>, i: nat, b: byte)
    requires DecodedPrefix(img0, offsets, fn, l, m, img) && Untouched(img0, m, img) && m < |img|
    requires JdvrifV12.Pos(offsets, m) == i && m <= i < |img| && b == DataKey(fn, l, m)
    ensures var img1 := img[m := img[i] ^ b];
      DecodedPrefix(img0, offsets, fn, l, m + 1, img1) && Untouched(img0, m + 1, img1)
  {
  }

  /** The header side of a decrypt pass: the read index stays 18 bytes
      per skipped header ahead of the write index. */
  lemma DecStepSkip(fn: seq<byte>, l: nat, offsets: seq<nat>, count: nat, s: DecState)
    requires l <= |fn| && |s.ns.key| == KeyLength && s.d <= s.i < |s.img|
    requires JdvrifV12.WellPlaced(offsets, l) && JdvrifV12.SkipState(offsets, s.d, s.k)
    requires s.i == s.d + JdvrifV12.HeaderLength * s.k && s.n == count + JdvrifV12.HeaderLength * s.k
    ensures var r := DecNext(fn, l, offsets, s);
      && JdvrifV12.Pos(offsets, s.d) == s.i
      && JdvrifV12.SkipState(offsets, s.d + 1, r.k)
      && r.i == s.d + 1 + JdvrifV12.HeaderLength * r.k && r.n == count + JdvrifV12.HeaderLength * r.k
  {
    JdvrifV12.SkipStep(offsets, l, s.d, s.k);
  }

  /** The data side of a decrypt pass: one more byte decoded in place. */
  lemma DecStepData(fn: seq<byte>, l: nat, offsets: seq<nat>, img0: seq<byte>, s: DecState)
    requires l <= |fn| && |s.ns.key| == KeyLength && s.d <= s.i < |s.img| && s.d < |img0|
    requires JdvrifV12.Pos(offsets, s.d) == s.i
    requires DecodedPrefix(img0, offsets, fn, l, s.d, s.img) && Untouched(img0, s.d, s.img)
    requires PAfter(s.d, s.p, l) && (s.i < l ==> s.i == s.d) && (s.i >= l ==> s.d >= l)
    ensures var r := DecNext(fn, l, offsets, s);
      && DecodedPrefix(img0, offsets, fn, l, s.d + 1, r.img) && Untouched(img0, s.d + 1, r.img)
      && PAfter(s.d + 1, r.p, l)
  {
    PStep(s.d, s.p, l, s.i);
    DecodedGrows(img0, offsets, fn, l, s.d, s.img, s.i, JdvrifV12.CharAt(fn, NameKeyPos(l, s.i, s.p)));
  }

  lemma DecStep(fn: seq<byte>, l: nat, key: seq<byte>, img0: seq<byte>, offsets: seq<nat>, count: nat, s: DecState)
    requires DecInv(fn, l, key, img0, offsets, count, s) && s.i < s.n && s.i < |s.img|
    ensures DecInv(fn, l, key, img0, offsets, count, DecNext(fn, l, offsets, s))
  {
    var m := s.d;
    if s.k > 0 {
      assert JdvrifV12.DataOffset(offsets, 0) <= m;
    }
    DecStepSkip(fn, l, offsets, count, s);
    DecStepData(fn, l, offsets, img0, s);
    NameSide(fn, key, l, m, s.i, s.ns);
  }

  /** The decrypt loop with its bound starting at `count` decodes
      min(count, L) name bytes, and either the first `count` data bytes
      lie inside the image and its front ends up holding them XOR the
      stored name's key stream, the rest left as it was, or a read falls
      past the end. */
  lemma {:induction false} DecLoopDecodes(fn: seq<byte>, l: nat, key: seq<byte>, img0: seq<byte>, offsets: seq<nat>, count: nat, s: DecState)
    requires DecInv(fn, l, key, img0, offsets, count, s)
    ensures var r := DecLoop(fn, l, offsets, s);
      && (r.Success? <==> JdvrifV12.Reachable(img0, offsets, count))
      && (r.Failure? ==> r.error == ReadPastEnd)
      && (r.Success? ==>
            && r.value.ns.coded == KeyedName(fn, key, Min(count, l))
            && count <= |r.value.img| == |img0|
            && r.value.img[..count] == XorData(JdvrifV12.Gather(img0, offsets, count), fn, l)
            && r.value.img[count..] == img0[count..])
    decreases s.n - s.i
  {
    var m := s.d;
    JdvrifV12.SkipStep(offsets, l, m, s.k);
    if s.n <= s.i {
      assert s.ns.coded == KeyedName(fn, key, Min(count, l));
      assert s.img[..count] == XorData(JdvrifV12.Gather(img0, offsets, count), fn, l);
    } else if s.i >= |s.img| {
      assert JdvrifV12.Pos(offsets, m) >= |img0|;
    } else {
      DecStep(fn, l, key, img0, offsets, count, s);
      DecLoopDecodes(fn, l, key, img0, offsets, count, DecNext(fn, l, offsets, s));
    }
  }

  /** decryptFile with well-placed headers: it fails on a stored name
      shorter than the key; otherwise the name is the stored one run
      through the key stream, and the data is read around the headers and
      XORed with the stored name's key stream, unless a read falls past the
      end of the image. */
  lemma DecryptDecodes(image: seq<byte>, offsets: seq<nat>, fileName: seq<byte>)
    requires JdvrifV12.WellPlaced(offsets, (|fileName| - KeyLength) % 256)
    ensures var r := DecryptFile(image, offsets, fileName); var l := (|fileName| - KeyLength) % 256;
      && (r == Failure(KeyPastEnd) <==> |fileName| < KeyLength)
      && (|fileName| >= KeyLength ==>
            var key := fileName[l..l + KeyLength];
            && (r.Success? <==> JdvrifV12.Reachable(image, offsets, |image|))
            && (r.Failure? ==> r.error == ReadPastEnd)
            && (r.Success? ==> r.value == Decrypted(KeyedName(fileName, key, Min(|image|, l)),
                                                    XorData(JdvrifV12.Gather(image, offsets, |image|), fileName, l))))
  {
    var l := (|fileName| - KeyLength) % 256;
    if |fileName| >= KeyLength {
      LemmaModUnique(|fileName| - KeyLength, 256, (|fileName| - KeyLength) / 256, l);
      assert l <= |fileName| - KeyLength;
      var key := fileName[l..l + KeyLength];
      var s0 := DecState(0, |image|, 0, NameState(key, 0, []), 0, 0, image);
      if |offsets| > 0 {
        assert JdvrifV12.DataOffset(offsets, 0) > 0;
      }
      DecLoopDecodes(fileName, l, key, image, offsets, |image|, s0);
    }
  }

  /** Once any header is reached, the loop's bound has grown by 18 past
      the image's size, so the last pass reads past its end. */
  lemma HeaderReadsPastEnd(image: seq<byte>, offsets: seq<nat>, fileName: seq<byte>)
    requires |fileName| >= KeyLength && JdvrifV12.WellPlaced(offsets, (|fileName| - KeyLength) % 256)
    requires |offsets| > 0 && JdvrifV12.DataOffset(offsets, 0) < |image|
    ensures DecryptFile(image, offsets, fileName) == Failure(ReadPastEnd)
  {
    var m := |image| - 1;
    JdvrifV12.SkippedSpec(offsets, m, 0);
    assert JdvrifV12.Pos(offsets, m) >= |image|;
    DecryptDecodes(image, offsets, fileName);
  }

  /** decryptFile with the loop bound starting at the number of data
      bytes, `dataSize`, rather than at the image's size. It still grows
      by 18 per header reached, and the image keeps its size. */
  function DecryptCorrected(image: seq<byte>, offsets: seq<nat>, fileName: seq<byte>, dataSize: nat): Result<Decrypted, CipherError>
  {
    var l := (|fileName| - KeyLength) % 256;
    if |fileName| < l + KeyLength then Failure(KeyPastEnd)
    else
      var key := fileName[l..l + KeyLength];
      match DecLoop(fileName, l, offsets, DecState(0, dataSize, 0, NameState(key, 0, []), 0, 0, image))
      case Failure(e) => Failure(e)
      case Success(s) => Success(Decrypted(s.ns.coded, s.img))
  }

  /** With the corrected bound an image that holds the data and its
      headers always decrypts: the front of the image becomes the
      `dataSize` bytes read around the headers, decoded with the stored
      name's key stream, and the name is decoded as before. In general it
      fails exactly when a data byte lies past the end. */
  lemma CorrectedDecryptDecodes(image: seq<byte>, offsets: seq<nat>, fileName: seq<byte>, dataSize: nat)
    requires |fileName| >= KeyLength && JdvrifV12.WellPlaced(offsets, (|fileName| - KeyLength) % 256)
    ensures var r := DecryptCorrected(image, offsets, fileName, dataSize);
      var l := (|fileName| - KeyLength) % 256; var key := fileName[l..l + KeyLength];
      && (r.Success? <==> JdvrifV12.Reachable(image, offsets, dataSize))
      && (r.Failure? ==> r.error == ReadPastEnd)
      && (dataSize + JdvrifV12.HeaderLength * |offsets| <= |image| ==> r.Success?)
      && (r.Success? ==>
            && r.value.name == KeyedName(fileName, key, Min(dataSize, l))
            && dataSize <= |r.value.data| == |image|
            && r.value.data[..dataSize] == XorData(JdvrifV12.Gather(image, offsets, dataSize), fileName, l)
            && r.value.data[dataSize..] == image[dataSize..])
  {
    var l := (|fileName| - KeyLength) % 256;
    LemmaModUnique(|fileName| - KeyLength, 256, (|fileName| - KeyLength) / 256, l);
    var key := fileName[l..l + KeyLength];
    var s0 := DecState(0, dataSize, 0, NameState(key, 0, []), 0, 0, image);
    if |offsets| > 0 {
      assert JdvrifV12.DataOffset(offsets, 0) > 0;
    }
    DecLoopDecodes(fileName, l, key, image, offsets, dataSize, s0);
    if dataSize + JdvrifV12.HeaderLength * |offsets| <= |image| {
      forall m | 0 <= m < dataSize
        ensures JdvrifV12.Pos(offsets, m) < |image|
      {
        JdvrifV12.PosBounds(offsets, m);
      }
    }
  }

  /** A small case: a 13-byte stored name (L = 1), a 21-byte image and one
      header after its first byte. As written the bound grows from 21 to
      39 and the loop reads past the end; with the bound starting at the 3
      data bytes it reads positions 0, 19 and 20. */
  lemma HeaderExample()
    ensures DecryptFile(seq(21, j => 0), [1], seq(13, j => 0x61)) == Failure(ReadPastEnd)
    ensures DecryptCorrected(seq(21, j => 0), [1], seq(13, j => 0x61), 3).Success?
    ensures JdvrifV12.Pos([1], 1) == 19 && JdvrifV12.Pos([1], 2) == 20
  {
    var image: seq<byte> := seq(21, j => 0);
    var name: seq<byte> := seq(13, j => 0x61);
    assert (|name| - KeyLength) % 256 == 1;
    assert JdvrifV12.WellPlaced([1], 1);
    HeaderReadsPastEnd(image, [1], name);
    CorrectedDecryptDecodes(image, [1], name, 3);
    assert JdvrifV12.Skipped([1], 1, 1) == 1;
    assert JdvrifV12.Skipped([1], 2, 1) == 1;
  }

  // ---------------------------------------------------------------------
  // The round trip
  // ---------------------------------------------------------------------

  lemma GatherNoHeaders(image: seq<byte>)
    ensures JdvrifV12.Reachable(image, [], |image|)
    ensures JdvrifV12.Gather(image, [], |image|) == image
  {
    forall m | 0 <= m < |image|
      ensures JdvrifV12.Pos([], m) == m
    {
    }
  }

  /** Decrypting with the stored coded name plus key gives back the data:
      both run the same key stream of the coded name. */
  lemma DataBack(data: seq<byte>, e: seq<byte>, key: seq<byte>, l: nat)
    requires 1 <= l == |e|
    ensures XorData(XorData(data, e, l), e + key, l) == data
  {
    forall j | 0 <= j < |data|
      ensures XorData(XorData(data, e, l), e + key, l)[j] == data[j]
    {
      JdvrifV12.ModBounds(j, l);
      JdvrifV12.XorTwice(data[j], e[j % l]);
    }
  }

  /** ... and the name, run through the same rotating key twice. */
  lemma NameBack(fileName: seq<byte>, e: seq<byte>, key: seq<byte>, l: nat)
    requires |key| == KeyLength && l <= |fileName| && e == KeyedName(fileName, key, l)
    ensures KeyedName(e + key, key, l) == fileName[..l]
  {
    KeyedNameTwice(fileName, key, l);
    assert KeyedName(e + key, key, l) == KeyedName(e, key, l);
  }

  /** Decrypting the ciphertext with the coded name plus the key. */
  lemma DecryptStored(data: seq<byte>, fileName: seq<byte>, key: seq<byte>, l: nat)
    requires |key| == KeyLength && 1 <= l <= |data| && l < 256 && l <= |fileName|
    ensures var e := KeyedName(fileName, key, l);
      DecryptFile(XorData(data, e, l), [], e + key) == Success(Decrypted(fileName[..l], data))
  {
    var e := KeyedName(fileName, key, l);
    var stored := e + key;
    var cipher := XorData(data, e, l);
    LemmaModUnique(|stored| - KeyLength, 256, 0, l);
    assert stored[l..l + KeyLength] == key;
    GatherNoHeaders(cipher);
    DecryptDecodes(cipher, [], stored);
    NameBack(fileName, e, key, l);
    DataBack(data, e, key, l);
  }

  /** What findProfileHeaders reads back: the stored name by its length
      byte, then the key. */
  lemma StoredNameAndKey(r: seq<byte>, e: seq<byte>, key: seq<byte>, l: nat)
    requires |r| >= ProfileSize && |e| == l
    requires r[NameLengthIndex] as nat == l && r[NameIndex..NameIndex + l] == e
    requires r[KeyIndex..KeyIndex + KeyLength] == key
    ensures r[NameIndex..NameIndex + r[NameLengthIndex] as nat] + r[KeyIndex..KeyIndex + KeyLength] == e + key
  {
  }

  /** With no headers and a name of 1 to |data| bytes (modulo 256), reading
      the coded name, its length and the key back from the profile and
      decrypting the ciphertext restores both the name and the data. */
  lemma EncryptThenDecrypt(profile: seq<byte>, data: seq<byte>, fileName: seq<byte>, key: seq<byte>)
    requires |key| == KeyLength && |profile| >= ProfileSize
    requires 1 <= |fileName| % 256 <= |data|
    ensures var l := |fileName| % 256; var r := EncryptFile(profile, data, fileName, key);
      && r.Success?
      && var stored := r.value[NameIndex..NameIndex + r.value[NameLengthIndex] as nat] + r.value[KeyIndex..KeyIndex + KeyLength];
         DecryptFile(r.value[ProfileSize..ProfileSize + |data|], [], stored) == Success(Decrypted(fileName[..l], data))
  {
    var l := |fileName| % 256;
    var e := KeyedName(fileName, key, l);
    EncryptLays(profile, data, fileName, key);
    var r := EncryptFile(profile, data, fileName, key).value;
    StoredNameAndKey(r, e, key, l);
    DecryptStored(data, fileName, key, l);
  }
}
