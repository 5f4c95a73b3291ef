/** src/encryption.cpp: how encryptDataFile hides the secretbox key, the
    nonce and the filename in the profile behind the recovery PIN, and
    the steps decryptDataFile takes to get them back and to isolate the
    encrypted file around the foreign secretbox calls. */
module Encryption {
  import opened Wrappers
  import opened Bytes
  import opened BinaryIo
  import HeaderStrip

  /** SODIUM_XOR_KEY_LENGTH: the first 8 key bytes, which are the PIN. */
  const XorKeyLength: nat := 8
  /** sodium_keys_length: the key and nonce bytes behind those 8. */
  const ObfuscatedLength: nat := 48
  /** The key (32 bytes) and the nonce (24 bytes) stored back to back. */
  const KeyBlockLength: nat := 56
  /** crypto_secretbox_KEYBYTES, crypto_secretbox_NONCEBYTES. */
  const KeyBytes: nat := 32
  const NonceBytes: nat := 24
  /** The filename field of the profile templates. */
  const FilenameFieldLength: nat := 20
  /** Bytes recoverData cuts off the front of a profile-carrying image:
      everything before the ICC signature at 0x20 of the profile, less 8. */
  const ProfileTrim: nat := 0x18
  /** TOTAL_PROFILE_HEADER_SEGMENTS_INDEX, in the trimmed image. */
  const TotalSegmentsIndex: nat := 0x2C8
  /** The last segment's header lies this much before a whole number of
      segment strides into the trimmed image. */
  const LastSegmentDiff: nat := 0x16
  const ExifSig: seq<byte> := [0xFF, 0xE1]
  const ExifSearchLimit: nat := 100
  const ExifMaxSize: nat := 65534

  /** Where the secrets sit: the filename's XOR key, the encrypted
      filename (its length in the byte before it), the key and the nonce. */
  datatype KeyLayout = KeyLayout(filenameKey: nat, filename: nat, sodiumKey: nat, nonceKey: nat)
  {
    /** The fields follow each other without overlapping. */
    predicate Valid()
    {
      filename >= 1 && filename + FilenameFieldLength <= filenameKey &&
      filenameKey + FilenameFieldLength <= sodiumKey && sodiumKey + KeyBytes == nonceKey
    }

    /** The first byte of the secret region (the filename length). */
    function Start(): nat
      requires Valid()
    {
      filename - 1
    }

    /** One past the last byte of the secret region (the nonce's end). */
    function End(): nat
    {
      sodiumKey + KeyBlockLength
    }

    /** The same fields d bytes further to the front. */
    function Shifted(d: nat): KeyLayout
      requires Valid() && d < filename
    {
      KeyLayout(filenameKey - d, filename - d, sodiumKey - d, nonceKey - d)
    }
  }

  /** The indices encryptDataFile writes to. */
  function EncryptLayout(bluesky: bool): (l: KeyLayout)
    ensures l.Valid()
  {
    if bluesky then KeyLayout(0x175, 0x161, 0x18D, 0x1AD)
    else KeyLayout(0x2FB, 0x2E7, 0x313, 0x333)
  }

  /** The indices decryptDataFile reads, with the index of the stored
      file size and of the encrypted file's first byte. */
  datatype ReadLayout = ReadLayout(keys: KeyLayout, fileSize: nat, fileStart: nat)

  function DecryptLayout(bluesky: bool): (l: ReadLayout)
    ensures l.keys.Valid()
  {
    if bluesky then ReadLayout(KeyLayout(0x175, 0x161, 0x18D, 0x1AD), 0x1CD, 0x1D1)
    else ReadLayout(KeyLayout(0x2E3, 0x2CF, 0x2FB, 0x31B), 0x2CA, 0x33B)
  }

  /** Decryption reads every secret where encryption wrote it: at the same
      index in a Bluesky image, and ProfileTrim bytes further to the front
      in a trimmed profile image. The stored size and the encrypted file
      are the profile's 0x2E2 and 851 moved the same way. */
  lemma LayoutsAgree()
    ensures DecryptLayout(true).keys == EncryptLayout(true)
    ensures DecryptLayout(false).keys == EncryptLayout(false).Shifted(ProfileTrim)
    ensures DecryptLayout(false).fileSize + ProfileTrim == 0x2E2
    ensures DecryptLayout(false).fileStart + ProfileTrim == 851
  {
  }

  /** Equal bytes at every position give equal slices. */
  lemma SliceAgrees(x: seq<byte>, y: seq<byte>, lo: nat, hi: nat)
    requires lo <= hi <= |x| && hi <= |y|
    requires forall j :: lo <= j < hi ==> x[j] == y[j]
    ensures x[lo..hi] == y[lo..hi]
  {
  }

  /** A piece of two equal slices. */
  lemma SubSlice(x: seq<byte>, xlo: nat, y: seq<byte>, ylo: nat, n: nat, i: nat, j: nat)
    requires xlo + n <= |x| && ylo + n <= |y| && x[xlo..xlo + n] == y[ylo..ylo + n]
    requires i <= j <= n
    ensures x[xlo + i..xlo + j] == y[ylo + i..ylo + j]
  {
    SliceWithin(x, xlo, y[ylo..ylo + n], i, j);
    SliceWithin(y, ylo, y[ylo..ylo + n], i, j);
  }

  /** Two adjoining pieces of equal slices make one. */
  lemma SliceJoin(x: seq<byte>, xlo: nat, y: seq<byte>, ylo: nat, m: nat, n: nat)
    requires m <= n && xlo + n <= |x| && ylo + n <= |y|
    requires x[xlo..xlo + m] == y[ylo..ylo + m] && x[xlo + m..xlo + n] == y[ylo + m..ylo + n]
    ensures x[xlo..xlo + n] == y[ylo..ylo + n]
  {
    assert x[xlo..xlo + n] == x[xlo..xlo + m] + x[xlo + m..xlo + n];
    assert y[ylo..ylo + n] == y[ylo..ylo + m] + y[ylo + m..ylo + n];
  }

  lemma XorTwice(a: byte, b: byte)
    ensures a ^ b ^ b == a
  {
  }

  /** Byte-wise XOR of a with the first |a| bytes of b. */
  function XorBytes(a: seq<byte>, b: seq<byte>): (r: seq<byte>)
    requires |a| <= |b|
    ensures |r| == |a|
    ensures forall i :: 0 <= i < |a| ==> r[i] == a[i] ^ b[i]
  {
    seq(|a|, i requires 0 <= i < |a| => a[i] ^ b[i])
  }

  lemma XorBytesTwice(a: seq<byte>, b: seq<byte>)
    requires |a| <= |b|
    ensures XorBytes(XorBytes(a, b), b) == a
  {
    var once := XorBytes(a, b);
    forall i | 0 <= i < |a|
      ensures XorBytes(once, b)[i] == a[i]
    {
      XorTwice(a[i], b[i]);
    }
  }

  /** The 8 XOR bytes laid end to end over the 48 bytes they are applied
      to. */
  function Cycled(k: seq<byte>): (c: seq<byte>)
    requires |k| == XorKeyLength
    ensures |c| == ObfuscatedLength
  {
    k + k + k + k + k + k
  }

  /** Byte 8 * lap + p of the cycled key is key byte p. */
  lemma CycledAt(k: seq<byte>, lap: nat, p: nat)
    requires |k| == XorKeyLength && p < XorKeyLength && XorKeyLength * lap + p < ObfuscatedLength
    ensures Cycled(k)[XorKeyLength * lap + p] == k[p]
  {
    var c := Cycled(k);
    if lap == 0 {
    } else if lap == 1 {
      assert c[8 + p] == k[p];
    } else if lap == 2 {
      assert c[16 + p] == k[p];
    } else if lap == 3 {
      assert c[24 + p] == k[p];
    } else if lap == 4 {
      assert c[32 + p] == k[p];
    } else {
      assert c[40 + p] == k[p];
    }
  }

  /** The key block's first 8 bytes. */
  function XorKey(v: seq<byte>, at: nat): (k: seq<byte>)
    requires at + KeyBlockLength <= |v|
    ensures |k| == XorKeyLength
  {
    v[at..at + XorKeyLength]
  }

  /** The 48 bytes behind them. */
  function SealedKeys(v: seq<byte>, at: nat): (k: seq<byte>)
    requires at + KeyBlockLength <= |v|
    ensures |k| == ObfuscatedLength
  {
    v[at + XorKeyLength..at + KeyBlockLength]
  }

  /** Two buffers of one length that agree on the key block's two parts
      and everywhere outside it are equal. */
  lemma SameBlock(x: seq<byte>, y: seq<byte>, at: nat)
    requires at + KeyBlockLength <= |x| == |y|
    requires XorKey(x, at) == XorKey(y, at) && SealedKeys(x, at) == SealedKeys(y, at)
    requires forall j :: 0 <= j < |x| && !(at <= j < at + KeyBlockLength) ==> x[j] == y[j]
    ensures x == y
  {
    forall j | at <= j < at + KeyBlockLength
      ensures x[j] == y[j]
    {
      if j < at + XorKeyLength {
        assert x[j] == XorKey(x, at)[j - at] && y[j] == XorKey(y, at)[j - at];
      } else {
        assert x[j] == SealedKeys(x, at)[j - at - XorKeyLength];
        assert y[j] == SealedKeys(y, at)[j - at - XorKeyLength];
      }
    }
  }

  /** The key block with its 48 bytes behind the first 8 each XORed with
      one of those 8, taken in turn; nothing else changes. */
  function KeyXor(v: seq<byte>, at: nat): (r: seq<byte>)
    requires at + KeyBlockLength <= |v|
    ensures |r| == |v|
    ensures XorKey(r, at) == XorKey(v, at)
    ensures SealedKeys(r, at) == XorBytes(SealedKeys(v, at), Cycled(XorKey(v, at)))
    ensures forall j :: 0 <= j < |v| && !(at + XorKeyLength <= j < at + KeyBlockLength) ==> r[j] == v[j]
  {
    var r := v[..at + XorKeyLength] + XorBytes(SealedKeys(v, at), Cycled(XorKey(v, at))) + v[at + KeyBlockLength..];
    assert SealedKeys(r, at) == XorBytes(SealedKeys(v, at), Cycled(XorKey(v, at)));
    assert XorKey(r, at) == XorKey(v, at);
    r
  }

  /** The XOR pass over the key block, as the source's loop runs it: the
      key position walks the 48 bytes, the XOR position cycles through
      the first 8. */
  method XorKeys(v: seq<byte>, at: nat) returns (r: seq<byte>)
    requires at + KeyBlockLength <= |v|
    ensures r == KeyXor(v, at)
  {
    ghost var cycle := Cycled(XorKey(v, at));
    ghost var lap: nat := 0;
    r := v;
    var remaining: nat := ObfuscatedLength;
    var xorPos, keyPos := at, at + XorKeyLength;
    while remaining > 0
      invariant remaining <= ObfuscatedLength
      invariant keyPos == at + XorKeyLength + (ObfuscatedLength - remaining)
      invariant at <= xorPos < at + XorKeyLength
      invariant ObfuscatedLength - remaining == XorKeyLength * lap + (xorPos - at)
      invariant |r| == |v| && keyPos <= |v|
      invariant forall j :: 0 <= j < |v| && !(at + XorKeyLength <= j < keyPos) ==> r[j] == v[j]
      invariant forall j :: at + XorKeyLength <= j < keyPos ==> r[j] == v[j] ^ cycle[j - at - XorKeyLength]
      decreases remaining
    {
      CycledAt(XorKey(v, at), lap, xorPos - at);
      assert cycle[keyPos - at - XorKeyLength] == r[xorPos];
      r := r[keyPos := r[keyPos] ^ r[xorPos]];
      keyPos := keyPos + 1;
      xorPos := xorPos + 1;
      if xorPos >= at + XorKeyLength {
        xorPos := at;
        lap := lap + 1;
      }
      remaining := remaining - 1;
    }
    PointwiseKeyXor(v, at, r);
  }

  /** A buffer that matches v outside the 48 sealed bytes and holds each
      of them XORed with the cycled key is the XOR pass of v. */
  lemma PointwiseKeyXor(v: seq<byte>, at: nat, r: seq<byte>)
    requires at + KeyBlockLength <= |v| == |r|
    requires forall j :: 0 <= j < |v| && !(at + XorKeyLength <= j < at + KeyBlockLength) ==> r[j] == v[j]
    requires forall j :: at + XorKeyLength <= j < at + KeyBlockLength ==>
      r[j] == v[j] ^ Cycled(XorKey(v, at))[j - at - XorKeyLength]
    ensures r == KeyXor(v, at)
  {
    var x := KeyXor(v, at);
    forall j | 0 <= j < |v|
      ensures r[j] == x[j]
    {
      if at + XorKeyLength <= j < at + KeyBlockLength {
        assert x[j] == SealedKeys(x, at)[j - at - XorKeyLength];
      }
    }
  }

  /** The XOR pass undoes itself: it never changes the 8 bytes it XORs
      with. */
  lemma KeyXorInvolution(v: seq<byte>, at: nat)
    requires at + KeyBlockLength <= |v|
    ensures KeyXor(KeyXor(v, at), at) == v
  {
    XorBytesTwice(SealedKeys(v, at), Cycled(XorKey(v, at)));
    SameBlock(KeyXor(KeyXor(v, at), at), v, at);
  }

  /** What encryptDataFile leaves behind: the PIN it returns and the
      profile whose key block has been XORed and whose first 8 bytes have
      been overwritten. */
  datatype Obfuscated = Obfuscated(pin: nat, profile: seq<byte>)

  /** o is what obfuscating the key block at `at` leaves of profile: the
      PIN is the big-endian value of the first 8 key bytes, the 48 behind
      them are XORed with those 8 in turn, nothing outside the block
      changes. */
  predicate Obfuscates(o: Obfuscated, profile: seq<byte>, at: nat)
    requires at + KeyBlockLength <= |profile|
  {
    o.pin < Pow256(XorKeyLength) && ToBE(o.pin, XorKeyLength) == XorKey(profile, at) &&
    |o.profile| == |profile| &&
    SealedKeys(o.profile, at) == XorBytes(SealedKeys(profile, at), Cycled(XorKey(profile, at))) &&
    (forall j :: 0 <= j < |profile| && !(at <= j < at + KeyBlockLength) ==> o.profile[j] == profile[j])
  }

  /** The PIN is the big-endian value of the key's first 8 bytes; after
      the XOR pass those 8 bytes are replaced by `random`. */
  function ObfuscateKeys(profile: seq<byte>, at: nat, random: nat): (r: Obfuscated)
    requires at + KeyBlockLength <= |profile|
    ensures Obfuscates(r, profile, at)
    ensures XorKey(r.profile, at) == ToBE(random, XorKeyLength)
  {
    var pin := GetValue(profile, at, XorKeyLength).value;
    var xored := KeyXor(profile, at);
    // updateValue within bounds and with length 8 is WriteBE
    var written := WriteBE(xored, at, random, XorKeyLength);
    assert SealedKeys(written, at) == SealedKeys(xored, at) by {
      SliceAgrees(written, xored, at + XorKeyLength, at + KeyBlockLength);
    }
    Obfuscated(pin, written)
  }

  /** What can go wrong before the foreign decryption call. */
  datatype DecryptError =
    | Io(ioError: IoError)
    | Undefined            // an index or copy past the end of the buffer
    | MissingSegments
    | MarkerNotFound
    | InvalidSegmentSize

  /** r is v with the PIN's 8 big-endian bytes written at `at` and the 48
      bytes behind them XORed with those 8 in turn; nothing outside the
      key block changes. */
  predicate Restores(r: seq<byte>, v: seq<byte>, at: nat, pin: nat)
    requires at + KeyBlockLength <= |v|
  {
    |r| == |v| && XorKey(r, at) == ToBE(pin, XorKeyLength) &&
    SealedKeys(r, at) == XorBytes(SealedKeys(v, at), Cycled(ToBE(pin, XorKeyLength))) &&
    (forall j :: 0 <= j < |v| && !(at <= j < at + KeyBlockLength) ==> r[j] == v[j])
  }

  /** decryptDataFile's first step: the PIN is written over the first 8
      bytes of the key block and the XOR pass is run again. */
  function RestoreKeys(v: seq<byte>, at: nat, pin: nat): (r: Result<seq<byte>, DecryptError>)
    ensures at + XorKeyLength > |v| ==> r == Failure(Io(OutOfRange))
    ensures r.Success? <==> at + KeyBlockLength <= |v|
    ensures r.Success? ==> Restores(r.value, v, at, pin)
  {
    if at + XorKeyLength > |v| then Failure(Io(OutOfRange))
    else if at + KeyBlockLength > |v| then Failure(Undefined)
    else
      // updateValue within bounds and with length 8 is WriteBE
      var written := WriteBE(v, at, pin, XorKeyLength);
      assert SealedKeys(written, at) == SealedKeys(v, at) by {
        SliceAgrees(written, v, at + XorKeyLength, at + KeyBlockLength);
      }
      Success(KeyXor(written, at))
  }

  /** With the PIN obfuscation returned, restoring gives back the profile;
      with any other 64-bit value the key's first 8 bytes come out wrong. */
  lemma RestoreUndoesObfuscation(profile: seq<byte>, at: nat, o: Obfuscated, pin: nat, r: seq<byte>)
    requires at + KeyBlockLength <= |profile| && pin < Pow256(XorKeyLength)
    requires Obfuscates(o, profile, at)
    requires Restores(r, o.profile, at, pin)
    ensures r == profile <==> pin == o.pin
  {
    if pin == o.pin {
      XorBytesTwice(SealedKeys(profile, at), Cycled(XorKey(profile, at)));
      SameBlock(r, profile, at);
    }
    if r == profile {
      BEToBEFits(pin, XorKeyLength);
      BEToBEFits(o.pin, XorKeyLength);
    }
  }

  /** The right PIN, and only the right PIN, restores the key block. */
  lemma PinUnlocksKeys(profile: seq<byte>, at: nat, random: nat, pin: nat)
    requires at + KeyBlockLength <= |profile| && pin < Pow256(XorKeyLength)
    ensures var o := ObfuscateKeys(profile, at, random);
      RestoreKeys(o.profile, at, pin) == Success(profile) <==> pin == o.pin
  {
    var o := ObfuscateKeys(profile, at, random);
    RestoreUndoesObfuscation(profile, at, o, pin, RestoreKeys(o.profile, at, pin).value);
  }

  function Zeros(n: nat): (z: seq<byte>)
    ensures |z| == n && forall i :: 0 <= i < n ==> z[i] == 0
  {
    seq(n, i => 0)
  }

  /** encryptDataFile's filename step: as many random key bytes as the
      length byte says go to the filename's key field, and the name, cut
      to that length, is stored XORed with them. */
  function StoreFilename(profile: seq<byte>, l: KeyLayout, name: seq<byte>, nameKey: seq<byte>): (r: seq<byte>)
    requires l.Valid() && l.End() <= |profile|
    requires profile[l.filename - 1] as nat <= FilenameFieldLength
    requires |nameKey| == profile[l.filename - 1] as nat
    ensures |r| == |profile|
    ensures forall j :: l.filenameKey <= j < l.filenameKey + |nameKey| ==> r[j] == nameKey[j - l.filenameKey]
    ensures forall j :: l.filename <= j < l.filename + Min(|nameKey|, |name|) ==>
      r[j] == name[j - l.filename] ^ nameKey[j - l.filename]
    ensures forall j ::
      (0 <= j < |profile| && !(l.filename <= j < l.filename + Min(|nameKey|, |name|)) &&
       !(l.filenameKey <= j < l.filenameKey + |nameKey|)) ==> r[j] == profile[j]
  {
    var n := |nameKey|;
    var m := Min(n, |name|);
    seq(|profile|, j requires 0 <= j < |profile| =>
      if l.filename <= j < l.filename + m then name[j - l.filename] ^ nameKey[j - l.filename]
      else if l.filenameKey <= j < l.filenameKey + n then nameKey[j - l.filenameKey]
      else profile[j])
  }

  /** Room left behind index x (a view dropping x elements is empty when
      x is past the end). */
  function Avail(v: seq<byte>, x: nat): nat
  {
    if x <= |v| then |v| - x else 0
  }

  /** decryptDataFile's filename step: a string of as many characters as
      the length byte says, each the XOR of an encrypted byte with its
      key byte, as far as both lie inside the buffer, the rest NUL. */
  function RecoverFilename(v: seq<byte>, l: KeyLayout): (name: seq<byte>)
    requires l.filename >= 1 && l.filename - 1 < |v|
    ensures |name| == v[l.filename - 1] as nat
  {
    var n := v[l.filename - 1] as nat;
    var c := Min(n, Min(Avail(v, l.filename), Avail(v, l.filenameKey)));
    seq(n, i requires 0 <= i < n => if i < c then v[l.filename + i] ^ v[l.filenameKey + i] else 0)
  }

  /** Inside the buffer every recovered character is the XOR of the
      encrypted byte with its key byte. */
  lemma RecoveredAt(v: seq<byte>, l: KeyLayout, i: nat)
    requires l.Valid() && l.End() <= |v|
    requires i < v[l.filename - 1] as nat <= FilenameFieldLength
    ensures RecoverFilename(v, l)[i] == v[l.filename + i] ^ v[l.filenameKey + i]
  {
  }

  /** A recovered filename of the stored length n that starts with the
      name, as much of it as fits. */
  predicate NameRecovered(got: seq<byte>, name: seq<byte>, n: nat)
  {
    var m := Min(n, |name|);
    |got| == n && got[..m] == name[..m]
  }

  /** Reading the stored filename back gives the name cut to the stored
      length; a name as long as the length byte says comes back whole. */
  lemma FilenameRoundTrip(profile: seq<byte>, l: KeyLayout, name: seq<byte>, nameKey: seq<byte>)
    requires l.Valid() && l.End() <= |profile|
    requires profile[l.filename - 1] as nat <= FilenameFieldLength
    requires |nameKey| == profile[l.filename - 1] as nat
    ensures NameRecovered(RecoverFilename(StoreFilename(profile, l, name, nameKey), l), name, |nameKey|)
  {
    StoredFilenameReads(StoreFilename(profile, l, name, nameKey), profile, l, name, nameKey);
  }

  /** The filename round trip for any buffer that holds what the
      filename step stores. */
  lemma StoredFilenameReads(r: seq<byte>, profile: seq<byte>, l: KeyLayout, name: seq<byte>, nameKey: seq<byte>)
    requires l.Valid() && l.End() <= |profile| == |r|
    requires |nameKey| == profile[l.filename - 1] as nat <= FilenameFieldLength
    requires forall j :: l.filenameKey <= j < l.filenameKey + |nameKey| ==> r[j] == nameKey[j - l.filenameKey]
    requires forall j :: l.filename <= j < l.filename + Min(|nameKey|, |name|) ==>
      r[j] == name[j - l.filename] ^ nameKey[j - l.filename]
    requires forall j ::
      (0 <= j < |profile| && !(l.filename <= j < l.filename + Min(|nameKey|, |name|)) &&
       !(l.filenameKey <= j < l.filenameKey + |nameKey|)) ==> r[j] == profile[j]
    ensures NameRecovered(RecoverFilename(r, l), name, |nameKey|)
  {
    assert r[l.filename - 1] == profile[l.filename - 1];
    var m := Min(|nameKey|, |name|);
    var got := RecoverFilename(r, l);
    forall i | 0 <= i < m
      ensures got[i] == name[i]
    {
      RecoveredAt(r, l, i);
      assert r[l.filename + i] == name[i] ^ nameKey[i];
      assert r[l.filenameKey + i] == nameKey[i];
      XorTwice(name[i], nameKey[i]);
    }
  }

  /** encryptDataFile's stores: the filename, then the key and the nonce
      copied into the key block. */
  function StoreSecrets(profile: seq<byte>, l: KeyLayout, name: seq<byte>, nameKey: seq<byte>,
                        key: seq<byte>, nonce: seq<byte>): (r: seq<byte>)
    requires l.Valid() && l.End() <= |profile|
    requires profile[l.filename - 1] as nat <= FilenameFieldLength
    requires |nameKey| == profile[l.filename - 1] as nat
    requires |key| == KeyBytes && |nonce| == NonceBytes
    ensures |r| == |profile|
    ensures r[l.sodiumKey..l.End()] == key + nonce
    ensures r[..l.sodiumKey] == StoreFilename(profile, l, name, nameKey)[..l.sodiumKey]
    ensures r[l.End()..] == profile[l.End()..]
  {
    var named := StoreFilename(profile, l, name, nameKey);
    var r := named[..l.sodiumKey] + key + nonce + named[l.End()..];
    assert r[l.sodiumKey..l.End()] == key + nonce;
    assert named[l.End()..] == profile[l.End()..];
    r
  }

  /** The secrets decryptDataFile recovers, with the buffer whose key
      block has been restored. */
  datatype Secrets = Secrets(filename: seq<byte>, key: seq<byte>, nonce: seq<byte>, restored: seq<byte>)

  /** The secrets as decryptDataFile reads them from a buffer whose key
      block has been restored. */
  function SecretsOf(restored: seq<byte>, l: KeyLayout): (s: Secrets)
    requires l.Valid() && l.End() <= |restored|
    ensures |s.key| == KeyBytes && |s.nonce| == NonceBytes && s.restored == restored
  {
    Secrets(RecoverFilename(restored, l), restored[l.sodiumKey..l.nonceKey],
            restored[l.nonceKey..l.End()], restored)
  }

  function ReadSecrets(v: seq<byte>, l: KeyLayout, pin: nat): (r: Result<Secrets, DecryptError>)
    requires l.Valid()
    ensures r.Success? <==> l.End() <= |v|
    ensures r.Success? ==> |r.value.key| == KeyBytes && |r.value.nonce| == NonceBytes
    ensures r.Success? ==> Restores(r.value.restored, v, l.sodiumKey, pin)
  {
    var restored :- RestoreKeys(v, l.sodiumKey, pin);
    Success(SecretsOf(restored, l))
  }

  /** The key block restored with the right PIN in a buffer that holds
      the obfuscated block d bytes further to the front. */
  lemma RestoredBlock(later: seq<byte>, at: nat, o: Obfuscated, w: seq<byte>, d: nat, r: seq<byte>)
    requires at + KeyBlockLength <= |later| && d <= at && at + KeyBlockLength - d <= |w|
    requires Obfuscates(o, later, at)
    requires w[at - d..at + KeyBlockLength - d] == o.profile[at..at + KeyBlockLength]
    requires Restores(r, w, at - d, o.pin)
    ensures r[at - d..at + KeyBlockLength - d] == later[at..at + KeyBlockLength]
  {
    assert SealedKeys(w, at - d) == SealedKeys(o.profile, at) by {
      SubSlice(w, at - d, o.profile, at, KeyBlockLength, XorKeyLength, KeyBlockLength);
    }
    XorBytesTwice(SealedKeys(later, at), Cycled(XorKey(later, at)));
    SliceJoin(r, at - d, later, at, XorKeyLength, KeyBlockLength);
  }

  /** The filename read from a copy of the filename fields moved d bytes
      to the front is the one read from the original. */
  lemma RecoverMoved(x: seq<byte>, l: KeyLayout, y: seq<byte>, d: nat)
    requires l.Valid() && l.sodiumKey <= |x| && d < l.filename && l.sodiumKey - d <= |y|
    requires x[l.Start()] as nat <= FilenameFieldLength
    requires y[l.Start() - d..l.sodiumKey - d] == x[l.Start()..l.sodiumKey]
    ensures RecoverFilename(y, l.Shifted(d)) == RecoverFilename(x, l)
  {
    var k := l.Start();
    forall p | k <= p < l.sodiumKey
      ensures y[p - d] == x[p]
    {
      assert y[p - d] == y[k - d..l.sodiumKey - d][p - k];
      assert x[p] == x[k..l.sodiumKey][p - k];
    }
    assert y[k - d] == x[k];
    var a := RecoverFilename(y, l.Shifted(d));
    var b := RecoverFilename(x, l);
    forall i | 0 <= i < |a|
      ensures a[i] == b[i]
    {
      RecoveredInField(y, l.Shifted(d), i);
      RecoveredInField(x, l, i);
      assert y[l.filename + i - d] == x[l.filename + i];
      assert y[l.filenameKey + i - d] == x[l.filenameKey + i];
    }
  }

  /** A filename no longer than its field is read whole from the buffer:
      character i is the XOR of the encrypted byte with its key byte. */
  lemma RecoveredInField(v: seq<byte>, l: KeyLayout, i: nat)
    requires l.Valid() && l.sodiumKey <= |v| && v[l.Start()] as nat <= FilenameFieldLength
    requires i < v[l.Start()] as nat
    ensures RecoverFilename(v, l)[i] == v[l.filename + i] ^ v[l.filenameKey + i]
  {
    var n := v[l.filename - 1] as nat;
    assert Avail(v, l.filename) >= n && Avail(v, l.filenameKey) >= n;
  }

  /** Below the key block, a copy of the obfuscated profile holds what
      the profile held before obfuscation. */
  lemma KeptBelow(later: seq<byte>, at: nat, o: Obfuscated, w: seq<byte>, lo: nat, d: nat)
    requires lo <= at && at + KeyBlockLength <= |later| && d <= lo && at + KeyBlockLength - d <= |w|
    requires Obfuscates(o, later, at)
    requires w[lo - d..at + KeyBlockLength - d] == o.profile[lo..at + KeyBlockLength]
    ensures w[lo - d..at - d] == later[lo..at]
  {
    SubSlice(w, lo - d, o.profile, lo, at + KeyBlockLength - lo, 0, at - lo);
    SliceAgrees(o.profile, later, lo, at);
  }

  /** Restoring the key block leaves the bytes in front of it alone. */
  lemma RestoreKeepsBelow(r: seq<byte>, w: seq<byte>, at: nat, pin: nat, lo: nat)
    requires lo <= at && at + KeyBlockLength <= |w|
    requires Restores(r, w, at, pin)
    ensures r[lo..at] == w[lo..at]
  {
    SliceAgrees(r, w, lo, at);
  }

  /** Restoring, with the right PIN, a copy of the obfuscated profile from
      lo to the end of the key block, moved d bytes to the front, gives
      back what the profile held there before obfuscation. */
  lemma RegionRestored(later: seq<byte>, at: nat, lo: nat, o: Obfuscated, w: seq<byte>, d: nat, r: seq<byte>)
    requires lo <= at && at + KeyBlockLength <= |later| && d <= lo && at + KeyBlockLength - d <= |w|
    requires Obfuscates(o, later, at)
    requires w[lo - d..at + KeyBlockLength - d] == o.profile[lo..at + KeyBlockLength]
    requires Restores(r, w, at - d, o.pin)
    ensures r[lo - d..at + KeyBlockLength - d] == later[lo..at + KeyBlockLength]
  {
    var n := at + KeyBlockLength - lo;
    assert r[at - d..at + KeyBlockLength - d] == later[at..at + KeyBlockLength] by {
      SubSlice(w, lo - d, o.profile, lo, n, at - lo, n);
      RestoredBlock(later, at, o, w, d, r);
    }
    assert r[lo - d..at - d] == later[lo..at] by {
      KeptBelow(later, at, o, w, lo, d);
      RestoreKeepsBelow(r, w, at - d, o.pin, lo - d);
    }
    SliceJoin(r, lo - d, later, lo, at - lo, n);
  }

  /** RegionRestored for the secret region of a layout. */
  lemma SecretRegionRestored(later: seq<byte>, l: KeyLayout, o: Obfuscated, w: seq<byte>, d: nat, r: seq<byte>)
    requires l.Valid() && l.End() <= |later| && d < l.filename && l.End() - d <= |w|
    requires Obfuscates(o, later, l.sodiumKey)
    requires w[l.Start() - d..l.End() - d] == o.profile[l.Start()..l.End()]
    requires Restores(r, w, l.sodiumKey - d, o.pin)
    ensures r[l.Start() - d..l.End() - d] == later[l.Start()..l.End()]
  {
    RegionRestored(later, l.sodiumKey, l.Start(), o, w, d, r);
  }

  /** The secrets read from a copy of the secret region moved d bytes to
      the front are the ones the region holds. */
  lemma SecretsFromCopy(later: seq<byte>, l: KeyLayout, r: seq<byte>, d: nat)
    requires l.Valid() && l.End() <= |later| && d < l.filename && l.End() - d <= |r|
    requires later[l.Start()] as nat <= FilenameFieldLength
    requires r[l.Start() - d..l.End() - d] == later[l.Start()..l.End()]
    ensures var s := SecretsOf(r, l.Shifted(d));
      s.key == later[l.sodiumKey..l.nonceKey] && s.nonce == later[l.nonceKey..l.End()] &&
      s.filename == RecoverFilename(later, l)
  {
    var n := l.End() - l.Start();
    var f := l.sodiumKey - l.Start();
    SubSlice(r, l.Start() - d, later, l.Start(), n, f, f + KeyBytes);
    SubSlice(r, l.Start() - d, later, l.Start(), n, f + KeyBytes, n);
    SubSlice(r, l.Start() - d, later, l.Start(), n, 0, f);
    RecoverMoved(later, l, r, d);
  }

  /** Reading the secrets with the right PIN from a copy of the
      obfuscated secret region, moved d bytes to the front, gives the key,
      the nonce and the filename the region held before obfuscation. */
  lemma SecretsRead(later: seq<byte>, l: KeyLayout, o: Obfuscated, w: seq<byte>, d: nat)
    requires l.Valid() && l.End() <= |later| && d < l.filename && l.End() - d <= |w|
    requires later[l.Start()] as nat <= FilenameFieldLength
    requires Obfuscates(o, later, l.sodiumKey)
    requires w[l.Start() - d..l.End() - d] == o.profile[l.Start()..l.End()]
    ensures var s := ReadSecrets(w, l.Shifted(d), o.pin);
      s.Success? && s.value.key == later[l.sodiumKey..l.nonceKey] &&
      s.value.nonce == later[l.nonceKey..l.End()] && s.value.filename == RecoverFilename(later, l)
  {
    var l' := l.Shifted(d);
    assert l'.sodiumKey == l.sodiumKey - d;
    var restored := RestoreKeys(w, l.sodiumKey - d, o.pin).value;
    assert ReadSecrets(w, l', o.pin) == Success(SecretsOf(restored, l'));
    SecretRegionRestored(later, l, o, w, d, restored);
    SecretsFromCopy(later, l, restored, d);
  }

  /** What the profile holds in the secret region after the stores. */
  lemma StoredRegion(profile: seq<byte>, l: KeyLayout, name: seq<byte>, nameKey: seq<byte>,
                     key: seq<byte>, nonce: seq<byte>, later: seq<byte>)
    requires l.Valid() && l.End() <= |profile|
    requires profile[l.filename - 1] as nat <= FilenameFieldLength
    requires |nameKey| == profile[l.filename - 1] as nat
    requires |key| == KeyBytes && |nonce| == NonceBytes
    requires l.End() <= |later|
    requires later[l.Start()..l.End()] == StoreSecrets(profile, l, name, nameKey, key, nonce)[l.Start()..l.End()]
    ensures var named := StoreFilename(profile, l, name, nameKey);
      later[l.Start()..l.sodiumKey] == named[l.Start()..l.sodiumKey] &&
      later[l.sodiumKey..l.nonceKey] == key && later[l.nonceKey..l.End()] == nonce &&
      later[l.Start()] == named[l.Start()] == profile[l.Start()]
  {
    var stored := StoreSecrets(profile, l, name, nameKey, key, nonce);
    var named := StoreFilename(profile, l, name, nameKey);
    var n := l.End() - l.Start();
    var f := l.sodiumKey - l.Start();
    assert later[l.Start()..l.sodiumKey] == named[l.Start()..l.sodiumKey] by {
      SubSlice(later, l.Start(), stored, l.Start(), n, 0, f);
      SubSlice(stored, 0, named, 0, l.sodiumKey, l.Start(), l.sodiumKey);
    }
    assert later[l.sodiumKey..l.End()] == key + nonce by {
      SubSlice(later, l.Start(), stored, l.Start(), n, f, n);
    }
    SliceWithin(later, l.sodiumKey, key + nonce, 0, KeyBytes);
    SliceWithin(later, l.sodiumKey, key + nonce, KeyBytes, KeyBlockLength);
    assert named[l.Start()] == profile[l.Start()];
    assert later[l.Start()] == later[l.Start()..l.sodiumKey][0];
  }

  /** Whatever happens to the profile outside the secret region between
      storing the secrets and obfuscating the key block, and wherever the
      region is moved before decryption, the right PIN gives back the key,
      the nonce and the stored filename. */
  lemma SecretsRoundTrip(profile: seq<byte>, l: KeyLayout, name: seq<byte>, nameKey: seq<byte>,
                         key: seq<byte>, nonce: seq<byte>, later: seq<byte>, o: Obfuscated, w: seq<byte>, d: nat)
    requires l.Valid() && l.End() <= |profile|
    requires profile[l.filename - 1] as nat <= FilenameFieldLength
    requires |nameKey| == profile[l.filename - 1] as nat
    requires |key| == KeyBytes && |nonce| == NonceBytes
    requires l.End() <= |later|
    requires later[l.Start()..l.End()] == StoreSecrets(profile, l, name, nameKey, key, nonce)[l.Start()..l.End()]
    requires Obfuscates(o, later, l.sodiumKey)
    requires d < l.filename && l.End() - d <= |w|
    requires w[l.Start() - d..l.End() - d] == o.profile[l.Start()..l.End()]
    ensures var s := ReadSecrets(w, l.Shifted(d), o.pin);
      var m := Min(|nameKey|, |name|);
      s.Success? && s.value.key == key && s.value.nonce == nonce &&
      |s.value.filename| == |nameKey| && s.value.filename[..m] == name[..m]
  {
    StoredRegion(profile, l, name, nameKey, key, nonce, later);
    SecretsRead(later, l, o, w, d);
    RecoverMoved(StoreFilename(profile, l, name, nameKey), l, later, 0);
    FilenameRoundTrip(profile, l, name, nameKey);
  }

  /** The integrity check of a profile image: the last segment's header
      must start with the APP2 marker. The index is computed in size_t,
      so a count of 1 wraps around and fails the bounds test. */
  function CheckSegments(v: seq<byte>, total: nat): (r: Result<(), DecryptError>)
    requires 1 <= total < 0x1_0000
    ensures total == 1 && |v| < SizeModulus - LastSegmentDiff ==> r == Failure(MissingSegments)
    ensures total >= 2 ==>
      var last := (total - 1) * HeaderStrip.CommonDiff - LastSegmentDiff;
      (r.Success? <==> last + 2 <= |v| && v[last] == 0xFF && v[last + 1] == 0xE2) &&
      (r == Failure(Undefined) <==> last + 1 == |v| && v[last] == 0xFF)
  {
    var last := SizeSub((total - 1) * HeaderStrip.CommonDiff, LastSegmentDiff);
    if last >= |v| || v[last] != 0xFF then Failure(MissingSegments)
    else if last + 1 >= |v| then Failure(Undefined)
    else if v[last + 1] != 0xE2 then Failure(MissingSegments)
    else Success(())
  }

  /** The Bluesky check: an APP1 marker within the first 100 bytes, and a
      segment of at least 65534 bytes when the file is that large. */
  function CheckExif(v: seq<byte>, size: nat): (r: Result<(), DecryptError>)
    ensures SearchSig(v, ExifSig, ExifSearchLimit).None? ==> r == Failure(MarkerNotFound)
    ensures r.Success? ==>
      var i := SearchSig(v, ExifSig, ExifSearchLimit).value;
      i + 4 <= |v| && (size >= ExifMaxSize ==> BE(v[i + 2..i + 4]) >= ExifMaxSize)
    ensures SearchSig(v, ExifSig, ExifSearchLimit).Some? && size < ExifMaxSize ==>
      (r.Success? <==> SearchSig(v, ExifSig, ExifSearchLimit).value + 4 <= |v|)
  {
    match SearchSig(v, ExifSig, ExifSearchLimit)
    case None => Failure(MarkerNotFound)
    case Some(i) =>
      match GetValue(v, i + 2, 2)
      case Failure(e) => Failure(Io(e))
      case Success(segmentSize) =>
        GetValueReadsBE(v, i + 2, 2);
        if size >= ExifMaxSize && ExifMaxSize > segmentSize then Failure(InvalidSegmentSize)
        else Success(())
  }

  function IoResult(r: Result<nat, IoError>): (r': Result<nat, DecryptError>)
    ensures r'.Success? <==> r.Success?
    ensures r.Success? ==> r'.value == r.value
    ensures r.Failure? ==> r' == Failure(Io(r.error))
  {
    match r
    case Success(x) => Success(x)
    case Failure(e) => Failure(Io(e))
  }

  /** The foreign crypto_secretbox_open_easy: the plaintext of a sealed
      buffer under a nonce and key, or None when authentication fails. */
  type Opener = (seq<byte>, seq<byte>, seq<byte>) -> Option<seq<byte>>

  /** What decryptDataFile returns when it does not throw. */
  datatype Extraction = Extracted(filename: seq<byte>, data: seq<byte>) | DecryptionFailed

  /** The stored segment count, as decryptDataFile reads it from the
      restored profile image. */
  function TotalSegments(v: seq<byte>): nat
    requires TotalSegmentsIndex + 2 <= |v|
  {
    BE(v[TotalSegmentsIndex..TotalSegmentsIndex + 2])
  }

  /** The index the integrity check reads the last segment's marker from. */
  function LastHeader(total: nat): int
  {
    (total - 1) * HeaderStrip.CommonDiff - LastSegmentDiff
  }

  /** The segment count and the stored size of the encrypted file. */
  datatype Sizes = Sizes(total: nat, size: nat)

  function ReadSizes(v: seq<byte>, l: ReadLayout): (r: Result<Sizes, DecryptError>)
    ensures r.Success? <==> TotalSegmentsIndex + 2 <= |v| && l.fileSize + 4 <= |v|
    ensures r.Success? ==> r.value.total == TotalSegments(v) < 0x1_0000
    ensures r.Success? ==> r.value.size == BE(v[l.fileSize..l.fileSize + 4])
  {
    var total :- IoResult(GetValue(v, TotalSegmentsIndex, 2));
    var size :- IoResult(GetValue(v, l.fileSize, 4));
    GetValueReadsBE(v, TotalSegmentsIndex, 2);
    GetValueReadsBE(v, l.fileSize, 4);
    Pow256Two();
    Success(Sizes(total, size))
  }

  /** The integrity check (profile image with a nonzero count) or the
      EXIF check (Bluesky image). */
  function CheckImage(v: seq<byte>, bluesky: bool, n: Sizes): (r: Result<(), DecryptError>)
    requires n.total < 0x1_0000
    ensures !bluesky && n.total == 1 && |v| < SizeModulus - LastSegmentDiff ==> r.Failure?
    ensures r.Success? && !bluesky && n.total >= 2 ==>
      var last := LastHeader(n.total);
      0 <= last && last + 2 <= |v| && v[last] == 0xFF && v[last + 1] == 0xE2
  {
    if bluesky then CheckExif(v, n.size)
    else if n.total != 0 then CheckSegments(v, n.total)
    else Success(())
  }

  /** Isolate the encrypted file, strip the segment headers when there are
      several segments, and open it. */
  function OpenFile(s: Secrets, l: ReadLayout, bluesky: bool, n: Sizes, open: Opener): (r: Result<Extraction, DecryptError>)
    ensures r.Success? <==> l.fileStart + n.size <= |s.restored|
    ensures r.Success? && r.value.Extracted? ==> r.value.filename == s.filename
  {
    var v := s.restored;
    if l.fileStart + n.size > |v| then Failure(Undefined)
    else
      var sealed := v[l.fileStart..l.fileStart + n.size];
      var stripped := if bluesky || n.total == 0 then sealed else HeaderStrip.Filtered(sealed, HeaderStrip.FileOffset);
      match open(stripped, s.nonce, s.key)
      case None => Success(DecryptionFailed)
      case Some(data) => Success(Extracted(s.filename, data))
  }

  /** decryptDataFile after the secrets have been read. */
  function ExtractFile(s: Secrets, l: ReadLayout, bluesky: bool, open: Opener): (r: Result<Extraction, DecryptError>)
    ensures r.Success? ==>
      TotalSegmentsIndex + 2 <= |s.restored| && l.fileSize + 4 <= |s.restored| &&
      l.fileStart + BE(s.restored[l.fileSize..l.fileSize + 4]) <= |s.restored|
    ensures r.Success? && r.value.Extracted? ==> r.value.filename == s.filename
  {
    var n :- ReadSizes(s.restored, l);
    var ok :- CheckImage(s.restored, bluesky, n);
    OpenFile(s, l, bluesky, n, open)
  }

  /** For a profile image, extraction checks the last segment's marker at
      the index the stored count gives, and a count of 1 always fails. */
  lemma ExtractChecksSegments(s: Secrets, l: ReadLayout, bluesky: bool, open: Opener)
    requires !bluesky && TotalSegmentsIndex + 2 <= |s.restored|
    ensures TotalSegments(s.restored) == 1 && |s.restored| < SizeModulus - LastSegmentDiff ==>
      ExtractFile(s, l, bluesky, open).Failure?
    ensures ExtractFile(s, l, bluesky, open).Success? && TotalSegments(s.restored) >= 2 ==>
      var last := LastHeader(TotalSegments(s.restored));
      0 <= last && last + 2 <= |s.restored| && s.restored[last] == 0xFF && s.restored[last + 1] == 0xE2
  {
    var sizes := ReadSizes(s.restored, l);
    if sizes.Success? {
      var n := sizes.value;
      assert n.total == TotalSegments(s.restored);
      if CheckImage(s.restored, false, n).Failure? {
        assert ExtractFile(s, l, false, open).Failure?;
      }
    }
  }

  /** decryptDataFile: restore the key block with the PIN, read the
      secrets, then check, isolate and open the encrypted file. */
  function DecryptDataFile(jpg: seq<byte>, bluesky: bool, pin: nat, open: Opener): (r: Result<Extraction, DecryptError>)
    ensures |jpg| < DecryptLayout(bluesky).keys.End() ==> r.Failure?
    ensures r.Success? ==>
      var l := DecryptLayout(bluesky);
      l.fileSize + 4 <= |jpg| && l.fileStart + BE(jpg[l.fileSize..l.fileSize + 4]) <= |jpg|
    ensures r.Success? && r.value.Extracted? ==>
      |r.value.filename| == jpg[DecryptLayout(bluesky).keys.filename - 1] as nat
  {
    var l := DecryptLayout(bluesky);
    var s :- ReadSecrets(jpg, l.keys, pin);
    var r := ExtractFile(s, l, bluesky, open);
    if r.Success? then
      FieldsOutsideKeys(s.restored, jpg, l, bluesky, pin);
      r
    else r
  }

  /** For a profile image, decryption checks the last segment's marker
      at the index the stored count gives, and a count of 1 always
      fails. */
  lemma DecryptChecksSegments(jpg: seq<byte>, pin: nat, open: Opener)
    requires TotalSegmentsIndex + 2 <= |jpg|
    ensures TotalSegments(jpg) == 1 && |jpg| < SizeModulus - LastSegmentDiff ==>
      DecryptDataFile(jpg, false, pin, open).Failure?
    ensures DecryptDataFile(jpg, false, pin, open).Success? && TotalSegments(jpg) >= 2 ==>
      var last := LastHeader(TotalSegments(jpg));
      0 <= last && last + 2 <= |jpg| && jpg[last] == 0xFF && jpg[last + 1] == 0xE2
  {
    var l := DecryptLayout(false);
    var s := ReadSecrets(jpg, l.keys, pin);
    if s.Success? {
      RestoredSegments(jpg, s.value, pin, open);
      if ExtractFile(s.value, l, false, open).Success? {
        DecryptedMarker(jpg, s.value, pin, open);
      }
    }
  }

  /** The restored image keeps the image's segment count, and decryption
      fails where extraction does. */
  lemma RestoredSegments(jpg: seq<byte>, s: Secrets, pin: nat, open: Opener)
    requires TotalSegmentsIndex + 2 <= |jpg|
    requires ReadSecrets(jpg, DecryptLayout(false).keys, pin) == Success(s)
    ensures |s.restored| == |jpg| && TotalSegments(s.restored) == TotalSegments(jpg)
    ensures ExtractFile(s, DecryptLayout(false), false, open).Failure? ==>
      DecryptDataFile(jpg, false, pin, open).Failure?
    ensures TotalSegments(jpg) == 1 && |jpg| < SizeModulus - LastSegmentDiff ==>
      ExtractFile(s, DecryptLayout(false), false, open).Failure?
  {
    SliceAgrees(s.restored, jpg, TotalSegmentsIndex, TotalSegmentsIndex + 2);
    ExtractChecksSegments(s, DecryptLayout(false), false, open);
  }

  /** After a successful extraction the last segment's marker, which lies
      outside the key block, is the image's own. */
  lemma DecryptedMarker(jpg: seq<byte>, s: Secrets, pin: nat, open: Opener)
    requires TotalSegmentsIndex + 2 <= |jpg|
    requires ReadSecrets(jpg, DecryptLayout(false).keys, pin) == Success(s)
    requires ExtractFile(s, DecryptLayout(false), false, open).Success?
    ensures TotalSegments(jpg) >= 2 ==>
      var last := LastHeader(TotalSegments(jpg));
      0 <= last && last + 2 <= |jpg| && jpg[last] == 0xFF && jpg[last + 1] == 0xE2
  {
    var l := DecryptLayout(false);
    var v := s.restored;
    ExtractChecksSegments(s, l, false, open);
    FieldsOutsideKeys(v, jpg, l, false, pin);
    assert TotalSegments(v) == TotalSegments(jpg);
    if TotalSegments(jpg) >= 2 {
      var last := LastHeader(TotalSegments(jpg));
      assert v[last] == jpg[last] && v[last + 1] == jpg[last + 1];
    }
  }

  /** The stored size, the segment count and the last segment's header
      lie outside the key block, so restoring it leaves them as the image
      has them; the filename length byte lies in front of the block. */
  lemma FieldsOutsideKeys(v: seq<byte>, jpg: seq<byte>, l: ReadLayout, bluesky: bool, pin: nat)
    requires l == DecryptLayout(bluesky) && l.keys.End() <= |jpg|
    requires Restores(v, jpg, l.keys.sodiumKey, pin)
    requires TotalSegmentsIndex + 2 <= |v| && l.fileSize + 4 <= |v|
    ensures v[l.fileSize..l.fileSize + 4] == jpg[l.fileSize..l.fileSize + 4]
    ensures v[TotalSegmentsIndex..TotalSegmentsIndex + 2] == jpg[TotalSegmentsIndex..TotalSegmentsIndex + 2]
    ensures v[l.keys.filename - 1] == jpg[l.keys.filename - 1]
    ensures forall j :: l.keys.End() <= j < |v| ==> v[j] == jpg[j]
  {
    SliceAgrees(v, jpg, l.fileSize, l.fileSize + 4);
    SliceAgrees(v, jpg, TotalSegmentsIndex, TotalSegmentsIndex + 2);
  }
}
