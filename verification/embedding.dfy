/** src/encryption.cpp encryptDataFile: store the filename, the secretbox
    key and the nonce in the profile, append or lay out the sealed file,
    hide the key block behind the PIN and hand the profile on to be placed
    in the cover image. */
module Embedding {
  import opened Wrappers
  import opened Bytes
  import opened BinaryIo
  import opened Encryption
  import Bluesky
  import Segmentation

  /** The random bytes encryptDataFile draws: the filename's XOR key, the
      secretbox key and nonce, and the 8 bytes that overwrite the PIN. */
  datatype Draws = Draws(nameKey: seq<byte>, key: seq<byte>, nonce: seq<byte>, random: nat)

  /** The foreign crypto_secretbox_easy(message, nonce, key). */
  type Sealer = (seq<byte>, seq<byte>, seq<byte>) -> seq<byte>

  datatype EncryptError = BuildFailed(build: Bluesky.BuildError) | SegmentFailed(io: IoError)

  /** What encryptDataFile leaves: the PIN it returns, segment_vec (empty
      unless the profile is written apart from the image), jpg_vec and the
      compatibility report. */
  datatype Embedding = Embedding(pin: nat, segment: seq<byte>, jpg: seq<byte>, platforms: seq<string>)

  /** The draws have the sizes the program gives them: as many filename
      key bytes as the length byte in front of the filename field says,
      a 32-byte key and a 24-byte nonce. */
  predicate DrawsFit(segment: seq<byte>, bluesky: bool, d: Draws)
  {
    var l := EncryptLayout(bluesky);
    l.End() <= |segment| && segment[l.filename - 1] as nat <= FilenameFieldLength &&
    |d.nameKey| == segment[l.filename - 1] as nat && |d.key| == KeyBytes && |d.nonce| == NonceBytes
  }

  /** The sealed file goes behind the profile, or, for Bluesky, into the
      EXIF, Photoshop and XMP segments buildBlueskySegments lays out. The
      bytes in front of 0x1CD other than the EXIF size fields stay. */
  function PlaceSealed(t: Bluesky.Templates, stored: seq<byte>, sealed: seq<byte>, bluesky: bool): (r: Result<seq<byte>, EncryptError>)
    requires t.Valid()
    ensures bluesky ==> (r.Success? <==> |stored| >= Bluesky.ExifInsertIndex && |sealed| <= Bluesky.MaxBlueskyData)
    ensures !bluesky ==> (r.Success? && |r.value| == |stored| + |sealed| &&
                          r.value[..|stored|] == stored && r.value[|stored|..] == sealed)
    ensures r.Success? ==> |r.value| >= |stored|
    ensures r.Success? ==> forall j :: 0 <= j < |stored| && Bluesky.OutsideSizeFields(j) ==> r.value[j] == stored[j]
  {
    if bluesky then
      match Bluesky.BuildBlueskySegments(t, stored, sealed)
      case Success(b) => Success(b)
      case Failure(e) => Failure(BuildFailed(e))
    else
      assert (stored + sealed)[..|stored|] == stored;
      Success(stored + sealed)
  }

  /** The profile with the secrets stored, the sealed file placed and the
      key block obfuscated, and the PIN. */
  function Obfuscation(t: Bluesky.Templates, segment: seq<byte>, data: seq<byte>, name: seq<byte>, bluesky: bool,
                       d: Draws, seal: Sealer): (r: Result<Obfuscated, EncryptError>)
    requires t.Valid() && DrawsFit(segment, bluesky, d)
    ensures !bluesky ==> r.Success? && |r.value.profile| == |segment| + |seal(data, d.nonce, d.key)|
    ensures bluesky ==> (r.Success? <==> |segment| >= Bluesky.ExifInsertIndex && |seal(data, d.nonce, d.key)| <= Bluesky.MaxBlueskyData)
    ensures r.Success? ==> |r.value.profile| >= |segment|
  {
    var l := EncryptLayout(bluesky);
    var stored := StoreSecrets(segment, l, name, d.nameKey, d.key, d.nonce);
    var placed :- PlaceSealed(t, stored, seal(data, d.nonce, d.key), bluesky);
    Success(ObfuscateKeys(placed, l.sodiumKey, d.random))
  }

  /** The secret region of the placed profile is the one StoreSecrets
      wrote. */
  lemma PlacedRegion(t: Bluesky.Templates, segment: seq<byte>, data: seq<byte>, name: seq<byte>, bluesky: bool,
                     d: Draws, seal: Sealer)
    requires t.Valid() && DrawsFit(segment, bluesky, d)
    requires var l := EncryptLayout(bluesky);
      PlaceSealed(t, StoreSecrets(segment, l, name, d.nameKey, d.key, d.nonce), seal(data, d.nonce, d.key), bluesky).Success?
    ensures var l := EncryptLayout(bluesky);
      var stored := StoreSecrets(segment, l, name, d.nameKey, d.key, d.nonce);
      var placed := PlaceSealed(t, stored, seal(data, d.nonce, d.key), bluesky).value;
      l.End() <= |placed| && placed[l.Start()..l.End()] == stored[l.Start()..l.End()]
  {
    var l := EncryptLayout(bluesky);
    var stored := StoreSecrets(segment, l, name, d.nameKey, d.key, d.nonce);
    var placed := PlaceSealed(t, stored, seal(data, d.nonce, d.key), bluesky).value;
    forall j | l.Start() <= j < l.End()
      ensures placed[j] == stored[j]
    {
      assert Bluesky.OutsideSizeFields(j) || !bluesky;
    }
    SliceAgrees(placed, stored, l.Start(), l.End());
  }

  /** The PIN encryptDataFile returns is the big-endian value of the
      secretbox key's first 8 bytes. */
  lemma PinIsKeyPrefix(t: Bluesky.Templates, segment: seq<byte>, data: seq<byte>, name: seq<byte>, bluesky: bool,
                       d: Draws, seal: Sealer)
    requires t.Valid() && DrawsFit(segment, bluesky, d)
    requires Obfuscation(t, segment, data, name, bluesky, d, seal).Success?
    ensures var o := Obfuscation(t, segment, data, name, bluesky, d, seal).value;
      o.pin < Pow256(XorKeyLength) && ToBE(o.pin, XorKeyLength) == d.key[..XorKeyLength]
  {
    var l := EncryptLayout(bluesky);
    var stored := StoreSecrets(segment, l, name, d.nameKey, d.key, d.nonce);
    var placed := PlaceSealed(t, stored, seal(data, d.nonce, d.key), bluesky).value;
    PlacedRegion(t, segment, data, name, bluesky, d, seal);
    assert XorKey(placed, l.sodiumKey) == stored[l.sodiumKey..l.End()][..XorKeyLength] by {
      SubSlice(placed, l.Start(), stored, l.Start(), l.End() - l.Start(), l.sodiumKey - l.Start(), l.sodiumKey - l.Start() + XorKeyLength);
      assert stored[l.sodiumKey..l.End()][..XorKeyLength] == stored[l.sodiumKey..l.sodiumKey + XorKeyLength];
    }
    assert (d.key + d.nonce)[..XorKeyLength] == d.key[..XorKeyLength];
  }

  /** With the PIN, any image that carries the obfuscated profile's secret
      region `shift` bytes further to the front gives back the key, the
      nonce and the stored filename. */
  lemma EncryptedSecretsReadBack(t: Bluesky.Templates, segment: seq<byte>, data: seq<byte>, name: seq<byte>, bluesky: bool,
                                 d: Draws, seal: Sealer, w: seq<byte>, shift: nat)
    requires t.Valid() && DrawsFit(segment, bluesky, d)
    requires Obfuscation(t, segment, data, name, bluesky, d, seal).Success?
    requires var o := Obfuscation(t, segment, data, name, bluesky, d, seal).value;
      var l := EncryptLayout(bluesky);
      shift < l.filename && l.End() - shift <= |w| && w[l.Start() - shift..l.End() - shift] == o.profile[l.Start()..l.End()]
    ensures var s := ReadSecrets(w, EncryptLayout(bluesky).Shifted(shift), Obfuscation(t, segment, data, name, bluesky, d, seal).value.pin);
      s.Success? && s.value.key == d.key && s.value.nonce == d.nonce && NameRecovered(s.value.filename, name, |d.nameKey|)
  {
    var l := EncryptLayout(bluesky);
    var stored := StoreSecrets(segment, l, name, d.nameKey, d.key, d.nonce);
    var placed := PlaceSealed(t, stored, seal(data, d.nonce, d.key), bluesky).value;
    var o := Obfuscation(t, segment, data, name, bluesky, d, seal).value;
    PlacedRegion(t, segment, data, name, bluesky, d, seal);
    assert Obfuscates(o, placed, l.sodiumKey);
    SecretsRoundTrip(segment, l, name, d.nameKey, d.key, d.nonce, placed, o, w, shift);
  }

  /** encryptDataFile. A Bluesky profile goes in front of the image and
      only the Bluesky report entry is kept; any other profile goes to
      segmentDataFile. */
  function EncryptDataFile(t: Bluesky.Templates, segment: seq<byte>, data: seq<byte>, jpg: seq<byte>, platforms: seq<string>,
                           name: seq<byte>, bluesky: bool, reddit: bool, d: Draws, seal: Sealer, noise: seq<byte>): (r: Result<Embedding, EncryptError>)
    requires t.Valid() && DrawsFit(segment, bluesky, d)
    requires |segment| + |seal(data, d.nonce, d.key)| < Segmentation.VectorMaxSize
    requires |platforms| >= 6
    requires |noise| == Segmentation.RedditPaddingSize && forall i :: 0 <= i < |noise| ==> noise[i] < 94
    ensures r.Success? ==>
      Obfuscation(t, segment, data, name, bluesky, d, seal).Success? &&
      r.value.pin == Obfuscation(t, segment, data, name, bluesky, d, seal).value.pin
    ensures bluesky ==> (r.Success? <==> |segment| >= Bluesky.ExifInsertIndex && |seal(data, d.nonce, d.key)| <= Bluesky.MaxBlueskyData)
    ensures r.Success? && bluesky ==>
      r.value.jpg == Obfuscation(t, segment, data, name, bluesky, d, seal).value.profile + jpg &&
      r.value.segment == [] && r.value.platforms == [platforms[2]]
    ensures r.Success? && !bluesky ==>
      var s := Segmentation.SegmentDataFile(Obfuscation(t, segment, data, name, bluesky, d, seal).value.profile, jpg, platforms, reddit, noise);
      s.Success? && s.value == Segmentation.Segmented(r.value.segment, r.value.jpg, r.value.platforms)
  {
    var o :- Obfuscation(t, segment, data, name, bluesky, d, seal);
    if bluesky then Success(Embedding(o.pin, [], o.profile + jpg, [platforms[2]]))
    else
      match Segmentation.SegmentDataFile(o.profile, jpg, platforms, reddit, noise)
      case Failure(e) => Failure(SegmentFailed(e))
      case Success(s) => Success(Embedding(o.pin, s.segment, s.jpg, s.platforms))
  }

  /** A Bluesky image written by encryptDataFile gives back the key, the
      nonce and the filename to decryptDataFile's reads with the PIN it
      returned. */
  lemma BlueskySecretsRoundTrip(t: Bluesky.Templates, segment: seq<byte>, data: seq<byte>, jpg: seq<byte>, platforms: seq<string>,
                                name: seq<byte>, d: Draws, seal: Sealer, noise: seq<byte>)
    requires t.Valid() && DrawsFit(segment, true, d)
    requires |segment| + |seal(data, d.nonce, d.key)| < Segmentation.VectorMaxSize
    requires |platforms| >= 6
    requires |noise| == Segmentation.RedditPaddingSize && forall i :: 0 <= i < |noise| ==> noise[i] < 94
    requires EncryptDataFile(t, segment, data, jpg, platforms, name, true, false, d, seal, noise).Success?
    ensures var e := EncryptDataFile(t, segment, data, jpg, platforms, name, true, false, d, seal, noise).value;
      var s := ReadSecrets(e.jpg, DecryptLayout(true).keys, e.pin);
      s.Success? && s.value.key == d.key && s.value.nonce == d.nonce && NameRecovered(s.value.filename, name, |d.nameKey|)
  {
    var o := Obfuscation(t, segment, data, name, true, d, seal).value;
    var e := EncryptDataFile(t, segment, data, jpg, platforms, name, true, false, d, seal, noise).value;
    var l := EncryptLayout(true);
    assert e.jpg == o.profile + jpg && e.pin == o.pin;
    FrontRegion(o.profile, jpg, l.Start(), l.End());
    LayoutsAgree();
    assert l.Shifted(0) == l;
    EncryptedSecretsReadBack(t, segment, data, name, true, d, seal, e.jpg, 0);
  }

  /** Bytes in front of the image keep their place. */
  lemma FrontRegion(profile: seq<byte>, jpg: seq<byte>, a: nat, b: nat)
    requires a <= b <= |profile|
    ensures (profile + jpg)[a..b] == profile[a..b]
  {
    assert (profile + jpg)[..|profile|] == profile;
    SliceWithin(profile + jpg, 0, profile, a, b);
  }
}
