/** src/recover.cpp recoverData: find the program's signature, undo the
    Bluesky layout or trim the prefix in front of the ICC profile, decrypt,
    keep the PIN-attempt counter, and inflate. The file writes become the
    effect the call has on the image file. */
module Recover {
  import opened Wrappers
  import opened Bytes
  import opened BinaryIo
  import Encryption
  import BlueskyReassembly

  /** The 7-byte signature every embedded image carries. */
  const JdvrifSig: seq<byte> := [0xB4, 0x6A, 0x3E, 0xEA, 0x5E, 0x9D, 0xF9]
  /** The tail of "mntrRGB" inside the ICC profile header. */
  const IccProfileSig: seq<byte> := [0x6D, 0x6E, 0x74, 0x72, 0x52, 0x47, 0x42]
  const SigLength: nat := 7
  /** The counter byte sits right behind the signature (index + 8 - 1). */
  const IndexDiff: nat := 8
  /** NO_ZLIB_COMPRESSION_ID_INDEX (0x80) less 24: the flag's place once
      the prefix is trimmed. */
  const CompressionFlagIndex: nat := 0x80 - 24
  /** 'X': the data was stored without zlib compression. */
  const NoCompressionId: byte := 0x58
  /** The counter value of an image with no failed attempt pending. */
  const AttemptsReset: byte := 0x90

  // ---------------------------------------------------------------------
  // The PIN-attempt counter
  // ---------------------------------------------------------------------

  /** What recoverData does to the image file. */
  datatype Effect = Untouched | WriteCounter(offset: nat, value: byte) | Destroy

  /** The counter after one more failed attempt: the reset value counts as
      no attempt, and the byte increment wraps. */
  function NextAttempts(c: byte): byte
  {
    if c == AttemptsReset then 0 else c + 1
  }

  /** The file effect of a failed decryption: the new count is written
      back, unless it exceeds 2 and the image is truncated instead. */
  function OnFailure(c: byte, offset: nat): (e: Effect)
    ensures e == Destroy || e == WriteCounter(offset, NextAttempts(c))
  {
    var n := NextAttempts(c);
    if n > 2 then Destroy else WriteCounter(offset, n)
  }

  /** The file effect of a successful recovery: the counter goes back to
      the reset value if it is not there already. */
  function OnSuccess(c: byte, offset: nat): (e: Effect)
    ensures e == Untouched <==> c == AttemptsReset
  {
    if c != AttemptsReset then WriteCounter(offset, AttemptsReset) else Untouched
  }

  /** A failed attempt leaves the image in place exactly for the counter
      values that cannot yet have three failures behind them (0xFF wraps
      round to 0). */
  lemma FailureKeepsImage(c: byte, offset: nat)
    ensures OnFailure(c, offset) != Destroy <==> c == AttemptsReset || c == 0 || c == 1 || c == 0xFF
  {
  }

  /** The image file as far as the counter is concerned. */
  datatype Image = Intact(counter: byte) | Truncated

  /** The image after an effect on its counter byte. */
  function Apply(img: Image, e: Effect): Image
  {
    match e
    case Untouched => img
    case WriteCounter(_, v) => if img.Intact? then Intact(v) else img
    case Destroy => Truncated
  }

  /** The image after k failed attempts in a row. A truncated image has
      no signature left, so later attempts leave it as it is. */
  function AfterFailures(img: Image, k: nat): Image
  {
    if k == 0 then img
    else match AfterFailures(img, k - 1)
      case Truncated => Truncated
      case Intact(c) => Apply(Intact(c), OnFailure(c, 0))
  }

  /** From the reset value, the fourth failure in a row is the one that
      truncates the image; the three before it count 0, 1 and 2. */
  lemma {:induction false} FourthFailureDestroys(k: nat)
    ensures AfterFailures(Intact(AttemptsReset), k) == Truncated <==> k >= 4
    ensures k < 4 ==> AfterFailures(Intact(AttemptsReset), k) == Intact(if k == 0 then AttemptsReset else (k - 1) as byte)
  {
    if k > 4 {
      FourthFailureDestroys(k - 1);
    } else if k > 0 {
      FourthFailureDestroys(k - 1);
    }
  }

  /** A successful recovery puts any intact counter back to the reset
      value, so the next failures count from scratch. */
  lemma SuccessResets(c: byte, offset: nat)
    ensures Apply(Intact(c), OnSuccess(c, offset)) == Intact(AttemptsReset)
  {
  }

  // ---------------------------------------------------------------------
  // recoverData
  // ---------------------------------------------------------------------

  datatype RecoverError =
    | NoSignature
    | Reassembly(reassembly: BlueskyReassembly.ReassembleError)
    | Decrypt(decrypt: Encryption.DecryptError)
    | WrongPin
    | InflateFailed
    | EmptyOutput

  /** The foreign zlib inflate: the inflated bytes, or None when zlib
      reports an error. */
  type Inflater = seq<byte> -> Option<seq<byte>>

  datatype Recovered = Recovered(filename: seq<byte>, data: seq<byte>)

  datatype Recovery = Recovery(result: Result<Recovered, RecoverError>, effect: Effect)

  /** The reads recoverData makes without a bounds check stay in the
      buffer: the counter byte behind the signature, the trim in front of
      the ICC signature, and the compression flag after the trim. */
  predicate ReadsInBounds(jpg: seq<byte>)
  {
    (SearchSig(jpg, JdvrifSig, 0).Some? ==> SearchSig(jpg, JdvrifSig, 0).value + IndexDiff - 1 < |jpg|) &&
    (SearchSig(jpg, IccProfileSig, 0).Some? ==>
       var i := SearchSig(jpg, IccProfileSig, 0).value;
       i >= IndexDiff && CompressionFlagIndex < |jpg| - (i - IndexDiff))
  }

  /** The image handed to decryptDataFile, whether it is a Bluesky image,
      and whether its data is compressed. */
  datatype Prepared = Prepared(image: seq<byte>, bluesky: bool, compressed: bool)

  /** An image with the ICC profile signature is trimmed to start 8 bytes
      before it and is compressed unless its flag byte is 'X'; any other
      image is a Bluesky one, always compressed, and is reassembled. */
  function Prepare(jpg: seq<byte>): (r: Result<Prepared, BlueskyReassembly.ReassembleError>)
    requires ReadsInBounds(jpg)
    ensures SearchSig(jpg, IccProfileSig, 0).Some? ==>
      var i := SearchSig(jpg, IccProfileSig, 0).value;
      r.Success? && !r.value.bluesky && r.value.image == jpg[i - IndexDiff..] &&
      (r.value.compressed <==> jpg[i - IndexDiff + CompressionFlagIndex] != NoCompressionId)
    ensures SearchSig(jpg, IccProfileSig, 0).None? ==>
      (r.Success? ==> r.value.bluesky && r.value.compressed && |r.value.image| == |jpg|)
  {
    match SearchSig(jpg, IccProfileSig, 0)
    case Some(i) =>
      var v := jpg[i - IndexDiff..];
      Success(Prepared(v, false, v[CompressionFlagIndex] != NoCompressionId))
    case None =>
      match BlueskyReassembly.ReassembleBlueskyData(jpg, SigLength)
      case Failure(e) => Failure(e)
      case Success(v) => Success(Prepared(v, true, true))
  }

  /** The recovered file: inflated when the data is compressed; it must
      not be empty. */
  function Output(data: seq<byte>, compressed: bool, inflate: Inflater): (r: Result<seq<byte>, RecoverError>)
    ensures r.Success? ==> |r.value| > 0
    ensures !compressed ==> (r.Success? <==> |data| > 0) && (r.Success? ==> r.value == data)
  {
    var out :- if compressed then
        match inflate(data)
        case None => Failure(InflateFailed)
        case Some(d) => Success(d)
      else Success(data);
    if |out| == 0 then Failure(EmptyOutput) else Success(out)
  }

  /** recoverData after decryption: count a wrong PIN, inflate, and
      reset the counter on success. */
  function Finish(counter: byte, offset: nat, decrypted: Result<Encryption.Extraction, Encryption.DecryptError>,
                  compressed: bool, inflate: Inflater): (r: Recovery)
    ensures r.result == Failure(WrongPin) <==> r.effect == OnFailure(counter, offset)
    ensures r.result == Failure(WrongPin) <==> decrypted == Success(Encryption.DecryptionFailed)
    ensures r.result.Success? ==> r.effect == OnSuccess(counter, offset) && |r.result.value.data| > 0
    ensures r.result.Success? ==>
      (decrypted.Success? && decrypted.value.Extracted? && r.result.value.filename == decrypted.value.filename)
    ensures r.effect == WriteCounter(offset, AttemptsReset) ==> r.result.Success?
    ensures r.result.Failure? && r.result != Failure(WrongPin) ==> r.effect == Untouched
  {
    match decrypted
    case Failure(e) => Recovery(Failure(Decrypt(e)), Untouched)
    case Success(x) =>
      if x.DecryptionFailed? then Recovery(Failure(WrongPin), OnFailure(counter, offset))
      else match Output(x.data, compressed, inflate)
        case Failure(e) => Recovery(Failure(e), Untouched)
        case Success(out) => Recovery(Success(Recovered(x.filename, out)), OnSuccess(counter, offset))
  }

  /** The rest of recoverData once the counter has been read. */
  function Attempt(counter: byte, offset: nat, prepared: Result<Prepared, BlueskyReassembly.ReassembleError>, pin: nat,
                   open: Encryption.Opener, inflate: Inflater): (r: Recovery)
    ensures r.result == Failure(WrongPin) <==> r.effect == OnFailure(counter, offset)
    ensures r.result.Success? ==> r.effect == OnSuccess(counter, offset) && |r.result.value.data| > 0
    ensures r.effect == WriteCounter(offset, AttemptsReset) ==> r.result.Success?
    ensures r.result.Failure? && r.result != Failure(WrongPin) ==> r.effect == Untouched
  {
    match prepared
    case Failure(e) => Recovery(Failure(Reassembly(e)), Untouched)
    case Success(p) => Finish(counter, offset, Encryption.DecryptDataFile(p.image, p.bluesky, pin, open), p.compressed, inflate)
  }

  /** The offset of the counter byte of an image with the signature. */
  function CounterOffset(jpg: seq<byte>): nat
    requires SearchSig(jpg, JdvrifSig, 0).Some?
  {
    SearchSig(jpg, JdvrifSig, 0).value + IndexDiff - 1
  }

  /** recoverData with the PIN the user typed. Only a wrong PIN and a
      success touch the image, through the counter byte behind the
      signature. */
  function RecoverData(jpg: seq<byte>, pin: nat, open: Encryption.Opener, inflate: Inflater): (r: Recovery)
    requires ReadsInBounds(jpg)
    ensures SearchSig(jpg, JdvrifSig, 0).None? ==> r == Recovery(Failure(NoSignature), Untouched)
    ensures SearchSig(jpg, JdvrifSig, 0).Some? ==>
      var offset := CounterOffset(jpg);
      offset < |jpg| &&
      (r.result == Failure(WrongPin) <==> r.effect == OnFailure(jpg[offset], offset)) &&
      (r.result.Success? ==> r.effect == OnSuccess(jpg[offset], offset)) &&
      (r.effect == WriteCounter(offset, AttemptsReset) ==> r.result.Success?) &&
      (r.result.Failure? && r.result != Failure(WrongPin) ==> r.effect == Untouched)
    ensures r.result.Success? ==> |r.result.value.data| > 0
  {
    match SearchSig(jpg, JdvrifSig, 0)
    case None => Recovery(Failure(NoSignature), Untouched)
    case Some(index) =>
      var offset := CounterOffset(jpg);
      Attempt(jpg[offset], offset, Prepare(jpg), pin, open, inflate)
  }

  /** The recovered file is the decrypted data, inflated when the image
      says it is compressed; an empty result or a zlib error fails
      without touching the image. */
  lemma RecoveredFile(counter: byte, offset: nat, name: seq<byte>, data: seq<byte>, compressed: bool, inflate: Inflater)
    ensures var r := Finish(counter, offset, Success(Encryption.Extracted(name, data)), compressed, inflate);
      (!compressed ==> (r.result.Success? <==> |data| > 0) &&
                       (|data| > 0 ==> r.result == Success(Recovered(name, data)))) &&
      (compressed ==> (r.result.Success? <==> inflate(data).Some? && |inflate(data).value| > 0) &&
                      (r.result.Success? ==> r.result == Success(Recovered(name, inflate(data).value)))) &&
      (r.result.Failure? ==> r.effect == Untouched)
  {
    var r := Finish(counter, offset, Success(Encryption.Extracted(name, data)), compressed, inflate);
    var o := Output(data, compressed, inflate);
    assert r.result.Success? <==> o.Success?;
    if o.Success? {
      assert r.result == Success(Recovered(name, o.value));
    }
  }

  /** Whatever the image, three wrong PINs in a row from the reset value
      leave it intact with the counter at 2, and a fourth truncates it. */
  lemma WrongPinSequence(offset: nat)
    ensures Apply(Intact(AttemptsReset), OnFailure(AttemptsReset, offset)) == Intact(0)
    ensures Apply(Intact(0), OnFailure(0, offset)) == Intact(1)
    ensures Apply(Intact(1), OnFailure(1, offset)) == Intact(2)
    ensures OnFailure(2, offset) == Destroy
  {
  }
}
