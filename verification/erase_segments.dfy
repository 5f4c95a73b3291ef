/** src/jdvin/eraseSegments.cpp: strip the first APP1 (Exif) and the first
    APP2 (ICC profile) segment from a cover image, note whether the
    profile is a Kodak one, and drop everything before the first
    quantisation table. */
module EraseSegments {
  import opened Wrappers
  import opened Bytes
  import BinaryIo

  const App1Sig: seq<byte> := [0xFF, 0xE1]
  const App2Sig: seq<byte> := [0xFF, 0xE2]
  const Dqt1Sig: seq<byte> := [0xFF, 0xDB, 0x00, 0x43]
  const Dqt2Sig: seq<byte> := [0xFF, 0xDB, 0x00, 0x84]
  /** "KODAROM" */
  const KodakSig: seq<byte> := [0x4B, 0x4F, 0x44, 0x41, 0x52, 0x4F, 0x4D]

  /** Reading the length field or erasing the segment would go past the
      end of the buffer (undefined behaviour in the source). */
  datatype EraseError = SegmentPastEnd

  /** searchFunc: the index of the first `sig` at or after `start`, or the
      buffer's size when there is none. */
  function Locate(v: seq<byte>, sig: seq<byte>, start: nat): (r: nat)
    requires |sig| > 0 && start <= |v|
    ensures start <= r <= |v|
    ensures r < |v| <==> BinaryIo.FindFrom(v, sig, start).Some?
    ensures r < |v| ==> BinaryIo.OccursAt(v, sig, r)
    ensures forall j :: start <= j < r ==> !BinaryIo.OccursAt(v, sig, j)
  {
    match BinaryIo.FindFrom(v, sig, start)
    case Some(p) => p
    case None => |v|
  }

  /** The two-byte big-endian length field at `pos + 2`. */
  function BlockSize(v: seq<byte>, pos: nat): nat
    requires pos + 3 < |v|
  {
    v[pos + 2] as nat * 256 + v[pos + 3] as nat
  }

  /** Erase the first segment introduced by `sig`: the marker and the
      `BlockSize` bytes its length field counts. A buffer without `sig` is
      returned unchanged. */
  function EraseFirst(v: seq<byte>, sig: seq<byte>): (r: Result<seq<byte>, EraseError>)
    requires |sig| > 0
  {
    var pos := Locate(v, sig, 0);
    if pos == |v| then Success(v)
    else if pos + 3 >= |v| || pos + BlockSize(v, pos) + 2 > |v| then Failure(SegmentPastEnd)
    else Success(v[..pos] + v[pos + BlockSize(v, pos) + 2..])
  }

  /** What eraseSegments leaves: the trimmed image and the Kodak flag. */
  datatype Erased = Erased(image: seq<byte>, kodak: bool)

  /** The earlier of the two quantisation-table signatures (the size of
      the buffer when neither occurs). */
  function FirstDqt(v: seq<byte>): (r: nat)
    ensures r <= |v|
  {
    var a := Locate(v, Dqt1Sig, 0);
    var b := Locate(v, Dqt2Sig, 0);
    if a > b then b else a
  }

  /** eraseSegments. `kodak` is the flag's value on entry: it is only ever
      set, never cleared. */
  function Erase(v: seq<byte>, kodak: bool): (r: Result<Erased, EraseError>)
  {
    var noApp1 :- EraseFirst(v, App1Sig);
    var app2 := Locate(noApp1, App2Sig, 0);
    var isKodak := kodak || (app2 < |noApp1| && Locate(noApp1, KodakSig, app2) < |noApp1|);
    var noApp2 :- EraseFirst(noApp1, App2Sig);
    Success(Erased(noApp2[FirstDqt(noApp2)..], isKodak))
  }

  // ---------------------------------------------------------------------
  // Properties
  // ---------------------------------------------------------------------

  /** Erasing takes out exactly one segment, at the first marker: the
      bytes before it are kept, and putting back the bytes from the marker
      to the end of its length gives the original buffer. */
  lemma {:induction false} EraseFirstCutsSegment(v: seq<byte>, sig: seq<byte>)
    requires |sig| > 0
    requires EraseFirst(v, sig).Success? && EraseFirst(v, sig).value != v
    ensures var pos := Locate(v, sig, 0); var r := EraseFirst(v, sig).value;
      && pos + 3 < |v| && BinaryIo.OccursAt(v, sig, pos)
      && pos + BlockSize(v, pos) + 2 <= |v|
      && r[..pos] == v[..pos]
      && v == r[..pos] + v[pos..pos + BlockSize(v, pos) + 2] + r[pos..]
      && |r| == |v| - BlockSize(v, pos) - 2
  {
    var pos := Locate(v, sig, 0);
    var n := BlockSize(v, pos);
    var r := EraseFirst(v, sig).value;
    assert r == v[..pos] + v[pos + n + 2..];
    assert r[..pos] == v[..pos];
    assert r[pos..] == v[pos + n + 2..];
    SplitThree(v, pos, pos + n + 2);
  }

  lemma SplitThree(v: seq<byte>, a: nat, b: nat)
    requires a <= b <= |v|
    ensures v == v[..a] + v[a..b] + v[b..]
  {
    assert v[..a] + v[a..b] == v[..b];
  }

  /** A buffer is left as it is exactly when it holds no `sig`, and the
      source fails only when the segment found runs past the end. */
  lemma EraseFirstFailsOnlyPastEnd(v: seq<byte>, sig: seq<byte>)
    requires |sig| > 0
    ensures EraseFirst(v, sig) == Success(v) <==> BinaryIo.FindFrom(v, sig, 0).None?
    ensures EraseFirst(v, sig).Failure? <==>
      var pos := Locate(v, sig, 0);
      pos < |v| && (pos + 3 >= |v| || pos + BlockSize(v, pos) + 2 > |v|)
  {
    var pos := Locate(v, sig, 0);
    if pos < |v| && pos + 3 < |v| && pos + BlockSize(v, pos) + 2 <= |v| {
      assert |EraseFirst(v, sig).value| < |v|;
    }
  }

  /** The final crop keeps a suffix of the buffer that begins with the
      first quantisation table, or nothing when the buffer has none. */
  lemma {:induction false} CropStartsAtTable(v: seq<byte>)
    ensures var k := FirstDqt(v);
      && v == v[..k] + v[k..]
      && (k < |v| ==> BinaryIo.OccursAt(v, Dqt1Sig, k) || BinaryIo.OccursAt(v, Dqt2Sig, k))
      && (k < |v| ==> v[k..][..4] == Dqt1Sig || v[k..][..4] == Dqt2Sig)
      && (forall j :: 0 <= j < k ==> !BinaryIo.OccursAt(v, Dqt1Sig, j) && !BinaryIo.OccursAt(v, Dqt2Sig, j))
      && (k == |v| <==> BinaryIo.FindFrom(v, Dqt1Sig, 0).None? && BinaryIo.FindFrom(v, Dqt2Sig, 0).None?)
  {
    var k := FirstDqt(v);
    var a := Locate(v, Dqt1Sig, 0);
    var b := Locate(v, Dqt2Sig, 0);
    if k < |v| {
      if k == a {
        assert v[k..][..4] == v[k..k + 4];
      } else {
        assert v[k..][..4] == v[k..k + 4];
      }
    }
  }

  /** The Kodak flag is never cleared, and it is raised exactly when an
      APP2 marker is present and "KODAROM" follows it. */
  lemma KodakFlag(v: seq<byte>, kodak: bool)
    requires Erase(v, kodak).Success?
    ensures kodak ==> Erase(v, kodak).value.kodak
    ensures var noApp1 := EraseFirst(v, App1Sig).value;
      Erase(v, kodak).value.kodak <==>
        kodak || exists i, j :: 0 <= i <= j < |noApp1| && BinaryIo.OccursAt(noApp1, App2Sig, i) && BinaryIo.OccursAt(noApp1, KodakSig, j)
  {
    var noApp1 := EraseFirst(v, App1Sig).value;
    var app2 := Locate(noApp1, App2Sig, 0);
    if exists i, j :: 0 <= i <= j < |noApp1| && BinaryIo.OccursAt(noApp1, App2Sig, i) && BinaryIo.OccursAt(noApp1, KodakSig, j) {
      var i, j :| 0 <= i <= j < |noApp1| && BinaryIo.OccursAt(noApp1, App2Sig, i) && BinaryIo.OccursAt(noApp1, KodakSig, j);
      assert app2 <= i;
      assert Locate(noApp1, KodakSig, app2) <= j;
    }
    if app2 < |noApp1| && Locate(noApp1, KodakSig, app2) < |noApp1| {
      var j := Locate(noApp1, KodakSig, app2);
      assert 0 <= app2 <= j < |noApp1| && BinaryIo.OccursAt(noApp1, App2Sig, app2) && BinaryIo.OccursAt(noApp1, KodakSig, j);
    }
  }

  /** The result of eraseSegments is the buffer after the two erasures,
      from its first quantisation table on. */
  lemma EraseResult(v: seq<byte>, kodak: bool)
    requires Erase(v, kodak).Success?
    ensures EraseFirst(v, App1Sig).Success?
    ensures EraseFirst(EraseFirst(v, App1Sig).value, App2Sig).Success?
    ensures var w := EraseFirst(EraseFirst(v, App1Sig).value, App2Sig).value;
      && Erase(v, kodak).value.image == w[FirstDqt(w)..]
      && |Erase(v, kodak).value.image| <= |v|
  {
    var noApp1 := EraseFirst(v, App1Sig).value;
    var w := EraseFirst(noApp1, App2Sig).value;
    assert |noApp1| <= |v| by {
      if noApp1 != v { EraseFirstCutsSegment(v, App1Sig); }
    }
    assert |w| <= |noApp1| by {
      if w != noApp1 { EraseFirstCutsSegment(noApp1, App2Sig); }
    }
  }
}
