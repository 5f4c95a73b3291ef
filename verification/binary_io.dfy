/** src/binary_io.cpp: signature search and big-endian field access. */
module BinaryIo {
  import opened Wrappers
  import opened Bytes

  datatype IoError = OutOfRange | UnsupportedLength

  /** The part of `v` that is searched: all of it when `limit` is 0 or
      larger than the buffer, otherwise its first `limit` bytes. */
  function Window(v: seq<byte>, limit: nat): (w: seq<byte>)
    ensures |w| <= |v| && w == v[..|w|]
    ensures |w| == if limit == 0 || limit > |v| then |v| else limit
  {
    if limit == 0 || limit > |v| then v else v[..limit]
  }

  /** `sig` occurs in `w` starting at index `i`. */
  predicate OccursAt(w: seq<byte>, sig: seq<byte>, i: nat)
  {
    i + |sig| <= |w| && w[i..i + |sig|] == sig
  }

  /** Leftmost occurrence of a non-empty `sig` in `w` at or after `i`. */
  function FindFrom(w: seq<byte>, sig: seq<byte>, i: nat): (r: Option<nat>)
    requires |sig| > 0 && i <= |w|
    ensures r.Some? ==> i <= r.value && OccursAt(w, sig, r.value)
    ensures r.Some? ==> forall j :: i <= j < r.value ==> !OccursAt(w, sig, j)
    ensures r.None? ==> forall j :: i <= j ==> !OccursAt(w, sig, j)
    decreases |w| - i
  {
    if i + |sig| > |w| then None
    else if w[i..i + |sig|] == sig then Some(i)
    else FindFrom(w, sig, i + 1)
  }

  /** searchSig: index of the first occurrence of `sig` lying entirely in
      the searched window; none for an empty signature (the search then
      returns an empty range, which the source reports as "not found"). */
  function SearchSig(v: seq<byte>, sig: seq<byte>, limit: nat): (r: Option<nat>)
    ensures r.Some? ==> |sig| > 0 && OccursAt(Window(v, limit), sig, r.value)
    ensures r.Some? ==> forall j :: 0 <= j < r.value ==> !OccursAt(Window(v, limit), sig, j)
    ensures r.None? ==> |sig| == 0 || forall j :: !OccursAt(Window(v, limit), sig, j)
    ensures r.Some? ==> OccursAt(v, sig, r.value)
  {
    if |sig| == 0 then None
    else
      var w := Window(v, limit);
      var r := FindFrom(w, sig, 0);
      if r.Some? then
        assert w[r.value..r.value + |sig|] == v[r.value..r.value + |sig|];
        r
      else r
  }

  /** The bytes of `data` with the n-byte big-endian encoding of `value`
      (its low 8*n bits) written at `index`; shared by every writer of a
      length or size field. */
  function WriteBE(data: seq<byte>, index: nat, value: nat, n: nat): (r: seq<byte>)
    requires index + n <= |data|
    ensures |r| == |data|
    ensures r[index..index + n] == ToBE(value, n)
    ensures BE(r[index..index + n]) == value % Pow256(n)
    ensures forall j :: 0 <= j < |data| && !(index <= j < index + n) ==> r[j] == data[j]
  {
    BEToBE(value, n);
    var r := data[..index] + ToBE(value, n) + data[index + n..];
    assert r[index..index + n] == ToBE(value, n);
    r
  }

  predicate SupportedLength(length: nat)
  {
    length == 2 || length == 4 || length == 8
  }

  /** updateValue: bounds are checked first, then the length. */
  function UpdateValue(data: seq<byte>, index: nat, value: nat, length: nat): (r: Result<seq<byte>, IoError>)
    ensures index + length > |data| ==> r == Failure(OutOfRange)
    ensures index + length <= |data| && !SupportedLength(length) ==> r == Failure(UnsupportedLength)
    ensures r.Success? <==> index + length <= |data| && SupportedLength(length)
    ensures r.Success? ==> |r.value| == |data|
    ensures r.Success? ==> BE(r.value[index..index + length]) == value % Pow256(length)
    ensures r.Success? ==> forall j :: 0 <= j < |data| && !(index <= j < index + length) ==> r.value[j] == data[j]
  {
    if index + length > |data| then Failure(OutOfRange)
    else if !SupportedLength(length) then Failure(UnsupportedLength)
    else Success(WriteBE(data, index, value, length))
  }

  /** getValue: the big-endian integer stored at [index, index+length). */
  function GetValue(data: seq<byte>, index: nat, length: nat): (r: Result<nat, IoError>)
    ensures index + length > |data| ==> r == Failure(OutOfRange)
    ensures index + length <= |data| && !SupportedLength(length) ==> r == Failure(UnsupportedLength)
    ensures r.Success? <==> index + length <= |data| && SupportedLength(length)
    ensures r.Success? ==> r.value < Pow256(length)
    ensures r.Success? ==> ToBE(r.value, length) == data[index..index + length]
  {
    if index + length > |data| then Failure(OutOfRange)
    else if !SupportedLength(length) then Failure(UnsupportedLength)
    else
      var s := data[index..index + length];
      BEBound(s);
      ToBEOfBE(s);
      Success(BE(s))
  }

  /** Reading a field back after writing it yields the value reduced to the
      field width. */
  lemma UpdateThenGet(data: seq<byte>, index: nat, value: nat, length: nat)
    requires UpdateValue(data, index, value, length).Success?
    ensures GetValue(UpdateValue(data, index, value, length).value, index, length) == Success(value % Pow256(length))
  {
    var d' := UpdateValue(data, index, value, length).value;
    var g := GetValue(d', index, length);
    BEInjective(ToBE(g.value, length), ToBE(value, length));
    BEToBE(g.value, length);
    BEToBE(value, length);
    assert g.value % Pow256(length) == g.value;
  }

  /** Writing back a value just read leaves the buffer unchanged. */
  lemma GetThenUpdate(data: seq<byte>, index: nat, length: nat)
    requires GetValue(data, index, length).Success?
    ensures UpdateValue(data, index, GetValue(data, index, length).value, length) == Success(data)
  {
    var v := GetValue(data, index, length).value;
    assert data[index..index + length] == ToBE(v, length);
    assert data == data[..index] + data[index..index + length] + data[index + length..];
    assert WriteBE(data, index, v, length) == data;
  }

  /** A field holding the big-endian encoding of x reads back as x reduced
      to the field width. */
  lemma GetValueOfField(data: seq<byte>, index: nat, x: nat, length: nat)
    requires SupportedLength(length) && index + length <= |data|
    requires data[index..index + length] == ToBE(x, length)
    ensures GetValue(data, index, length) == Success(x % Pow256(length))
  {
    var g := GetValue(data, index, length);
    BEInjective(ToBE(g.value, length), ToBE(x, length));
    BEToBE(g.value, length);
    BEToBE(x, length);
    assert g.value % Pow256(length) == g.value;
  }

  /** The value getValue returns is the big-endian reading of the field. */
  lemma GetValueReadsBE(data: seq<byte>, index: nat, length: nat)
    requires GetValue(data, index, length).Success?
    ensures GetValue(data, index, length).value == BE(data[index..index + length])
  {
    var g := GetValue(data, index, length).value;
    BEToBE(g, length);
  }

  /** An occurrence inside the window with none before it anywhere in the
      buffer is the one searchSig reports. */
  lemma SearchSigFinds(v: seq<byte>, sig: seq<byte>, limit: nat, k: nat)
    requires |sig| > 0 && OccursAt(v, sig, k) && k + |sig| <= |Window(v, limit)|
    requires forall j :: 0 <= j < k ==> !OccursAt(v, sig, j)
    ensures SearchSig(v, sig, limit) == Some(k)
  {
    var w := Window(v, limit);
    assert w[k..k + |sig|] == v[k..k + |sig|];
    assert OccursAt(w, sig, k);
  }

  /** With no occurrence before `k` and the window ending before an
      occurrence at `k` could, searchSig finds nothing. */
  lemma SearchSigMisses(v: seq<byte>, sig: seq<byte>, limit: nat, k: nat)
    requires k + |sig| > |Window(v, limit)|
    requires forall j :: 0 <= j < k ==> !OccursAt(v, sig, j)
    ensures SearchSig(v, sig, limit).None?
  {
  }

  /** Sequences that agree from `k` on agree on every slice there. */
  lemma SliceOfSuffix(q: seq<byte>, p: seq<byte>, k: nat, i: nat, j: nat)
    requires |q| == |p| && k <= i <= j <= |q| && q[k..] == p[k..]
    ensures q[i..j] == p[i..j]
  {
    forall m | 0 <= m < j - i
      ensures q[i..j][m] == p[i..j][m]
    {
      assert q[i..j][m] == q[k..][i - k + m];
      assert p[i..j][m] == p[k..][i - k + m];
    }
  }

  /** A slice of a part that sits at `at` inside `v` is the same slice of
      `v`, shifted by `at`. */
  lemma SliceWithin(v: seq<byte>, at: nat, p: seq<byte>, i: nat, j: nat)
    requires at + |p| <= |v| && v[at..at + |p|] == p && i <= j <= |p|
    ensures v[at + i..at + j] == p[i..j]
  {
    forall m | 0 <= m < j - i
      ensures v[at + i..at + j][m] == p[i..j][m]
    {
      assert v[at + i..at + j][m] == v[at..at + |p|][i + m];
    }
  }
}
