/** Byte-level vocabulary shared by the packer and the extractor: the byte type,
    the error outcomes, little-endian integers as Python's `int.to_bytes` and
    `int.from_bytes` compute them, and Python's slice semantics. */
module Bytes {

  type byte = bv8

  /** The ways the codec can fail. `EmptyBuffer` is the IndexError raised when the
      scrambler reads `buf[0]` of an empty buffer; `FieldOverflow` is the
      OverflowError of `to_bytes(4, "little")`; `NoFiles` is the packer's early
      return when there is nothing to pack. */
  datatype Error = EmptyBuffer | FieldOverflow | NoFiles

  datatype Result<T> = Ok(value: T) | Err(error: Error) {
    predicate IsFailure() { Err? }

    function PropagateFailure<U>(): Result<U>
      requires Err?
    {
      Err(error)
    }

    function Extract(): T
      requires Ok?
    {
      value
    }
  }

  /** 256 to the power n: the number of values that fit in n bytes. */
  function Pow256(n: nat): (r: nat)
    ensures r >= 1
  {
    if n == 0 then 1 else 256 * Pow256(n - 1)
  }

  /** The n low-order bytes of v, least significant first (truncating). */
  function LittleEndian(v: nat, n: nat): (r: seq<byte>)
    ensures |r| == n
  {
    if n == 0 then [] else [ByteOf(v % 256)] + LittleEndian(v / 256, n - 1)
  }

  /** `int.from_bytes(s, "little")`: any length, the empty sequence reads as 0. */
  function FromLE(s: seq<byte>): nat
  {
    if |s| == 0 then 0 else s[0] as nat + 256 * FromLE(s[1..])
  }

  lemma {:induction false} FromLittleEndian(v: nat, n: nat)
    requires v < Pow256(n)
    ensures FromLE(LittleEndian(v, n)) == v
  {
    if n > 0 {
      var q, low := v / 256, v % 256;
      assert v == 256 * q + low;
      assert q < Pow256(n - 1);
      FromLittleEndian(q, n - 1);
      var s := LittleEndian(v, n);
      assert s[1..] == LittleEndian(q, n - 1);
      ByteOfValue(low);
    }
  }

  /** The byte whose value is x, counted up from 0. */
  function ByteOf(x: nat): (r: byte)
    requires x < 256
  {
    if x == 0 then 0 else ByteOf(x - 1) + 1
  }

  lemma ByteSucc(b: byte)
    requires b as int < 255
    ensures (b + 1) as int == b as int + 1
  {
  }

  lemma {:induction false} ByteOfValue(x: nat)
    requires x < 256
    ensures ByteOf(x) as nat == x
  {
    if x > 0 {
      ByteOfValue(x - 1);
      ByteSucc(ByteOf(x - 1));
    }
  }

  lemma {:induction false} FromLEBound(s: seq<byte>)
    ensures FromLE(s) < Pow256(|s|)
  {
    if |s| > 0 {
      FromLEBound(s[1..]);
    }
  }

  /** The largest value a u32 field can hold, plus one. */
  const U32Limit: nat := 0x1_0000_0000

  lemma Pow256Four()
    ensures Pow256(4) == U32Limit
  {
  }

  lemma {:induction false} Pow256UpToFour(n: nat)
    requires n <= 4
    ensures Pow256(n) <= U32Limit
    decreases 4 - n
  {
    if n < 4 {
      Pow256UpToFour(n + 1);
    }
  }

  /** At most four bytes read as a value that fits a u32 field. */
  lemma FromLEU32(s: seq<byte>)
    requires |s| <= 4
    ensures FromLE(s) < U32Limit
  {
    FromLEBound(s);
    Pow256UpToFour(|s|);
  }

  /** `v.to_bytes(4, "little")`: OverflowError when v does not fit in 32 bits. */
  function U32LE(v: nat): (r: Result<seq<byte>>)
    ensures r.Err? <==> v >= U32Limit
    ensures r.Err? ==> r.error == FieldOverflow
    ensures r.Ok? ==> |r.value| == 4 && FromLE(r.value) == v
  {
    Pow256Four();
    if v < U32Limit then
      FromLittleEndian(v, 4);
      Ok(LittleEndian(v, 4))
    else
      Err(FieldOverflow)
  }

  /** Python's normalisation of one slice bound against a length n: a negative
      bound counts from the end, and the result is clamped into [0, n]. */
  function SliceBound(i: int, n: nat): (r: nat)
    ensures r <= n
    ensures 0 <= i <= n ==> r == i
  {
    if i < 0 then (if i + n < 0 then 0 else i + n)
    else if i > n then n
    else i
  }

  /** Python's `s[lo:hi]`: never fails, clamps out-of-range bounds, and is empty
      when the normalised bounds cross. */
  function PySlice(s: seq<byte>, lo: int, hi: int): (r: seq<byte>)
    ensures |r| <= |s|
    ensures 0 <= lo <= hi <= |s| ==> r == s[lo..hi]
    ensures 0 <= lo <= |s| <= hi ==> r == s[lo..]
    ensures 0 <= hi <= lo ==> r == []
    ensures |s| <= lo ==> r == []
    ensures -|s| <= lo < 0 && |s| <= hi ==> r == s[|s| + lo..]
  {
    var l, h := SliceBound(lo, |s|), SliceBound(hi, |s|);
    if l <= h then s[l..h] else []
  }

  lemma SliceOfSlice(s: seq<byte>, lo: nat, hi: nat, a: nat, b: nat)
    requires lo <= hi <= |s| && a <= b <= hi - lo
    ensures s[lo..hi][a..b] == s[lo + a..lo + b]
  {
    assert forall k :: 0 <= k < b - a ==> s[lo..hi][a..b][k] == s[lo + a..lo + b][k];
  }

  /** A slice inside the first part of a concatenation. */
  lemma SliceOfFront(a: seq<byte>, b: seq<byte>, lo: nat, hi: nat)
    requires lo <= hi <= |a|
    ensures (a + b)[lo..hi] == a[lo..hi]
  {
    assert forall k :: 0 <= k < hi - lo ==> (a + b)[lo..hi][k] == a[lo..hi][k];
  }

  /** The second part of a concatenation, as a slice. */
  lemma SliceOfBack(a: seq<byte>, b: seq<byte>)
    ensures (a + b)[|a|..|a| + |b|] == b
  {
    assert forall k :: 0 <= k < |b| ==> (a + b)[|a|..|a| + |b|][k] == b[k];
  }

  /** `s.split(b"\x00", 1)[0]`: the bytes before the first NUL, or all of s. */
  function BeforeNul(s: seq<byte>): (r: seq<byte>)
    ensures r <= s
    ensures forall k :: 0 <= k < |r| ==> r[k] != 0
    ensures |r| < |s| ==> s[|r|] == 0
  {
    if |s| == 0 || s[0] == 0 then [] else [s[0]] + BeforeNul(s[1..])
  }

  /** A run of n zero bytes, as `bytearray(n)` creates. */
  function Zeros(n: nat): (r: seq<byte>)
    ensures |r| == n
    ensures forall k :: 0 <= k < n ==> r[k] == 0
  {
    seq(n, _ => 0)
  }

  /** A NUL right after `name` ends the name field there, so padding with
      zeros does not change what is read back. */
  lemma {:induction false} BeforeNulPadded(name: seq<byte>, pad: seq<byte>)
    requires |pad| > 0 && pad[0] == 0
    ensures BeforeNul(name + pad) == BeforeNul(name)
  {
    if |name| > 0 {
      assert (name + pad)[0] == name[0];
      if name[0] != 0 {
        assert (name + pad)[1..] == name[1..] + pad;
        BeforeNulPadded(name[1..], pad);
      }
    } else {
      assert name + pad == pad;
    }
  }

  /** A name without NUL bytes reads back whole. */
  lemma {:induction false} BeforeNulNoNul(name: seq<byte>)
    requires forall k :: 0 <= k < |name| ==> name[k] != 0
    ensures BeforeNul(name) == name
  {
    if |name| > 0 {
      BeforeNulNoNul(name[1..]);
    }
  }
}
