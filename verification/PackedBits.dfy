/** A bit map packed into bytes, least significant bit first, and what setting a bit does to it. */
module PackedBits {
  import opened BitRuns

  predicate BitOf(x: bv8, k: nat)
    requires k < 8
  {
    x & ((1 as bv8) << k) != 0
  }

  function WithBit(x: bv8, k: nat, v: bool): bv8
    requires k < 8
  {
    var mask := (1 as bv8) << k;
    if v then x | mask else x & !mask
  }

  lemma OrAndMask(x: bv8, m: bv8, n: bv8)
    requires m == n || m & n == 0
    ensures (x | m) & n == if m == n then n else x & n
    ensures (x & !m) & n == if m == n then 0 else x & n
  {
  }

  const MASKS: seq<bv8> := [1, 2, 4, 8, 16, 32, 64, 128]

  lemma MaskAt(k: nat)
    requires k < 8
    ensures (1 as bv8) << k == MASKS[k]
  {
  }

  lemma WithBitChangesOneBit(x: bv8, k: nat, v: bool, j: nat)
    requires k < 8 && j < 8
    ensures BitOf(WithBit(x, k, v), j) == if j == k then v else BitOf(x, j)
  {
    MaskAt(k);
    MaskAt(j);
    OrAndMask(x, (1 as bv8) << k, (1 as bv8) << j);
  }

  lemma EqualBitsEqualBytes(x: bv8, y: bv8)
    requires forall k: nat | k < 8 :: BitOf(x, k) == BitOf(y, k)
    ensures x == y
  {
    assert BitOf(x, 0) == BitOf(y, 0);
    assert BitOf(x, 1) == BitOf(y, 1);
    assert BitOf(x, 2) == BitOf(y, 2);
    assert BitOf(x, 3) == BitOf(y, 3);
    assert BitOf(x, 4) == BitOf(y, 4);
    assert BitOf(x, 5) == BitOf(y, 5);
    assert BitOf(x, 6) == BitOf(y, 6);
    assert BitOf(x, 7) == BitOf(y, 7);
  }

  predicate GetBit(buf: seq<bv8>, i: nat)
    requires i < 8 * |buf|
  {
    BitOf(buf[i / 8], i % 8)
  }

  function SetBit(buf: seq<bv8>, i: nat, v: bool): (r: seq<bv8>)
    requires i < 8 * |buf|
    ensures |r| == |buf|
  {
    buf[i / 8 := WithBit(buf[i / 8], i % 8, v)]
  }

  /** The first n bits of the buffer. */
  function Unpack(buf: seq<bv8>, n: nat): (b: seq<bool>)
    requires n <= 8 * |buf|
    ensures |b| == n && forall i: nat | i < n :: b[i] == GetBit(buf, i)
  {
    seq(n, i requires 0 <= i < n => GetBit(buf, i))
  }

  lemma SetBitChangesOneBit(buf: seq<bv8>, i: nat, v: bool, j: nat)
    requires i < 8 * |buf| && j < 8 * |buf|
    ensures GetBit(SetBit(buf, i, v), j) == if j == i then v else GetBit(buf, j)
  {
  }

  /** Bit by bit, what a loop of n SetBit calls from s on leaves in the buffer. */
  function SetBits(buf: seq<bv8>, s: nat, n: nat, v: bool): (r: seq<bv8>)
    requires s + n <= 8 * |buf|
    ensures |r| == |buf|
  {
    if n == 0 then buf else SetBit(SetBits(buf, s, n - 1, v), s + n - 1, v)
  }

  lemma {:induction false} SetBitsAt(buf: seq<bv8>, s: nat, n: nat, v: bool, j: nat)
    requires s + n <= 8 * |buf| && j < 8 * |buf|
    ensures GetBit(SetBits(buf, s, n, v), j) == if s <= j < s + n then v else GetBit(buf, j)
  {
    if n == 0 {
    } else {
      SetBitsAt(buf, s, n - 1, v, j);
      SetBitChangesOneBit(SetBits(buf, s, n - 1, v), s + n - 1, v, j);
    }
  }

  /** Setting bits one at a time in the packed form fills the range of the unpacked form. */
  lemma SetBitsFills(buf: seq<bv8>, s: nat, n: nat, v: bool, total: nat)
    requires s + n <= total <= 8 * |buf|
    ensures Unpack(SetBits(buf, s, n, v), total) == Fill(Unpack(buf, total), s, n, v)
  {
    forall j: nat | j < total
      ensures GetBit(SetBits(buf, s, n, v), j) == Fill(Unpack(buf, total), s, n, v)[j]
    {
      SetBitsAt(buf, s, n, v, j);
      FillAt(Unpack(buf, total), s, n, v);
    }
  }

  lemma UnpackInjective(a: seq<bv8>, b: seq<bv8>)
    requires |a| == |b| && Unpack(a, 8 * |a|) == Unpack(b, 8 * |b|)
    ensures a == b
  {
    forall q | 0 <= q < |a| ensures a[q] == b[q] {
      forall k: nat | k < 8 ensures BitOf(a[q], k) == BitOf(b[q], k) {
        var i := 8 * q + k;
        assert i / 8 == q && i % 8 == k;
        assert GetBit(a, i) == Unpack(a, 8 * |a|)[i] == Unpack(b, 8 * |b|)[i] == GetBit(b, i);
      }
      EqualBitsEqualBytes(a[q], b[q]);
    }
  }

  /** Marking a clear range and then unmarking it gives back every byte, padding bits included. */
  lemma MarkThenUnmark(buf: seq<bv8>, s: nat, n: nat)
    requires s + n <= 8 * |buf|
    requires FreeRun(Unpack(buf, 8 * |buf|), s, n)
    ensures SetBits(SetBits(buf, s, n, true), s, n, false) == buf
  {
    var total := 8 * |buf|;
    var marked := SetBits(buf, s, n, true);
    SetBitsFills(buf, s, n, true, total);
    SetBitsFills(marked, s, n, false, total);
    FillBack(Unpack(buf, total), s, n, true);
    UnpackInjective(SetBits(marked, s, n, false), buf);
  }
}
