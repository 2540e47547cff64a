/** The frame-integrity checksum: a modulo-256 byte sum over a fixed window
    of the frame (gree_ac.cpp:346-357). */
module ChecksumUnit {
  import opened Wire

  /** The sum of `msg[lo..hi]` (zero for an empty window) */
  function SumRange(msg: seq<byte>, lo: nat, hi: nat): nat
    requires hi <= |msg|
    decreases hi
  {
    if hi <= lo then 0 else SumRange(msg, lo, hi - 1) + msg[hi - 1]
  }

  /** `static_cast<uint8_t>(size - 1)`: the exclusive end of the window */
  function Position(size: nat): (pos: byte)
    requires size >= 1
    ensures size <= 256 ==> pos == size - 1
    ensures (size - 1 - pos) % 256 == 0
  {
    (size - 1) % 256
  }

  /** The checksum of the first `size` bytes of `msg`: zero for a frame of
      fewer than three bytes, otherwise the sum of the bytes from index 2 (the
      length byte) up to, not including, the `uint8_t`-truncated last index. */
  function Checksum(msg: seq<byte>, size: nat): (crc: byte)
    requires size <= |msg|
    ensures size < 3 ==> crc == 0
    ensures 3 <= size <= 256 ==> crc == SumRange(msg, 2, size - 1) % 256
  {
    if size < 3 then 0 else SumRange(msg, 2, Position(size)) % 256
  }

  /** `calculate_checksum_`: accumulates the window in a `uint32_t`, which
      never wraps because the window holds at most 253 bytes. */
  method CalculateChecksum(message: array<byte>, size: nat) returns (crc: byte)
    requires size <= message.Length
    ensures crc == Checksum(message[..], size)
  {
    if size < 3 {
      return 0;
    }
    var position := (size - 1) % 256;
    var sum: uint32 := 0;
    var i := 2;
    while i < position
      invariant 2 <= i <= size - 1
      invariant i <= position || i == 2
      invariant sum == SumRange(message[..], 2, i)
      invariant sum <= 255 * (i - 2)
    {
      sum := sum + message[i];
      i := i + 1;
    }
    crc := sum % 256;
  }

  /** The sum depends only on the bytes inside its window */
  lemma {:induction false} SumRangeAgree(a: seq<byte>, b: seq<byte>, lo: nat, hi: nat)
    requires hi <= |a| && hi <= |b|
    requires forall k :: lo <= k < hi ==> a[k] == b[k]
    ensures SumRange(a, lo, hi) == SumRange(b, lo, hi)
    decreases hi
  {
    if lo < hi {
      SumRangeAgree(a, b, lo, hi - 1);
    }
  }

  /** Changing one byte inside the window changes the sum by the difference */
  lemma {:induction false} SumRangeUpdate(msg: seq<byte>, lo: nat, hi: nat, k: nat, v: byte)
    requires lo <= k < hi <= |msg|
    ensures SumRange(msg[k := v], lo, hi) == SumRange(msg, lo, hi) - msg[k] + v
    decreases hi
  {
    if k < hi - 1 {
      SumRangeUpdate(msg, lo, hi - 1, k, v);
    } else {
      SumRangeAgree(msg[k := v], msg, lo, hi - 1);
    }
  }

  /** The checksum reads only bytes 2 to size-2 of the frame: the two
      leading bytes, the checksum slot and everything after it are ignored. */
  lemma ChecksumIgnoresOutsideWindow(a: seq<byte>, b: seq<byte>, size: nat)
    requires 3 <= size <= 256 && size <= |a| && size <= |b|
    requires forall k :: 2 <= k < size - 1 ==> a[k] == b[k]
    ensures Checksum(a, size) == Checksum(b, size)
  {
    SumRangeAgree(a, b, 2, size - 1);
  }

  /** The checksum of a frame reads only its first `size` bytes */
  lemma ChecksumReadsFrameOnly(a: seq<byte>, b: seq<byte>, size: nat)
    requires size <= |a| && size <= |b| && a[..size] == b[..size]
    ensures Checksum(a, size) == Checksum(b, size)
  {
    if size >= 3 {
      forall k | 2 <= k < Position(size)
        ensures a[k] == b[k]
      {
        assert a[k] == a[..size][k];
      }
      SumRangeAgree(a, b, 2, Position(size));
    }
  }

  /** Any change of a single byte inside the window changes the checksum */
  lemma ChecksumDetectsSingleByteChange(msg: seq<byte>, size: nat, k: nat, v: byte)
    requires 3 <= size <= 256 && size <= |msg|
    requires 2 <= k < size - 1 && v != msg[k]
    ensures Checksum(msg[k := v], size) != Checksum(msg, size)
  {
    SumRangeUpdate(msg, 2, size - 1, k, v);
    var s := SumRange(msg, 2, size - 1);
    var t := SumRange(msg[k := v], 2, size - 1);
    assert t == s - msg[k] + v;
    assert -256 < t - s < 256 && t - s != 0;
    assert (t - s) % 256 != 0;
  }
}
