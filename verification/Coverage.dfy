/**
 One incoming handshake message under reassembly: its buffer and the bit-packed map of
 the bytes received so far (d1_both.cc, hm_fragment).
 */
module Coverage {
  import opened Bits
  import opened Wire

  /** The byte with bits start, inclusive, to end, exclusive, set, computed at width 32 and narrowed. */
  function BitRange(start: nat, end: nat): byte
    requires start <= 32
  {
    Pow2Monotone(start, 32);
    Truncate(And(Not(Pow2(start) - 1, 32), Pow2(end) - 1), 8)
  }

  lemma BitRangeBits(start: nat, end: nat, k: nat)
    requires start <= 32
    ensures Bit(BitRange(start, end), k) <==> start <= k < end && k < 8
  {
    Pow2Monotone(start, 32);
    var high, low := Not(Pow2(start) - 1, 32), Pow2(end) - 1;
    BitTruncate(And(high, low), 8, k);
    BitAnd(high, low, k);
    BitNot(Pow2(start) - 1, 32, k);
    BitOfMask(start, k);
    BitOfMask(end, k);
  }

  ghost predicate FirstBitsSet(b: byte, n: nat) {
    forall k: nat | k < n :: Bit(b, k)
  }

  /** A byte whose bits at n and above are clear is determined by its first n bits. */
  lemma FullByte(b: byte, mask: byte, n: nat)
    requires n <= 8
    requires forall k: nat | n <= k < 8 :: !Bit(b, k)
    requires forall k: nat | k < 8 :: Bit(mask, k) <==> k < n
    ensures b == mask <==> FirstBitsSet(b, n)
  {
    if FirstBitsSet(b, n) {
      assert forall k: nat | k < 8 :: Bit(b, k) == Bit(mask, k);
      assert Pow2(8) == 256;
      SameBits(b, mask, 8);
    }
    forall k: nat | k < n && b == mask
      ensures Bit(b, k)
    {
      assert Bit(mask, k);
    }
  }

  lemma RangeByte(start: nat, end: nat)
    requires start <= 32
    ensures forall k: nat | k < 8 :: Bit(BitRange(start, end), k) <==> start <= k < end
  {
    forall k: nat | k < 8
      ensures Bit(BitRange(start, end), k) <==> start <= k < end
    {
      BitRangeBits(start, end, k);
    }
  }

  lemma AllOnes()
    ensures forall k: nat | k < 8 :: Bit(0xff, k)
  {
    forall k: nat | k < 8
      ensures Bit(0xff, k)
    {
      BitOfMask(8, k);
    }
  }

  /** OR of two bytes, as a byte. */
  function OrByte(a: byte, b: byte): (r: byte)
    ensures r == Or(a, b)
  {
    assert Pow2(8) == 256;
    OrBound(a, b, 8);
    Or(a, b)
  }

  /** The positions a bitmap marks, below a limit. */
  ghost function MarkedBits(mask: seq<byte>, limit: nat): set<nat>
    requires limit <= 8 * |mask|
  {
    set k: nat | k < limit && Bit(mask[k / 8], k % 8)
  }

  predicate AtLeast(k: nat, start: nat) {
    k >= start
  }

  function Range(start: nat, end: nat): set<nat> {
    set k: nat | k < end && AtLeast(k, start)
  }

  /** mask' is map with exactly the bits from start to end added, in the bytes below bound. */
  ghost predicate Added(mask: seq<byte>, mask': seq<byte>, start: nat, end: nat, bound: nat) {
    && |mask'| == |mask|
    && (forall i, b: nat | 0 <= i < |mask| && i < bound && b < 8 ::
          Bit(mask'[i], b) <==> Bit(mask[i], b) || start <= 8 * i + b < end)
    && (forall i | bound <= i < |mask| :: mask'[i] == mask[i])
  }

  /** Or-ing the right bits into byte i extends the marked prefix of a mask by one byte. */
  lemma AddedStep(mask: seq<byte>, mask': seq<byte>, start: nat, end: nat, i: nat, bits: byte)
    requires i < |mask|
    requires Added(mask, mask', start, end, i)
    requires forall b: nat | b < 8 :: Bit(bits, b) <==> start <= 8 * i + b < end
    ensures Added(mask, mask'[i := OrByte(mask'[i], bits)], start, end, i + 1)
  {
    forall b: nat | b < 8
      ensures Bit(OrByte(mask'[i], bits), b) <==> Bit(mask[i], b) || start <= 8 * i + b < end
    {
      BitOr(mask'[i], bits, b);
    }
  }

  lemma AddedMarks(mask: seq<byte>, mask': seq<byte>, start: nat, end: nat, limit: nat)
    requires Added(mask, mask', start, end, |mask|)
    requires limit <= 8 * |mask| && end <= limit
    ensures MarkedBits(mask', limit) == MarkedBits(mask, limit) + Range(start, end)
  {
    forall k: nat | k < limit
      ensures k in MarkedBits(mask', limit) <==> k in MarkedBits(mask, limit) || start <= k < end
    {
      assert 8 * (k / 8) + k % 8 == k;
    }
  }

  class HmFragment {
    const msgType: byte
    const msgSeq: nat
    const msgLen: nat
    var data: array<byte>
    var reassembly: array?<byte>

    ghost predicate Valid()
      reads this, data, reassembly
    {
      && data.Length == HEADER_LENGTH + msgLen
      && (reassembly != null ==>
            && reassembly != data
            && msgLen > 0
            && reassembly.Length == (msgLen + 7) / 8
            && (forall k: nat | msgLen <= k < 8 * reassembly.Length :: !Bit(reassembly[k / 8], k % 8))
            && Received() < Range(0, msgLen))
    }

    /** The body bytes received so far; a message without a map has them all. */
    ghost function Received(): set<nat>
      requires reassembly != null ==> reassembly.Length == (msgLen + 7) / 8
      reads this, reassembly
    {
      if reassembly == null then Range(0, msgLen) else MarkedBits(reassembly[..], msgLen)
    }

    constructor (msgType: byte, msgSeq: nat, msgLen: nat, header: seq<byte>)
      requires |header| == HEADER_LENGTH
      ensures Valid() && fresh(data) && (reassembly != null ==> fresh(reassembly))
      ensures this.msgType == msgType && this.msgSeq == msgSeq && this.msgLen == msgLen
      ensures data[..] == header + seq(msgLen, _ => 0)
      ensures Received() == {} && (reassembly == null <==> msgLen == 0)
    {
      this.msgType, this.msgSeq, this.msgLen := msgType, msgSeq, msgLen;
      data := new byte[HEADER_LENGTH + msgLen](i requires 0 <= i => if i < |header| then header[i] else 0);
      reassembly := null;
      new;
      if msgLen > 0 {
        reassembly := new byte[(msgLen + 7) / 8](_ => 0);
        forall k: nat | k < 8 * reassembly.Length
          ensures !Bit(reassembly[k / 8], k % 8)
        {
          BitOfZero(k % 8);
        }
        assert 0 in Range(0, msgLen);
      }
    }

    /** reassembly[i] |= bits, extending the part of the mask already marked. */
    method SetByte(i: nat, bits: byte, ghost before: seq<byte>, ghost start: nat, ghost end: nat)
      requires reassembly != null && i < reassembly.Length
      requires Added(before, reassembly[..], start, end, i)
      requires forall b: nat | b < 8 :: Bit(bits, b) <==> start <= 8 * i + b < end
      modifies reassembly
      ensures Added(before, reassembly[..], start, end, i + 1)
      ensures reassembly[..] == old(reassembly[..])[i := OrByte(old(reassembly[i]), bits)]
    {
      AddedStep(before, reassembly[..], start, end, i, bits);
      ghost var now := reassembly[..];
      reassembly[i] := OrByte(reassembly[i], bits);
      assert reassembly[..] == now[i := OrByte(now[i], bits)];
    }

    /** Sets the map bits from start to end. */
    method SetBits(start: nat, end: nat)
      requires reassembly != null && start < end <= 8 * reassembly.Length
      modifies reassembly
      ensures Added(old(reassembly[..]), reassembly[..], start, end, reassembly.Length)
    {
      ghost var before := reassembly[..];
      var first, last := start / 8, end / 8;
      if first == last {
        RangeByte(start % 8, end % 8);
        SetByte(first, BitRange(start % 8, end % 8), before, start, end);
      } else {
        RangeByte(start % 8, 8);
        SetByte(first, BitRange(start % 8, 8), before, start, end);
        var i := first + 1;
        while i < last
          invariant first < i <= last
          invariant Added(before, reassembly[..], start, end, i)
        {
          AllOnes();
          ghost var now := reassembly[..];
          reassembly[i] := 0xff;
          assert reassembly[..] == now[i := 0xff];
          i := i + 1;
        }
        if end % 8 != 0 {
          RangeByte(0, end % 8);
          SetByte(last, BitRange(0, end % 8), before, start, end);
        }
      }
    }

    /** Whether the first n bits of byte i are all set, asked by one comparison. */
    lemma ByteReceived(i: nat, n: nat, mask: byte)
      requires reassembly != null && reassembly.Length == (msgLen + 7) / 8
      requires forall k: nat | msgLen <= k < 8 * reassembly.Length :: !Bit(reassembly[k / 8], k % 8)
      requires i < reassembly.Length && 0 < n <= 8 && 8 * i + n <= msgLen && (n == 8 || 8 * i + n == msgLen)
      requires forall k: nat | k < 8 :: Bit(mask, k) <==> k < n
      ensures reassembly[i] == mask <==> forall k: nat | 8 * i <= k < 8 * i + n :: k in Received()
    {
      forall b: nat | b < 8
        ensures b < n ==> (8 * i + b in Received() <==> Bit(reassembly[i], b))
        ensures b >= n ==> !Bit(reassembly[i], b)
      {
        assert (8 * i + b) / 8 == i && (8 * i + b) % 8 == b;
      }
      FullByte(reassembly[i], mask, n);
      if reassembly[i] == mask {
        forall k: nat | 8 * i <= k < 8 * i + n
          ensures k in Received()
        {
          assert 8 * i + (k - 8 * i) == k;
        }
      }
    }

    /** The scan that decides whether every byte of the message has arrived. */
    method IsFull() returns (full: bool)
      requires reassembly != null && msgLen > 0 && reassembly.Length == (msgLen + 7) / 8
      requires forall k: nat | msgLen <= k < 8 * reassembly.Length :: !Bit(reassembly[k / 8], k % 8)
      ensures full <==> Received() == Range(0, msgLen)
    {
      var i := 0;
      while i < msgLen / 8
        invariant 0 <= i <= msgLen / 8
        invariant forall k: nat | k < 8 * i :: k in Received()
      {
        AllOnes();
        ByteReceived(i, 8, 0xff);
        if reassembly[i] != 0xff {
          return false;
        }
        i := i + 1;
      }
      if msgLen % 8 != 0 {
        RangeByte(0, msgLen % 8);
        ByteReceived(i, msgLen % 8, BitRange(0, msgLen % 8));
        if reassembly[i] != BitRange(0, msgLen % 8) {
          return false;
        }
      }
      return true;
    }

    /**
     Marks the bytes from start to end as received and drops the map once the message is
     complete.
     */
    method Mark(start: nat, end: nat)
      requires Valid() && reassembly != null && start <= end <= msgLen
      modifies this, reassembly
      ensures Valid() && data == old(data)
      ensures reassembly == null || reassembly == old(reassembly)
      ensures Received() == old(Received()) + Range(start, end)
      ensures reassembly == null <==> old(Received()) + Range(start, end) == Range(0, msgLen)
    {
      if start == end {
        return;
      }
      ghost var before := reassembly[..];
      SetBits(start, end);
      AddedMarks(before, reassembly[..], start, end, msgLen);
      forall k: nat | msgLen <= k < 8 * reassembly.Length
        ensures !Bit(reassembly[k / 8], k % 8)
      {
        assert 8 * (k / 8) + k % 8 == k;
      }
      var full := IsFull();
      if full {
        reassembly := null;
      }
    }

    /** Copies the body of a fragment behind the header. */
    method Write(start: nat, body: seq<byte>)
      requires HEADER_LENGTH + start + |body| <= data.Length
      modifies data
      ensures data[..] == old(data[..HEADER_LENGTH + start]) + body + old(data[HEADER_LENGTH + start + |body|..])
    {
      var to := HEADER_LENGTH + start;
      var i := 0;
      while i < |body|
        invariant 0 <= i <= |body|
        invariant forall j | 0 <= j < data.Length ::
                    data[j] == if to <= j < to + i then body[j - to] else old(data[j])
      {
        data[to + i] := body[i];
        i := i + 1;
      }
    }
  }
}
