/**
 The sliding window that keeps DTLS from accepting a record twice (section 4.1.2.6 of
 RFC 6347; dtls_record.cc, DTLS1_BITMAP), and its refinement of the set of all accepted
 record numbers.
 */
module ReplayWindow {
  import opened Bits
  import opened Wire

  const WINDOW_SIZE: nat := 64

  /** Bit i of mask stands for record number maxSeq - i. */
  datatype Window = Window(mask: nat, maxSeq: nat)

  predicate Discards(w: Window, n: nat) {
    n <= w.maxSeq && (w.maxSeq - n >= WINDOW_SIZE || Bit(w.mask, w.maxSeq - n))
  }

  function Slide(w: Window, n: nat): Window {
    if n > w.maxSeq then
      var shift := n - w.maxSeq;
      Window(if shift >= WINDOW_SIZE then 0 else Truncate(Shl(w.mask, shift), WINDOW_SIZE), n)
    else w
  }

  function Recorded(w: Window, n: nat): Window {
    var slid := Slide(w, n);
    var idx := slid.maxSeq - n;
    if idx < WINDOW_SIZE then slid.(mask := Or(slid.mask, Shl(1, idx))) else slid
  }

  /** The window stands for this set of accepted numbers. */
  ghost predicate Represents(w: Window, accepted: set<nat>) {
    && w.mask < Pow2(WINDOW_SIZE)
    && (forall n | n in accepted :: n <= w.maxSeq)
    && (if accepted == {} then w.maxSeq == 0 else w.maxSeq in accepted)
    && (forall i: nat | i < WINDOW_SIZE && i <= w.maxSeq :: Bit(w.mask, i) <==> w.maxSeq - i in accepted)
    && (forall i: nat | w.maxSeq < i < WINDOW_SIZE :: !Bit(w.mask, i))
  }

  /** What the window decides, said with the set: seen already, or 64 or more behind. */
  ghost predicate Stale(accepted: set<nat>, n: nat) {
    n in accepted || exists m | m in accepted :: n + 64 <= m
  }

  lemma DiscardsExactly(w: Window, accepted: set<nat>, n: nat)
    requires Represents(w, accepted)
    ensures Discards(w, n) <==> Stale(accepted, n)
  {
    if n <= w.maxSeq && w.maxSeq - n < WINDOW_SIZE {
      assert Bit(w.mask, w.maxSeq - n) <==> w.maxSeq - (w.maxSeq - n) in accepted;
    }
  }

  lemma StartRepresents()
    ensures Represents(Window(0, 0), {})
  {
    forall i: nat
      ensures !Bit(0, i)
    {
      BitOfZero(i);
    }
  }

  lemma SlideBits(w: Window, n: nat, i: nat)
    requires n > w.maxSeq && i < WINDOW_SIZE
    ensures Bit(Slide(w, n).mask, i) <==> n - w.maxSeq <= i && Bit(w.mask, i - (n - w.maxSeq))
  {
    var shift := n - w.maxSeq;
    if shift >= WINDOW_SIZE {
      BitOfZero(i);
    } else {
      BitTruncate(Shl(w.mask, shift), WINDOW_SIZE, i);
      BitShl(w.mask, shift, i);
    }
  }

  lemma RecordedBits(w: Window, n: nat, i: nat)
    requires i < WINDOW_SIZE
    ensures Bit(Recorded(w, n).mask, i) <==> Bit(Slide(w, n).mask, i) || Slide(w, n).maxSeq - n == i
  {
    var slid := Slide(w, n);
    var idx := slid.maxSeq - n;
    if idx < WINDOW_SIZE {
      BitOr(slid.mask, Shl(1, idx), i);
      BitOfPow2(idx, i);
    }
  }

  lemma MaskFits(w: Window, n: nat)
    requires w.mask < Pow2(WINDOW_SIZE)
    ensures Slide(w, n).mask < Pow2(WINDOW_SIZE) && Recorded(w, n).mask < Pow2(WINDOW_SIZE)
  {
    var slid := Slide(w, n);
    var idx := slid.maxSeq - n;
    if idx < WINDOW_SIZE {
      ShlIsProduct(1, idx);
      Pow2Monotone(idx + 1, WINDOW_SIZE);
      OrBound(slid.mask, Shl(1, idx), WINDOW_SIZE);
    }
  }

  lemma RecordRepresents(w: Window, accepted: set<nat>, n: nat)
    requires Represents(w, accepted) && !Stale(accepted, n)
    ensures Represents(Recorded(w, n), accepted + {n})
  {
    hide Recorded, Stale;
    MaskFits(w, n);
    var w' := Recorded(w, n);
    RecordedMax(w, n);
    forall i: nat | i < WINDOW_SIZE
      ensures i <= w'.maxSeq ==> (Bit(w'.mask, i) <==> w'.maxSeq - i in accepted + {n})
      ensures w'.maxSeq < i ==> !Bit(w'.mask, i)
    {
      RecordedBits(w, n, i);
      if n > w.maxSeq {
        SlideBits(w, n, i);
      }
    }
  }

  lemma RecordedMax(w: Window, n: nat)
    ensures Recorded(w, n).maxSeq == Slide(w, n).maxSeq == if n > w.maxSeq then n else w.maxSeq
  {
  }

  // Runs: records arrive with a number, and open or fail to

  datatype Arrival = Arrival(number: nat, opens: bool)

  /** The numbers the window lets through, in order of arrival. */
  function Accepted(w: Window, arrivals: seq<Arrival>): seq<nat>
    decreases |arrivals|
  {
    if arrivals == [] then []
    else
      var a := arrivals[0];
      if Discards(w, a.number) || !a.opens then Accepted(w, arrivals[1..])
      else [a.number] + Accepted(Recorded(w, a.number), arrivals[1..])
  }

  /** The same decisions taken with the whole set of numbers accepted so far. */
  ghost function IdealAccepted(accepted: set<nat>, arrivals: seq<Arrival>): seq<nat>
    decreases |arrivals|
  {
    if arrivals == [] then []
    else
      var a := arrivals[0];
      if Stale(accepted, a.number) || !a.opens then IdealAccepted(accepted, arrivals[1..])
      else [a.number] + IdealAccepted(accepted + {a.number}, arrivals[1..])
  }

  /** The 64-bit window decides every run exactly as the unbounded set does. */
  lemma {:induction false} WindowRefinesSet(w: Window, accepted: set<nat>, arrivals: seq<Arrival>)
    requires Represents(w, accepted)
    ensures Accepted(w, arrivals) == IdealAccepted(accepted, arrivals)
    decreases |arrivals|
  {
    hide Discards, Recorded, Represents, Stale;
    if arrivals != [] {
      var a := arrivals[0];
      DiscardsExactly(w, accepted, a.number);
      if Discards(w, a.number) || !a.opens {
        WindowRefinesSet(w, accepted, arrivals[1..]);
      } else {
        RecordRepresents(w, accepted, a.number);
        WindowRefinesSet(Recorded(w, a.number), accepted + {a.number}, arrivals[1..]);
      }
    }
  }

  ghost predicate Distinct(s: seq<nat>) {
    forall i, j | 0 <= i < j < |s| :: s[i] != s[j]
  }

  lemma {:induction false} IdealIsFresh(accepted: set<nat>, arrivals: seq<Arrival>)
    ensures var s := IdealAccepted(accepted, arrivals);
            Distinct(s) && forall i | 0 <= i < |s| :: s[i] !in accepted
    decreases |arrivals|
  {
    if arrivals != [] {
      var a := arrivals[0];
      if Stale(accepted, a.number) || !a.opens {
        IdealIsFresh(accepted, arrivals[1..]);
      } else {
        IdealIsFresh(accepted + {a.number}, arrivals[1..]);
      }
    }
  }

  /** No record number is accepted twice within an epoch. */
  lemma NoReplay(arrivals: seq<Arrival>)
    ensures Distinct(Accepted(Window(0, 0), arrivals))
  {
    StartRepresents();
    WindowRefinesSet(Window(0, 0), {}, arrivals);
    IdealIsFresh({}, arrivals);
  }

  // The object

  class Bitmap {
    var mask: nat
    var maxSeqNum: nat
    ghost var accepted: set<nat>

    ghost predicate Valid()
      reads this
    {
      Represents(View(), accepted)
    }

    function View(): Window
      reads this
    {
      Window(mask, maxSeqNum)
    }

    constructor ()
      ensures Valid() && accepted == {} && View() == Window(0, 0)
    {
      mask, maxSeqNum, accepted := 0, 0, {};
      new;
      StartRepresents();
    }

    /** dtls1_bitmap_should_discard */
    method ShouldDiscard(sequence: seq<byte>) returns (discard: bool)
      requires Valid() && |sequence| == 8
      ensures discard <==> Stale(accepted, FromBigEndian(sequence))
    {
      var n := ToU64(sequence);
      DiscardsExactly(View(), accepted, n);
      if n > maxSeqNum {
        return false;
      }
      var idx := maxSeqNum - n;
      return idx >= WINDOW_SIZE || Bit(mask, idx);
    }

    /** dtls1_bitmap_record, for a number that is not stale. */
    method Record(sequence: seq<byte>)
      requires Valid() && |sequence| == 8 && !Stale(accepted, FromBigEndian(sequence))
      modifies this
      ensures Valid() && accepted == old(accepted) + {FromBigEndian(sequence)}
      ensures View() == Recorded(old(View()), FromBigEndian(sequence))
    {
      hide Represents, Stale, Or, Shl, Truncate;
      var n := ToU64(sequence);
      RecordRepresents(View(), accepted, n);
      if n > maxSeqNum {
        var shift := n - maxSeqNum;
        if shift >= WINDOW_SIZE {
          mask := 0;
        } else {
          mask := Truncate(Shl(mask, shift), WINDOW_SIZE);
        }
        maxSeqNum := n;
      }
      var idx := maxSeqNum - n;
      if idx < WINDOW_SIZE {
        mask := Or(mask, Shl(1, idx));
      }
      accepted := accepted + {n};
    }
  }

  /** to_u64_be: shifts the bytes in from the right. */
  method ToU64(bytes: seq<byte>) returns (r: nat)
    requires |bytes| == 8
    ensures r == FromBigEndian(bytes) && r < Pow2(64)
  {
    r := 0;
    var i := 0;
    while i < 8
      invariant 0 <= i <= 8
      invariant r == FromBigEndian(bytes[..i]) && r < Pow2(8 * i)
    {
      ShiftIn(r, bytes[i], i);
      assert bytes[..i + 1][..i] == bytes[..i];
      r := Or(Truncate(Shl(r, 8), 64), bytes[i]);
      i := i + 1;
    }
    assert bytes[..8] == bytes;
  }

  /** Shifting a word left by k bits and or-ing in a value of k bits, with no bit lost. */
  lemma ShiftInBits(r: nat, b: nat, k: nat, w: nat)
    requires b < Pow2(k) && Shl(r, k) < Pow2(w)
    ensures Or(Truncate(Shl(r, k), w), b) == Shl(r, k) + b
  {
    hide Or, Shl, Truncate;
    TruncateSmall(Shl(r, k), w);
    OrDisjoint(b, r, k);
    OrCommutes(Shl(r, k), b);
  }

  lemma ShiftIn(r: nat, b: byte, i: nat)
    requires i < 8 && r < Pow2(8 * i)
    ensures Or(Truncate(Shl(r, 8), 64), b) == 256 * r + b < Pow2(8 * i + 8)
  {
    assert Pow2(8) == 256;
    Pow2Sum(8, 8 * i);
    ShlIsProduct(r, 8);
    Pow2Monotone(8 * i + 8, 64);
    ShiftInBits(r, b, 8, 64);
  }
}
