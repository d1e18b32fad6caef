/**
 DTLS records (section 4.1 of RFC 6347; dtls_record.cc, dtls_method.cc): their header,
 opening a datagram against the replay window, and sealing with explicit epochs and 48-bit
 sequence numbers.  The AEAD is a function given from outside.
 */
module RecordLayer {
  import opened Bits
  import opened Wrappers
  import opened Wire
  import opened ReplayWindow

  const RECORD_HEADER_LENGTH: nat := 13
  const MAX_PLAIN_LENGTH: nat := 16384
  const MAX_ENCRYPTED_LENGTH: nat := 16384 + 256 + 64
  const VERSION_MAJOR: nat := 0xfe
  const ALERT: byte := 21
  const CHANGE_CIPHER_SPEC: byte := 20
  const HANDSHAKE: byte := 22

  type SealFn = (byte, nat, seq<byte>, seq<byte>) -> Option<seq<byte>>

  /** The eight bytes a record is numbered with: epoch, then sequence number. */
  function SequenceBytes(epoch: nat, number: nat): (s: seq<byte>)
    ensures |s| == 8
  {
    BigEndian(epoch, 2) + BigEndian(number, 6)
  }

  /** The first eleven bytes of a record: content type, version, epoch and number. */
  function HeaderBytes(kind: byte, version: nat, epoch: nat, number: nat): (s: seq<byte>)
    ensures |s| == 11
  {
    [kind] + BigEndian(version, 2) + SequenceBytes(epoch, number)
  }

  function RecordBytes(kind: byte, version: nat, epoch: nat, number: nat, ciphertext: seq<byte>): seq<byte> {
    HeaderBytes(kind, version, epoch, number) + BigEndian(|ciphertext|, 2) + ciphertext
  }

  datatype WireRecord = WireRecord(kind: byte, version: nat, sequence: seq<byte>, body: seq<byte>)

  /** The first record of a datagram, and what follows it. */
  function ParseRecord(s: seq<byte>): Option<(WireRecord, seq<byte>)> {
    if |s| < RECORD_HEADER_LENGTH then None
    else
      var len := FromBigEndian(s[11..13]);
      if |s| - RECORD_HEADER_LENGTH < len || len > MAX_ENCRYPTED_LENGTH then None
      else Some((WireRecord(s[0], FromBigEndian(s[1..3]), s[3..11], s[13..13 + len]), s[13 + len..]))
  }

  lemma TwoBytes()
    ensures Pow256(2) == 0x10000
  {
  }

  lemma ParseRecordBytes(kind: byte, version: nat, epoch: nat, number: nat, ciphertext: seq<byte>, rest: seq<byte>)
    requires version < 0x10000 && |ciphertext| <= MAX_ENCRYPTED_LENGTH
    ensures ParseRecord(RecordBytes(kind, version, epoch, number, ciphertext) + rest)
         == Some((WireRecord(kind, version, SequenceBytes(epoch, number), ciphertext), rest))
  {
    hide BigEndian, FromBigEndian, Pow256;
    TwoBytes();
    BigEndianRoundTrip(version, 2);
    BigEndianRoundTrip(|ciphertext|, 2);
    var s := RecordBytes(kind, version, epoch, number, ciphertext) + rest;
    assert s[1..3] == BigEndian(version, 2);
    assert s[3..11] == SequenceBytes(epoch, number);
    assert s[11..13] == BigEndian(|ciphertext|, 2);
    assert s[13..13 + |ciphertext|] == ciphertext;
    assert s[13 + |ciphertext|..] == rest;
  }

  // Opening

  datatype Verdict =
    | CloseNotify
    | Partial
    | Discard(consumed: nat)
    | RecordOverflow(consumed: nat)
    | Alert(plaintext: seq<byte>, consumed: nat)
    | Opened(kind: byte, plaintext: seq<byte>, consumed: nat)
  {
    predicate Recorded() {
      Alert? || Opened?
    }
  }

  datatype ReadState = ReadState(epoch: nat, nullCipher: bool, recordVersion: nat, closed: bool)

  function VersionOk(st: ReadState, version: nat): bool {
    if st.nullCipher then version / 256 == VERSION_MAJOR else version == st.recordVersion
  }

  /** What a datagram is answered with, given the set of record numbers accepted so far. */
  ghost function Decide(st: ReadState, accepted: set<nat>, input: seq<byte>, open: SealFn): Verdict {
    if st.closed then CloseNotify
    else if input == [] then Partial
    else match ParseRecord(input)
      case None => Discard(|input|)
      case Some((r, rest)) =>
        if !VersionOk(st, r.version) then Discard(|input|)
        else if FromBigEndian(r.sequence[..2]) != st.epoch || Stale(accepted, FromBigEndian(r.sequence)) then
          Discard(|input| - |rest|)
        else match open(r.kind, r.version, r.sequence, r.body)
          case None => Discard(|input| - |rest|)
          case Some(plaintext) =>
            if |plaintext| > MAX_PLAIN_LENGTH then RecordOverflow(|input| - |rest|)
            else if r.kind == ALERT then Alert(plaintext, |input| - |rest|)
            else Opened(r.kind, plaintext, |input| - |rest|)
  }

  class RecordReader {
    var state: ReadState
    var bitmap: Bitmap

    ghost predicate Valid()
      reads this, bitmap
    {
      bitmap.Valid()
    }

    constructor (state: ReadState)
      ensures Valid() && fresh(bitmap) && this.state == state && bitmap.accepted == {}
    {
      this.state := state;
      bitmap := new Bitmap();
    }

    /**
     dtls_open_record.  A record counts as seen only once it has opened to a plaintext of
     legal length; whatever is dropped leaves the window as it was.
     */
    method OpenRecord(input: seq<byte>, open: SealFn) returns (v: Verdict)
      requires Valid()
      modifies bitmap
      ensures Valid()
      ensures v == Decide(state, old(bitmap.accepted), input, open)
      ensures !v.Recorded() ==> bitmap.accepted == old(bitmap.accepted) && bitmap.View() == old(bitmap.View())
      ensures v.Recorded() ==>
                && ParseRecord(input).Some?
                && var n := FromBigEndian(ParseRecord(input).value.0.sequence);
                   n !in old(bitmap.accepted) && bitmap.accepted == old(bitmap.accepted) + {n}
    {
      if state.closed {
        return CloseNotify;
      }
      if input == [] {
        return Partial;
      }
      var parsed := ParseRecord(input);
      if parsed.None? {
        return Discard(|input|);
      }
      var (r, rest) := parsed.value;
      if !VersionOk(state, r.version) {
        return Discard(|input|);
      }
      var consumed := |input| - |rest|;
      var stale := bitmap.ShouldDiscard(r.sequence);
      if FromBigEndian(r.sequence[..2]) != state.epoch || stale {
        return Discard(consumed);
      }
      var plaintext := open(r.kind, r.version, r.sequence, r.body);
      if plaintext.None? {
        return Discard(consumed);
      }
      if |plaintext.value| > MAX_PLAIN_LENGTH {
        return RecordOverflow(consumed);
      }
      bitmap.Record(r.sequence);
      if r.kind == ALERT {
        return Alert(plaintext.value, consumed);
      }
      return Opened(r.kind, plaintext.value, consumed);
    }

    /** dtls1_set_read_state: a new epoch starts with an empty window. */
    method SetReadState(nullCipher: bool, recordVersion: nat)
      requires Valid()
      modifies this
      ensures Valid() && fresh(bitmap) && bitmap.accepted == {}
      ensures state == old(state).(epoch := (old(state).epoch + 1) % 0x10000,
                                   nullCipher := nullCipher, recordVersion := recordVersion)
    {
      state := state.(epoch := (state.epoch + 1) % 0x10000, nullCipher := nullCipher, recordVersion := recordVersion);
      bitmap := new Bitmap();
    }
  }

  // Sealing

  datatype Aead = Aead(nonceLen: nat, maxOverhead: nat, version: nat, seal: SealFn) {
    ghost predicate Valid() {
      && nonceLen <= maxOverhead && version < 0x10000
      && forall k: byte, v: nat, s: seq<byte>, p: seq<byte> ::
           seal(k, v, s, p).Some? ==> |seal(k, v, s, p).value| <= |p| + maxOverhead
    }
  }

  datatype Sealed = Sealed(epoch: nat, number: nat, kind: byte, plaintext: seq<byte>, wire: seq<byte>)

  const MAX_NUMBER: nat := 0x1_0000_0000_0000

  /** What sealing depends on: the epoch, the counters of this and the last epoch, and their keys. */
  datatype Writer = Writer(epoch: nat, last: nat, current: nat, lastAead: Aead, aead: Aead) {
    function AeadFor(usePrevious: bool): Aead {
      if usePrevious then lastAead else aead
    }

    function NumberFor(usePrevious: bool): nat {
      if usePrevious then last else current
    }

    function EpochFor(usePrevious: bool): nat
      requires usePrevious ==> epoch >= 1
    {
      if usePrevious then epoch - 1 else epoch
    }

    /** A number has been used up; the 48-bit counter wraps to zero. */
    function Counted(usePrevious: bool): Writer {
      var next := if NumberFor(usePrevious) + 1 < MAX_NUMBER then NumberFor(usePrevious) + 1 else 0;
      if usePrevious then this.(last := next) else this.(current := next)
    }

    function Ciphertext(kind: byte, plaintext: seq<byte>, usePrevious: bool): Option<seq<byte>>
      requires usePrevious ==> epoch >= 1
    {
      AeadFor(usePrevious).seal(kind, aead.version, SequenceBytes(EpochFor(usePrevious), NumberFor(usePrevious)), plaintext)
    }

    /** The plaintext can be encrypted into the room there is; this uses up a number. */
    predicate Encrypts(maxOut: nat, kind: byte, plaintext: seq<byte>, usePrevious: bool)
      requires usePrevious ==> epoch >= 1
    {
      var ciphertext := Ciphertext(kind, plaintext, usePrevious);
      maxOut >= RECORD_HEADER_LENGTH && ciphertext.Some? && |ciphertext.value| <= maxOut - RECORD_HEADER_LENGTH
    }

    /** A record can be sealed: besides, a number is left, and the length fits into two bytes. */
    predicate Seals(maxOut: nat, kind: byte, plaintext: seq<byte>, usePrevious: bool)
      requires usePrevious ==> epoch >= 1
    {
      && Encrypts(maxOut, kind, plaintext, usePrevious)
      && NumberFor(usePrevious) + 1 < MAX_NUMBER
      && |Ciphertext(kind, plaintext, usePrevious).value| < 0x10000
    }

    function Record(maxOut: nat, kind: byte, plaintext: seq<byte>, usePrevious: bool): Sealed
      requires usePrevious ==> epoch >= 1
      requires Seals(maxOut, kind, plaintext, usePrevious)
    {
      var (e, n) := (EpochFor(usePrevious), NumberFor(usePrevious));
      Sealed(e, n, kind, plaintext,
             RecordBytes(kind, aead.version, e, n, Ciphertext(kind, plaintext, usePrevious).value))
    }
  }

  /** ssl_record_sequence_update on bytes 2 to 8: a 48-bit counter that wraps to zero. */
  method UpdateSequence(sequence: array<byte>) returns (ok: bool)
    requires sequence.Length == 8
    modifies sequence
    ensures ok <==> FromBigEndian(old(sequence[2..])) + 1 < MAX_NUMBER
    ensures FromBigEndian(sequence[2..]) == if ok then FromBigEndian(old(sequence[2..])) + 1 else 0
    ensures sequence[..2] == old(sequence[..2])
  {
    assert Pow256(6) == MAX_NUMBER;
    var i := 8;
    while i > 2
      invariant 2 <= i <= 8
      invariant forall j | 0 <= j < i :: sequence[j] == old(sequence[j])
      invariant forall j | i <= j < 8 :: sequence[j] == 0 && old(sequence[j]) == 0xff
    {
      i := i - 1;
      var b: int := sequence[i];
      sequence[i] := (b + 1) % 256;
      if sequence[i] != 0 {
        FromBigEndianBound(sequence[2..]);
        SamePrefix(old(sequence[..]), sequence[..], i);
        CountUp(old(sequence[2..]), sequence[2..], i - 2);
        return true;
      }
    }
    AllFull(old(sequence[2..]));
    AllZero(sequence[2..]);
    return false;
  }

  lemma SamePrefix(s: seq<byte>, t: seq<byte>, i: nat)
    requires 2 <= i <= |s| == |t| && s[..i] == t[..i]
    ensures s[2..][..i - 2] == t[2..][..i - 2]
  {
    assert s[2..][..i - 2] == s[..i][2..];
    assert t[2..][..i - 2] == t[..i][2..];
  }

  lemma {:induction false} AllZero(s: seq<byte>)
    requires forall j | 0 <= j < |s| :: s[j] == 0
    ensures FromBigEndian(s) == 0
  {
    if s != [] {
      AllZero(s[..|s| - 1]);
    }
  }

  lemma {:induction false} AllFull(s: seq<byte>)
    requires forall j | 0 <= j < |s| :: s[j] == 0xff
    ensures FromBigEndian(s) + 1 == Pow256(|s|)
  {
    if s != [] {
      AllFull(s[..|s| - 1]);
    }
  }

  /** Byte i grew by one and the bytes after it rolled over from 0xff to 0. */
  lemma {:induction false} CountUp(s: seq<byte>, t: seq<byte>, i: nat)
    requires i < |s| == |t|
    requires s[..i] == t[..i] && t[i] as int == s[i] as int + 1
    requires forall j | i < j < |s| :: t[j] == 0 && s[j] == 0xff
    ensures FromBigEndian(t) == FromBigEndian(s) + 1
    decreases |s|
  {
    var s0, t0 := s[..|s| - 1], t[..|t| - 1];
    if i < |s| - 1 {
      assert s0[..i] == s[..i] && t0[..i] == t[..i];
      CountUp(s0, t0, i);
    } else {
      assert s0 == t0;
    }
  }

  /** The 48-bit counter inside an eight-byte sequence. */
  function Counter(sequence: array<byte>): nat
    requires sequence.Length == 8
    reads sequence
  {
    FromBigEndian(sequence[2..])
  }

  /** Every logged record lies below the counters of its epoch. */
  ghost predicate Below(log: seq<Sealed>, epoch: nat, last: nat, current: nat) {
    forall r | r in log ::
      || r.epoch + 1 < epoch
      || (r.epoch + 1 == epoch && r.number < last)
      || (r.epoch == epoch && r.number < current)
  }

  ghost predicate DistinctNumbers(log: seq<Sealed>) {
    forall i, j | 0 <= i < j < |log| :: log[i].epoch != log[j].epoch || log[i].number != log[j].number
  }

  /** The number a counter has just moved past can be logged once more. */
  lemma LogNext(log: seq<Sealed>, epoch: nat, last: nat, current: nat, r: Sealed)
    requires r.epoch == epoch ==> r.number + 1 == current
    requires r.epoch != epoch ==> r.epoch + 1 == epoch && r.number + 1 == last
    ensures Below(log, epoch, if r.epoch == epoch then last else last - 1,
                  if r.epoch == epoch then current - 1 else current) && DistinctNumbers(log)
            ==> Below(log + [r], epoch, last, current) && DistinctNumbers(log + [r])
  {
  }

  /** Copies bytes into an output buffer. */
  method CopyInto(out: array<byte>, at: nat, bytes: seq<byte>)
    requires at + |bytes| <= out.Length
    modifies out
    ensures forall j | 0 <= j < out.Length :: out[j] == if at <= j < at + |bytes| then bytes[j - at] else old(out[j])
  {
    var i := 0;
    while i < |bytes|
      invariant 0 <= i <= |bytes|
      invariant forall j | 0 <= j < out.Length :: out[j] == if at <= j < at + i then bytes[j - at] else old(out[j])
    {
      out[at + i] := bytes[i];
      i := i + 1;
    }
  }

  /** The counter's bytes are the number's. */
  lemma HeaderFromCounter(kind: byte, version: nat, epoch: nat, counter: seq<byte>)
    requires |counter| == 6
    ensures [kind] + BigEndian(version, 2) + BigEndian(epoch, 2) + counter
         == HeaderBytes(kind, version, epoch, FromBigEndian(counter))
    ensures HeaderBytes(kind, version, epoch, FromBigEndian(counter))[3..] == SequenceBytes(epoch, FromBigEndian(counter))
  {
    hide BigEndian, FromBigEndian;
    BigEndianInverse(counter);
  }

  lemma ThreeParts(s: seq<byte>, at: nat, end: nat, a: seq<byte>, b: seq<byte>, c: seq<byte>)
    requires end <= |s| && end == at + |a| + |b| + |c|
    requires s[at..at + |a|] == a && s[at + |a|..at + |a| + |b|] == b && s[at + |a| + |b|..end] == c
    ensures s[at..end] == a + b + c
  {
    assert s[at..end] == s[at..at + |a|] + s[at + |a|..at + |a| + |b|] + s[at + |a| + |b|..end];
  }

  /** Puts the ciphertext behind the header, with two bytes left for its length. */
  method WriteBody(out: array<byte>, at: nat, header: seq<byte>, ciphertext: seq<byte>)
    requires |header| == 11 && at + RECORD_HEADER_LENGTH + |ciphertext| <= out.Length
    requires forall j | at <= j < at + 11 :: out[j] == header[j - at]
    modifies out
    ensures forall j | 0 <= j < out.Length && !(at + 13 <= j < at + 13 + |ciphertext|) :: out[j] == old(out[j])
    ensures out[at..at + 11] == header && out[at + 13..at + RECORD_HEADER_LENGTH + |ciphertext|] == ciphertext
  {
    CopyInto(out, at + RECORD_HEADER_LENGTH, ciphertext);
  }

  /** Fills in the two length bytes between the numbered header and the ciphertext. */
  method WriteLength(out: array<byte>, at: nat, ghost header: seq<byte>, ciphertext: seq<byte>)
    requires |header| == 11 && |ciphertext| < 0x10000
    requires at + RECORD_HEADER_LENGTH + |ciphertext| <= out.Length
    requires out[at..at + 11] == header
    requires out[at + 13..at + RECORD_HEADER_LENGTH + |ciphertext|] == ciphertext
    modifies out
    ensures forall j | 0 <= j < out.Length && !(at + 11 <= j < at + 13) :: out[j] == old(out[j])
    ensures out[at..at + RECORD_HEADER_LENGTH + |ciphertext|] == header + BigEndian(|ciphertext|, 2) + ciphertext
  {
    hide BigEndian;
    var end := at + RECORD_HEADER_LENGTH + |ciphertext|;
    CopyInto(out, at + 11, BigEndian(|ciphertext|, 2));
    assert out[at..at + 11] == old(out[at..at + 11]);
    assert out[at + 11..at + 13] == BigEndian(|ciphertext|, 2);
    assert out[at + 13..end] == old(out[at + 13..end]);
    ThreeParts(out[..], at, end, header, BigEndian(|ciphertext|, 2), ciphertext);
    assert out[..][at..end] == out[at..end];
  }

  class RecordWriter {
    var epoch: nat
    const writeSequence: array<byte>
    const lastWriteSequence: array<byte>
    var aead: Aead
    var lastAead: Aead
    /** The records sealed successfully, oldest first. */
    ghost var log: seq<Sealed>
    /** A counter has overflowed and said so, or the 16-bit epoch has wrapped. */
    ghost var exhausted: bool

    ghost predicate Formed()
      reads this
    {
      && writeSequence.Length == lastWriteSequence.Length == 8 && writeSequence != lastWriteSequence
      && epoch < 0x10000 && aead.Valid() && lastAead.Valid()
    }

    ghost predicate Valid()
      reads this, writeSequence, lastWriteSequence
    {
      && Formed()
      && (!exhausted ==>
            && Below(log, epoch, Counter(lastWriteSequence), Counter(writeSequence))
            && DistinctNumbers(log))
    }

    constructor (aead: Aead)
      requires aead.Valid()
      ensures Valid() && fresh(writeSequence) && fresh(lastWriteSequence)
      ensures epoch == 0 && log == [] && !exhausted && this.aead == aead
    {
      epoch, this.aead, lastAead, log, exhausted := 0, aead, aead, [], false;
      writeSequence := new byte[8](_ => 0);
      lastWriteSequence := new byte[8](_ => 0);
    }

    ghost function View(): Writer
      requires writeSequence.Length == lastWriteSequence.Length == 8
      reads this, writeSequence, lastWriteSequence
    {
      Writer(epoch, Counter(lastWriteSequence), Counter(writeSequence), lastAead, aead)
    }

    function AeadFor(usePrevious: bool): Aead
      reads this
    {
      if usePrevious then lastAead else aead
    }

    function EpochFor(usePrevious: bool): nat
      requires usePrevious ==> epoch >= 1
      reads this
    {
      if usePrevious then epoch - 1 else epoch
    }

    /**
     dtls_seal_record.  It succeeds exactly when the plaintext can be encrypted into the room
     there is, a number is left and the length fits; the record on the wire then carries the
     epoch's next number, and as long as no counter has overflowed that number was never used
     before.
     */
    method SealRecord(out: array<byte>, at: nat, maxOut: nat, kind: byte, plaintext: seq<byte>, usePrevious: bool)
      returns (len: Option<nat>)
      requires Valid() && (usePrevious ==> epoch >= 1)
      requires at + maxOut <= out.Length && out != writeSequence && out != lastWriteSequence
      modifies this`log, this`exhausted, writeSequence, lastWriteSequence, out
      ensures Valid() && (old(exhausted) ==> exhausted)
      ensures out[..at] == old(out[..at]) && out[at + maxOut..] == old(out[at + maxOut..])
      ensures len.Some? <==> old(View()).Seals(maxOut, kind, plaintext, usePrevious)
      ensures View() == if old(View()).Encrypts(maxOut, kind, plaintext, usePrevious) then old(View()).Counted(usePrevious)
                        else old(View())
      ensures len.None? ==> log == old(log)
      ensures len.Some? ==>
                var r := old(View()).Record(maxOut, kind, plaintext, usePrevious);
                && log == old(log) + [r]
                && RECORD_HEADER_LENGTH <= len.value == |r.wire| <= maxOut && out[at..at + len.value] == r.wire
    {
      hide Below, DistinctNumbers, BigEndian, FromBigEndian, SequenceBytes, HeaderBytes;
      ghost var w := View();
      var ciphertext := Encrypt(out, at, maxOut, kind, plaintext, usePrevious);
      if ciphertext.None? {
        return None;
      }
      ghost var bytes := out[..];
      var ok := Advance(if usePrevious then lastWriteSequence else writeSequence, usePrevious);
      if !ok || |ciphertext.value| >= 0x10000 {
        return None;
      }
      assert out[..] == bytes;
      WriteLength(out, at, HeaderBytes(kind, aead.version, w.EpochFor(usePrevious), w.NumberFor(usePrevious)), ciphertext.value);
      Log(w.Record(maxOut, kind, plaintext, usePrevious));
      return Some(RECORD_HEADER_LENGTH + |ciphertext.value|);
    }

    /** Writes the numbered header, and the ciphertext behind the room for its length. */
    method Encrypt(out: array<byte>, at: nat, maxOut: nat, kind: byte, plaintext: seq<byte>, usePrevious: bool)
      returns (ciphertext: Option<seq<byte>>)
      requires Valid() && (usePrevious ==> epoch >= 1)
      requires at + maxOut <= out.Length && out != writeSequence && out != lastWriteSequence
      modifies out
      ensures out[..at] == old(out[..at]) && out[at + maxOut..] == old(out[at + maxOut..])
      ensures ciphertext.Some? <==> View().Encrypts(maxOut, kind, plaintext, usePrevious)
      ensures ciphertext.Some? ==>
                && ciphertext == View().Ciphertext(kind, plaintext, usePrevious)
                && out[at..at + 11] == HeaderBytes(kind, aead.version, View().EpochFor(usePrevious), View().NumberFor(usePrevious))
                && out[at + 13..at + RECORD_HEADER_LENGTH + |ciphertext.value|] == ciphertext.value
    {
      hide Below, DistinctNumbers, BigEndian, FromBigEndian, SequenceBytes, HeaderBytes;
      if maxOut < RECORD_HEADER_LENGTH {
        return None;
      }
      var sequence := if usePrevious then lastWriteSequence else writeSequence;
      HeaderFromCounter(kind, aead.version, EpochFor(usePrevious), sequence[2..]);
      var header := [kind] + BigEndian(aead.version, 2) + BigEndian(EpochFor(usePrevious), 2) + sequence[2..];
      CopyInto(out, at, header);
      ciphertext := AeadFor(usePrevious).seal(kind, aead.version, header[3..], plaintext);
      if ciphertext.None? || |ciphertext.value| > maxOut - RECORD_HEADER_LENGTH {
        return None;
      }
      WriteBody(out, at, header, ciphertext.value);
    }

    /** The record that the counter has just moved past is the newest of the log. */
    ghost method Log(r: Sealed)
      requires Formed()
      requires r.epoch == epoch || r.epoch + 1 == epoch
      requires !exhausted ==>
                 && (if r.epoch == epoch then r.number + 1 == Counter(writeSequence) else r.number + 1 == Counter(lastWriteSequence))
                 && Below(log, epoch, if r.epoch == epoch then Counter(lastWriteSequence) else Counter(lastWriteSequence) - 1,
                          if r.epoch == epoch then Counter(writeSequence) - 1 else Counter(writeSequence))
                 && DistinctNumbers(log)
      modifies this`log
      ensures Valid() && log == old(log) + [r]
    {
      hide Below, DistinctNumbers;
      if !exhausted {
        LogNext(log, epoch, Counter(lastWriteSequence), Counter(writeSequence), r);
      }
      log := log + [r];
    }

    /** Moves a counter past the number just used, or reports its overflow. */
    method Advance(sequence: array<byte>, usePrevious: bool) returns (ok: bool)
      requires Valid() && (usePrevious ==> epoch >= 1)
      requires sequence == if usePrevious then lastWriteSequence else writeSequence
      modifies this`exhausted, sequence
      ensures Valid() && exhausted == (old(exhausted) || !ok)
      ensures ok <==> old(Counter(sequence)) + 1 < MAX_NUMBER
      ensures Counter(sequence) == if ok then old(Counter(sequence)) + 1 else 0
      ensures !exhausted ==>
                Below(log, epoch, old(Counter(lastWriteSequence)), old(Counter(writeSequence))) && DistinctNumbers(log)
    {
      ok := UpdateSequence(sequence);
      exhausted := exhausted || !ok;
    }

    /** dtls1_set_write_state: the next epoch counts from zero, the old one stays usable. */
    method SetWriteState(next: Aead)
      requires Valid() && next.Valid()
      modifies this, writeSequence, lastWriteSequence
      ensures Valid() && log == old(log)
      ensures aead == next && lastAead == old(aead) && epoch == (old(epoch) + 1) % 0x10000
      ensures exhausted == (old(exhausted) || old(epoch) == 0xffff)
      ensures Counter(writeSequence) == 0 && Counter(lastWriteSequence) == old(Counter(writeSequence))
    {
      exhausted := exhausted || epoch == 0xffff;
      epoch := (epoch + 1) % 0x10000;
      CopyInto(lastWriteSequence, 0, writeSequence[..]);
      assert lastWriteSequence[2..] == writeSequence[2..];
      CopyInto(writeSequence, 0, seq(8, _ => 0));
      AllZero(writeSequence[2..]);
      lastAead, aead := aead, next;
    }
  }

  /** The record on the wire is the header followed by the sealed plaintext. */
  ghost predicate SealedBy(seal: SealFn, version: nat, r: Sealed) {
    var ciphertext := seal(r.kind, version, SequenceBytes(r.epoch, r.number), r.plaintext);
    ciphertext.Some? && r.wire == RecordBytes(r.kind, version, r.epoch, r.number, ciphertext.value)
  }

  lemma NumberOfSequence(epoch: nat, number: nat)
    requires epoch < 0x10000 && number < 0x1_0000_0000_0000
    ensures FromBigEndian(SequenceBytes(epoch, number)) == epoch * 0x1_0000_0000_0000 + number
    ensures FromBigEndian(SequenceBytes(epoch, number)[..2]) == epoch
  {
    hide BigEndian, FromBigEndian;
    assert Pow256(2) == 0x10000;
    SixBytes();
    BigEndianRoundTrip(epoch, 2);
    BigEndianRoundTrip(number, 6);
    FromBigEndianConcat(BigEndian(epoch, 2), BigEndian(number, 6));
    assert SequenceBytes(epoch, number)[..2] == BigEndian(epoch, 2);
  }

  lemma SixBytes()
    ensures Pow256(6) == 0x1_0000_0000_0000
  {
    assert Pow256(3) == 0x1000000;
  }

  /** Content type, version, epoch, number and length, in 1, 2, 2, 6 and 2 bytes, and the body. */
  lemma RecordOnTheWire(kind: byte, version: nat, epoch: nat, number: nat, body: seq<byte>)
    requires version < 0x10000 && epoch < 0x10000 && number < 0x1_0000_0000_0000 && |body| < 0x10000
    ensures var s := RecordBytes(kind, version, epoch, number, body);
            && |s| == 13 + |body| && s[0] == kind && s[13..] == body
            && version == Two(s[1], s[2]) && epoch == Two(s[3], s[4]) && |body| == Two(s[11], s[12])
            && number == Three(s[5], s[6], s[7]) * 0x1000000 + Three(s[8], s[9], s[10])
  {
    var s := RecordBytes(kind, version, epoch, number, body);
    hide BigEndian, FromBigEndian;
    assert s[0] == kind && s[13..] == body;
    assert s[1..3] == BigEndian(version, 2) && s[3..5] == BigEndian(epoch, 2) && s[11..13] == BigEndian(|body|, 2);
    assert s[5..11] == BigEndian(number, 6);
    hide RecordBytes;
    SixBytes();
    assert Pow256(2) == 0x10000;
    BigEndianRoundTrip(version, 2);
    BigEndianRoundTrip(epoch, 2);
    BigEndianRoundTrip(|body|, 2);
    BigEndianRoundTrip(number, 6);
    Wire.TwoBytes(s, 1);
    Wire.TwoBytes(s, 3);
    Wire.TwoBytes(s, 11);
    ThreeBytes(s, 5);
    ThreeBytes(s, 8);
    assert s[5..11] == s[5..8] + s[8..11];
    FromBigEndianConcat(s[5..8], s[8..11]);
    assert Pow256(3) == 0x1000000;
  }

  /**
   What becomes of a record at the front of a datagram, by what its header says: a body that
   is too long or a version that does not fit drops the datagram, another epoch or a stale
   number the record.  Without keys any version of DTLS fits, under keys only the one agreed.
   */
  lemma RecordIsDecided(st: ReadState, accepted: set<nat>, kind: byte, version: nat, epoch: nat, number: nat, body: seq<byte>,
                        rest: seq<byte>, open: SealFn)
    requires !st.closed && version < 0x10000 && epoch < 0x10000 && number < 0x1_0000_0000_0000 && |body| < 0x10000
    ensures var input := RecordBytes(kind, version, epoch, number, body) + rest;
            Decide(st, accepted, input, open) ==
              if |body| > 16384 + 320 || (if st.nullCipher then version / 256 != 0xfe else version != st.recordVersion) then
                Discard(|input|)
              else if epoch != st.epoch || Stale(accepted, epoch * 0x1_0000_0000_0000 + number) then Discard(13 + |body|)
              else match open(kind, version, SequenceBytes(epoch, number), body)
                case None => Discard(13 + |body|)
                case Some(plaintext) =>
                  if |plaintext| > 16384 then RecordOverflow(13 + |body|)
                  else if kind == 21 then Alert(plaintext, 13 + |body|)
                  else Opened(kind, plaintext, 13 + |body|)
  {
    hide Stale, BigEndian, FromBigEndian;
    NumberOfSequence(epoch, number);
    if |body| <= 16384 + 320 {
      ParseRecordBytes(kind, version, epoch, number, body, rest);
    } else {
      LongRecordIsRefused(kind, version, epoch, number, body, rest);
    }
  }

  lemma LongRecordIsRefused(kind: byte, version: nat, epoch: nat, number: nat, body: seq<byte>, rest: seq<byte>)
    requires 16384 + 320 < |body| < 0x10000
    ensures ParseRecord(RecordBytes(kind, version, epoch, number, body) + rest).None?
  {
    hide BigEndian, FromBigEndian;
    assert Pow256(2) == 0x10000;
    BigEndianRoundTrip(|body|, 2);
    var s := RecordBytes(kind, version, epoch, number, body) + rest;
    assert s[11..13] == BigEndian(|body|, 2);
  }

  /** A datagram that ends within a record is dropped from there on. */
  lemma ShortRecordIsDropped(st: ReadState, accepted: set<nat>, input: seq<byte>, open: SealFn)
    requires !st.closed && input != []
    requires |input| < 13 || |input| - 13 < FromBigEndian(input[11..13])
    ensures Decide(st, accepted, input, open) == Discard(|input|)
  {
  }

  /**
   What one side seals the other side opens: a sealed record at the front of a datagram, for
   the reader's epoch and version, yields its plaintext, unless its number was seen or is too
   old, and in either case exactly its own bytes are consumed.
   */
  lemma SealedRecordOpens(st: ReadState, accepted: set<nat>, seal: SealFn, open: SealFn, version: nat, r: Sealed,
                          rest: seq<byte>)
    requires SealedBy(seal, version, r) && version < 0x10000 && r.epoch < 0x10000
    requires var sequence := SequenceBytes(r.epoch, r.number);
             var ciphertext := seal(r.kind, version, sequence, r.plaintext).value;
             |ciphertext| <= MAX_ENCRYPTED_LENGTH && open(r.kind, version, sequence, ciphertext) == Some(r.plaintext)
    requires !st.closed && (if st.nullCipher then version / 256 == 0xfe else version == st.recordVersion)
    requires |r.plaintext| <= 16384 && r.kind != ALERT
    ensures Decide(st, accepted, r.wire + rest, open)
         == if st.epoch != r.epoch || Stale(accepted, FromBigEndian(SequenceBytes(r.epoch, r.number)))
            then Discard(|r.wire|) else Opened(r.kind, r.plaintext, |r.wire|)
  {
    hide Stale, BigEndian, FromBigEndian;
    var ciphertext := seal(r.kind, version, SequenceBytes(r.epoch, r.number), r.plaintext).value;
    ParseRecordBytes(r.kind, version, r.epoch, r.number, ciphertext, rest);
    assert Pow256(2) == 0x10000;
    BigEndianRoundTrip(r.epoch, 2);
    assert SequenceBytes(r.epoch, r.number)[..2] == BigEndian(r.epoch, 2);
  }
}
