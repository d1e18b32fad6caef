/**
 nanopb's encoder as it runs (pb_encode.c): an output stream over a caller's buffer, or one
 that only counts, and the encoder functions that write to it.  Every method is proved
 against the byte sequence that module Encoding defines.
 */
module OutputStream {
  import opened Bits
  import opened Wrappers
  import opened Varint
  import opened Schema
  import opened Encoding
  import opened FieldCursor

  /** What a stream has done: the buffer, the write position, and the bytes counted so far. */
  datatype Sink = Sink(sizing: bool, contents: seq<byte>, at: nat, max: nat, written: nat) {
    predicate Ok() {
      sizing || (written <= max && at + (max - written) <= |contents|)
    }

    /** The limit of pb_write; a sizing stream has none. */
    predicate Fits(n: nat) {
      sizing || written + n <= max
    }

    /** The stream after count bytes of src: in place, right after what was written before. */
    function PutSome(src: seq<byte>, count: nat): Sink
      requires Ok() && Fits(count) && (sizing || count <= |src|)
    {
      if sizing then this.(written := written + count)
      else this.(contents := contents[..at] + src[..count] + contents[at + count..],
                 at := at + count, written := written + count)
    }

    function Put(bytes: seq<byte>): Sink
      requires Ok() && Fits(|bytes|)
    {
      PutSome(bytes, |bytes|)
    }

    /** Nothing outside the part of the buffer that was still free has changed. */
    predicate Confines(now: Sink)
      requires Ok()
    {
      && now.Ok() && now.sizing == sizing && now.max == max
      && |now.contents| == |contents|
      && (!sizing ==>
            && now.at + (max - now.written) == at + (max - written)
            && at <= now.at
            && now.contents[..at] == contents[..at]
            && now.contents[at + (max - written)..] == contents[at + (max - written)..])
    }
  }

  /**
   The outcome of writing enc to stream s: success exactly when enc is not an error and there
   is room for all of it, then with just these bytes added; in any case nothing outside the
   free part of the buffer has changed.
   */
  ghost predicate Wrote(s: Sink, enc: Option<seq<byte>>, ok: bool, now: Sink)
    requires s.Ok()
  {
    && ok == (enc.Some? && s.Fits(|enc.value|))
    && s.Confines(now)
    && (ok ==> now == s.Put(enc.value))
  }

  /** Two pieces, one after the other. */
  function Joined(a: Option<seq<byte>>, b: Option<seq<byte>>): Option<seq<byte>> {
    if a.Some? && b.Some? then Some(a.value + b.value) else None
  }

  lemma WroteNothing(s: Sink)
    requires s.Ok()
    ensures Wrote(s, Some([]), true, s)
  {
    if !s.sizing {
      assert s.contents[..s.at] + [] + s.contents[s.at..] == s.contents;
    }
  }

  lemma ConfinesTransitive(a: Sink, b: Sink, c: Sink)
    requires a.Ok() && b.Ok() && a.Confines(b) && b.Confines(c)
    ensures a.Confines(c)
  {
    if !a.sizing {
      assert c.contents[..a.at] == c.contents[..b.at][..a.at] == b.contents[..b.at][..a.at];
    }
  }

  /** Writing one piece after the other is writing both, and has room exactly when both have. */
  lemma PutTwice(s: Sink, a: seq<byte>, b: seq<byte>)
    requires s.Ok() && s.Fits(|a|)
    ensures s.Put(a).Ok()
    ensures s.Put(a).Fits(|b|) <==> s.Fits(|a + b|)
    ensures s.Fits(|a + b|) ==> s.Put(a).Put(b) == s.Put(a + b)
  {
    if s.Fits(|a + b|) && !s.sizing {
      var c := s.contents;
      var m := c[..s.at] + a + c[s.at + |a|..];
      assert m[..s.at + |a|] == c[..s.at] + a;
      assert m[s.at + |a| + |b|..] == c[s.at + |a| + |b|..];
      assert c[..s.at] + a + b == c[..s.at] + (a + b);
    }
  }

  /** Having written a, writing b completes both or fails both. */
  lemma WroteBoth(s: Sink, a: Option<seq<byte>>, m: Sink, b: Option<seq<byte>>, ok: bool, now: Sink)
    requires s.Ok() && Wrote(s, a, true, m) && Wrote(m, b, ok, now)
    ensures Wrote(s, Joined(a, b), ok, now)
  {
    hide Sink.PutSome;
    ConfinesTransitive(s, m, now);
    if b.Some? {
      PutTwice(s, a.value, b.value);
    }
  }

  /** When the first piece fails, so does the whole. */
  lemma FirstFailed(s: Sink, a: Option<seq<byte>>, now: Sink, b: Option<seq<byte>>)
    requires s.Ok() && Wrote(s, a, false, now)
    ensures Wrote(s, Joined(a, b), false, now)
  {
  }

  lemma JoinedAssociates(a: Option<seq<byte>>, b: Option<seq<byte>>, c: Option<seq<byte>>)
    ensures Joined(Joined(a, b), c) == Joined(a, Joined(b, c))
  {
    if a.Some? && b.Some? && c.Some? {
      assert a.value + b.value + c.value == a.value + (b.value + c.value);
    }
  }

  lemma JoinedNothing(enc: Option<seq<byte>>)
    ensures Joined(Some([]), enc) == enc == Joined(enc, Some([]))
  {
    if enc.Some? {
      assert [] + enc.value == enc.value == enc.value + [];
    }
  }

  lemma FailedAtOnce(s: Sink, enc: Option<seq<byte>>)
    requires s.Ok() && (enc.None? || !s.Fits(|enc.value|))
    ensures Wrote(s, enc, false, s)
  {
  }

  /** One more piece of a sequence of pieces: what was done, the next piece, and what remains. */
  lemma WroteNext(s: Sink, done: seq<byte>, m: Sink, next: Option<seq<byte>>, ok: bool, now: Sink, rest: Option<seq<byte>>)
    requires s.Ok() && Wrote(s, Some(done), true, m) && Wrote(m, next, ok, now)
    ensures Joined(Some(done), Joined(next, rest)) == Joined(Joined(Some(done), next), rest)
    ensures ok ==> next.Some? && Wrote(s, Some(done + next.value), true, now)
    ensures !ok ==> Wrote(s, Joined(Some(done), Joined(next, rest)), false, now)
  {
    hide Sink.PutSome, Sink.Confines;
    WroteBoth(s, Some(done), m, next, ok, now);
    JoinedAssociates(Some(done), next, rest);
    if !ok {
      FirstFailed(s, Joined(Some(done), next), now, rest);
    }
  }

  /** Counting bytes without having them. */
  lemma WroteUnseen(m: Sink, payload: seq<byte>)
    requires m.Ok() && m.sizing
    ensures Wrote(m, Some(payload), true, m.PutSome([], |payload|))
  {
  }

  /**
   The substream that starts at the write position and has exactly the size found by the
   sizing pass is filled exactly, and the parent then stands behind it.
   */
  lemma WroteSubstream(m: Sink, payload: seq<byte>, ok: bool, sub: Sink)
    requires m.Ok() && !m.sizing && m.Fits(|payload|)
    requires Wrote(Sink(false, m.contents, m.at, |payload|, 0), Some(payload), ok, sub)
    ensures ok && sub.written == |payload|
    ensures var now := m.(contents := sub.contents, at := sub.at, written := m.written + sub.written);
            now.Ok() && Wrote(m, Some(payload), true, now)
  {
  }

  // What the C types of a struct guarantee

  /** A value of the C type its field is declared with; no object in memory is longer than size_t allows. */
  ghost predicate Stored(f: Field, v: Value)
    decreases f, 0
  {
    match f.kind
    case VarintKind => v.Num? && FitsSigned(v.n, f.dataSize)
    case UVarintKind => v.Num? && FitsUnsigned(v.n, f.dataSize)
    case SVarintKind => v.Num? && FitsSigned(v.n, f.dataSize)
    case Fixed32Kind => v.Num? && FitsUnsigned(v.n, 4)
    case Fixed64Kind => v.Num? && FitsUnsigned(v.n, 8)
    case BytesKind => v.Blob? && |v.bytes| <= SIZE_MAX
    case StringKind => v.Blob? && |v.bytes| <= f.dataSize
    case SubmessageKind(fields) => v.Msg? && StoredSlots(fields, v.slots)
    case FixedBytesKind => v.Blob? && |v.bytes| == f.dataSize
  }

  ghost predicate StoredSlot(f: Field, slot: Slot)
    decreases f, 1
  {
    match f.rule
    case Required => slot.Single? && Stored(f, slot.v)
    case Optional => slot.Maybe? && (slot.has ==> Stored(f, slot.v))
    case Repeated =>
      slot.Many? && |slot.vs| <= SIZE_MAX
      && (|slot.vs| <= f.arraySize ==> forall k | 0 <= k < |slot.vs| :: Stored(f, slot.vs[k]))
    case Oneof => slot.Choice? && (slot.which == f.tag ==> Stored(f, slot.v))
  }

  ghost predicate StoredSlots(fields: seq<Field>, slots: seq<Slot>)
    decreases fields
  {
    && |slots| == |fields|
    && (EncodeFields(fields, slots, 0).Some? ==> |EncodeFields(fields, slots, 0).value| < U64)
    && forall i | 0 <= i < |fields| :: StoredSlot(fields[i], slots[Home(fields, i)])
  }

  // Lengths

  lemma NumberIsShort(f: Field, v: Value)
    requires f.kind.Packable() && EncodeValue(f, v).Some?
    ensures |EncodeValue(f, v).value| <= 10
    ensures f.kind.Fixed32Kind? ==> |EncodeValue(f, v).value| == 4
    ensures f.kind.Fixed64Kind? ==> |EncodeValue(f, v).value| == 8
  {
    hide Encode, Fixed, Zigzag;
    match f.kind {
      case VarintKind => EncodeFitsTen(AsUnsigned(v.n));
      case UVarintKind => EncodeFitsTen(v.n);
      case SVarintKind =>
        ZigzagRoundTrip(v.n);
        EncodeFitsTen(Zigzag(v.n));
      case _ =>
    }
  }

  lemma {:induction false} PackedLength(f: Field, vs: seq<Value>)
    requires f.kind.Packable() && EncodePacked(f, vs).Some?
    ensures |EncodePacked(f, vs).value| <= 10 * |vs|
    ensures f.kind.Fixed32Kind? ==> |EncodePacked(f, vs).value| == 4 * |vs|
    ensures f.kind.Fixed64Kind? ==> |EncodePacked(f, vs).value| == 8 * |vs|
    decreases |vs|
  {
    hide EncodeValue;
    if vs != [] {
      NumberIsShort(f, vs[0]);
      PackedLength(f, vs[1..]);
    }
  }

  lemma {:induction false} StoredNumbersEncode(f: Field, vs: seq<Value>)
    requires f.kind.Packable() && forall k | 0 <= k < |vs| :: Stored(f, vs[k])
    ensures EncodePacked(f, vs).Some?
    decreases |vs|
  {
    hide Encode, Fixed, Zigzag;
    if vs != [] {
      assert Stored(f, vs[0]) && EncodeValue(f, vs[0]).Some?;
      StoredNumbersEncode(f, vs[1..]);
    }
  }

  // The stream

  /** pb_ostream_t: without a buffer it is a sizing stream (PB_OSTREAM_SIZING). */
  class OStream {
    const buf: array?<byte>
    var state: nat
    const maxSize: nat
    var bytesWritten: nat

    ghost function View(): (s: Sink)
      reads this, buf
      ensures s.sizing == (buf == null)
    {
      Sink(buf == null, if buf == null then [] else buf[..], state, maxSize, bytesWritten)
    }

    ghost predicate Valid()
      reads this, buf
    {
      View().Ok()
    }

    ghost function Footprint(): set<object> {
      if buf == null then {this} else {this, buf}
    }

    /** pb_ostream_from_buffer, and the substream of a submessage, which starts further on. */
    constructor (buffer: array<byte>, from: nat, size: nat)
      requires from + size <= buffer.Length
      ensures Valid() && buf == buffer
      ensures View() == Sink(false, buffer[..], from, size, 0)
    {
      buf, state, maxSize, bytesWritten := buffer, from, size, 0;
    }

    constructor Sizing()
      ensures Valid() && buf == null
      ensures View() == Sink(true, [], 0, 0, 0)
    {
      buf, state, maxSize, bytesWritten := null, 0, 0, 0;
    }

    /** buf_write */
    method BufWrite(src: seq<byte>, count: nat)
      requires Valid() && buf != null && View().Fits(count) && count <= |src|
      modifies this`state, buf
      ensures state == old(state) + count
      ensures buf[..] == old(buf[..state]) + src[..count] + old(buf[state + count..])
    {
      var dest := state;
      state := dest + count;
      var i := 0;
      while i < count
        invariant 0 <= i <= count && state == dest + count && dest == old(state)
        invariant forall j | 0 <= j < buf.Length :: buf[j] == if dest <= j < dest + i then src[j - dest] else old(buf[j])
      {
        buf[dest + i] := src[i];
        i := i + 1;
      }
    }

    /** pb_write: all or nothing, within the size limit. */
    method Write(src: seq<byte>, count: nat) returns (ok: bool)
      requires Valid() && (buf == null || count <= |src|)
      modifies Footprint()
      ensures ok == old(View()).Fits(count)
      ensures ok ==> View() == old(View()).PutSome(src, count)
      ensures !ok ==> View() == old(View())
    {
      if buf != null {
        if bytesWritten + count > maxSize {
          return false;
        }
        BufWrite(src, count);
      }
      bytesWritten := bytesWritten + count;
      return true;
    }

    /** pb_write of a whole piece of data. */
    method WriteAll(bytes: seq<byte>) returns (ok: bool)
      requires Valid()
      modifies Footprint()
      ensures Valid() && Wrote(old(View()), Some(bytes), ok, View())
    {
      ok := Write(bytes, |bytes|);
    }

    /** pb_encode_varint: seven bits a byte into a buffer of ten, the last one without its top bit. */
    method EncodeVarint(value: nat) returns (ok: bool)
      requires Valid() && value < U64
      modifies Footprint()
      ensures Valid() && Wrote(old(View()), Some(Encode(value)), ok, View())
    {
      hide Wrote;
      if value <= 0x7f {
        ok := WriteAll([value]);
        return;
      }
      var buffer := new byte[10];
      var i := FillVarint(buffer, value);
      ok := WriteAll(buffer[..i]);
    }

    /** pb_encode_svarint */
    method EncodeSvarint(value: int) returns (ok: bool)
      requires Valid() && -U63 <= value < U63
      modifies Footprint()
      ensures Valid() && Wrote(old(View()), Some(Encode(Zigzag(value))), ok, View())
    {
      WordSizes();
      ZigzagRoundTrip(value);
      var shifted := Truncate(Shl(AsUnsigned(value), 1), 64);
      var zigzagged := if value < 0 then Not(shifted, 64) else shifted;
      ok := EncodeVarint(zigzagged);
    }

    /** pb_encode_fixed32 */
    method EncodeFixed32(val: nat) returns (ok: bool)
      requires Valid() && val < U32
      modifies Footprint()
      ensures Valid() && Wrote(old(View()), Some(Fixed(val, 4)), ok, View())
    {
      var bytes := [val % 0x100, val / 0x100 % 0x100, val / 0x1_0000 % 0x100, val / 0x100_0000 % 0x100];
      Fixed32Bytes(val);
      ok := WriteAll(bytes);
    }

    /** pb_encode_fixed64 */
    method EncodeFixed64(val: nat) returns (ok: bool)
      requires Valid() && val < U64
      modifies Footprint()
      ensures Valid() && Wrote(old(View()), Some(Fixed(val, 8)), ok, View())
    {
      var bytes := [val % 0x100, val / 0x100 % 0x100, val / 0x1_0000 % 0x100, val / 0x100_0000 % 0x100,
                    val / 0x1_0000_0000 % 0x100, val / 0x100_0000_0000 % 0x100,
                    val / 0x1_0000_0000_0000 % 0x100, val / 0x100_0000_0000_0000 % 0x100];
      Fixed64Bytes(val);
      ok := WriteAll(bytes);
    }

    /** pb_encode_tag */
    method EncodeTag(wireType: nat, tag: nat) returns (ok: bool)
      requires Valid() && wireType < 8 && tag <= SIZE_MAX
      modifies Footprint()
      ensures Valid() && Wrote(old(View()), Some(Key(tag, wireType)), ok, View())
    {
      KeyBits(tag, wireType);
      ok := EncodeVarint(Or(Shl(tag, 3), wireType));
    }

    /** pb_encode_tag_for_field */
    method EncodeTagForField(f: Field) returns (ok: bool)
      requires Valid() && f.tag <= SIZE_MAX
      modifies Footprint()
      ensures Valid() && Wrote(old(View()), Some(Key(f.tag, WireType(f.kind))), ok, View())
    {
      var wireType;
      match f.kind {
        case VarintKind | UVarintKind | SVarintKind => wireType := WT_VARINT;
        case Fixed32Kind => wireType := WT_32BIT;
        case Fixed64Kind => wireType := WT_64BIT;
        case BytesKind | StringKind | SubmessageKind(_) | FixedBytesKind => wireType := WT_STRING;
      }
      ok := EncodeTag(wireType, f.tag);
    }

    /** pb_encode_string */
    method EncodeString(bytes: seq<byte>, size: nat) returns (ok: bool)
      requires Valid() && size <= |bytes| && size < U64
      modifies Footprint()
      ensures Valid() && Wrote(old(View()), Some(Delimited(bytes[..size])), ok, View())
    {
      hide Wrote, Encode;
      ghost var s, head, text := View(), Some(Encode(size)), Some(bytes[..size]);
      ok := EncodeVarint(size);
      if !ok {
        FirstFailed(s, head, View(), text);
        return;
      }
      ghost var m := View();
      ok := WriteAll(bytes[..size]);
      WroteBoth(s, head, m, text, ok, View());
    }

    /** pb_encode_submessage: one pass to find the size, one to write. */
    method EncodeSubmessage(fields: seq<Field>, slots: seq<Slot>) returns (ok: bool)
      requires Valid() && DescriptorOk(fields) && StoredSlots(fields, slots)
      modifies Footprint()
      ensures Valid() && Wrote(old(View()), Submessage(fields, slots), ok, View())
      decreases fields, 2
    {
      hide Wrote, Encode, StoredSlot, DescriptorOk, Sink.PutSome, EncodeFields;
      ghost var s, enc := View(), EncodeFields(fields, slots, 0);
      var sizing := new OStream.Sizing();
      ghost var s0 := sizing.View();
      var status := sizing.PbEncode(fields, slots);
      assert View() == s;
      SizingFindsLength(s0, enc, status, sizing.View());
      if !status {
        FailedAtOnce(s, None);
        return false;
      }
      var size := sizing.bytesWritten;
      ghost var payload, head := enc.value, Some(Encode(size));
      assert size == |payload| && Submessage(fields, slots) == Joined(head, Some(payload));
      ok := EncodeVarint(size);
      if !ok {
        FirstFailed(s, head, View(), Some(payload));
        return;
      }
      ghost var m := View();
      if buf == null {
        ok := Write([], size);
        WroteUnseen(m, payload);
        WroteBoth(s, head, m, Some(payload), ok, View());
        return;
      }
      if bytesWritten + size > maxSize {
        FailedAtOnce(m, Some(payload));
        WroteBoth(s, head, m, Some(payload), false, m);
        return false;
      }
      var substream := new OStream(buf, state, size);
      status := substream.PbEncode(fields, slots);
      WroteSubstream(m, payload, status, substream.View());
      bytesWritten := bytesWritten + substream.bytesWritten;
      state := substream.state;
      WroteBoth(s, head, m, Some(payload), true, View());
      if substream.bytesWritten != size {
        return false;
      }
      return status;
    }

    /** pb_encode: every field, in the order of the descriptor. */
    method PbEncode(fields: seq<Field>, slots: seq<Slot>) returns (ok: bool)
      requires Valid() && DescriptorOk(fields) && StoredSlots(fields, slots)
      modifies Footprint()
      ensures Valid() && Wrote(old(View()), EncodeFields(fields, slots, 0), ok, View())
      decreases fields, 1
    {
      hide Wrote, EncodeField, EncodeFields, DescriptorOk, StoredSlots, Home, RequiredIndex, Address, SizeAddress;
      StoredSize(fields, slots);
      ghost var s, done := View(), [];
      ghost var enc := EncodeFields(fields, slots, 0);
      WroteNothing(s);
      DescriptorTagsOk(fields);
      var iter := new FieldIter(fields, 0);
      var more := iter.Begin();
      JoinedNothing(enc);
      NoFieldsLeft(fields, slots);
      while more
        invariant iter.Valid() && fresh(iter) && iter.start == fields
        invariant Valid() && Wrote(s, Some(done), true, View())
        invariant more ==> iter.pos < |fields|
        invariant enc == Joined(Some(done), EncodeFields(fields, slots, if more then iter.pos else |fields|))
        decreases more, |fields| - iter.pos
        modifies iter, Footprint()
      {
        ghost var m, i := View(), iter.pos;
        ghost var rest := EncodeFields(fields, slots, i + 1);
        var slot := slots[Home(fields, iter.pos)];
        ghost var next := EncodeField(fields[i], slot);
        FieldsStep(fields, slots, i);
        StoredField(fields, slots, i);
        ok := EncodeBasicField(iter.Entry(), slot);
        WroteNext(s, done, m, next, ok, View(), rest);
        if !ok {
          return;
        }
        done := done + next.value;
        more := iter.Next();
      }
      JoinedNothing(Some(done));
      return true;
    }

    /** encode_basic_field */
    method EncodeBasicField(f: Field, slot: Slot) returns (ok: bool)
      requires Valid() && FieldOk(f) && StoredSlot(f, slot)
      modifies Footprint()
      ensures Valid() && Wrote(old(View()), EncodeField(f, slot), ok, View())
      decreases f, 4
    {
      hide Wrote, Stored, EncodeValue, EncodeArray;
      ghost var s := View();
      match f.rule {
        case Required =>
          ok := EncodeTagged(f, slot.v);
        case Optional =>
          if slot.has {
            ok := EncodeTagged(f, slot.v);
          } else {
            WroteNothing(s);
            ok := true;
          }
        case Repeated =>
          ok := EncodeStaticArray(f, slot.vs);
        case Oneof =>
          if slot.which == f.tag {
            ok := EncodeTagged(f, slot.v);
          } else {
            WroteNothing(s);
            ok := true;
          }
      }
    }

    /** The key of the field, then its value. */
    method EncodeTagged(f: Field, v: Value) returns (ok: bool)
      requires Valid() && FieldOk(f) && Stored(f, v)
      modifies Footprint()
      ensures Valid() && Wrote(old(View()), Tagged(f, v), ok, View())
      decreases f, 1
    {
      hide Wrote, Stored, EncodeValue, Key;
      ghost var s, head, value := View(), Some(Key(f.tag, WireType(f.kind))), EncodeValue(f, v);
      assert Tagged(f, v) == Joined(head, value);
      ok := EncodeTagForField(f);
      if !ok {
        FirstFailed(s, head, View(), value);
        return;
      }
      ghost var m := View();
      ok := EncodeOne(f, v);
      WroteBoth(s, head, m, value, ok, View());
    }

    /** encode_array */
    method EncodeStaticArray(f: Field, vs: seq<Value>) returns (ok: bool)
      requires Valid() && FieldOk(f)
      requires |vs| <= f.arraySize ==> forall k | 0 <= k < |vs| :: Stored(f, vs[k])
      modifies Footprint()
      ensures Valid() && Wrote(old(View()), EncodeArray(f, vs), ok, View())
      decreases f, 3
    {
      hide Wrote, Stored, EncodeValue, EncodeItems, EncodePacked, Key;
      var count := |vs|;
      if count == 0 {
        WroteNothing(View());
        return true;
      }
      if count > f.arraySize {
        FailedAtOnce(View(), None);
        return false;
      }
      if f.kind.Packable() {
        ok := EncodePackedArray(f, vs);
      } else {
        ok := EncodeEach(f, vs);
      }
    }

    /** The packed form: key, size of the elements, elements. */
    method EncodePackedArray(f: Field, vs: seq<Value>) returns (ok: bool)
      requires Valid() && FieldOk(f) && f.kind.Packable() && |vs| <= f.arraySize
      requires forall k | 0 <= k < |vs| :: Stored(f, vs[k])
      modifies Footprint()
      ensures Valid() && EncodePacked(f, vs).Some?
      ensures Wrote(old(View()), Some(Key(f.tag, WT_STRING) + Delimited(EncodePacked(f, vs).value)), ok, View())
      decreases f, 1
    {
      hide Wrote, Stored, EncodeValue, EncodePacked, Key, Encode, Sink.PutSome;
      ghost var s := View();
      StoredNumbersEncode(f, vs);
      PackedLength(f, vs);
      ghost var payload := EncodePacked(f, vs).value;
      ghost var key, length := Some(Key(f.tag, WT_STRING)), Some(Encode(|payload|));
      ghost var enc := Some(Key(f.tag, WT_STRING) + Delimited(payload));
      assert enc == Joined(key, Joined(length, Some(payload)));
      JoinedAssociates(key, length, Some(payload));
      ok := EncodeTag(WT_STRING, f.tag);
      if !ok {
        FirstFailed(s, key, View(), Joined(length, Some(payload)));
        return;
      }
      ghost var m := View();
      var size;
      if f.kind.Fixed32Kind? {
        size := 4 * |vs|;
      } else if f.kind.Fixed64Kind? {
        size := 8 * |vs|;
      } else {
        var sizing := new OStream.Sizing();
        ghost var s0 := sizing.View();
        ok := sizing.EncodeElements(f, vs);
        SizingFindsLength(s0, Some(payload), ok, sizing.View());
        size := sizing.bytesWritten;
      }
      assert size == |payload| && View() == m;
      ok := EncodeVarint(size);
      WroteBoth(s, key, m, length, ok, View());
      if !ok {
        FirstFailed(s, Joined(key, length), View(), Some(payload));
        return;
      }
      m := View();
      if buf == null {
        ok := Write([], size);
        WroteUnseen(m, payload);
      } else {
        ok := EncodeElements(f, vs);
      }
      WroteBoth(s, Joined(key, length), m, Some(payload), ok, View());
    }

    /** The elements of a packed array. */
    method EncodeElements(f: Field, vs: seq<Value>) returns (ok: bool)
      requires Valid() && FieldOk(f) && f.kind.Packable()
      requires forall k | 0 <= k < |vs| :: Stored(f, vs[k])
      modifies Footprint()
      ensures Valid() && Wrote(old(View()), EncodePacked(f, vs), ok, View())
      decreases f, 0, 1
    {
      hide Wrote, Stored, EncodeValue;
      ghost var s, done, enc := View(), [], EncodePacked(f, vs);
      WroteNothing(s);
      assert vs[0..] == vs;
      JoinedNothing(enc);
      var i := 0;
      while i < |vs|
        invariant 0 <= i <= |vs|
        invariant Valid() && Wrote(s, Some(done), true, View())
        invariant enc == Joined(Some(done), EncodePacked(f, vs[i..]))
      {
        ghost var m, next, rest := View(), EncodeValue(f, vs[i]), EncodePacked(f, vs[i + 1..]);
        assert vs[i..][1..] == vs[i + 1..];
        assert EncodePacked(f, vs[i..]) == Joined(next, rest);
        ok := EncodeOne(f, vs[i]);
        WroteNext(s, done, m, next, ok, View(), rest);
        if !ok {
          return;
        }
        done := done + next.value;
        i := i + 1;
      }
      assert done + [] == done;
      return true;
    }

    /** The elements of an array that cannot be packed, each under its own key. */
    method EncodeEach(f: Field, vs: seq<Value>) returns (ok: bool)
      requires Valid() && FieldOk(f)
      requires forall k | 0 <= k < |vs| :: Stored(f, vs[k])
      modifies Footprint()
      ensures Valid() && Wrote(old(View()), EncodeItems(f, vs), ok, View())
      decreases f, 2
    {
      hide Wrote, Stored, EncodeValue, Tagged;
      ghost var s, done, enc := View(), [], EncodeItems(f, vs);
      WroteNothing(s);
      assert vs[0..] == vs;
      JoinedNothing(enc);
      var i := 0;
      while i < |vs|
        invariant 0 <= i <= |vs|
        invariant Valid() && Wrote(s, Some(done), true, View())
        invariant enc == Joined(Some(done), EncodeItems(f, vs[i..]))
      {
        ghost var m, next, rest := View(), Tagged(f, vs[i]), EncodeItems(f, vs[i + 1..]);
        assert vs[i..][1..] == vs[i + 1..];
        assert EncodeItems(f, vs[i..]) == Joined(next, rest);
        ok := EncodeTagged(f, vs[i]);
        WroteNext(s, done, m, next, ok, View(), rest);
        if !ok {
          return;
        }
        done := done + next.value;
        i := i + 1;
      }
      assert done + [] == done;
      return true;
    }

    /** The encoder function of a field, chosen from PB_ENCODERS. */
    method EncodeOne(f: Field, v: Value) returns (ok: bool)
      requires Valid() && FieldOk(f) && Stored(f, v)
      modifies Footprint()
      ensures Valid() && Wrote(old(View()), EncodeValue(f, v), ok, View())
      decreases f, 0, 0
    {
      hide Wrote, StoredSlots, DescriptorOk, Encode, Fixed, Zigzag, EncodeFields;
      match f.kind {
        case VarintKind =>
          ok := EncodeVarint(AsUnsigned(v.n));
        case UVarintKind =>
          ok := EncodeVarint(v.n);
        case SVarintKind =>
          ok := EncodeSvarint(v.n);
        case Fixed32Kind =>
          ok := EncodeFixed32(v.n);
        case Fixed64Kind =>
          ok := EncodeFixed64(v.n);
        case BytesKind =>
          if |v.bytes| + 1 > f.dataSize {
            FailedAtOnce(View(), None);
            return false;
          }
          assert v.bytes[..|v.bytes|] == v.bytes;
          ok := EncodeString(v.bytes, |v.bytes|);
        case StringKind =>
          var size := CStringLength(v.bytes, f.dataSize);
          ok := EncodeString(v.bytes, size);
        case SubmessageKind(fields) =>
          StoredSize(fields, v.slots);
          ok := EncodeSubmessage(fields, v.slots);
        case FixedBytesKind =>
          assert v.bytes[..f.dataSize] == v.bytes;
          ok := EncodeString(v.bytes, f.dataSize);
      }
    }
  }

  /** One more group of seven bits, with the continuation bit set. */
  lemma NextGroup(done: seq<byte>, v: nat, value: nat)
    requires v != 0 && done + Encode(v) == Encode(value)
    ensures |done| < |Encode(value)|
    ensures v >= 128 ==> done + [v % 128 + 128] + Encode(v / 128) == Encode(value)
    ensures v < 128 ==> done + [v] == Encode(value)
  {
    assert |done + Encode(v)| == |done| + |Encode(v)|;
    if v >= 128 {
      assert done + [v % 128 + 128] + Encode(v / 128) == done + ([v % 128 + 128] + Encode(v / 128));
    }
  }

  /** The loop of pb_encode_varint: every byte gets the continuation bit, and the last one loses it again. */
  method FillVarint(buffer: array<byte>, value: nat) returns (i: nat)
    requires buffer.Length == 10 && 0x7f < value < U64
    modifies buffer
    ensures i <= 10 && buffer[..i] == Encode(value)
  {
    hide Encode;
    EncodeFitsTen(value);
    var v := value;
    i := 0;
    ghost var done: seq<byte> := [];
    assert done + Encode(v) == Encode(value);
    while v != 0
      invariant 0 <= i <= 10 && buffer[..i] == done
      invariant v != 0 ==> done + Encode(v) == Encode(value)
      invariant v == 0 ==> i > 0 && done[i - 1] >= 128 && done[..i - 1] + [done[i - 1] - 128] == Encode(value)
      decreases v
    {
      NextGroup(done, v, value);
      buffer[i] := v % 128 + 128;
      done := done + [v % 128 + 128];
      assert done[..i] + [done[i] - 128] == done[..i] + [v % 128];
      v := v / 128;
      i := i + 1;
    }
    buffer[i - 1] := buffer[i - 1] % 128;
    assert buffer[..i] == done[..i - 1] + [done[i - 1] - 128];
  }

  /** The bytes of a nested message: its length and its fields. */
  function Submessage(fields: seq<Field>, slots: seq<Slot>): Option<seq<byte>>
    requires |slots| == |fields|
  {
    match EncodeFields(fields, slots, 0)
    case None => None
    case Some(payload) => Some(Delimited(payload))
  }

  lemma FieldsStep(fields: seq<Field>, slots: seq<Slot>, i: nat)
    requires i < |fields| == |slots|
    ensures EncodeFields(fields, slots, i)
         == Joined(EncodeField(fields[i], slots[Home(fields, i)]), EncodeFields(fields, slots, i + 1))
  {
    hide EncodeField;
  }

  lemma NoFieldsLeft(fields: seq<Field>, slots: seq<Slot>)
    requires |slots| == |fields|
    ensures EncodeFields(fields, slots, |fields|) == Some([])
  {
  }

  lemma StoredField(fields: seq<Field>, slots: seq<Slot>, i: nat)
    requires DescriptorOk(fields) && StoredSlots(fields, slots) && i < |fields|
    ensures FieldOk(fields[i]) && StoredSlot(fields[i], slots[Home(fields, i)])
  {
  }

  lemma StoredSize(fields: seq<Field>, slots: seq<Slot>)
    requires StoredSlots(fields, slots)
    ensures |slots| == |fields|
  {
  }

  /** The sizing pass succeeds exactly when there is an encoding, and counts its bytes. */
  lemma SizingFindsLength(s: Sink, enc: Option<seq<byte>>, ok: bool, now: Sink)
    requires s == Sink(true, [], 0, 0, 0) && Wrote(s, enc, ok, now)
    ensures ok == enc.Some? && (ok ==> now.written == |enc.value|)
  {
  }

  /** The loop of pb_enc_string that stands in for strnlen. */
  method CStringLength(src: seq<byte>, maxSize: nat) returns (size: nat)
    requires |src| <= maxSize
    ensures size == StringLength(src, maxSize)
  {
    size := 0;
    while size < maxSize && size < |src| && src[size] != 0
      invariant size <= |src|
      invariant StringLength(src, maxSize) == size + StringLength(src[size..], maxSize - size)
    {
      assert src[size..][1..] == src[size + 1..];
      size := size + 1;
    }
  }

  lemma Fixed32Bytes(val: nat)
    ensures Fixed(val, 4) == [val % 0x100, val / 0x100 % 0x100, val / 0x1_0000 % 0x100, val / 0x100_0000 % 0x100]
  {
  }

  lemma Fixed64Bytes(val: nat)
    requires val < U64
    ensures Fixed(val, 8) == [val % 0x100, val / 0x100 % 0x100, val / 0x1_0000 % 0x100, val / 0x100_0000 % 0x100,
                              val / 0x1_0000_0000 % 0x100, val / 0x100_0000_0000 % 0x100,
                              val / 0x1_0000_0000_0000 % 0x100, val / 0x100_0000_0000_0000 % 0x100]
  {
    hide Fixed;
    var high := val / 0x1_0000_0000;
    FixedSplit(val);
    Fixed32Bytes(val);
    Fixed32Bytes(high);
    assert high / 0x100 == val / 0x100_0000_0000;
    assert high / 0x1_0000 == val / 0x1_0000_0000_0000;
    assert high / 0x100_0000 == val / 0x100_0000_0000_0000;
  }

  lemma FixedSplit(val: nat)
    ensures Fixed(val, 8) == Fixed(val, 4) + Fixed(val / 0x1_0000_0000, 4)
  {
    var v1 := val / 0x100;
    var v2 := v1 / 0x100;
    var v3 := v2 / 0x100;
    assert v3 / 0x100 == val / 0x1_0000_0000;
    assert Fixed(val, 8) == [val % 0x100] + Fixed(v1, 7);
    assert Fixed(v1, 7) == [v1 % 0x100] + Fixed(v2, 6);
    assert Fixed(v2, 6) == [v2 % 0x100] + Fixed(v3, 5);
    assert Fixed(v3, 5) == [v3 % 0x100] + Fixed(val / 0x1_0000_0000, 4);
    Fixed32Bytes(val);
    assert v2 == val / 0x1_0000 && v3 == val / 0x100_0000;
  }

  /** Or-ing the wire type below the shifted field number. */
  lemma KeyBits(tag: nat, wireType: nat)
    requires wireType < 8 && tag <= SIZE_MAX
    ensures Or(Shl(tag, 3), wireType) == tag * 8 + wireType
  {
    OrCommutes(wireType, Shl(tag, 3));
    OrDisjoint(wireType, tag, 3);
    ShlIsProduct(tag, 3);
  }
}
