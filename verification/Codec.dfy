/**
 The running encoder and decoder put together: sizes agree with what is written, and a
 message that goes through a buffer comes out as it went in.
 */
module Codec {
  import opened Bits
  import opened Varint
  import opened Schema
  import opened Encoding
  import opened OutputStream
  import InputStream
  import Decoding
  import RoundTrip

  /** pb_get_encoded_size */
  method GetEncodedSize(fields: seq<Field>, slots: seq<Slot>) returns (ok: bool, size: nat)
    requires DescriptorOk(fields) && StoredSlots(fields, slots)
    ensures ok == EncodeFields(fields, slots, 0).Some?
    ensures ok ==> size == |EncodeFields(fields, slots, 0).value|
  {
    hide Wrote, EncodeFields, DescriptorOk, StoredSlots;
    StoredSize(fields, slots);
    var stream := new OStream.Sizing();
    ghost var s := stream.View();
    ok := stream.PbEncode(fields, slots);
    SizingFindsLength(s, EncodeFields(fields, slots, 0), ok, stream.View());
    size := stream.bytesWritten;
  }

  /**
   pb_encode into a buffer: it succeeds exactly when the size found by GetEncodedSize is at
   most the size of the buffer, and then has written those bytes at the start and no others.
   */
  method EncodeToBuffer(buf: array<byte>, fields: seq<Field>, slots: seq<Slot>) returns (ok: bool, written: nat)
    requires DescriptorOk(fields) && StoredSlots(fields, slots)
    modifies buf
    ensures ok == (EncodeFields(fields, slots, 0).Some? && |EncodeFields(fields, slots, 0).value| <= buf.Length)
    ensures ok ==> written == |EncodeFields(fields, slots, 0).value|
    ensures ok ==> buf[..] == EncodeFields(fields, slots, 0).value + old(buf[written..])
  {
    hide EncodeFields, DescriptorOk, StoredSlots;
    StoredSize(fields, slots);
    var stream := new OStream(buf, 0, buf.Length);
    ghost var s := stream.View();
    ok := stream.PbEncode(fields, slots);
    written := stream.bytesWritten;
  }

  // Valid messages of moderate size are what memory can hold

  lemma {:induction false} FieldIsPart(fields: seq<Field>, slots: seq<Slot>, i: nat, j: nat)
    requires i <= j < |fields| == |slots| && EncodeFields(fields, slots, i).Some?
    ensures var part := EncodeField(fields[j], slots[Home(fields, j)]);
            part.Some? && |part.value| <= |EncodeFields(fields, slots, i).value|
    decreases j - i
  {
    hide EncodeField;
    FieldsStep(fields, slots, i);
    if i < j {
      FieldIsPart(fields, slots, i + 1, j);
    }
  }

  lemma {:induction false} ItemIsPart(f: Field, vs: seq<Value>, k: nat)
    requires k < |vs| && EncodeItems(f, vs).Some?
    ensures EncodeValue(f, vs[k]).Some? && |EncodeValue(f, vs[k]).value| <= |EncodeItems(f, vs).value|
    decreases k
  {
    hide EncodeValue;
    if k > 0 {
      ItemIsPart(f, vs[1..], k - 1);
    }
  }

  lemma {:induction false} ValidIsStored(fields: seq<Field>, slots: seq<Slot>)
    requires DescriptorOk(fields) && RoundTrip.SlotsOk(fields, slots)
    requires EncodeFields(fields, slots, 0).Some? && |EncodeFields(fields, slots, 0).value| < U64
    ensures StoredSlots(fields, slots)
    decreases fields, 1
  {
    forall i | 0 <= i < |fields|
      ensures StoredSlot(fields[i], slots[Home(fields, i)])
    {
      hide DescriptorOk, EncodeValue, Stored, RoundTrip.ValueOk, Home;
      var f, slot := fields[i], slots[Home(fields, i)];
      FieldIsPart(fields, slots, 0, i);
      FieldOfDescriptor(fields, i);
      assert RoundTrip.SlotOk(f, slot);
      match f.rule {
        case Required => ValueIsStored(f, slot.v);
        case Optional =>
          if slot.has {
            ValueIsStored(f, slot.v);
          }
        case Repeated =>
          forall k | 0 <= k < |slot.vs|
            ensures Stored(f, slot.vs[k])
          {
            if !f.kind.Packable() {
              ItemIsPart(f, slot.vs, k);
            }
            ValueIsStored(f, slot.vs[k]);
          }
        case Oneof =>
          if slot.which == f.tag {
            ValueIsStored(f, slot.v);
          }
      }
    }
  }

  lemma {:induction false} ValueIsStored(f: Field, v: Value)
    requires FieldOk(f) && RoundTrip.ValueOk(f, v)
    requires f.kind.SubmessageKind? ==> EncodeValue(f, v).Some? && |EncodeValue(f, v).value| < U64
    ensures Stored(f, v)
    decreases f, 0
  {
    if f.kind.SubmessageKind? {
      hide EncodeFields;
      ValidIsStored(f.kind.fields, v.slots);
    }
  }

  /**
   A valid message encoded into a buffer and decoded from it: the copy has every present
   value, and the only way to fail is a buffer that is too small.
   */
  method Transfer(buf: array<byte>, fields: seq<Field>, slots: seq<Slot>) returns (ok: bool, copy: seq<Slot>)
    requires DescriptorOk(fields) && RoundTrip.SlotsOk(fields, slots)
    requires EncodeFields(fields, slots, 0).Some? && |EncodeFields(fields, slots, 0).value| < U32
    modifies buf
    ensures ok == (|EncodeFields(fields, slots, 0).value| <= buf.Length)
    ensures ok ==> copy == RoundTrip.Restored(fields, slots)
  {
    hide EncodeFields, DescriptorOk, StoredSlots, RoundTrip.SlotOk, RoundTrip.Restored, Decoding.DecodeMessage;
    ghost var bytes := EncodeFields(fields, slots, 0).value;
    ValidIsStored(fields, slots);
    RoundTrip.MessageRoundTrip(fields, slots, bytes);
    var written;
    copy := [];
    ok, written := EncodeToBuffer(buf, fields, slots);
    if ok {
      assert buf[..written] == bytes;
      var stream := new InputStream.IStream(buf[..], 0, written);
      assert stream.Rest() == bytes;
      ok, copy := stream.PbDecode(fields);
    }
  }
}
