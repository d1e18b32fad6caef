/**
 nanopb's decoder as it runs (pb_decode.c): an input stream over a buffer, its substreams,
 and the decoder functions that advance it.  Every method is proved against the functions
 of module Decoding, and every success leaves the end of the stream where it was.
 */
module InputStream {
  import opened Bits
  import opened Wrappers
  import opened Varint
  import opened Schema
  import opened Encoding
  import opened FieldCursor
  import D = Decoding

  /** Reading a signed integer of the given number of bits out of a wider one. */
  function Cast(n: int, modulus: int): int
    requires modulus > 0
  {
    var low := n % modulus;
    if 2 * low >= modulus then low - modulus else low
  }

  /** Four little-endian bytes, shifted into place. */
  function Word(b0: nat, b1: nat, b2: nat, b3: nat): nat {
    b0 + 0x100 * b1 + 0x1_0000 * b2 + 0x100_0000 * b3
  }

  /** pb_istream_t over a buffer */
  class IStream {
    const source: seq<byte>
    var state: nat
    var bytesLeft: nat

    ghost predicate Valid()
      reads this
    {
      state + bytesLeft <= |source|
    }

    /** The bytes the stream will still deliver. */
    ghost function Rest(): (s: seq<byte>)
      requires Valid()
      reads this
      ensures |s| == bytesLeft
    {
      source[state..state + bytesLeft]
    }

    ghost function End(): nat
      reads this
    {
      state + bytesLeft
    }

    /** pb_istream_from_buffer, and the part of it that a substream delivers. */
    constructor (buffer: seq<byte>, from: nat, size: nat)
      requires from + size <= |buffer|
      ensures Valid() && source == buffer && state == from && bytesLeft == size
      ensures Rest() == buffer[from..from + size]
    {
      source, state, bytesLeft := buffer, from, size;
    }

    /** buf_read; without a destination the bytes are only skipped. */
    method BufRead(dest: array?<byte>, count: nat)
      requires Valid() && count <= bytesLeft && (dest != null ==> count <= dest.Length)
      modifies this`state, if dest == null then {} else {dest}
      ensures state == old(state) + count
      ensures dest != null ==> dest[..count] == source[old(state)..old(state) + count]
    {
      var from := state;
      state := state + count;
      if dest != null {
        var i := 0;
        while i < count
          invariant 0 <= i <= count
          invariant dest[..i] == source[from..from + i]
          modifies dest
        {
          dest[i] := source[from + i];
          i := i + 1;
        }
      }
    }

    /** pb_read: all of the bytes or none. */
    method Read(dest: array?<byte>, count: nat) returns (ok: bool)
      requires Valid() && (dest != null ==> count <= dest.Length)
      modifies this, if dest == null then {} else {dest}
      ensures Valid() && End() == old(End())
      ensures ok == (count <= old(bytesLeft))
      ensures ok ==> Rest() == old(Rest())[count..]
      ensures ok && dest != null ==> dest[..count] == old(Rest())[..count]
      ensures !ok ==> state == old(state)
    {
      if bytesLeft < count {
        return false;
      }
      BufRead(dest, count);
      bytesLeft := bytesLeft - count;
      return true;
    }

    /** pb_readbyte */
    method ReadByte() returns (ok: bool, b: byte)
      requires Valid()
      modifies this
      ensures Valid() && End() == old(End())
      ensures ok == (old(bytesLeft) > 0)
      ensures ok ==> b == old(Rest())[0] && Rest() == old(Rest())[1..]
      ensures !ok ==> state == old(state)
    {
      if bytesLeft == 0 {
        return false, 0;
      }
      b := source[state];
      state := state + 1;
      bytesLeft := bytesLeft - 1;
      return true, b;
    }

    /** pb_decode_varint32_eof: the end of the stream counts only before the first byte. */
    method DecodeVarint32Eof() returns (ok: bool, dest: nat, eof: bool)
      requires Valid()
      modifies this
      ensures Valid() && End() <= old(End())
      ensures ok == Decode32(old(Rest())).Some?
      ensures ok ==> Decode32(old(Rest())) == Some((dest, Rest())) && End() == old(End())
      ensures eof == (old(bytesLeft) == 0) && (eof ==> End() == old(End()))
    {
      hide Or, Truncate, Shl;
      ok, dest, eof := false, 0, false;
      var more, b := ReadByte();
      if !more {
        eof := bytesLeft == 0;
        return;
      }
      var result := b;
      if b >= 0x80 {
        var bitpos := 7;
        result := b % 0x80;
        ghost var s := Rest();
        assert Decode32(old(Rest())) == Decode32From(s, 7, result);
        var continues := true;
        ghost var acc, r := result, Decode32From(s, 7, result);
        while continues
          invariant Valid() && End() == old(End())
          invariant 0 <= bitpos < 256 && result >= 0
          invariant continues ==> Decode32From(Rest(), bitpos, result) == r
          invariant !continues ==> r == if bitpos == 35 && b / 16 % 8 != 0 then None else Some((result, Rest()))
          decreases continues, bytesLeft
        {
          more, b := ReadByte();
          if !more {
            return;
          }
          if bitpos >= 32 {
            var signExtension := if bitpos < 63 then 0xff else 0x01;
            if b % 0x80 != 0 && (result < 0x8000_0000 || b != signExtension) {
              return;
            }
          } else {
            result := Or(result, Truncate(Shl(b % 0x80, bitpos), 32));
          }
          bitpos := (bitpos + 7) % 256;
          continues := b >= 0x80;
        }
        if bitpos == 35 && b / 16 % 8 != 0 {
          return;
        }
      }
      return true, result, false;
    }

    /** pb_decode_varint32 */
    method DecodeVarint32() returns (ok: bool, dest: nat)
      requires Valid()
      modifies this
      ensures Valid() && End() <= old(End())
      ensures ok == Decode32(old(Rest())).Some?
      ensures ok ==> Decode32(old(Rest())) == Some((dest, Rest())) && End() == old(End())
    {
      var eof;
      ok, dest, eof := DecodeVarint32Eof();
    }

    /** pb_decode_varint */
    method DecodeVarint() returns (ok: bool, dest: nat)
      requires Valid()
      modifies this
      ensures Valid() && End() <= old(End())
      ensures ok == Decode(old(Rest())).Some?
      ensures ok ==> dest < U64 && Decode(old(Rest())) == Some((dest, Rest())) && End() == old(End())
    {
      hide Or, Truncate, Shl;
      ok, dest := false, 0;
      D.DecodeFromBound(Rest(), 0, 0);
      var bitpos, result, continues := 0, 0, true;
      while continues
        invariant Valid() && End() == old(End())
        invariant 0 <= bitpos <= 70 && result >= 0
        invariant continues ==> DecodeFrom(Rest(), bitpos, result) == Decode(old(Rest()))
        invariant !continues ==> Decode(old(Rest())) == Some((result, Rest()))
        decreases continues, bytesLeft
      {
        if bitpos >= 64 {
          return;
        }
        var more, b := ReadByte();
        if !more {
          return;
        }
        result := Or(result, Truncate(Shl(b % 0x80, bitpos), 64));
        bitpos := bitpos + 7;
        continues := b >= 0x80;
      }
      return true, result;
    }

    /** pb_skip_varint */
    method SkipVarint() returns (ok: bool)
      requires Valid()
      modifies this
      ensures Valid() && End() <= old(End())
      ensures ok == D.SkipVarint(old(Rest())).Some?
      ensures ok ==> D.SkipVarint(old(Rest())) == Some(Rest()) && End() == old(End())
    {
      var b := new byte[1];
      var continues := true;
      while continues
        invariant Valid() && End() == old(End())
        invariant continues ==> D.SkipVarint(Rest()) == D.SkipVarint(old(Rest()))
        invariant !continues ==> D.SkipVarint(old(Rest())) == Some(Rest())
        decreases continues, bytesLeft
      {
        ghost var s := Rest();
        var more := Read(b, 1);
        if !more {
          return false;
        }
        assert b[0] == b[..1][0] == s[0];
        continues := b[0] >= 0x80;
      }
      return true;
    }

    /** pb_skip_string */
    method SkipString() returns (ok: bool)
      requires Valid()
      modifies this
      ensures Valid() && End() <= old(End())
      ensures ok == D.TakeDelimited(old(Rest())).Some?
      ensures ok ==> D.TakeDelimited(old(Rest())).value.1 == Rest() && End() == old(End())
    {
      hide Decode32;
      var length;
      ok, length := DecodeVarint32();
      if ok {
        ok := Read(null, length);
      }
    }

    /** pb_decode_tag: a zero reads as the end of the message. */
    method DecodeTag() returns (ok: bool, wireType: nat, tag: nat, eof: bool)
      requires Valid()
      modifies this
      ensures Valid() && End() <= old(End()) && (ok || eof ==> End() == old(End()))
      ensures match D.DecodeTag(old(Rest()))
              case BadTag => !ok && eof == (old(bytesLeft) == 0)
              case Terminator(rest) => !ok && eof && Rest() == rest
              case Tag(t, w, rest) => ok && tag == t && wireType == w && Rest() == rest
    {
      hide Decode32;
      var temp;
      wireType, tag := 0, 0;
      ok, temp, eof := DecodeVarint32Eof();
      if !ok {
        return;
      }
      if temp == 0 {
        eof := true;
        return false, wireType, tag, eof;
      }
      tag, wireType := temp / 8, temp % 8;
    }

    /** pb_skip_field */
    method SkipField(wireType: nat) returns (ok: bool)
      requires Valid()
      modifies this
      ensures Valid() && End() <= old(End())
      ensures ok == D.Skip(wireType, old(Rest())).Some?
      ensures ok ==> D.Skip(wireType, old(Rest())) == Some(Rest()) && End() == old(End())
    {
      hide D.SkipVarint, D.TakeDelimited;
      if wireType == WT_VARINT {
        ok := SkipVarint();
      } else if wireType == WT_64BIT {
        ok := Read(null, 8);
      } else if wireType == WT_STRING {
        ok := SkipString();
      } else if wireType == WT_32BIT {
        ok := Read(null, 4);
      } else {
        ok := false;
      }
    }

    /** pb_make_string_substream: the parent gives up the bytes but does not move over them yet. */
    method MakeStringSubstream() returns (ok: bool, sub: IStream)
      requires Valid()
      modifies this
      ensures Valid() && End() <= old(End())
      ensures ok == D.TakeDelimited(old(Rest())).Some?
      ensures ok ==> fresh(sub) && sub.Valid() && sub.source == source && sub.state == state
      ensures ok ==> sub.Rest() == D.TakeDelimited(old(Rest())).value.0
      ensures ok ==> sub.End() + bytesLeft == old(End()) && sub.bytesLeft < old(bytesLeft)
      ensures ok ==> source[sub.End()..sub.End() + bytesLeft] == D.TakeDelimited(old(Rest())).value.1
    {
      hide Decode32;
      var size;
      ok, size := DecodeVarint32();
      if !ok || bytesLeft < size {
        sub := this;
        return false, sub;
      }
      sub := new IStream(source, state, size);
      bytesLeft := bytesLeft - size;
    }

    /** pb_close_string_substream: whatever the substream did not read is skipped. */
    method CloseStringSubstream(sub: IStream) returns (ok: bool)
      requires sub != this && sub.source == source && sub.Valid() && sub.End() + bytesLeft <= |source|
      modifies this, sub
      ensures Valid() && ok && state == old(sub.End()) && bytesLeft == old(bytesLeft)
    {
      if sub.bytesLeft != 0 {
        ok := sub.Read(null, sub.bytesLeft);
        if !ok {
          return;
        }
      }
      state := sub.state;
      return true;
    }

    /** pb_decode_svarint */
    method DecodeSvarint() returns (ok: bool, dest: int)
      requires Valid()
      modifies this
      ensures Valid() && End() <= old(End())
      ensures ok == Decode(old(Rest())).Some?
      ensures ok ==> -U63 <= dest < U63 && End() == old(End())
      ensures ok ==> var d := Decode(old(Rest())).value; d.0 < U64 && dest == Unzigzag(d.0) && Rest() == d.1
    {
      hide Decode;
      WordSizes();
      var value;
      ok, value := DecodeVarint();
      if !ok {
        return false, 0;
      }
      if value % 2 == 1 {
        dest := AsSigned(Not(value / 2, 64));
      } else {
        dest := AsSigned(value / 2);
      }
    }

    /** pb_decode_fixed32 and pb_decode_fixed64 */
    method DecodeFixed(width: nat) returns (ok: bool, dest: nat)
      requires Valid() && (width == 4 || width == 8)
      modifies this
      ensures Valid() && End() <= old(End())
      ensures ok == D.Take(old(Rest()), width).Some?
      ensures ok ==> dest == FromFixed(D.Take(old(Rest()), width).value.0) && End() == old(End())
      ensures ok ==> Rest() == D.Take(old(Rest()), width).value.1
    {
      hide FromFixed, Word;
      var bytes := new byte[width];
      ok := Read(bytes, width);
      if !ok {
        return false, 0;
      }
      ghost var s := bytes[..];
      assert bytes[..width] == s;
      var low := Word(bytes[0], bytes[1], bytes[2], bytes[3]);
      if width == 4 {
        dest := low;
        FromFixedFour(s);
      } else {
        var high := Word(bytes[4], bytes[5], bytes[6], bytes[7]);
        dest := low + 0x1_0000_0000 * high;
        FromFixedEight(s);
      }
    }

    /** A varint field takes what the varint reader finds, if it fits. */
    static lemma VarintValue(f: Field, s: seq<byte>)
      requires f.kind.VarintKind? || f.kind.UVarintKind? || f.kind.SVarintKind?
      ensures Decode(s).None? ==> D.DecodeValue(f, s, Num(0)).None?
      ensures Decode(s).Some? ==>
                var (u, rest) := Decode(s).value;
                && u < U64
                && D.DecodeValue(f, s, Num(0)) == if D.FromVarint(f, u).Some? then Some((D.FromVarint(f, u).value, rest)) else None
    {
      hide D.FromVarint;
      D.DecodeFromBound(s, 0, 0);
    }

    /** pb_dec_varint: fields of at most 32 bits look at the low 32 bits, to accept negative int32 values. */
    method DecVarint(f: Field) returns (ok: bool, v: Value)
      requires Valid() && FieldOk(f) && f.kind.VarintKind?
      modifies this
      ensures Valid() && End() <= old(End())
      ensures ok == D.DecodeValue(f, old(Rest()), Num(0)).Some?
      ensures ok ==> D.DecodeValue(f, old(Rest()), Num(0)) == Some((v, Rest())) && End() == old(End())
    {
      hide Decode, CastTo, D.DecodeValue;
      VarintValue(f, Rest());
      var value;
      ok, value := DecodeVarint();
      if !ok {
        return false, Num(0);
      }
      var svalue := if f.dataSize == 8 then AsSigned(value) else Cast(value, U32);
      CastFits(svalue, f.dataSize);
      var clamped := CastTo(svalue, f.dataSize);
      v := Num(clamped);
      ok := clamped == svalue;
    }

    /** pb_dec_uvarint */
    method DecUvarint(f: Field) returns (ok: bool, v: Value)
      requires Valid() && FieldOk(f) && f.kind.UVarintKind?
      modifies this
      ensures Valid() && End() <= old(End())
      ensures ok == D.DecodeValue(f, old(Rest()), Num(0)).Some?
      ensures ok ==> D.DecodeValue(f, old(Rest()), Num(0)) == Some((v, Rest())) && End() == old(End())
    {
      hide Decode, D.DecodeValue;
      VarintValue(f, Rest());
      var value;
      ok, value := DecodeVarint();
      if !ok {
        return false, Num(0);
      }
      var clamped := value % Modulus(f.dataSize);
      v := Num(clamped);
      ok := clamped == value;
    }

    /** pb_dec_svarint */
    method DecSvarint(f: Field) returns (ok: bool, v: Value)
      requires Valid() && FieldOk(f) && f.kind.SVarintKind?
      modifies this
      ensures Valid() && End() <= old(End())
      ensures ok == D.DecodeValue(f, old(Rest()), Num(0)).Some?
      ensures ok ==> D.DecodeValue(f, old(Rest()), Num(0)) == Some((v, Rest())) && End() == old(End())
    {
      hide Decode, CastTo, FitsSigned, Unzigzag, D.DecodeValue;
      VarintValue(f, Rest());
      var value;
      ok, value := DecodeSvarint();
      if !ok {
        return false, Num(0);
      }
      CastFits(value, f.dataSize);
      var clamped := CastTo(value, f.dataSize);
      v := Num(clamped);
      ok := clamped == value;
    }

    /** pb_dec_bytes, pb_dec_string and pb_dec_fixed_length_bytes: a length within bounds, then that many bytes. */
    method DecBlob(f: Field) returns (ok: bool, v: Value)
      requires Valid() && FieldOk(f) && (f.kind.BytesKind? || f.kind.StringKind? || f.kind.FixedBytesKind?)
      modifies this
      ensures Valid() && End() <= old(End())
      ensures ok == D.DecodeValue(f, old(Rest()), Num(0)).Some?
      ensures ok ==> D.DecodeValue(f, old(Rest()), Num(0)) == Some((v, Rest())) && End() == old(End())
    {
      hide Decode32;
      var size;
      v := Num(0);
      ok, size := DecodeVarint32();
      if !ok {
        return;
      }
      if f.kind.FixedBytesKind? {
        if size > SIZE_MAX {
          return false, v;
        }
        if size == 0 {
          assert Rest()[..0] == [];
          return true, Blob(seq(f.dataSize, _ => 0));
        }
        if size != f.dataSize {
          return false, v;
        }
      } else {
        if f.kind.BytesKind? && size > SIZE_MAX {
          return false, v;
        }
        var allocSize := size + 1;
        if allocSize > f.dataSize {
          return false, v;
        }
      }
      var dest := new byte[size];
      ok := Read(dest, size);
      assert dest[..size] == dest[..];
      v := Blob(dest[..]);
    }

    /** The decoder function of a field, chosen from PB_DECODERS; dest is what the field holds. */
    method DecodeOne(f: Field, dest: Value) returns (ok: bool, v: Value)
      requires Valid() && FieldOk(f)
      modifies this
      ensures Valid() && End() <= old(End())
      ensures ok == D.DecodeValue(f, old(Rest()), dest).Some?
      ensures ok ==> D.DecodeValue(f, old(Rest()), dest) == Some((v, Rest())) && End() == old(End())
      decreases bytesLeft, 3
    {
      hide FieldOk, D.DecodeMessage, D.FromVarint, D.FromDelimited, D.TakeDelimited, Decode, FromFixed;
      match f.kind {
        case VarintKind => ok, v := DecVarint(f);
        case UVarintKind => ok, v := DecUvarint(f);
        case SVarintKind => ok, v := DecSvarint(f);
        case Fixed32Kind =>
          var n;
          ok, n := DecodeFixed(4);
          v := Num(n);
        case Fixed64Kind =>
          var n;
          ok, n := DecodeFixed(8);
          v := Num(n);
        case SubmessageKind(_) => ok, v := DecSubmessage(f, dest);
        case BytesKind | StringKind | FixedBytesKind => ok, v := DecBlob(f);
      }
    }

    /** pb_dec_submessage: array entries start from the defaults, others are merged into what is there. */
    method DecSubmessage(f: Field, dest: Value) returns (ok: bool, v: Value)
      requires Valid() && FieldOk(f) && f.kind.SubmessageKind?
      modifies this
      ensures Valid() && End() <= old(End())
      ensures ok == D.DecodeValue(f, old(Rest()), dest).Some?
      ensures ok ==> D.DecodeValue(f, old(Rest()), dest) == Some((v, Rest())) && End() == old(End())
      decreases bytesLeft, 2
    {
      hide D.DecodeMessage, D.TakeDelimited, DescriptorOk;
      v := dest;
      var sub;
      ok, sub := MakeStringSubstream();
      if !ok {
        return;
      }
      var fields := f.kind.fields;
      var status, slots;
      if f.rule.Repeated? {
        status, slots := sub.PbDecode(fields);
      } else {
        status, slots := sub.PbDecodeNoinit(fields, D.Target(f, dest));
      }
      ok := CloseStringSubstream(sub);
      v := Msg(slots);
      ok := status;
    }

    /** decode_static_field */
    method DecodeStaticField(fields: seq<Field>, i: nat, wireType: nat, slots: seq<Slot>)
      returns (ok: bool, slots': seq<Slot>)
      requires Valid() && DescriptorOk(fields) && i < |fields| == |slots|
      modifies this
      ensures Valid() && End() <= old(End()) && |slots'| == |fields|
      ensures ok == D.DecodeField(fields, i, wireType, old(Rest()), slots).Some?
      ensures ok ==> D.DecodeField(fields, i, wireType, old(Rest()), slots) == Some((slots', Rest())) && End() == old(End())
      decreases bytesLeft, 4
    {
      hide DescriptorOk, D.DecodeValue, D.DecodePacked, D.TakeDelimited, Home;
      slots' := slots;
      var f, slot := fields[i], slots[Home(fields, i)];
      FieldOfDescriptor(fields, i);
      if f.rule.Repeated? && !slot.Many? {
        return false, slots;
      }
      if f.rule.Repeated? && wireType == WT_STRING && f.kind.Packable() {
        var vs;
        ok, vs := DecodePackedArray(f, slot.vs);
        slots' := slots[i := Many(vs)];
        return;
      }
      if f.rule.Repeated? && |slot.vs| >= f.arraySize {
        return false, slots;
      }
      var v;
      ok, v := DecodeOne(f, D.OldValue(slot));
      slots' := slots[Home(fields, i) := D.Store(f, slot, v)];
    }

    /** The packed case of decode_static_field: entries are appended while there are bytes and room. */
    method DecodePackedArray(f: Field, entries: seq<Value>) returns (ok: bool, vs: seq<Value>)
      requires Valid() && FieldOk(f)
      modifies this
      ensures Valid() && End() <= old(End())
      ensures ok == PackedEntries(f, old(Rest()), entries).Some?
      ensures ok ==> PackedEntries(f, old(Rest()), entries) == Some((vs, Rest())) && End() == old(End())
      decreases bytesLeft, 3
    {
      hide FieldOk, D.DecodeValue, D.TakeDelimited;
      vs := entries;
      var sub;
      ok, sub := MakeStringSubstream();
      if !ok {
        return;
      }
      ghost var payload := sub.Rest();
      var status := true;
      while sub.bytesLeft > 0 && |vs| < f.arraySize && status
        invariant sub.Valid() && sub.End() + bytesLeft <= old(End())
        invariant status ==> sub.End() + bytesLeft == old(End()) && sub.bytesLeft < old(bytesLeft)
        invariant D.DecodePacked(f, payload, entries) == if status then D.DecodePacked(f, sub.Rest(), vs) else None
        decreases status, sub.bytesLeft
        modifies sub
      {
        var v;
        status, v := sub.DecodeOne(f, Num(0));
        if status {
          vs := vs + [v];
        }
      }
      if sub.bytesLeft != 0 {
        return false, vs;
      }
      ok := CloseStringSubstream(sub);
      ok := status;
    }

    /** pb_decode: on a struct set to its defaults. */
    method PbDecode(fields: seq<Field>) returns (ok: bool, slots: seq<Slot>)
      requires Valid() && DescriptorOk(fields)
      modifies this
      ensures Valid() && End() <= old(End()) && |slots| == |fields|
      ensures ok == D.DecodeMessage(fields, old(Rest()), Defaults(fields)).Some?
      ensures ok ==> D.DecodeMessage(fields, old(Rest()), Defaults(fields)) == Some(slots) && End() == old(End())
      decreases bytesLeft, 2
    {
      hide DescriptorOk, D.DecodeMessage;
      slots := SetToDefaults(fields);
      ok, slots := PbDecodeNoinit(fields, slots);
    }

    /** pb_decode_noinit */
    method PbDecodeNoinit(fields: seq<Field>, dest: seq<Slot>) returns (ok: bool, slots: seq<Slot>)
      requires Valid() && DescriptorOk(fields) && |dest| == |fields|
      modifies this
      ensures Valid() && End() <= old(End()) && |slots| == |fields|
      ensures ok == D.DecodeMessage(fields, old(Rest()), dest).Some?
      ensures ok ==> D.DecodeMessage(fields, old(Rest()), dest) == Some(slots) && End() == old(End())
      decreases bytesLeft, 1
    {
      hide DescriptorOk, D.DecodeOne, D.DecodeTag, RequiredSeen, Marks, WordsAgree;
      slots := dest;
      DescriptorTagsOk(fields);
      var fieldsSeen := new nat[2][0, 0];
      var iter := new FieldIter(fields, 0);
      ghost var seen: set<nat> := {};
      ghost var s := Rest();
      NothingMarked(fields);
      assert fieldsSeen[..] == [0, 0];
      var ended := false;
      while bytesLeft > 0 && !ended
        invariant Valid() && End() == old(End()) && |slots| == |fields|
        invariant iter.Valid() && fresh(iter) && iter.start == fields
        invariant Marks(fieldsSeen[..], fields, seen)
        invariant bytesLeft <= old(bytesLeft)
        invariant D.DecodeLoop(fields, s, dest, {})
               == if ended then Some(D.Progress(slots, seen, Rest())) else D.DecodeLoop(fields, Rest(), slots, seen)
        decreases !ended, bytesLeft
        modifies this, iter, fieldsSeen
      {
        var more, wireType, tag, eof := DecodeTag();
        if !more {
          if !eof {
            return false, slots;
          }
          ended := true;
        } else {
          ok, slots, seen := DecodeOneField(iter, fieldsSeen, tag, wireType, slots, seen);
          if !ok {
            return;
          }
        }
      }
      ok := CheckRequired(iter, fieldsSeen);
      WordCheckIsExact(fieldsSeen[..], fields, seen);
    }

    /** One round of the loop of pb_decode_noinit: find the field, note that it was seen, decode or skip it. */
    method DecodeOneField(iter: FieldIter, fieldsSeen: array<nat>, tag: nat, wireType: nat, slots: seq<Slot>,
                          ghost seen: set<nat>)
      returns (ok: bool, slots': seq<Slot>, ghost seen': set<nat>)
      requires Valid() && iter.Valid() && DescriptorOk(iter.start) && |slots| == |iter.start|
      requires fieldsSeen.Length == 2 && Marks(fieldsSeen[..], iter.start, seen)
      modifies this, iter, fieldsSeen
      ensures Valid() && End() <= old(End()) && iter.Valid() && |slots'| == |iter.start|
      ensures ok == D.DecodeOne(iter.start, tag, wireType, old(Rest()), slots, seen).Some?
      ensures ok ==> D.DecodeOne(iter.start, tag, wireType, old(Rest()), slots, seen) == Some(D.Progress(slots', seen', Rest()))
      ensures ok ==> End() == old(End()) && Marks(fieldsSeen[..], iter.start, seen')
      decreases bytesLeft, 5
    {
      hide DescriptorOk, D.DecodeField, D.Skip, Marks, RequiredIndex, Or, Shl, Home;
      slots', seen' := slots, seen;
      var fields := iter.start;
      var found := iter.Find(tag);
      if !found {
        ok := SkipField(wireType);
        return;
      }
      if fields == [] {
        // The terminator reads as a varint field of no size, which no value fits.
        var value;
        ok, value := DecodeVarint();
        return false, slots, seen;
      }
      var i := iter.pos;
      FoundIsTheField(fields, tag, i);
      if iter.Entry().rule.Required? && iter.requiredFieldIndex < MAX_REQUIRED_FIELDS {
        ghost var words := fieldsSeen[..];
        MarkOne(words, fields, seen, i);
        var word, bit := iter.requiredFieldIndex / 32, iter.requiredFieldIndex % 32;
        fieldsSeen[word] := Or(fieldsSeen[word], Shl(1, bit));
        assert fieldsSeen[..] == words[word := Or(words[word], Shl(1, bit))];
      } else {
        MarkNone(fieldsSeen[..], fields, seen, i);
      }
      seen' := if fields[i].rule.Required? then seen + {i} else seen;
      ok, slots' := DecodeStaticField(fields, i, wireType, slots);
    }
  }

  /** A whole packed array: the length, and entries that use up the bytes. */
  function PackedEntries(f: Field, s: seq<byte>, entries: seq<Value>): Option<(seq<Value>, seq<byte>)> {
    match D.TakeDelimited(s)
    case None => None
    case Some((payload, rest)) =>
      match D.DecodePacked(f, payload, entries)
      case None => None
      case Some((vs, left)) => if left != [] then None else Some((vs, rest))
  }

  /** 2 to the number of bits of an integer of this many bytes. */
  function Modulus(size: nat): (m: int)
    ensures m > 0
  {
    if size == 1 then 0x100 else if size == 2 then 0x1_0000 else if size == 4 then U32 else U64
  }

  /** Storing a number in a signed integer of this many bytes. */
  function CastTo(n: int, size: nat): int {
    Cast(n, Modulus(size))
  }

  /** Storing a number and comparing tells whether it fits. */
  lemma CastFits(n: int, size: nat)
    requires size in {1, 2, 4, 8} && -U63 <= n < U63
    ensures CastTo(n, size) == n <==> FitsSigned(n, size)
  {
  }

  /** pb_message_set_to_defaults: field by field, recursively. */
  method SetToDefaults(fields: seq<Field>) returns (slots: seq<Slot>)
    requires DescriptorOk(fields)
    ensures slots == Defaults(fields)
    decreases fields, 1
  {
    hide DescriptorOk, Home;
    DescriptorTagsOk(fields);
    slots := seq(|fields|, _ => Shared);
    var iter := new FieldIter(fields, 0);
    var more := iter.Begin();
    while more
      invariant iter.Valid() && fresh(iter) && iter.start == fields
      invariant more ==> iter.pos < |fields|
      invariant |slots| == |fields|
      invariant forall i | 0 <= i < (if more then iter.pos else |fields|) :: slots[i] == Defaults(fields)[i]
      invariant more ==> forall i | iter.pos <= i < |fields| :: slots[i] == Shared
      decreases more, |fields| - iter.pos
    {
      var i := iter.pos;
      FieldOfDescriptor(fields, i);
      if Home(fields, i) == i {
        var slot := SetFieldToDefault(iter.Entry());
        slots := slots[i := slot];
      }
      assert slots[i] == Defaults(fields)[i] by {
        SharedIsUnion(fields, i);
      }
      more := iter.Next();
    }
  }

  lemma SharedIsUnion(fields: seq<Field>, i: nat)
    requires i < |fields|
    ensures Home(fields, i) != i ==> fields[i].rule.Oneof?
  {
  }

  /** pb_field_set_to_default */
  method SetFieldToDefault(f: Field) returns (slot: Slot)
    requires FieldOk(f)
    ensures slot == DefaultSlot(f, false)
    decreases f, 2
  {
    if f.rule.Repeated? {
      return Many([]);
    }
    if f.rule.Oneof? {
      return Choice(0, Num(0));
    }
    var v;
    if f.kind.SubmessageKind? {
      var inner := SetToDefaults(f.kind.fields);
      v := Msg(inner);
    } else if f.initial.Some? {
      v := f.initial.value;
    } else {
      v := ZeroValue(f);
    }
    slot := if f.rule.Optional? then Maybe(false, v) else Single(v);
  }

  lemma FromFixedFour(s: seq<byte>)
    requires |s| == 4
    ensures FromFixed(s) == Word(s[0], s[1], s[2], s[3])
  {
    FromFixedPrefix(s);
    assert FromFixed(s[4..]) == 0;
  }

  lemma FromFixedPrefix(s: seq<byte>)
    requires |s| >= 4
    ensures FromFixed(s) == Word(s[0], s[1], s[2], s[3]) + 0x1_0000_0000 * FromFixed(s[4..])
  {
    assert s[1..][1..] == s[2..] && s[2..][1..] == s[3..] && s[3..][1..] == s[4..];
    FromFixedStep(s);
    FromFixedStep(s[1..]);
    FromFixedStep(s[2..]);
    FromFixedStep(s[3..]);
  }

  lemma FromFixedStep(s: seq<byte>)
    requires s != []
    ensures var b: int := s[0]; FromFixed(s) == b + 256 * FromFixed(s[1..])
  {
  }

  lemma FromFixedEight(s: seq<byte>)
    requires |s| == 8
    ensures FromFixed(s) == Word(s[0], s[1], s[2], s[3]) + 0x1_0000_0000 * Word(s[4], s[5], s[6], s[7])
  {
    FromFixedPrefix(s);
    FromFixedFour(s[4..]);
  }
}
