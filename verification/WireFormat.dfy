/**
 The bytes of the Protocol Buffers wire format, one by one, and the numbers, bytes and
 strings that nanopb's decoder accepts for each kind of field (pb_encode.c, pb_decode.c;
 Protocol Buffers Encoding).
 */
module WireFormat {
  import opened Bits
  import opened Wrappers
  import opened Varint
  import opened Schema
  import opened Encoding
  import opened Decoding
  import opened RoundTrip
  import opened Submessages

  // Bytes

  /** The i-th byte of a varint has the i-th group of seven bits, and its top bit says that more follow. */
  lemma {:induction false} VarintByte(v: nat, i: nat)
    requires i < |Encode(v)|
    ensures Encode(v)[i] == v / Pow2(7 * i) % 128 + if i + 1 < |Encode(v)| then 128 else 0
    decreases i
  {
    if i == 0 {
      assert Pow2(0) == 1 && v / 1 == v;
    } else {
      VarintByte(v / 128, i - 1);
      Pow2Sum(7, 7 * (i - 1));
      assert Pow2(7) == 128;
      DivideTwice(v, 128, Pow2(7 * (i - 1)));
    }
  }

  /** Fixed-width integers are little-endian. */
  lemma {:induction false} FixedByte(v: nat, width: nat, i: nat)
    requires i < width
    ensures Fixed(v, width)[i] == v / Pow256(i) % 256
    decreases i
  {
    if i == 0 {
      assert v / 1 == v;
    } else {
      FixedByte(v / 256, width - 1, i - 1);
      DivideTwice(v, 256, Pow256(i - 1));
    }
  }

  /** A number of this many bits in two's complement. */
  predicate HasBits(n: int, bits: nat)
    requires bits > 0
  {
    var half: int := Pow2(bits - 1);
    -half <= n < half
  }

  /** The numbers a field of this kind can hold, and the bytes they take. */
  lemma NumberOnTheWire(f: Field, n: int)
    requires FieldOk(f) && f.kind.Packable()
    ensures var bits := 8 * f.dataSize;
            EncodeValue(f, Num(n)) ==
              match f.kind
              case VarintKind =>
                if HasBits(n, bits) then Some(Encode(n % U64)) else None
              case UVarintKind => if 0 <= n < Pow2(bits) then Some(Encode(n)) else None
              case SVarintKind =>
                if HasBits(n, bits) then Some(Encode(if n >= 0 then 2 * n else -2 * n - 1)) else None
              case Fixed32Kind => if 0 <= n < Pow2(32) then Some(Fixed(n, 4)) else None
              case _ => if 0 <= n < Pow2(64) then Some(Fixed(n, 8)) else None
  {
    hide Encode, Fixed, Zigzag;
    Sizes();
    if f.kind.SVarintKind? && FitsSigned(n, f.dataSize) {
      ZigzagValue(n);
    }
  }

  lemma Sizes()
    ensures Pow2(7) == 0x80 && Pow2(8) == 0x100 && Pow2(15) == 0x8000 && Pow2(16) == 0x1_0000
    ensures Pow2(31) == U31 && Pow2(32) == U32 && Pow2(63) == U63 && Pow2(64) == U64
  {
    assert Pow2(7) == 0x80;
    Pow2Sum(7, 8);
    Pow2Sum(8, 8);
    Pow2Sum(15, 16);
    Pow2Sum(16, 16);
    Pow2Sum(31, 32);
    Pow2Sum(32, 32);
  }

  /** Key and value: wire type 0 for varints, 5 and 1 for 32 and 64 bits, and 2, with a length, for all else. */
  lemma ValueOnTheWire(f: Field, v: Value)
    ensures var value := EncodeValue(f, v);
            value.Some? ==>
              Tagged(f, v) ==
                match f.kind
                case VarintKind => Some(Encode(f.tag * 8) + value.value)
                case UVarintKind => Some(Encode(f.tag * 8) + value.value)
                case SVarintKind => Some(Encode(f.tag * 8) + value.value)
                case Fixed32Kind => Some(Encode(f.tag * 8 + 5) + value.value)
                case Fixed64Kind => Some(Encode(f.tag * 8 + 1) + value.value)
                case _ => Some(Encode(f.tag * 8 + 2) + value.value)
    ensures v.Blob? && f.kind.BytesKind? ==>
              EncodeValue(f, v) == if |v.bytes| + 1 <= f.dataSize then Some(Encode(|v.bytes|) + v.bytes) else None
    ensures v.Blob? && f.kind.FixedBytesKind? ==>
              EncodeValue(f, v) == if |v.bytes| == f.dataSize then Some(Encode(|v.bytes|) + v.bytes) else None
    ensures v.Msg? && f.kind.SubmessageKind? && |v.slots| == |f.kind.fields| ==>
              var payload := EncodeFields(f.kind.fields, v.slots, 0);
              EncodeValue(f, v) == if payload.Some? then Some(Encode(|payload.value|) + payload.value) else None
  {
    hide Encode;
  }

  /** A string goes up to its first NUL, or to the end of its buffer. */
  lemma StringOnTheWire(f: Field, s: seq<byte>, rest: seq<byte>)
    requires f.kind.StringKind? && forall i | 0 <= i < |s| :: s[i] != 0
    requires if rest == [] then |s| <= f.dataSize else |s| == f.dataSize || (|s| < f.dataSize && rest[0] == 0)
    ensures EncodeValue(f, Blob(s + rest)) == Some(Encode(|s|) + s)
  {
    hide Encode;
    StringEnds(s, rest, f.dataSize);
    assert (s + rest)[..|s|] == s;
  }

  lemma {:induction false} StringEnds(s: seq<byte>, rest: seq<byte>, n: nat)
    requires forall i | 0 <= i < |s| :: s[i] != 0
    requires if rest == [] then |s| <= n else |s| == n || (|s| < n && rest[0] == 0)
    ensures StringLength(s + rest, n) == |s|
    decreases |s|
  {
    if s != [] {
      assert (s + rest)[1..] == s[1..] + rest;
      StringEnds(s[1..], rest, n - 1);
    }
  }

  // What can be written at all

  /** The values a field can hold, by ranges and lengths. */
  ghost predicate Writable(f: Field, v: Value)
    decreases f, 0
  {
    match f.kind
    case VarintKind => v.Num? && f.dataSize > 0 && HasBits(v.n, 8 * f.dataSize)
    case SVarintKind => v.Num? && f.dataSize > 0 && HasBits(v.n, 8 * f.dataSize)
    case UVarintKind => v.Num? && 0 <= v.n < Pow2(8 * f.dataSize)
    case Fixed32Kind => v.Num? && 0 <= v.n < Pow2(32)
    case Fixed64Kind => v.Num? && 0 <= v.n < Pow2(64)
    case BytesKind => v.Blob? && |v.bytes| < f.dataSize
    case StringKind => v.Blob?
    case FixedBytesKind => v.Blob? && |v.bytes| == f.dataSize
    case SubmessageKind(fields) => v.Msg? && |v.slots| == |fields| && AllWritable(fields, v.slots)
  }

  /** What is present is writable, and no array is too long. */
  ghost predicate SlotWritable(f: Field, slot: Slot)
    decreases f, 1
  {
    match f.rule
    case Required => slot.Single? && Writable(f, slot.v)
    case Optional => slot.Maybe? && (slot.has ==> Writable(f, slot.v))
    case Repeated => slot.Many? && |slot.vs| <= f.arraySize && forall k | 0 <= k < |slot.vs| :: Writable(f, slot.vs[k])
    case Oneof => slot.Choice? && (slot.which == f.tag ==> Writable(f, slot.v))
  }

  ghost predicate AllWritable(fields: seq<Field>, slots: seq<Slot>)
    requires |slots| == |fields|
    decreases fields
  {
    forall i | 0 <= i < |fields| :: SlotWritable(fields[i], slots[Home(fields, i)])
  }

  lemma {:induction false} ValueEncodesExactly(f: Field, v: Value)
    requires FieldOk(f)
    ensures EncodeValue(f, v).Some? <==> Writable(f, v)
    decreases f, 0
  {
    hide Encode, Fixed, StringLength;
    if f.kind.SubmessageKind? {
      if v.Msg? && |v.slots| == |f.kind.fields| {
        EncodesExactly(f.kind.fields, v.slots);
      }
    } else if f.kind.Packable() && v.Num? {
      NumberOnTheWire(f, v.n);
    }
  }

  lemma {:induction false} ItemsEncodeExactly(f: Field, vs: seq<Value>)
    requires FieldOk(f)
    ensures EncodeItems(f, vs).Some? <==> forall k | 0 <= k < |vs| :: Writable(f, vs[k])
    ensures EncodePacked(f, vs).Some? <==> forall k | 0 <= k < |vs| :: Writable(f, vs[k])
    decreases f, 2, |vs|
  {
    hide FieldOk, EncodeValue, Key, Writable;
    if vs != [] {
      ValueEncodesExactly(f, vs[0]);
      ItemsEncodeExactly(f, vs[1..]);
      assert vs == [vs[0]] + vs[1..];
    }
  }

  lemma {:induction false} FieldEncodesExactly(f: Field, slot: Slot)
    requires FieldOk(f)
    ensures EncodeField(f, slot).Some? <==> SlotWritable(f, slot)
    decreases f, 3
  {
    hide FieldOk, EncodeValue, Key, Writable, EncodeItems, EncodePacked;
    if f.rule.Repeated? {
      if slot.Many? {
        ItemsEncodeExactly(f, slot.vs);
      }
    } else if !slot.Many? && !slot.Shared? {
      ValueEncodesExactly(f, slot.v);
    }
  }

  lemma {:induction false} RestEncodesExactly(fields: seq<Field>, slots: seq<Slot>, i: nat)
    requires DescriptorOk(fields) && |slots| == |fields| && i <= |fields|
    ensures EncodeFields(fields, slots, i).Some?
       <==> forall j | i <= j < |fields| :: SlotWritable(fields[j], slots[Home(fields, j)])
    decreases fields, |fields| - i
  {
    if i < |fields| {
      FieldOfDescriptor(fields, i);
      hide FieldOk, DescriptorOk, EncodeField, SlotWritable, Home;
      FieldEncodesExactly(fields[i], slots[Home(fields, i)]);
      RestEncodesExactly(fields, slots, i + 1);
    }
  }

  /** Main result: a message is encoded if and only if every value that is present is one its field can hold. */
  lemma {:induction false} EncodesExactly(fields: seq<Field>, slots: seq<Slot>)
    requires DescriptorOk(fields) && |slots| == |fields|
    ensures EncodeFields(fields, slots, 0).Some? <==> AllWritable(fields, slots)
    decreases fields, |fields| + 1
  {
    hide DescriptorOk, EncodeFields, SlotWritable, Home;
    RestEncodesExactly(fields, slots, 0);
  }

  // What the decoder accepts

  /** A signed field looks at 32 bits of a varint, or at 64 if it has eight bytes, and refuses what it cannot hold. */
  lemma SignedAccepted(f: Field, u: nat, tail: seq<byte>, before: Value)
    requires FieldOk(f) && f.kind.VarintKind? && u < U64
    ensures var low: int := u % U32;
            var n: int :=
              if f.dataSize == 8 then if u >= U63 then u - U64 else u
              else if low >= U31 then low - U32 else low;
            DecodeValue(f, Encode(u) + tail, before) == if HasBits(n, 8 * f.dataSize) then Some((Num(n), tail)) else None
  {
    hide Encode, Decode;
    Sizes();
    DecodeEncode(u, tail);
  }

  lemma UnsignedAccepted(f: Field, u: nat, tail: seq<byte>, before: Value)
    requires FieldOk(f) && f.kind.UVarintKind? && u < U64
    ensures DecodeValue(f, Encode(u) + tail, before) == if u < Pow2(8 * f.dataSize) then Some((Num(u), tail)) else None
  {
    hide Encode, Decode;
    Sizes();
    DecodeEncode(u, tail);
  }

  lemma ZigzagAccepted(f: Field, u: nat, tail: seq<byte>, before: Value)
    requires FieldOk(f) && f.kind.SVarintKind? && u < U64
    ensures var n: int := if u % 2 == 0 then u / 2 else -(u / 2) - 1;
            DecodeValue(f, Encode(u) + tail, before) == if HasBits(n, 8 * f.dataSize) then Some((Num(n), tail)) else None
  {
    hide Encode, Decode, Unzigzag;
    Sizes();
    DecodeEncode(u, tail);
    UnzigzagValue(u);
  }

  lemma UnzigzagValue(u: nat)
    requires u < U64
    ensures Unzigzag(u) == if u % 2 == 0 then u / 2 else -(u / 2) - 1
  {
    var n: int := if u % 2 == 0 then u / 2 else -(u / 2) - 1;
    ZigzagValue(n);
    ZigzagRoundTrip(n);
  }

  /** The bytes and strings a field can hold; nothing at all stands for fixed-length bytes that are zero. */
  lemma BlobAccepted(f: Field, p: seq<byte>, tail: seq<byte>, before: Value)
    requires |p| < U32
    ensures var s := Encode(|p|) + p + tail;
            match f.kind
            case BytesKind =>
              DecodeValue(f, s, before) == if |p| <= 255 && |p| < f.dataSize then Some((Blob(p), tail)) else None
            case StringKind => DecodeValue(f, s, before) == if |p| < f.dataSize then Some((Blob(p), tail)) else None
            case FixedBytesKind =>
              DecodeValue(f, s, before) ==
                if p == [] then Some((Blob(seq(f.dataSize, _ => 0)), tail))
                else if |p| == f.dataSize then Some((Blob(p), tail)) else None
            case _ => true
  {
    hide Encode, TakeDelimited;
    TakeDelimitedRoundTrip(p, tail);
  }

  /** A length is taken at its word: as many bytes, or an error if there are fewer. */
  lemma DelimitedTaken(n: nat, s: seq<byte>)
    requires n < U32
    ensures TakeDelimited(Encode(n) + s) == if n <= |s| then Some((s[..n], s[n..])) else None
  {
    hide Decode32, Encode;
    Decode32Encode(n, s);
  }

  /** The wire type of a known field is not checked: it only tells a packed array from a single element. */
  lemma WireTypeIsNotChecked(fields: seq<Field>, i: nat, wireType: nat, s: seq<byte>, slots: seq<Slot>)
    requires i < |fields| == |slots|
    ensures wireType != 2 || !fields[i].rule.Repeated? || !fields[i].kind.Packable() ==>
              DecodeField(fields, i, wireType, s, slots) == DecodeField(fields, i, WireType(fields[i].kind), s, slots)
  {
    hide DecodeValue, TakeDelimited, DecodePacked, Home;
  }

  /** A zero byte where a key should be ends the message, whatever follows. */
  lemma ZeroEndsMessage(fields: seq<Field>, s: seq<byte>, slots: seq<Slot>, seen: set<nat>)
    requires |slots| == |fields|
    ensures DecodeLoop(fields, [0] + s, slots, seen) == Some(Progress(slots, seen, s))
  {
    assert ([0] + s)[1..] == s;
    assert Encode(0) == [0];
    Decode32Encode(0, s);
  }

  // Packed and unpacked arrays

  /** One element of an array under a key of its own, although it could be packed. */
  lemma ElementAccepted(fields: seq<Field>, i: nat, v: Value, tail: seq<byte>, slots: seq<Slot>, seen: set<nat>)
    requires DescriptorOk(fields) && i < |fields| == |slots| && fields[i].rule.Repeated? && fields[i].kind.Packable()
    requires ValueOk(fields[i], v) && slots[i].Many?
    ensures EncodeValue(fields[i], v).Some? && Tagged(fields[i], v).Some?
    ensures DecodeLoop(fields, Tagged(fields[i], v).value + tail, slots, seen) ==
              if |slots[i].vs| >= fields[i].arraySize then None
              else DecodeLoop(fields, tail, slots[i := Many(slots[i].vs + [v])], seen)
  {
    var f := fields[i];
    FieldOfDescriptor(fields, i);
    assert 0 < f.tag <= SIZE_MAX;
    hide DecodeValue, EncodeValue, Home, DecodeTag, Find, DescriptorOk, FieldOk, ValueOk, DecodeOne, DecodeLoop, Tagged;
    NumberRoundTrip(f, v, Num(0), tail);
    var bytes := EncodeValue(f, v).value;
    var s := Tagged(f, v).value + tail;
    TaggedIsKeyed(f, v, bytes, tail);
    LoopStep(fields, s, f.tag, WireType(f.kind), bytes + tail, slots, seen);
    FindOwnTag(fields, i);
    HomeOfOther(fields, i);
    ElementDecoded(fields, i, v, bytes + tail, tail, slots, seen);
  }

  lemma TaggedIsKeyed(f: Field, v: Value, bytes: seq<byte>, tail: seq<byte>)
    requires EncodeValue(f, v) == Some(bytes) && 0 < f.tag <= SIZE_MAX
    ensures Tagged(f, v).Some?
    ensures var s := Tagged(f, v).value + tail;
            s != [] && DecodeTag(s) == Tag(f.tag, WireType(f.kind), bytes + tail)
  {
    hide EncodeValue, Key, DecodeTag;
    var s := Key(f.tag, WireType(f.kind)) + (bytes + tail);
    assert Tagged(f, v).value + tail == s;
    DecodeKey(f.tag, WireType(f.kind), bytes + tail);
    assert s != [] by {
      assert DecodeTag(s).Tag?;
    }
  }

  lemma ElementDecoded(fields: seq<Field>, i: nat, v: Value, s: seq<byte>, tail: seq<byte>, slots: seq<Slot>, seen: set<nat>)
    requires i < |fields| == |slots| && fields[i].rule.Repeated? && fields[i].kind.Packable() && slots[i].Many?
    requires Home(fields, i) == i && DecodeValue(fields[i], s, Num(0)) == Some((v, tail))
    requires Find(fields, fields[i].tag) == Some(i) && |tail| < |s|
    ensures DecodeOne(fields, fields[i].tag, WireType(fields[i].kind), s, slots, seen) ==
              if |slots[i].vs| >= fields[i].arraySize then None
              else Some(Progress(slots[i := Many(slots[i].vs + [v])], seen, tail))
  {
    hide DecodeValue, Home, Find;
  }

  /** What is to be had of an array of numbers: all of them, or an error if there is no room. */
  ghost function WithElements(fields: seq<Field>, i: nat, vs: seq<Value>, tail: seq<byte>, slots: seq<Slot>, seen: set<nat>)
    : Option<Progress>
    requires i < |fields| == |slots| && slots[i].Many?
  {
    if |slots[i].vs| + |vs| > fields[i].arraySize then None
    else DecodeLoop(fields, tail, slots[i := Many(slots[i].vs + vs)], seen)
  }

  lemma {:induction false} UnpackedAccepted(fields: seq<Field>, i: nat, vs: seq<Value>, tail: seq<byte>, slots: seq<Slot>,
                                            seen: set<nat>)
    requires DescriptorOk(fields) && i < |fields| == |slots| && fields[i].rule.Repeated? && fields[i].kind.Packable()
    requires slots[i].Many? && |slots[i].vs| <= fields[i].arraySize && forall k | 0 <= k < |vs| :: ValueOk(fields[i], vs[k])
    ensures EncodeItems(fields[i], vs).Some?
    ensures DecodeLoop(fields, EncodeItems(fields[i], vs).value + tail, slots, seen)
         == WithElements(fields, i, vs, tail, slots, seen)
    decreases |vs|
  {
    var f, had := fields[i], slots[i].vs;
    hide DecodeLoop, DescriptorOk, ValueOk, Tagged, WithElements;
    if vs == [] {
      NoElements(fields, i, tail, slots, seen);
    } else {
      hide EncodeItems;
      var slots' := slots[i := Many(had + [vs[0]])];
      UnpackedAccepted(fields, i, vs[1..], tail, if |had| < f.arraySize then slots' else slots, seen);
      var rest := EncodeItems(f, vs[1..]).value;
      ElementAccepted(fields, i, vs[0], rest + tail, slots, seen);
      ItemsStep(f, vs, tail);
      if |had| < f.arraySize {
        OneThenMore(fields, i, vs, tail, slots, seen);
      } else {
        NoRoom(fields, i, vs, tail, slots, seen);
      }
    }
  }

  lemma ItemsStep(f: Field, vs: seq<Value>, tail: seq<byte>)
    requires vs != [] && Tagged(f, vs[0]).Some? && EncodeItems(f, vs[1..]).Some?
    ensures EncodeItems(f, vs).Some?
    ensures EncodeItems(f, vs).value + tail == Tagged(f, vs[0]).value + (EncodeItems(f, vs[1..]).value + tail)
  {
    hide Tagged;
  }

  lemma NoElements(fields: seq<Field>, i: nat, tail: seq<byte>, slots: seq<Slot>, seen: set<nat>)
    requires i < |fields| == |slots| && slots[i].Many? && |slots[i].vs| <= fields[i].arraySize
    ensures [] + tail == tail && WithElements(fields, i, [], tail, slots, seen) == DecodeLoop(fields, tail, slots, seen)
  {
    hide DecodeLoop;
    assert slots[i].vs + [] == slots[i].vs && slots[i := Many(slots[i].vs)] == slots;
  }

  lemma NoRoom(fields: seq<Field>, i: nat, vs: seq<Value>, tail: seq<byte>, slots: seq<Slot>, seen: set<nat>)
    requires i < |fields| == |slots| && slots[i].Many? && |slots[i].vs| + |vs| > fields[i].arraySize
    ensures WithElements(fields, i, vs, tail, slots, seen) == None
  {
  }

  lemma OneThenMore(fields: seq<Field>, i: nat, vs: seq<Value>, tail: seq<byte>, slots: seq<Slot>, seen: set<nat>)
    requires i < |fields| == |slots| && slots[i].Many? && vs != []
    ensures WithElements(fields, i, vs[1..], tail, slots[i := Many(slots[i].vs + [vs[0]])], seen)
         == WithElements(fields, i, vs, tail, slots, seen)
  {
    hide DecodeLoop;
    var had := slots[i].vs;
    assert had + [vs[0]] + vs[1..] == had + vs;
    assert slots[i := Many(had + [vs[0]])][i := Many(had + vs)] == slots[i := Many(had + vs)];
  }

  /** Elements beyond the room there is are left over. */
  lemma {:induction false} PackedOverflows(f: Field, vs: seq<Value>, had: seq<Value>)
    requires f.kind.Packable() && forall k | 0 <= k < |vs| :: ValueOk(f, vs[k])
    requires |had| <= f.arraySize < |had| + |vs|
    ensures EncodePacked(f, vs).Some?
    ensures var p := DecodePacked(f, EncodePacked(f, vs).value, had); p.Some? && p.value.1 != []
    decreases |vs|
  {
    hide EncodeValue, DecodeValue, ValueOk;
    EncodesPacked(f, vs[1..]);
    NumberRoundTrip(f, vs[0], Num(0), EncodePacked(f, vs[1..]).value);
    var s := EncodePacked(f, vs).value;
    assert s == EncodeValue(f, vs[0]).value + EncodePacked(f, vs[1..]).value;
    assert s != [] by {
      assert DecodeValue(f, s, Num(0)).Some?;
    }
    if |had| < f.arraySize {
      PackedOverflows(f, vs[1..], had + [vs[0]]);
      PackedStep(f, s, vs[0], EncodePacked(f, vs[1..]).value, had);
    }
  }

  lemma {:induction false} EncodesPacked(f: Field, vs: seq<Value>)
    requires f.kind.Packable() && forall k | 0 <= k < |vs| :: ValueOk(f, vs[k])
    ensures EncodePacked(f, vs).Some?
    decreases |vs|
  {
    hide EncodeValue, ValueOk;
    if vs != [] {
      NumberRoundTrip(f, vs[0], Num(0), []);
      EncodesPacked(f, vs[1..]);
    }
  }

  lemma PackedAccepted(fields: seq<Field>, i: nat, vs: seq<Value>, tail: seq<byte>, slots: seq<Slot>, seen: set<nat>)
    requires DescriptorOk(fields) && i < |fields| == |slots| && fields[i].rule.Repeated? && fields[i].kind.Packable()
    requires slots[i].Many? && |slots[i].vs| <= fields[i].arraySize && forall k | 0 <= k < |vs| :: ValueOk(fields[i], vs[k])
    ensures EncodePacked(fields[i], vs).Some?
    ensures var payload := EncodePacked(fields[i], vs).value;
            |payload| < U32 ==>
              DecodeLoop(fields, Occurrence(fields[i].tag, payload) + tail, slots, seen)
              == WithElements(fields, i, vs, tail, slots, seen)
  {
    var f := fields[i];
    EncodesPacked(f, vs);
    var payload := EncodePacked(f, vs).value;
    if |payload| < U32 {
      if |slots[i].vs| + |vs| <= f.arraySize {
        PackedRoundTrip(f, vs, slots[i].vs);
      } else {
        PackedOverflows(f, vs, slots[i].vs);
      }
      hide DescriptorOk, ValueOk, EncodePacked, DecodePacked, DecodeLoop, Occurrence;
      PackedDecoded(fields, i, payload, tail, slots, seen);
    }
  }

  lemma PackedDecoded(fields: seq<Field>, i: nat, payload: seq<byte>, tail: seq<byte>, slots: seq<Slot>, seen: set<nat>)
    requires DescriptorOk(fields) && i < |fields| == |slots| && fields[i].rule.Repeated? && fields[i].kind.Packable()
    requires slots[i].Many? && |payload| < U32 && DecodePacked(fields[i], payload, slots[i].vs).Some?
    ensures var (vs, left) := DecodePacked(fields[i], payload, slots[i].vs).value;
            DecodeLoop(fields, Occurrence(fields[i].tag, payload) + tail, slots, seen)
            == if left == [] then DecodeLoop(fields, tail, slots[i := Many(vs)], seen) else None
  {
    OccurrenceIsFound(fields, i, payload, tail);
    HomeOfOther(fields, i);
    hide DescriptorOk, DecodePacked, TakeDelimited, DecodeTag, Find, Home, Occurrence, Delimited;
    var f, rest := fields[i], Delimited(payload) + tail;
    var (vs, left) := DecodePacked(f, payload, slots[i].vs).value;
    if left == [] {
      assert DecodeOne(fields, f.tag, 2, rest, slots, seen) == Some(Progress(slots[i := Many(vs)], seen, tail));
    } else {
      assert DecodeOne(fields, f.tag, 2, rest, slots, seen) == None;
    }
  }

  /** Main result: an array of numbers decodes alike, packed or element by element, also where there is no room. */
  lemma PackedAndUnpackedAgree(fields: seq<Field>, i: nat, vs: seq<Value>, tail: seq<byte>, slots: seq<Slot>, seen: set<nat>)
    requires DescriptorOk(fields) && i < |fields| == |slots| && fields[i].rule.Repeated? && fields[i].kind.Packable()
    requires slots[i].Many? && |slots[i].vs| <= fields[i].arraySize && forall k | 0 <= k < |vs| :: ValueOk(fields[i], vs[k])
    ensures EncodePacked(fields[i], vs).Some? && EncodeItems(fields[i], vs).Some?
    ensures var payload, items := EncodePacked(fields[i], vs).value, EncodeItems(fields[i], vs).value;
            |payload| < U32 ==>
              DecodeLoop(fields, Occurrence(fields[i].tag, payload) + tail, slots, seen)
              == DecodeLoop(fields, items + tail, slots, seen)
  {
    hide DecodeLoop, WithElements, DescriptorOk, ValueOk, EncodePacked, EncodeItems, Occurrence;
    PackedAccepted(fields, i, vs, tail, slots, seen);
    UnpackedAccepted(fields, i, vs, tail, slots, seen);
  }

  // Absent fields

  /** The default of the descriptor if it has one, and otherwise zero or nothing. */
  ghost predicate IsDefault(f: Field, v: Value) {
    if f.kind.SubmessageKind? then v == Msg(Defaults(f.kind.fields))
    else if f.initial.Some? then v == f.initial.value
    else if f.kind.BytesKind? || f.kind.StringKind? then v == Blob([])
    else if f.kind.FixedBytesKind? then v.Blob? && |v.bytes| == f.dataSize && forall k | 0 <= k < |v.bytes| :: v.bytes[k] == 0
    else v == Num(0)
  }

  /** In a fresh message nothing is present, and where there is a value it is the default. */
  lemma FreshMessage(fields: seq<Field>, i: nat)
    requires i < |fields|
    ensures var f, slot := fields[i], Defaults(fields)[i];
            match f.rule
            case Required => slot.Single? && IsDefault(f, slot.v)
            case Optional => slot.Maybe? && !slot.has && IsDefault(f, slot.v)
            case Repeated => slot == Many([])
            case Oneof => slot == if Home(fields, i) == i then Choice(0, Num(0)) else Shared
  {
    var f := fields[i];
    assert Defaults(fields)[i] == DefaultSlot(f, Home(fields, i) != i);
    assert IsDefault(f, DefaultValue(f));
    HomeOfOther(fields, i);
  }
}
