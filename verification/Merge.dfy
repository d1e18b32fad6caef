/**
 Concatenating encoded messages merges them, and fields a descriptor does not know leave
 no trace: what the decoder makes of a stream depends only on the fields in it.
 */
module Merge {
  import opened Bits
  import opened Wrappers
  import opened Varint
  import opened Schema
  import opened Encoding
  import opened Decoding

  // Reading never looks past what it consumes

  lemma {:induction false} DecodeFromExtends(s: seq<byte>, t: seq<byte>, k: nat, acc: nat)
    requires DecodeFrom(s, k, acc).Some?
    ensures DecodeFrom(s + t, k, acc)
         == Some((DecodeFrom(s, k, acc).value.0, DecodeFrom(s, k, acc).value.1 + t))
    decreases |s|
  {
    hide Or, Truncate, Shl;
    assert (s + t)[1..] == s[1..] + t;
    if s[0] >= 128 {
      DecodeFromExtends(s[1..], t, k + 7, Or(acc, Truncate(Shl(s[0] % 128, k), 64)));
    }
  }

  lemma {:induction false} Decode32FromExtends(s: seq<byte>, t: seq<byte>, k: nat, acc: nat)
    requires Decode32From(s, k, acc).Some?
    ensures Decode32From(s + t, k, acc)
         == Some((Decode32From(s, k, acc).value.0, Decode32From(s, k, acc).value.1 + t))
    decreases |s|
  {
    hide Or, Truncate, Shl;
    assert (s + t)[1..] == s[1..] + t;
    if s[0] >= 128 {
      Decode32FromExtends(s[1..], t, (k + 7) % 256,
                          if k >= 32 then acc else Or(acc, Truncate(Shl(s[0] % 128, k), 32)));
    }
  }

  lemma Decode32Extends(s: seq<byte>, t: seq<byte>)
    requires Decode32(s).Some?
    ensures Decode32(s + t) == Some((Decode32(s).value.0, Decode32(s).value.1 + t))
  {
    hide Decode32From;
    assert (s + t)[1..] == s[1..] + t;
    if s[0] >= 128 {
      Decode32FromExtends(s[1..], t, 7, s[0] % 128);
    }
  }

  lemma {:induction false} SkipVarintExtends(s: seq<byte>, t: seq<byte>)
    requires SkipVarint(s).Some?
    ensures SkipVarint(s + t) == Some(SkipVarint(s).value + t)
    decreases |s|
  {
    assert (s + t)[1..] == s[1..] + t;
    if s[0] >= 128 {
      SkipVarintExtends(s[1..], t);
    }
  }

  lemma TakeExtends(s: seq<byte>, t: seq<byte>, n: nat)
    requires Take(s, n).Some?
    ensures Take(s + t, n) == Some((Take(s, n).value.0, Take(s, n).value.1 + t))
  {
    assert (s + t)[..n] == s[..n] && (s + t)[n..] == s[n..] + t;
  }

  lemma TakeDelimitedExtends(s: seq<byte>, t: seq<byte>)
    requires TakeDelimited(s).Some?
    ensures TakeDelimited(s + t) == Some((TakeDelimited(s).value.0, TakeDelimited(s).value.1 + t))
  {
    hide Decode32, Take;
    Decode32Extends(s, t);
    var (size, rest) := Decode32(s).value;
    TakeExtends(rest, t, size);
  }

  lemma SkipExtends(wireType: nat, s: seq<byte>, t: seq<byte>)
    requires Skip(wireType, s).Some?
    ensures Skip(wireType, s + t) == Some(Skip(wireType, s).value + t)
  {
    hide SkipVarint, Take, TakeDelimited;
    if wireType == WT_VARINT {
      SkipVarintExtends(s, t);
    } else if wireType == WT_64BIT {
      TakeExtends(s, t, 8);
    } else if wireType == WT_STRING {
      TakeDelimitedExtends(s, t);
    } else {
      TakeExtends(s, t, 4);
    }
  }

  lemma DecodeTagExtends(s: seq<byte>, t: seq<byte>)
    requires DecodeTag(s).Tag?
    ensures DecodeTag(s + t) == DecodeTag(s).(rest := DecodeTag(s).rest + t)
  {
    hide Decode32;
    Decode32Extends(s, t);
  }

  lemma DecodeValueExtends(f: Field, s: seq<byte>, before: Value, t: seq<byte>)
    requires DecodeValue(f, s, before).Some?
    ensures DecodeValue(f, s + t, before)
         == Some((DecodeValue(f, s, before).value.0, DecodeValue(f, s, before).value.1 + t))
  {
    hide TakeDelimited, Take, DecodeMessage, FromDelimited, FromVarint, FromFixed;
    if f.kind.VarintKind? || f.kind.UVarintKind? || f.kind.SVarintKind? {
      DecodeFromExtends(s, t, 0, 0);
    } else if f.kind.Fixed32Kind? || f.kind.Fixed64Kind? {
      TakeExtends(s, t, if f.kind.Fixed32Kind? then 4 else 8);
    } else {
      TakeDelimitedExtends(s, t);
    }
  }

  lemma DecodeFieldExtends(fields: seq<Field>, i: nat, wireType: nat, s: seq<byte>, slots: seq<Slot>, t: seq<byte>)
    requires i < |fields| == |slots| && DecodeField(fields, i, wireType, s, slots).Some?
    ensures var r := DecodeField(fields, i, wireType, s, slots).value;
            DecodeField(fields, i, wireType, s + t, slots) == Some((r.0, r.1 + t))
  {
    hide TakeDelimited, DecodePacked, DecodeValue, Home, Store;
    var f, slot := fields[i], slots[Home(fields, i)];
    if f.rule.Repeated? && wireType == WT_STRING && f.kind.Packable() {
      TakeDelimitedExtends(s, t);
    } else {
      DecodeValueExtends(f, s, OldValue(slot), t);
    }
  }

  lemma DecodeOneExtends(fields: seq<Field>, tag: nat, wireType: nat, s: seq<byte>, slots: seq<Slot>, seen: set<nat>,
                         t: seq<byte>)
    requires |slots| == |fields| && DecodeOne(fields, tag, wireType, s, slots, seen).Some?
    ensures var p := DecodeOne(fields, tag, wireType, s, slots, seen).value;
            DecodeOne(fields, tag, wireType, s + t, slots, seen) == Some(p.(rest := p.rest + t))
  {
    hide DecodeField, Skip;
    match Find(fields, tag) {
      case None => SkipExtends(wireType, s, t);
      case Some(i) => DecodeFieldExtends(fields, i, wireType, s, slots, t);
    }
  }

  // Merging

  /** The field loop decodes the whole stream, without meeting a zero key that ends it early. */
  ghost predicate DecodesToEnd(fields: seq<Field>, s: seq<byte>, slots: seq<Slot>, seen: set<nat>)
    requires |slots| == |fields|
    decreases |s|
  {
    s == [] ||
    match DecodeTag(s)
    case Tag(tag, wireType, rest) =>
      (match DecodeOne(fields, tag, wireType, rest, slots, seen)
       case None => false
       case Some(p) => DecodesToEnd(fields, p.rest, p.slots, p.seen))
    case _ => false
  }

  /** After a stream decoded to its end, the loop goes on with whatever follows. */
  lemma {:induction false} LoopContinues(fields: seq<Field>, a: seq<byte>, b: seq<byte>, slots: seq<Slot>, seen: set<nat>)
    requires |slots| == |fields| && DecodesToEnd(fields, a, slots, seen)
    ensures DecodeLoop(fields, a, slots, seen).Some? && DecodeLoop(fields, a, slots, seen).value.rest == []
    ensures var p := DecodeLoop(fields, a, slots, seen).value;
            DecodeLoop(fields, a + b, slots, seen) == DecodeLoop(fields, b, p.slots, p.seen)
    decreases |a|
  {
    hide DecodeOne, DecodeTag;
    if a == [] {
      assert a + b == b;
    } else {
      var Tag(tag, wireType, rest) := DecodeTag(a);
      DecodeTagExtends(a, b);
      DecodeOneExtends(fields, tag, wireType, rest, slots, seen, b);
      var p := DecodeOne(fields, tag, wireType, rest, slots, seen).value;
      LoopContinues(fields, p.rest, b, p.slots, p.seen);
    }
  }

  ghost predicate NothingRequired(fields: seq<Field>) {
    forall i | 0 <= i < |fields| :: !fields[i].rule.Required?
  }

  lemma {:induction false} NothingSeen(fields: seq<Field>, s: seq<byte>, slots: seq<Slot>, seen: set<nat>)
    requires |slots| == |fields| && NothingRequired(fields) && DecodeLoop(fields, s, slots, seen).Some?
    ensures DecodeLoop(fields, s, slots, seen).value.seen == seen
    decreases |s|
  {
    hide DecodeField, Skip, DecodeTag;
    if s != [] && DecodeTag(s).Tag? {
      var Tag(tag, wireType, rest) := DecodeTag(s);
      var p := DecodeOne(fields, tag, wireType, rest, slots, seen).value;
      NothingSeen(fields, p.rest, p.slots, p.seen);
    }
  }

  /**
   Main result: for a descriptor without required fields, decoding two messages one after
   the other into a struct is decoding their concatenation into it.
   */
  lemma ConcatenationIsMerge(fields: seq<Field>, a: seq<byte>, b: seq<byte>, slots: seq<Slot>)
    requires |slots| == |fields| && NothingRequired(fields) && DecodesToEnd(fields, a, slots, {})
    ensures DecodeMessage(fields, a, slots).Some?
    ensures DecodeMessage(fields, a + b, slots) == DecodeMessage(fields, b, DecodeMessage(fields, a, slots).value)
  {
    hide DecodeLoop, DecodesToEnd;
    LoopContinues(fields, a, b, slots, {});
    NothingSeen(fields, a, slots, {});
  }

  /** Required fields seen in the first message need not be repeated in the second. */
  lemma {:induction false} SeenGrows(fields: seq<Field>, s: seq<byte>, slots: seq<Slot>, seen: set<nat>)
    requires |slots| == |fields| && DecodeLoop(fields, s, slots, seen).Some?
    ensures seen <= DecodeLoop(fields, s, slots, seen).value.seen
    decreases |s|
  {
    hide DecodeField, Skip, DecodeTag;
    if s != [] && DecodeTag(s).Tag? {
      var Tag(tag, wireType, rest) := DecodeTag(s);
      var p := DecodeOne(fields, tag, wireType, rest, slots, seen).value;
      SeenGrows(fields, p.rest, p.slots, p.seen);
    }
  }

  // Unknown fields

  /** A well-formed field whose tag the descriptor does not have. */
  ghost predicate UnknownField(fields: seq<Field>, u: seq<byte>) {
    && DecodeTag(u).Tag?
    && (fields == [] ==> DecodeTag(u).tag != 0)
    && (forall i | 0 <= i < |fields| :: fields[i].tag != DecodeTag(u).tag)
    && Skip(DecodeTag(u).wireType, DecodeTag(u).rest) == Some([])
  }

  lemma UnknownFieldIsSkipped(fields: seq<Field>, u: seq<byte>, b: seq<byte>, slots: seq<Slot>, seen: set<nat>)
    requires |slots| == |fields| && UnknownField(fields, u)
    ensures DecodeLoop(fields, u + b, slots, seen) == DecodeLoop(fields, b, slots, seen)
  {
    hide DecodeTag, Skip, DecodeField, Find;
    var Tag(tag, wireType, rest) := DecodeTag(u);
    DecodeTagExtends(u, b);
    SkipExtends(wireType, rest, b);
    assert [] + b == b;
    assert u + b != [] by {
      assert DecodeTag(u + b).Tag?;
    }
    assert DecodeOne(fields, tag, wireType, rest + b, slots, seen) == Some(Progress(slots, seen, b));
  }

  /** Main result: an unknown field inserted between two fields does not change what is decoded. */
  lemma UnknownFieldsAreInvisible(fields: seq<Field>, a: seq<byte>, u: seq<byte>, b: seq<byte>, slots: seq<Slot>)
    requires |slots| == |fields| && DecodesToEnd(fields, a, slots, {}) && UnknownField(fields, u)
    ensures DecodeMessage(fields, a + u + b, slots) == DecodeMessage(fields, a + b, slots)
  {
    hide DecodeLoop, DecodesToEnd, UnknownField;
    LoopContinues(fields, a, u + b, slots, {});
    LoopContinues(fields, a, b, slots, {});
    assert a + u + b == a + (u + b);
    var p := DecodeLoop(fields, a, slots, {}).value;
    UnknownFieldIsSkipped(fields, u, b, p.slots, p.seen);
  }

  /**
   A message type without fields rejects every field numbered zero, which any other message
   type skips: the search for the tag finds the terminator of the empty descriptor.
   */
  lemma ZeroTagNeedsFields(fields: seq<Field>, u: seq<byte>, slots: seq<Slot>)
    requires |slots| == |fields| && u != [] && DescriptorOk(fields)
    requires DecodeTag(u).Tag? && DecodeTag(u).tag == 0 && Skip(DecodeTag(u).wireType, DecodeTag(u).rest) == Some([])
    ensures DecodeLoop(fields, u, slots, {}).Some? <==> fields != []
  {
    hide DecodeTag, Skip, DecodeField;
    if fields != [] {
      assert forall i | 0 <= i < |fields| :: FieldOk(fields[i]);
      assert DecodeOne(fields, 0, DecodeTag(u).wireType, DecodeTag(u).rest, slots, {}) == Some(Progress(slots, {}, []));
    }
  }
}
