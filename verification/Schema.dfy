/**
 nanopb field descriptors and the messages they describe.  A message is the tree of values
 in a C struct: one slot per field, where the members of a union share the slot of its
 first member (pb.h, pb_common.c, pb_decode.c).
 */
module Schema {
  import opened Bits
  import opened Wrappers

  const SIZE_MAX: nat := 255
  const MAX_REQUIRED_FIELDS: nat := 64

  datatype Kind =
    | VarintKind
    | UVarintKind
    | SVarintKind
    | Fixed32Kind
    | Fixed64Kind
    | BytesKind
    | StringKind
    | SubmessageKind(fields: seq<Field>)
    | FixedBytesKind
  {
    /** The kinds up to PB_LTYPE_LAST_PACKABLE. */
    predicate Packable() {
      VarintKind? || UVarintKind? || SVarintKind? || Fixed32Kind? || Fixed64Kind?
    }
  }

  datatype Rule = Required | Optional | Repeated | Oneof

  /** One entry of a descriptor; initial is the default value, if the descriptor names one. */
  datatype Field = Field(
    tag: nat,
    kind: Kind,
    rule: Rule,
    dataOffset: nat,
    sizeOffset: int,
    dataSize: nat,
    arraySize: nat,
    initial: Option<Value>)

  datatype Value = Num(n: int) | Blob(bytes: seq<byte>) | Msg(slots: seq<Slot>)

  datatype Slot =
    | Single(v: Value)
    | Maybe(has: bool, v: Value)
    | Many(vs: seq<Value>)
    | Choice(which: nat, v: Value)
    | Shared

  /** The slot that holds field i: a union member without an offset of its own shares the previous one. */
  function Home(fields: seq<Field>, i: nat): (h: nat)
    requires i < |fields|
    ensures h <= i
    ensures fields[i].rule.Oneof? ==> fields[h].rule.Oneof?
  {
    if i > 0 && fields[i].rule.Oneof? && fields[i - 1].rule.Oneof? && fields[i].dataOffset == SIZE_MAX
    then Home(fields, i - 1) else i
  }

  lemma {:induction false} HomeIsHome(fields: seq<Field>, i: nat)
    requires i < |fields|
    ensures Home(fields, Home(fields, i)) == Home(fields, i)
    decreases i
  {
    if Home(fields, i) != i {
      HomeIsHome(fields, i - 1);
    }
  }

  // Defaults (pb_field_set_to_default)

  function DefaultValue(f: Field): Value
    decreases f, 0
  {
    if f.kind.SubmessageKind? then Msg(Defaults(f.kind.fields))
    else if f.initial.Some? then f.initial.value
    else ZeroValue(f)
  }

  function ZeroValue(f: Field): Value {
    if f.kind.Packable() then Num(0)
    else if f.kind.FixedBytesKind? then Blob(seq(f.dataSize, _ => 0))
    else Blob([])
  }

  function DefaultSlot(f: Field, shared: bool): Slot
    decreases f, 1
  {
    match f.rule
    case Required => Single(DefaultValue(f))
    case Optional => Maybe(false, DefaultValue(f))
    case Repeated => Many([])
    case Oneof => if shared then Shared else Choice(0, Num(0))
  }

  function Defaults(fields: seq<Field>): (slots: seq<Slot>)
    ensures |slots| == |fields|
    decreases fields
  {
    seq(|fields|, i requires 0 <= i < |fields| => DefaultSlot(fields[i], Home(fields, i) != i))
  }

  // Well-formed descriptors

  predicate FieldOk(f: Field)
    decreases f
  {
    && 0 < f.tag <= SIZE_MAX
    && f.dataSize <= SIZE_MAX && f.arraySize <= SIZE_MAX
    && (f.kind.VarintKind? || f.kind.UVarintKind? || f.kind.SVarintKind? ==> f.dataSize in {1, 2, 4, 8})
    && (f.kind.FixedBytesKind? ==> f.dataSize > 0)
    && (f.kind.SubmessageKind? ==> DescriptorOk(f.kind.fields))
  }

  /** Every field is well formed and no tag occurs twice. */
  predicate DescriptorOk(fields: seq<Field>)
    decreases fields
  {
    && (forall i | 0 <= i < |fields| :: FieldOk(fields[i]))
    && (forall i, j | 0 <= i < j < |fields| :: fields[i].tag != fields[j].tag)
  }

  lemma FieldOfDescriptor(fields: seq<Field>, i: nat)
    requires DescriptorOk(fields) && i < |fields|
    ensures FieldOk(fields[i])
  {
  }

  /** The number of required fields before field i: iter.required_field_index. */
  function RequiredIndex(fields: seq<Field>, i: nat): (n: nat)
    requires i <= |fields|
    ensures n <= i
  {
    if i == 0 then 0
    else RequiredIndex(fields, i - 1) + (if fields[i - 1].rule.Required? then 1 else 0)
  }

  /** The presence check covers the first 64 required fields. */
  predicate RequiredSeen(fields: seq<Field>, seen: set<nat>) {
    forall i | 0 <= i < |fields| && fields[i].rule.Required? && RequiredIndex(fields, i) < MAX_REQUIRED_FIELDS ::
      i in seen
  }
}
