/**
 The circular cursor over a descriptor that the encoder and the decoder share, with the
 addresses it computes step by step (pb_common.c), and the bit map of required fields the
 decoder keeps (pb_decode.c).
 */
module FieldCursor {
  import opened Bits
  import opened Wrappers
  import opened Schema
  import Decoding

  /** PB_LAST_FIELD, the entry after the last field. */
  const TERMINATOR: Field := Field(0, VarintKind, Required, 0, 0, 0, 0, None)

  /** The room a field takes in the struct: a static array has data_size for each entry. */
  function Extent(f: Field): nat {
    if f.rule.Repeated? then f.dataSize * f.arraySize else f.dataSize
  }

  /** Where field i starts in the struct; the members of a union start at the same place. */
  function Address(fields: seq<Field>, i: nat): nat
    requires i < |fields|
  {
    if i == 0 then fields[0].dataOffset
    else if Home(fields, i) != i then Address(fields, i - 1)
    else Address(fields, i - 1) + Extent(fields[i - 1]) + fields[i].dataOffset
  }

  /** Where the presence flag, count or union tag of field i is; a union has one, next to its first member. */
  function SizeAddress(fields: seq<Field>, i: nat): int
    requires i < |fields|
  {
    Address(fields, Home(fields, i)) + fields[Home(fields, i)].sizeOffset
  }

  lemma {:induction false} UnionSharesAddress(fields: seq<Field>, i: nat)
    requires i < |fields|
    ensures Address(fields, i) == Address(fields, Home(fields, i))
    decreases i
  {
    if Home(fields, i) != i {
      UnionSharesAddress(fields, i - 1);
    }
  }

  /** Fields do not overlap: if field i is the last of its union (or in none), every later field starts at or behind its end. */
  lemma {:induction false} FieldsAreDisjoint(fields: seq<Field>, i: nat, j: nat)
    requires i < j < |fields| && Home(fields, i + 1) == i + 1
    ensures var f := fields[i];
            Address(fields, i) + (if f.rule.Repeated? then f.dataSize * f.arraySize else f.dataSize) <= Address(fields, j)
    decreases j
  {
    if j > i + 1 {
      FieldsAreDisjoint(fields, i, j - 1);
    }
  }

  /** Each field starts its offset behind the one before it, of which an array has room for all its entries. */
  lemma NextAddress(fields: seq<Field>, i: nat)
    requires i + 1 < |fields|
    ensures Address(fields, 0) == fields[0].dataOffset
    ensures var f, g := fields[i], fields[i + 1];
            Address(fields, i + 1) ==
              if f.rule.Oneof? && g.rule.Oneof? && g.dataOffset == 255 then Address(fields, i)
              else Address(fields, i) + (if f.rule.Repeated? then f.dataSize * f.arraySize else f.dataSize) + g.dataOffset
  {
  }

  ghost predicate TagsOk(fields: seq<Field>) {
    forall i | 0 <= i < |fields| :: fields[i].tag != 0
  }

  lemma DescriptorTagsOk(fields: seq<Field>)
    requires DescriptorOk(fields)
    ensures TagsOk(fields)
  {
    assert forall i | 0 <= i < |fields| :: FieldOk(fields[i]);
  }

  /** pb_field_iter_t */
  class FieldIter {
    const start: seq<Field>
    const destStruct: int
    var pos: nat
    var requiredFieldIndex: nat
    var pData: int
    var pSize: int

    /** The entry at pos. */
    function Entry(): (f: Field)
      reads this
    {
      if pos < |start| then start[pos] else TERMINATOR
    }

    /** Everything the cursor holds is determined by its position, however it got there. */
    ghost predicate Valid()
      reads this
    {
      && TagsOk(start)
      && (if start == [] then pos == 0 else pos < |start|)
      && requiredFieldIndex == RequiredIndex(start, pos)
      && (start != [] ==> pData == destStruct + Address(start, pos) && pSize == destStruct + SizeAddress(start, pos))
    }

    constructor (fields: seq<Field>, dest: int)
      requires TagsOk(fields)
      ensures Valid() && start == fields && destStruct == dest && pos == 0
    {
      start, destStruct, pos, requiredFieldIndex := fields, dest, 0, 0;
      var first := if fields == [] then TERMINATOR else fields[0];
      pData := dest + first.dataOffset;
      pSize := dest + first.dataOffset + first.sizeOffset;
    }

    /** pb_field_iter_begin */
    method Begin() returns (nonEmpty: bool)
      requires TagsOk(start)
      modifies this
      ensures Valid() && pos == 0
      ensures nonEmpty <==> start != []
    {
      pos, requiredFieldIndex := 0, 0;
      pData := destStruct + Entry().dataOffset;
      pSize := pData + Entry().sizeOffset;
      nonEmpty := Entry().tag != 0;
    }

    /** pb_field_iter_next: false when it wraps back to the beginning. */
    method Next() returns (more: bool)
      requires Valid()
      modifies this
      ensures Valid()
      ensures more <==> old(pos) + 1 < |start|
      ensures pos == if more then old(pos) + 1 else 0
    {
      var prev := Entry();
      if prev.tag == 0 {
        return false;
      }
      pos := pos + 1;
      if Entry().tag == 0 {
        var _ := Begin();
        return false;
      }
      if prev.rule.Oneof? && Entry().rule.Oneof? && Entry().dataOffset == SIZE_MAX {
        return true;
      }
      if prev.rule.Required? {
        requiredFieldIndex := requiredFieldIndex + 1;
      }
      pData := pData + Extent(prev) + Entry().dataOffset;
      pSize := pData + Entry().sizeOffset;
      return true;
    }

    /** pb_field_iter_find: one turn around the descriptor, from wherever the cursor stands. */
    method Find(tag: nat) returns (found: bool)
      requires Valid()
      modifies this
      ensures Valid()
      ensures found ==> Entry().tag == tag
      ensures !found ==> pos == old(pos) && forall i | 0 <= i < |start| :: start[i].tag != tag
      ensures found && tag != 0 ==> start != []
      ensures start == [] ==> (found <==> tag == 0)
    {
      var first := pos;
      ghost var wrapped := false;
      found := true;
      while Entry().tag != tag
        invariant Valid()
        invariant first == old(pos) && (start != [] ==> first < |start|)
        invariant if wrapped then pos < first else first <= pos
        invariant forall i | first <= i < (if wrapped then |start| else pos) :: start[i].tag != tag
        invariant wrapped ==> forall i | 0 <= i < pos :: start[i].tag != tag
        decreases if wrapped then first - pos else |start| + first - pos
      {
        var more := Next();
        wrapped := wrapped || !more;
        if pos == first {
          return false;
        }
      }
    }
  }

  /** With every tag used once, what the cursor finds is what searching from the first field finds. */
  lemma FoundIsTheField(fields: seq<Field>, tag: nat, pos: nat)
    requires DescriptorOk(fields)
    requires pos < |fields| && fields[pos].tag == tag
    ensures Decoding.Find(fields, tag) == Some(pos)
  {
  }

  // Presence of the required fields

  const ALL_BITS: int := 0xffff_ffff

  lemma {:induction false} IndexIsMonotone(fields: seq<Field>, i: nat, j: nat)
    requires i < j <= |fields|
    ensures RequiredIndex(fields, i) <= RequiredIndex(fields, j)
    ensures fields[i].rule.Required? ==> RequiredIndex(fields, i) < RequiredIndex(fields, j)
    decreases j
  {
    if i + 1 < j {
      IndexIsMonotone(fields, i, j - 1);
    }
  }

  /** Every index below the count belongs to a required field. */
  lemma {:induction false} NthRequired(fields: seq<Field>, n: nat, k: nat) returns (i: nat)
    requires n <= |fields| && k < RequiredIndex(fields, n)
    ensures i < n && fields[i].rule.Required? && RequiredIndex(fields, i) == k
    decreases n
  {
    if k < RequiredIndex(fields, n - 1) {
      i := NthRequired(fields, n - 1, k);
    } else {
      i := n - 1;
    }
  }

  ghost predicate Marked(fields: seq<Field>, seen: set<nat>, k: nat) {
    exists i | i in seen :: i < |fields| && fields[i].rule.Required? && RequiredIndex(fields, i) == k
  }

  /** Bit k of the two words fields_seen says whether the k-th required field was seen. */
  ghost predicate Marks(words: seq<nat>, fields: seq<Field>, seen: set<nat>) {
    && |words| == 2 && words[0] <= ALL_BITS && words[1] <= ALL_BITS
    && forall k: nat | k < MAX_REQUIRED_FIELDS :: Bit(words[k / 32], k % 32) <==> Marked(fields, seen, k)
  }

  lemma NothingMarked(fields: seq<Field>)
    ensures Marks([0, 0], fields, {})
  {
    forall k: nat | k < MAX_REQUIRED_FIELDS
      ensures !Bit([0, 0][k / 32], k % 32)
    {
      BitOfZero(k % 32);
    }
  }

  lemma MarkOne(words: seq<nat>, fields: seq<Field>, seen: set<nat>, i: nat)
    requires Marks(words, fields, seen) && i < |fields| && fields[i].rule.Required?
    requires RequiredIndex(fields, i) < MAX_REQUIRED_FIELDS
    ensures var w, b := RequiredIndex(fields, i) / 32, RequiredIndex(fields, i) % 32;
            Marks(words[w := Or(words[w], Shl(1, b))], fields, seen + {i})
  {
    hide Or, Shl, Bit, RequiredIndex;
    var r := RequiredIndex(fields, i);
    var w, b := r / 32, r % 32;
    var words' := words[w := Or(words[w], Shl(1, b))];
    WordBound(words[w], b);
    forall k: nat | k < MAX_REQUIRED_FIELDS
      ensures Bit(words'[k / 32], k % 32) <==> Marked(fields, seen + {i}, k)
    {
      BitOr(words[w], Shl(1, b), k % 32);
      BitOfPow2(b, k % 32);
      if Marked(fields, seen + {i}, k) && k != r {
        var j :| j in seen + {i} && j < |fields| && fields[j].rule.Required? && RequiredIndex(fields, j) == k;
        assert j in seen;
      }
    }
  }

  lemma WordBound(word: nat, b: nat)
    requires word <= ALL_BITS && b < 32
    ensures Or(word, Shl(1, b)) <= ALL_BITS
  {
    hide Or, Shl;
    WordSizes();
    ShlIsProduct(1, b);
    Pow2Monotone(b, 31);
    OrBound(word, Shl(1, b), 32);
  }

  /** A field past the 64th leaves the words as they are. */
  lemma MarkNone(words: seq<nat>, fields: seq<Field>, seen: set<nat>, i: nat)
    requires Marks(words, fields, seen) && i < |fields|
    requires fields[i].rule.Required? ==> RequiredIndex(fields, i) >= MAX_REQUIRED_FIELDS
    ensures Marks(words, fields, if fields[i].rule.Required? then seen + {i} else seen)
  {
    hide Bit, RequiredIndex;
    forall k: nat | k < MAX_REQUIRED_FIELDS
      ensures Marked(fields, seen + {i}, k) <==> Marked(fields, seen, k)
    {
      if Marked(fields, seen + {i}, k) {
        var j :| j in seen + {i} && j < |fields| && fields[j].rule.Required? && RequiredIndex(fields, j) == k;
        assert j in seen;
      }
      if Marked(fields, seen, k) {
        var j :| j in seen && j < |fields| && fields[j].rule.Required? && RequiredIndex(fields, j) == k;
        assert j in seen + {i};
      }
    }
  }

  /** The low r bits, as the decoder shifts them out of a full word. */
  lemma LowBits(r: nat)
    requires r <= 32
    ensures ALL_BITS / Pow2(32 - r) == Pow2(r) - 1
  {
    hide Pow2;
    WordSizes();
    Pow2Sum(r, 32 - r);
    ShiftedMask(Pow2(r), Pow2(32 - r));
  }

  lemma ShiftedMask(p: int, q: int)
    requires q > 0 && p * q == ALL_BITS + 1
    ensures ALL_BITS / q == p - 1
  {
    assert q * (p - 1) == p * q - q;
    ModUnique(ALL_BITS, q, p - 1, q - 1);
  }

  /** The number of required fields that are checked. */
  function CheckedCount(fields: seq<Field>): (m: nat)
    ensures m <= MAX_REQUIRED_FIELDS
  {
    var n := RequiredIndex(fields, |fields|);
    if n > MAX_REQUIRED_FIELDS then MAX_REQUIRED_FIELDS else n
  }

  /** Marks below the count are exactly the required fields the check is about. */
  lemma AllMarked(fields: seq<Field>, seen: set<nat>)
    ensures (forall k: nat | k < CheckedCount(fields) :: Marked(fields, seen, k)) <==> RequiredSeen(fields, seen)
  {
    hide RequiredIndex;
    forall i: nat, j: nat | i < j < |fields| && fields[i].rule.Required? && fields[j].rule.Required?
      ensures RequiredIndex(fields, i) != RequiredIndex(fields, j)
    {
      IndexIsMonotone(fields, i, j);
    }
    forall i: nat | i < |fields| && fields[i].rule.Required?
      ensures RequiredIndex(fields, i) < RequiredIndex(fields, |fields|)
    {
      IndexIsMonotone(fields, i, |fields|);
    }
    if RequiredSeen(fields, seen) {
      forall k: nat | k < CheckedCount(fields)
        ensures Marked(fields, seen, k)
      {
        var i := NthRequired(fields, |fields|, k);
        assert i in seen;
      }
    }
    if forall k: nat | k < CheckedCount(fields) :: Marked(fields, seen, k) {
      forall i | 0 <= i < |fields| && fields[i].rule.Required? && RequiredIndex(fields, i) < MAX_REQUIRED_FIELDS
        ensures i in seen
      {
        assert Marked(fields, seen, RequiredIndex(fields, i));
      }
    }
  }

  lemma NoMarkBeyond(fields: seq<Field>, seen: set<nat>, k: nat)
    requires CheckedCount(fields) <= k < MAX_REQUIRED_FIELDS
    ensures !Marked(fields, seen, k)
  {
    hide RequiredIndex;
    forall i: nat | i < |fields| && fields[i].rule.Required?
      ensures RequiredIndex(fields, i) < RequiredIndex(fields, |fields|)
    {
      IndexIsMonotone(fields, i, |fields|);
    }
  }

  /** The comparison by words: m / 32 full words, then the m % 32 low bits of the next. */
  predicate WordsAgree(words: seq<nat>, m: nat)
    requires |words| == 2 && m <= MAX_REQUIRED_FIELDS
  {
    && (forall i | 0 <= i < m / 32 :: words[i] == ALL_BITS)
    && (m % 32 != 0 ==> words[m / 32] == ALL_BITS / Pow2(32 - m % 32))
  }

  ghost predicate MarkedRange(fields: seq<Field>, seen: set<nat>, lo: nat, hi: nat) {
    forall k: nat | lo <= k < hi :: Marked(fields, seen, k)
  }

  /** Comparing a word that has no mark from bit r on with the low r bits tests all of these. */
  lemma WordIsFull(words: seq<nat>, fields: seq<Field>, seen: set<nat>, w: nat, r: nat)
    requires Marks(words, fields, seen) && w < 2 && r <= 32
    requires forall k: nat | 32 * w + r <= k < 32 * w + 32 :: !Marked(fields, seen, k)
    ensures words[w] == Pow2(r) - 1 <==> MarkedRange(fields, seen, 32 * w, 32 * w + r)
  {
    hide Bit, Marked, Pow2;
    if words[w] == Pow2(r) - 1 {
      forall k: nat | 32 * w <= k < 32 * w + r
        ensures Marked(fields, seen, k)
      {
        BitOfMask(r, k % 32);
      }
    }
    if MarkedRange(fields, seen, 32 * w, 32 * w + r) {
      forall b: nat | b < 32
        ensures Bit(words[w], b) == Bit(Pow2(r) - 1, b)
      {
        BitOfMask(r, b);
        var k := 32 * w + b;
        assert k / 32 == w && k % 32 == b;
      }
      WordSizes();
      Pow2Monotone(r, 32);
      SameBits(words[w], Pow2(r) - 1, 32);
    }
  }

  /** Main result: the words agree exactly when each of the first 64 required fields was on the wire. */
  lemma WordCheckIsExact(words: seq<nat>, fields: seq<Field>, seen: set<nat>)
    requires Marks(words, fields, seen)
    ensures WordsAgree(words, CheckedCount(fields)) <==> RequiredSeen(fields, seen)
  {
    hide Bit, Marked, CheckedCount, RequiredSeen, Pow2;
    var m := CheckedCount(fields);
    AllMarked(fields, seen);
    WordSizes();
    if m >= 32 {
      WordIsFull(words, fields, seen, 0, 32);
    }
    if m == 64 {
      WordIsFull(words, fields, seen, 1, 32);
    } else if m % 32 != 0 {
      forall k: nat | m <= k < 64
        ensures !Marked(fields, seen, k)
      {
        NoMarkBeyond(fields, seen, k);
      }
      LowBits(m % 32);
      WordIsFull(words, fields, seen, m / 32, m % 32);
    }
    assert MarkedRange(fields, seen, 0, m) <==> RequiredSeen(fields, seen);
  }

  /**
   The end of pb_decode_noinit: walk the cursor to the last field to count the required
   fields, then compare words.
   */
  method CheckRequired(iter: FieldIter, words: array<nat>) returns (ok: bool)
    requires iter.Valid() && words.Length == 2
    modifies iter
    ensures iter.Valid()
    ensures ok == WordsAgree(words[..], CheckedCount(iter.start))
  {
    var count, last := iter.requiredFieldIndex, iter.Entry();
    var more := iter.Next();
    while more
      invariant iter.Valid()
      invariant more ==> 0 < iter.pos < |iter.start| && last == iter.start[iter.pos - 1]
      invariant more ==> count == RequiredIndex(iter.start, iter.pos - 1)
      invariant !more ==> iter.pos == 0
      invariant !more && iter.start != [] ==>
          last == iter.start[|iter.start| - 1] && count == RequiredIndex(iter.start, |iter.start| - 1)
      invariant iter.start == [] ==> count == 0
      decreases more, |iter.start| - iter.pos
    {
      count, last := iter.requiredFieldIndex, iter.Entry();
      more := iter.Next();
    }
    if last.rule.Required? && iter.Entry().tag != 0 {
      count := count + 1;
    }
    if count > MAX_REQUIRED_FIELDS {
      count := MAX_REQUIRED_FIELDS;
    }
    assert count == CheckedCount(iter.start);
    if count > 0 {
      var i := 0;
      while i < count / 32
        invariant i <= count / 32
        invariant forall k | 0 <= k < i :: words[k] == ALL_BITS
      {
        if words[i] != ALL_BITS {
          assert words[..][i] != ALL_BITS;
          return false;
        }
        i := i + 1;
      }
      if count % 32 != 0 {
        if words[count / 32] != ALL_BITS / Pow2(32 - count % 32) {
          return false;
        }
      }
    }
    return true;
  }
}
