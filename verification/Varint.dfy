/**
 nanopb's integer codecs: base-128 varints, their 32-bit reader with its tolerance for
 sign-extended input, zigzag and little-endian fixed-width integers (pb_encode.c,
 pb_decode.c; Protocol Buffers Encoding).
 */
module Varint {
  import opened Bits
  import opened Wrappers

  const U64: int := 0x1_0000_0000_0000_0000
  const U63: int := 0x8000_0000_0000_0000
  const U32: int := 0x1_0000_0000
  const U31: int := 0x8000_0000

  function Encode(v: nat): (s: seq<byte>)
    ensures |s| >= 1
  {
    if v < 128 then [v] else [v % 128 + 128] + Encode(v / 128)
  }

  /** pb_decode_varint from bit position k on, with the bits below k already read. */
  function DecodeFrom(s: seq<byte>, k: nat, acc: nat): (r: Option<(nat, seq<byte>)>)
    ensures r.Some? ==> |r.value.1| < |s|
    decreases |s|
  {
    if k >= 64 || s == [] then None
    else
      var acc' := Or(acc, Truncate(Shl(s[0] % 128, k), 64));
      if s[0] >= 128 then DecodeFrom(s[1..], k + 7, acc') else Some((acc', s[1..]))
  }

  function Decode(s: seq<byte>): (r: Option<(nat, seq<byte>)>)
    ensures r.Some? ==> |r.value.1| < |s|
  {
    DecodeFrom(s, 0, 0)
  }

  /** The bytes of a varint, as the value splits into groups of seven bits. */
  lemma {:induction false} EncodeLength(v: nat, m: nat)
    ensures m >= 1 ==> (|Encode(v)| <= m <==> v < Pow2(7 * m))
    decreases m
  {
    assert Pow2(7) == 128;
    if m > 1 {
      Pow2Sum(7, 7 * (m - 1));
      if v >= 128 {
        EncodeLength(v / 128, m - 1);
      } else {
        Pow2Monotone(7, 7 * m);
      }
    }
  }

  /** A 64-bit value takes at most ten bytes. */
  lemma EncodeFitsTen(v: nat)
    requires v < U64
    ensures |Encode(v)| <= 10
  {
    EncodeLength(v, 10);
    WordSizes();
  }

  /** Or-ing a group of seven bits in at position k, below the width, is addition. */
  lemma OrGroup(acc: nat, b: nat, k: nat, width: nat)
    requires acc < Pow2(k) && b * Pow2(k) < Pow2(width)
    ensures Or(acc, Truncate(Shl(b, k), width)) == acc + b * Pow2(k)
  {
    hide Or, Truncate, Shl;
    ShlIsProduct(b, k);
    TruncateSmall(Shl(b, k), width);
    OrDisjoint(acc, b, k);
  }

  /** Splitting off the lowest group of a value scaled by a power of two. */
  lemma SplitGroup(v: nat, k: nat)
    ensures v * Pow2(k) == v % 128 * Pow2(k) + v / 128 * Pow2(k + 7)
    ensures v % 128 * Pow2(k) + Pow2(k) <= Pow2(k + 7)
  {
    Pow2Sum(7, k);
    assert Pow2(7) == 128;
    SplitProduct(v / 128, v % 128, Pow2(k));
    assert 128 * (v / 128) + v % 128 == v;
  }

  lemma SplitProduct(q: nat, r: nat, p: nat)
    requires r < 128
    ensures (128 * q + r) * p == r * p + q * (128 * p)
    ensures r * p + p <= 128 * p
  {
    assert (127 - r) * p >= 0;
  }

  lemma HighGroupIsLarge(q: nat, k: nat)
    requires q >= 1
    ensures k >= 64 ==> q * Pow2(k) >= U64
  {
    WordSizes();
    if k >= 64 {
      Pow2Monotone(64, k);
      assert q * Pow2(k) == (q - 1) * Pow2(k) + Pow2(k);
    }
  }

  lemma DecodeStep(b: byte, tail: seq<byte>, k: nat, acc: nat)
    requires k < 64 && acc < Pow2(k) && b % 128 * Pow2(k) < Pow2(64)
    ensures var acc' := acc + b % 128 * Pow2(k);
            DecodeFrom([b] + tail, k, acc) == if b >= 128 then DecodeFrom(tail, k + 7, acc') else Some((acc', tail))
  {
    hide Or, Truncate, Shl, Pow2;
    OrGroup(acc, b % 128, k, 64);
    assert ([b] + tail)[1..] == tail && ([b] + tail)[0] == b;
  }

  /** The low group of a value, and what is left for the groups above it, where they belong. */
  lemma GroupsFit(v: nat, k: nat, acc: nat)
    requires k < 64 && acc < Pow2(k) && acc + v * Pow2(k) < U64
    ensures var low := v % 128 * Pow2(k);
            && low < U64 && acc + low < Pow2(k + 7)
            && acc + low + v / 128 * Pow2(k + 7) == acc + v * Pow2(k) < U64
    ensures v < 128 ==> v % 128 * Pow2(k) == v * Pow2(k)
  {
    hide Pow2;
    SplitGroup(v, k);
    var low, high := v % 128 * Pow2(k), v / 128 * Pow2(k + 7);
    assert acc + low + high < U64 && acc + low < Pow2(k + 7);
  }

  lemma {:induction false} DecodeFromEncode(v: nat, k: nat, acc: nat, rest: seq<byte>)
    requires k < 64 && acc < Pow2(k) && acc + v * Pow2(k) < U64
    ensures DecodeFrom(Encode(v) + rest, k, acc) == Some((acc + v * Pow2(k), rest))
    decreases v
  {
    WordSizes();
    hide DecodeFrom, Pow2;
    GroupsFit(v, k, acc);
    if v < 128 {
      DecodeStep(v, rest, k, acc);
    } else {
      var low: byte := v % 128 + 128;
      var tail := Encode(v / 128) + rest;
      assert Encode(v) + rest == [low] + tail;
      assert low % 128 == v % 128;
      DecodeStep(low, tail, k, acc);
      HighGroupIsLarge(v / 128, k + 7);
      DecodeFromEncode(v / 128, k + 7, acc + v % 128 * Pow2(k), rest);
    }
  }

  /** Every 64-bit value survives, and exactly its own bytes are consumed. */
  lemma DecodeEncode(v: nat, rest: seq<byte>)
    requires v < U64
    ensures Decode(Encode(v) + rest) == Some((v, rest))
  {
    DecodeFromEncode(v, 0, 0, rest);
  }

  // Bytes that no encoder wrote

  /** The number in the low seven bits of these bytes, lowest group first. */
  function Groups(s: seq<byte>): nat {
    if s == [] then 0 else s[0] % 128 + 128 * Groups(s[1..])
  }

  /** A number that starts with the i-th group. */
  function FromGroup(n: nat, i: nat): nat {
    n * Pow2(7 * i)
  }

  /** The tenth group has room for one bit. */
  lemma LastGroup(s: seq<byte>, acc: nat)
    requires acc < Pow2(63) && s != []
    ensures DecodeFrom(s, 63, acc) == if s[0] >= 128 then None else Some(((acc + FromGroup(s[0], 9)) % U64, s[1..]))
  {
    WordSizes();
    hide Or, Shl;
    var b := s[0];
    if b < 128 {
      ShlIsProduct(b, 63);
      ModUnique(b * U63, U64, b / 2, b % 2 * U63);
      OrGroup(acc, b % 2, 63, 64);
      ShlIsProduct(b % 2, 63);
      ModUnique(b % 2 * U63, U64, 0, b % 2 * U63);
      ModUnique(acc + b * U63, U64, b / 2, acc + b % 2 * U63);
    }
  }

  /** A group below the tenth fits as it is. */
  lemma LowGroup(g: nat, i: nat, acc: nat)
    requires i < 9 && acc < Pow2(7 * i) && g < 128
    ensures acc + g * Pow2(7 * i) < Pow2(7 * (i + 1)) <= Pow2(63) < U64
  {
    hide Pow2;
    WordSizes();
    Pow2Sum(7, 7 * i);
    assert 7 + 7 * i == 7 * (i + 1);
    Pow2Monotone(7 * (i + 1), 63);
    SplitProduct(0, g, Pow2(7 * i));
  }

  lemma GroupStep(s: seq<byte>, i: nat, acc: nat)
    requires i < 9 && acc < Pow2(7 * i) && s != []
    ensures var acc' := acc + FromGroup(s[0] % 128, i);
            && acc' < Pow2(7 * (i + 1)) && acc' < U64
            && DecodeFrom(s, 7 * i, acc) == if s[0] >= 128 then DecodeFrom(s[1..], 7 * (i + 1), acc') else Some((acc', s[1..]))
  {
    WordSizes();
    hide DecodeFrom, Pow2;
    assert s == [s[0]] + s[1..];
    LowGroup(s[0] % 128, i, acc);
    DecodeStep(s[0], s[1..], 7 * i, acc);
  }

  lemma GroupsAdd(g: nat, more: nat, i: nat)
    requires g < 128
    ensures FromGroup(g, i) + FromGroup(more, i + 1) == FromGroup(g + 128 * more, i)
  {
    Pow2Sum(7, 7 * i);
    assert Pow2(7) == 128;
    assert 7 + 7 * i == 7 * (i + 1);
    hide Pow2;
    SplitProduct(more, g, Pow2(7 * i));
  }

  lemma GroupsUnfold(s: seq<byte>, k: nat)
    requires k < |s|
    ensures Groups(s[..k + 1]) == s[0] % 128 + 128 * if k == 0 then 0 else Groups(s[1..][..k])
  {
    assert s[..k + 1][1..] == if k == 0 then [] else s[1..][..k];
  }

  lemma {:induction false} DecodeGroups(s: seq<byte>, i: nat, acc: nat, k: nat)
    requires i < 10 && acc < Pow2(7 * i) && k < |s| && s[k] < 128 && forall j | 0 <= j < k :: s[j] >= 128
    ensures DecodeFrom(s, 7 * i, acc)
         == if i + k < 10 then Some(((acc + FromGroup(Groups(s[..k + 1]), i)) % U64, s[k + 1..])) else None
    decreases k
  {
    hide DecodeFrom, Pow2, Groups, FromGroup;
    GroupsUnfold(s, k);
    if i == 9 {
      LastGroup(s, acc);
    } else {
      GroupStep(s, i, acc);
      if k > 0 {
        DecodeGroups(s[1..], i + 1, acc + FromGroup(s[0] % 128, i), k - 1);
        GroupsAdd(s[0] % 128, Groups(s[1..][..k]), i);
        assert s[1..][k..] == s[k + 1..];
      }
    }
  }

  /**
   What the 64-bit reader makes of any bytes: a varint ends with the first byte below 128,
   which must be among the first ten, and stands for its groups of seven bits modulo 2^64.
   */
  lemma DecodeAnything(s: seq<byte>, k: nat)
    requires k < |s| && s[k] < 128 && forall j | 0 <= j < k :: s[j] >= 128
    ensures Decode(s) == if k < 10 then Some((Groups(s[..k + 1]) % U64, s[k + 1..])) else None
  {
    hide DecodeFrom, Groups;
    assert Pow2(7 * 0) == 1;
    DecodeGroups(s, 0, 0, k);
  }

  lemma {:induction false} EndlessIsRefused(s: seq<byte>, k: nat, acc: nat)
    requires forall j | 0 <= j < |s| :: s[j] >= 128
    ensures DecodeFrom(s, k, acc) == None
    decreases |s|
  {
    hide Or, Truncate, Shl;
    if s != [] && k < 64 {
      EndlessIsRefused(s[1..], k + 7, Or(acc, Truncate(Shl(s[0] % 128, k), 64)));
    }
  }

  // The 32-bit reader

  /** The bytes of pb_decode_varint32_eof after the first; k is an 8-bit counter. */
  function Decode32From(s: seq<byte>, k: nat, acc: nat): (r: Option<(nat, seq<byte>)>)
    ensures r.Some? ==> |r.value.1| < |s|
    decreases |s|
  {
    if s == [] then None
    else
      var sign := if k < 63 then 0xff else 0x01;
      var k' := (k + 7) % 256;
      if k >= 32 && s[0] % 128 != 0 && (acc < U31 || s[0] != sign) then None
      else
        var acc' := if k >= 32 then acc else Or(acc, Truncate(Shl(s[0] % 128, k), 32));
        if s[0] >= 128 then Decode32From(s[1..], k', acc')
        else if k' == 35 && s[0] / 16 % 8 != 0 then None
        else Some((acc', s[1..]))
  }

  function Decode32(s: seq<byte>): (r: Option<(nat, seq<byte>)>)
    ensures r.Some? ==> |r.value.1| < |s|
  {
    if s == [] then None
    else if s[0] < 128 then Some((s[0], s[1..]))
    else Decode32From(s[1..], 7, s[0] % 128)
  }

  lemma {:induction false} Decode32FromEncode(v: nat, k: nat, acc: nat, rest: seq<byte>)
    requires k == 7 || k == 14 || k == 21 || k == 28
    requires acc < Pow2(k) && acc + v * Pow2(k) < U32
    ensures Decode32From(Encode(v) + rest, k, acc) == Some((acc + v * Pow2(k), rest))
    decreases v
  {
    hide Or, Truncate, Shl, Decode32From, Encode, Pow2;
    WordSizes();
    SplitGroup(v, k);
    var low := v % 128 * Pow2(k);
    var high := v / 128 * Pow2(k + 7);
    assert low + high == v * Pow2(k);
    OrGroup(acc, v % 128, k, 32);
    if k == 28 {
      TopGroupIsSmall(v, acc);
    }
    if v < 128 {
      Decode32Last(v, k, acc, rest);
    } else {
      Decode32Step(v, k, acc, rest);
      Decode32FromEncode(v / 128, k + 7, acc + low, rest);
    }
  }

  lemma Decode32Last(v: nat, k: nat, acc: nat, rest: seq<byte>)
    requires k < 32 && v < 128 && (k == 28 ==> v < 16)
    ensures Decode32From(Encode(v) + rest, k, acc) == Some((Or(acc, Truncate(Shl(v % 128, k), 32)), rest))
  {
    hide Or, Truncate, Shl;
    assert (Encode(v) + rest)[1..] == rest && (Encode(v) + rest)[0] == v;
  }

  lemma TopGroupIsSmall(v: nat, acc: nat)
    requires acc + v * Pow2(28) < U32
    ensures v < 16
  {
    WordSizes();
  }

  /** Whether the groups of u, from bit k >= 35 on, pass the reader as a sign extension. */
  predicate TailPasses(u: nat, k: nat, high: bool)
    decreases u
  {
    if u < 128 then u == 0 || (high && k >= 63 && u == 1)
    else (u % 128 == 0 || (high && k < 63 && u % 128 == 127)) && TailPasses(u / 128, k + 7, high)
  }

  lemma ShortTailBound(k: nat)
    requires k <= 63
    ensures k >= 57 ==> Pow2(64 - k) <= 128
  {
    WordSizes();
    if k >= 57 {
      Pow2Monotone(64 - k, 7);
    }
  }

  /** A tail of several groups begins low enough for the next one to be in the word. */
  lemma TailIsLow(u: nat, k: nat)
    requires k <= 63 && k % 7 == 0 && 128 <= u < Pow2(64 - k)
    ensures k + 7 <= 63 && u / 128 < Pow2(64 - (k + 7))
  {
    WordSizes();
    ShortTailBound(k);
    Pow2Sum(7, 57 - k);
  }

  lemma {:induction false} Decode32Tail(u: nat, k: nat, acc: nat, rest: seq<byte>)
    requires 35 <= k <= 63 && k % 7 == 0 && u < Pow2(64 - k)
    ensures Decode32From(Encode(u) + rest, k, acc)
         == if TailPasses(u, k, acc >= U31) then Some((acc, rest)) else None
    decreases u
  {
    hide Or, Truncate, Shl, Pow2;
    var s := Encode(u) + rest;
    if u < 128 {
      assert s[1..] == rest;
      LastGroupIsSmall(u, k);
    } else {
      assert s[1..] == Encode(u / 128) + rest;
      TailIsLow(u, k);
      Decode32Tail(u / 128, k + 7, acc, rest);
    }
  }

  lemma LastGroupIsSmall(u: nat, k: nat)
    requires k <= 63 && u < Pow2(64 - k)
    ensures k == 63 ==> u <= 1
  {
  }

  /** Beyond 32 bits the reader accepts only a set top bit above a plausible sign extension. */
  predicate SignExtended(v: nat) {
    TailPasses(v / 0x8_0000_0000, 35, v % U32 >= U31)
  }

  lemma OneByte(v: nat, rest: seq<byte>)
    requires v < 128
    ensures Decode32(Encode(v) + rest) == Some((v, rest))
  {
    assert (Encode(v) + rest)[1..] == rest;
  }

  lemma SeveralBytes(v: nat, rest: seq<byte>)
    requires v >= 128
    ensures Decode32(Encode(v) + rest) == Decode32From(Encode(v / 128) + rest, 7, v % 128)
  {
    hide Decode32From;
    assert (Encode(v) + rest)[1..] == Encode(v / 128) + rest;
  }

  lemma Decode32Step(u: nat, k: nat, acc: nat, rest: seq<byte>)
    requires k < 32 && u >= 128
    ensures Decode32From(Encode(u) + rest, k, acc)
         == Decode32From(Encode(u / 128) + rest, k + 7, Or(acc, Truncate(Shl(u % 128, k), 32)))
  {
    hide Or, Truncate, Shl;
    assert (Encode(u) + rest)[1..] == Encode(u / 128) + rest;
  }

  /** The fifth byte contributes its low four bits. */
  lemma FifthGroup(acc: nat, b: nat)
    requires acc < Pow2(28) && b < 128
    ensures Or(acc, Truncate(Shl(b, 28), 32)) == acc + b % 16 * 0x1000_0000
  {
    hide Or, Shl, Pow2;
    WordSizes();
    ShlIsProduct(b, 28);
    ShlIsProduct(b % 16, 28);
    assert Truncate(b * 0x1000_0000, 32) == b % 16 * 0x1000_0000;
    OrDisjoint(acc, b % 16, 28);
  }

  /** The first four bytes of a long varint read as its low 28 bits. */
  lemma FirstFourBytes(v: nat, rest: seq<byte>)
    requires v >= 0x1000_0000
    ensures Decode32(Encode(v) + rest)
         == Decode32From(Encode(v / 0x1000_0000) + rest, 28, v % 0x1000_0000)
  {
    hide Or, Truncate, Shl, Decode32From, Encode, Pow2;
    SmallPowers();
    FourGroups(v);
    var u1 := v / 128;
    var u2 := u1 / 128;
    var u3 := u2 / 128;
    SeveralBytes(v, rest);
    OrGroup(v % 128, u1 % 128, 7, 32);
    Decode32Step(u1, 7, v % 128, rest);
    var a2 := v % 128 + u1 % 128 * 128;
    OrGroup(a2, u2 % 128, 14, 32);
    Decode32Step(u2, 14, a2, rest);
    var a3 := a2 + u2 % 128 * 0x4000;
    OrGroup(a3, u3 % 128, 21, 32);
    Decode32Step(u3, 21, a3, rest);
  }

  lemma SmallPowers()
    ensures Pow2(7) == 128 && Pow2(14) == 0x4000 && Pow2(21) == 0x20_0000 && Pow2(32) == 0x1_0000_0000
  {
    hide Pow2;
    WordSizes();
    Pow2Sum(7, 7);
    Pow2Sum(7, 14);
  }

  lemma FourGroups(v: nat)
    ensures var u1, u2, u3 := v / 128, v / 128 / 128, v / 128 / 128 / 128;
            && u3 / 128 == v / 0x1000_0000
            && v % 0x1000_0000 == v % 128 + u1 % 128 * 128 + u2 % 128 * 0x4000 + u3 % 128 * 0x20_0000
            && (v >= 0x1000_0000 ==> v >= 128 && u1 >= 128 && u2 >= 128 && u3 >= 128)
  {
  }

  lemma FifthByteLast(u: nat, acc: nat, rest: seq<byte>)
    requires 16 <= u < 128
    ensures Decode32From(Encode(u) + rest, 28, acc) == None
  {
    hide Or, Truncate, Shl;
    assert (Encode(u) + rest)[0] == u;
  }

  lemma Pow28And29()
    ensures Pow2(28) == 0x1000_0000 && Pow2(29) == 0x2000_0000
  {
    WordSizes();
    Pow2Sum(1, 28);
  }

  lemma FifthByte(u: nat, acc: nat, rest: seq<byte>)
    requires acc < 0x1000_0000 && 16 <= u < 0x10_0000_0000
    ensures Decode32From(Encode(u) + rest, 28, acc)
         == if u >= 128 && TailPasses(u / 128, 35, acc + u % 16 * 0x1000_0000 >= U31)
            then Some((acc + u % 16 * 0x1000_0000, rest)) else None
  {
    hide Or, Truncate, Shl, TailPasses, Decode32From, Encode, Pow2;
    Pow28And29();
    if u < 128 {
      FifthByteLast(u, acc, rest);
    } else {
      Decode32Step(u, 28, acc, rest);
      FifthGroup(acc, u % 128);
      assert u % 128 % 16 == u % 16;
      Decode32Tail(u / 128, 35, acc + u % 16 * 0x1000_0000, rest);
    }
  }

  /**
   What pb_decode_varint32 makes of the bytes of any 64-bit value: below 2^32 the value,
   otherwise its low 32 bits if what is above looks like a sign extension, else a failure.
   */
  lemma Decode32Encode(v: nat, rest: seq<byte>)
    requires v < U64
    ensures Decode32(Encode(v) + rest)
         == if v < U32 then Some((v, rest))
            else if v >= 0x8_0000_0000 && SignExtended(v) then Some((v % U32, rest))
            else None
  {
    hide TailPasses, Decode32, Decode32From, Encode, Pow2;
    if v < 128 {
      OneByte(v, rest);
    } else if v < U32 {
      SeveralBytes(v, rest);
      WordSizes();
      Decode32FromEncode(v / 128, 7, v % 128, rest);
    } else {
      FirstFourBytes(v, rest);
      SplitWord(v);
      FifthByte(v / 0x1000_0000, v % 0x1000_0000, rest);
    }
  }

  /** The first four groups, the four bits of the fifth that fit, and what is above them. */
  lemma SplitWord(v: nat)
    ensures v / 0x1000_0000 / 128 == v / 0x8_0000_0000
    ensures v % 0x1000_0000 + v / 0x1000_0000 % 16 * 0x1000_0000 == v % 0x1_0000_0000
    ensures v / 0x1000_0000 >= 128 <==> v >= 0x8_0000_0000
    ensures v / 0x1000_0000 >= 16 <==> v >= 0x1_0000_0000
    ensures v < U64 ==> v / 0x1000_0000 < 0x10_0000_0000
  {
  }

  lemma {:induction false} TailNeedsTopBit(u: nat, k: nat, high: bool)
    requires 35 <= k <= 63 && k % 7 == 0 && 1 <= u < Pow2(63 - k)
    ensures !TailPasses(u, k, high)
    decreases u
  {
    WordSizes();
    if u >= 128 {
      ShortTailBound(k);
      Pow2Monotone(63 - k, 64 - k);
      Pow2Sum(7, 56 - k);
      TailNeedsTopBit(u / 128, k + 7, high);
    }
  }

  /** Values that need between 33 and 63 bits are refused. */
  lemma Decode32Refuses(v: nat, rest: seq<byte>)
    requires U32 <= v < U63
    ensures Decode32(Encode(v) + rest) == None
  {
    hide TailPasses;
    Decode32Encode(v, rest);
    Pow2Sum(28, 35);
    assert Pow2(28) == 0x1000_0000 by {
      WordSizes();
    }
    if v >= 0x8_0000_0000 {
      TailNeedsTopBit(v / 0x8_0000_0000, 35, v % U32 >= U31);
    }
  }

  /** A negative 32-bit number, written with 64 bits, is read as its low 32 bits. */
  lemma Decode32Negative(v: nat, rest: seq<byte>)
    requires U64 - U31 <= v < U64
    ensures Decode32(Encode(v) + rest) == Some((v % U32, rest))
  {
    hide TailPasses, Decode32, Encode;
    Decode32Encode(v, rest);
    AllOnesPass();
    assert v / 0x8_0000_0000 == 0x1fff_ffff;
  }

  lemma AllOnesPass()
    ensures TailPasses(0x1fff_ffff, 35, true)
  {
    assert TailPasses(0xff, 56, true);
    assert TailPasses(0x7fff, 49, true);
    assert TailPasses(0x3f_ffff, 42, true);
  }

  // Any bytes, as long as the 8-bit counter of bits lasts

  /** What the 32-bit reader tolerates as its j-th byte beyond the fifth. */
  predicate Tolerated(b: byte, j: nat, high: bool) {
    b % 128 == 0 || (high && b == if j < 9 then 0xff else 0x01)
  }

  /** What the fifth byte adds. */
  function Fifth(b: nat): nat {
    b % 16 * 0x1000_0000
  }

  lemma {:induction false} Tail32(s: seq<byte>, j: nat, acc: nat, k: nat)
    requires 5 <= j && j + k <= 36 && k < |s| && s[k] < 128 && forall m | 0 <= m < k :: s[m] >= 128
    ensures Decode32From(s, 7 * j, acc)
         == if forall m | 0 <= m <= k :: Tolerated(s[m], j + m, acc >= U31) then Some((acc, s[k + 1..])) else None
    decreases k
  {
    hide Or, Truncate, Shl;
    if !Tolerated(s[0], j, acc >= U31) {
      assert !Tolerated(s[0], j + 0, acc >= U31);
    } else if k > 0 {
      var t := s[1..];
      Tail32(t, j + 1, acc, k - 1);
      assert forall m | 0 < m <= k :: s[m] == t[m - 1];
      assert (forall m | 0 <= m <= k :: Tolerated(s[m], j + m, acc >= U31))
        <==> (forall m | 0 <= m <= k - 1 :: Tolerated(t[m], j + 1 + m, acc >= U31)) by {
        assert forall m | 0 <= m <= k - 1 :: t[m] == s[m + 1] && j + 1 + m == j + (m + 1);
      }
      assert t[k..] == s[k + 1..];
    }
  }

  lemma Fifth32(s: seq<byte>, acc: nat, k: nat)
    requires acc < 0x1000_0000 && k <= 32 && k < |s| && s[k] < 128 && forall m | 0 <= m < k :: s[m] >= 128
    ensures var word := acc + Fifth(s[0]);
            Decode32From(s, 28, acc)
            == if k == 0 then if s[0] < 16 then Some((word, s[1..])) else None
               else if forall m | 1 <= m <= k :: Tolerated(s[m], 4 + m, word >= U31) then Some((word, s[k + 1..])) else None
  {
    hide Or, Truncate, Shl, Pow2, Tolerated;
    Pow28And29();
    FifthGroup(acc, s[0] % 128);
    assert s[0] % 128 % 16 == s[0] % 16;
    if k > 0 {
      var t, word := s[1..], acc + Fifth(s[0]);
      assert Decode32From(s, 28, acc) == Decode32From(t, 35, word);
      hide Decode32From;
      Tail32(t, 5, word, k - 1);
      assert (forall m | 1 <= m <= k :: Tolerated(s[m], 4 + m, word >= U31))
        <==> (forall m | 0 <= m <= k - 1 :: Tolerated(t[m], 5 + m, word >= U31)) by {
        assert forall m | 0 <= m <= k - 1 :: t[m] == s[m + 1] && 5 + m == 4 + (m + 1);
        assert forall m | 1 <= m <= k :: s[m] == t[m - 1] && 4 + m == 5 + (m - 1);
      }
      assert t[k..] == s[k + 1..];
    }
  }

  /** A byte below the fifth adds its group. */
  lemma Low32Step(s: seq<byte>, k: nat, acc: nat)
    requires k + 7 <= 28 && s != []
    ensures var acc' := Or(acc, Truncate(Shl(s[0] % 128, k), 32));
            Decode32From(s, k, acc) == if s[0] >= 128 then Decode32From(s[1..], k + 7, acc') else Some((acc', s[1..]))
  {
    hide Or, Truncate, Shl;
  }

  lemma Low32(s: seq<byte>, i: nat, acc: nat)
    requires 1 <= i < 4 && acc < Pow2(7 * i) && s != []
    ensures var acc' := acc + FromGroup(s[0] % 128, i);
            && acc' < Pow2(7 * (i + 1))
            && Decode32From(s, 7 * i, acc)
               == if s[0] >= 128 then Decode32From(s[1..], 7 * (i + 1), acc') else Some((acc', s[1..]))
  {
    Pow28And29();
    hide Or, Truncate, Shl, Pow2, Decode32From;
    LowGroup(s[0] % 128, i, acc);
    Pow2Monotone(7 * (i + 1), 28);
    Pow2Monotone(28, 32);
    OrGroup(acc, s[0] % 128, 7 * i, 32);
    Low32Step(s, 7 * i, acc);
  }

  lemma NoGroups(i: nat)
    ensures Groups([]) == 0 && FromGroup(0, i) == 0
  {
  }

  /** A varint of at most four bytes, from the i-th byte on. */
  lemma {:induction false} Short32(s: seq<byte>, i: nat, acc: nat, k: nat)
    requires 1 <= i && i + k < 4 && acc < Pow2(7 * i) && k < |s| && s[k] < 128 && forall m | 0 <= m < k :: s[m] >= 128
    ensures Decode32From(s, 7 * i, acc) == Some((acc + FromGroup(Groups(s[..k + 1]), i), s[k + 1..]))
    decreases k
  {
    hide Decode32From, Pow2, Groups, FromGroup;
    Low32(s, i, acc);
    GroupsUnfold(s, k);
    if k > 0 {
      var g, t := s[0] % 128, s[1..];
      Short32(t, i + 1, acc + FromGroup(g, i), k - 1);
      GroupsAdd(g, Groups(t[..k]), i);
      assert t[k..] == s[k + 1..];
    }
  }

  /** The first four bytes of a longer one, from the i-th on. */
  lemma {:induction false} Long32(s: seq<byte>, i: nat, acc: nat)
    requires 1 <= i <= 4 && acc < Pow2(7 * i) && 4 - i <= |s| && forall m | 0 <= m < 4 - i :: s[m] >= 128
    ensures var low := acc + FromGroup(Groups(s[..4 - i]), i);
            low < Pow2(28) && Decode32From(s, 7 * i, acc) == Decode32From(s[4 - i..], 28, low)
    decreases 4 - i
  {
    NoGroups(i);
    hide Decode32From, Pow2, Groups, FromGroup;
    if i < 4 {
      Low32(s, i, acc);
      var g, t := s[0] % 128, s[1..];
      Long32(t, i + 1, acc + FromGroup(g, i));
      FirstOf(s, 3 - i);
      GroupsAdd(g, Groups(t[..3 - i]), i);
      assert t[3 - i..] == s[4 - i..];
    } else {
      assert s[0..] == s && s[..0] == [];
    }
  }

  lemma FirstOf(s: seq<byte>, n: nat)
    requires n < |s|
    ensures Groups(s[..n + 1]) == s[0] % 128 + 128 * Groups(s[1..][..n])
  {
    assert s[..n + 1][1..] == s[1..][..n];
  }

  /**
   What the 32-bit reader makes of any bytes, up to 37 of them: up to four groups count, the
   fifth must fit if it is the last, and otherwise adds its low four bits; whatever follows
   is dropped, as long as it is zero or looks like a sign extension.
   */
  lemma Decode32Anything(s: seq<byte>, k: nat)
    requires k <= 36 && k < |s| && s[k] < 128 && forall j | 0 <= j < k :: s[j] >= 128
    ensures k < 4 ==> Decode32(s) == Some((Groups(s[..k + 1]), s[k + 1..]))
    ensures k >= 4 ==>
              var word := Groups(s[..4]) + Fifth(s[4]);
              Decode32(s)
              == if k == 4 then if s[4] < 16 then Some((word, s[5..])) else None
                 else if forall j | 5 <= j <= k :: Tolerated(s[j], j, s[4] % 16 >= 8) then Some((word, s[k + 1..])) else None
  {
    if k == 0 {
      ShortestVarint(s);
    } else if k < 4 {
      hide Decode32From, Groups, FromGroup;
      assert Pow2(7 * 1) == 128;
      var t := s[1..];
      Short32(t, 1, s[0] % 128, k - 1);
      WholeGroups(Groups(t[..k]));
      GroupsUnfold(s, k);
      assert t[k..] == s[k + 1..];
    } else {
      LongVarint(s, k);
    }
  }

  lemma ShortestVarint(s: seq<byte>)
    requires s != [] && s[0] < 128
    ensures Decode32(s) == Some((Groups(s[..1]), s[1..]))
  {
    assert s[..1][1..] == [];
  }

  lemma LongVarint(s: seq<byte>, k: nat)
    requires 4 <= k <= 36 && k < |s| && s[k] < 128 && forall j | 0 <= j < k :: s[j] >= 128
    ensures var word := Groups(s[..4]) + Fifth(s[4]);
            Decode32(s)
            == if k == 4 then if s[4] < 16 then Some((word, s[5..])) else None
               else if forall j | 5 <= j <= k :: Tolerated(s[j], j, s[4] % 16 >= 8) then Some((word, s[k + 1..])) else None
  {
    LongPrefix(s);
    hide Decode32, Decode32From, Groups, Tolerated;
    var low, u := Groups(s[..4]), s[4..];
    assert u[0] == s[4] && u[1..] == s[5..] && u[k - 3..] == s[k + 1..] && forall m | 0 <= m <= k - 4 :: u[m] == s[4 + m];
    Fifth32(u, low, k - 4);
    assert low + Fifth(s[4]) >= U31 <==> s[4] % 16 >= 8;
    hide Fifth;
    LaterBytes(s, k, s[4] % 16 >= 8);
  }

  lemma LongPrefix(s: seq<byte>)
    requires |s| > 4 && forall j | 0 <= j < 4 :: s[j] >= 128
    ensures Groups(s[..4]) < 0x1000_0000 && Decode32(s) == Decode32From(s[4..], 28, Groups(s[..4]))
  {
    assert Pow2(7 * 1) == 128;
    hide Decode32From, Groups, FromGroup, Pow2;
    var t := s[1..];
    Long32(t, 1, s[0] % 128);
    WholeGroups(Groups(t[..3]));
    FirstOf(s, 3);
    Pow28And29();
    assert t[3..] == s[4..];
  }

  lemma WholeGroups(n: nat)
    ensures FromGroup(n, 1) == 128 * n
  {
    assert Pow2(7 * 1) == 128;
  }

  lemma LaterBytes(s: seq<byte>, k: nat, high: bool)
    requires 4 <= k < |s|
    ensures (forall j | 5 <= j <= k :: Tolerated(s[j], j, high))
       <==> (forall m | 1 <= m <= k - 4 :: Tolerated(s[4..][m], 4 + m, high))
  {
    hide Tolerated;
    assert forall m | 1 <= m <= k - 4 :: s[4..][m] == s[4 + m];
    assert forall j | 5 <= j <= k :: s[j] == s[4..][j - 4] && j == 4 + (j - 4);
  }

  lemma {:induction false} Endless32IsRefused(s: seq<byte>, k: nat, acc: nat)
    requires forall j | 0 <= j < |s| :: s[j] >= 128
    ensures Decode32From(s, k, acc) == None && (k == 7 ==> Decode32(s) == None)
    decreases |s|
  {
    hide Or, Truncate, Shl;
    if s != [] {
      Endless32IsRefused(s[1..], (k + 7) % 256, if k >= 32 then acc else Or(acc, Truncate(Shl(s[0] % 128, k), 32)));
      if k == 7 {
        Endless32IsRefused(s[1..], 7, s[0] % 128);
      }
    }
  }

  // Signed values

  /** A signed 64-bit value as the unsigned word with the same bits. */
  function AsUnsigned(v: int): nat
    requires -U63 <= v < U63
  {
    if v < 0 then v + U64 else v
  }

  function AsSigned(u: nat): int
    requires u < U64
  {
    var x: int := u;
    if x >= U63 then x - U64 else x
  }

  /** pb_encode_svarint before the varint: shift left, complement if negative. */
  function Zigzag(v: int): nat
    requires -U63 <= v < U63
  {
    WordSizes();
    var shifted := Truncate(Shl(AsUnsigned(v), 1), 64);
    if v < 0 then Not(shifted, 64) else shifted
  }

  function Unzigzag(u: nat): int
    requires u < U64
  {
    WordSizes();
    if u % 2 == 1 then AsSigned(Not(u / 2, 64)) else AsSigned(u / 2)
  }

  lemma ZigzagRoundTrip(v: int)
    requires -U63 <= v < U63
    ensures Zigzag(v) < U64 && Unzigzag(Zigzag(v)) == v
  {
    WordSizes();
    assert Shl(AsUnsigned(v), 1) == 2 * AsUnsigned(v);
    if v < 0 {
      assert Truncate(2 * AsUnsigned(v), 64) as int == 2 * v + U64;
    }
  }

  /** Small magnitudes get small codes: 0, -1, 1, -2, 2, ... */
  lemma ZigzagValue(v: int)
    requires -U63 <= v < U63
    ensures Zigzag(v) == if v < 0 then -2 * v - 1 else 2 * v
  {
    WordSizes();
    assert Shl(AsUnsigned(v), 1) == 2 * AsUnsigned(v);
    if v < 0 {
      assert Truncate(2 * AsUnsigned(v), 64) as int == 2 * v + U64;
    }
  }

  // Fixed-width integers

  function Fixed(v: nat, width: nat): (s: seq<byte>)
    ensures |s| == width
    decreases width
  {
    if width == 0 then [] else [v % 256] + Fixed(v / 256, width - 1)
  }

  function FromFixed(s: seq<byte>): nat {
    if s == [] then 0 else s[0] + 256 * FromFixed(s[1..])
  }

  lemma {:induction false} FixedRoundTrip(v: nat, width: nat)
    requires v < Pow256(width)
    ensures FromFixed(Fixed(v, width)) == v
    decreases width
  {
    if width > 0 {
      FixedRoundTrip(v / 256, width - 1);
    }
  }
}
