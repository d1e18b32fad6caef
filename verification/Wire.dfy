/**
 Big-endian integers and the DTLS handshake fragment header (section 4.2.2 of RFC 6347).
 */
module Wire {
  import opened Bits
  import opened Wrappers

  const HEADER_LENGTH: nat := 12

  /** n as w bytes, most significant first. */
  function BigEndian(n: nat, w: nat): (s: seq<byte>)
    ensures |s| == w
    decreases w
  {
    if w == 0 then [] else BigEndian(n / 256, w - 1) + [n % 256]
  }

  function FromBigEndian(s: seq<byte>): nat {
    if s == [] then 0 else FromBigEndian(s[..|s| - 1]) * 256 + s[|s| - 1]
  }

  lemma {:induction false} FromBigEndianBound(s: seq<byte>)
    ensures FromBigEndian(s) < Pow256(|s|)
  {
    if s != [] {
      FromBigEndianBound(s[..|s| - 1]);
    }
  }

  lemma {:induction false} BigEndianRoundTrip(n: nat, w: nat)
    requires n < Pow256(w)
    ensures FromBigEndian(BigEndian(n, w)) == n
    decreases w
  {
    if w > 0 {
      BigEndianRoundTrip(n / 256, w - 1);
      assert BigEndian(n, w)[..w - 1] == BigEndian(n / 256, w - 1);
    }
  }

  lemma {:induction false} BigEndianInverse(s: seq<byte>)
    ensures BigEndian(FromBigEndian(s), |s|) == s
  {
    if s != [] {
      var front := s[..|s| - 1];
      BigEndianInverse(front);
      assert FromBigEndian(s) / 256 == FromBigEndian(front);
      assert s == front + [s[|s| - 1]];
    }
  }

  /** The most significant byte comes first. */
  lemma {:induction false} BigEndianByte(n: nat, w: nat, i: nat)
    requires i < w
    ensures BigEndian(n, w)[i] == n / Pow256(w - 1 - i) % 256
    decreases w
  {
    if i < w - 1 {
      BigEndianByte(n / 256, w - 1, i);
      DivideTwice(n, 256, Pow256(w - 2 - i));
    } else {
      assert n / 1 == n;
    }
  }

  lemma {:induction false} FromBigEndianConcat(a: seq<byte>, b: seq<byte>)
    ensures FromBigEndian(a + b) == FromBigEndian(a) * Pow256(|b|) + FromBigEndian(b)
    decreases |b|
  {
    if b == [] {
      assert a + b == a;
    } else {
      var front := b[..|b| - 1];
      assert (a + b)[..|a + b| - 1] == a + front;
      FromBigEndianConcat(a, front);
      assert FromBigEndian(a) * Pow256(|front|) * 256 == FromBigEndian(a) * Pow256(|b|);
    }
  }

  datatype Header = Header(msgType: byte, msgLen: nat, msgSeq: nat, fragOff: nat, fragLen: nat) {
    /** Every field fits in the bytes the header gives it. */
    predicate Fits() {
      msgLen < 0x1000000 && msgSeq < 0x10000 && fragOff < 0x1000000 && fragLen < 0x1000000
    }

    function Bytes(): (s: seq<byte>)
      ensures |s| == HEADER_LENGTH
    {
      [msgType] + BigEndian(msgLen, 3) + BigEndian(msgSeq, 2) + BigEndian(fragOff, 3) + BigEndian(fragLen, 3)
    }
  }

  datatype Fragment = Fragment(header: Header, body: seq<byte>) {
    function Bytes(): seq<byte> {
      header.Bytes() + body
    }

    predicate Fits() {
      header.Fits() && |body| == header.fragLen
    }
  }

  function ParseHeader(s: seq<byte>): Header
    requires |s| == HEADER_LENGTH
  {
    Header(s[0], FromBigEndian(s[1..4]), FromBigEndian(s[4..6]), FromBigEndian(s[6..9]), FromBigEndian(s[9..12]))
  }

  /** dtls1_parse_fragment: the first fragment of s and what follows it. */
  function ParseFragment(s: seq<byte>): Option<(Fragment, seq<byte>)> {
    if |s| < HEADER_LENGTH then None
    else
      var h := ParseHeader(s[..HEADER_LENGTH]);
      if |s| - HEADER_LENGTH < h.fragLen then None
      else Some((Fragment(h, s[HEADER_LENGTH..HEADER_LENGTH + h.fragLen]), s[HEADER_LENGTH + h.fragLen..]))
  }

  lemma HeaderRoundTrip(h: Header)
    requires h.Fits()
    ensures ParseHeader(h.Bytes()) == h
  {
    assert Pow256(3) == 0x1000000 && Pow256(2) == 0x10000;
    var s := h.Bytes();
    assert s[1..4] == BigEndian(h.msgLen, 3);
    assert s[4..6] == BigEndian(h.msgSeq, 2);
    assert s[6..9] == BigEndian(h.fragOff, 3);
    assert s[9..12] == BigEndian(h.fragLen, 3);
    BigEndianRoundTrip(h.msgLen, 3);
    BigEndianRoundTrip(h.msgSeq, 2);
    BigEndianRoundTrip(h.fragOff, 3);
    BigEndianRoundTrip(h.fragLen, 3);
  }

  lemma HeaderInverse(s: seq<byte>)
    requires |s| == HEADER_LENGTH
    ensures ParseHeader(s).Bytes() == s && ParseHeader(s).Fits()
  {
    assert Pow256(3) == 0x1000000 && Pow256(2) == 0x10000;
    BigEndianInverse(s[1..4]);
    BigEndianInverse(s[4..6]);
    BigEndianInverse(s[6..9]);
    BigEndianInverse(s[9..12]);
    FromBigEndianBound(s[1..4]);
    FromBigEndianBound(s[4..6]);
    FromBigEndianBound(s[6..9]);
    FromBigEndianBound(s[9..12]);
    assert s == [s[0]] + s[1..4] + s[4..6] + s[6..9] + s[9..12];
  }

  function Two(a: nat, b: nat): nat {
    a * 256 + b
  }

  function Three(a: nat, b: nat, c: nat): nat {
    a * 65536 + b * 256 + c
  }

  /** Type, length, number, offset and length of the fragment, in 1, 3, 2, 3 and 3 bytes. */
  lemma HeaderOnTheWire(h: Header)
    requires h.Fits()
    ensures var s := h.Bytes();
            && s[0] == h.msgType
            && h.msgLen == Three(s[1], s[2], s[3]) && h.msgSeq == Two(s[4], s[5])
            && h.fragOff == Three(s[6], s[7], s[8]) && h.fragLen == Three(s[9], s[10], s[11])
  {
    HeaderRoundTrip(h);
    var s := h.Bytes();
    hide Header.Bytes, BigEndian, FromBigEndian;
    ThreeBytes(s, 1);
    TwoBytes(s, 4);
    ThreeBytes(s, 6);
    ThreeBytes(s, 9);
  }

  lemma TwoBytes(s: seq<byte>, i: nat)
    requires i + 2 <= |s|
    ensures FromBigEndian(s[i..i + 2]) == Two(s[i], s[i + 1])
  {
    var t := s[i..i + 2];
    assert t[..1] == [s[i]] && [s[i]][..0] == [];
    assert FromBigEndian([s[i]]) == s[i];
  }

  lemma ThreeBytes(s: seq<byte>, i: nat)
    requires i + 3 <= |s|
    ensures FromBigEndian(s[i..i + 3]) == Three(s[i], s[i + 1], s[i + 2])
  {
    TwoBytes(s, i);
    assert s[i..i + 3][..2] == s[i..i + 2];
  }

  /** Parsing finds exactly the fragments a writer can put at the front of a record. */
  lemma ParseFragmentExact(s: seq<byte>, f: Fragment, rest: seq<byte>)
    ensures ParseFragment(s) == Some((f, rest)) <==> f.Fits() && s == f.Bytes() + rest
  {
    if f.Fits() && s == f.Bytes() + rest {
      HeaderRoundTrip(f.header);
      assert s[..HEADER_LENGTH] == f.header.Bytes();
      assert s[HEADER_LENGTH..HEADER_LENGTH + |f.body|] == f.body;
      assert s[HEADER_LENGTH + |f.body|..] == rest;
    }
    if ParseFragment(s) == Some((f, rest)) {
      HeaderInverse(s[..HEADER_LENGTH]);
      assert s == s[..HEADER_LENGTH] + f.body + rest;
    }
  }

  /** The handshake fragments packed into one record, one after the other. */
  function Pack(fragments: seq<Fragment>): seq<byte> {
    if fragments == [] then [] else fragments[0].Bytes() + Pack(fragments[1..])
  }
}
