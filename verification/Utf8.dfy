/** The branchless UTF-8 decoder, the loop over code points, and the encoder from UTF-32. */
module Utf8 {
  import opened Options

  type Byte = bv8
  const INVALID_CODE_POINT: bv32 := 0xffff_ffff

  // ----- The decoder -----

  /** The length a lead byte announces, from a table with one entry for every 8 values; 0 for bytes that lead nothing. */
  function LengthTable(b: Byte): (len: nat)
    ensures len <= 4
  {
    var k := b >> 3;
    if k <= 15 then 1 else if k <= 23 then 0 else if k <= 27 then 2 else if k <= 29 then 3 else if k == 30 then 4 else 0
  }

  function Mask(len: nat): bv32 {
    if len == 1 then 0x7f else if len == 2 then 0x1f else if len == 3 then 0x0f else if len == 4 then 0x07 else 0
  }

  function Minimum(len: nat): bv32 {
    if len == 1 then 0 else if len == 2 then 128 else if len == 3 then 2048 else if len == 4 then 65536 else 4194304
  }

  /** The payloads put together as for four bytes, with the bits of unused bytes shifted out. */
  function Compose(len: nat, p0: bv32, p1: bv32, p2: bv32, p3: bv32): bv32 {
    var c := (p0 << 18) | (p1 << 12) | (p2 << 6) | p3;
    if len == 1 then c >> 18 else if len == 2 then c >> 12 else if len == 3 then c >> 6 else c
  }

  /** The code point of a sequence of the given length. */
  function Scalar(len: nat, b0: Byte, b1: Byte, b2: Byte, b3: Byte): bv32 {
    Compose(len, b0 as bv32 & Mask(len), b1 as bv32 & 0x3f, b2 as bv32 & 0x3f, b3 as bv32 & 0x3f)
  }

  /** The error conditions, accumulated in one number; the checks of unused tail bytes are shifted out. */
  function ErrorBits(len: nat, c: bv32, b1: Byte, b2: Byte, b3: Byte): bv32 {
    var canonical: bv32 := if c < Minimum(len) then 1 << 6 else 0;
    var surrogate: bv32 := if c >> 11 == 0x1b then 1 << 7 else 0;
    var range: bv32 := if c > 0x10ffff then 1 << 8 else 0;
    var tails: bv32 := ((b1 as bv32 & 0xc0) >> 2) | ((b2 as bv32 & 0xc0) >> 4) | (b3 as bv32 >> 6);
    var e := (canonical | surrogate | range | tails) ^ 0x2a;
    if len == 1 then e >> 6 else if len == 2 then e >> 4 else if len == 3 then e >> 2 else e
  }

  // ----- Well-formed sequences: section 4 of RFC 3629 -----

  predicate Tail(b: Byte) {
    0x80 <= b <= 0xbf
  }

  /** The length of the well-formed sequence that four bytes begin with, 0 if there is none. */
  function SequenceLength(b0: Byte, b1: Byte, b2: Byte, b3: Byte): (n: nat)
    ensures n <= 4
  {
    if b0 <= 0x7f then 1
    else if 0xc2 <= b0 <= 0xdf && Tail(b1) then 2
    else if b0 == 0xe0 && 0xa0 <= b1 <= 0xbf && Tail(b2) then 3
    else if 0xe1 <= b0 <= 0xec && Tail(b1) && Tail(b2) then 3
    else if b0 == 0xed && 0x80 <= b1 <= 0x9f && Tail(b2) then 3
    else if 0xee <= b0 <= 0xef && Tail(b1) && Tail(b2) then 3
    else if b0 == 0xf0 && 0x90 <= b1 <= 0xbf && Tail(b2) && Tail(b3) then 4
    else if 0xf1 <= b0 <= 0xf3 && Tail(b1) && Tail(b2) && Tail(b3) then 4
    else if b0 == 0xf4 && 0x80 <= b1 <= 0x8f && Tail(b2) && Tail(b3) then 4
    else 0
  }

  // ----- The encoder -----

  /** Lead bytes of two, three and four byte sequences, and tail bytes counted from the last. */
  function Lead2(c: bv32): Byte
    requires c < 0x800
  {
    (0xc0 | (c >> 6)) as bv8
  }

  function Lead3(c: bv32): Byte
    requires c <= 0xffff
  {
    (0xe0 | (c >> 12)) as bv8
  }

  function Lead4(c: bv32): Byte
    requires c <= 0x10ffff
  {
    (0xf0 | (c >> 18)) as bv8
  }

  function Tail0(c: bv32): Byte {
    (0x80 | (c & 0x3f)) as bv8
  }

  function Tail1(c: bv32): Byte {
    (0x80 | ((c & 0xfff) >> 6)) as bv8
  }

  function Tail2(c: bv32): Byte {
    (0x80 | ((c & 0x3ffff) >> 12)) as bv8
  }

  /** The number of bytes of a code point, 0 for surrogates and values out of range. */
  function EncodedLength(c: bv32): (n: nat)
    ensures n <= 4
  {
    if c < 0x80 then 1
    else if c < 0x800 then 2
    else if (c >= 0x800 && c <= 0xd7ff) || (c >= 0xe000 && c <= 0xffff) then 3
    else if c >= 0x10000 && c <= 0x10ffff then 4
    else 0
  }

  /** The bytes of one code point; None where to_utf8::convert fails. */
  function Encode(c: bv32): (r: Option<seq<Byte>>)
    ensures r.Some? <==> EncodedLength(c) > 0
    ensures r.Some? ==> |r.value| == EncodedLength(c)
  {
    match EncodedLength(c)
    case 1 => Some([c as bv8])
    case 2 => Some([Lead2(c), Tail0(c)])
    case 3 => Some([Lead3(c), Tail1(c), Tail0(c)])
    case 4 => Some([Lead4(c), Tail2(c), Tail1(c), Tail0(c)])
    case _ => None
  }

  // ----- What the decoder decides -----

  /** utf8_decode: the bytes to advance, the code point and the error bits. */
  method Decode(b0: Byte, b1: Byte, b2: Byte, b3: Byte) returns (advance: nat, c: bv32, e: bv32)
    ensures e == 0 <==> SequenceLength(b0, b1, b2, b3) > 0
    ensures e == 0 ==> advance == SequenceLength(b0, b1, b2, b3) && c == Scalar(advance, b0, b1, b2, b3)
    ensures e == 0 ==> Encode(c) == Some([b0, b1, b2, b3][..advance])
    ensures 1 <= advance <= 4
  {
    var len := LengthTable(b0);
    advance := len + if len == 0 then 1 else 0;
    c := Scalar(len, b0, b1, b2, b3);
    e := ErrorBits(len, c, b1, b2, b3);
    hide *;
    ErrorMeansMalformed(b0, b1, b2, b3);
    if e == 0 {
      EncodesBack(b0, b1, b2, b3);
    }
  }

  /** The error bits are zero exactly for the sequences of the standard, and then the table has their length. */
  lemma ErrorMeansMalformed(b0: Byte, b1: Byte, b2: Byte, b3: Byte)
    ensures var len := LengthTable(b0);
            var e := ErrorBits(len, Scalar(len, b0, b1, b2, b3), b1, b2, b3);
            (e == 0 <==> SequenceLength(b0, b1, b2, b3) > 0) && (e == 0 ==> len == SequenceLength(b0, b1, b2, b3))
  {
    var len := LengthTable(b0);
    if len == 1 {
    } else if len == 2 {
    } else if len == 3 {
    } else if len == 4 {
    } else {
    }
  }

  lemma EncodesBack(b0: Byte, b1: Byte, b2: Byte, b3: Byte)
    requires SequenceLength(b0, b1, b2, b3) > 0
    ensures var n := SequenceLength(b0, b1, b2, b3);
            n == LengthTable(b0) && Encode(Scalar(n, b0, b1, b2, b3)) == Some([b0, b1, b2, b3][..n])
  {
    var all := [b0, b1, b2, b3];
    assert all[..1] == [b0] && all[..2] == [b0, b1] && all[..3] == [b0, b1, b2] && all[..4] == all;
    ScalarBytes(b0, b1, b2, b3);
    hide Scalar, SequenceLength, EncodedLength, Lead2, Lead3, Lead4, Tail0, Tail1, Tail2, LengthTable;
  }

  lemma ScalarBytes(b0: Byte, b1: Byte, b2: Byte, b3: Byte)
    requires SequenceLength(b0, b1, b2, b3) > 0
    ensures var n := SequenceLength(b0, b1, b2, b3);
            var c := Scalar(n, b0, b1, b2, b3);
            && n == LengthTable(b0) == EncodedLength(c)
            && (n == 1 ==> c < 256 && c as bv8 == b0)
            && (n == 2 ==> c < 0x800 && Lead2(c) == b0 && Tail0(c) == b1)
            && (n == 3 ==> c <= 0xffff && Lead3(c) == b0 && Tail1(c) == b1 && Tail0(c) == b2)
            && (n == 4 ==> c <= 0x10ffff && Lead4(c) == b0 && Tail2(c) == b1 && Tail1(c) == b2 && Tail0(c) == b3)
  {
    hide Scalar, SequenceLength, EncodedLength, Lead2, Lead3, Lead4, Tail0, Tail1, Tail2, LengthTable;
    var n := SequenceLength(b0, b1, b2, b3);
    if n == 1 {
      OneByte(b0, b1, b2, b3);
    } else if n == 2 {
      TwoBytes(b0, b1, b2, b3);
    } else if n == 3 {
      ThreeBytes(b0, b1, b2, b3);
    } else {
      FourBytes(b0, b1, b2, b3);
    }
  }

  lemma OneByte(b0: Byte, b1: Byte, b2: Byte, b3: Byte)
    requires SequenceLength(b0, b1, b2, b3) == 1
    ensures var c := Scalar(1, b0, b1, b2, b3); LengthTable(b0) == EncodedLength(c) == 1 && c < 256 && c as bv8 == b0
  {}

  lemma TwoBytes(b0: Byte, b1: Byte, b2: Byte, b3: Byte)
    requires SequenceLength(b0, b1, b2, b3) == 2
    ensures var c := Scalar(2, b0, b1, b2, b3);
            LengthTable(b0) == EncodedLength(c) == 2 && c < 0x800 && Lead2(c) == b0 && Tail0(c) == b1
  {}

  lemma ThreeBytes(b0: Byte, b1: Byte, b2: Byte, b3: Byte)
    requires SequenceLength(b0, b1, b2, b3) == 3
    ensures var c := Scalar(3, b0, b1, b2, b3);
            && LengthTable(b0) == EncodedLength(c) == 3
            && c <= 0xffff && Lead3(c) == b0 && Tail1(c) == b1 && Tail0(c) == b2
  {}

  lemma FourBytes(b0: Byte, b1: Byte, b2: Byte, b3: Byte)
    requires SequenceLength(b0, b1, b2, b3) == 4
    ensures var c := Scalar(4, b0, b1, b2, b3);
            && LengthTable(b0) == EncodedLength(c) == 4
            && c <= 0x10ffff && Lead4(c) == b0 && Tail2(c) == b1 && Tail1(c) == b2 && Tail0(c) == b3
  {}

  /** The payloads of a sequence of the given length in order, six bits for each byte behind the first: section 3 of RFC 3629. */
  function Assembled(len: nat, p0: bv32, p1: bv32, p2: bv32, p3: bv32): bv32 {
    if len == 1 then p0
    else if len == 2 then (p0 << 6) | p1
    else if len == 3 then (p0 << 12) | (p1 << 6) | p2
    else (p0 << 18) | (p1 << 12) | (p2 << 6) | p3
  }

  /** A lead byte without the bits that announce the length, and another byte without its mark. */
  function LeadBits(len: nat, b: Byte): bv32 {
    b as bv32 - if len == 1 then 0 else if len == 2 then 0xc0 else if len == 3 then 0xe0 else 0xf0
  }

  function TailBits(b: Byte): bv32 {
    b as bv32 - 0x80
  }

  /** The code point of a well-formed sequence. */
  lemma ScalarValue(b0: Byte, b1: Byte, b2: Byte, b3: Byte)
    ensures var n := SequenceLength(b0, b1, b2, b3);
            n > 0 ==> Scalar(n, b0, b1, b2, b3) == Assembled(n, LeadBits(n, b0), TailBits(b1), TailBits(b2), TailBits(b3))
  {
    hide *;
    var n := SequenceLength(b0, b1, b2, b3);
    if n > 0 {
      Payloads(b0, b1, b2, b3);
      var p1, p2, p3 := b1 as bv32 & 0x3f, b2 as bv32 & 0x3f, b3 as bv32 & 0x3f;
      ScalarIs(n, b0, b1, b2, b3);
      ComposeIs(n, LeadBits(n, b0), p1, p2, p3, TailBits(b1), TailBits(b2), TailBits(b3));
    }
  }

  lemma ScalarIs(len: nat, b0: Byte, b1: Byte, b2: Byte, b3: Byte)
    ensures var p1, p2, p3 := b1 as bv32 & 0x3f, b2 as bv32 & 0x3f, b3 as bv32 & 0x3f;
            && Scalar(len, b0, b1, b2, b3) == Compose(len, b0 as bv32 & Mask(len), p1, p2, p3)
            && p1 <= 0x3f && p2 <= 0x3f && p3 <= 0x3f
  {
    hide Compose, Mask;
  }

  lemma Payloads(b0: Byte, b1: Byte, b2: Byte, b3: Byte)
    ensures var n := SequenceLength(b0, b1, b2, b3);
            && (n > 0 ==> b0 as bv32 & Mask(n) == LeadBits(n, b0) && LeadBits(n, b0) <= Mask(n))
            && (n >= 2 ==> b1 as bv32 & 0x3f == TailBits(b1))
            && (n >= 3 ==> b2 as bv32 & 0x3f == TailBits(b2))
            && (n >= 4 ==> b3 as bv32 & 0x3f == TailBits(b3))
  {
    LeadPayloads(b0, b1, b2, b3);
    TailsOf(b0, b1, b2, b3);
    TailMask(b1);
    TailMask(b2);
    TailMask(b3);
    hide *;
  }

  lemma LeadPayloads(b0: Byte, b1: Byte, b2: Byte, b3: Byte)
    ensures var n := SequenceLength(b0, b1, b2, b3);
            n > 0 ==> b0 as bv32 & Mask(n) == LeadBits(n, b0) && LeadBits(n, b0) <= Mask(n)
  {
    LeadMask(b0);
    LeadRange(b0, b1, b2, b3);
    hide *;
  }

  lemma LeadRange(b0: Byte, b1: Byte, b2: Byte, b3: Byte)
    ensures match SequenceLength(b0, b1, b2, b3)
            case 0 => true
            case 1 => b0 <= 0x7f
            case 2 => 0xc0 <= b0 <= 0xdf
            case 3 => 0xe0 <= b0 <= 0xef
            case _ => 0xf0 <= b0 <= 0xf7 && SequenceLength(b0, b1, b2, b3) == 4
  {}

  lemma LeadMask(b: Byte)
    ensures b <= 0x7f ==> b as bv32 & Mask(1) == LeadBits(1, b) && LeadBits(1, b) <= Mask(1)
    ensures 0xc0 <= b <= 0xdf ==> b as bv32 & Mask(2) == LeadBits(2, b) && LeadBits(2, b) <= Mask(2)
    ensures 0xe0 <= b <= 0xef ==> b as bv32 & Mask(3) == LeadBits(3, b) && LeadBits(3, b) <= Mask(3)
    ensures 0xf0 <= b <= 0xf7 ==> b as bv32 & Mask(4) == LeadBits(4, b) && LeadBits(4, b) <= Mask(4)
  {}

  lemma TailsOf(b0: Byte, b1: Byte, b2: Byte, b3: Byte)
    ensures var n := SequenceLength(b0, b1, b2, b3);
            (n >= 2 ==> Tail(b1)) && (n >= 3 ==> Tail(b2)) && (n >= 4 ==> Tail(b3))
  {}

  lemma TailMask(b: Byte)
    ensures Tail(b) ==> b as bv32 & 0x3f == TailBits(b)
  {}

  /** The bits of bytes that are not part of the sequence are shifted out. */
  lemma ComposeIs(n: nat, p0: bv32, p1: bv32, p2: bv32, p3: bv32, q1: bv32, q2: bv32, q3: bv32)
    requires 0 < n <= 4 && (n >= 2 ==> p1 == q1) && (n >= 3 ==> p2 == q2) && (n >= 4 ==> p3 == q3)
    requires p0 <= Mask(n) && p1 <= 0x3f && p2 <= 0x3f && p3 <= 0x3f
    ensures Compose(n, p0, p1, p2, p3) == Assembled(n, p0, q1, q2, q3)
  {
    hide *;
    MaskIs();
    match n {
      case 1 => ComposeOne(p0, p1, p2, p3, q1, q2, q3);
      case 2 => ComposeTwo(p0, p1, p2, p3, q2, q3);
      case 3 => ComposeThree(p0, p1, p2, p3, q3);
      case 4 => ComposeFour(p0, p1, p2, p3);
    }
  }

  lemma MaskIs()
    ensures Mask(1) == 0x7f && Mask(2) == 0x1f && Mask(3) == 0x0f
  {}

  lemma ComposeOne(p0: bv32, p1: bv32, p2: bv32, p3: bv32, q1: bv32, q2: bv32, q3: bv32)
    requires p0 <= 0x7f && p1 <= 0x3f && p2 <= 0x3f && p3 <= 0x3f
    ensures Compose(1, p0, p1, p2, p3) == Assembled(1, p0, q1, q2, q3)
  {}

  lemma ComposeTwo(p0: bv32, p1: bv32, p2: bv32, p3: bv32, q2: bv32, q3: bv32)
    requires p0 <= 0x1f && p1 <= 0x3f && p2 <= 0x3f && p3 <= 0x3f
    ensures Compose(2, p0, p1, p2, p3) == Assembled(2, p0, p1, q2, q3)
  {}

  lemma ComposeThree(p0: bv32, p1: bv32, p2: bv32, p3: bv32, q3: bv32)
    requires p0 <= 0x0f && p1 <= 0x3f && p2 <= 0x3f && p3 <= 0x3f
    ensures Compose(3, p0, p1, p2, p3) == Assembled(3, p0, p1, p2, q3)
  {}

  lemma ComposeFour(p0: bv32, p1: bv32, p2: bv32, p3: bv32)
    ensures Compose(4, p0, p1, p2, p3) == Assembled(4, p0, p1, p2, p3)
  {}

  /** Every code point that can be encoded is decoded back: its bytes are well formed, whatever follows them. */
  lemma DecodesBack(c: bv32, more: seq<Byte>)
    requires Encode(c).Some? && |more| == 3
    ensures var s := Encode(c).value + more;
            && SequenceLength(s[0], s[1], s[2], s[3]) == |Encode(c).value|
            && Scalar(|Encode(c).value|, s[0], s[1], s[2], s[3]) == c
  {
    var m0, m1, m2 := more[0], more[1], more[2];
    if EncodedLength(c) == 1 {
      DecodesOne(c, m0, m1, m2);
    } else if EncodedLength(c) == 2 {
      DecodesTwo(c, m0, m1);
    } else if EncodedLength(c) == 3 {
      DecodesThree(c, m0);
    } else {
      DecodesFour(c);
    }
    hide Scalar, SequenceLength, EncodedLength, Lead2, Lead3, Lead4, Tail0, Tail1, Tail2;
  }

  lemma DecodesOne(c: bv32, m0: Byte, m1: Byte, m2: Byte)
    requires EncodedLength(c) == 1
    ensures SequenceLength(c as bv8, m0, m1, m2) == 1 && Scalar(1, c as bv8, m0, m1, m2) == c
  {}

  lemma DecodesTwo(c: bv32, m0: Byte, m1: Byte)
    requires EncodedLength(c) == 2
    ensures SequenceLength(Lead2(c), Tail0(c), m0, m1) == 2 && Scalar(2, Lead2(c), Tail0(c), m0, m1) == c
  {}

  /** Ranges of the bytes of three and four byte sequences, and their payloads. */
  predicate ThreeRanges(b0: Byte, b1: Byte, b2: Byte) {
    0xe0 <= b0 <= 0xef && Tail(b1) && Tail(b2) && (b0 == 0xe0 ==> b1 >= 0xa0) && (b0 == 0xed ==> b1 <= 0x9f)
  }

  predicate FourRanges(b0: Byte, b1: Byte, b2: Byte, b3: Byte) {
    && 0xf0 <= b0 <= 0xf4 && Tail(b1) && Tail(b2) && Tail(b3)
    && (b0 == 0xf0 ==> b1 >= 0x90) && (b0 == 0xf4 ==> b1 <= 0x8f)
  }

  predicate TailPayload(b: Byte, c: bv32, shift: nat)
    requires shift <= 12
  {
    b as bv32 & 0x3f == (c >> shift) & 0x3f
  }

  predicate LeadPayload(b: Byte, c: bv32, len: nat) {
    b as bv32 & Mask(len) == if len == 3 then c >> 12 else c >> 18
  }

  lemma TailPayloads(c: bv32)
    ensures TailPayload(Tail0(c), c, 0) && TailPayload(Tail1(c), c, 6) && TailPayload(Tail2(c), c, 12)
  {}

  lemma DecodesThree(c: bv32, m0: Byte)
    requires EncodedLength(c) == 3
    ensures SequenceLength(Lead3(c), Tail1(c), Tail0(c), m0) == 3 && Scalar(3, Lead3(c), Tail1(c), Tail0(c), m0) == c
  {
    assert c <= 0xffff;
    hide *;
    TailPayloads(c);
    ThreeParts(c);
    ThreeLength(Lead3(c), Tail1(c), Tail0(c), m0);
    ThreeScalar(Lead3(c), Tail1(c), Tail0(c), m0, c);
  }

  lemma ThreeParts(c: bv32)
    requires EncodedLength(c) == 3
    ensures ThreeRanges(Lead3(c), Tail1(c), Tail0(c)) && LeadPayload(Lead3(c), c, 3)
  {}

  lemma ThreeLength(b0: Byte, b1: Byte, b2: Byte, b3: Byte)
    requires ThreeRanges(b0, b1, b2)
    ensures SequenceLength(b0, b1, b2, b3) == 3
  {}

  lemma ThreeScalar(b0: Byte, b1: Byte, b2: Byte, b3: Byte, c: bv32)
    requires c <= 0xffff && LeadPayload(b0, c, 3) && TailPayload(b1, c, 6) && TailPayload(b2, c, 0)
    ensures Scalar(3, b0, b1, b2, b3) == c
  {
    ThreeCompose(c, b3 as bv32 & 0x3f);
    hide Compose;
  }

  lemma ThreeCompose(c: bv32, unused: bv32)
    requires c <= 0xffff && unused <= 0x3f
    ensures Compose(3, c >> 12, (c >> 6) & 0x3f, (c >> 0) & 0x3f, unused) == c
  {}

  lemma DecodesFour(c: bv32)
    requires EncodedLength(c) == 4
    ensures SequenceLength(Lead4(c), Tail2(c), Tail1(c), Tail0(c)) == 4 && Scalar(4, Lead4(c), Tail2(c), Tail1(c), Tail0(c)) == c
  {
    assert c <= 0x10ffff;
    hide *;
    TailPayloads(c);
    FourParts(c);
    FourLength(Lead4(c), Tail2(c), Tail1(c), Tail0(c));
    FourScalar(Lead4(c), Tail2(c), Tail1(c), Tail0(c), c);
  }

  lemma FourParts(c: bv32)
    requires EncodedLength(c) == 4
    ensures FourRanges(Lead4(c), Tail2(c), Tail1(c), Tail0(c)) && LeadPayload(Lead4(c), c, 4)
  {}

  lemma FourLength(b0: Byte, b1: Byte, b2: Byte, b3: Byte)
    requires FourRanges(b0, b1, b2, b3)
    ensures SequenceLength(b0, b1, b2, b3) == 4
  {}

  lemma FourScalar(b0: Byte, b1: Byte, b2: Byte, b3: Byte, c: bv32)
    requires c <= 0x10ffff && LeadPayload(b0, c, 4)
    requires TailPayload(b1, c, 12) && TailPayload(b2, c, 6) && TailPayload(b3, c, 0)
    ensures Scalar(4, b0, b1, b2, b3) == c
  {
    FourCompose(c);
    hide Compose;
  }

  lemma FourCompose(c: bv32)
    requires c <= 0x10ffff
    ensures Compose(4, c >> 18, (c >> 12) & 0x3f, (c >> 6) & 0x3f, (c >> 0) & 0x3f) == c
  {}

  // ----- Code points of a string -----

  /** The byte at position i, or zero behind the end: what the padded copy of the last bytes holds. */
  function ByteAt(s: seq<Byte>, i: nat): Byte {
    if i < |s| then s[i] else 0
  }

  function LengthAt(s: seq<Byte>, p: nat): (n: nat)
    ensures n <= 4
  {
    SequenceLength(ByteAt(s, p), ByteAt(s, p + 1), ByteAt(s, p + 2), ByteAt(s, p + 3))
  }

  /** A sequence that the padding cannot complete lies within the string. */
  lemma WithinString(s: seq<Byte>, p: nat)
    requires p < |s|
    ensures p + LengthAt(s, p) <= |s|
  {}

  /** What the callback sees: the code point, or the invalid one, and the bytes it stands for. */
  datatype Piece = Piece(codePoint: bv32, bytes: seq<Byte>)

  function PieceAt(s: seq<Byte>, p: nat): (r: Piece)
    requires p < |s|
    ensures 1 <= |r.bytes| <= 4 && p + |r.bytes| <= |s| && r.bytes == s[p..p + |r.bytes|]
  {
    var n := LengthAt(s, p);
    WithinString(s, p);
    if n > 0 then Piece(Scalar(n, ByteAt(s, p), ByteAt(s, p + 1), ByteAt(s, p + 2), ByteAt(s, p + 3)), s[p..p + n])
    else Piece(INVALID_CODE_POINT, s[p..p + 1])
  }

  /** All pieces from position p on. */
  function PiecesFrom(s: seq<Byte>, p: nat): seq<Piece>
    requires p <= |s|
    decreases |s| - p
  {
    if p == |s| then [] else
    var piece := PieceAt(s, p);
    [piece] + PiecesFrom(s, p + |piece.bytes|)
  }

  /** The pieces the callback sees until it returns false. */
  function Seen(pieces: seq<Piece>, f: Piece -> bool): seq<Piece> {
    if pieces == [] then []
    else if f(pieces[0]) then [pieces[0]] + Seen(pieces[1..], f)
    else [pieces[0]]
  }

  /** The piece at p, from what the decoder returned for the four bytes there. */
  lemma DecodedPiece(s: seq<Byte>, p: nat, advance: nat, c: bv32, e: bv32)
    requires p < |s|
    requires e == 0 <==> LengthAt(s, p) > 0
    requires e == 0 ==> advance == LengthAt(s, p)
    requires e == 0 ==> c == Scalar(advance, ByteAt(s, p), ByteAt(s, p + 1), ByteAt(s, p + 2), ByteAt(s, p + 3))
    ensures var size := if e != 0 then 1 else advance;
            && p + size <= |s|
            && PieceAt(s, p) == Piece(if e != 0 then INVALID_CODE_POINT else c, s[p..p + size])
  {
    WithinString(s, p);
    hide Scalar, SequenceLength;
  }

  /**
   * for_each_codepoint: blocks of four bytes are decoded in place as long as they lie in the
   * string, and the last bytes in a zero-padded copy. The callback sees the pieces in order
   * until it returns false.
   */
  method ForEachCodepoint(s: seq<Byte>, f: Piece -> bool) returns (seen: seq<Piece>)
    ensures seen == Seen(PiecesFrom(s, 0), f)
  {
    seen := [];
    var p := 0;
    hide LengthAt, SequenceLength, Scalar, ByteAt, PiecesFrom, Seen, PieceAt;
    EndSeen(s, f);
    if |s| >= 4 {
      var end := |s| - 4 + 1;
      while p < end
        invariant 0 <= p <= |s|
        invariant Seen(PiecesFrom(s, 0), f) == seen + Seen(PiecesFrom(s, p), f)
        decreases |s| - p
      {
        InPlace(s, p);
        SeenStep(s, p, f, seen);
        var piece := Decoded(s, p, s[p], s[p + 1], s[p + 2], s[p + 3]);
        seen := seen + [piece];
        if !f(piece) {
          return;
        }
        p := p + |piece.bytes|;
      }
    }
    if |s| - p > 0 {
      seen := LastPieces(s, p, f, seen);
    }
  }

  lemma EndSeen(s: seq<Byte>, f: Piece -> bool)
    ensures Seen(PiecesFrom(s, |s|), f) == []
  {}

  lemma InPlace(s: seq<Byte>, p: nat)
    requires p + 3 < |s|
    ensures ByteAt(s, p) == s[p] && ByteAt(s, p + 1) == s[p + 1] && ByteAt(s, p + 2) == s[p + 2] && ByteAt(s, p + 3) == s[p + 3]
  {}

  /** One more piece is seen, and the rest if the callback goes on. */
  lemma SeenStep(s: seq<Byte>, p: nat, f: Piece -> bool, seen: seq<Piece>)
    requires p < |s|
    ensures var piece := PieceAt(s, p);
            var rest := if f(piece) then Seen(PiecesFrom(s, p + |piece.bytes|), f) else [];
            seen + Seen(PiecesFrom(s, p), f) == (seen + [piece]) + rest
  {
    hide PieceAt, PiecesFrom;
    PiecesStep(s, p);
    var piece := PieceAt(s, p);
    var rest := PiecesFrom(s, p + |piece.bytes|);
    assert ([piece] + rest)[1..] == rest;
  }

  /** The decoding lambda, for four bytes that are those at p. */
  method Decoded(s: seq<Byte>, p: nat, b0: Byte, b1: Byte, b2: Byte, b3: Byte) returns (piece: Piece)
    requires p < |s|
    requires b0 == ByteAt(s, p) && b1 == ByteAt(s, p + 1) && b2 == ByteAt(s, p + 2) && b3 == ByteAt(s, p + 3)
    ensures piece == PieceAt(s, p)
  {
    hide ByteAt, SequenceLength, Scalar, PieceAt;
    var advance, c, e := Decode(b0, b1, b2, b3);
    DecodedPiece(s, p, advance, c, e);
    piece := Piece(if e != 0 then INVALID_CODE_POINT else c, s[p..p + if e != 0 then 1 else advance]);
  }

  method PaddedCopy(s: seq<Byte>, start: nat) returns (buf: array<Byte>)
    requires start <= |s| <= start + 7
    ensures fresh(buf) && buf.Length == 7 && forall j :: 0 <= j < 7 ==> buf[j] == ByteAt(s, start + j)
  {
    buf := new Byte[7](_ => 0);
    for i := 0 to |s| - start
      invariant forall j :: 0 <= j < 7 ==> buf[j] == if j < i then s[start + j] else 0
    {
      buf[i] := s[start + i];
    }
  }

  /** The last one to three bytes, decoded in a copy with zeros behind them. */
  method LastPieces(s: seq<Byte>, start: nat, f: Piece -> bool, before: seq<Piece>) returns (seen: seq<Piece>)
    requires start < |s| <= start + 3
    ensures seen == before + Seen(PiecesFrom(s, start), f)
  {
    hide LengthAt, SequenceLength, Scalar, PieceAt, ByteAt, PiecesFrom, Seen;
    EndSeen(s, f);
    var numCharsLeft := |s| - start;
    var buf := PaddedCopy(s, start);
    seen := before;
    var p, bufPtr := start, 0;
    while true
      invariant 0 <= bufPtr < numCharsLeft && p == start + bufPtr
      invariant forall j :: 0 <= j < 7 ==> buf[j] == ByteAt(s, start + j)
      invariant before + Seen(PiecesFrom(s, start), f) == seen + Seen(PiecesFrom(s, p), f)
      decreases numCharsLeft - bufPtr
    {
      SeenStep(s, p, f, seen);
      var piece := Decoded(s, p, buf[bufPtr], buf[bufPtr + 1], buf[bufPtr + 2], buf[bufPtr + 3]);
      seen := seen + [piece];
      if !f(piece) {
        return;
      }
      p := p + |piece.bytes|;
      bufPtr := bufPtr + |piece.bytes|;
      if !(bufPtr < numCharsLeft) {
        return;
      }
    }
  }

  lemma PiecesStep(s: seq<Byte>, p: nat)
    requires p < |s|
    ensures var piece := PieceAt(s, p); PiecesFrom(s, p) == [piece] + PiecesFrom(s, p + |piece.bytes|)
  {
    hide PieceAt;
  }

  function AllBytes(pieces: seq<Piece>): seq<Byte> {
    if pieces == [] then [] else pieces[0].bytes + AllBytes(pieces[1..])
  }

  lemma AllBytesCons(piece: Piece, rest: seq<Piece>)
    ensures AllBytes([piece] + rest) == piece.bytes + AllBytes(rest)
  {
    assert ([piece] + rest)[1..] == rest;
  }

  lemma JoinSlices(s: seq<Byte>, p: nat, q: nat)
    requires p <= q <= |s|
    ensures s[p..] == s[p..q] + s[q..]
  {}

  lemma NoBytes(s: seq<Byte>)
    ensures AllBytes(PiecesFrom(s, |s|)) == [] == s[|s|..]
  {}

  /** The pieces are consecutive and together they are the string. */
  lemma {:induction false} PiecesCover(s: seq<Byte>, p: nat)
    requires p <= |s|
    ensures AllBytes(PiecesFrom(s, p)) == s[p..]
    decreases |s| - p
  {
    hide *;
    NoBytes(s);
    if p < |s| {
      var piece := PieceAt(s, p);
      var q := p + |piece.bytes|;
      JoinSlices(s, p, q);
      PiecesStep(s, p);
      PiecesCover(s, q);
      AllBytesCons(piece, PiecesFrom(s, q));
    }
  }

  /** No piece is empty. */
  lemma {:induction false} PiecesNonempty(s: seq<Byte>, p: nat, i: nat)
    requires p <= |s| && i < |PiecesFrom(s, p)|
    ensures 1 <= |PiecesFrom(s, p)[i].bytes| <= 4
    decreases i
  {
    hide PieceAt, LengthAt;
    if p < |s| {
      var q := p + |PieceAt(s, p).bytes|;
      if i > 0 {
        PiecesNonempty(s, q, i - 1);
      }
    }
  }

  /** With a callback that never stops, every piece is seen. */
  lemma {:induction false} SeenAll(pieces: seq<Piece>, f: Piece -> bool)
    requires forall piece :: f(piece)
    ensures Seen(pieces, f) == pieces
  {
    if pieces != [] {
      SeenAll(pieces[1..], f);
    }
  }

  /** The callback sees the pieces in order; it stops the loop exactly by answering false, and then sees no more. */
  lemma {:induction false} SeenUntilFalse(pieces: seq<Piece>, f: Piece -> bool)
    ensures var seen := Seen(pieces, f);
            && seen <= pieces
            && (forall i :: 0 <= i < |seen| - 1 ==> f(seen[i]))
            && (|seen| < |pieces| ==> seen != [] && !f(seen[|seen| - 1]))
  {
    if pieces != [] {
      SeenUntilFalse(pieces[1..], f);
      var rest := Seen(pieces[1..], f);
      assert pieces == [pieces[0]] + pieces[1..];
      assert forall i :: 0 < i < |rest| ==> ([pieces[0]] + rest)[i] == rest[i - 1];
    }
  }

  // ----- Whole strings -----

  function EncodeAll(s: seq<bv32>): Option<seq<Byte>> {
    if s == [] then Some([])
    else
      var first, rest := Encode(s[0]), EncodeAll(s[1..]);
      if first.None? || rest.None? then None else Some(first.value + rest.value)
  }

  /** The bytes so far and those of the rest. */
  function Glue(buf: seq<Byte>, rest: Option<seq<Byte>>): Option<seq<Byte>> {
    if rest.None? then None else Some(buf + rest.value)
  }

  /** to_utf8::convert for UTF-32: fails at the first value that is no code point. */
  method Convert(s: seq<bv32>) returns (buf: seq<Byte>, ok: bool)
    ensures EncodeAll(s) == if ok then Some(buf) else None
  {
    hide *;
    buf := [];
    assert s[0..] == s;
    GlueEnds(buf, EncodeAll(s));
    for i := 0 to |s|
      invariant EncodeAll(s) == Glue(buf, EncodeAll(s[i..]))
    {
      var c := s[i];
      assert s[i..] == [c] + s[i + 1..];
      EncodeAllCons(c, s[i + 1..]);
      EncodeCases(c);
      GlueStep(buf, Encode(c), EncodeAll(s[i + 1..]));
      if c < 0x80 {
        buf := buf + [c as bv8];
      } else if c < 0x800 {
        buf := buf + ([Lead2(c)] + [Tail0(c)]);
      } else if (c >= 0x800 && c <= 0xd7ff) || (c >= 0xe000 && c <= 0xffff) {
        buf := buf + ([Lead3(c)] + [Tail1(c)] + [Tail0(c)]);
      } else if c >= 0x10000 && c <= 0x10ffff {
        buf := buf + ([Lead4(c)] + [Tail2(c)] + [Tail1(c)] + [Tail0(c)]);
      } else {
        return buf, false;
      }
    }
    EncodeNothing();
    assert s[|s|..] == [];
    GlueEnds(buf, None);
    return buf, true;
  }

  lemma GlueEnds(buf: seq<Byte>, rest: Option<seq<Byte>>)
    ensures Glue(buf, Some([])) == Some(buf) && Glue([], rest) == rest
  {
    assert buf + [] == buf;
    if rest.Some? {
      assert [] + rest.value == rest.value;
    }
  }

  lemma GlueStep(buf: seq<Byte>, first: Option<seq<Byte>>, rest: Option<seq<Byte>>)
    ensures var both := if first.None? || rest.None? then None else Some(first.value + rest.value);
            Glue(buf, both) == if first.None? then None else Glue(buf + first.value, rest)
  {
    if first.Some? && rest.Some? {
      assert buf + (first.value + rest.value) == (buf + first.value) + rest.value;
    }
  }

  lemma EncodeNothing()
    ensures EncodeAll([]) == Some([])
  {}

  lemma EncodeAllCons(c: bv32, rest: seq<bv32>)
    ensures EncodeAll([c] + rest)
            == if Encode(c).None? || EncodeAll(rest).None? then None else Some(Encode(c).value + EncodeAll(rest).value)
  {
    assert ([c] + rest)[1..] == rest;
    hide Encode;
  }

  lemma EncodeCases(c: bv32)
    ensures c < 0x80 ==> Encode(c) == Some([c as bv8])
    ensures 0x80 <= c < 0x800 ==> Encode(c) == Some([Lead2(c)] + [Tail0(c)])
    ensures (c >= 0x800 && c <= 0xd7ff) || (c >= 0xe000 && c <= 0xffff) ==>
              c <= 0xffff && Encode(c) == Some([Lead3(c)] + [Tail1(c)] + [Tail0(c)])
    ensures c >= 0x10000 && c <= 0x10ffff ==> Encode(c) == Some([Lead4(c)] + [Tail2(c)] + [Tail1(c)] + [Tail0(c)])
    ensures (0xd800 <= c <= 0xdfff || c > 0x10ffff) ==> Encode(c) == None
  {
    hide Lead2, Lead3, Lead4, Tail0, Tail1, Tail2;
    if c < 0x800 {
      assert c >= 0x80 ==> [Lead2(c)] + [Tail0(c)] == [Lead2(c), Tail0(c)];
    } else if c <= 0xffff {
      assert [Lead3(c)] + [Tail1(c)] + [Tail0(c)] == [Lead3(c), Tail1(c), Tail0(c)];
    } else if c <= 0x10ffff {
      assert [Lead4(c)] + [Tail2(c)] + [Tail1(c)] + [Tail0(c)] == [Lead4(c), Tail2(c), Tail1(c), Tail0(c)];
    }
  }

  function CodePoints(pieces: seq<Piece>): seq<bv32> {
    if pieces == [] then [] else [pieces[0].codePoint] + CodePoints(pieces[1..])
  }

  lemma BytesAt(s: seq<Byte>, p: nat, n: nat)
    requires n <= 4 && p + n <= |s|
    ensures s[p..p + n] == [ByteAt(s, p), ByteAt(s, p + 1), ByteAt(s, p + 2), ByteAt(s, p + 3)][..n]
  {}

  /** A valid piece is the encoding of its code point, an invalid one is a byte where no sequence begins. */
  lemma PieceMeaning(s: seq<Byte>, p: nat)
    requires p < |s|
    ensures var piece := PieceAt(s, p);
            if LengthAt(s, p) > 0 then Encode(piece.codePoint) == Some(piece.bytes)
            else piece == Piece(INVALID_CODE_POINT, [s[p]]) && Encode(INVALID_CODE_POINT).None?
  {
    var b0, b1, b2, b3 := ByteAt(s, p), ByteAt(s, p + 1), ByteAt(s, p + 2), ByteAt(s, p + 3);
    var n := LengthAt(s, p);
    WithinString(s, p);
    assert Encode(INVALID_CODE_POINT).None?;
    if n > 0 {
      assert n == SequenceLength(b0, b1, b2, b3);
      EncodesBack(b0, b1, b2, b3);
      BytesAt(s, p, n);
    }
    hide Scalar, SequenceLength, Encode, ByteAt;
  }

  lemma CodePointsCons(piece: Piece, rest: seq<Piece>)
    ensures CodePoints([piece] + rest) == [piece.codePoint] + CodePoints(rest)
  {
    assert ([piece] + rest)[1..] == rest;
  }

  /** The code points of a string encode to the string exactly when every byte of it belongs to a well-formed sequence. */
  lemma {:induction false} DecodeThenEncode(s: seq<Byte>, p: nat)
    requires p <= |s|
    ensures var cs := CodePoints(PiecesFrom(s, p));
            && (EncodeAll(cs).Some? <==> INVALID_CODE_POINT !in cs)
            && (EncodeAll(cs).Some? ==> EncodeAll(cs) == Some(s[p..]))
    decreases |s| - p
  {
    hide *;
    if p == |s| {
      EncodeNoPieces(s, p);
    } else {
      var piece := PieceAt(s, p);
      var q := p + |piece.bytes|;
      JoinSlices(s, p, q);
      PieceMeaning(s, p);
      ValidCodePoint(s, p);
      PiecesStep(s, p);
      DecodeThenEncode(s, q);
      EncodeOneMore(piece, PiecesFrom(s, q), s[q..]);
    }
  }

  lemma EncodeNoPieces(s: seq<Byte>, p: nat)
    requires p == |s|
    ensures CodePoints(PiecesFrom(s, p)) == [] && EncodeAll([]) == Some([]) && s[p..] == []
  {}

  lemma EncodeOneMore(piece: Piece, rest: seq<Piece>, bytes: seq<Byte>)
    requires if piece.codePoint == INVALID_CODE_POINT then Encode(piece.codePoint).None?
             else Encode(piece.codePoint) == Some(piece.bytes)
    requires EncodeAll(CodePoints(rest)) == if INVALID_CODE_POINT in CodePoints(rest) then None else Some(bytes)
    ensures var cs := CodePoints([piece] + rest);
            EncodeAll(cs) == if INVALID_CODE_POINT in cs then None else Some(piece.bytes + bytes)
  {
    hide Encode, EncodeAll, CodePoints;
    CodePointsCons(piece, rest);
    EncodeAllCons(piece.codePoint, CodePoints(rest));
  }

  lemma ValidCodePoint(s: seq<Byte>, p: nat)
    requires p < |s|
    ensures LengthAt(s, p) > 0 <==> PieceAt(s, p).codePoint != INVALID_CODE_POINT
  {
    PieceMeaning(s, p);
    assert Encode(INVALID_CODE_POINT).None?;
    hide Scalar, SequenceLength;
  }

  /** What convert writes is decoded to the same code points. */
  lemma {:induction false} EncodeThenDecode(cs: seq<bv32>, s: seq<Byte>, p: nat)
    requires p <= |s| && EncodeAll(cs) == Some(s[p..])
    ensures CodePoints(PiecesFrom(s, p)) == cs
    decreases |cs|
  {
    hide Encode, PieceAt, CodePoints;
    if cs == [] {
      assert |s[p..]| == |s| - p;
      NoPieces(s, p);
    } else {
      hide PiecesFrom, EncodeAll;
      var c, rest := cs[0], cs[1..];
      assert cs == [c] + rest;
      EncodeAllCons(c, rest);
      var first := Encode(c).value;
      var q := p + |first|;
      SplitAfter(s, p, first, EncodeAll(rest).value);
      FirstPiece(c, s, p);
      EncodeThenDecode(rest, s, q);
      PiecesStep(s, p);
      CodePointsCons(PieceAt(s, p), PiecesFrom(s, q));
    }
  }

  lemma NoPieces(s: seq<Byte>, p: nat)
    requires p == |s|
    ensures CodePoints(PiecesFrom(s, p)) == []
  {}

  lemma SplitAfter(s: seq<Byte>, p: nat, first: seq<Byte>, rest: seq<Byte>)
    requires p <= |s| && s[p..] == first + rest
    ensures p + |first| <= |s| && s[p + |first|..] == rest && first <= s[p..]
  {
    assert |s[p..]| == |s| - p;
    assert s[p + |first|..] == s[p..][|first|..];
  }

  lemma FirstPiece(c: bv32, s: seq<Byte>, p: nat)
    requires p <= |s| && Encode(c).Some? && Encode(c).value <= s[p..]
    ensures p < |s| && PieceAt(s, p).codePoint == c && |PieceAt(s, p).bytes| == |Encode(c).value|
  {
    var e := Encode(c).value;
    var n := |e|;
    var more := [ByteAt(s, p + n), ByteAt(s, p + n + 1), ByteAt(s, p + n + 2)];
    var t := e + more;
    DecodesBack(c, more);
    assert forall i :: 0 <= i < n ==> e[i] == s[p..][i] == s[p + i];
    assert forall i :: 0 <= i < 4 ==> t[i] == ByteAt(s, p + i);
    hide Encode, Scalar, SequenceLength;
  }
}
