/** Framing of the raw I/Q stream: interleaved little-endian 32-bit floats,
    in-phase first, then quadrature, with no header and no padding. */
module Codec {
  import opened Wrappers
  import opened Arith

  type Byte = b: int | 0 <= b < 0x100

  /** The 32-bit pattern of an IEEE-754 binary32 value, as its four bytes
      from least to most significant. Reading and writing a float moves
      exactly these bits, so the codec is modelled on them. */
  datatype F32 = F32(b0: Byte, b1: Byte, b2: Byte, b3: Byte)

  /** One complex baseband reading as it sits in the stream. */
  datatype Sample = Sample(i: F32, q: F32)

  /** The unsigned 32-bit integer a bit pattern stands for. */
  function Bits(x: F32): (n: nat)
    ensures n < 0x1_0000_0000
  {
    x.b0 + 0x100 * (x.b1 + 0x100 * (x.b2 + 0x100 * x.b3))
  }

  /** The integer four bytes stand for when read least significant first. */
  function LittleEndian(b: seq<Byte>): nat
    requires |b| == 4
  {
    b[0] as int + 0x100 * (b[1] as int + 0x100 * (b[2] as int + 0x100 * b[3] as int))
  }

  /** Distinct bit patterns are distinct integers. */
  lemma BitsInjective(x: F32, y: F32)
    requires Bits(x) == Bits(y)
    ensures x == y
  {
    var n := Bits(x);
    var hi1, hi2 := x.b1 + 0x100 * (x.b2 + 0x100 * x.b3), x.b2 + 0x100 * x.b3;
    DivModUnique(n, 0x100, hi1, x.b0);
    DivModUnique(n, 0x100, y.b1 + 0x100 * (y.b2 + 0x100 * y.b3), y.b0);
    DivModUnique(hi1, 0x100, hi2, x.b1);
    DivModUnique(hi1, 0x100, y.b2 + 0x100 * y.b3, y.b1);
    DivModUnique(hi2, 0x100, x.b3, x.b2);
    DivModUnique(hi2, 0x100, y.b3, y.b2);
  }

  /** The four bytes written for `x`: its bit pattern, little-endian. */
  function EncodeF32(x: F32): (r: seq<Byte>)
    ensures |r| == 4
  {
    [x.b0, x.b1, x.b2, x.b3]
  }

  /** The bytes written for a float are its bit pattern, least significant
      byte first. */
  lemma EncodeF32LittleEndian(x: F32)
    ensures LittleEndian(EncodeF32(x)) == Bits(x)
  {
  }

  /** The float whose little-endian encoding is `b`. */
  function DecodeF32(b: seq<Byte>): (x: F32)
    requires |b| == 4
    ensures EncodeF32(x) == b
  {
    F32(b[0], b[1], b[2], b[3])
  }

  /** The float read from four bytes has the integer they stand for,
      little-endian, as its bit pattern. */
  lemma DecodeF32LittleEndian(b: seq<Byte>)
    requires |b| == 4
    ensures Bits(DecodeF32(b)) == LittleEndian(b)
  {
  }

  lemma DecodeEncodeF32(x: F32)
    ensures DecodeF32(EncodeF32(x)) == x
  {
  }

  /** Reading one float at byte offset `pos`: it fails, and the stream is
      treated as ended, when fewer than four bytes remain. */
  function ReadF32(b: seq<Byte>, pos: nat): (r: Option<F32>)
    ensures r.Some? <==> pos + 4 <= |b|
    ensures r.Some? ==> EncodeF32(r.value) == b[pos..pos + 4]
  {
    if pos + 4 <= |b| then Some(DecodeF32(b[pos..pos + 4])) else None
  }

  /** The eight bytes written for one sample: I, then Q. */
  function EncodePair(s: Sample): (r: seq<Byte>)
    ensures |r| == 8
  {
    EncodeF32(s.i) + EncodeF32(s.q)
  }

  /** The bytes written for a sample are the bit pattern of I and then that
      of Q, each least significant byte first. */
  lemma EncodePairLittleEndian(s: Sample)
    ensures var r := EncodePair(s);
            LittleEndian(r[..4]) == Bits(s.i) && LittleEndian(r[4..]) == Bits(s.q)
  {
    var r := EncodePair(s);
    assert r[..4] == EncodeF32(s.i) && r[4..] == EncodeF32(s.q);
    EncodeF32LittleEndian(s.i);
    EncodeF32LittleEndian(s.q);
  }

  /** The sample whose encoding is `b`. */
  function DecodePair(b: seq<Byte>): (s: Sample)
    requires |b| == 8
    ensures EncodePair(s) == b
  {
    var s := Sample(DecodeF32(b[..4]), DecodeF32(b[4..]));
    assert EncodePair(s) == b[..4] + b[4..];
    s
  }

  lemma DecodeEncodePair(s: Sample)
    ensures DecodePair(EncodePair(s)) == s
  {
    DecodeEncodeF32(s.i);
    DecodeEncodeF32(s.q);
  }

  /** The byte stream written for a sequence of samples. */
  function EncodeSamples(ss: seq<Sample>): (r: seq<Byte>)
    ensures |r| == 8 * |ss|
  {
    if ss == [] then [] else EncodePair(ss[0]) + EncodeSamples(ss[1..])
  }

  /** The samples framed by a byte stream: one per complete eight-byte
      pair, in order; a trailing partial pair yields nothing. */
  function DecodeSamples(b: seq<Byte>): (ss: seq<Sample>)
    ensures |ss| == |b| / 8
    decreases |b|
  {
    if |b| < 8 then [] else [DecodePair(b[..8])] + DecodeSamples(b[8..])
  }

  /** Re-encoding the framed samples gives back the input up to its last
      complete pair. */
  lemma {:induction false} EncodeDecodeSamples(b: seq<Byte>)
    ensures EncodeSamples(DecodeSamples(b)) == b[..8 * (|b| / 8)]
    decreases |b|
  {
    if |b| >= 8 {
      var rest := DecodeSamples(b[8..]);
      EncodeDecodeSamples(b[8..]);
      assert b[..8 * (1 + |rest|)] == b[..8] + b[8..][..8 * |rest|];
    }
  }

  lemma {:induction false} EncodeSamplesAppend(ss: seq<Sample>, s: Sample)
    ensures EncodeSamples(ss + [s]) == EncodeSamples(ss) + EncodePair(s)
  {
    if ss != [] {
      assert (ss + [s])[1..] == ss[1..] + [s];
      EncodeSamplesAppend(ss[1..], s);
    }
  }

  /** Decoding undoes encoding, sample for sample. */
  lemma {:induction false} DecodeEncodeSamples(ss: seq<Sample>)
    ensures DecodeSamples(EncodeSamples(ss)) == ss
  {
    if ss != [] {
      var b := EncodeSamples(ss);
      assert b[..8] == EncodePair(ss[0]);
      assert b[8..] == EncodeSamples(ss[1..]);
      DecodeEncodePair(ss[0]);
      DecodeEncodeSamples(ss[1..]);
    }
  }

  /** Bytes after the last complete pair do not affect what is framed. */
  lemma DecodeSamplesIgnoresPartialPair(b: seq<Byte>)
    ensures DecodeSamples(b) == DecodeSamples(b[..8 * (|b| / 8)])
  {
    EncodeDecodeSamples(b);
    DecodeEncodeSamples(DecodeSamples(b));
  }

  /** Appending one complete pair to a whole number of pairs frames one more sample. */
  lemma DecodeSamplesAppend(b: seq<Byte>, c: seq<Byte>)
    requires |b| % 8 == 0 && |c| == 8
    ensures DecodeSamples(b + c) == DecodeSamples(b) + [DecodePair(c)]
  {
    var ss := DecodeSamples(b);
    EncodeDecodeSamples(b);
    assert EncodeSamples(ss) == b;
    EncodeSamplesAppend(ss, DecodePair(c));
    DecodeEncodeSamples(ss + [DecodePair(c)]);
  }

  /** Two successful float reads at a pair boundary `pos` frame one more
      sample: the pair they form. */
  lemma DecodeNextPair(b: seq<Byte>, pos: nat, s: Sample)
    requires pos % 8 == 0 && pos + 8 <= |b|
    requires EncodeF32(s.i) == b[pos..pos + 4]
    requires EncodeF32(s.q) == b[pos + 4..pos + 8]
    ensures DecodeSamples(b[..pos + 8]) == DecodeSamples(b[..pos]) + [s]
  {
    var pair := b[pos..pos + 8];
    assert pair == b[pos..pos + 4] + b[pos + 4..pos + 8];
    assert b[..pos + 8] == b[..pos] + pair;
    DecodeEncodePair(s);
    DecodeSamplesAppend(b[..pos], pair);
  }
}
