/** The check value of a2_boot/include/crc.h: what the calculator makes of the digits 1 to 9. */
module CrcCheck {
  import opened Words
  import opened Gf2
  import opened CrcCcitt
  import opened CrcTheorems

  /** One division step, bit by bit: the top bit comes back at 0, 5 and 12. */
  function OneStep(r: Register): Register {
    [r[15], r[0], r[1], r[2], r[3], r[4] != r[15], r[5], r[6],
     r[7], r[8], r[9], r[10], r[11] != r[15], r[12], r[13], r[14]]
  }

  function FourSteps(r: Register): Register {
    [r[12], r[13], r[14], r[15], r[0], r[1] != r[12], r[2] != r[13], r[3] != r[14],
     r[4] != r[15], r[5], r[6], r[7], r[8] != r[12], r[9] != r[13], r[10] != r[14], r[11] != r[15]]
  }

  lemma OneStepIs(r: Register)
    ensures DivideBit(r) == OneStep(r)
  {
  }

  lemma FourStepsAre(r: Register, n: nat)
    ensures DivideBits(r, n + 4) == DivideBits(FourSteps(r), n)
  {
    hide DivideBit, OneStep, FourSteps, Bits;
    var a := OneStep(r);
    var b := OneStep(a);
    var c := OneStep(b);
    OneStepIs(r);
    OneStepIs(a);
    OneStepIs(b);
    OneStepIs(c);
    OneByOne(r);
    assert DivideBits(r, n + 4) == DivideBits(a, n + 3) == DivideBits(b, n + 2) == DivideBits(c, n + 1);
  }

  lemma OneByOne(r: Register)
    ensures FourSteps(r) == OneStep(OneStep(OneStep(OneStep(r))))
  {
  }

  /** A register written in binary, most significant bit first. */
  function Binary(t: string): Register
    requires |t| == 16
  {
    [t[15] == '1', t[14] == '1', t[13] == '1', t[12] == '1', t[11] == '1', t[10] == '1', t[9] == '1', t[8] == '1',
     t[7] == '1', t[6] == '1', t[5] == '1', t[4] == '1', t[3] == '1', t[2] == '1', t[1] == '1', t[0] == '1']
  }

  /** A digit character added to the top byte of the register. */
  function Loaded(r: Register, d: nat): Register {
    [r[0], r[1], r[2], r[3], r[4], r[5], r[6], r[7], r[8] != (d % 2 == 1), r[9] != (d / 2 % 2 == 1),
      r[10] != (d / 4 % 2 == 1), r[11] != (d / 8 == 1), !r[12], !r[13], r[14], r[15]]
  }

  lemma DigitOctet(d: nat)
    requires d < 10
    ensures Octet(48 + d) == [d % 2 == 1, d / 2 % 2 == 1, d / 4 % 2 == 1, d / 8 == 1, true, true, false, false]
  {
    assert Pow2(0) == 1 && Pow2(1) == 2 && Pow2(2) == 4 && Pow2(3) == 8;
    assert Pow2(4) == 0x10 && Pow2(5) == 0x20 && Pow2(6) == 0x40 && Pow2(7) == 0x80;
    hide Pow2;
    var x := 48 + d;
    assert x / 2 == 24 + d / 2 && x / 4 == 12 + d / 4 && x / 8 == 6 + d / 8;
    assert x / 0x10 == 3 && x / 0x20 == 1 && x / 0x40 == 0 && x / 0x80 == 0;
    assert (24 + d / 2) % 2 == d / 2 % 2 && (12 + d / 4) % 2 == d / 4 % 2;
  }

  lemma Added(r: Register, o: Word)
    requires |o| == 8
    ensures var x := Xor(r, AtTop(o));
      && (forall k :: 0 <= k < 8 ==> x[k] == r[k])
      && (forall k :: 8 <= k < 16 ==> x[k] == (r[k] != o[k - 8]))
  {
  }

  lemma LoadedIs(r: Register, d: nat)
    requires d < 10
    ensures Loaded(r, d) == Xor(r, AtTop(Octet(48 + d)))
  {
    hide Octet, AtTop, Xor;
    DigitOctet(d);
    Added(r, Octet(48 + d));
    var x, y := Xor(r, AtTop(Octet(48 + d))), Loaded(r, d);
    assert forall k :: 0 <= k < 8 ==> x[k] == y[k];
    assert forall k :: 8 <= k < 16 ==> x[k] == y[k];
  }

  lemma DigitFed(m: seq<uint8>, d: nat, before: Register, after: Register)
    requires Crc(m) == before && d < 10
    requires FourSteps(FourSteps(Loaded(before, d))) == after
    ensures Crc(m + [48 + d]) == after
  {
    hide Crc, FourSteps, DivideBit, Octet, Bits, Loaded;
    var x := Loaded(before, d);
    CrcOfByte(m, 48 + d);
    LoadedIs(before, d);
    FourStepsAre(x, 4);
    FourStepsAre(FourSteps(x), 0);
    assert DivideBits(x, 8) == DivideBits(FourSteps(FourSteps(x)), 0);
  }

  lemma OneTwoThree(m: seq<uint8>)
    requires Crc(m) == Binary("1111111111111111")
    ensures Crc(m + [49, 50, 51]) == Binary("0101101111001110")
  {
    hide Crc;
    DigitFed(m, 1, Binary("1111111111111111"), Binary("1100011110000010"));
    DigitFed(m + [49], 2, Binary("1100011110000010"), Binary("0011110110111010"));
    DigitFed(m + [49] + [50], 3, Binary("0011110110111010"), Binary("0101101111001110"));
    assert m + [49] + [50] + [51] == m + [49, 50, 51];
  }

  lemma FourFiveSix(m: seq<uint8>)
    requires Crc(m) == Binary("0101101111001110")
    ensures Crc(m + [52, 53, 54]) == Binary("0010111011110100")
  {
    hide Crc;
    DigitFed(m, 4, Binary("0101101111001110"), Binary("0101001101001001"));
    DigitFed(m + [52], 5, Binary("0101001101001001"), Binary("0100010101100000"));
    DigitFed(m + [52] + [53], 6, Binary("0100010101100000"), Binary("0010111011110100"));
    assert m + [52] + [53] + [54] == m + [52, 53, 54];
  }

  lemma SevenEightNine(m: seq<uint8>)
    requires Crc(m) == Binary("0010111011110100")
    ensures Crc(m + [55, 56, 57]) == Binary("0010100110110001")
  {
    hide Crc;
    DigitFed(m, 7, Binary("0010111011110100"), Binary("0111011100011000"));
    DigitFed(m + [55], 8, Binary("0111011100011000"), Binary("1010000100101011"));
    DigitFed(m + [55] + [56], 9, Binary("1010000100101011"), Binary("0010100110110001"));
    assert m + [55] + [56] + [57] == m + [55, 56, 57];
  }

  lemma NothingFed()
    ensures Crc([]) == Binary("1111111111111111")
  {
  }

  lemma BinaryOfCheckValue()
    ensures Value(Binary("0010100110110001")) == 0x29B1
  {
    hide Value;
    var w := Binary("0010100110110001");
    assert w == [true, false, false, false] + w[4..];
    assert w[4..] == [true, true, false, true] + w[8..];
    assert w[8..] == [true, false, false, true] + w[12..];
    assert w[12..] == [false, true, false, false] + [];
    ValueOfFour(true, false, false, false, w[4..]);
    ValueOfFour(true, true, false, true, w[8..]);
    ValueOfFour(true, false, false, true, w[12..]);
    ValueOfFour(false, true, false, false, []);
    assert Value([]) == 0 by {
      ValueZeros(0);
      assert Zeros(0) == [];
    }
  }

  function Digit(a: bool, b: bool, c: bool, d: bool): nat {
    (if a then 1 else 0) + (if b then 2 else 0) + (if c then 4 else 0) + (if d then 8 else 0)
  }

  lemma ValueOfFour(a: bool, b: bool, c: bool, d: bool, w: Word)
    ensures Value([a, b, c, d] + w) == Digit(a, b, c, d) + 16 * Value(w)
  {
    var v := [a, b, c, d] + w;
    var v1, v2, v3 := [b, c, d] + w, [c, d] + w, [d] + w;
    assert v[1..] == v1 && v1[1..] == v2 && v2[1..] == v3 && v3[1..] == w;
    assert Value(v2) == (if c then 1 else 0) + 2 * Value(v3);
    assert Value(v) == (if a then 1 else 0) + 2 * Value(v1);
  }

  /** The program's CRC of "123456789" is its check value. */
  lemma CheckValue()
    ensures Value(Crc([49, 50, 51, 52, 53, 54, 55, 56, 57])) == 0x29B1
  {
    hide Crc, Binary, Value;
    NothingFed();
    OneTwoThree([]);
    assert [] + [49, 50, 51] == [49, 50, 51];
    FourFiveSix([49, 50, 51]);
    SevenEightNine([49, 50, 51] + [52, 53, 54]);
    assert [49, 50, 51] + [52, 53, 54] + [55, 56, 57] == [49, 50, 51, 52, 53, 54, 55, 56, 57];
    BinaryOfCheckValue();
  }
}
