/** The CRC-CCITT calculator of a2_boot/crc.c: generator x^16 + x^12 + x^5 + 1
    (ITU-T V.41, section 2), register preset to ones, no reflection, no final
    xor. The register is a 16-bit word. */
module CrcCcitt {
  import opened Words
  import opened Gf2

  type Register = w: Word | |w| == 16 witness Zeros(16)

  const POLYNOMIAL: Register :=
    [true] + Zeros(4) + [true] + Zeros(6) + [true] + Zeros(3)
  const INITIAL_REMAINDER: Register := Ones(16)
  const FINAL_XOR_VALUE: Register := Zeros(16)

  /** The constants as crc.h writes them. */
  lemma Constants()
    ensures Value(POLYNOMIAL) == 0x1021
    ensures Value(INITIAL_REMAINDER) == 0xFFFF
    ensures Value(FINAL_XOR_VALUE) == 0x0000
  {
    PowersOfTwo();
    ValueZeros(16);
    ValueOnes(16);
    PolynomialValue();
  }

  lemma PolynomialValue()
    ensures Value(POLYNOMIAL) == 0x1021
  {
    hide Zeros;
    PowersOfTwo();
    assert POLYNOMIAL == [true] + (Zeros(4) + ([true] + (Zeros(6) + ([true] + Zeros(3)))));
    ValueConcat([true], Zeros(4) + ([true] + (Zeros(6) + ([true] + Zeros(3)))));
    ValueConcat(Zeros(4), [true] + (Zeros(6) + ([true] + Zeros(3))));
    ValueConcat([true], Zeros(6) + ([true] + Zeros(3)));
    ValueConcat(Zeros(6), [true] + Zeros(3));
    ValueConcat([true], Zeros(3));
    ValueZeros(3);
    ValueZeros(4);
    ValueZeros(6);
  }

  /** A byte on the wire, as the program sees it: bit 7 leads. */
  function Octet(b: uint8): (w: Word)
    ensures |w| == 8
  {
    Bits(b, 8)
  }

  function HighByte(r: Register): Word {
    r[8..]
  }

  /** A byte moved to the top half of the register. */
  function AtTop(b: Word): Register
    requires |b| == 8
  {
    Zeros(8) + b
  }

  /** One bit of modulo-2 division. */
  function DivideBit(r: Register): Register {
    if r[15] then Xor(Shl(r, 1), POLYNOMIAL) else Shl(r, 1)
  }

  function DivideBits(r: Register, n: nat): Register
    decreases n, r
  {
    if n == 0 then r else DivideBits(DivideBit(r), n - 1)
  }

  /** A byte brought into the top of the register and divided out. */
  function Absorb(r: Register, b: uint8): Register {
    DivideBits(Xor(r, AtTop(Octet(b))), 8)
  }

  function Feed(r: Register, m: seq<uint8>): Register {
    if m == [] then r else Absorb(Feed(r, m[..|m| - 1]), m[|m| - 1])
  }

  /** The CRC of a message, defined by bitwise division. */
  function Crc(m: seq<uint8>): Register {
    Feed(INITIAL_REMAINDER, m)
  }

  // ----- Linearity -----

  lemma DivideBitLinear(a: Register, b: Register)
    ensures DivideBit(Xor(a, b)) == Xor(DivideBit(a), DivideBit(b))
  {
    hide Bits;
    assert Shl(Xor(a, b), 1) == Xor(Shl(a, 1), Shl(b, 1));
  }

  lemma {:induction false} DivideBitsLinear(a: Register, b: Register, n: nat)
    ensures DivideBits(Xor(a, b), n) == Xor(DivideBits(a, n), DivideBits(b, n))
    decreases n
  {
    if n > 0 {
      DivideBitLinear(a, b);
      DivideBitsLinear(DivideBit(a), DivideBit(b), n - 1);
    }
  }

  /** Division only shifts as long as no set bit reaches the top. */
  lemma {:induction false} DivisionShifts(r: Register, n: nat)
    requires n <= 16 && forall k :: 16 - n <= k < 16 ==> !r[k]
    ensures DivideBits(r, n) == Shl(r, n)
    decreases n
  {
    hide Bits;
    if n == 0 {
      assert Shl(r, 0) == r;
    } else {
      DivisionShifts(Shl(r, 1), n - 1);
      assert Shl(Shl(r, 1), n - 1) == Shl(r, n);
    }
  }

  // ----- The program -----

  /** The dividend followed by eight zeros, divided. */
  function TableEntry(dividend: uint8): Register {
    DivideBits(AtTop(Octet(dividend)), 8)
  }

  ghost predicate IsTable(t: seq<Register>) {
    |t| == 256 && forall i :: 0 <= i < 256 ==> t[i] == TableEntry(i)
  }

  function TableIndex(b: uint8, r: Register): (i: int)
    ensures 0 <= i < 256
  {
    ValueBound(Xor(Octet(b), HighByte(r)));
    Value(Xor(Octet(b), HighByte(r)))
  }

  /** One table lookup does the work of eight division steps. */
  lemma TableStep(t: seq<Register>, r: Register, b: uint8)
    requires IsTable(t)
    ensures Xor(t[TableIndex(b, r)], Shl(r, 8)) == Absorb(r, b)
  {
    hide Bits, DivideBit;
    var data := Xor(Octet(b), HighByte(r));
    BitsOfValue(data);
    var low: Register := r[..8] + Zeros(8);
    DivisionShifts(low, 8);
    assert Shl(low, 8) == Shl(r, 8);
    DivideBitsLinear(AtTop(data), low, 8);
    assert Xor(AtTop(data), low) == Xor(r, AtTop(Octet(b)));
  }

  /** The inner loop of crcSlow and crcInit. */
  method DivideByte(loaded: Register) returns (remainder: Register)
    ensures remainder == DivideBits(loaded, 8)
  {
    hide Xor, Shl, Bits;
    remainder := loaded;
    var bit := 8;
    while bit > 0
      invariant 0 <= bit <= 8
      invariant DivideBits(remainder, bit) == DivideBits(loaded, 8)
    {
      ghost var divided := DivideBit(remainder);
      if remainder[15] {
        remainder := Xor(Shl(remainder, 1), POLYNOMIAL);
      } else {
        remainder := Shl(remainder, 1);
      }
      assert remainder == divided;
      bit := bit - 1;
    }
  }

  method CrcSlow(message: seq<uint8>, nBytes: int) returns (crc: Register)
    requires nBytes <= |message|
    ensures crc == Crc(message[..if nBytes < 0 then 0 else nBytes])
  {
    var remainder := INITIAL_REMAINDER;
    var byte := 0;
    while byte < nBytes
      invariant 0 <= byte && (byte <= nBytes || byte == 0)
      invariant remainder == Crc(message[..byte])
    {
      assert message[..byte + 1][..byte] == message[..byte];
      remainder := DivideByte(Xor(remainder, AtTop(Octet(message[byte]))));
      byte := byte + 1;
    }
    crc := Xor(remainder, FINAL_XOR_VALUE);
    FinalXorIsIdentity(remainder);
  }

  lemma FinalXorIsIdentity(r: Register)
    ensures Xor(r, FINAL_XOR_VALUE) == r
  {
  }

  /** The n low bits in reverse order. */
  function Reflected(data: Word, n: nat): (w: Word)
    requires n <= |data|
    ensures |w| == |data|
  {
    seq(|data|, k requires 0 <= k < |data| => k < n && data[n - 1 - k])
  }

  /** Reflection undoes itself on the bits it keeps. */
  lemma ReflectedTwice(data: Word, n: nat)
    requires n <= |data|
    ensures Reflected(Reflected(data, n), n) == data[..n] + Zeros(|data| - n)
  {
  }

  lemma SetBit(w: Word, k: nat)
    requires |w| == 32 && k < 32
    ensures Or(w, Shl([true] + Zeros(31), k)) == w[k := true]
  {
  }

  /** Not called in this configuration: REFLECT_DATA and REFLECT_REMAINDER are off. */
  method Reflect(data: Word, nBits: nat) returns (reflection: Word)
    requires |data| == 32 && nBits <= 32
    ensures reflection == Reflected(data, nBits)
  {
    hide Or, Shl;
    reflection := Zeros(32);
    var rest := data;
    for bit := 0 to nBits
      invariant |rest| == |reflection| == 32
      invariant forall k :: 0 <= k < 32 ==> rest[k] == (k + bit < 32 && data[k + bit])
      invariant forall k :: 0 <= k < 32 ==> reflection[k] == (nBits - bit <= k < nBits && data[nBits - 1 - k])
    {
      SetBit(reflection, nBits - 1 - bit);
      if rest[0] {
        reflection := Or(reflection, Shl([true] + Zeros(31), nBits - 1 - bit));
      }
      rest := Shr(rest, 1);
    }
  }

  class Calculator {
    const crcTable: array<Register>

    constructor ()
      ensures crcTable.Length == 256 && fresh(crcTable)
    {
      crcTable := new Register[256](_ => Zeros(16));
    }

    method CrcInit()
      requires crcTable.Length == 256
      modifies crcTable
      ensures IsTable(crcTable[..])
    {
      var dividend := 0;
      while dividend < 256
        invariant 0 <= dividend <= 256
        invariant forall i :: 0 <= i < dividend ==> crcTable[i] == TableEntry(i)
      {
        crcTable[dividend] := DivideByte(AtTop(Octet(dividend)));
        dividend := dividend + 1;
      }
    }

    /** The table-driven form computes the bitwise CRC. */
    method CrcFast(message: seq<uint8>, nBytes: int) returns (crc: Register)
      requires nBytes <= |message|
      requires IsTable(crcTable[..])
      ensures crc == Crc(message[..if nBytes < 0 then 0 else nBytes])
    {
      var remainder := INITIAL_REMAINDER;
      var byte := 0;
      while byte < nBytes
        invariant 0 <= byte && (byte <= nBytes || byte == 0)
        invariant remainder == Crc(message[..byte])
      {
        assert message[..byte + 1][..byte] == message[..byte];
        TableStep(crcTable[..], remainder, message[byte]);
        remainder := Xor(crcTable[TableIndex(message[byte], remainder)], Shl(remainder, 8));
        byte := byte + 1;
      }
      crc := Xor(remainder, FINAL_XOR_VALUE);
      FinalXorIsIdentity(remainder);
    }
  }
}
