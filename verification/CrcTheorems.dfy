/** What the CRC means: it is the remainder of polynomial division, and from
    that follow the errors it detects and the test a receiver may apply. */
module CrcTheorems {
  import opened Words
  import opened Gf2
  import opened CrcCcitt

  // ----- The CRC is the remainder of the preset message -----

  /** x^16 + x^12 + x^5 + 1 */
  const GENERATOR: Poly := POLYNOMIAL + [true]

  lemma GeneratorTerms()
    ensures |GENERATOR| == 17 && Monic(GENERATOR)
    ensures forall k :: Coef(GENERATOR, k) <==> k == 0 || k == 5 || k == 12 || k == 16
  {
  }

  /** The message as a polynomial: its very last bit is the constant term. */
  function MessagePoly(m: seq<uint8>): (p: Poly)
    ensures |p| == 8 * |m|
  {
    if m == [] then [] else Octet(m[|m| - 1]) + MessagePoly(m[..|m| - 1])
  }

  /** The message followed by sixteen zeros, with its first sixteen bits inverted. */
  function Dividend(m: seq<uint8>): Poly {
    Add(Shift(MessagePoly(m), 16), Shift(Ones(16), 8 * |m|))
  }

  lemma RegisterStep(r: Register)
    ensures Same(Shift(r, 1), Add(Scale(r[15], GENERATOR), DivideBit(r)))
  {
    hide Bits;
    GeneratorTerms();
    forall k
      ensures Coef(Shift(r, 1), k) == ((r[15] && Coef(GENERATOR, k)) != Coef(DivideBit(r), k))
    {
      assert 0 <= k < 16 ==> POLYNOMIAL[k] == Coef(GENERATOR, k);
    }
  }

  /** n bits of division extend the quotient and keep the division equation. */
  lemma {:induction false} DivisionStep(d: Poly, q: Poly, r: Register, n: nat) returns (q': Poly)
    requires Same(d, Add(Mul(q, GENERATOR), r))
    ensures Same(Shift(d, n), Add(Mul(q', GENERATOR), DivideBits(r, n)))
    decreases n
  {
    hide Mul, DivideBit, GENERATOR;
    if n == 0 {
      assert Shift(d, 0) == d;
      return q;
    }
    var q1 := [r[15]] + q;
    forall k
      ensures Coef(Shift(d, 1), k) == Coef(Add(Mul(q1, GENERATOR), DivideBit(r)), k)
    {
      assert q1[1..] == q;
      MulCoef(q1, GENERATOR, k);
      RegisterStep(r);
      assert Coef(Shift(r, 1), k) == Coef(Add(Scale(r[15], GENERATOR), DivideBit(r)), k);
      assert Coef(d, k - 1) == Coef(Add(Mul(q, GENERATOR), r), k - 1);
    }
    q' := DivisionStep(Shift(d, 1), q1, DivideBit(r), n - 1);
    assert Shift(Shift(d, 1), n - 1) == Shift(d, n);
  }

  lemma DividendOfByte(p: seq<uint8>, b: uint8)
    ensures Same(Dividend(p + [b]), Shift(Add(Dividend(p), AtTop(Octet(b))), 8))
  {
    hide Bits;
    var m := p + [b];
    assert m[..|p|] == p;
    forall k
      ensures Coef(Dividend(m), k) == Coef(Shift(Add(Dividend(p), AtTop(Octet(b))), 8), k)
    {
      assert Coef(AtTop(Octet(b)), k - 8) == Coef(Octet(b), k - 16);
      assert Coef(MessagePoly(m), k - 16) == (Coef(Octet(b), k - 16) != Coef(MessagePoly(p), k - 24));
    }
  }

  lemma {:induction false} Quotient(m: seq<uint8>) returns (q: Poly)
    ensures Same(Dividend(m), Add(Mul(q, GENERATOR), Crc(m)))
  {
    hide Bits, Mul, GENERATOR, DivideBits;
    if m == [] {
      q := [];
      assert Mul(q, GENERATOR) == [] by { MulEmpty(GENERATOR); }
    } else {
      var p, b := m[..|m| - 1], m[|m| - 1];
      assert m == p + [b];
      var q0 := Quotient(p);
      var loaded := Xor(Crc(p), AtTop(Octet(b)));
      var d := Add(Dividend(p), AtTop(Octet(b)));
      assert Same(d, Add(Mul(q0, GENERATOR), loaded));
      q := DivisionStep(d, q0, loaded, 8);
      DividendOfByte(p, b);
    }
  }

  /** The CRC of any message is the remainder of the preset message modulo the
      generator, and nothing else is. */
  lemma CrcIsRemainder(m: seq<uint8>, r: Register)
    ensures IsRemainder(Dividend(m), GENERATOR, r) <==> r == Crc(m)
  {
    GeneratorTerms();
    var q := Quotient(m);
    assert IsRemainder(Dividend(m), GENERATOR, Crc(m));
    if IsRemainder(Dividend(m), GENERATOR, r) {
      RemainderUnique(Dividend(m), GENERATOR, r, Crc(m));
      forall k | 0 <= k < 16
        ensures r[k] == Crc(m)[k]
      {
        assert Coef(r, k) == Coef(Crc(m), k);
      }
    }
  }

  // ----- Error patterns -----

  /** Where two messages of one length differ, bit by bit. */
  function Difference(m1: seq<uint8>, m2: seq<uint8>): Poly
    requires |m1| == |m2|
  {
    Xor(MessagePoly(m1), MessagePoly(m2))
  }

  lemma DifferentOctets(b1: uint8, b2: uint8) returns (k: nat)
    requires b1 != b2
    ensures k < 8 && Octet(b1)[k] != Octet(b2)[k]
  {
    PowersOfTwo();
    ValueOfBits(b1, 8);
    ValueOfBits(b2, 8);
    assert Octet(b1) != Octet(b2);
    k :| 0 <= k < 8 && Octet(b1)[k] != Octet(b2)[k];
  }

  lemma {:induction false} DifferentMessages(m1: seq<uint8>, m2: seq<uint8>) returns (k: nat)
    requires |m1| == |m2| && m1 != m2
    ensures Coef(Difference(m1, m2), k)
  {
    hide Octet;
    var n := |m1| - 1;
    if m1[n] != m2[n] {
      k := DifferentOctets(m1[n], m2[n]);
    } else {
      assert m1 == m1[..n] + [m1[n]] && m2 == m2[..n] + [m2[n]];
      k := DifferentMessages(m1[..n], m2[..n]);
      k := k + 8;
    }
  }

  /** Messages with one CRC differ by a multiple of the generator. */
  lemma CollisionIsMultiple(m1: seq<uint8>, m2: seq<uint8>) returns (q: Poly)
    requires |m1| == |m2| && Crc(m1) == Crc(m2)
    ensures Same(Shift(Difference(m1, m2), 16), Mul(q, GENERATOR))
  {
    hide Mul, GENERATOR;
    var q1 := Quotient(m1);
    var q2 := Quotient(m2);
    q := Add(q1, q2);
    MulDistributes(q1, q2, GENERATOR);
    forall k
      ensures Coef(Shift(Difference(m1, m2), 16), k) == Coef(Mul(q, GENERATOR), k)
    {
      assert Coef(Dividend(m1), k) == Coef(Add(Mul(q1, GENERATOR), Crc(m1)), k);
      assert Coef(Dividend(m2), k) == Coef(Add(Mul(q2, GENERATOR), Crc(m2)), k);
      assert Coef(Difference(m1, m2), k - 16)
          == (Coef(MessagePoly(m1), k - 16) != Coef(MessagePoly(m2), k - 16));
    }
  }

  /** The generator has a constant term, so powers of x cancel from its multiples. */
  lemma {:induction false} CancelPowerOfX(p: Poly, n: nat, q: Poly) returns (q': Poly)
    requires Same(Shift(p, n), Mul(q, GENERATOR))
    ensures Same(p, Mul(q', GENERATOR))
    decreases n
  {
    GeneratorTerms();
    hide Mul, GENERATOR;
    if n == 0 {
      assert Shift(p, 0) == p;
      return q;
    }
    assert !Coef(Shift(p, n), 0);
    if q == [] {
      MulEmpty(GENERATOR);
      q' := [];
      forall k
        ensures Coef(p, k) == Coef(Mul(q', GENERATOR), k)
      {
        assert Coef(Shift(p, n), k + n) == Coef(Mul(q, GENERATOR), k + n);
      }
    } else {
      MulCoef(q, GENERATOR, 0);
      assert !q[0] by {
        assert Coef(Shift(p, n), 0) == Coef(Mul(q, GENERATOR), 0);
        assert !Coef(Mul(q[1..], GENERATOR), -1);
      }
      forall k
        ensures Coef(Shift(p, n - 1), k) == Coef(Mul(q[1..], GENERATOR), k)
      {
        MulCoef(q, GENERATOR, k + 1);
        assert Coef(Shift(p, n), k + 1) == Coef(Mul(q, GENERATOR), k + 1);
      }
      q' := CancelPowerOfX(p, n - 1, q[1..]);
    }
  }

  /** No non-zero polynomial of degree below sixteen is a multiple of the generator. */
  lemma ShortMultipleIsZero(p: Poly, q: Poly)
    requires Same(p, Mul(q, GENERATOR)) && forall k :: 16 <= k ==> !Coef(p, k)
    ensures forall k :: !Coef(p, k)
  {
    GeneratorTerms();
    hide Mul, GENERATOR;
    if exists k :: Coef(q, k) {
      var t := HighestCoef(q);
      MulTop(q, GENERATOR, t);
    } else {
      MulZero(q, GENERATOR);
    }
  }

  /** A burst of at most sixteen bits, at any bit offset, changes the CRC. */
  lemma BurstDetected(m1: seq<uint8>, m2: seq<uint8>, at: nat)
    requires |m1| == |m2| && m1 != m2
    requires forall k :: Coef(Difference(m1, m2), k) ==> at <= k < at + 16
    ensures Crc(m1) != Crc(m2)
  {
    hide Mul, GENERATOR;
    if Crc(m1) == Crc(m2) {
      var d := Difference(m1, m2);
      var e := DifferentMessages(m1, m2);
      var burst := d[at..];
      assert Coef(burst, e - at);
      var q := CollisionIsMultiple(m1, m2);
      forall k
        ensures Coef(Shift(burst, at + 16), k) == Coef(Mul(q, GENERATOR), k)
      {
        assert Coef(Shift(d, 16), k) == Coef(Mul(q, GENERATOR), k);
        assert Coef(burst, k - 16 - at) == (k - 16 - at >= 0 && Coef(d, k - 16));
        assert Coef(d, k - 16) ==> at <= k - 16;
      }
      var q' := CancelPowerOfX(burst, at + 16, q);
      forall k | 16 <= k
        ensures !Coef(burst, k)
      {
        assert Coef(burst, k) ==> Coef(d, k + at);
      }
      ShortMultipleIsZero(burst, q');
    }
  }

  // ----- Parity -----

  function Odd(p: Poly): bool {
    if p == [] then false else p[0] != Odd(p[1..])
  }

  lemma {:induction false} OddOfZero(p: Poly)
    requires forall k :: !Coef(p, k)
    ensures !Odd(p)
  {
    if p != [] {
      assert !Coef(p, 0);
      forall k ensures !Coef(p[1..], k) {
        assert !Coef(p, k + 1);
      }
      OddOfZero(p[1..]);
    }
  }

  lemma {:induction false} OddOfSum(p: Poly, q: Poly, s: Poly)
    requires forall k :: Coef(s, k) == (Coef(p, k) != Coef(q, k))
    ensures Odd(s) == (Odd(p) != Odd(q))
    decreases |p| + |q| + |s|
  {
    if p == [] && q == [] {
      forall k ensures !Coef(s, k) {
        assert !Coef(p, k) && !Coef(q, k);
      }
      OddOfZero(s);
    } else {
      var p', q', s' := Tail(p), Tail(q), Tail(s);
      forall k ensures Coef(s', k) == (Coef(p', k) != Coef(q', k)) {
        if 0 <= k {
          assert Coef(s, k + 1) == (Coef(p, k + 1) != Coef(q, k + 1));
        }
      }
      OddOfSum(p', q', s');
      assert Coef(s, 0) == (Coef(p, 0) != Coef(q, 0));
    }
  }

  function Tail(p: Poly): (t: Poly)
    ensures forall k {:trigger Coef(t, k)} :: Coef(t, k) == (0 <= k && Coef(p, k + 1))
    ensures Odd(p) == (Coef(p, 0) != Odd(t))
  {
    if p == [] then [] else p[1..]
  }

  lemma OddOfSame(p: Poly, q: Poly)
    requires Same(p, q)
    ensures Odd(p) == Odd(q)
  {
    OddOfSum(p, [], q);
  }

  lemma {:induction false} OddOfShift(p: Poly, n: nat)
    ensures Odd(Shift(p, n)) == Odd(p)
    decreases n
  {
    if n == 0 {
      assert Shift(p, 0) == p;
    } else {
      assert Shift(p, n)[1..] == Shift(p, n - 1);
      OddOfShift(p, n - 1);
    }
  }

  lemma {:induction false} OddOfProduct(q: Poly, g: Poly)
    ensures Odd(Mul(q, g)) == (Odd(q) && Odd(g))
  {
    if q != [] {
      OddOfProduct(q[1..], g);
      OddOfShift(Mul(q[1..], g), 1);
      OddOfSum(Scale(q[0], g), Shift(Mul(q[1..], g), 1), Mul(q, g));
    }
  }

  lemma {:induction false} OddOfConcat(p: Poly, q: Poly)
    ensures Odd(p + q) == (Odd(p) != Odd(q))
  {
    if p == [] {
      assert p + q == q;
    } else {
      assert (p + q)[1..] == p[1..] + q;
      OddOfConcat(p[1..], q);
    }
  }

  /** x + 1 divides the generator. */
  lemma GeneratorIsEven()
    ensures !Odd(GENERATOR)
  {
    OddOfConcat([true] + Zeros(4) + [true] + Zeros(6) + [true] + Zeros(3), [true]);
    OddOfConcat([true] + Zeros(4) + [true] + Zeros(6) + [true], Zeros(3));
    OddOfConcat([true] + Zeros(4) + [true] + Zeros(6), [true]);
    OddOfConcat([true] + Zeros(4) + [true], Zeros(6));
    OddOfConcat([true] + Zeros(4), [true]);
    OddOfConcat([true], Zeros(4));
    OddOfZero(Zeros(3));
    OddOfZero(Zeros(4));
    OddOfZero(Zeros(6));
    assert Odd([true]);
  }

  /** An error of odd weight changes the CRC. */
  lemma OddErrorDetected(m1: seq<uint8>, m2: seq<uint8>)
    requires |m1| == |m2| && Odd(Difference(m1, m2))
    ensures Crc(m1) != Crc(m2)
  {
    hide Mul, GENERATOR, Odd;
    if Crc(m1) == Crc(m2) {
      var q := CollisionIsMultiple(m1, m2);
      OddOfSame(Shift(Difference(m1, m2), 16), Mul(q, GENERATOR));
      OddOfShift(Difference(m1, m2), 16);
      OddOfProduct(q, GENERATOR);
      GeneratorIsEven();
    }
  }

  // ----- The receiver's test -----

  lemma {:induction false} DivideBitsCompose(r: Register, m: nat, n: nat)
    ensures DivideBits(DivideBits(r, m), n) == DivideBits(r, m + n)
    decreases m
  {
    if m > 0 {
      DivideBitsCompose(DivideBit(r), m - 1, n);
    }
  }

  lemma {:induction false} DivisionKeepsNonZero(r: Register, n: nat)
    ensures DivideBits(r, n) == Zeros(16) <==> r == Zeros(16)
    decreases n
  {
    if n > 0 {
      DivisionKeepsNonZero(DivideBit(r), n - 1);
      assert DivideBit(Zeros(16)) == Zeros(16);
      if DivideBit(r) == Zeros(16) {
        assert !r[15] by {
          assert !DivideBit(r)[0];
        }
        forall k | 0 <= k < 15
          ensures !r[k]
        {
          assert !DivideBit(r)[k + 1];
        }
        assert r == Zeros(16);
      }
    }
  }

  lemma CrcOfByte(p: seq<uint8>, b: uint8)
    ensures Crc(p + [b]) == Absorb(Crc(p), b)
  {
    assert (p + [b])[..|p|] == p;
  }

  /** The 16-bit word sent as high byte, then low byte. */
  function Trailer(hi: uint8, lo: uint8): Register {
    Octet(lo) + Octet(hi)
  }

  /** Feeding two bytes is feeding the word they spell. */
  lemma FeedTwo(r: Register, hi: uint8, lo: uint8)
    ensures Absorb(Absorb(r, hi), lo) == DivideBits(Xor(r, Trailer(hi, lo)), 16)
  {
    hide Octet, DivideBit;
    var a := Xor(r, AtTop(Octet(hi)));
    var low: Register := Octet(lo) + Zeros(8);
    DivisionShifts(low, 8);
    assert Shl(low, 8) == AtTop(Octet(lo));
    DivideBitsLinear(a, low, 8);
    DivideBitsCompose(Xor(a, low), 8, 8);
    assert Xor(a, low) == Xor(r, Trailer(hi, lo));
  }

  /** A frame ends with the CRC of what precedes it, high byte first, exactly
      when the CRC of the whole frame is zero. */
  lemma TrailerTest(p: seq<uint8>, hi: uint8, lo: uint8)
    ensures Trailer(hi, lo) == Crc(p) <==> Crc(p + [hi, lo]) == Zeros(16)
  {
    hide Octet, DivideBit, DivideBits;
    var f := p + [hi, lo];
    assert f == p + [hi] + [lo];
    CrcOfByte(p, hi);
    CrcOfByte(p + [hi], lo);
    FeedTwo(Crc(p), hi, lo);
    assert Trailer(hi, lo) == Crc(p) ==> Xor(Crc(p), Trailer(hi, lo)) == Zeros(16);
    DivisionKeepsNonZero(Xor(Crc(p), Trailer(hi, lo)), 16);
    if Xor(Crc(p), Trailer(hi, lo)) == Zeros(16) {
      forall k | 0 <= k < 16
        ensures Trailer(hi, lo)[k] == Crc(p)[k]
      {
        assert !Xor(Crc(p), Trailer(hi, lo))[k];
      }
    }
  }

  /** A received frame, split at its trailer. */
  ghost predicate TrailerMatches(f: seq<uint8>)
    requires |f| >= 2
  {
    Trailer(f[|f| - 2], f[|f| - 1]) == Crc(f[..|f| - 2])
  }

  lemma TrailerMatchesIffZero(f: seq<uint8>)
    requires |f| >= 2
    ensures TrailerMatches(f) <==> Crc(f) == Zeros(16)
  {
    assert f == f[..|f| - 2] + [f[|f| - 2], f[|f| - 1]];
    TrailerTest(f[..|f| - 2], f[|f| - 2], f[|f| - 1]);
  }

  /** A frame that passed the test fails it after a burst of at most sixteen
      bits, or after any odd number of bit errors, trailer included. */
  lemma CorruptionDetected(sent: seq<uint8>, received: seq<uint8>, at: nat)
    requires |sent| == |received| >= 2 && TrailerMatches(sent) && sent != received
    requires (forall k :: Coef(Difference(sent, received), k) ==> at <= k < at + 16)
          || Odd(Difference(sent, received))
    ensures !TrailerMatches(received)
  {
    TrailerMatchesIffZero(sent);
    TrailerMatchesIffZero(received);
    if Odd(Difference(sent, received)) {
      OddErrorDetected(sent, received);
    } else {
      BurstDetected(sent, received, at);
    }
  }
}
