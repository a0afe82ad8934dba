/** Machine words as bit vectors, least significant bit first, and the C
    operators on them. Numbers are turned into words and back by Bits and Value. */
module Words {

  type uint8 = x: int | 0 <= x < 0x100
  type uint16 = x: int | 0 <= x < 0x1_0000
  type uint32 = x: int | 0 <= x < 0x1_0000_0000

  type Word = seq<bool>

  function Pow2(n: nat): (p: nat)
    ensures p > 0
  {
    if n == 0 then 1 else 2 * Pow2(n - 1)
  }

  function Bits(x: nat, n: nat): (w: Word)
    ensures |w| == n
  {
    seq(n, k requires 0 <= k => (x / Pow2(k)) % 2 == 1)
  }

  function Value(w: Word): nat {
    if w == [] then 0 else (if w[0] then 1 else 0) + 2 * Value(w[1..])
  }

  function Zeros(n: nat): (w: Word)
    ensures |w| == n
  {
    seq(n, _ => false)
  }

  function Ones(n: nat): (w: Word)
    ensures |w| == n
  {
    seq(n, _ => true)
  }

  function Xor(a: Word, b: Word): (w: Word)
    requires |a| == |b|
    ensures |w| == |a|
  {
    seq(|a|, k requires 0 <= k < |a| => a[k] != b[k])
  }

  function And(a: Word, b: Word): (w: Word)
    requires |a| == |b|
    ensures |w| == |a|
  {
    seq(|a|, k requires 0 <= k < |a| => a[k] && b[k])
  }

  function Or(a: Word, b: Word): (w: Word)
    requires |a| == |b|
    ensures |w| == |a|
  {
    seq(|a|, k requires 0 <= k < |a| => a[k] || b[k])
  }

  function Not(a: Word): (w: Word)
    ensures |w| == |a|
  {
    seq(|a|, k requires 0 <= k < |a| => !a[k])
  }

  /** Shifts keep the width: what leaves the word is lost. */
  function Shl(a: Word, n: nat): (w: Word)
    requires n <= |a|
    ensures |w| == |a|
  {
    Zeros(n) + a[..|a| - n]
  }

  function Shr(a: Word, n: nat): (w: Word)
    requires n <= |a|
    ensures |w| == |a|
  {
    a[n..] + Zeros(n)
  }

  lemma PowersOfTwo()
    ensures Pow2(4) == 0x10 && Pow2(6) == 0x40 && Pow2(8) == 0x100
    ensures Pow2(16) == 0x1_0000 && Pow2(24) == 0x100_0000 && Pow2(32) == 0x1_0000_0000
  {
    assert Pow2(4) == 0x10;
    assert Pow2(8) == 0x100;
    assert Pow2(12) == 0x1000;
    assert Pow2(16) == 0x1_0000;
    assert Pow2(20) == 0x10_0000;
    assert Pow2(24) == 0x100_0000;
    assert Pow2(28) == 0x1000_0000;
  }

  lemma {:induction false} ValueBound(w: Word)
    ensures Value(w) < Pow2(|w|)
  {
    if w != [] {
      ValueBound(w[1..]);
    }
  }

  lemma HalfMod(x: nat, m: nat)
    requires m > 0
    ensures x % (2 * m) == 2 * ((x / 2) % m) + x % 2 && x / (2 * m) == (x / 2) / m
  {
    var h := x / 2;
    assert x == 2 * m * (h / m) + (2 * (h % m) + x % 2);
    DivModUnique(x, 2 * m, h / m, 2 * (h % m) + x % 2);
  }

  lemma PositiveMultiple(d: int, k: int)
    requires d > 0 && k > 0
    ensures d * k >= d
  {
  }

  lemma DivModUnique(x: int, d: int, q: int, r: int)
    requires d > 0 && x == d * q + r && 0 <= r < d
    ensures x / d == q && x % d == r
  {
    var q', r' := x / d, x % d;
    Distributes(d, q, q');
    if q > q' {
      PositiveMultiple(d, q - q');
    } else if q < q' {
      Distributes(d, q', q);
      PositiveMultiple(d, q' - q);
    }
  }

  lemma Distributes(d: int, p: int, q: int)
    ensures d * (p - q) == d * p - d * q
  {
  }

  /** The low bit of a word, and the others. */
  lemma BitsStep(x: nat, n: nat)
    requires n > 0
    ensures Bits(x, n)[0] == (x % 2 == 1) && Bits(x, n)[1..] == Bits(x / 2, n - 1)
  {
    forall k | 0 <= k < n - 1
      ensures x / Pow2(k + 1) == (x / 2) / Pow2(k)
    {
      HalfMod(x, Pow2(k));
    }
  }

  lemma {:induction false} BitsOfValue(w: Word)
    ensures Bits(Value(w), |w|) == w
  {
    if w != [] {
      BitsOfValue(w[1..]);
      BitsStep(Value(w), |w|);
      assert Bits(Value(w), |w|) == [w[0]] + w[1..];
    }
  }

  lemma {:induction false} ValueOfBits(x: nat, n: nat)
    requires x < Pow2(n)
    ensures Value(Bits(x, n)) == x
  {
    if n > 0 {
      ValueOfBits(x / 2, n - 1);
      BitsStep(x, n);
    }
  }

  lemma {:induction false} ValueConcat(a: Word, b: Word)
    ensures Value(a + b) == Value(a) + Pow2(|a|) * Value(b)
  {
    if a == [] {
      assert a + b == b;
    } else {
      ValueConcat(a[1..], b);
      assert (a + b)[1..] == a[1..] + b;
      assert 2 * (Pow2(|a| - 1) * Value(b)) == Pow2(|a|) * Value(b);
    }
  }

  lemma {:induction false} ValueZeros(n: nat)
    ensures Value(Zeros(n)) == 0
  {
    if n > 0 {
      assert Zeros(n)[1..] == Zeros(n - 1);
      ValueZeros(n - 1);
    }
  }

  lemma {:induction false} ValueOnes(n: nat)
    ensures Value(Ones(n)) == Pow2(n) - 1
  {
    if n > 0 {
      assert Ones(n)[1..] == Ones(n - 1);
      ValueOnes(n - 1);
    }
  }

  // ----- C operators on 32-bit numbers -----

  const WORD := 0x1_0000_0000

  function BitAnd(x: uint32, y: uint32): (z: uint32)
  {
    PowersOfTwo();
    ValueBound(And(Bits(x, 32), Bits(y, 32)));
    Value(And(Bits(x, 32), Bits(y, 32)))
  }

  function Complement(x: uint32): uint32 {
    0xFFFF_FFFF - x
  }

  function Add32(x: uint32, y: int): uint32 {
    (x + y) % WORD
  }

  function Sub32(x: uint32, y: int): uint32 {
    (x - y) % WORD
  }

  lemma {:induction false} NotBits(x: nat, n: nat)
    requires x < Pow2(n)
    ensures Bits(Pow2(n) - 1 - x, n) == Not(Bits(x, n))
  {
    if n > 0 {
      NotBits(x / 2, n - 1);
      assert (Pow2(n) - 1 - x) / 2 == Pow2(n - 1) - 1 - x / 2;
      BitsStep(x, n);
      BitsStep(Pow2(n) - 1 - x, n);
      var w, v := Bits(Pow2(n) - 1 - x, n), Not(Bits(x, n));
      assert w == [w[0]] + w[1..] && v == [v[0]] + v[1..];
    }
  }

  lemma MaskNothing(x: nat, n: nat)
    requires x < Pow2(n)
    ensures Value(And(Bits(x, n), Not(Bits(0, n)))) == x
  {
    ZeroBits(n);
    assert And(Bits(x, n), Not(Zeros(n))) == Bits(x, n);
    ValueOfBits(x, n);
  }

  /** Masking off the low k bits rounds down to a multiple of 2^k. */
  lemma {:induction false} MaskLowBits(x: nat, k: nat, n: nat)
    requires k <= n && x < Pow2(n)
    ensures Value(And(Bits(x, n), Not(Bits(Pow2(k) - 1, n)))) == x - x % Pow2(k)
  {
    hide And, Not, Bits;
    if k == 0 {
      MaskNothing(x, n);
    } else {
      MaskLowBits(x / 2, k - 1, n - 1);
      assert (Pow2(k) - 1) / 2 == Pow2(k - 1) - 1 && (Pow2(k) - 1) % 2 == 1;
      MaskedTail(x, Pow2(k) - 1, n);
      HalfMod(x, Pow2(k - 1));
    }
  }

  lemma MaskedTail(x: nat, m: nat, n: nat)
    requires n > 0
    ensures var masked := And(Bits(x, n), Not(Bits(m, n)));
      && masked[0] == (x % 2 == 1 && m % 2 == 0)
      && masked[1..] == And(Bits(x / 2, n - 1), Not(Bits(m / 2, n - 1)))
  {
    BitsStep(x, n);
    BitsStep(m, n);
  }

  lemma ZeroBits(n: nat)
    ensures Bits(0, n) == Zeros(n)
  {
  }

  lemma {:induction false} Pow2Monotone(k: nat, n: nat)
    requires k <= n
    ensures Pow2(k) <= Pow2(n) && Pow2(n) % Pow2(k) == 0
  {
    if k < n {
      Pow2Monotone(k, n - 1);
      var m := Pow2(n - 1) / Pow2(k);
      DivModUnique(Pow2(n), Pow2(k), 2 * m, 0);
    }
  }

  function RoundDown(x: int, b: int): int
    requires b > 0
  {
    x - x % b
  }

  /** The least multiple of b that is not below x. */
  function RoundUp(x: int, b: int): int
    requires b > 0
  {
    RoundDown(x + b - 1, b)
  }

  lemma RoundUpBounds(x: int, b: int)
    requires b > 0
    ensures x <= RoundUp(x, b) < x + b && RoundUp(x, b) % b == 0
  {
    var y := x + b - 1;
    DivModUnique(RoundUp(x, b), b, y / b, 0);
  }

  lemma MultiplesApart(a: int, c: int, b: int)
    requires b > 0 && a % b == 0 && c % b == 0 && a < c
    ensures a + b <= c
  {
    var p, q := a / b, c / b;
    assert a == b * p && c == b * q;
    Distributes(b, q, p);
    if q > p {
      PositiveMultiple(b, q - p);
    } else if q < p {
      Distributes(b, p, q);
      PositiveMultiple(b, p - q);
    }
  }

  /** A multiple of b is below RoundUp(x, b) exactly when it is below x. */
  lemma RoundUpLeast(x: int, b: int, a: int)
    requires b > 0 && a % b == 0
    ensures a < RoundUp(x, b) <==> a < x
  {
    RoundUpBounds(x, b);
    if x <= a < RoundUp(x, b) {
      MultiplesApart(a, RoundUp(x, b), b);
    }
  }

  /** x & ~(b - 1) in 32 bits. */
  lemma BitAndAligns(x: uint32, k: nat)
    requires k < 32
    ensures 0 < Pow2(k) < WORD && BitAnd(x, Complement(Pow2(k) - 1)) == RoundDown(x, Pow2(k))
  {
    PowersOfTwo();
    Pow2Monotone(k, 31);
    NotBits(Pow2(k) - 1, 32);
    MaskLowBits(x, k, 32);
  }

  /** Rounding up in 32 bits: (x + b - 1) & ~(b - 1), as long as the result fits. */
  lemma RoundUpInWord(x: uint32, k: nat)
    requires k < 32
    ensures 0 < Pow2(k) < WORD
    ensures RoundUp(x, Pow2(k)) < WORD
        ==> BitAnd(Add32(x, Pow2(k) - 1), Complement(Pow2(k) - 1)) == RoundUp(x, Pow2(k))
  {
    hide BitAnd, RoundUp, RoundDown;
    var b := Pow2(k);
    BitAndAligns(Add32(x, b - 1), k);
    if RoundUp(x, b) < WORD {
      PowersOfTwo();
      Pow2Monotone(k, 32);
      RoundUpNoCarry(x, b);
      RoundUpIsDown(x, b);
    }
  }

  lemma RoundUpIsDown(x: int, b: int)
    requires b > 0
    ensures RoundUp(x, b) == RoundDown(x + b - 1, b)
  {
  }

  lemma RoundUpNoCarry(x: int, b: int)
    requires 0 < b && 0 <= x && WORD % b == 0 && RoundUp(x, b) < WORD
    ensures x + b - 1 < WORD
  {
    RoundUpBounds(x, b);
    MultiplesApart(RoundUp(x, b), WORD, b);
  }
}
