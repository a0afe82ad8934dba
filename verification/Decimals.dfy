/** Keys in the order of their decimal spellings: the memory of boot_code/stim_utils.py is
    keyed by str(address), and its writers walk sorted(keys). */
module Decimals {

  /** str(n) */
  function Decimal(n: nat): (s: string)
    ensures s != []
  {
    if n < 10 then [Digit(n)] else Decimal(n / 10) + [Digit(n % 10)]
  }

  function Digit(d: nat): char
    requires d < 10
  {
    ('0' as int + d) as char
  }

  /** The order of strings. */
  predicate StringLess(a: string, b: string) {
    b != [] && (a == [] || a[0] < b[0] || (a[0] == b[0] && StringLess(a[1..], b[1..])))
  }

  predicate Before(m: nat, n: nat) {
    StringLess(Decimal(m), Decimal(n))
  }

  predicate SortedAsStrings(keys: seq<nat>) {
    forall i, j :: 0 <= i < j < |keys| ==> Before(keys[i], keys[j])
  }

  /** On these keys the order of the spellings is the order of the numbers. */
  ghost predicate OrdersAgree(keys: set<nat>) {
    forall m, n :: m in keys && n in keys && m < n ==> Before(m, n)
  }

  // ----- What spelling and order mean -----

  function NumberOf(s: string): int {
    if s == [] then 0 else 10 * NumberOf(s[..|s| - 1]) + (s[|s| - 1] as int - 48)
  }

  /** A spelling is digits, without a leading zero unless it is all there is, of the number. */
  lemma {:induction false} SpellingMeans(n: nat)
    ensures forall i :: 0 <= i < |Decimal(n)| ==> '0' <= Decimal(n)[i] <= '9'
    ensures Decimal(n)[0] == '0' ==> n == 0
    ensures NumberOf(Decimal(n)) == n
  {
    if n >= 10 {
      SpellingMeans(n / 10);
      assert Decimal(n)[..|Decimal(n)| - 1] == Decimal(n / 10);
    } else {
      assert Decimal(n)[..0] == [];
    }
  }

  /** At i the strings differ for the first time, and a is the smaller there or has ended. */
  predicate DiffersAt(a: string, b: string, i: nat) {
    i <= |a| && i < |b| && a[..i] == b[..i] && (i < |a| ==> a[i] < b[i])
  }

  lemma {:induction false} OrderMeans(a: string, b: string)
    ensures StringLess(a, b) <==> exists i :: 0 <= i <= |a| && DiffersAt(a, b, i)
  {
    if a != [] && b != [] && a[0] == b[0] {
      OrderMeans(a[1..], b[1..]);
      if i :| 0 <= i <= |a[1..]| && DiffersAt(a[1..], b[1..], i) {
        assert a[..i + 1] == [a[0]] + a[1..][..i] && b[..i + 1] == [b[0]] + b[1..][..i];
        assert DiffersAt(a, b, i + 1);
      }
      if i :| 0 <= i <= |a| && DiffersAt(a, b, i) {
        assert i > 0 && a[1..][..i - 1] == a[..i][1..] && b[1..][..i - 1] == b[..i][1..];
        assert DiffersAt(a[1..], b[1..], i - 1);
      }
    } else {
      FirstDecides(a, b);
      assert StringLess(a, b) ==> DiffersAt(a, b, 0);
    }
  }

  lemma FirstDecides(a: string, b: string)
    requires a == [] || b == [] || a[0] != b[0]
    ensures forall i :: 0 <= i <= |a| && DiffersAt(a, b, i) ==> i == 0
  {
    forall i | 0 < i <= |a| && i < |b|
      ensures a[..i] != b[..i]
    {
      assert a[..i][0] != b[..i][0];
    }
  }

  // ----- The order is total -----

  lemma {:induction false} LessIsTransitive(a: string, b: string, c: string)
    requires StringLess(a, b) && StringLess(b, c)
    ensures StringLess(a, c)
  {
    if a != [] && a[0] == b[0] && b[0] == c[0] {
      LessIsTransitive(a[1..], b[1..], c[1..]);
    }
  }

  lemma {:induction false} LessIsTotal(a: string, b: string)
    ensures a == b || StringLess(a, b) || StringLess(b, a)
    ensures !(StringLess(a, b) && StringLess(b, a))
    ensures !StringLess(a, a)
  {
    if a != [] && b != [] && a[0] == b[0] {
      LessIsTotal(a[1..], b[1..]);
      assert a[1..] == b[1..] ==> [a[0]] + a[1..] == [b[0]] + b[1..];
      assert a == [a[0]] + a[1..] && b == [b[0]] + b[1..];
    }
    if a != [] {
      LessIsTotal(a[1..], a[1..]);
    }
  }

  lemma {:induction false} DecimalIsInjective(m: nat, n: nat)
    requires Decimal(m) == Decimal(n)
    ensures m == n
  {
    if m >= 10 && n >= 10 {
      var a, b := Decimal(m), Decimal(n);
      assert a[..|a| - 1] == Decimal(m / 10) && b[..|b| - 1] == Decimal(n / 10);
      assert a[|a| - 1] == Digit(m % 10) && b[|b| - 1] == Digit(n % 10);
      DecimalIsInjective(m / 10, n / 10);
    }
  }

  lemma BeforeIsTotal(m: nat, n: nat)
    ensures m == n || Before(m, n) || Before(n, m)
    ensures !(Before(m, n) && Before(n, m))
  {
    LessIsTotal(Decimal(m), Decimal(n));
    if Decimal(m) == Decimal(n) {
      DecimalIsInjective(m, n);
    }
  }

  lemma BeforeIsTransitive(l: nat, m: nat, n: nat)
    requires Before(l, m) && Before(m, n)
    ensures Before(l, n)
  {
    LessIsTransitive(Decimal(l), Decimal(m), Decimal(n));
  }

  // ----- String order and numeric order -----

  /** Between strings of one length the last characters decide only a tie. */
  lemma {:induction false} LessAtTheEnd(a: string, b: string, c: char, d: char)
    requires |a| == |b|
    ensures StringLess(a + [c], b + [d]) <==> StringLess(a, b) || (a == b && c < d)
  {
    var x, y := a + [c], b + [d];
    if a == [] {
      assert x[1..] == [] && y[1..] == [];
    } else {
      LessAtTheEnd(a[1..], b[1..], c, d);
      assert x[1..] == a[1..] + [c] && y[1..] == b[1..] + [d];
      assert a == [a[0]] + a[1..] && b == [b[0]] + b[1..];
    }
  }

  /** Numbers with equally many digits are ordered like their spellings. */
  lemma {:induction false} SameLengthOrder(m: nat, n: nat)
    requires |Decimal(m)| == |Decimal(n)|
    ensures Before(m, n) <==> m < n
  {
    if m < 10 && n < 10 {
      LessAtTheEnd([], [], Digit(m), Digit(n));
      assert [] + [Digit(m)] == Decimal(m) && [] + [Digit(n)] == Decimal(n);
    } else {
      SameLengthOrder(m / 10, n / 10);
      LessAtTheEnd(Decimal(m / 10), Decimal(n / 10), Digit(m % 10), Digit(n % 10));
      if Decimal(m / 10) == Decimal(n / 10) {
        DecimalIsInjective(m / 10, n / 10);
      }
    }
  }

  lemma EqualDigitsAgree(keys: set<nat>, digits: nat)
    requires forall k :: k in keys ==> |Decimal(k)| == digits
    ensures OrdersAgree(keys)
  {
    forall m, n | m in keys && n in keys && m < n
      ensures Before(m, n)
    {
      SameLengthOrder(m, n);
    }
  }

  // ----- sorted(keys) -----

  method SortedKeys(s: set<nat>) returns (keys: seq<nat>)
    ensures SortedAsStrings(keys)
    ensures forall k :: k in keys <==> k in s
  {
    keys := [];
    var left := s;
    while left != {}
      invariant left <= s && SortedAsStrings(keys)
      invariant forall k :: k in keys <==> k in s && k !in left
      decreases left
    {
      var k :| k in left;
      var i := 0;
      while i < |keys| && !Before(k, keys[i])
        invariant 0 <= i <= |keys|
        invariant forall j :: 0 <= j < i ==> Before(keys[j], k)
      {
        BeforeIsTotal(k, keys[i]);
        i := i + 1;
      }
      InsertKeepsOrder(keys, i, k);
      keys := keys[..i] + [k] + keys[i..];
      left := left - {k};
    }
  }

  lemma InsertKeepsOrder(keys: seq<nat>, i: nat, k: nat)
    requires SortedAsStrings(keys) && i <= |keys|
    requires forall j :: 0 <= j < i ==> Before(keys[j], k)
    requires i < |keys| ==> Before(k, keys[i])
    ensures SortedAsStrings(keys[..i] + [k] + keys[i..])
    ensures forall x :: x in keys[..i] + [k] + keys[i..] <==> x in keys || x == k
  {
    hide Before;
    var r := keys[..i] + [k] + keys[i..];
    forall p, q | 0 <= p < q < |r|
      ensures Before(r[p], r[q])
    {
      if p == i && q > i + 1 {
        BeforeIsTransitive(k, keys[i], keys[q - 1]);
      }
    }
    forall x
      ensures x in r <==> x in keys || x == k
    {
      assert r[i] == k && keys == keys[..i] + keys[i..];
    }
  }

  // ----- The writing loop closes its gaps -----

  /** n more zero bytes make the loop guard prev != addr - 1 false. */
  predicate Reaches(prev: nat, addr: nat, n: nat) {
    prev + n == addr - 1
  }

  ghost predicate GapCloses(prev: nat, addr: nat) {
    exists n: nat :: Reaches(prev, addr, n)
  }

  /** Every inner loop of the writer ends. */
  ghost predicate WriterEnds(keys: seq<nat>) {
    forall i :: 0 < i < |keys| ==> GapCloses(keys[i - 1], keys[i])
  }

  /** The writer ends exactly when string order and numeric order agree on the keys. */
  lemma WriterEndsIff(keys: seq<nat>, s: set<nat>)
    requires SortedAsStrings(keys) && (forall k :: k in keys <==> k in s)
    ensures WriterEnds(keys) <==> OrdersAgree(s)
  {
    if OrdersAgree(s) {
      Increasing(keys, s);
      forall i | 0 < i < |keys|
        ensures GapCloses(keys[i - 1], keys[i])
      {
        assert Reaches(keys[i - 1], keys[i], keys[i] - 1 - keys[i - 1]);
      }
    }
    if WriterEnds(keys) {
      forall m, n | m in s && n in s && m < n
        ensures Before(m, n)
      {
        assert m in keys && n in keys;
        var i :| 0 <= i < |keys| && keys[i] == m;
        var j :| 0 <= j < |keys| && keys[j] == n;
        if j <= i {
          StepsAscend(keys, j, i);
        }
      }
    }
  }

  /** With bytes at 9 and 10 the keys are sorted as 10, 9, and the writer never ends. */
  lemma NineAndTen()
    ensures SortedAsStrings([10, 9]) && !WriterEnds([10, 9]) && !OrdersAgree({9, 10})
  {
    assert Decimal(1) == [Digit(1)];
    assert Decimal(10) == Decimal(1) + [Digit(0)] == [Digit(1), Digit(0)];
    assert Before(10, 9);
    BeforeIsTotal(9, 10);
    var keys, s := [10, 9], {9, 10};
    assert 9 in s && 10 in s && !Before(9, 10);
    assert forall k :: k in keys <==> k in s;
    WriterEndsIff(keys, s);
  }

  lemma {:induction false} StepsAscend(keys: seq<nat>, i: nat, j: nat)
    requires WriterEnds(keys) && i <= j < |keys|
    ensures keys[i] <= keys[j]
    decreases j
  {
    if i < j {
      StepsAscend(keys, i, j - 1);
      var n: nat :| Reaches(keys[j - 1], keys[j], n);
    }
  }

  lemma Increasing(keys: seq<nat>, s: set<nat>)
    requires SortedAsStrings(keys) && (forall k :: k in keys <==> k in s) && OrdersAgree(s)
    ensures forall i, j :: 0 <= i < j < |keys| ==> keys[i] < keys[j]
  {
    hide Before;
    forall i, j | 0 <= i < j < |keys|
      ensures keys[i] < keys[j]
    {
      BeforeIsTotal(keys[i], keys[j]);
      assert keys[i] in s && keys[j] in s;
    }
  }
}
