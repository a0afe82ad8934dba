/** Hexadecimal text: the parser atoh of a2_boot/main.c and the printer of a2_boot/dbg.c.
    Characters are bytes holding ASCII codes. */
module Hex {
  import opened Words

  const NUL: uint8 := 0
  const SPACE: uint8 := 32
  const CHAR_0: uint8 := 48
  const CHAR_9: uint8 := 57
  const CHAR_UPPER_A: uint8 := 65
  const CHAR_UPPER_F: uint8 := 70
  const CHAR_LOWER_A: uint8 := 97
  const CHAR_LOWER_F: uint8 := 102

  predicate IsHexDigit(c: uint8) {
    CHAR_0 <= c <= CHAR_9 || CHAR_UPPER_A <= c <= CHAR_UPPER_F || CHAR_LOWER_A <= c <= CHAR_LOWER_F
  }

  function DigitValue(c: uint8): (d: uint8)
    requires IsHexDigit(c)
    ensures d < 16
  {
    if c <= CHAR_9 then c - CHAR_0
    else if c <= CHAR_UPPER_F then c - CHAR_UPPER_A + 10
    else c - CHAR_LOWER_A + 10
  }

  predicate EndsText(c: uint8) {
    c == NUL || c == SPACE
  }

  // ----- Parsing -----

  /** The parser's digit: a character that is no digit repeats the one before it. */
  function Digit(c: uint8, last: uint8): uint8 {
    if IsHexDigit(c) then DigitValue(c) else last
  }

  function NextValue(value: nat, d: nat): uint32 {
    (value * 16 + d) % WORD
  }

  lemma NextValueModular(v: nat, d: nat)
    ensures NextValue(v % WORD, d) == NextValue(v, d) == (v * 16 % WORD + d) % WORD
  {
    AddWords(v % WORD * 16 + d, 16 * (v / WORD));
    AddWords(v * 16 % WORD + d, v * 16 / WORD);
  }

  lemma AddWords(x: int, k: int)
    ensures (x + WORD * k) % WORD == x % WORD
  {
  }

  /** The parser's loop from some point on. */
  function AtohFrom(text: seq<uint8>, value: uint32, last: uint8): uint32 {
    if text == [] || EndsText(text[0]) then value
    else var d := Digit(text[0], last); AtohFrom(text[1..], NextValue(value, d), d)
  }

  function Atoh(text: seq<uint8>): uint32 {
    AtohFrom(text, 0, 0)
  }

  method AtohLoop(aBuf: seq<uint8>, aSize: uint16) returns (lValue: uint32)
    requires aSize <= |aBuf|
    ensures lValue == Atoh(aBuf[..aSize])
  {
    hide NextValue;
    ghost var text := aBuf[..aSize];
    var i := 0;
    var lChar: uint8 := 0;
    lValue := 0;
    while i < aSize && aBuf[i] != NUL && aBuf[i] != SPACE
      invariant 0 <= i <= aSize
      invariant AtohFrom(text[i..], lValue, lChar) == Atoh(text)
    {
      assert text[i..][1..] == text[i + 1..];
      ghost var d := Digit(aBuf[i], lChar);
      if aBuf[i] >= CHAR_0 && aBuf[i] <= CHAR_9 {
        lChar := aBuf[i] - CHAR_0;
      } else if aBuf[i] >= CHAR_UPPER_A && aBuf[i] <= CHAR_UPPER_F {
        lChar := aBuf[i] - CHAR_UPPER_A + 10;
      } else if aBuf[i] >= CHAR_LOWER_A && aBuf[i] <= CHAR_LOWER_F {
        lChar := aBuf[i] - CHAR_LOWER_A + 10;
      }
      assert lChar == d;
      NextValueModular(lValue, d);
      lValue := lValue * 16 % WORD;
      lValue := (lValue + lChar) % WORD;
      i := i + 1;
    }
  }

  // ----- Meaning -----

  predicate IsHexText(text: seq<uint8>) {
    forall i :: 0 <= i < |text| ==> IsHexDigit(text[i])
  }

  /** The number that v followed by the digits of the text denotes. */
  function HexFrom(text: seq<uint8>, v: nat): nat
    requires IsHexText(text)
  {
    if text == [] then v else HexFrom(text[1..], 16 * v + DigitValue(text[0]))
  }

  /** atoh reads the digits up to a terminator, modulo 2^32. */
  lemma {:induction false} AtohReads(text: seq<uint8>, rest: seq<uint8>, v: nat, last: uint8)
    requires IsHexText(text) && (rest == [] || EndsText(rest[0]))
    ensures AtohFrom(text + rest, v % WORD, last) == HexFrom(text, v) % WORD
  {
    hide NextValue, DigitValue;
    if text == [] {
      assert text + rest == rest;
    } else {
      var d := DigitValue(text[0]);
      assert (text + rest)[0] == text[0] && (text + rest)[1..] == text[1..] + rest;
      HexDigitsEndNothing(text[0]);
      NextValueModular(v, d);
      assert NextValue(v, d) == (16 * v + d) % WORD by {
        NextValueIs(v, d);
      }
      AtohReads(text[1..], rest, 16 * v + d, d);
    }
  }

  lemma HexDigitsEndNothing(c: uint8)
    requires IsHexDigit(c)
    ensures !EndsText(c)
  {
  }

  lemma NextValueIs(v: nat, d: nat)
    ensures NextValue(v, d) == (16 * v + d) % WORD
  {
  }

  /** The text spells the bytes, two digits each, in either case. */
  predicate Spells(text: seq<uint8>, bytes: seq<uint8>) {
    && |text| == 2 * |bytes|
    && IsHexText(text)
    && forall i :: 0 <= i < |bytes| ==> ByteAt(text, i) == bytes[i]
  }

  function ByteAt(text: seq<uint8>, i: nat): uint8
    requires 2 * i + 1 < |text| && IsHexText(text)
  {
    16 * DigitValue(text[2 * i]) + DigitValue(text[2 * i + 1])
  }

  /** The number that v followed by the bytes denotes, most significant first. */
  function BigEndianFrom(bytes: seq<uint8>, v: nat): nat {
    if bytes == [] then v else BigEndianFrom(bytes[1..], 0x100 * v + bytes[0])
  }

  function BigEndian(bytes: seq<uint8>): nat {
    BigEndianFrom(bytes, 0)
  }

  lemma {:induction false} SpelledNumber(text: seq<uint8>, bytes: seq<uint8>, v: nat)
    requires Spells(text, bytes)
    ensures HexFrom(text, v) == BigEndianFrom(bytes, v)
    decreases |bytes|
  {
    if bytes != [] {
      SpellsTail(text, bytes);
      assert ByteAt(text, 0) == bytes[0];
      assert text[1..][1..] == text[2..];
      SpelledNumber(text[2..], bytes[1..], 0x100 * v + bytes[0]);
    }
  }

  lemma SpellsTail(text: seq<uint8>, bytes: seq<uint8>)
    requires Spells(text, bytes) && bytes != []
    ensures Spells(text[2..], bytes[1..])
  {
    forall i | 0 <= i < |bytes| - 1
      ensures ByteAt(text[2..], i) == bytes[i + 1]
    {
      assert ByteAt(text, i + 1) == bytes[i + 1];
    }
  }

  /** A NUL-terminated spelling reads as the number its bytes denote. */
  lemma AtohSpelled(text: seq<uint8>, bytes: seq<uint8>)
    requires Spells(text, bytes)
    ensures Atoh(text + [NUL]) == BigEndian(bytes) % WORD
  {
    AtohReads(text, [NUL], 0, 0);
    SpelledNumber(text, bytes, 0);
  }

  /** The characters of a digit: 48 to 57, or a letter in either case. */
  lemma DigitMeans(d: nat, c: uint8)
    requires d < 16
    ensures IsHexDigit(c) && DigitValue(c) == d
       <==> if d < 10 then c as int == 48 + d else c as int == 65 + (d - 10) || c as int == 97 + (d - 10)
  {
  }

  /** One letter written in the two cases. */
  predicate SameLetter(c: uint8, d: uint8) {
    c == d || (65 <= c <= 70 && d as int == c as int + 32) || (65 <= d <= 70 && c as int == d as int + 32)
  }

  /** Texts that differ in the case of their letters read alike. */
  lemma {:induction false} CaseIgnored(a: seq<uint8>, b: seq<uint8>, value: uint32, last: uint8)
    requires |a| == |b| && forall i :: 0 <= i < |a| ==> SameLetter(a[i], b[i])
    ensures AtohFrom(a, value, last) == AtohFrom(b, value, last)
  {
    hide NextValue;
    if a != [] && !EndsText(a[0]) {
      var d := Digit(a[0], last);
      assert d == Digit(b[0], last) && !EndsText(b[0]);
      CaseIgnored(a[1..], b[1..], NextValue(value, d), d);
    }
  }

  /** Nothing is read from a NUL or a space on. */
  lemma {:induction false} TextEnds(text: seq<uint8>, c: uint8, rest: seq<uint8>, value: uint32, last: uint8)
    requires c == 0 || c == 32
    ensures AtohFrom(text + [c] + rest, value, last) == AtohFrom(text, value, last)
  {
    hide NextValue;
    var whole := text + [c] + rest;
    if text == [] {
      assert whole[0] == c;
    } else if !EndsText(text[0]) {
      var d := Digit(text[0], last);
      assert whole[0] == text[0] && whole[1..] == text[1..] + [c] + rest;
      TextEnds(text[1..], c, rest, NextValue(value, d), d);
    }
  }

  // ----- Printing -----

  function HexChar(n: nat): (c: uint8)
    requires n < 16
    ensures IsHexDigit(c) && DigitValue(c) == n
  {
    if n < 10 then CHAR_0 + n else CHAR_LOWER_A + (n - 10)
  }

  /** The last n hexadecimal digits of u. */
  function HexDigits(u: nat, n: nat): (text: seq<uint8>)
    ensures |text| == n && IsHexText(text)
  {
    if n == 0 then [] else HexDigits(u / 16, n - 1) + [HexChar(u % 16)]
  }

  class Console {
    var out: seq<uint8>

    method DbgHex4(v: nat)
      modifies this
      ensures out == old(out) + [HexChar(v % 16)]
    {
      var w := v % 16;
      w := w + CHAR_0;
      if w > CHAR_9 {
        w := w - (CHAR_9 + 1) + CHAR_LOWER_A;
      }
      out := out + [w];
    }

    method DbgHex8(u32: uint32)
      modifies this
      ensures out == old(out) + HexDigits(u32, 2)
    {
      assert HexDigits(u32, 2) == HexDigits(u32 / 16, 1) + [HexChar(u32 % 16)];
      assert HexDigits(u32 / 16, 1) == [HexChar(u32 / 16 % 16)];
      DbgHex4(u32 / 16);
      DbgHex4(u32);
    }

    method DbgHex16(u32: uint32)
      modifies this
      ensures out == old(out) + HexDigits(u32, 4)
    {
      HexDigitsSplit(u32, 2, 2);
      DropDigitsIs(u32);
      DbgHex8(u32 / 0x100);
      DbgHex8(u32);
    }

    method DbgHex32(u32: uint32)
      modifies this
      ensures out == old(out) + HexDigits(u32, 8)
    {
      HexDigitsSplit(u32, 4, 4);
      DropDigitsIs(u32);
      DbgHex16(u32 / 0x1_0000);
      DbgHex16(u32);
    }
  }

  function Pow16(n: nat): (p: nat)
    ensures p > 0
  {
    if n == 0 then 1 else 16 * Pow16(n - 1)
  }

  /** n digits shifted out. */
  function DropDigits(u: nat, n: nat): nat {
    if n == 0 then u else DropDigits(u / 16, n - 1)
  }

  lemma DropDigitsIs(u: nat)
    ensures DropDigits(u, 2) == u / 0x100 && DropDigits(u, 4) == u / 0x1_0000
  {
    DropTwo(u);
    DropTwo(u / 16 / 16);
    assert DropDigits(u, 4) == DropDigits(u / 16, 3) == DropDigits(u / 16 / 16, 2);
  }

  lemma DropTwo(u: nat)
    ensures DropDigits(u, 2) == u / 16 / 16 == u / 0x100
  {
    assert DropDigits(u, 2) == DropDigits(u / 16, 1) == DropDigits(u / 16 / 16, 0);
  }

  lemma HexDigitsStep(u: nat, n: nat)
    requires n > 0
    ensures HexDigits(u, n) == HexDigits(u / 16, n - 1) + [HexChar(u % 16)]
  {
  }

  lemma {:induction false} HexDigitsSplit(u: nat, m: nat, n: nat)
    ensures HexDigits(u, m + n) == HexDigits(DropDigits(u, n), m) + HexDigits(u, n)
    decreases n
  {
    if n > 0 {
      hide HexDigits;
      HexDigitsSplit(u / 16, m, n - 1);
      HexDigitsStep(u, m + n);
      HexDigitsStep(u, n);
    }
  }

  lemma {:induction false} HexFromAppend(text: seq<uint8>, c: uint8, v: nat)
    requires IsHexText(text) && IsHexDigit(c)
    ensures HexFrom(text + [c], v) == 16 * HexFrom(text, v) + DigitValue(c)
  {
    if text != [] {
      assert (text + [c])[1..] == text[1..] + [c];
      HexFromAppend(text[1..], c, 16 * v + DigitValue(text[0]));
    }
  }

  lemma {:induction false} PrintedValue(u: nat, n: nat)
    ensures HexFrom(HexDigits(u, n), 0) == u % Pow16(n) <= u
    decreases n
  {
    if n > 0 {
      PrintedValue(u / 16, n - 1);
      HexFromAppend(HexDigits(u / 16, n - 1), HexChar(u % 16), 0);
      LastDigit(u, Pow16(n - 1));
    }
  }

  lemma LastDigit(u: nat, p: nat)
    requires p > 0
    ensures u % (16 * p) == 16 * (u / 16 % p) + u % 16
  {
    var h := u / 16;
    DivModUnique(u, 16 * p, h / p, 16 * (h % p) + u % 16);
  }

  /** What dbg_hex8, dbg_hex16 or dbg_hex32 prints of a word, atoh reads back,
      whether the text ends there or at a NUL or a space. */
  lemma PrintThenParse(u: uint32, n: nat, rest: seq<uint8>)
    requires n <= 8 && (rest == [] || EndsText(rest[0]))
    ensures Atoh(HexDigits(u, n) + rest) == u % Pow16(n)
  {
    hide AtohFrom, HexFrom, Pow16;
    PrintedValue(u, n);
    var x := HexFrom(HexDigits(u, n), 0);
    AtohReads(HexDigits(u, n), rest, 0, 0);
    AlreadyWord(x);
  }

  lemma AlreadyWord(x: nat)
    requires x < WORD
    ensures x % WORD == x
  {
  }
}
