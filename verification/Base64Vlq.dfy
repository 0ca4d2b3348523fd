/**
 Base 64 variable-length quantities, defaults/JSXTransformer.js:10198-10336.  Numbers are mathematical integers;
 the bitwise operators of the code first take them into 32 bits, which is written out here.
 */
module Base64Vlq {
  import opened Bytes
  datatype Failure = ExpectedMoreDigits | NotADigit(c: char)

  /** A value and the rest of the text, or what was thrown. */
  datatype Decoded = Decoded(value: int, rest: string) | Failed(failure: Failure)

  // ---------- digits ----------

  function Digit(d: nat): (c: char)
    requires d < 64
    ensures c != ',' && c != ';'
  {
    if d < 26 then 'A' + d as char
    else if d < 52 then 'a' + (d - 26) as char
    else if d < 62 then '0' + (d - 52) as char
    else if d == 62 then '+' else '/'
  }

  lemma Letters(d: nat)
    requires d < 26
    ensures 'A' + d as char == "ABCDEFGHIJKLMNOPQRSTUVWXYZ"[d]
    ensures 'a' + d as char == "abcdefghijklmnopqrstuvwxyz"[d]
  {
  }

  lemma Numerals(d: nat)
    requires d < 10
    ensures '0' + d as char == "0123456789"[d]
  {
  }

  /** The alphabet of base 64. */
  lemma Alphabet(d: nat)
    requires d < 64
    ensures Digit(d) ==
      ("ABCDEFGHIJKLMNOPQRSTUVWXYZ" + "abcdefghijklmnopqrstuvwxyz" + "0123456789" + "+/")[d]
  {
    if d < 26 {
      Letters(d);
    } else if d < 52 {
      Letters(d - 26);
    } else if d < 62 {
      Numerals(d - 52);
    }
  }

  predicate IsDigit(c: char) {
    'A' <= c <= 'Z' || 'a' <= c <= 'z' || '0' <= c <= '9' || c == '+' || c == '/'
  }

  function FromDigit(c: char): (d: nat)
    requires IsDigit(c)
    ensures d < 64 && Digit(d) == c
  {
    if 'A' <= c <= 'Z' then c as nat - 'A' as nat
    else if 'a' <= c <= 'z' then c as nat - 'a' as nat + 26
    else if '0' <= c <= '9' then c as nat - '0' as nat + 52
    else if c == '+' then 62 else 63
  }

  /** Reading a digit gives its value back. */
  lemma DigitIsReadBack(d: nat)
    requires d < 64
    ensures IsDigit(Digit(d)) && FromDigit(Digit(d)) == d
  {
  }

  // ---------- signs ----------

  /** The sign goes into the lowest bit. */
  function ToVlqSigned(value: int): int {
    if value < 0 then ToInt32(-value * 2) + 1 else ToInt32(value * 2)
  }

  function FromVlqSigned(vlq: int): int {
    var shifted := ToInt32(vlq) / 2;
    if ToInt32(vlq) % 2 == 1 then -shifted else shifted
  }

  // ---------- encoding ----------

  /** The digits of a word, lowest five bits first; all but the last carry the continuation bit. */
  function Digits(word: nat): (text: string)
    ensures text != "" && forall c <- text :: IsDigit(c)
  {
    DigitIsReadBack(word % 32);
    DigitIsReadBack(word % 32 + 32);
    if word < 32 then [Digit(word)] else [Digit(word % 32 + 32)] + Digits(word / 32)
  }

  function Encoded(value: int): (text: string)
    ensures text != "" && forall c <- text :: IsDigit(c)
  {
    Digits(ToUint32(ToVlqSigned(value)))
  }

  /** Reading needs a digit: the end of the text and foreign characters are faults of their own. */
  lemma NoDigit(text: string, result: int, shift: nat)
    ensures text == "" ==> DecodedFrom(text, result, shift) == Failed(ExpectedMoreDigits)
    ensures text != "" && (forall d | 0 <= d < 64 :: Digit(d) != text[0]) ==>
      DecodedFrom(text, result, shift) == Failed(NotADigit(text[0]))
  {
  }

  /** The digits of an encoded number: sign in the lowest bit, lowest five bits first, 32 as the continuation bit. */
  lemma SignsAreLowest(value: int)
    requires -0x4000_0000 < value < 0x4000_0000
    ensures Encoded(value) == Digits(if value < 0 then 1 - 2 * value else 2 * value)
  {
    SignedWord(value);
  }

  lemma SignedWord(value: int)
    requires -0x4000_0000 < value < 0x4000_0000
    ensures ToUint32(ToVlqSigned(value)) == if value < 0 then 1 - 2 * value else 2 * value
  {
    var doubled := if value < 0 then -value * 2 else value * 2;
    assert 0 <= doubled < TWO_31;
    assert ToInt32(doubled) == doubled;
  }

  lemma DigitsAre(word: nat)
    ensures var alphabet := "ABCDEFGHIJKLMNOPQRSTUVWXYZ" + "abcdefghijklmnopqrstuvwxyz" + "0123456789" + "+/";
      && (word < 32 ==> Digits(word) == [alphabet[word]])
      && (word >= 32 ==> Digits(word) == [alphabet[32 + word % 32]] + Digits(word / 32))
  {
    Alphabet(word % 32);
    Alphabet(word % 32 + 32);
  }

  method Encode(value: int) returns (encoded: string)
    ensures encoded == Encoded(value)
  {
    encoded := "";
    var vlq := ToUint32(ToVlqSigned(value));
    while true
      invariant 0 <= vlq < TWO_32 && encoded + Digits(vlq) == Encoded(value)
      decreases vlq
    {
      ghost var word := vlq;
      var digit := vlq % 32;
      vlq := vlq / 32;
      if vlq > 0 {
        digit := digit + 32;
        assert encoded + Digits(word) == encoded + [Digit(digit)] + Digits(vlq);
      }
      encoded := encoded + [Digit(digit)];
      if vlq <= 0 {
        break;
      }
    }
  }

  // ---------- decoding ----------

  /** The number shifted to the left without bounds. */
  function Scaled(x: int, distance: nat): int {
    if distance == 0 then x else 2 * Scaled(x, distance - 1)
  }

  /** A left shift of the code: the distance counts modulo 32, and the result is taken into 32 bits. */
  function ShiftLeft(x: int, distance: nat): int {
    ToInt32(Scaled(x, distance % 32))
  }

  /** Adds up digits until one has no continuation bit. */
  function DecodedFrom(text: string, result: int, shift: nat): (r: Decoded)
    ensures r.Decoded? ==> |r.rest| < |text|
  {
    if text == "" then Failed(ExpectedMoreDigits)
    else if !IsDigit(text[0]) then Failed(NotADigit(text[0]))
    else
      var digit := FromDigit(text[0]);
      var result' := result + ShiftLeft(digit % 32, shift);
      if digit < 32 then Decoded(result', text[1..]) else DecodedFrom(text[1..], result', shift + 5)
  }

  function DecodedOf(text: string): (r: Decoded)
    ensures r.Decoded? ==> |r.rest| < |text|
  {
    match DecodedFrom(text, 0, 0)
    case Decoded(result, rest) => Decoded(FromVlqSigned(result), rest)
    case Failed(failure) => Failed(failure)
  }

  method Decode(text: string) returns (r: Decoded)
    ensures r == DecodedOf(text)
  {
    var i, result, shift := 0, 0, 0;
    while true
      invariant 0 <= i <= |text| && DecodedFrom(text[i..], result, shift) == DecodedFrom(text, 0, 0)
      decreases |text| - i
    {
      if i >= |text| {
        return Failed(ExpectedMoreDigits);
      }
      if !IsDigit(text[i]) {
        return Failed(NotADigit(text[i]));
      }
      var digit := FromDigit(text[i]);
      i := i + 1;
      var continuation := digit >= 32;
      digit := digit % 32;
      result := result + ShiftLeft(digit, shift);
      shift := shift + 5;
      if !continuation {
        break;
      }
    }
    return Decoded(FromVlqSigned(result), text[i..]);
  }

  // ---------- the round trip ----------

  /** The value modulo 2^31, keeping the sign. */
  function Wrapped(value: int): int {
    if value < 0 then -(ToInt32(-value * 2) / 2) else ToInt32(value * 2) / 2
  }

  lemma {:induction false} ScaledSum(x: int, y: int, distance: nat)
    ensures Scaled(x + y, distance) == Scaled(x, distance) + Scaled(y, distance)
  {
    if distance > 0 {
      ScaledSum(x, y, distance - 1);
    }
  }

  lemma {:induction false} ScaledBy32(x: int, distance: nat)
    ensures Scaled(32 * x, distance) == Scaled(x, distance + 5) == 32 * Scaled(x, distance)
  {
    assert Scaled(x, distance + 1) == 2 * Scaled(x, distance);
    assert Scaled(x, distance + 2) == 2 * Scaled(x, distance + 1);
    assert Scaled(x, distance + 3) == 2 * Scaled(x, distance + 2);
    assert Scaled(x, distance + 4) == 2 * Scaled(x, distance + 3);
    assert Scaled(x, distance + 5) == 2 * Scaled(x, distance + 4);
    if distance > 0 {
      ScaledBy32(x, distance - 1);
    }
  }

  lemma {:induction false} ScaledGrows(x: nat, distance: nat)
    ensures Scaled(x, distance) >= x
  {
    if distance > 0 {
      ScaledGrows(x, distance - 1);
    }
  }

  /** The digits of a word, shifted, add up to the word, shifted. */
  lemma ScaledWord(word: nat, shift: nat)
    ensures Scaled(word, shift) == Scaled(word % 32, shift) + Scaled(word / 32, shift + 5)
  {
    ScaledSum(word % 32, 32 * (word / 32), shift);
    ScaledBy32(word / 32, shift);
  }

  /** Shifted by 30, only words below four stay below 2^32. */
  lemma ScaledBy30(word: nat)
    ensures Scaled(word, 30) == 0x4000_0000 * word
  {
    ScaledBy32(word, 0);
    ScaledBy32(word, 5);
    ScaledBy32(word, 10);
    ScaledBy32(word, 15);
    ScaledBy32(word, 20);
    ScaledBy32(word, 25);
  }

  lemma ToInt32Difference(x: int) returns (k: int)
    ensures ToInt32(x) == x + k * TWO_32
  {
    k := -(x / TWO_32) - if ToUint32(x) >= TWO_31 then 1 else 0;
  }

  lemma ShiftLeftDifference(x: int, distance: nat) returns (k: int)
    requires distance < 32
    ensures ShiftLeft(x, distance) == Scaled(x, distance) + k * TWO_32
  {
    k := ToInt32Difference(Scaled(x, distance));
  }

  lemma LastDigit(word: nat, rest: string, result: int, shift: nat)
    requires word < 32
    ensures DecodedFrom(Digits(word) + rest, result, shift) == Decoded(result + ShiftLeft(word % 32, shift), rest)
  {
    DigitIsReadBack(word);
    assert (Digits(word) + rest)[1..] == rest;
  }

  lemma DigitInFront(word: nat, rest: string, result: int, shift: nat)
    requires word >= 32
    ensures DecodedFrom(Digits(word) + rest, result, shift) ==
      DecodedFrom(Digits(word / 32) + rest, result + ShiftLeft(word % 32, shift), shift + 5)
  {
    DigitIsReadBack(word % 32 + 32);
    assert (Digits(word) + rest)[1..] == Digits(word / 32) + rest;
  }

  lemma DecodeStep(word: nat, rest: string, result: int, shift: nat)
    ensures DecodedFrom(Digits(word) + rest, result, shift) ==
      if word < 32 then Decoded(result + ShiftLeft(word % 32, shift), rest)
      else DecodedFrom(Digits(word / 32) + rest, result + ShiftLeft(word % 32, shift), shift + 5)
  {
    if word < 32 {
      LastDigit(word, rest, result, shift);
    } else {
      DigitInFront(word, rest, result, shift);
    }
  }

  /** What the digits of a word add up to when they are read. */
  function ReadSum(word: nat, shift: nat): int {
    if word < 32 then ShiftLeft(word % 32, shift) else ShiftLeft(word % 32, shift) + ReadSum(word / 32, shift + 5)
  }

  lemma {:induction false} DigitsAreReadBack(word: nat, rest: string, result: int, shift: nat)
    ensures DecodedFrom(Digits(word) + rest, result, shift) == Decoded(result + ReadSum(word, shift), rest)
    decreases word
  {
    DecodeStep(word, rest, result, shift);
    if word >= 32 {
      DigitsAreReadBack(word / 32, rest, result + ShiftLeft(word % 32, shift), shift + 5);
    }
  }

  lemma OneDigitMore(word: nat, shift: nat, more: int) returns (k: int)
    requires word >= 32 && shift <= 25
    requires ReadSum(word / 32, shift + 5) == Scaled(word / 32, shift + 5) + more * TWO_32
    ensures ReadSum(word, shift) == Scaled(word, shift) + k * TWO_32
  {
    var first := ShiftLeftDifference(word % 32, shift);
    ScaledWord(word, shift);
    k := first + more;
  }

  /** The digits add up to the word, shifted, up to multiples of 2^32. */
  lemma {:induction false} SumIsWord(word: nat, shift: nat) returns (k: int)
    requires shift % 5 == 0 && shift <= 30 && Scaled(word, shift) < TWO_32
    ensures ReadSum(word, shift) == Scaled(word, shift) + k * TWO_32
    decreases word
  {
    if word < 32 {
      k := ShiftLeftDifference(word % 32, shift);
    } else {
      if shift == 30 {
        ScaledBy30(word);
      }
      ScaledWord(word, shift);
      ScaledGrows(word % 32, shift);
      var more := SumIsWord(word / 32, shift + 5);
      k := OneDigitMore(word, shift, more);
    }
  }

  lemma SignsComeBack(value: int)
    ensures FromVlqSigned(ToVlqSigned(value)) == Wrapped(value)
  {
    var shifted := ToInt32(if value < 0 then -value * 2 else value * 2);
    assert shifted % 2 == 0;
  }

  lemma WrappedWithin(value: int)
    ensures Wrapped(value) == value <==> -0x4000_0000 < value < 0x4000_0000
  {
    var k := ToInt32Difference(if value < 0 then -value * 2 else value * 2);
  }

  lemma SameWord(vlq: int, k: int)
    ensures FromVlqSigned(ToUint32(vlq) + k * TWO_32) == FromVlqSigned(vlq)
  {
    assert ToUint32(ToUint32(vlq) + k * TWO_32) == ToUint32(vlq);
  }

  lemma DecodeWord(vlq: int, rest: string)
    ensures DecodedOf(Digits(ToUint32(vlq)) + rest) == Decoded(FromVlqSigned(vlq), rest)
  {
    DigitsAreReadBack(ToUint32(vlq), rest, 0, 0);
    var k := SumIsWord(ToUint32(vlq), 0);
    SameWord(vlq, k);
  }

  /** Whatever text follows, it is left alone; the value comes back modulo 2^31. */
  lemma DecodeEncoded(value: int, rest: string)
    ensures DecodedOf(Encoded(value) + rest) == Decoded(Wrapped(value), rest)
  {
    var vlq := ToVlqSigned(value);
    assert FromVlqSigned(vlq) == Wrapped(value) by {
      SignsComeBack(value);
    }
    DecodeWord(vlq, rest);
  }

  /** Decoding undoes encoding exactly for the values of magnitude below 2^30. */
  lemma DecodeUndoesEncode(value: int, rest: string)
    ensures DecodedOf(Encoded(value) + rest) == Decoded(value, rest) <==> -0x4000_0000 < value < 0x4000_0000
  {
    DecodeEncoded(value, rest);
    WrappedWithin(value);
  }
}
