/**
 * base58Encode and the did:key built on it, against encoding and decoding as
 * draft-msporny-base58 defines them (sections 3 and 4).
 */
module Base58 {
  import opened Wrappers

  const ALPHABET := "123456789" + "ABCDEFGH" + "JKLMN" + "PQRSTUVWXYZ" + "abcdefghijk" + "mnopqrstuvwxyz"

  type Byte = b: int | 0 <= b < 256

  type Digit = d: int | 0 <= d < 58

  /* ---- positional notation, least significant first ---- */

  function Value(digits: seq<int>, base: nat): int {
    if digits == [] then 0 else digits[0] + base * Value(digits[1..], base)
  }

  /** The digits of a number without superfluous zeros; none for 0. */
  function Notation(v: nat, base: nat): (digits: seq<int>)
    requires base >= 2
    ensures forall d :: d in digits ==> 0 <= d < base
    ensures forall i :: 0 <= i < |digits| ==> 0 <= digits[i] < base
  {
    if v == 0 then []
    else
      DivFacts(v, base);
      [v % base] + Notation(v / base, base)
  }

  function Reverse<T(!new)>(s: seq<T>): (r: seq<T>)
    ensures |r| == |s|
    ensures forall x :: x in r <==> x in s
  {
    if s == [] then [] else Reverse(s[1..]) + [s[0]]
  }

  lemma {:induction false} ReverseAppend<T(!new)>(s: seq<T>, x: T)
    ensures Reverse(s + [x]) == [x] + Reverse(s)
  {
    if s != [] {
      assert (s + [x])[1..] == s[1..] + [x];
      ReverseAppend(s[1..], x);
    }
  }

  lemma {:induction false} ReverseTwice<T(!new)>(s: seq<T>)
    ensures Reverse(Reverse(s)) == s
  {
    if s != [] {
      ReverseAppend(Reverse(s[1..]), s[0]);
      ReverseTwice(s[1..]);
    }
  }

  ghost predicate Proper(digits: seq<int>, base: nat) {
    && (forall d :: d in digits ==> 0 <= d < base)
    && (digits != [] ==> digits[|digits| - 1] != 0)
  }

  lemma {:induction false} ValuePositive(digits: seq<int>, base: nat)
    requires base >= 2 && Proper(digits, base)
    ensures Value(digits, base) >= 0
    ensures digits != [] ==> Value(digits, base) > 0
  {
    if digits != [] {
      assert digits[0] in digits && forall d :: d in digits[1..] ==> d in digits;
      if |digits| > 1 {
        ValuePositive(digits[1..], base);
        assert base * Value(digits[1..], base) >= Value(digits[1..], base);
      }
    }
  }

  lemma DivMod(d: int, q: int, base: nat)
    requires 0 <= d < base && q >= 0
    ensures (d + base * q) % base == d && (d + base * q) / base == q
  {
    var v := d + base * q;
    assert v == base * (v / base) + v % base;
    assert base * (q - v / base) == v % base - d;
    SmallMultiple(base, q - v / base);
  }

  lemma SmallMultiple(base: int, e: int)
    requires -base < base * e < base
    ensures e == 0
  {
  }

  /** Notation without a leading zero is unique. */
  lemma {:induction false} NotationUnique(digits: seq<int>, base: nat)
    requires base >= 2 && Proper(digits, base)
    ensures Value(digits, base) >= 0 && Notation(Value(digits, base), base) == digits
  {
    ValuePositive(digits, base);
    if digits != [] {
      assert digits[0] in digits && forall d :: d in digits[1..] ==> d in digits;
      NotationUnique(digits[1..], base);
      DivMod(digits[0], Value(digits[1..], base), base);
    }
  }

  lemma {:induction false} NotationProper(v: nat, base: nat)
    requires base >= 2
    ensures Proper(Notation(v, base), base) && Value(Notation(v, base), base) == v
    ensures v > 0 ==> Notation(v, base) != []
  {
    if v != 0 {
      var q, d := v / base, v % base;
      DivFacts(v, base);
      NotationProper(q, base);
      PutDigit(d, Notation(q, base), base);
    }
  }

  lemma DivFacts(v: nat, base: nat)
    requires base >= 2 && v > 0
    ensures v == base * (v / base) + v % base && 0 <= v % base < base && 0 <= v / base < v
  {
  }

  lemma PutDigit(d: nat, digits: seq<int>, base: nat)
    requires Proper(digits, base) && d < base && (digits == [] ==> d > 0)
    ensures Proper([d] + digits, base) && Value([d] + digits, base) == d + base * Value(digits, base)
  {
    assert ([d] + digits)[1..] == digits;
  }

  /* ---- the carry loops ---- */

  function CarryOut(carry: nat): (digits: seq<Digit>)
  {
    if carry == 0 then [] else [carry % 58] + CarryOut(carry / 58)
  }

  /** One byte more: the digits of 256 * value + carry. */
  function Carry(digits: seq<Digit>, carry: nat): seq<Digit> {
    if digits == [] then CarryOut(carry)
    else
      var t := carry + 256 * (digits[0] as int);
      [t % 58] + Carry(digits[1..], t / 58)
  }

  function Feed(digits: seq<Digit>, bytes: seq<Byte>): seq<Digit> {
    if bytes == [] then digits else Carry(Feed(digits, bytes[..|bytes| - 1]), bytes[|bytes| - 1])
  }

  lemma {:induction false} CarryOutValue(carry: nat)
    ensures Value(CarryOut(carry), 58) == carry
    ensures carry > 0 ==> CarryOut(carry) != [] && CarryOut(carry)[|CarryOut(carry)| - 1] != 0
  {
    if carry > 0 {
      CarryOutValue(carry / 58);
    }
  }

  lemma {:induction false} CarryValue(digits: seq<Digit>, carry: nat)
    ensures Value(Carry(digits, carry), 58) == 256 * Value(digits, 58) + carry
  {
    if digits == [] {
      CarryOutValue(carry);
    } else {
      var t := carry + 256 * (digits[0] as int);
      CarryValue(digits[1..], t / 58);
      assert Carry(digits, carry)[1..] == Carry(digits[1..], t / 58);
      assert t == 58 * (t / 58) + t % 58;
    }
  }

  /** What the inner loop adds up, digit by digit: the carry coming in and the digit shifted by 8. */
  function Sums(digits: seq<Digit>, carry: nat): (sums: seq<nat>)
    ensures |sums| == |digits|
  {
    if digits == [] then []
    else
      var t := carry + 256 * (digits[0] as int);
      [t] + Sums(digits[1..], t / 58)
  }

  /** From a byte on, every sum stays below 58 * 256, far inside 32 bits, every carry within a byte, and the digits
    * the loop leaves are the remainders of those sums.
    */
  lemma {:induction false} SumsSmall(digits: seq<Digit>, carry: nat)
    requires carry <= 255
    ensures forall i :: 0 <= i < |digits| ==>
              Sums(digits, carry)[i] < 58 * 256 && Sums(digits, carry)[i] / 58 <= 255 &&
              i < |Carry(digits, carry)| && Carry(digits, carry)[i] == Sums(digits, carry)[i] % 58
  {
    if digits != [] {
      var t := carry + 256 * (digits[0] as int);
      SumsSmall(digits[1..], t / 58);
      forall i | 1 <= i < |digits|
        ensures Sums(digits, carry)[i] == Sums(digits[1..], t / 58)[i - 1]
        ensures i - 1 < |Carry(digits[1..], t / 58)| && Carry(digits, carry)[i] == Carry(digits[1..], t / 58)[i - 1]
      {
      }
    }
  }

  /** A nonzero top digit, or any nonzero carry into a lone digit, leaves a nonzero top digit. */
  lemma {:induction false} CarryTop(digits: seq<Digit>, carry: nat)
    requires digits != []
    requires digits[|digits| - 1] != 0 || (|digits| == 1 && carry > 0)
    ensures Carry(digits, carry) != [] && Carry(digits, carry)[|Carry(digits, carry)| - 1] != 0
  {
    var t := carry + 256 * (digits[0] as int);
    if |digits| == 1 {
      assert digits[1..] == [];
      CarryOutValue(t / 58);
    } else {
      CarryTop(digits[1..], t / 58);
    }
  }

  function Zeros(bytes: seq<Byte>): (n: nat)
    ensures n <= |bytes|
    ensures forall i :: 0 <= i < n ==> bytes[i] == 0
    ensures n < |bytes| ==> bytes[n] != 0
  {
    if bytes == [] || bytes[0] != 0 then 0 else 1 + Zeros(bytes[1..])
  }

  /** `n` copies of a value. */
  function Repeat<T>(x: T, n: nat): (r: seq<T>)
    ensures |r| == n && forall i :: 0 <= i < n ==> r[i] == x
  {
    if n == 0 then [] else [x] + Repeat(x, n - 1)
  }

  /** The digits as letters, most significant first. */
  function Letters(digits: seq<Digit>): (r: string)
    ensures |r| == |digits|
  {
    if digits == [] then "" else Letters(digits[1..]) + [ALPHABET[digits[0]]]
  }

  function Encode(bytes: seq<Byte>): string {
    Repeat('1', Zeros(bytes)) + Letters(Feed([0], bytes[Zeros(bytes)..]))
  }

  /** One round of the outer loop; SumsSmall bounds what it adds up. */
  method TakeByte(start: seq<Digit>, byte: Byte) returns (digits: seq<Digit>)
    ensures digits == Carry(start, byte)
  {
    digits := start;
    var carry: nat := byte;
    var j := 0;
    while j < |digits|
      invariant 0 <= j <= |digits| == |start| && carry <= 255
      invariant digits[j..] == start[j..]
      invariant digits[..j] + Carry(start[j..], carry) == Carry(start, byte)
    {
      assert start[j..][0] == start[j] && start[j..][1..] == start[j + 1..];
      carry := carry + 256 * (digits[j] as int);
      ghost var done := digits[..j] + [carry % 58];
      assert digits[..j] + ([carry % 58] + Carry(start[j + 1..], carry / 58)) ==
          done + Carry(start[j + 1..], carry / 58);
      digits := digits[j := carry % 58];
      assert digits[..j + 1] == done;
      carry := carry / 58;
      j := j + 1;
    }
    assert digits[..j] == digits;
    while carry > 0
      invariant digits + CarryOut(carry) == Carry(start, byte)
    {
      assert digits + ([carry % 58] + CarryOut(carry / 58)) == digits + [carry % 58] + CarryOut(carry / 58);
      digits := digits + [carry % 58];
      carry := carry / 58;
    }
  }

  /** base58Encode: leading zeros aside, feed the bytes one by one, then spell the digits. */
  method Base58Encode(bytes: seq<Byte>) returns (out: string)
    ensures out == Encode(bytes)
  {
    hide Carry;
    var zeros := 0;
    while zeros < |bytes| && bytes[zeros] == 0
      invariant 0 <= zeros <= |bytes|
      invariant Zeros(bytes) == zeros + Zeros(bytes[zeros..])
    {
      assert bytes[zeros..][1..] == bytes[zeros + 1..];
      zeros := zeros + 1;
    }
    ghost var rest := bytes[zeros..];
    var digits: seq<Digit> := [0];
    var i := zeros;
    while i < |bytes|
      invariant zeros <= i <= |bytes|
      invariant digits == Feed([0], rest[..i - zeros])
    {
      assert rest[..i + 1 - zeros][..i - zeros] == rest[..i - zeros];
      digits := TakeByte(digits, bytes[i]);
      i := i + 1;
    }
    assert rest[..i - zeros] == rest;
    assert zeros == Zeros(bytes) && digits[..|digits|] == digits;
    out := Repeat('1', zeros);
    var k := |digits|;
    while k > 0
      invariant 0 <= k <= |digits|
      invariant out + Letters(digits[..k]) == Encode(bytes)
    {
      LettersLast(digits[..k]);
      assert digits[..k][..k - 1] == digits[..k - 1];
      k := k - 1;
      out := out + [ALPHABET[digits[k]]];
    }
  }

  lemma {:induction false} LettersLast(digits: seq<Digit>)
    requires digits != []
    ensures Letters(digits) == [ALPHABET[digits[|digits| - 1]]] + Letters(digits[..|digits| - 1])
  {
    if |digits| > 1 {
      LettersLast(digits[1..]);
      assert digits[..|digits| - 1][1..] == digits[1..][..|digits| - 2];
    }
  }

  /* ---- the standard ---- */

  /** The number a byte string denotes, most significant byte first. */
  function Number(bytes: seq<Byte>): (v: nat) {
    if bytes == [] then 0 else 256 * Number(bytes[..|bytes| - 1]) + bytes[|bytes| - 1]
  }

  lemma {:induction false} NumberIsValue(bytes: seq<Byte>)
    ensures Number(bytes) == Value(Reverse<int>(bytes), 256)
  {
    if bytes != [] {
      var n := |bytes| - 1;
      assert bytes == bytes[..n] + [bytes[n]];
      ReverseAppend<int>(bytes[..n], bytes[n]);
      assert Reverse<int>(bytes)[1..] == Reverse<int>(bytes[..n]);
      NumberIsValue(bytes[..n]);
    }
  }

  /** Section 3 of the draft: '1' for each leading zero byte, then the rest as a number in base 58. */
  function StandardEncode(bytes: seq<Byte>): string {
    var digits: seq<Digit> := Notation(Number(bytes), 58);
    Repeat('1', Zeros(bytes)) + Letters(digits)
  }

  /** The letter's place in the alphabet. */
  function DigitOf(c: char): Option<Digit> {
    if '1' <= c <= '9' then Some(c as int - '1' as int)
    else if 'A' <= c <= 'H' then Some(c as int - 'A' as int + 9)
    else if 'J' <= c <= 'N' then Some(c as int - 'J' as int + 17)
    else if 'P' <= c <= 'Z' then Some(c as int - 'P' as int + 22)
    else if 'a' <= c <= 'k' then Some(c as int - 'a' as int + 33)
    else if 'm' <= c <= 'z' then Some(c as int - 'm' as int + 44)
    else None
  }

  function Ones(s: string): (n: nat)
    ensures n <= |s|
  {
    if s == "" || s[0] != '1' then 0 else 1 + Ones(s[1..])
  }

  /** The number a string of letters denotes; none when a letter is not in the alphabet. */
  function Spelled(s: string): Option<nat> {
    if s == "" then Some(0)
    else
      var high, low := Spelled(s[..|s| - 1]), DigitOf(s[|s| - 1]);
      if high.Some? && low.Some? then Some(58 * high.value + low.value) else None
  }

  /** Section 4: a zero byte for each leading '1', then the number's bytes without leading zeros. */
  function Decode(s: string): Option<seq<int>> {
    var n := Ones(s);
    var v := Spelled(s[n..]);
    if v.None? then None else Some(Repeat(0, n) + Reverse(Notation(v.value, 256)))
  }

  /* ---- what the digits denote ---- */

  lemma {:induction false} FeedValue(digits: seq<Digit>, bytes: seq<Byte>)
    requires Value(digits, 58) == 0
    ensures Value(Feed(digits, bytes), 58) == Number(bytes)
  {
    if bytes != [] {
      var n := |bytes| - 1;
      FeedValue(digits, bytes[..n]);
      CarryValue(Feed(digits, bytes[..n]), bytes[n]);
    }
  }

  /** Once the first byte is not zero, neither is the top digit. */
  lemma {:induction false} FeedTop(bytes: seq<Byte>)
    requires bytes != [] && bytes[0] != 0
    ensures var d := Feed([0], bytes); d != [] && d[|d| - 1] != 0
  {
    var n := |bytes| - 1;
    if n == 0 {
      assert bytes[..0] == [] && Feed([0], bytes[..0]) == [0];
      CarryTop([0], bytes[0]);
    } else {
      FeedTop(bytes[..n]);
      CarryTop(Feed([0], bytes[..n]), bytes[n]);
    }
  }

  lemma {:induction false} NumberSkipsZeros(bytes: seq<Byte>, n: nat)
    requires n <= |bytes| && forall i :: 0 <= i < n ==> bytes[i] == 0
    ensures Number(bytes) == Number(bytes[n..])
  {
    var m := |bytes| - 1;
    if n == |bytes| {
      ZeroNumber(bytes);
    } else {
      NumberSkipsZeros(bytes[..m], n);
      assert bytes[n..][..m - n] == bytes[..m][n..];
    }
  }

  lemma {:induction false} ZeroNumber(bytes: seq<Byte>)
    requires forall i :: 0 <= i < |bytes| ==> bytes[i] == 0
    ensures Number(bytes) == 0
  {
    if bytes != [] {
      ZeroNumber(bytes[..|bytes| - 1]);
    }
  }

  ghost predicate HasNonzero(bytes: seq<Byte>) {
    exists i :: 0 <= i < |bytes| && bytes[i] != 0
  }

  /** The digits the loops compute are the number's own notation. */
  lemma FeedIsNotation(bytes: seq<Byte>)
    requires HasNonzero(bytes)
    ensures Feed([0], bytes[Zeros(bytes)..]) == Notation(Number(bytes), 58)
    ensures Proper(Feed([0], bytes[Zeros(bytes)..]), 58) && Feed([0], bytes[Zeros(bytes)..]) != []
  {
    var z := Zeros(bytes);
    var i :| 0 <= i < |bytes| && bytes[i] != 0;
    assert z <= i;
    var rest := bytes[z..];
    NumberSkipsZeros(bytes, z);
    assert Value([0], 58) == 0 + 58 * Value([], 58);
    FeedValue([0], rest);
    FeedTop(rest);
    NotationUnique(Feed([0], rest), 58);
  }

  /** All zeros: the encoding has one '1' more than there are bytes. */
  lemma EncodeZeros(bytes: seq<Byte>)
    requires !HasNonzero(bytes)
    ensures Zeros(bytes) == |bytes| && Encode(bytes) == Repeat('1', |bytes|) + "1"
    ensures StandardEncode(bytes) == Repeat('1', |bytes|)
  {
    assert Zeros(bytes) == |bytes|;
    assert bytes[|bytes|..] == [];
    LoneZero();
    ZeroNumber(bytes);
  }

  lemma LoneZero()
    ensures Letters(Feed([0], [])) == "1" && Letters([]) == ""
  {
    assert [0][1..] == [];
    assert ALPHABET[0] == '1';
  }

  /** The code agrees with the standard exactly when some byte is not zero. */
  lemma StandardExactly(bytes: seq<Byte>)
    ensures Encode(bytes) == StandardEncode(bytes) <==> HasNonzero(bytes)
  {
    if HasNonzero(bytes) {
      FeedIsNotation(bytes);
    } else {
      EncodeZeros(bytes);
      assert |Encode(bytes)| == |StandardEncode(bytes)| + 1;
    }
  }

  /* ---- decoding ---- */

  /** The alphabet's letters by arithmetic on their codes. */
  function LetterOf(d: Digit): char {
    if d < 9 then ('1' as int + d) as char
    else if d < 17 then ('A' as int + d - 9) as char
    else if d < 22 then ('J' as int + d - 17) as char
    else if d < 33 then ('P' as int + d - 22) as char
    else if d < 44 then ('a' as int + d - 33) as char
    else ('m' as int + d - 44) as char
  }

  lemma LetterIs(d: Digit)
    ensures ALPHABET[d] == LetterOf(d)
  {
  }

  lemma LetterDigit(d: Digit)
    ensures DigitOf(ALPHABET[d]) == Some(d)
    ensures ALPHABET[d] == '1' <==> d == 0
  {
    LetterIs(d);
    hide ALPHABET;
  }

  lemma {:induction false} SpelledLetters(digits: seq<Digit>)
    ensures Value(digits, 58) >= 0 && Spelled(Letters(digits)) == Some(Value(digits, 58))
  {
    hide DigitOf, Letters, Spelled;
    if digits == [] {
      NothingSpelled();
    } else {
      SpelledLetters(digits[1..]);
      LetterDigit(digits[0]);
      LettersFirst(digits);
      SpelledMore(Letters(digits[1..]), Letters(digits), digits[0]);
    }
  }

  lemma NothingSpelled()
    ensures Letters([]) == "" && Spelled("") == Some(0)
  {
  }

  lemma LettersFirst(digits: seq<Digit>)
    requires digits != []
    ensures Letters(digits) == Letters(digits[1..]) + [ALPHABET[digits[0]]]
  {
  }

  lemma SpelledMore(high: string, all: string, digit: Digit)
    requires Spelled(high).Some? && all == high + [ALPHABET[digit]] && DigitOf(ALPHABET[digit]) == Some(digit)
    ensures Spelled(all) == Some(58 * Spelled(high).value + digit as int)
  {
    hide DigitOf;
    assert all[..|all| - 1] == high;
  }

  lemma {:induction false} OnesThen(n: nat, s: string)
    requires s == "" || s[0] != '1'
    ensures Ones(Repeat('1', n) + s) == n
  {
    var t := Repeat('1', n) + s;
    if n == 0 {
      assert t == s;
    } else {
      assert Repeat('1', n)[1..] == Repeat('1', n - 1);
      assert t[1..] == Repeat('1', n - 1) + s;
      OnesThen(n - 1, s);
    }
  }

  lemma RepeatsEqual<T>(x: T, s: seq<T>)
    requires forall i :: 0 <= i < |s| ==> s[i] == x
    ensures s == Repeat(x, |s|)
  {
  }

  /** With a nonzero byte, decoding gives the bytes back. */
  lemma DecodeNonzero(bytes: seq<Byte>)
    requires HasNonzero(bytes)
    ensures Decode(Encode(bytes)) == Some(bytes)
  {
    hide Encode, Number, Notation, Reverse, Ones, Spelled, Repeat;
    var z := Zeros(bytes);
    var rest := bytes[z..];
    assert z < |bytes| by {
      var i :| 0 <= i < |bytes| && bytes[i] != 0;
      assert z <= i;
    }
    EncodingReads(bytes);
    BytesNotation(rest);
    var digits := Notation(Number(rest), 256);
    assert Repeat<int>(0, z) + Reverse<int>(digits) == bytes;
  }

  /** How the decoder reads an encoding: the zeros, and the number of the rest. */
  lemma EncodingReads(bytes: seq<Byte>)
    requires HasNonzero(bytes)
    ensures Ones(Encode(bytes)) == Zeros(bytes)
    ensures Spelled(Encode(bytes)[Zeros(bytes)..]) == Some(Number(bytes[Zeros(bytes)..]))
  {
    var z := Zeros(bytes);
    var digits := Feed([0], bytes[z..]);
    FeedIsNotation(bytes);
    hide Feed, Notation;
    LettersLast(digits);
    LetterDigit(digits[|digits| - 1]);
    OnesThen(z, Letters(digits));
    assert Encode(bytes)[z..] == Letters(digits);
    SpelledLetters(digits);
    LoneZeroValue();
    FeedValue([0], bytes[z..]);
  }

  lemma LoneZeroValue()
    ensures Value([0], 58) == 0
  {
    assert [0][1..] == [];
  }

  lemma BytesNotation(rest: seq<Byte>)
    requires rest != [] && rest[0] != 0
    ensures Reverse(Notation(Number(rest), 256)) == rest
  {
    hide Notation, Number, Value, Reverse, Proper;
    NumberIsValue(rest);
    ReverseProper(rest);
    NotationUnique(Reverse<int>(rest), 256);
    ReverseTwice<int>(rest);
  }

  lemma ReverseProper(rest: seq<Byte>)
    requires rest != [] && rest[0] != 0
    ensures Proper(Reverse<int>(rest), 256)
  {
    var r := Reverse<int>(rest);
    assert r[|r| - 1] == rest[0];
    assert forall i :: 0 <= i < |r| ==> r[i] in r;
  }

  /** All zeros: decoding gives one zero byte too many. */
  lemma DecodeZeros(bytes: seq<Byte>)
    requires !HasNonzero(bytes)
    ensures Decode(Encode(bytes)) == Some(bytes + [0])
  {
    EncodeZeros(bytes);
    var s, n := Encode(bytes), |bytes| + 1;
    hide Encode;
    assert s == Repeat('1', n) by { RepeatsEqual('1', s); }
    assert s + "" == s;
    OnesThen(n, "");
    assert s[n..] == "" && Spelled("") == Some(0) && Notation(0, 256) == [];
    RepeatsEqual(0, bytes + [0]);
    assert Repeat(0, n) + Reverse([]) == bytes + [0];
  }

  /** Decoding returns the input exactly when some byte is not zero. */
  lemma RoundTripExactly(bytes: seq<Byte>)
    ensures Decode(Encode(bytes)) == Some(bytes) <==> HasNonzero(bytes)
  {
    if HasNonzero(bytes) {
      DecodeNonzero(bytes);
    } else {
      DecodeZeros(bytes);
      assert |bytes + [0]| != |bytes|;
    }
  }

  /** No two byte strings share an encoding, all-zero ones included. */
  lemma Injective(a: seq<Byte>, b: seq<Byte>)
    requires Encode(a) == Encode(b)
    ensures a == b
  {
    if HasNonzero(a) { DecodeNonzero(a); } else { DecodeZeros(a); }
    if HasNonzero(b) { DecodeNonzero(b); } else { DecodeZeros(b); }
    if HasNonzero(a) != HasNonzero(b) {
      SameNonzero(a, b);
      SameNonzero(b, a);
    }
  }

  lemma SameNonzero(a: seq<Byte>, b: seq<Byte>)
    requires HasNonzero(a)
    ensures b + [0] == a ==> HasNonzero(b)
  {
    if b + [0] == a {
      var i :| 0 <= i < |a| && a[i] != 0;
      assert b[i] == a[i];
    }
  }

  /* ---- did:key ---- */

  /** Multicodec 0xed 0x01 and the key, in base58btc. */
  function DidKeyOf(key: seq<Byte>): string {
    "did:key:z" + Encode([0xed, 0x01] + key)
  }

  /** didKeyFromPublicKeyB64 on the decoded key; null for any other length than 32 bytes. */
  method DidKeyFromPublicKey(key: seq<Byte>) returns (did: Option<string>)
    ensures did == if |key| == 32 then Some(DidKeyOf(key)) else None
  {
    if |key| != 32 {
      return None;
    }
    var encoded := Base58Encode([0xed, 0x01] + key);
    did := Some("did:key:z" + encoded);
  }

  /** Two keys never share a did:key, and a did:key decodes to its key behind its method and multibase prefix. */
  lemma DidKeysDiffer(a: seq<Byte>, b: seq<Byte>)
    requires DidKeyOf(a) == DidKeyOf(b)
    ensures a == b
    ensures DidKeyOf(a)[..9] == "did:key:z"
    ensures Decode(DidKeyOf(a)[9..]) == Some([0xed, 0x01] + a)
  {
    var x, y: seq<Byte> := [0xed, 0x01] + a, [0xed, 0x01] + b;
    hide Encode, Decode;
    assert Encode(x) == DidKeyOf(a)[9..] && Encode(y) == DidKeyOf(b)[9..];
    Injective(x, y);
    assert a == x[2..] && b == y[2..];
    assert x[0] != 0;
    DecodeNonzero(x);
  }
}
