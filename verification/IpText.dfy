/** Text forms of internet addresses: ipv4ToInt and ipv6ToTop64. */
module IpText {
  import opened Wrappers

  // --- Splitting and joining ---

  function Split(s: string, sep: char): (parts: seq<string>)
    ensures |parts| >= 1
  {
    if s == "" then [""]
    else if s[0] == sep then [""] + Split(s[1..], sep)
    else
      var rest := Split(s[1..], sep);
      [[s[0]] + rest[0]] + rest[1..]
  }

  function Join(parts: seq<string>, sep: char): string {
    if parts == [] then ""
    else if |parts| == 1 then parts[0]
    else parts[0] + [sep] + Join(parts[1..], sep)
  }

  predicate Free(s: string, sep: char) {
    forall i :: 0 <= i < |s| ==> s[i] != sep
  }

  lemma {:induction false} JoinSplit(s: string, sep: char)
    ensures Join(Split(s, sep), sep) == s
    ensures forall p :: p in Split(s, sep) ==> Free(p, sep)
    decreases |s|
  {
    hide Free;
    if s == "" {
      EmptyFree(sep);
    } else {
      JoinSplit(s[1..], sep);
      var rest := Split(s[1..], sep);
      assert s == [s[0]] + s[1..];
      EmptyFree(sep);
      if s[0] == sep {
        assert ([""] + rest)[1..] == rest;
      } else {
        var parts := [[s[0]] + rest[0]] + rest[1..];
        assert parts[1..] == rest[1..];
        assert rest[0] in rest;
        LongerFree(s[0], rest[0], sep);
        assert forall p :: p in parts ==> p == [s[0]] + rest[0] || p in rest;
      }
    }
  }

  lemma EmptyFree(sep: char)
    ensures Free("", sep)
  {
  }

  lemma LongerFree(c: char, s: string, sep: char)
    requires c != sep && Free(s, sep)
    ensures Free([c] + s, sep)
  {
  }

  lemma {:induction false} SplitFree(s: string, sep: char)
    requires Free(s, sep)
    ensures Split(s, sep) == [s]
    decreases |s|
  {
    if s != "" {
      SplitFree(s[1..], sep);
      assert s == [s[0]] + s[1..];
    }
  }

  lemma {:induction false} SplitAfter(s: string, rest: string, sep: char)
    requires Free(s, sep)
    ensures Split(s + [sep] + rest, sep) == [s] + Split(rest, sep)
    decreases |s|
  {
    var whole := s + [sep] + rest;
    if s == "" {
      assert whole[1..] == rest;
    } else {
      SplitAfter(s[1..], rest, sep);
      assert whole[1..] == s[1..] + [sep] + rest;
      assert s == [s[0]] + s[1..];
    }
  }

  lemma {:induction false} SplitJoin(parts: seq<string>, sep: char)
    requires parts != [] && forall p :: p in parts ==> Free(p, sep)
    ensures Split(Join(parts, sep), sep) == parts
    decreases |parts|
  {
    if |parts| == 1 {
      SplitFree(parts[0], sep);
    } else {
      SplitJoin(parts[1..], sep);
      SplitAfter(parts[0], Join(parts[1..], sep), sep);
    }
  }

  // --- IPv4 ---

  predicate IsDigit(c: char) { '0' <= c <= '9' }

  function DigitValue(c: char): nat
    requires IsDigit(c)
  {
    c as int - '0' as int
  }

  function DigitChar(d: nat): (c: char)
    requires d < 10
    ensures IsDigit(c) && DigitValue(c) == d
  {
    (d + '0' as int) as char
  }

  predicate AllDigits(s: string) {
    forall i :: 0 <= i < |s| ==> IsDigit(s[i])
  }

  function DecimalValue(s: string): nat
    requires AllDigits(s)
  {
    if s == "" then 0 else DecimalValue(s[..|s| - 1]) * 10 + DigitValue(s[|s| - 1])
  }

  function Decimal(n: nat): string {
    if n < 10 then [DigitChar(n)] else Decimal(n / 10) + [DigitChar(n % 10)]
  }

  function Octet(part: string): Option<nat> {
    if !(1 <= |part| <= 3 && AllDigits(part)) then None
    else if |part| > 1 && part[0] == '0' then None
    else if DecimalValue(part) > 255 then None
    else Some(DecimalValue(part))
  }

  function Value4(parts: seq<string>): Option<nat> {
    if parts == [] then Some(0)
    else
      var before := Value4(parts[..|parts| - 1]);
      var octet := Octet(parts[|parts| - 1]);
      if before.Some? && octet.Some? then Some(before.value * 256 + octet.value) else None
  }

  function Ipv4(text: string): Option<nat> {
    var parts := Split(text, '.');
    if |parts| != 4 then None else Value4(parts)
  }

  // Dotted-quad printing.
  function Dotted(n: nat): string {
    Join([Decimal(n / 0x100_0000), Decimal(n / 0x1_0000 % 256), Decimal(n / 256 % 256), Decimal(n % 256)], '.')
  }

  lemma {:induction false} DecimalReads(n: nat)
    ensures AllDigits(Decimal(n)) && DecimalValue(Decimal(n)) == n && Decimal(n) != ""
    ensures n > 0 ==> Decimal(n)[0] != '0'
    decreases n
  {
    if n >= 10 {
      DecimalReads(n / 10);
      assert Decimal(n)[..|Decimal(n)| - 1] == Decimal(n / 10);
    } else {
      assert Decimal(n)[..0] == "";
    }
  }

  lemma DecimalLength(n: nat)
    requires n <= 255
    ensures |Decimal(n)| <= 3 && (n >= 10 ==> |Decimal(n)| >= 2)
  {
    if n >= 100 {
      assert Decimal(n / 10) == Decimal(n / 10 / 10) + [DigitChar(n / 10 % 10)];
      assert |Decimal(n / 10 / 10)| == 1;
    }
  }

  lemma {:induction false} DecimalPrints(s: string)
    requires AllDigits(s) && s != "" && (|s| > 1 ==> s[0] != '0')
    ensures Decimal(DecimalValue(s)) == s
    decreases |s|
  {
    var front, last := s[..|s| - 1], DigitValue(s[|s| - 1]);
    if front == "" {
      assert DecimalValue(front) == 0;
    } else {
      DecimalPrints(front);
      Positive(front);
      var n := DecimalValue(s);
      assert n / 10 == DecimalValue(front) && n % 10 == last;
      assert s == front + [s[|s| - 1]];
    }
  }

  lemma {:induction false} Positive(s: string)
    requires AllDigits(s) && s != "" && s[0] != '0'
    ensures DecimalValue(s) > 0
    decreases |s|
  {
    if |s| > 1 {
      Positive(s[..|s| - 1]);
    }
  }

  lemma OctetExactly(part: string, v: nat)
    ensures Octet(part) == Some(v) <==> v <= 255 && part == Decimal(v)
  {
    if Octet(part) == Some(v) {
      DecimalPrints(part);
    }
    if v <= 255 && part == Decimal(v) {
      DecimalReads(v);
      DecimalLength(v);
    }
  }

  lemma Value4Of(a: string, b: string, c: string, d: string)
    ensures Value4([a, b, c, d]) ==
              if Octet(a).Some? && Octet(b).Some? && Octet(c).Some? && Octet(d).Some? then
                Some(((Octet(a).value * 256 + Octet(b).value) * 256 + Octet(c).value) * 256 + Octet(d).value)
              else None
  {
    hide Octet;
    assert [a, b, c, d][..3] == [a, b, c] && [a, b, c][..2] == [a, b] && [a, b][..1] == [a] && [a][..0] == [];
    assert Value4([]) == Some(0);
    assert Value4([a]) == Octet(a);
    assert Value4([a, b]).Some? <==> Octet(a).Some? && Octet(b).Some?;
    assert Value4([a, b, c]).Some? <==> Value4([a, b]).Some? && Octet(c).Some?;
  }

  /** ipv4ToInt accepts exactly the canonical dotted quads, each as the number it prints. */
  lemma Ipv4Exactly(text: string, n: nat)
    ensures Ipv4(text) == Some(n) <==> n < 0x1_0000_0000 && text == Dotted(n)
  {
    hide Octet, Decimal, Value4, Join, Split;
    if Ipv4(text) == Some(n) {
      Ipv4Prints(text, n);
    }
    if n < 0x1_0000_0000 && text == Dotted(n) {
      DottedReads(n);
    }
  }

  lemma Ipv4Prints(text: string, n: nat)
    requires Ipv4(text) == Some(n)
    ensures n < 0x1_0000_0000 && text == Dotted(n)
  {
    hide Octet, Decimal, Value4, Join, Split;
    var parts := Split(text, '.');
    JoinSplit(text, '.');
    assert parts == [parts[0], parts[1], parts[2], parts[3]];
    Value4Of(parts[0], parts[1], parts[2], parts[3]);
    var a, b, c, d := Octet(parts[0]).value, Octet(parts[1]).value, Octet(parts[2]).value, Octet(parts[3]).value;
    OctetExactly(parts[0], a);
    OctetExactly(parts[1], b);
    OctetExactly(parts[2], c);
    OctetExactly(parts[3], d);
    Bytes(a, b, c, d);
  }

  lemma Bytes(a: nat, b: nat, c: nat, d: nat)
    requires a <= 255 && b <= 255 && c <= 255 && d <= 255
    ensures var n := ((a * 256 + b) * 256 + c) * 256 + d;
            n < 0x1_0000_0000 && n / 0x100_0000 == a && n / 0x1_0000 % 256 == b && n / 256 % 256 == c && n % 256 == d
  {
  }

  lemma DottedReads(n: nat)
    requires n < 0x1_0000_0000
    ensures Ipv4(Dotted(n)) == Some(n)
  {
    hide Octet, Decimal, Value4, Split, Join, Free, Ipv4;
    Recompose(n);
    var a, b, c, d := n / 0x100_0000, n / 0x1_0000 % 256, n / 256 % 256, n % 256;
    OctetFree(a);
    OctetFree(b);
    OctetFree(c);
    OctetFree(d);
    QuadReads(Decimal(a), Decimal(b), Decimal(c), Decimal(d));
  }

  lemma Recompose(n: nat)
    requires n < 0x1_0000_0000
    ensures n / 0x100_0000 <= 255
    ensures ((n / 0x100_0000 * 256 + n / 0x1_0000 % 256) * 256 + n / 256 % 256) * 256 + n % 256 == n
  {
  }

  lemma QuadReads(a: string, b: string, c: string, d: string)
    requires Octet(a).Some? && Octet(b).Some? && Octet(c).Some? && Octet(d).Some?
    requires Free(a, '.') && Free(b, '.') && Free(c, '.') && Free(d, '.')
    ensures Ipv4(Join([a, b, c, d], '.')) ==
              Some(((Octet(a).value * 256 + Octet(b).value) * 256 + Octet(c).value) * 256 + Octet(d).value)
  {
    hide Octet, Value4, Split, Join, Free, Ipv4;
    FourParts(a, b, c, d);
    Value4Of(a, b, c, d);
  }

  lemma FourParts(a: string, b: string, c: string, d: string)
    requires Free(a, '.') && Free(b, '.') && Free(c, '.') && Free(d, '.')
    ensures Ipv4(Join([a, b, c, d], '.')) == Value4([a, b, c, d])
  {
    hide Octet, Value4, Split, Join, Free;
    SplitJoin([a, b, c, d], '.');
  }

  lemma OctetFree(v: nat)
    requires v <= 255
    ensures Octet(Decimal(v)) == Some(v) && Free(Decimal(v), '.')
  {
    OctetExactly(Decimal(v), v);
    DecimalFree(v);
  }

  lemma DecimalFree(n: nat)
    ensures Free(Decimal(n), '.') && Free(Decimal(n), ':') && AllDigits(Decimal(n)) && Decimal(n) != ""
  {
    DecimalReads(n);
  }

  /** A dotted quad is made of digits and dots, and has a dot. */
  lemma DottedChars(n: nat)
    ensures Free(Dotted(n), ':') && AddressChars(Dotted(n)) && !Free(Dotted(n), '.')
  {
    hide Decimal;
    var a, b, c, d := Decimal(n / 0x100_0000), Decimal(n / 0x1_0000 % 256), Decimal(n / 256 % 256), Decimal(n % 256);
    DecimalFree(n / 0x100_0000);
    DecimalFree(n / 0x1_0000 % 256);
    DecimalFree(n / 256 % 256);
    DecimalFree(n % 256);
    JoinOfFour(a, b, c, d);
    var text := Dotted(n);
    assert text[|a|] == '.';
    assert forall i :: 0 <= i < |text| ==> text[i] == '.' || IsDigit(text[i]);
  }

  lemma JoinOfFour(a: string, b: string, c: string, d: string)
    ensures Join([a, b, c, d], '.') == a + ['.'] + (b + ['.'] + (c + ['.'] + d))
  {
    assert [a, b, c, d][1..] == [b, c, d] && [b, c, d][1..] == [c, d] && [c, d][1..] == [d];
    assert Join([c, d], '.') == c + ['.'] + Join([d], '.');
    assert Join([b, c, d], '.') == b + ['.'] + Join([c, d], '.');
  }

  // --- IPv6 ---

  predicate IsHex(c: char) { '0' <= c <= '9' || 'a' <= c <= 'f' || 'A' <= c <= 'F' }

  predicate AddressChars(s: string) {
    forall i :: 0 <= i < |s| ==> IsHex(s[i]) || s[i] == ':' || s[i] == '.'
  }

  function HexDigit(c: char): nat
    requires IsHex(c)
  {
    if c <= '9' then c as int - '0' as int
    else if c <= 'F' then c as int - 'A' as int + 10
    else c as int - 'a' as int + 10
  }

  predicate IsGroup(s: string) {
    1 <= |s| <= 4 && forall i :: 0 <= i < |s| ==> IsHex(s[i])
  }

  function HexValue(s: string): nat
    requires forall i :: 0 <= i < |s| ==> IsHex(s[i])
  {
    if s == "" then 0 else HexValue(s[..|s| - 1]) * 16 + HexDigit(s[|s| - 1])
  }
}
