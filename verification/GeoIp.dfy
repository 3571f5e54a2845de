/** Country lookup: address parsing and the binary search over allocated ranges. */
module GeoIp {
  import opened Wrappers
  import opened IpText
  import opened Ip6Text

  // --- Parsing, step by step ---

  lemma {:induction false} Value4Stops(parts: seq<string>, k: nat)
    requires k <= |parts| && Value4(parts[..k]).None?
    ensures Value4(parts).None?
    decreases |parts|
  {
    if k < |parts| {
      var front := parts[..|parts| - 1];
      assert front[..k] == parts[..k];
      Value4Stops(front, k);
    } else {
      assert parts[..k] == parts;
    }
  }

  method Ipv4ToInt(text: string) returns (result: Option<nat>)
    ensures result == Ipv4(text)
  {
    var parts := Split(text, '.');
    if |parts| != 4 {
      return None;
    }
    var value, i := 0, 0;
    while i < |parts|
      invariant 0 <= i <= |parts|
      invariant Value4(parts[..i]) == Some(value)
    {
      var part := parts[i];
      assert parts[..i + 1][..i] == parts[..i] && parts[..i + 1][i] == part;
      if !(1 <= |part| <= 3 && AllDigits(part)) || (|part| > 1 && part[0] == '0') || DecimalValue(part) > 255 {
        Value4Stops(parts, i + 1);
        return None;
      }
      value := value * 256 + DecimalValue(part);
      i := i + 1;
    }
    assert parts[..i] == parts;
    Ipv4Exactly(text, value);
    return Some(value);
  }

  // The push helper: the groups of parts after those already read.
  method PushParts(parts: seq<string>, before: seq<nat>) returns (groups: Option<seq<nat>>)
    ensures groups == if Push(parts).None? then None else Some(before + Push(parts).value)
  {
    var so, i := before, 0;
    while i < |parts|
      invariant 0 <= i <= |parts|
      invariant Push(parts).None? <==> Push(parts[i..]).None?
      invariant Push(parts).Some? ==> before + Push(parts).value == so + Push(parts[i..]).value
    {
      var part := parts[i];
      assert parts[i..][0] == part && parts[i..][1..] == parts[i + 1..];
      if !Free(part, '.') {
        if i != |parts| - 1 {
          return None;
        }
        var quad := Ipv4ToInt(part);
        if quad.None? {
          return None;
        }
        so := so + [quad.value / 0x1_0000, quad.value % 0x1_0000];
      } else {
        if !IsGroup(part) {
          return None;
        }
        so := so + [HexValue(part)];
      }
      i := i + 1;
    }
    assert parts[i..] == [] && so + [] == so;
    return Some(so);
  }

  method Ipv6ToTop64(text: string) returns (result: Option<nat>)
    ensures result == Top64(text)
  {
    hide Push, Parts, AddressChars;
    var addr := BeforeZone(text);
    GroupsCount(addr);
    if addr == "" || !AddressChars(addr) {
      return None;
    }
    var gap := FirstGap(addr);
    if gap.Some? && FirstGap(addr[gap.value + 2..]).Some? {
      return None;
    }
    var headParts := Parts(if gap.Some? then addr[..gap.value] else addr);
    var tailParts := if gap.Some? then Parts(addr[gap.value + 2..]) else [];
    var groups := PushParts(headParts, []);
    if groups.None? {
      return None;
    }
    assert groups.value == Push(headParts).value;
    var headLen := |groups.value|;
    var all := PushParts(tailParts, groups.value);
    NothingPushed();
    if all.None? {
      return None;
    }
    var full := all.value;
    assert full[..headLen] == groups.value && full[headLen..] == Push(tailParts).value;
    if gap.None? {
      assert full == groups.value + [] == groups.value;
      if |full| != 8 {
        return None;
      }
      assert Groups(addr) == Some(full);
    } else {
      if |full| > 7 {
        return None;
      }
      full := full[..headLen] + Zeros(8 - |full|) + full[headLen..];
    }
    var top, i := 0, 0;
    assert Groups(addr) == Some(full);
    TopOfFour(full);
    while i < 4
      invariant 0 <= i <= 4
      invariant top == TopOf(full, i)
    {
      top := top * 0x1_0000 + full[i];
      i := i + 1;
    }
    return Some(top);
  }

  lemma NothingPushed()
    ensures Push([]) == Some([])
  {
  }

  function TopOf(groups: seq<nat>, n: nat): nat
    requires n <= |groups|
  {
    if n == 0 then 0 else TopOf(groups, n - 1) * 0x1_0000 + groups[n - 1]
  }

  lemma TopOfFour(groups: seq<nat>)
    requires |groups| >= 4
    ensures TopOf(groups, 4) == Top(groups)
  {
    assert TopOf(groups, 1) == groups[0] && TopOf(groups, 2) == TopOf(groups, 1) * 0x1_0000 + groups[1];
    assert TopOf(groups, 3) == TopOf(groups, 2) * 0x1_0000 + groups[2];
  }

  // --- Ranges ---

  datatype Table = Table(starts: seq<nat>, ends: seq<nat>, codes: seq<string>)

  // Allocations in order, none overlapping the next.
  predicate Sorted(t: Table) {
    |t.starts| == |t.ends| == |t.codes| &&
    (forall i :: 0 <= i < |t.starts| ==> t.starts[i] <= t.ends[i] && |t.codes[i]| == 2) &&
    forall i, j :: 0 <= i < j < |t.starts| ==> t.ends[i] < t.starts[j]
  }

  // The reference: the first range that holds the address, looked for one by one.
  function Scan(t: Table, value: nat, from: nat): Option<nat>
    requires |t.starts| == |t.ends| && from <= |t.starts|
    decreases |t.starts| - from
  {
    if from == |t.starts| then None
    else if t.starts[from] <= value <= t.ends[from] then Some(from)
    else Scan(t, value, from + 1)
  }

  lemma {:induction false} ScanFinds(t: Table, value: nat, from: nat, found: int)
    requires Sorted(t) && from <= |t.starts| && -1 <= found < |t.starts|
    requires forall i :: 0 <= i < |t.starts| ==> (t.starts[i] <= value <==> i <= found)
    ensures Scan(t, value, from) ==
              if from <= found && value <= t.ends[found] then Some(found) else None
    decreases |t.starts| - from
  {
    if from < |t.starts| {
      ScanFinds(t, value, from + 1, found);
    }
  }

  /** The index of the last start not above the value. */
  method FindRange(starts: array<nat>, value: nat) returns (found: int)
    requires forall i, j :: 0 <= i < j < starts.Length ==> starts[i] <= starts[j]
    ensures -1 <= found < starts.Length
    ensures forall i :: 0 <= i < starts.Length ==> (starts[i] <= value <==> i <= found)
  {
    var lo, hi := 0, starts.Length - 1;
    found := -1;
    while lo <= hi
      invariant 0 <= lo <= hi + 1 <= starts.Length
      invariant found == lo - 1
      invariant forall i :: 0 <= i < lo ==> starts[i] <= value
      invariant forall i :: hi < i < starts.Length ==> starts[i] > value
    {
      var mid := (lo + hi) / 2;
      if starts[mid] <= value {
        found := mid;
        lo := mid + 1;
      } else {
        hi := mid - 1;
      }
    }
  }

  function CodeAt(t: Table, i: nat): Option<string>
    requires i < |t.codes| && |t.codes[i]| == 2
  {
    var cc := t.codes[i];
    if 'A' <= cc[0] <= 'Z' && 'A' <= cc[1] <= 'Z' then Some(cc) else None
  }

  // The country of an address by the reference search.
  function CountryOf(t: Table, value: nat): Option<string>
    requires Sorted(t)
  {
    var i := Scan(t, value, 0);
    if i.Some? then CodeAt(t, Scanned(t, value)) else None
  }

  function Scanned(t: Table, value: nat): (i: nat)
    requires Sorted(t) && Scan(t, value, 0).Some?
    ensures i < |t.starts|
  {
    ScanIndex(t, value, 0);
    Scan(t, value, 0).value
  }

  lemma ScanIndex(t: Table, value: nat, from: nat)
    requires |t.starts| == |t.ends| && from <= |t.starts|
    ensures Scan(t, value, from).Some? ==> Scan(t, value, from).value < |t.starts|
    decreases |t.starts| - from
  {
  }

  // --- Looking an address up ---

  function Lower(c: char): char { if 'A' <= c <= 'Z' then (c as int + 32) as char else c }

  predicate MappedPrefix(s: string) {
    |s| >= 7 && s[0] == s[1] == s[6] == ':' && Lower(s[2]) == Lower(s[3]) == Lower(s[4]) == Lower(s[5]) == 'f'
  }

  predicate QuadShape(s: string) {
    var parts := Split(s, '.');
    |parts| == 4 && forall p :: p in parts ==> 1 <= |p| <= 3 && AllDigits(p)
  }

  // "::ffff:" before a dotted quad is taken off.
  function Unmapped(raw: string): string {
    if MappedPrefix(raw) && QuadShape(raw[7..]) then raw[7..] else raw
  }

  function Lookup(raw: string, v4: Table, v6: Table): Option<string>
    requires Sorted(v4) && Sorted(v6)
  {
    var number := Ipv4(Unmapped(raw));
    if number.Some? then CountryOf(v4, number.value)
    else
      var top := Top64(raw);
      if top.Some? then CountryOf(v6, top.value) else None
  }

  method SearchTable(t: Table, starts: array<nat>, value: nat) returns (country: Option<string>)
    requires Sorted(t) && starts[..] == t.starts
    ensures country == CountryOf(t, value)
  {
    assert forall i, j :: 0 <= i < j < |t.starts| ==> t.starts[i] <= t.ends[i] < t.starts[j];
    assert forall i :: 0 <= i < starts.Length ==> starts[i] == t.starts[i];
    var found := FindRange(starts, value);
    ScanFinds(t, value, 0, found);
    if found == -1 || t.ends[found] < value {
      return None;
    }
    return CodeAt(t, found);
  }

  method LookupCountry(raw: string, v4: Table, v4Starts: array<nat>, v6: Table, v6Starts: array<nat>)
    returns (country: Option<string>)
    requires Sorted(v4) && v4Starts[..] == v4.starts && Sorted(v6) && v6Starts[..] == v6.starts
    ensures country == Lookup(raw, v4, v6)
  {
    if raw == "" {
      EmptyText();
      return None;
    }
    var number := Ipv4ToInt(Unmapped(raw));
    if number.Some? {
      country := SearchTable(v4, v4Starts, number.value);
      return;
    }
    var top := Ipv6ToTop64(raw);
    if top.None? {
      return None;
    }
    country := SearchTable(v6, v6Starts, top.value);
  }

  lemma EmptyText()
    ensures Ipv4(Unmapped("")) == None && Top64("") == None
  {
  }

  // The number as a dotted quad, plainly or after "::ffff:" in letters of either case.
  ghost predicate WrittenAsIpv4(raw: string, n: nat) {
    n < 0x1_0000_0000 && (raw == Dotted(n) || MappedQuad(raw, n))
  }

  ghost predicate MappedQuad(raw: string, n: nat) {
    n < 0x1_0000_0000 && MappedPrefix(raw) && raw[7..] == Dotted(n)
  }

  /** The texts that go to the IPv4 table are exactly these. */
  lemma Ipv4Spellings(raw: string, n: nat)
    ensures Ipv4(Unmapped(raw)) == Some(n) <==> WrittenAsIpv4(raw, n)
  {
    hide Dotted, Ipv4, QuadShape;
    Ipv4Exactly(Unmapped(raw), n);
    Ipv4Exactly(raw, n);
    if n < 0x1_0000_0000 {
      QuadShaped(n);
      DottedChars(n);
      assert !MappedPrefix(Dotted(n));
    }
    if MappedPrefix(raw) {
      assert !Free(raw, ':');
    }
  }

  /** An IPv4 address, written either way, is found in the IPv4 table. */
  lemma Ipv4Found(raw: string, n: nat, v4: Table, v6: Table)
    requires Sorted(v4) && Sorted(v6) && WrittenAsIpv4(raw, n)
    ensures Lookup(raw, v4, v6) == CountryOf(v4, n)
  {
    hide WrittenAsIpv4, CountryOf;
    Ipv4Spellings(raw, n);
  }

  lemma QuadShaped(n: nat)
    requires n < 0x1_0000_0000
    ensures QuadShape(Dotted(n))
  {
    hide Split, Value4, Decimal, AllDigits;
    DottedReads(n);
    var parts := Split(Dotted(n), '.');
    assert parts == [parts[0], parts[1], parts[2], parts[3]];
    Value4Of(parts[0], parts[1], parts[2], parts[3]);
  }

  /** Every text form of an IPv6 address but "::ffff:" and a dotted quad is found in the IPv6 table, by its
    * top four groups; so is that form with a zone, or with its zeros written another way.
    */
  lemma Ipv6Found(form: Form, zone: string, v4: Table, v6: Table)
    requires Sorted(v4) && Sorted(v6) && form.Valid() && ZoneSuffix(zone)
    requires forall n :: !MappedQuad(form.Text() + zone, n)
    ensures AddressTop(form).Some? && Lookup(form.Text() + zone, v4, v6) == CountryOf(v6, AddressTop(form).value)
  {
    hide Form.Text, Form.Valid, Form.Address, MappedQuad, CountryOf, Unmapped;
    var raw := form.Text() + zone;
    FormTop(form);
    assert Writes(raw, form, zone);
    Ipv6Exactly(raw, AddressTop(form).value);
    if Ipv4(Unmapped(raw)).Some? {
      var n := Ipv4(Unmapped(raw)).value;
      Ipv4Spellings(raw, n);
      NotDotted(form, zone, n);
    }
  }

  // A form reads as eight groups, a dotted quad alone as two.
  lemma NotDotted(form: Form, zone: string, n: nat)
    requires form.Valid() && ZoneSuffix(zone) && n < 0x1_0000_0000
    ensures form.Text() + zone != Dotted(n)
  {
    hide Form.Text, Form.Valid, Form.Address, Dotted, Ipv4, Push, AddressChars;
    if form.Text() + zone == Dotted(n) {
      var raw := Dotted(n);
      DottedChars(n);
      FormReads(form);
      FormChars(form);
      ZoneCut(form.Text(), zone);
      ZoneCut(raw, "");
      assert raw + "" == raw;
      LoneQuad(n);
    }
  }

  lemma LoneQuad(n: nat)
    requires n < 0x1_0000_0000
    ensures Groups(Dotted(n)) == None
  {
    hide Dotted, Ipv4, AddressChars;
    DottedChars(n);
    DottedReads(n);
    SplitFree(Dotted(n), ':');
    assert FirstGap(Dotted(n)) == None;
    assert Parts(Dotted(n)) == [Dotted(n)];
  }

  /** Any text that is neither is found nowhere. */
  lemma NothingElse(raw: string, v4: Table, v6: Table)
    requires Sorted(v4) && Sorted(v6)
    requires forall n :: !WrittenAsIpv4(raw, n)
    requires forall form: Form, zone: string :: !Writes(raw, form, zone)
    ensures Lookup(raw, v4, v6) == None
  {
    hide WrittenAsIpv4, Writes, Unmapped, Top64;
    if Ipv4(Unmapped(raw)).Some? {
      Ipv4Spellings(raw, Ipv4(Unmapped(raw)).value);
    } else if Top64(raw).Some? {
      Ipv6Exactly(raw, Top64(raw).value);
    }
  }

  // The groups of an IPv4-mapped address.
  function Mapped(n: nat): seq<nat> {
    [0, 0, 0, 0, 0, 0xffff, n / 0x1_0000, n % 0x1_0000]
  }

  /** However a mapped address is written, the IPv4 table answers exactly for "::ffff:" before its
    * dotted quad, with no zone; every other text of it goes to the IPv6 table with a top half of zeros.
    */
  lemma MappedExactly(form: Form, zone: string, n: nat, v4: Table, v6: Table)
    requires Sorted(v4) && Sorted(v6) && form.Valid() && ZoneSuffix(zone)
    requires n < 0x1_0000_0000 && form.Address() == Mapped(n)
    ensures Lookup(form.Text() + zone, v4, v6) ==
              if MappedQuad(form.Text() + zone, n) then CountryOf(v4, n) else CountryOf(v6, 0)
  {
    hide Form.Text, Form.Valid, Form.Address, MappedQuad, CountryOf, Lookup;
    var raw := form.Text() + zone;
    if m :| MappedQuad(raw, m) {
      MappedReads(form, zone, m);
      assert m == n by {
        assert Mapped(m)[6] == Mapped(n)[6] && Mapped(m)[7] == Mapped(n)[7];
      }
      Ipv4Found(raw, n, v4, v6);
    } else {
      Ipv6Found(form, zone, v4, v6);
    }
  }

  // A text of that spelling is a text of that mapped address only.
  lemma MappedReads(form: Form, zone: string, m: nat)
    requires form.Valid() && ZoneSuffix(zone) && MappedQuad(form.Text() + zone, m)
    ensures form.Address() == Mapped(m)
  {
    hide Form.Text, Form.Valid, Form.Address, Dotted, Groups, AddressChars;
    var raw := form.Text() + zone;
    FormReads(form);
    FormChars(form);
    ZoneCut(form.Text(), zone);
    var pieces := [Hex(raw[2..6]), Quad(m)];
    MappedGroups(raw, m, pieces);
    ZoneCut(raw, "");
    assert raw + "" == raw;
  }

  lemma MappedGroups(raw: string, m: nat, pieces: seq<Piece>)
    requires MappedQuad(raw, m) && pieces == [Hex(raw[2..6]), Quad(m)]
    ensures Groups(raw) == Some(Mapped(m)) && AddressChars(raw)
  {
    hide Groups, AddressChars, Dotted, Form.Valid, Form.Text, Form.Address;
    var form := Form([], Some(pieces));
    AllFs(raw[2..6]);
    MappedText(raw, m, pieces);
    MappedValue(raw[2..6], m, pieces);
    FormReads(form);
    FormChars(form);
  }

  lemma AllFs(s: string)
    requires |s| == 4 && forall i :: 0 <= i < 4 ==> Lower(s[i]) == 'f'
    ensures IsGroup(s) && HexValue(s) == 0xffff
  {
    assert forall i :: 0 <= i < 4 ==> s[i] == 'f' || s[i] == 'F';
    assert s[..3][..2] == s[..2] && s[..2][..1] == s[..1] && s[..1][..0] == "";
    assert HexValue(s[..1]) == 15;
    assert HexValue(s[..2]) == HexValue(s[..1]) * 16 + 15;
    assert HexValue(s[..3]) == HexValue(s[..2]) * 16 + 15;
  }

  lemma MappedText(raw: string, m: nat, pieces: seq<Piece>)
    requires MappedQuad(raw, m) && pieces == [Hex(raw[2..6]), Quad(m)]
    ensures Form([], Some(pieces)).Text() == raw
  {
    hide Dotted;
    assert Texts(pieces) == [raw[2..6], Dotted(m)];
    assert [raw[2..6], Dotted(m)][1..] == [Dotted(m)];
    assert Join(Texts(pieces), ':') == raw[2..6] + [':'] + Dotted(m);
    assert raw == "::" + (raw[2..6] + [':'] + raw[7..]);
  }

  lemma MappedValue(digits: string, m: nat, pieces: seq<Piece>)
    requires IsGroup(digits) && HexValue(digits) == 0xffff && m < 0x1_0000_0000
    requires pieces == [Hex(digits), Quad(m)]
    ensures var form := Form([], Some(pieces)); form.Valid() && form.Address() == Mapped(m)
  {
    hide IsGroup, HexValue;
    assert pieces[1..] == [Quad(m)] && [Quad(m)][1..] == [];
    assert Values([Quad(m)]) == Quad(m).Value() + [];
    assert Values(pieces) == [0xffff] + Quad(m).Value();
    assert Zeros(5) == [0, 0, 0, 0, 0];
  }

  lemma FormTop(form: Form)
    requires form.Valid()
    ensures AddressTop(form).Some?
  {
    FormReads(form);
    GroupsCount(form.Text());
  }

  /** Such a pair of texts: the same address, its last two groups as a dotted quad and in hexadecimal. */
  lemma MappedSpelling(v4: Table, v6: Table)
    requires Sorted(v4) && Sorted(v6)
    ensures Lookup("::ffff:1.2.3.4", v4, v6) == CountryOf(v4, 0x0102_0304)
    ensures Lookup("::ffff:102:304", v4, v6) == CountryOf(v6, 0)
  {
    hide Dotted, CountryOf, Ipv4, Unmapped, Top64;
    SampleDotted();
    assert "::ffff:1.2.3.4"[7..] == "1.2.3.4";
    Ipv4Found("::ffff:1.2.3.4", 0x0102_0304, v4, v6);
    HexSpelling();
  }

  lemma HexSpelling()
    ensures Ipv4(Unmapped("::ffff:102:304")) == None && Top64("::ffff:102:304") == Some(0)
  {
    hide Ipv4, Unmapped, Top64, Join;
    var pieces := [Hex("ffff"), Hex("102"), Hex("304")];
    HexJoin("ffff", "102", "304");
    HexValues("ffff", "102", "304");
    assert Texts(pieces) == ["ffff", "102", "304"];
    assert "::" + ("ffff" + [':'] + ("102" + [':'] + "304")) == "::ffff:102:304";
    assert Join(Texts(pieces), ':') == "ffff:102:304";
    HexTop(pieces, "ffff:102:304");
    NotQuad();
  }

  lemma HexTop(pieces: seq<Piece>, text: string)
    requires ValidPieces(pieces) && |Values(pieces)| == 3 && Join(Texts(pieces), ':') == text
    ensures Top64("::" + text) == Some(0)
  {
    hide Groups, AddressChars, Values, Join, Texts, ValidPieces;
    var form := Form([], Some(pieces));
    NoPieces();
    NoText();
    assert form.Text() == "::" + text;
    assert Zeros(5) == [0, 0, 0, 0] + Zeros(1);
    FormReads(form);
    FormChars(form);
    ZoneCut(form.Text(), "");
    assert form.Text() + "" == form.Text();
  }

  lemma NoText()
    ensures ValidPieces([]) && Join(Texts([]), ':') == ""
  {
  }

  lemma HexJoin(a: string, b: string, c: string)
    ensures Join([a, b, c], ':') == a + [':'] + (b + [':'] + c)
  {
    assert [a, b, c][1..] == [b, c] && [b, c][1..] == [c];
    assert Join([b, c], ':') == b + [':'] + Join([c], ':');
  }

  lemma HexValues(a: string, b: string, c: string)
    requires IsGroup(a) && IsGroup(b) && IsGroup(c)
    ensures ValidPieces([Hex(a), Hex(b), Hex(c)]) && |Values([Hex(a), Hex(b), Hex(c)])| == 3
  {
    assert [Hex(a), Hex(b), Hex(c)][1..] == [Hex(b), Hex(c)] && [Hex(b), Hex(c)][1..] == [Hex(c)];
    assert Values([Hex(c)]) == Hex(c).Value();
    assert Values([Hex(b), Hex(c)]) == Hex(b).Value() + Values([Hex(c)]);
  }

  lemma NotQuad()
    ensures Ipv4(Unmapped("::ffff:102:304")) == None
  {
    hide Split;
    var text := "::ffff:102:304";
    assert Free(text, '.') && Free(text[7..], '.');
    SplitFree(text, '.');
    SplitFree(text[7..], '.');
  }
}
