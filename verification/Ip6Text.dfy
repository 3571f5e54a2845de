/** Text forms of IPv6 addresses: ipv6ToTop64 against the notation of RFC 4291, section 2.2. */
module Ip6Text {
  import opened Wrappers
  import opened IpText

  // --- What the program computes ---

  function IndexOf(s: string, c: char): (i: nat)
    ensures i <= |s| && (i < |s| ==> s[i] == c) && forall j :: 0 <= j < i ==> s[j] != c
  {
    if s == "" || s[0] == c then 0 else 1 + IndexOf(s[1..], c)
  }

  function BeforeZone(text: string): string { text[..IndexOf(text, '%')] }

  predicate IsGap(s: string, i: int) {
    0 <= i < |s| - 1 && s[i] == ':' && s[i + 1] == ':'
  }

  // The first "::", as String.split and RegExp matching find it.
  function FirstGap(s: string): (gap: Option<nat>)
    ensures gap.Some? ==> IsGap(s, gap.value) && forall i :: 0 <= i < gap.value ==> !IsGap(s, i)
    ensures gap.None? ==> forall i :: !IsGap(s, i)
  {
    if |s| < 2 then None
    else if IsGap(s, 0) then Some(0)
    else
      var rest := FirstGap(s[1..]);
      assert forall i :: 0 < i ==> (IsGap(s, i) <==> IsGap(s[1..], i - 1));
      if rest.Some? then Some(rest.value + 1) else None
  }

  function Parts(s: string): seq<string> { if s == "" then [] else Split(s, ':') }

  // The 16-bit groups that the parts between colons stand for.
  function Push(parts: seq<string>): Option<seq<nat>> {
    if parts == [] then Some([])
    else if !Free(parts[0], '.') then
      var quad := Ipv4(parts[0]);
      if |parts| > 1 || quad.None? then None else Some([quad.value / 0x1_0000, quad.value % 0x1_0000])
    else if !IsGroup(parts[0]) then None
    else
      var rest := Push(parts[1..]);
      if rest.None? then None else Some([HexValue(parts[0])] + rest.value)
  }

  function Zeros(n: nat): (zs: seq<nat>)
    ensures |zs| == n
  {
    if n == 0 then [] else [0] + Zeros(n - 1)
  }

  function Groups(addr: string): Option<seq<nat>> {
    if addr == "" || !AddressChars(addr) then None
    else
      var gap := FirstGap(addr);
      if gap.None? then
        var groups := Push(Parts(addr));
        if groups.None? || |groups.value| != 8 then None else groups
      else if FirstGap(addr[gap.value + 2..]).Some? then None
      else
        var head, tail := Push(Parts(addr[..gap.value])), Push(Parts(addr[gap.value + 2..]));
        if head.None? || tail.None? || |head.value| + |tail.value| > 7 then None
        else Some(head.value + Zeros(8 - |head.value| - |tail.value|) + tail.value)
  }

  function Top(groups: seq<nat>): nat
    requires |groups| >= 4
  {
    ((groups[0] * 0x1_0000 + groups[1]) * 0x1_0000 + groups[2]) * 0x1_0000 + groups[3]
  }

  lemma GroupsCount(addr: string)
    ensures Groups(addr).Some? ==> |Groups(addr).value| == 8
  {
  }

  function Top64(text: string): Option<nat> {
    var groups := Groups(BeforeZone(text));
    GroupsCount(BeforeZone(text));
    if groups.None? then None else Some(Top(groups.value))
  }

  // --- The notation ---

  // What stands between colons: one to four hexadecimal digits, or a dotted quad for
  // two groups at once.
  datatype Piece = Hex(digits: string) | Quad(number: nat) {
    predicate Valid() {
      match this
      case Hex(digits) => IsGroup(digits)
      case Quad(n) => n < 0x1_0000_0000
    }
    function Text(): string {
      match this
      case Hex(digits) => digits
      case Quad(n) => Dotted(n)
    }
    function Value(): seq<nat>
      requires Valid()
    {
      match this
      case Hex(digits) => [HexValue(digits)]
      case Quad(n) => [n / 0x1_0000, n % 0x1_0000]
    }
  }

  predicate ValidPieces(pieces: seq<Piece>) {
    forall i :: 0 <= i < |pieces| ==> pieces[i].Valid() && (pieces[i].Quad? ==> i == |pieces| - 1)
  }

  function Texts(pieces: seq<Piece>): (texts: seq<string>)
    ensures |texts| == |pieces| && forall i :: 0 <= i < |pieces| ==> texts[i] == pieces[i].Text()
  {
    seq(|pieces|, i requires 0 <= i < |pieces| => pieces[i].Text())
  }

  function Values(pieces: seq<Piece>): seq<nat>
    requires ValidPieces(pieces)
  {
    if pieces == [] then []
    else
      assert ValidPieces(pieces[1..]) by {
        assert forall i :: 0 <= i < |pieces[1..]| ==> pieces[1..][i] == pieces[i + 1];
      }
      pieces[0].Value() + Values(pieces[1..])
  }

  // An address as written: pieces, and more pieces after a "::" if there is one.
  datatype Form = Form(head: seq<Piece>, tail: Option<seq<Piece>>) {
    predicate Valid() {
      ValidPieces(head) && (tail.Some? ==> ValidPieces(tail.value)) &&
      if tail.None? then |Values(head)| == 8 else |Values(head)| + |Values(tail.value)| <= 7
    }
    function Text(): string {
      Join(Texts(head), ':') + if tail.None? then "" else "::" + Join(Texts(tail.value), ':')
    }
    function Address(): seq<nat>
      requires Valid()
    {
      if tail.None? then Values(head)
      else Values(head) + Zeros(8 - |Values(head)| - |Values(tail.value)|) + Values(tail.value)
    }
    // A dotted quad may only end the address.
    predicate Standard() {
      tail.Some? ==> forall p :: p in head ==> p.Hex?
    }
  }

  // --- Reading what was written ---

  lemma PieceText(p: Piece)
    requires p.Valid()
    ensures p.Text() != "" && Free(p.Text(), ':') && AddressChars(p.Text())
    ensures Free(p.Text(), '.') <==> p.Hex?
  {
    if p.Quad? {
      DottedChars(p.number);
    }
  }

  lemma {:induction false} PushReads(pieces: seq<Piece>)
    requires ValidPieces(pieces)
    ensures Push(Texts(pieces)) == Some(Values(pieces))
    decreases |pieces|
  {
    hide IsGroup, Free, AddressChars, Ipv4, Dotted, HexValue;
    if pieces != [] {
      var p, rest := pieces[0], pieces[1..];
      assert ValidPieces(rest) by {
        assert forall i :: 0 <= i < |rest| ==> rest[i] == pieces[i + 1];
      }
      PieceText(p);
      assert Texts(pieces)[1..] == Texts(rest);
      if p.Quad? {
        DottedReads(p.number);
        assert rest == [] && Values(rest) == [];
        assert Values(pieces) == p.Value();
      } else {
        PushReads(rest);
      }
    }
  }

  ghost predicate PlainText(s: string) {
    AddressChars(s) && (forall i :: !IsGap(s, i)) && (s != "" ==> s[0] != ':' && s[|s| - 1] != ':')
  }

  lemma PlainJoin(a: string, b: string)
    requires a != "" && Free(a, ':') && AddressChars(a) && PlainText(b) && b != ""
    ensures PlainText(a + [':'] + b)
  {
    var s := a + [':'] + b;
    forall i
      ensures !IsGap(s, i)
    {
      if 0 <= i < |a| {
        assert s[i] == a[i];
      } else if i == |a| {
        assert s[i + 1] == b[0];
      } else {
        assert !IsGap(b, i - |a| - 1);
      }
    }
    assert s[0] == a[0] && s[|s| - 1] == b[|b| - 1];
  }

  lemma {:induction false} JoinPlain(pieces: seq<Piece>)
    requires ValidPieces(pieces)
    ensures PlainText(Join(Texts(pieces), ':'))
    ensures Parts(Join(Texts(pieces), ':')) == Texts(pieces)
    decreases |pieces|
  {
    hide PlainText, Split, AddressChars, Free, Piece.Text, Piece.Valid;
    if pieces == [] {
      EmptyPlain();
    } else {
      var rest := pieces[1..];
      assert ValidPieces(rest) by {
        assert forall i :: 0 <= i < |rest| ==> rest[i] == pieces[i + 1];
      }
      PieceText(pieces[0]);
      assert Texts(pieces)[1..] == Texts(rest);
      JoinPlain(rest);
      if rest == [] {
        FreePlain(pieces[0].Text());
      } else {
        JoinNonempty(rest);
        PlainJoin(pieces[0].Text(), Join(Texts(rest), ':'));
      }
      JoinNonempty(pieces);
      forall t | t in Texts(pieces)
        ensures Free(t, ':')
      {
        var i :| 0 <= i < |pieces| && t == pieces[i].Text();
        PieceText(pieces[i]);
      }
      SplitJoin(Texts(pieces), ':');
    }
  }

  lemma EmptyPlain()
    ensures PlainText("")
  {
  }

  lemma FreePlain(s: string)
    requires s != "" && Free(s, ':') && AddressChars(s)
    ensures PlainText(s)
  {
  }

  lemma JoinNonempty(pieces: seq<Piece>)
    requires pieces != [] && ValidPieces(pieces)
    ensures Join(Texts(pieces), ':') != ""
  {
    PieceText(pieces[0]);
  }

  lemma GapBetween(head: string, tail: string)
    requires PlainText(head) && PlainText(tail)
    ensures var s := head + "::" + tail;
            && FirstGap(s) == Some(|head|) && s[..|head|] == head && s[|head| + 2..] == tail
            && FirstGap(tail) == None && AddressChars(s)
  {
    var s := head + "::" + tail;
    assert IsGap(s, |head|);
    forall i | 0 <= i < |head|
      ensures !IsGap(s, i)
    {
      if i < |head| - 1 {
        assert !IsGap(head, i);
      } else {
        assert s[i] == head[|head| - 1];
      }
    }
  }

  lemma GroupsBetween(head: string, tail: string, groups: seq<nat>, more: seq<nat>)
    requires PlainText(head) && PlainText(tail)
    requires Push(Parts(head)) == Some(groups) && Push(Parts(tail)) == Some(more) && |groups| + |more| <= 7
    ensures Groups(head + "::" + tail) == Some(groups + Zeros(8 - |groups| - |more|) + more)
  {
    hide PlainText, AddressChars, Parts, Push;
    GapBetween(head, tail);
  }

  lemma GroupsPlain(head: string, groups: seq<nat>)
    requires PlainText(head) && head != "" && Push(Parts(head)) == Some(groups) && |groups| == 8
    ensures Groups(head) == Some(groups)
  {
    hide PlainText, AddressChars, Parts, Push;
    PlainFacts(head);
  }

  lemma FormReads(form: Form)
    requires form.Valid()
    ensures Groups(form.Text()) == Some(form.Address())
  {
    hide Groups, PlainText, AddressChars, Parts, Push, Join, Texts, Values;
    var head := Join(Texts(form.head), ':');
    JoinPlain(form.head);
    PushReads(form.head);
    if form.tail.None? {
      NoPieces();
      JoinNonempty(form.head);
      assert form.Text() == head;
      GroupsPlain(head, Values(form.head));
    } else {
      var tail := Join(Texts(form.tail.value), ':');
      JoinPlain(form.tail.value);
      PushReads(form.tail.value);
      GroupsBetween(head, tail, Values(form.head), Values(form.tail.value));
      assert form.Text() == head + "::" + tail;
    }
  }

  lemma NoPieces()
    ensures Values([]) == []
  {
  }

  lemma PlainFacts(s: string)
    requires PlainText(s)
    ensures FirstGap(s) == None && AddressChars(s)
  {
  }

  // --- Only what was written is read ---

  lemma {:induction false} PushRead(parts: seq<string>) returns (pieces: seq<Piece>)
    requires Push(parts).Some?
    ensures ValidPieces(pieces) && Texts(pieces) == parts && Values(pieces) == Push(parts).value
    decreases |parts|
  {
    hide IsGroup, Free, Ipv4, Dotted, HexValue;
    if parts == [] {
      pieces := [];
    } else if !Free(parts[0], '.') {
      var n := Ipv4(parts[0]).value;
      Ipv4Exactly(parts[0], n);
      pieces := [Quad(n)];
      assert pieces[1..] == [];
      assert Texts(pieces) == parts;
    } else {
      var rest := PushRead(parts[1..]);
      pieces := [Hex(parts[0])] + rest;
      assert pieces[1..] == rest;
      assert Texts(pieces) == [parts[0]] + Texts(rest);
    }
  }

  lemma PartsRead(s: string) returns (pieces: seq<Piece>)
    requires Push(Parts(s)).Some?
    ensures ValidPieces(pieces) && Join(Texts(pieces), ':') == s && Values(pieces) == Push(Parts(s)).value
  {
    hide Push, Split, Values;
    pieces := PushRead(Parts(s));
    if s != "" {
      JoinSplit(s, ':');
    }
  }

  lemma GroupsRead(addr: string) returns (form: Form)
    requires Groups(addr).Some?
    ensures form.Valid() && form.Text() == addr && form.Address() == Groups(addr).value
  {
    hide Parts, Push, Values, Join, AddressChars;
    var gap := FirstGap(addr);
    if gap.None? {
      var head := PartsRead(addr);
      form := Form(head, None);
    } else {
      var head := PartsRead(addr[..gap.value]);
      var tail := PartsRead(addr[gap.value + 2..]);
      form := Form(head, Some(tail));
      assert addr == addr[..gap.value] + "::" + addr[gap.value + 2..];
    }
  }

  predicate ZoneSuffix(zone: string) { zone == "" || zone[0] == '%' }

  lemma ZoneCut(addr: string, zone: string)
    requires AddressChars(addr) && ZoneSuffix(zone)
    ensures BeforeZone(addr + zone) == addr
  {
    var text := addr + zone;
    var i := IndexOf(text, '%');
    assert forall j :: 0 <= j < |addr| ==> text[j] == addr[j];
    if zone != "" {
      assert text[|addr|] == '%';
    }
  }

  ghost predicate Writes(text: string, form: Form, zone: string) {
    form.Valid() && ZoneSuffix(zone) && text == form.Text() + zone
  }

  /** Every text form of an address, with or without a zone, is read as the top four groups of that
    * address, and nothing else is read at all.
    */
  lemma Ipv6Exactly(text: string, top: nat)
    ensures Top64(text) == Some(top) <==>
            exists form: Form, zone: string :: Writes(text, form, zone) && AddressTop(form) == Some(top)
  {
    hide Groups, Form.Text, Form.Valid, Form.Address;
    if Top64(text).Some? {
      var form := GroupsRead(BeforeZone(text));
      GroupsCount(BeforeZone(text));
      var zone := text[IndexOf(text, '%')..];
      assert text == BeforeZone(text) + zone;
      assert Writes(text, form, zone);
      assert AddressTop(form) == Top64(text);
    }
    forall form: Form, zone: string | Writes(text, form, zone)
      ensures AddressTop(form) == Top64(text)
    {
      FormReads(form);
      FormChars(form);
      ZoneCut(form.Text(), zone);
      GroupsCount(form.Text());
    }
  }

  function AddressTop(form: Form): Option<nat> {
    if form.Valid() && |form.Address()| >= 4 then Some(Top(form.Address())) else None
  }

  lemma FormChars(form: Form)
    requires form.Valid()
    ensures AddressChars(form.Text())
  {
    FormReads(form);
  }

  lemma FreeParts(a: string, b: string)
    ensures Free(a + b, '.') <==> Free(a, '.') && Free(b, '.')
  {
    assert forall i :: 0 <= i < |a| ==> (a + b)[i] == a[i];
    assert forall i :: 0 <= i < |b| ==> (a + b)[|a| + i] == b[i];
  }

  /** What is written of some pieces holds a dot exactly when one of them is a dotted quad. */
  lemma {:induction false} DotsInJoin(pieces: seq<Piece>)
    requires ValidPieces(pieces)
    ensures Free(Join(Texts(pieces), ':'), '.') <==> forall p :: p in pieces ==> p.Hex?
    decreases |pieces|
  {
    hide Free, Piece.Text, Piece.Valid;
    if pieces == [] {
      NoDots();
    } else {
      var first, rest := pieces[0].Text(), pieces[1..];
      assert ValidPieces(rest) by {
        assert forall i :: 0 <= i < |rest| ==> rest[i] == pieces[i + 1];
      }
      PieceText(pieces[0]);
      assert pieces == [pieces[0]] + rest;
      if rest == [] {
        assert Join(Texts(pieces), ':') == first;
      } else {
        DotsInJoin(rest);
        assert Texts(pieces)[1..] == Texts(rest);
        NoDots();
        FreeParts(first, [':']);
        FreeParts(first + [':'], Join(Texts(rest), ':'));
      }
    }
  }

  lemma NoDots()
    ensures Free("", '.') && Free([':'], '.')
  {
  }

  // Where the "::" of a written form stands.
  lemma FormGap(form: Form)
    requires form.Valid()
    ensures form.tail.None? ==> FirstGap(form.Text()) == None
    ensures form.tail.Some? ==>
              FirstGap(form.Text()) == Some(|Join(Texts(form.head), ':')|) &&
              form.Text()[..|Join(Texts(form.head), ':')|] == Join(Texts(form.head), ':')
  {
    hide PlainText, AddressChars, FirstGap, Join, Values, ValidPieces;
    var head := Join(Texts(form.head), ':');
    JoinPlain(form.head);
    if form.tail.None? {
      PlainFacts(head);
      assert form.Text() == head;
    } else {
      var tail := Join(Texts(form.tail.value), ':');
      JoinPlain(form.tail.value);
      GapBetween(head, tail);
      assert form.Text() == head + "::" + tail;
    }
  }

  lemma FormStandard(form: Form)
    requires form.Valid()
    ensures var gap := FirstGap(form.Text());
            form.Standard() <==> (gap.Some? ==> Free(form.Text()[..gap.value], '.'))
  {
    hide Free, FirstGap, Join, Values, ValidPieces, Form.Text;
    FormGap(form);
    HeadPieces(form);
    DotsInJoin(form.head);
  }

  lemma HeadPieces(form: Form)
    requires form.Valid()
    ensures ValidPieces(form.head)
  {
  }

  /** Of the texts that are read, exactly those with a dot before their "::" are in no form of
    * section 2.2 of RFC 4291.
    */
  lemma StandardExactly(addr: string)
    requires Groups(addr).Some?
    ensures (exists form: Form :: form.Valid() && form.Standard() && form.Text() == addr) <==>
            (FirstGap(addr).Some? ==> Free(addr[..FirstGap(addr).value], '.'))
  {
    hide Groups, Free, FirstGap, Form.Text, Form.Valid, Form.Address, Form.Standard;
    var read := GroupsRead(addr);
    FormStandard(read);
    forall form: Form | form.Valid() && form.Standard() && form.Text() == addr
      ensures FirstGap(addr).Some? ==> Free(addr[..FirstGap(addr).value], '.')
    {
      FormStandard(form);
    }
  }

  /** Such a text: a dotted quad right before the "::". */
  lemma QuadBeforeGap()
    ensures var form := Form([Quad(0x0102_0304)], Some([]));
            form.Valid() && !form.Standard() && form.Text() == "1.2.3.4::" &&
            Top64("1.2.3.4::") == Some(0x0102_0304_0000_0000)
  {
    hide Groups, AddressChars, Dotted, Top64;
    var form := Form([Quad(0x0102_0304)], Some([]));
    SampleDotted();
    assert Texts(form.head) == ["1.2.3.4"];
    assert form.Text() == "1.2.3.4" + ("::" + "");
    assert Values(form.head) == [0x0102, 0x0304] by {
      assert form.head[1..] == [];
    }
    SampleTop(form);
  }

  lemma SampleDotted()
    ensures Dotted(0x0102_0304) == "1.2.3.4"
  {
    hide Decimal, Join;
    SampleDigits();
    JoinOfFour("1", "2", "3", "4");
    assert Dotted(0x0102_0304) == Join(["1", "2", "3", "4"], '.');
  }

  lemma SampleDigits()
    ensures Decimal(1) == "1" && Decimal(2) == "2" && Decimal(3) == "3" && Decimal(4) == "4"
  {
  }

  lemma SampleTop(form: Form)
    requires form.Valid() && form.Text() == "1.2.3.4::"
    requires Values(form.head) == [0x0102, 0x0304] && form.tail == Some([])
    ensures Top64("1.2.3.4::") == Some(0x0102_0304_0000_0000)
  {
    hide Groups, AddressChars, Form.Text, Form.Valid;
    FormReads(form);
    FormChars(form);
    ZoneCut(form.Text(), "");
    assert form.Text() + "" == form.Text();
    assert Zeros(6) == [0, 0] + Zeros(4);
    GroupsCount(form.Text());
  }
}
