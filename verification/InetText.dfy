/** The text form of IPv6 addresses: the printer of net/inet_ntop.c and the parser of net/inet_pton.c. */
module InetText {
  import opened Bytes
  import D = Decimal

  const GROUPS: nat := 8

  type Group = x: nat | x < 0x1_0000

  // ----- Numbers -----

  function HexDigit(d: nat): char
    requires d < 16
  {
    if d < 10 then ('0' as int + d) as char else ('a' as int + (d - 10)) as char
  }

  predicate IsHex(c: char) {
    '0' <= c <= '9' || 'a' <= c <= 'f' || 'A' <= c <= 'F'
  }

  function HexDigitValue(c: char): (d: nat)
    requires IsHex(c)
    ensures d < 16
  {
    if '0' <= c <= '9' then c as int - '0' as int
    else if 'a' <= c <= 'f' then c as int - 'a' as int + 10
    else c as int - 'A' as int + 10
  }

  /** A number in hexadecimal, in small letters, without zeros before it. */
  function Hex(v: nat): (s: string)
    ensures |s| > 0 && forall i :: 0 <= i < |s| ==> IsHex(s[i])
  {
    if v < 16 then [HexDigit(v)] else Hex(v / 16) + [HexDigit(v % 16)]
  }

  function HexValue(s: string): nat
    requires forall i :: 0 <= i < |s| ==> IsHex(s[i])
  {
    if s == [] then 0 else 16 * HexValue(s[..|s| - 1]) + HexDigitValue(s[|s| - 1])
  }

  lemma {:induction false} HexReads(v: nat)
    ensures HexValue(Hex(v)) == v
  {
    var s := Hex(v);
    if v >= 16 {
      HexReads(v / 16);
      assert s[..|s| - 1] == Hex(v / 16);
    } else {
      assert s[..0] == [];
    }
  }

  lemma GroupShort(v: Group)
    ensures |Hex(v)| <= 4
  {
    var a := v / 16;
    var b := a / 16;
    var c := b / 16;
    assert a < 0x1000 && b < 0x100 && c < 0x10;
    assert |Hex(c)| == 1 && |Hex(b)| <= 2 && |Hex(a)| <= 3;
  }

  /** How many of the first characters are hexadecimal digits. */
  function HexRun(t: string): (n: nat)
    ensures n <= |t| && (forall i :: 0 <= i < n ==> IsHex(t[i])) && (n < |t| ==> !IsHex(t[n]))
  {
    if t == [] || !IsHex(t[0]) then 0 else 1 + HexRun(t[1..])
  }

  lemma Tails(h: string, rest: string)
    requires h != []
    ensures h + rest != [] && (h + rest)[0] == h[0] && (h + rest)[1..] == h[1..] + rest
    ensures (h + rest)[..|h|] == h && (h + rest)[|h|..] == rest
  {
  }

  lemma {:induction false} HexRunOf(h: string, rest: string)
    requires (forall i :: 0 <= i < |h| ==> IsHex(h[i])) && (rest != [] ==> !IsHex(rest[0]))
    ensures HexRun(h + rest) == |h| && (h + rest)[..|h|] == h && (h + rest)[|h|..] == rest
  {
    if h == [] {
      assert h + rest == rest;
    } else {
      HexRunOf(h[1..], rest);
      Tails(h, rest);
    }
  }

  /** How many of the first characters are decimal digits. */
  function DigitRun(t: string): (n: nat)
    ensures n <= |t| && (forall i :: 0 <= i < n ==> D.IsDigit(t[i])) && (n < |t| ==> !D.IsDigit(t[n]))
  {
    if t == [] || !D.IsDigit(t[0]) then 0 else 1 + DigitRun(t[1..])
  }

  lemma {:induction false} DigitRunOf(h: string, rest: string)
    requires (forall i :: 0 <= i < |h| ==> D.IsDigit(h[i])) && (rest != [] ==> !D.IsDigit(rest[0]))
    ensures DigitRun(h + rest) == |h| && (h + rest)[..|h|] == h && (h + rest)[|h|..] == rest
  {
    if h == [] {
      assert h + rest == rest;
    } else {
      DigitRunOf(h[1..], rest);
      Tails(h, rest);
    }
  }

  // ----- Dotted quads -----

  function Dotted(a: nat, b: nat, c: nat, d: nat): string {
    D.Numeral(a) + "." + D.Numeral(b) + "." + D.Numeral(c) + "." + D.Numeral(d)
  }

  /** One to three digits that make a number below 256. */
  predicate IsByte(s: string) {
    1 <= |s| <= 3 && (forall i :: 0 <= i < |s| ==> D.IsDigit(s[i])) && D.Number(s) <= 255
  }

  /** The numbers with dots between them. */
  function QuadText(ns: seq<string>): string {
    if ns == [] then [] else if |ns| == 1 then ns[0] else ns[0] + "." + QuadText(ns[1..])
  }

  /** The number with these bytes, the first one highest, after those of `addr`. */
  function BytesValue(ns: seq<string>, addr: nat): nat
    requires forall i :: 0 <= i < |ns| ==> IsByte(ns[i])
  {
    if ns == [] then addr else BytesValue(ns[1..], addr * 256 + D.Number(ns[0]))
  }

  predicate IsQuad(ns: seq<string>) {
    |ns| == 4 && forall i :: 0 <= i < |ns| ==> IsByte(ns[i])
  }

  /** The text is that of a dotted quad, and the number the one its bytes make. */
  ghost predicate QuadDenotes(t: string, v: nat) {
    exists ns :: IsQuad(ns) && QuadText(ns) == t && BytesValue(ns, 0) == v
  }

  function Limit(i: nat): nat {
    if i == 0 then 1 else 256 * Limit(i - 1)
  }

  /** The rest of a dotted quad, of which `i` numbers have been read: the number all four make. */
  function ParseQuad(t: string, i: nat, addr: nat): (r: Option<nat>)
    requires i <= 4 && addr < Limit(i)
    ensures r.Some? ==> r.value < Limit(4)
    decreases 4 - i
  {
    if i == 4 then Some(addr)
    else
      var n := DigitRun(t);
      var val := D.Number(t[..n]);
      if n == 0 || n > 3 || val > 255 then None
      else if i < 3 && (n == |t| || t[n] != '.') then None
      else if i == 3 && n != |t| then None
      else ParseQuad(if n < |t| then t[n + 1..] else [], i + 1, addr * 256 + val)
  }

  /** Reads a dotted quad: it accepts exactly the texts of four numbers, and gives the number they make. */
  method Pton4(src: string) returns (r: Option<nat>)
    ensures forall v: nat :: r == Some(v) <==> QuadDenotes(src, v)
  {
    hide ParseQuad, DigitRun, D.Number, QuadDenotes;
    QuadExact(src);
    var addr: nat := 0;
    var i, t := 0, src;
    while i < 4
      invariant 0 <= i <= 4 && addr < Limit(i) && ParseQuad(t, i, addr) == ParseQuad(src, 0, 0)
    {
      QuadCases(t, i, addr);
      var n := DigitRun(t);
      if n == 0 {
        return None;
      }
      var val := D.Number(t[..n]);
      if n > 3 || val > 255 {
        return None;
      }
      if (i < 3 && (n == |t| || t[n] != '.')) || (i == 3 && n != |t|) {
        return None;
      }
      t := if n < |t| then t[n + 1..] else [];
      addr := addr * 256 + val;
      i := i + 1;
    }
    QuadCases(t, i, addr);
    r := Some(addr);
  }

  /** One step of reading a dotted quad. */
  lemma QuadCases(t: string, i: nat, addr: nat)
    requires i <= 4 && addr < Limit(i)
    ensures i == 4 ==> ParseQuad(t, i, addr) == Some(addr)
    ensures i < 4 ==>
      var n := DigitRun(t);
      var val := D.Number(t[..n]);
        ParseQuad(t, i, addr) ==
          if n == 0 || n > 3 || val > 255 || (i < 3 && (n == |t| || t[n] != '.')) || (i == 3 && n != |t|) then None
          else ParseQuad(if n < |t| then t[n + 1..] else [], i + 1, addr * 256 + val)
  {
    hide DigitRun, D.Number;
  }

  lemma ByteShort(a: nat)
    requires a < 256
    ensures IsByte(D.Numeral(a)) && D.Number(D.Numeral(a)) == a
  {
    D.NumeralReads(a);
    var b := a / 10;
    assert b < 26 && b / 10 < 3;
    assert |D.Numeral(b / 10)| == 1 && |D.Numeral(b)| <= 2;
  }

  lemma ByteBound(n: string)
    requires IsByte(n)
    ensures D.Number(n) <= 255
  {
  }

  /** One number of a dotted quad is read. */
  lemma QuadStep(n: string, rest: string, i: nat, addr: nat)
    requires IsByte(n) && i < 4 && addr < Limit(i) && (i < 3 ==> rest != [] && rest[0] == '.') && (i == 3 ==> rest == [])
    ensures ParseQuad(n + rest, i, addr) == ParseQuad(if i < 3 then rest[1..] else [], i + 1, addr * 256 + D.Number(n))
  {
    hide ParseQuad, DigitRun, D.Number;
    DigitRunOf(n, rest);
    QuadCases(n + rest, i, addr);
    if i < 3 {
      assert (n + rest)[|n|] == '.' && (n + rest)[|n| + 1..] == rest[1..];
    }
  }

  /** What is the text of a quad is read as one. */
  lemma {:induction false} QuadReads(ns: seq<string>, i: nat, addr: nat)
    requires i < 4 && |ns| == 4 - i && addr < Limit(i) && forall j :: 0 <= j < |ns| ==> IsByte(ns[j])
    ensures ParseQuad(QuadText(ns), i, addr) == Some(BytesValue(ns, addr))
    decreases 4 - i
  {
    hide ParseQuad, IsByte;
    ByteBound(ns[0]);
    var v := addr * 256 + D.Number(ns[0]);
    if i == 3 {
      assert ns[0] + [] == ns[0] && ns[1..] == [];
      QuadStep(ns[0], [], i, addr);
      QuadCases([], 4, v);
    } else {
      var rest := "." + QuadText(ns[1..]);
      assert QuadText(ns) == ns[0] + rest && rest[1..] == QuadText(ns[1..]);
      QuadStep(ns[0], rest, i, addr);
      QuadReads(ns[1..], i + 1, v);
    }
  }

  /** What is read as a quad is the text of one. */
  lemma {:induction false} QuadWritten(t: string, i: nat, addr: nat) returns (ns: seq<string>)
    requires i < 4 && addr < Limit(i) && ParseQuad(t, i, addr).Some?
    ensures |ns| == 4 - i && (forall j :: 0 <= j < |ns| ==> IsByte(ns[j])) && QuadText(ns) == t
    decreases 4 - i
  {
    hide ParseQuad, DigitRun, D.Number;
    QuadCases(t, i, addr);
    var n := DigitRun(t);
    var first, v := t[..n], addr * 256 + D.Number(t[..n]);
    assert IsByte(first);
    if i == 3 {
      ns := [first];
      assert t == first;
    } else {
      var more := QuadWritten(t[n + 1..], i + 1, v);
      ns := [first] + more;
      assert ns[1..] == more;
      assert t == first + "." + t[n + 1..];
    }
  }

  /** The reading of a quad follows its grammar. */
  lemma QuadExact(t: string)
    ensures forall v: nat :: ParseQuad(t, 0, 0) == Some(v) <==> QuadDenotes(t, v)
  {
    hide ParseQuad, IsByte;
    forall v: nat
      ensures ParseQuad(t, 0, 0) == Some(v) <==> QuadDenotes(t, v)
    {
      if QuadDenotes(t, v) {
        var ns :| IsQuad(ns) && QuadText(ns) == t && BytesValue(ns, 0) == v;
        QuadReads(ns, 0, 0);
      }
      if ParseQuad(t, 0, 0) == Some(v) {
        var ns := QuadWritten(t, 0, 0);
        QuadReads(ns, 0, 0);
      }
    }
  }

  /** Bytes in decimal make the text of a quad. */
  lemma DottedDenotes(a: nat, b: nat, c: nat, d: nat)
    requires a < 256 && b < 256 && c < 256 && d < 256
    ensures QuadDenotes(Dotted(a, b, c, d), ((a * 256 + b) * 256 + c) * 256 + d)
  {
    hide D.Numeral, D.Number;
    var ns := [D.Numeral(a), D.Numeral(b), D.Numeral(c), D.Numeral(d)];
    ByteShort(a);
    ByteShort(b);
    ByteShort(c);
    ByteShort(d);
    var n1, n2, n3 := ns[1..], ns[2..], ns[3..];
    assert n3 == [ns[3]] && n2 == [ns[2]] + n3 && n1 == [ns[1]] + n2 && ns == [ns[0]] + n1;
    assert n1[1..] == n2 && n2[1..] == n3 && n3[1..] == [];
    assert QuadText(n2) == ns[2] + "." + ns[3];
    assert QuadText(n1) == ns[1] + "." + (ns[2] + "." + ns[3]);
    assert ns[0] + "." + (ns[1] + "." + (ns[2] + "." + ns[3])) == Dotted(a, b, c, d);
    assert IsQuad(ns);
    assert BytesValue(n3, (a * 256 + b) * 256 + c) == ((a * 256 + b) * 256 + c) * 256 + d;
    assert BytesValue(n1, a) == BytesValue(n2, a * 256 + b);
    assert BytesValue(ns, 0) == BytesValue(n1, a);
    assert QuadText(ns) == Dotted(a, b, c, d);
  }

  lemma {:induction false} BytesFit(ns: seq<string>, addr: nat, i: nat)
    requires i + |ns| <= 4 && addr < Limit(i) && forall j :: 0 <= j < |ns| ==> IsByte(ns[j])
    ensures BytesValue(ns, addr) < Limit(i + |ns|)
  {
    if ns != [] {
      BytesFit(ns[1..], addr * 256 + D.Number(ns[0]), i + 1);
    }
  }

  lemma QuadLimit()
    ensures Limit(4) == 0x1_0000_0000
  {
    assert Limit(1) == 256 && Limit(2) == 0x1_0000 && Limit(3) == 0x100_0000;
  }

  // ----- The texts of addresses -----

  /** What comes after the last group. A single colon belongs to no address; the parser takes it nevertheless. */
  datatype Tail = Nothing | Colon | Quad(numbers: seq<string>)

  /** The groups of a text, as they are written, and where zeros are left out. */
  datatype Form =
    | Full(groups: seq<string>, tail: Tail)
    | Gapped(front: seq<string>, back: seq<string>, tail: Tail)

  /** One to four hexadecimal digits. */
  predicate IsGroup(s: string) {
    1 <= |s| <= 4 && forall i :: 0 <= i < |s| ==> IsHex(s[i])
  }

  predicate AreGroups(ss: seq<string>) {
    forall i :: 0 <= i < |ss| ==> IsGroup(ss[i])
  }

  predicate TailOk(ss: seq<string>, tail: Tail) {
    (tail.Colon? ==> ss != []) && (tail.Quad? ==> IsQuad(tail.numbers))
  }

  predicate WellFormed(f: Form) {
    match f
    case Full(groups, tail) => AreGroups(groups) && TailOk(groups, tail)
    case Gapped(front, back, tail) => AreGroups(front) && AreGroups(back) && TailOk(back, tail)
  }

  /** Groups with colons between them, and the tail. */
  function Listed(ss: seq<string>, tail: Tail): string {
    if ss == [] then (if tail.Quad? then QuadText(tail.numbers) else [])
    else if |ss| == 1 && tail.Nothing? then ss[0]
    else ss[0] + (":" + Listed(ss[1..], tail))
  }

  /** Groups with a colon after each. */
  function Led(ss: seq<string>): string {
    if ss == [] then [] else ss[0] + (":" + Led(ss[1..]))
  }

  /** The text of a form, or of the rest of one of which something has been read. */
  function RestText(f: Form, atStart: bool): string {
    match f
    case Full(groups, tail) => Listed(groups, tail)
    case Gapped(front, back, tail) => (if front == [] && atStart then ":" else Led(front)) + (":" + Listed(back, tail))
  }

  function FormText(f: Form): string {
    RestText(f, true)
  }

  function ValueOf(g: string): Group
    requires IsGroup(g)
  {
    ValueFits(g);
    HexValue(g)
  }

  function Values(ss: seq<string>): (gs: seq<Group>)
    requires AreGroups(ss)
    ensures |gs| == |ss|
  {
    if ss == [] then []
    else
      assert IsGroup(ss[0]);
      [ValueOf(ss[0])] + Values(ss[1..])
  }

  /** A dotted quad makes two groups. */
  function Pair(v: nat): seq<Group>
    requires v < 0x1_0000_0000
  {
    [v / 0x1_0000, v % 0x1_0000]
  }

  function TailGroups(tail: Tail): seq<Group>
    requires tail.Quad? ==> IsQuad(tail.numbers)
  {
    if tail.Quad? then
      QuadLimit();
      BytesFit(tail.numbers, 0, 0);
      Pair(BytesValue(tail.numbers, 0))
    else []
  }

  function Zeros(n: nat): seq<Group> {
    seq(n, _ => 0)
  }

  /** The groups that are written, in order. */
  function Written(f: Form): seq<Group>
    requires WellFormed(f)
  {
    match f
    case Full(groups, tail) => Values(groups) + TailGroups(tail)
    case Gapped(front, back, tail) => Values(front) + Values(back) + TailGroups(tail)
  }

  /** The address that a form stands for: eight groups, or fewer with zeros in the place where they are left out. */
  function Address(f: Form): Option<seq<Group>>
    requires WellFormed(f)
  {
    var gs := Written(f);
    match f
    case Full(_, _) => if |gs| == GROUPS then Some(gs) else None
    case Gapped(front, _, _) =>
      if |gs| < GROUPS then Some(gs[..|front|] + Zeros(GROUPS - |gs|) + gs[|front|..]) else None
  }

  /** The text is one of the address. */
  ghost predicate Denotes(t: string, a: seq<Group>) {
    exists f :: WellFormed(f) && FormText(f) == t && Address(f) == Some(a)
  }

  function GroupCount(f: Form): nat {
    if f.Full? then |f.groups| else |f.front| + |f.back|
  }

  /** A dotted quad comes after exactly seven groups. */
  ghost predicate QuadAfterSeven(t: string) {
    exists f :: WellFormed(f) && FormText(f) == t && GroupCount(f) == 7 && f.tail.Quad?
  }

  // ----- The parser -----

  /** What was read: groups and where zeros are left out, -1 if nowhere; or a quad was stored behind the eighth group. */
  datatype Parsed = Read(groups: seq<Group>, z: int) | Refused | Beyond

  datatype Outcome = Accepted(address: seq<Group>) | Rejected | OutOfBounds

  lemma RunIsHex(t: string)
    ensures forall i :: 0 <= i < HexRun(t) ==> IsHex(t[..HexRun(t)][i])
  {
  }

  /** Reads the rest of an address, after some groups. */
  function Parse6(t: string, atStart: bool, gs: seq<Group>, z: int): Parsed
    decreases |t|
  {
    if t == [] then Read(gs, z)
    else if |gs| >= GROUPS then Refused
    else
      var n := HexRun(t);
      if n == 0 && t[0] == ':' then
        if z != -1 then Refused
        else if !atStart then Parse6(t[1..], false, gs, |gs|)
        else if |t| > 1 && t[1] == ':' then Parse6(t[2..], false, gs, |gs|)
        else Refused
      else if n == |t| || t[n] == ':' then
        if n > 4 then Refused
        else
          RunIsHex(t);
          ValueFits(t[..n]);
          Parse6(if n < |t| then t[n + 1..] else [], false, gs + [HexValue(t[..n])], z)
      else if t[n] == '.' then QuadRead(ParseQuad(t, 0, 0), gs, z)
      else Refused
  }

  function QuadRead(quad: Option<nat>, gs: seq<Group>, z: int): Parsed
    requires quad.Some? ==> quad.value < Limit(4)
  {
    QuadLimit();
    if quad.None? then Refused
    else if |gs| + 2 > GROUPS then Beyond
    else Read(gs + Pair(quad.value), z)
  }

  function Pow16(n: nat): nat {
    if n == 0 then 1 else 16 * Pow16(n - 1)
  }

  lemma {:induction false} HexBelow(s: string)
    requires forall i :: 0 <= i < |s| ==> IsHex(s[i])
    ensures HexValue(s) < Pow16(|s|)
  {
    if s != [] {
      var a := s[..|s| - 1];
      assert forall i :: 0 <= i < |a| ==> a[i] == s[i];
      HexBelow(a);
    }
  }

  lemma PowersOf16()
    ensures Pow16(0) == 1 && Pow16(1) == 16 && Pow16(2) == 256 && Pow16(3) == 0x1000 && Pow16(4) == 0x1_0000
  {
  }

  lemma ValueFits(s: string)
    requires |s| <= 4 && forall i :: 0 <= i < |s| ==> IsHex(s[i])
    ensures HexValue(s) < 0x1_0000
  {
    hide HexValue, Pow16;
    PowersOf16();
    HexBelow(s);
  }

  /** The address: the zeros that were left out go where they were. */
  function Filled(p: Parsed): Outcome {
    match p
    case Refused => Rejected
    case Beyond => OutOfBounds
    case Read(gs, z) =>
      if |gs| < GROUPS && z == -1 then Rejected
      else if |gs| == GROUPS && z != -1 then Rejected
      else if |gs| > GROUPS || z < -1 || z > |gs| then Rejected
      else if z == -1 then Accepted(gs)
      else Accepted(gs[..z] + Zeros(GROUPS - |gs|) + gs[z..])
  }

  /** One step of reading an address. */
  lemma ParseCases(t: string, atStart: bool, gs: seq<Group>, z: int)
    requires t != []
    ensures var n := HexRun(t);
      Parse6(t, atStart, gs, z) ==
        if |gs| >= GROUPS then Refused
        else if n == 0 && t[0] == ':' then
          if z != -1 then Refused
          else if !atStart then Parse6(t[1..], false, gs, |gs|)
          else if |t| > 1 && t[1] == ':' then Parse6(t[2..], false, gs, |gs|)
          else Refused
        else if n == |t| || t[n] == ':' then
          if n > 4 then Refused
          else
            RunIsHex(t);
            ValueFits(t[..n]);
            Parse6(if n < |t| then t[n + 1..] else [], false, gs + [HexValue(t[..n])], z)
        else if t[n] == '.' then QuadRead(ParseQuad(t, 0, 0), gs, z)
        else Refused
  {
    hide HexRun, HexValue, ParseQuad;
  }

  lemma NothingReads(gs: seq<Group>, z: int, atStart: bool)
    ensures Parse6([], atStart, gs, z) == Read(gs, z)
  {
  }

  // ----- What is written is read -----

  /** One group is read. */
  lemma GroupReads(g: string, rest: string, atStart: bool, gs: seq<Group>, z: int)
    requires IsGroup(g) && |gs| < GROUPS && (rest != [] ==> rest[0] == ':')
    ensures Parse6(g + rest, atStart, gs, z) == Parse6(if rest == [] then [] else rest[1..], false, gs + [ValueOf(g)], z)
  {
    hide HexRun, HexValue;
    HexRunOf(g, rest);
    ParseCases(g + rest, atStart, gs, z);
    if rest != [] {
      assert (g + rest)[|g|] == ':' && (g + rest)[|g| + 1..] == rest[1..];
    }
  }

  /** A dotted quad is read, if there is room for it. */
  lemma QuadTailReads(ns: seq<string>, atStart: bool, gs: seq<Group>, z: int)
    requires IsQuad(ns) && |gs| < GROUPS
    ensures Parse6(QuadText(ns), atStart, gs, z) ==
      if |gs| == 7 then Beyond else Read(gs + TailGroups(Quad(ns)), z)
  {
    hide ParseQuad, HexRun, D.Number, Parse6;
    var first, rest := ns[0], "." + QuadText(ns[1..]);
    assert IsByte(first);
    assert QuadText(ns) == first + rest;
    HexRunOf(first, rest);
    QuadReads(ns, 0, 0);
    ParseCases(first + rest, atStart, gs, z);
  }

  /** What comes behind the first group of a list. */
  function Behind(ss: seq<string>, tail: Tail): string
    requires ss != []
  {
    if |ss| == 1 && tail.Nothing? then [] else ":" + Listed(ss[1..], tail)
  }

  lemma ListedFirst(ss: seq<string>, tail: Tail)
    requires ss != []
    ensures Listed(ss, tail) == ss[0] + Behind(ss, tail)
    ensures (if Behind(ss, tail) == [] then [] else Behind(ss, tail)[1..]) == Listed(ss[1..], tail)
    ensures Behind(ss, tail) != [] ==> Behind(ss, tail)[0] == ':'
  {
  }

  lemma ValuesFirst(ss: seq<string>, gs: seq<Group>, more: seq<Group>)
    requires AreGroups(ss) && ss != []
    ensures IsGroup(ss[0]) && AreGroups(ss[1..]) && gs + [ValueOf(ss[0])] + (Values(ss[1..]) + more) == gs + (Values(ss) + more)
  {
    hide IsGroup, ValueOf;
    FourParts(gs, [ValueOf(ss[0])], Values(ss[1..]), more);
  }

  lemma FourParts(a: seq<Group>, b: seq<Group>, c: seq<Group>, d: seq<Group>)
    ensures a + b + (c + d) == a + ((b + c) + d)
  {
  }

  lemma {:induction false} ListedReads(ss: seq<string>, tail: Tail, atStart: bool, gs: seq<Group>, z: int)
    requires AreGroups(ss) && (tail.Quad? ==> IsQuad(tail.numbers))
    requires |gs| + |ss| <= if tail.Quad? then 7 else GROUPS
    ensures Parse6(Listed(ss, tail), atStart, gs, z) ==
      if tail.Quad? && |gs| + |ss| == 7 then Beyond else Read(gs + (Values(ss) + TailGroups(tail)), z)
    decreases |ss|
  {
    hide Parse6, IsGroup, IsQuad, AreGroups, TailGroups, ValueOf, Values, Listed, Behind;
    if ss == [] {
      ListedNone(tail, gs);
      if tail.Quad? {
        QuadTailReads(tail.numbers, atStart, gs, z);
      } else {
        NothingReads(gs, z, atStart);
      }
    } else {
      ListedFirst(ss, tail);
      ValuesFirst(ss, gs, TailGroups(tail));
      GroupReads(ss[0], Behind(ss, tail), atStart, gs, z);
      ListedReads(ss[1..], tail, false, gs + [ValueOf(ss[0])], z);
    }
  }

  lemma ListedNone(tail: Tail, gs: seq<Group>)
    requires tail.Quad? ==> IsQuad(tail.numbers)
    ensures Listed([], tail) == if tail.Quad? then QuadText(tail.numbers) else []
    ensures gs + (Values([]) + TailGroups(tail)) == if tail.Quad? then gs + TailGroups(tail) else gs
  {
    hide IsQuad, QuadText;
  }

  lemma LedFirst(ss: seq<string>, rest: string)
    requires ss != []
    ensures Led(ss) + rest == ss[0] + (":" + (Led(ss[1..]) + rest)) && (":" + (Led(ss[1..]) + rest))[1..] == Led(ss[1..]) + rest
    ensures Led([]) + rest == rest
  {
    assert Led(ss) == ss[0] + (":" + Led(ss[1..]));
  }

  lemma {:induction false} LedReads(ss: seq<string>, rest: string, atStart: bool, gs: seq<Group>)
    requires AreGroups(ss) && ss != [] && |gs| + |ss| <= GROUPS
    ensures Parse6(Led(ss) + rest, atStart, gs, -1) == Parse6(rest, false, gs + Values(ss), -1)
    decreases |ss|
  {
    hide Parse6, IsGroup, ValueOf, Led, Values, AreGroups;
    LedFirst(ss, rest);
    ValuesFirst(ss, gs, []);
    GroupReads(ss[0], ":" + (Led(ss[1..]) + rest), atStart, gs, -1);
    if |ss| == 1 {
      OneValue(ss, gs);
    } else {
      LedReads(ss[1..], rest, false, gs + [ValueOf(ss[0])]);
      assert Values(ss) + [] == Values(ss) && Values(ss[1..]) + [] == Values(ss[1..]);
    }
  }

  lemma OneValue(ss: seq<string>, gs: seq<Group>)
    requires AreGroups(ss) && |ss| == 1
    ensures ss[1..] == [] && IsGroup(ss[0]) && gs + [ValueOf(ss[0])] == gs + Values(ss)
  {
    hide IsGroup, ValueOf;
  }

  lemma ColonReads(t: string, gs: seq<Group>)
    requires |gs| < GROUPS
    ensures Parse6(":" + t, false, gs, -1) == Parse6(t, false, gs, |gs|)
  {
    assert (":" + t)[1..] == t;
  }

  lemma ColonsRead(t: string)
    ensures Parse6(":" + (":" + t), true, [], -1) == Parse6(t, false, [], 0)
  {
    assert (":" + (":" + t))[2..] == t;
  }

  /** The text of a form whose groups are not too many is read as what it says. */
  lemma FormReads(f: Form)
    requires WellFormed(f) && GroupCount(f) <= if f.Full? && !f.tail.Quad? then GROUPS else 7
    ensures Parse6(FormText(f), true, [], -1) ==
      if f.tail.Quad? && GroupCount(f) == 7 then Beyond else Read(Written(f), if f.Full? then -1 else |f.front|)
  {
    hide Parse6, AreGroups, IsQuad, TailGroups;
    match f
    case Full(groups, tail) =>
      ListedReads(groups, tail, true, [], -1);
      assert [] + (Values(groups) + TailGroups(tail)) == Values(groups) + TailGroups(tail);
    case Gapped(front, back, tail) =>
      var rest := Listed(back, tail);
      if front == [] {
        ColonsRead(rest);
        assert FormText(f) == ":" + (":" + rest);
        ListedReads(back, tail, false, [], 0);
        assert [] + (Values(back) + TailGroups(tail)) == Written(f);
      } else {
        LedReads(front, ":" + rest, true, []);
        assert [] + Values(front) == Values(front);
        ColonReads(rest, Values(front));
        ListedReads(back, tail, false, Values(front), |front|);
        assert Values(front) + (Values(back) + TailGroups(tail)) == Written(f);
      }
  }

  // ----- What is read was written -----

  /** A form with one more group in front. */
  function OneMore(g: string, f: Form): Form {
    if f.Full? then Full([g] + f.groups, f.tail) else Gapped([g] + f.front, f.back, f.tail)
  }

  lemma OneMoreText(g: string, f: Form)
    requires f.Full? ==> f.groups != [] || !f.tail.Nothing?
    ensures RestText(OneMore(g, f), false) == g + (":" + RestText(f, false))
    ensures RestText(OneMore(g, f), true) == g + (":" + RestText(f, false))
  {
    if f.Full? {
      assert ([g] + f.groups)[1..] == f.groups;
    } else {
      assert ([g] + f.front)[1..] == f.front;
    }
  }

  lemma OneMoreWritten(g: string, f: Form)
    requires IsGroup(g) && WellFormed(f)
    ensures WellFormed(OneMore(g, f)) && Written(OneMore(g, f)) == [ValueOf(g)] + Written(f)
  {
    hide IsGroup, ValueOf, IsQuad;
    if f.Full? {
      assert ([g] + f.groups)[1..] == f.groups;
    } else {
      assert ([g] + f.front)[1..] == f.front;
    }
  }

  /** What a rest of a text was read as. */
  ghost predicate ReadAs(p: Parsed, gs: seq<Group>, z: int, f: Form)
    requires WellFormed(f)
  {
    && (f.Gapped? ==> z == -1)
    && (p.Read? ==> p == Read(gs + Written(f), if f.Full? then z else |gs| + |f.front|))
    && (p.Beyond? ==> f.tail.Quad? && |gs| + GroupCount(f) == 7)
  }

  lemma NothingForm(atStart: bool, gs: seq<Group>, z: int) returns (f: Form)
    ensures WellFormed(f) && RestText(f, atStart) == [] && ReadAs(Parse6([], atStart, gs, z), gs, z, f)
  {
    NothingReads(gs, z, atStart);
    f := Full([], Nothing);
    assert gs + [] == gs;
  }

  /** What was read has a form. */
  lemma {:induction false} FormOf(t: string, atStart: bool, gs: seq<Group>, z: int) returns (f: Form)
    requires Parse6(t, atStart, gs, z) != Refused && |gs| <= GROUPS
    ensures WellFormed(f) && RestText(f, atStart) == t && ReadAs(Parse6(t, atStart, gs, z), gs, z, f)
    decreases |t|, 1
  {
    hide Parse6, HexRun, HexValue, ParseQuad, IsQuad, ReadAs, RestText;
    if t == [] {
      f := NothingForm(atStart, gs, z);
      return;
    }
    ParseCases(t, atStart, gs, z);
    var n := HexRun(t);
    if n == 0 && t[0] == ':' {
      f := GapOf(t, atStart, gs);
    } else if n == |t| || t[n] == ':' {
      f := GroupOf(t, atStart, gs, z, n);
    } else {
      f := QuadFormOf(t, atStart, gs, z);
    }
  }

  /** A form in which the zeros left out come next. */
  lemma GapOf(t: string, atStart: bool, gs: seq<Group>) returns (f: Form)
    requires t != [] && t[0] == ':' && |gs| < GROUPS && (atStart ==> |t| > 1 && t[1] == ':')
    requires Parse6(if atStart then t[2..] else t[1..], false, gs, |gs|) != Refused
    ensures WellFormed(f) && RestText(f, atStart) == t
    ensures ReadAs(Parse6(if atStart then t[2..] else t[1..], false, gs, |gs|), gs, -1, f)
    decreases |t|, 0
  {
    hide Parse6, WellFormed, Written, RestText, ReadAs;
    var rest := if atStart then t[2..] else t[1..];
    var back := FormOf(rest, false, gs, |gs|);
    f := GapBefore(back, Parse6(rest, false, gs, |gs|), gs);
    GapText(back, rest, t, atStart);
  }

  /** Zeros left out before a form. */
  lemma GapBefore(back: Form, p: Parsed, gs: seq<Group>) returns (f: Form)
    requires WellFormed(back) && ReadAs(p, gs, |gs|, back)
    ensures back.Full? && f == Gapped([], back.groups, back.tail) && WellFormed(f) && ReadAs(p, gs, -1, f)
  {
    hide IsQuad, AreGroups;
    f := Gapped([], back.groups, back.tail);
    NoGroupsWritten(f, back);
  }

  lemma GapText(back: Form, rest: string, t: string, atStart: bool)
    requires back.Full? && RestText(back, false) == rest && t == (if atStart then ":" else []) + (":" + rest)
    ensures RestText(Gapped([], back.groups, back.tail), atStart) == t
  {
    hide Listed;
  }

  lemma NoGroupsWritten(f: Form, back: Form)
    requires back.Full? && WellFormed(back) && f == Gapped([], back.groups, back.tail)
    ensures WellFormed(f) && Written(f) == Written(back)
  {
    assert [] + Values(back.groups) == Values(back.groups);
  }

  /** A form with the group of the first `n` digits. */
  lemma GroupOf(t: string, atStart: bool, gs: seq<Group>, z: int, n: nat) returns (f: Form)
    requires n <= |t| && IsGroup(t[..n]) && (n < |t| ==> t[n] == ':') && |gs| < GROUPS
    requires Parse6(if n < |t| then t[n + 1..] else [], false, gs + [ValueOf(t[..n])], z) != Refused
    ensures WellFormed(f) && RestText(f, atStart) == t
    ensures ReadAs(Parse6(if n < |t| then t[n + 1..] else [], false, gs + [ValueOf(t[..n])], z), gs, z, f)
    decreases |t|, 0
  {
    hide Parse6, IsGroup, IsQuad, ValueOf, RestText, Written, WellFormed, ReadAs;
    var g := t[..n];
    var rest := if n < |t| then t[n + 1..] else [];
    if rest == [] {
      assert t == if n < |t| then g + (":" + []) else g;
      f := LastGroup(g, n < |t|, atStart, gs, z);
    } else {
      assert t == g + (":" + rest);
      var more := FormOf(rest, false, gs + [ValueOf(g)], z);
      f := OneMore(g, more);
      NotNothing(more, rest);
      OneMoreText(g, more);
      OneMoreWritten(g, more);
      OneMoreRead(g, more, Parse6(rest, false, gs + [ValueOf(g)], z), gs, z);
    }
  }

  lemma NotNothing(f: Form, t: string)
    requires RestText(f, false) == t != []
    ensures f.Full? ==> f.groups != [] || !f.tail.Nothing?
  {
  }

  lemma OneMoreRead(g: string, f: Form, p: Parsed, gs: seq<Group>, z: int)
    requires IsGroup(g) && WellFormed(f) && ReadAs(p, gs + [ValueOf(g)], z, f)
    ensures WellFormed(OneMore(g, f)) && ReadAs(p, gs, z, OneMore(g, f))
  {
    hide IsGroup, ValueOf, Written, WellFormed, OneMore;
    OneMoreWritten(g, f);
    OneMoreParts(g, f);
    assert gs + [ValueOf(g)] + Written(f) == gs + Written(OneMore(g, f));
  }

  lemma OneMoreParts(g: string, f: Form)
    ensures var h := OneMore(g, f);
      && h.Full? == f.Full? && h.tail == f.tail && GroupCount(h) == GroupCount(f) + 1
      && (f.Gapped? ==> |h.front| == |f.front| + 1)
  {
  }

  /** The last group, with or without a colon behind it. */
  lemma LastGroup(g: string, colon: bool, atStart: bool, gs: seq<Group>, z: int) returns (f: Form)
    requires IsGroup(g)
    ensures WellFormed(f) && RestText(f, atStart) == if colon then g + (":" + []) else g
    ensures ReadAs(Parse6([], false, gs + [ValueOf(g)], z), gs, z, f)
  {
    hide Parse6, IsGroup, IsQuad, ValueOf;
    NothingReads(gs + [ValueOf(g)], z, false);
    f := Full([g], if colon then Colon else Nothing);
    var ss := [g];
    assert ss[1..] == [] && Listed([], Colon) == [];
    assert Listed(ss, f.tail) == if colon then g + (":" + []) else g;
    assert Values(ss) == [ValueOf(g)];
    assert Written(f) == [ValueOf(g)];
  }

  /** A form that is only a dotted quad. */
  lemma QuadFormOf(t: string, atStart: bool, gs: seq<Group>, z: int) returns (f: Form)
    requires |gs| < GROUPS && QuadRead(ParseQuad(t, 0, 0), gs, z) != Refused
    ensures WellFormed(f) && RestText(f, atStart) == t && ReadAs(QuadRead(ParseQuad(t, 0, 0), gs, z), gs, z, f)
  {
    hide ParseQuad, IsByte, QuadText;
    var ns := QuadWritten(t, 0, 0);
    QuadReads(ns, 0, 0);
    f := Full([], Quad(ns));
    assert TailGroups(Quad(ns)) == Pair(BytesValue(ns, 0));
    assert [] + TailGroups(Quad(ns)) == TailGroups(Quad(ns));
  }

  /** The form that was read stands for the address that comes out. */
  lemma FilledAddress(p: Parsed, f: Form)
    requires WellFormed(f) && ReadAs(p, [], -1, f)
    ensures p.Read? && |Written(f)| <= GROUPS ==> Filled(p) == match Address(f) case Some(a) => Accepted(a) case None => Rejected
    ensures p.Read? && |Written(f)| > GROUPS ==> Filled(p) == Rejected && Address(f) == None
    ensures p.Beyond? ==> Filled(p) == OutOfBounds
  {
    FrontFits(f);
    hide Written, WellFormed, Zeros;
    assert [] + Written(f) == Written(f);
  }

  lemma FrontFits(f: Form)
    requires WellFormed(f)
    ensures f.Gapped? ==> |f.front| <= |Written(f)|
  {
  }

  lemma AddressCount(f: Form)
    requires WellFormed(f) && Address(f).Some?
    ensures GroupCount(f) + (if f.tail.Quad? then 2 else 0) <= if f.Full? then GROUPS else 7
  {
    assert f.tail.Quad? ==> |TailGroups(f.tail)| == 2;
  }

  /** The parser accepts exactly the texts of addresses, and gives the address; it leaves its array exactly for the others named. */
  lemma ParseExact(t: string)
    ensures forall a :: Filled(Parse6(t, true, [], -1)) == Accepted(a) <==> Denotes(t, a)
    ensures Filled(Parse6(t, true, [], -1)).OutOfBounds? <==> QuadAfterSeven(t)
  {
    hide Parse6, WellFormed, Written, Address, RestText, Filled, ReadAs;
    var p := Parse6(t, true, [], -1);
    if p != Refused {
      var f := FormOf(t, true, [], -1);
      FilledAddress(p, f);
      BeyondCount(p, f);
    } else {
      FilledRefused();
    }
    forall a | Denotes(t, a)
      ensures Filled(p) == Accepted(a)
    {
      var f :| WellFormed(f) && FormText(f) == t && Address(f) == Some(a);
      AddressCount(f);
      FormReads(f);
      WrittenReadAs(p, f);
      FilledAddress(p, f);
    }
    if QuadAfterSeven(t) {
      var f :| WellFormed(f) && FormText(f) == t && GroupCount(f) == 7 && f.tail.Quad?;
      FormReads(f);
      WrittenReadAs(p, f);
      FilledAddress(p, f);
    }
  }

  lemma BeyondCount(p: Parsed, f: Form)
    requires WellFormed(f) && ReadAs(p, [], -1, f)
    ensures p.Beyond? ==> f.tail.Quad? && GroupCount(f) == 7
    ensures Filled(p).OutOfBounds? <==> p.Beyond?
  {
  }

  lemma FilledRefused()
    ensures Filled(Refused) == Rejected
  {
  }

  lemma WrittenReadAs(p: Parsed, f: Form)
    requires WellFormed(f)
    requires p == if f.tail.Quad? && GroupCount(f) == 7 then Beyond else Read(Written(f), if f.Full? then -1 else |f.front|)
    ensures ReadAs(p, [], -1, f)
  {
    assert [] + Written(f) == Written(f);
  }

  /** A text stands for one address at most. */
  lemma DenotesOne(t: string, a: seq<Group>, b: seq<Group>)
    requires Denotes(t, a) && Denotes(t, b)
    ensures a == b
  {
    ParseExact(t);
  }

  // ----- The printer -----

  /** Groups with colons between them. */
  function Join(gs: seq<Group>): string {
    if gs == [] then []
    else if |gs| == 1 then Hex(gs[0])
    else Join(gs[..|gs| - 1]) + ":" + Hex(gs[|gs| - 1])
  }

  /** Groups with a colon before each. */
  function Later(gs: seq<Group>): string {
    if gs == [] then [] else Later(gs[..|gs| - 1]) + ":" + Hex(gs[|gs| - 1])
  }

  lemma {:induction false} LaterJoin(gs: seq<Group>)
    requires gs != []
    ensures Later(gs) == ":" + Join(gs)
  {
    if |gs| > 1 {
      LaterJoin(gs[..|gs| - 1]);
    }
  }

  lemma JoinLast(gs: seq<Group>)
    ensures |gs| == 1 ==> Join(gs) == Hex(gs[0])
    ensures |gs| > 1 ==> Join(gs) == Join(gs[..|gs| - 1]) + ":" + Hex(gs[|gs| - 1])
  {
    hide Hex;
  }

  lemma {:induction false} JoinFront(g: Group, gs: seq<Group>)
    requires gs != []
    ensures Join([g] + gs) == Hex(g) + ":" + Join(gs)
  {
    hide Join, Hex;
    var all, front := [g] + gs, gs[..|gs| - 1];
    JoinLast(all);
    JoinLast(gs);
    assert all[|all| - 1] == gs[|gs| - 1];
    if |gs| == 1 {
      JoinLast([g]);
      assert all[..1] == [g];
    } else {
      JoinFront(g, front);
      assert all[..|all| - 1] == [g] + front;
      Colons(Hex(g), Join(front), Hex(gs[|gs| - 1]));
    }
  }

  lemma Colons(a: string, b: string, c: string)
    ensures (a + ":" + b) + ":" + c == a + ":" + (b + ":" + c)
  {
  }

  /** From `i` on there are `l` zeros. */
  predicate ZeroRun(a: seq<Group>, i: int, l: int) {
    0 <= i <= i + l <= |a| && forall k :: i <= k < i + l ==> a[k] == 0
  }

  /** The leftmost of the longest runs of at least two zeros that end by `end`; none if the length is 0. */
  ghost predicate BestRun(a: seq<Group>, end: nat, zi: int, zl: nat) {
    && (zl == 0 ==> zi == -1) && (zl > 0 ==> zl >= 2 && ZeroRun(a, zi, zl) && zi + zl <= end)
    && forall i, l :: ZeroRun(a, i, l) && l >= 2 && i + l <= end ==> l < zl || (l == zl && i >= zi)
  }

  function Short(a: seq<Group>, zi: int, zl: nat): string
    requires |a| == GROUPS && (zl > 0 ==> 0 <= zi && zi + zl <= GROUPS)
  {
    if zl == 0 then Join(a) else Join(a[..zi]) + "::" + Join(a[zi + zl..])
  }

  predicate Mapped(a: seq<Group>)
    requires |a| == GROUPS
  {
    a[..6] == [0, 0, 0, 0, 0, 0xffff]
  }

  predicate Compatible(a: seq<Group>)
    requires |a| == GROUPS
  {
    a[..6] == [0, 0, 0, 0, 0, 0] && a[6..] != [0, 0] && a[6..] != [0, 1]
  }

  function QuadOf(a: seq<Group>): string
    requires |a| == GROUPS
  {
    Dotted(a[6] / 256, a[6] % 256, a[7] / 256, a[7] % 256)
  }

  /** The text of an address: with a dotted quad, or with the leftmost longest run of zeros left out. */
  ghost predicate IsTextOf(text: string, a: seq<Group>)
    requires |a| == GROUPS
  {
    if Mapped(a) || Compatible(a) then text == "::" + (if Mapped(a) then "ffff:" else "") + QuadOf(a)
    else exists zi: int, zl: nat :: BestRun(a, GROUPS, zi, zl) && text == Short(a, zi, zl)
  }

  /** Prints an address. */
  method Ntop6(a: seq<Group>) returns (dst: string)
    requires |a| == GROUPS
    ensures IsTextOf(dst, a)
  {
    if Mapped(a) || Compatible(a) {
      dst := "::" + (if a[5] == 0xffff then "ffff:" else "") + QuadOf(a);
      return;
    }
    var zeroIdx, zeroLen := LongestRun(a);
    dst := PrintGroups(a, zeroIdx, zeroLen);
  }

  method LongestRun(a: seq<Group>) returns (zeroIdx: int, zeroLen: nat)
    requires |a| == GROUPS
    ensures BestRun(a, GROUPS, zeroIdx, zeroLen)
  {
    zeroIdx, zeroLen := -1, 0;
    var tmpIdx, tmpLen := -1, 0;
    for i := 0 to GROUPS
      invariant -1 <= tmpIdx < i || (i == 0 && tmpIdx == -1)
      invariant tmpIdx == -1 ==> (i == 0 || i == GROUPS || a[i - 1] != 0) && BestRun(a, i, zeroIdx, zeroLen)
      invariant tmpIdx != -1 ==> i < GROUPS && tmpLen == i - tmpIdx && ZeroRun(a, tmpIdx, tmpLen)
      invariant tmpIdx != -1 ==> (tmpIdx == 0 || a[tmpIdx - 1] != 0) && BestRun(a, tmpIdx, zeroIdx, zeroLen)
    {
      if a[i] == 0 {
        if tmpIdx == -1 {
          tmpIdx, tmpLen := i, 1;
        } else {
          tmpLen := tmpLen + 1;
        }
      }
      if tmpIdx != -1 && (a[i] != 0 || i == GROUPS - 1) {
        if tmpLen > 1 && tmpLen > zeroLen {
          zeroLen, zeroIdx := tmpLen, tmpIdx;
        }
        tmpIdx := -1;
      }
    }
  }

  method PrintGroups(a: seq<Group>, zeroIdx: int, zeroLen: nat) returns (dst: string)
    requires |a| == GROUPS && BestRun(a, GROUPS, zeroIdx, zeroLen)
    ensures dst == Short(a, zeroIdx, zeroLen)
  {
    hide Hex, Join, Later, BestRun;
    RunBounds(a, zeroIdx, zeroLen);
    NoGroups();
    var i := 0;
    dst := [];
    assert a[..0] == [];
    if zeroIdx == 0 {
      dst := dst + ":";
      i := i + zeroLen;
      assert a[zeroIdx + zeroLen..i] == [];
    }
    while i < GROUPS
      invariant 0 <= i <= GROUPS && !(zeroLen > 0 && zeroIdx < i < zeroIdx + zeroLen)
      invariant (zeroLen == 0 || i <= zeroIdx) ==> dst == Join(a[..i])
      invariant zeroLen > 0 && i > zeroIdx ==> dst == Join(a[..zeroIdx]) + ":" + Later(a[zeroIdx + zeroLen..i])
      invariant zeroIdx == 0 ==> i > 0
    {
      if i != 0 {
        dst := dst + ":";
      }
      if i == zeroIdx {
        i := i + zeroLen;
        assert a[zeroIdx + zeroLen..i] == [];
      } else {
        dst := dst + Hex(a[i]);
        JoinMore(a, i);
        if zeroLen > 0 && i > zeroIdx {
          LaterMore(a, zeroIdx + zeroLen, i);
        }
        i := i + 1;
      }
    }
    assert a[..GROUPS] == a;
    if zeroIdx + zeroLen == GROUPS {
      dst := dst + ":";
      assert zeroLen > 0 && a[zeroIdx + zeroLen..] == [];
    } else if zeroLen > 0 {
      assert a[zeroIdx + zeroLen..GROUPS] == a[zeroIdx + zeroLen..];
      LaterJoin(a[zeroIdx + zeroLen..]);
    }
  }

  lemma RunBounds(a: seq<Group>, zi: int, zl: nat)
    requires BestRun(a, GROUPS, zi, zl)
    ensures zl == 0 ==> zi == -1
    ensures zl > 0 ==> 0 <= zi && zi + zl <= GROUPS
  {
  }

  lemma NoGroups()
    ensures Join([]) == "" && Later([]) == ""
  {
  }

  lemma JoinMore(a: seq<Group>, i: nat)
    requires i < |a|
    ensures Join(a[..i + 1]) == if i == 0 then Hex(a[i]) else Join(a[..i]) + ":" + Hex(a[i])
  {
    assert a[..i + 1][..i] == a[..i];
  }

  lemma LaterMore(a: seq<Group>, start: nat, i: nat)
    requires start <= i < |a|
    ensures Later(a[start..i + 1]) == Later(a[start..i]) + ":" + Hex(a[i])
  {
    assert a[start..i + 1][..i - start] == a[start..i];
  }

  // ----- How addresses are printed -----

  lemma HexDigitIs(d: nat)
    requires d < 16
    ensures HexDigit(d) == "0123456789abcdef"[d]
    ensures IsHex("0123456789abcdef"[d]) && HexDigitValue("0123456789abcdef"[d]) == d
    ensures IsHex("0123456789ABCDEF"[d]) && HexDigitValue("0123456789ABCDEF"[d]) == d
  {
    if d < 8 {
      assert d == 0 || d == 1 || d == 2 || d == 3 || d == 4 || d == 5 || d == 6 || d == 7;
    } else {
      assert d == 8 || d == 9 || d == 10 || d == 11 || d == 12 || d == 13 || d == 14 || d == 15;
    }
  }

  /** Digits, small letters, colons and points. */
  predicate IsPrinted(c: char) {
    '0' <= c <= '9' || 'a' <= c <= 'f' || c == ':' || c == '.'
  }

  /** A zero that begins a number is all of it, and there are no capital letters. */
  predicate Tight(s: string) {
    forall i :: 0 <= i < |s| ==> IsPrinted(s[i]) && TightAt(s, i)
  }

  predicate TightAt(s: string, i: nat)
    requires i < |s|
  {
    s[i] == '0' && (i == 0 || !IsHex(s[i - 1])) ==> i + 1 == |s| || !IsHex(s[i + 1])
  }

  lemma TightParts(s: string, c: char, t: string)
    requires Tight(s) && Tight(t) && (c == ':' || c == '.')
    ensures Tight(s + [c] + t)
  {
    hide IsHex;
    var u := s + [c] + t;
    assert !IsHex(c) by { Separators(); }
    forall i | 0 <= i < |u|
      ensures IsPrinted(u[i]) && TightAt(u, i)
    {
      if i < |s| {
        assert TightAt(s, i) && u[i] == s[i] && (i > 0 ==> u[i - 1] == s[i - 1]) && u[i + 1] == if i + 1 < |s| then s[i + 1] else c;
      } else if i > |s| {
        var j := i - |s| - 1;
        assert TightAt(t, j) && u[i] == t[j] && u[i - 1] == (if j > 0 then t[j - 1] else c) && (i + 1 < |u| ==> u[i + 1] == t[j + 1]);
      }
    }
  }

  lemma Separators()
    ensures !IsHex(':') && !IsHex('.')
  {
  }

  lemma {:induction false} HexTight(v: nat)
    ensures Tight(Hex(v)) && (Hex(v)[0] == '0' ==> |Hex(v)| == 1)
  {
    if v >= 16 {
      HexTight(v / 16);
    }
  }

  lemma NumeralTight(n: nat)
    ensures Tight(D.Numeral(n))
  {
    D.NumeralShort(n);
  }

  lemma {:induction false} JoinTight(gs: seq<Group>)
    ensures Tight(Join(gs))
  {
    hide Hex, Tight;
    if gs == [] {
      EmptyTight();
    } else {
      HexTight(gs[|gs| - 1]);
      if |gs| > 1 {
        JoinTight(gs[..|gs| - 1]);
        TightParts(Join(gs[..|gs| - 1]), ':', Hex(gs[|gs| - 1]));
      }
    }
  }

  lemma EmptyTight()
    ensures Tight("") && Tight("ffff")
  {
  }

  lemma QuadTight(a: nat, b: nat, c: nat, d: nat)
    ensures Tight(Dotted(a, b, c, d)) && '.' in Dotted(a, b, c, d)
  {
    hide D.Numeral, Tight;
    NumeralTight(a);
    NumeralTight(b);
    NumeralTight(c);
    NumeralTight(d);
    TightParts(D.Numeral(a), '.', D.Numeral(b));
    TightParts(D.Numeral(a) + "." + D.Numeral(b), '.', D.Numeral(c));
    TightParts(D.Numeral(a) + "." + D.Numeral(b) + "." + D.Numeral(c), '.', D.Numeral(d));
    assert Dotted(a, b, c, d)[|D.Numeral(a)|] == '.';
  }

  lemma {:induction false} JoinPlain(gs: seq<Group>)
    ensures '.' !in Join(gs)
  {
    hide Hex;
    if gs != [] {
      HexPlain(gs[|gs| - 1]);
      if |gs| > 1 {
        JoinPlain(gs[..|gs| - 1]);
      }
    }
  }

  lemma HexPlain(v: nat)
    ensures '.' !in Hex(v)
  {
  }

  /**
   * The text of an address is in small letters and without zeros in front of a number. There is a dotted quad in it if
   * and only if the first five groups are 0 and the sixth is 0xffff, or 0 with more than 0 or 1 in the last two.
   */
  lemma PrintedTight(text: string, a: seq<Group>)
    requires |a| == GROUPS && IsTextOf(text, a)
    ensures Tight(text)
    ensures '.' in text <==>
      a[0] == a[1] == a[2] == a[3] == a[4] == 0 && (a[5] == 0xffff || (a[5] == 0 && (a[6] != 0 || a[7] > 1)))
  {
    hide Tight, Join, Dotted;
    Special(a);
    EmptyTight();
    if Mapped(a) || Compatible(a) {
      QuadTight(a[6] / 256, a[6] % 256, a[7] / 256, a[7] % 256);
      var q := QuadOf(a);
      TightParts("", ':', "");
      if Mapped(a) {
        TightParts("" + ":" + "", ':', "ffff");
        TightParts("" + ":" + "" + ":" + "ffff", ':', q);
        assert text == "" + ":" + "" + ":" + "ffff" + ":" + q;
      } else {
        TightParts("" + ":" + "", ':', q);
        assert text == "" + ":" + "" + ":" + q;
      }
    } else {
      var zi: int, zl: nat :| BestRun(a, GROUPS, zi, zl) && text == Short(a, zi, zl);
      RunBounds(a, zi, zl);
      ShortTight(a, zi, zl);
      assert text == Short(a, zi, zl);
    }
  }

  lemma Special(a: seq<Group>)
    requires |a| == GROUPS
    ensures Mapped(a) || Compatible(a) <==>
      a[0] == a[1] == a[2] == a[3] == a[4] == 0 && (a[5] == 0xffff || (a[5] == 0 && (a[6] != 0 || a[7] > 1)))
  {
    var f, b := a[..6], a[6..];
    assert f[0] == a[0] && f[1] == a[1] && f[2] == a[2] && f[3] == a[3] && f[4] == a[4] && f[5] == a[5];
    assert b[0] == a[6] && b[1] == a[7] && |b| == 2;
    if a[0] == a[1] == a[2] == a[3] == a[4] == 0 {
      assert a[5] == 0xffff ==> f == [0, 0, 0, 0, 0, 0xffff];
      assert a[5] == 0 ==> f == [0, 0, 0, 0, 0, 0];
    }
    assert b == [a[6], a[7]];
  }

  lemma ShortTight(a: seq<Group>, zi: int, zl: nat)
    requires |a| == GROUPS && (zl > 0 ==> 0 <= zi && zi + zl <= GROUPS)
    ensures Tight(Short(a, zi, zl)) && '.' !in Short(a, zi, zl)
  {
    hide Tight, Join;
    if zl == 0 {
      JoinTight(a);
      JoinPlain(a);
    } else {
      var x, y := Join(a[..zi]), Join(a[zi + zl..]);
      JoinTight(a[..zi]);
      JoinTight(a[zi + zl..]);
      JoinPlain(a[..zi]);
      JoinPlain(a[zi + zl..]);
      EmptyTight();
      TightParts(x, ':', "");
      TightParts(x + ":" + "", ':', y);
      assert x + ":" + "" + ":" + y == x + "::" + y;
    }
  }

  // ----- Reading back -----

  /**
   * Reads an address. The texts it accepts are those of addresses, and what it gives is the address. For the texts with a
   * dotted quad after seven groups, and for no others, it would write behind the end of its array.
   */
  method Pton6(src: string) returns (dst: Outcome)
    ensures forall a :: dst == Accepted(a) <==> Denotes(src, a)
    ensures dst.OutOfBounds? <==> QuadAfterSeven(src)
  {
    hide HexRun, HexValue, ParseQuad, Parse6, Denotes, QuadAfterSeven, QuadDenotes;
    ParseExact(src);
    var addr6: seq<Group>, idx, z, ptr := Zeros(GROUPS), 0, -1, 0;
    var more := true;
    assert src[0..] == src && addr6[..0] == [];
    while ptr < |src| && more
      invariant 0 <= ptr <= |src| && |addr6| == GROUPS && 0 <= idx <= GROUPS && -1 <= z <= idx
      invariant Parse6(src, true, [], -1) ==
        if more then Parse6(src[ptr..], ptr == 0, addr6[..idx], z) else Read(addr6[..idx], z)
      decreases |src| - ptr, more
    {
      ghost var t, gs := src[ptr..], addr6[..idx];
      ParseCases(t, ptr == 0, gs, z);
      if idx > GROUPS - 1 {
        return Rejected;
      }
      var end := ptr + HexRun(src[ptr..]);
      assert end < |src| ==> t[end - ptr] == src[end];
      assert t[..end - ptr] == src[ptr..end];
      if ptr == end && end < |src| && src[end] == ':' {
        if z != -1 {
          return Rejected;
        }
        z := idx;
        if ptr != 0 {
          assert t[1..] == src[end + 1..];
          ptr := end + 1;
        } else if end + 1 < |src| && src[end + 1] == ':' {
          assert t[1] == ':' && t[2..] == src[end + 2..];
          ptr := end + 2;
        } else {
          return Rejected;
        }
      } else if end == |src| || src[end] == ':' {
        if end - ptr > 4 {
          return Rejected;
        }
        ValueFits(src[ptr..end]);
        var val: Group := HexValue(src[ptr..end]);
        MoreGroup(addr6, idx, val);
        addr6 := addr6[idx := val];
        idx := idx + 1;
        if end < |src| {
          assert t[end - ptr + 1..] == src[end + 1..];
          ptr := end + 1;
        } else {
          assert src[end..] == [];
          ptr := end;
        }
      } else if src[end] == '.' {
        var addr4 := Pton4(src[ptr..]);
        QuadIs(src[ptr..], addr4);
        if addr4.None? {
          return Rejected;
        }
        if idx + 2 > GROUPS {
          return OutOfBounds;
        }
        QuadLimit();
        var high: Group, low: Group := addr4.value / 0x1_0000, addr4.value % 0x1_0000;
        TwoMore(addr6, idx, high, low);
        addr6 := addr6[idx := high];
        addr6 := addr6[idx + 1 := low];
        idx := idx + 2;
        more := false;
      } else {
        return Rejected;
      }
    }
    assert ptr == |src| ==> src[ptr..] == [];
    NothingReads(addr6[..idx], z, ptr == 0);
    if (idx < GROUPS && z == -1) || (idx == GROUPS && z != -1) {
      return Rejected;
    }
    var out := Fill(addr6, idx, z);
    dst := Accepted(out);
  }

  lemma MoreGroup(a: seq<Group>, i: nat, x: Group)
    requires i < |a|
    ensures a[i := x][..i + 1] == a[..i] + [x]
  {
  }

  lemma TwoMore(a: seq<Group>, i: nat, x: Group, y: Group)
    requires i + 1 < |a|
    ensures a[i := x][i + 1 := y][..i + 2] == a[..i] + [x, y]
  {
  }

  lemma QuadIs(t: string, r: Option<nat>)
    requires forall v: nat :: r == Some(v) <==> QuadDenotes(t, v)
    ensures r == ParseQuad(t, 0, 0)
  {
    hide ParseQuad, QuadDenotes;
    QuadExact(t);
    if r.Some? {
      assert r == Some(r.value);
    }
    if ParseQuad(t, 0, 0).Some? {
      assert ParseQuad(t, 0, 0) == Some(ParseQuad(t, 0, 0).value);
    }
  }

  /** The groups with the zeros that were left out. */
  method Fill(addr6: seq<Group>, idx: nat, z: int) returns (dst: seq<Group>)
    requires |addr6| == GROUPS && idx <= GROUPS && -1 <= z <= idx && (z == -1 <==> idx == GROUPS)
    ensures Filled(Read(addr6[..idx], z)) == Accepted(dst)
  {
    dst := Zeros(GROUPS);
    ghost var whole := if z == -1 then addr6 else addr6[..z] + Zeros(GROUPS - idx) + addr6[z..idx];
    for i := 0 to GROUPS
      invariant |dst| == GROUPS && forall j :: 0 <= j < i ==> dst[j] == whole[j]
    {
      if i >= z && i < GROUPS - idx + z {
        dst := dst[i := 0];
      } else if i < GROUPS - idx + z {
        dst := dst[i := addr6[i]];
      } else {
        dst := dst[i := addr6[i - (GROUPS - idx)]];
      }
    }
    assert dst == whole;
    assert z >= 0 ==> addr6[..idx][..z] == addr6[..z] && addr6[..idx][z..] == addr6[z..idx];
    assert z == -1 ==> addr6[..idx] == addr6;
  }

  // ----- What is printed is the text of the address -----

  /** The groups as they are printed. */
  function Printed(gs: seq<Group>): seq<string> {
    if gs == [] then [] else [Hex(gs[0])] + Printed(gs[1..])
  }

  lemma {:induction false} PrintedValues(gs: seq<Group>)
    ensures AreGroups(Printed(gs)) && Values(Printed(gs)) == gs && |Printed(gs)| == |gs|
  {
    if gs != [] {
      var g, more := gs[0], gs[1..];
      HexReads(g);
      GroupShort(g);
      PrintedValues(more);
      PrintedMore(Hex(g), Printed(more));
      assert gs == [g] + more;
    }
  }

  lemma PrintedMore(h: string, ss: seq<string>)
    requires IsGroup(h) && AreGroups(ss)
    ensures AreGroups([h] + ss) && Values([h] + ss) == [ValueOf(h)] + Values(ss)
  {
    hide IsGroup, ValueOf;
    assert ([h] + ss)[1..] == ss;
  }

  lemma {:induction false} JoinListed(gs: seq<Group>)
    ensures Listed(Printed(gs), Nothing) == Join(gs)
  {
    hide Hex;
    if |gs| == 1 {
      assert gs[1..] == [];
    } else if |gs| > 1 {
      var g, more := gs[0], gs[1..];
      assert gs == [g] + more;
      JoinFront(g, more);
      JoinListed(more);
      assert Printed(gs)[1..] == Printed(more) && |Printed(more)| > 0;
      assert Hex(g) + ":" + Join(more) == Hex(g) + (":" + Join(more));
    }
  }

  lemma {:induction false} JoinLed(gs: seq<Group>)
    requires gs != []
    ensures Led(Printed(gs)) == Join(gs) + ":"
  {
    hide Hex;
    var g, more := gs[0], gs[1..];
    assert gs == [g] + more && Printed(gs)[1..] == Printed(more);
    if more == [] {
      assert Hex(g) + (":" + []) == Hex(g) + ":";
    } else {
      JoinFront(g, more);
      JoinLed(more);
      assert Hex(g) + (":" + (Join(more) + ":")) == Hex(g) + ":" + Join(more) + ":";
    }
  }

  /** The short form is a text of the address. */
  lemma ShortDenotes(a: seq<Group>, zi: int, zl: nat)
    requires |a| == GROUPS && BestRun(a, GROUPS, zi, zl)
    ensures Denotes(Short(a, zi, zl), a)
  {
    hide Join, Hex, Values, Printed, AreGroups, Led, Listed;
    if zl == 0 {
      PrintedValues(a);
      JoinListed(a);
      var f := Full(Printed(a), Nothing);
      assert a + [] == a;
      assert Address(f) == Some(a);
      assert WellFormed(f) && FormText(f) == Short(a, zi, zl);
    } else {
      var front, back := a[..zi], a[zi + zl..];
      PrintedValues(front);
      PrintedValues(back);
      JoinListed(back);
      var f := Gapped(Printed(front), Printed(back), Nothing);
      ShortText(front, back);
      var gs := front + back;
      assert gs + [] == gs && gs[..zi] == front && gs[zi..] == back;
      assert a == front + Zeros(zl) + back;
      assert Address(f) == Some(a);
      assert WellFormed(f) && FormText(f) == Short(a, zi, zl);
    }
  }

  lemma ShortText(front: seq<Group>, back: seq<Group>)
    ensures FormText(Gapped(Printed(front), Printed(back), Nothing)) == Join(front) + "::" + Join(back)
  {
    hide Join, Hex, Printed, Led, Listed;
    NoGroups();
    JoinListed(back);
    if front == [] {
      assert Printed(front) == [] by { PrintedValues(front); }
      assert ":" + (":" + Join(back)) == "" + "::" + Join(back);
    } else {
      JoinLed(front);
      PrintedValues(front);
      assert Join(front) + ":" + (":" + Join(back)) == Join(front) + "::" + Join(back);
    }
  }

  lemma QuadValue(x: nat, y: nat)
    requires x < 0x1_0000 && y < 0x1_0000
    ensures var v := ((x / 256 * 256 + x % 256) * 256 + y / 256) * 256 + y % 256;
      v == x * 0x1_0000 + y && v / 0x1_0000 == x && v % 0x1_0000 == y
  {
  }

  /** The forms with a dotted quad are texts of the address. */
  lemma QuadFormDenotes(a: seq<Group>)
    requires |a| == GROUPS && (Mapped(a) || Compatible(a))
    ensures Denotes("::" + (if Mapped(a) then "ffff:" else "") + QuadOf(a), a)
  {
    hide Hex, QuadOf, IsQuad, QuadText, Values, AreGroups;
    var ns := QuadTail(a);
    var back := if Mapped(a) then ["ffff"] else [];
    var f := Gapped([], back, Quad(ns));
    FullGroup();
    var text := "::" + (if Mapped(a) then "ffff:" else "") + QuadOf(a);
    assert FormText(f) == text by { QuadFormText(back, ns); }
    assert a[6..] == [a[6], a[7]];
    assert a == [] + Zeros(if Mapped(a) then 5 else 6) + ((if Mapped(a) then [0xffff] else []) + a[6..]);
    QuadFormAddress(f, a);
  }

  lemma QuadFormText(back: seq<string>, ns: seq<string>)
    requires back == [] || back == ["ffff"]
    ensures FormText(Gapped([], back, Quad(ns))) == "::" + (if back == [] then "" else "ffff:") + QuadText(ns)
  {
    hide QuadText;
    if back != [] {
      assert back[1..] == [];
      assert Listed(back, Quad(ns)) == "ffff" + (":" + QuadText(ns));
    }
  }

  lemma QuadFormAddress(f: Form, a: seq<Group>)
    requires |a| == GROUPS && f.Gapped? && f.front == [] && f.tail.Quad? && IsQuad(f.tail.numbers)
    requires TailGroups(f.tail) == a[6..]
    requires (f.back == [] && a[..6] == Zeros(6)) || (f.back == ["ffff"] && a[..6] == Zeros(5) + [0xffff])
    ensures WellFormed(f) && Address(f) == Some(a)
  {
    hide IsQuad, TailGroups;
    FullGroup();
    var front: seq<Group> := if f.back == [] then [] else [0xffff];
    assert Values(f.back) == front;
    var gs := Written(f);
    assert gs == front + a[6..];
    assert a == gs[..0] + Zeros(GROUPS - |gs|) + gs[0..];
  }

  /** The last two groups as a dotted quad. */
  lemma QuadTail(a: seq<Group>) returns (ns: seq<string>)
    requires |a| == GROUPS
    ensures IsQuad(ns) && QuadText(ns) == QuadOf(a) && TailGroups(Quad(ns)) == a[6..]
  {
    hide IsByte, QuadText, Dotted;
    var x: nat, y: nat := a[6], a[7];
    var v := ((x / 256 * 256 + x % 256) * 256 + y / 256) * 256 + y % 256;
    DottedDenotes(x / 256, x % 256, y / 256, y % 256);
    ns :| IsQuad(ns) && QuadText(ns) == QuadOf(a) && BytesValue(ns, 0) == v;
    QuadValue(x, y);
    assert a[6..] == [a[6], a[7]];
  }

  lemma FullGroup()
    ensures Hex(0xffff) == "ffff" && IsGroup("ffff") && ValueOf("ffff") == 0xffff
  {
    assert Hex(0xf) == "f";
    assert Hex(0xff) == "ff";
    assert Hex(0xfff) == "fff";
    HexReads(0xffff);
  }

  /** What is printed is a text of the address, and so reads back as it. */
  lemma RoundTrip(text: string, a: seq<Group>)
    requires |a| == GROUPS && IsTextOf(text, a)
    ensures Denotes(text, a)
  {
    hide Denotes, Short, QuadOf;
    if Mapped(a) || Compatible(a) {
      QuadFormDenotes(a);
    } else {
      var zi, zl: nat :| BestRun(a, GROUPS, zi, zl) && text == Short(a, zi, zl);
      ShortDenotes(a, zi, zl);
    }
  }

  // ----- Where the parser takes more than the texts of addresses -----

  /** A text of the address without the colon that belongs to none. */
  ghost predicate Proper(t: string, a: seq<Group>) {
    exists f :: WellFormed(f) && !f.tail.Colon? && FormText(f) == t && Address(f) == Some(a)
  }

  function LastGroups(f: Form): seq<string> {
    if f.Full? then f.groups else f.back
  }

  /** A text of the address whose last part is a group. */
  ghost predicate EndsInGroup(t: string, a: seq<Group>) {
    exists f :: WellFormed(f) && f.tail.Nothing? && LastGroups(f) != [] && FormText(f) == t && Address(f) == Some(a)
  }

  lemma {:induction false} ListedColon(ss: seq<string>)
    requires ss != []
    ensures Listed(ss, Colon) == Listed(ss, Nothing) + ":"
  {
    if |ss| == 1 {
      assert ss[0] + (":" + []) == ss[0] + ":";
    } else {
      ListedColon(ss[1..]);
      assert ss[0] + (":" + (Listed(ss[1..], Nothing) + ":")) == ss[0] + (":" + Listed(ss[1..], Nothing)) + ":";
    }
  }

  function WithTail(f: Form, tail: Tail): Form {
    if f.Full? then Full(f.groups, tail) else Gapped(f.front, f.back, tail)
  }

  lemma ColonSame(f: Form)
    requires WellFormed(WithTail(f, Nothing)) && LastGroups(f) != []
    ensures WellFormed(WithTail(f, Colon)) && Address(WithTail(f, Colon)) == Address(WithTail(f, Nothing))
    ensures FormText(WithTail(f, Colon)) == FormText(WithTail(f, Nothing)) + ":"
  {
    hide Listed, AreGroups;
    ListedColon(LastGroups(f));
    if f.Gapped? {
      var pre, l := if f.front == [] then ":" else Led(f.front), Listed(f.back, Nothing);
      assert pre + (":" + (l + ":")) == pre + (":" + l) + ":";
    }
  }

  /** Besides the proper texts of an address the parser takes those that end in a group with a colon behind it. */
  lemma ColonTaken(t: string, a: seq<Group>)
    ensures Denotes(t, a) <==> Proper(t, a) || (t != [] && t[|t| - 1] == ':' && EndsInGroup(t[..|t| - 1], a))
  {
    hide FormText, Address;
    if Denotes(t, a) && !Proper(t, a) {
      var f :| WellFormed(f) && FormText(f) == t && Address(f) == Some(a);
      var g := WithTail(f, Nothing);
      ColonSame(f);
      assert WithTail(f, Colon) == f && LastGroups(g) != [];
      assert t[..|t| - 1] == FormText(g);
    }
    if t != [] && t[|t| - 1] == ':' && EndsInGroup(t[..|t| - 1], a) {
      var g :| WellFormed(g) && g.tail.Nothing? && LastGroups(g) != [] && FormText(g) == t[..|t| - 1] && Address(g) == Some(a);
      ColonSame(g);
      assert WithTail(g, Nothing) == g;
      assert FormText(WithTail(g, Colon)) == t;
    }
  }

  /** The text ends in a colon that is not one of two. */
  predicate LoneColon(t: string) {
    t != [] && t[|t| - 1] == ':' && (|t| > 1 ==> t[|t| - 2] != ':')
  }

  /** The last character is a digit, decimal or hexadecimal. */
  predicate EndsInDigit(t: string) {
    t != [] && IsHex(t[|t| - 1])
  }

  lemma EndsBehind(s: string, t: string)
    requires EndsInDigit(t)
    ensures EndsInDigit(s + t)
  {
  }

  lemma {:induction false} LastByteEnds(ns: seq<string>)
    requires ns != [] && forall i :: 0 <= i < |ns| ==> IsByte(ns[i])
    ensures EndsInDigit(QuadText(ns))
  {
    if |ns| > 1 {
      LastByteEnds(ns[1..]);
      EndsBehind(ns[0] + ".", QuadText(ns[1..]));
    }
  }

  /** What ends in a group or in a quad ends in a digit. */
  lemma {:induction false} ListedEnds(ss: seq<string>, tail: Tail)
    requires AreGroups(ss) && !tail.Colon? && (tail.Quad? ==> IsQuad(tail.numbers)) && (ss != [] || tail.Quad?)
    ensures EndsInDigit(Listed(ss, tail))
  {
    if ss == [] {
      LastByteEnds(tail.numbers);
    } else if |ss| > 1 || tail.Quad? {
      ListedEnds(ss[1..], tail);
      EndsBehind(ss[0] + ":", Listed(ss[1..], tail));
      assert ss[0] + (":" + Listed(ss[1..], tail)) == ss[0] + ":" + Listed(ss[1..], tail);
    } else {
      assert IsGroup(ss[0]);
    }
  }

  lemma {:induction false} LedEnds(ss: seq<string>)
    requires ss != []
    ensures Led(ss) != [] && Led(ss)[|Led(ss)| - 1] == ':'
  {
    if |ss| > 1 {
      LedEnds(ss[1..]);
      assert Led(ss) == ss[0] + (":" + Led(ss[1..]));
    } else {
      assert Led(ss) == ss[0] + (":" + []);
    }
  }

  /** A proper text ends in a digit or in two colons. */
  lemma ProperEnds(f: Form)
    requires WellFormed(f) && !f.tail.Colon?
    ensures !LoneColon(FormText(f))
  {
    hide Listed, Led, IsHex, AreGroups, IsQuad;
    var ss := LastGroups(f);
    if ss != [] || f.tail.Quad? {
      ListedEnds(ss, f.tail);
      DigitNoColon();
      if f.Gapped? {
        var pre := if f.front == [] then ":" else Led(f.front);
        EndsBehind(pre + ":", Listed(ss, f.tail));
        assert pre + (":" + Listed(ss, f.tail)) == pre + ":" + Listed(ss, f.tail);
      }
    } else {
      NothingListed();
      if f.Gapped? && f.front != [] {
        LedEnds(f.front);
      }
    }
  }

  lemma DigitNoColon()
    ensures !IsHex(':')
  {
  }

  lemma NothingListed()
    ensures Listed([], Nothing) == []
  {
  }

  /** A group with a colon behind it ends no proper text, whatever the address. */
  lemma ColonImproper(t: string, b: seq<Group>)
    requires LoneColon(t)
    ensures !Proper(t, b)
  {
    hide FormText, Address, LoneColon;
    if Proper(t, b) {
      var f :| WellFormed(f) && !f.tail.Colon? && FormText(f) == t && Address(f) == Some(b);
      ProperEnds(f);
    }
  }

  /** Of the texts that the parser takes those are proper that do not end in a single colon; the others are so for no address. */
  lemma ColonExactly(t: string, a: seq<Group>)
    requires Denotes(t, a)
    ensures Proper(t, a) <==> !LoneColon(t)
    ensures LoneColon(t) ==> forall b :: !Proper(t, b)
  {
    hide Proper, Denotes, EndsInGroup;
    ColonTaken(t, a);
    if LoneColon(t) {
      forall b
        ensures !Proper(t, b)
      {
        ColonImproper(t, b);
      }
    } else if !Proper(t, a) {
      GroupThenColon(t, a);
    }
  }

  lemma GroupThenColon(t: string, a: seq<Group>)
    requires t != [] && t[|t| - 1] == ':' && EndsInGroup(t[..|t| - 1], a)
    ensures LoneColon(t)
  {
    hide FormText, Address, IsHex;
    DigitNoColon();
    var f :| WellFormed(f) && f.tail.Nothing? && LastGroups(f) != [] && FormText(f) == t[..|t| - 1] && Address(f) == Some(a);
    GroupEnds(f);
    assert t[..|t| - 1][|t| - 2] == t[|t| - 2];
  }

  lemma GroupEnds(f: Form)
    requires WellFormed(f) && f.tail.Nothing? && LastGroups(f) != []
    ensures EndsInDigit(FormText(f))
  {
    hide Listed, Led, IsHex, AreGroups;
    ListedEnds(LastGroups(f), Nothing);
    if f.Gapped? {
      var pre := if f.front == [] then ":" else Led(f.front);
      EndsBehind(pre + ":", Listed(f.back, Nothing));
      assert pre + (":" + Listed(f.back, Nothing)) == pre + ":" + Listed(f.back, Nothing);
    }
  }

  lemma OneDigit(c: char)
    requires IsHex(c)
    ensures IsGroup([c]) && ValueOf([c]) == HexDigitValue(c)
  {
    var g := [c];
    assert g[..0] == [] && HexValue([]) == 0;
    assert HexValue(g) == 16 * HexValue(g[..0]) + HexDigitValue(c);
  }

  lemma ValuesMore(g: string, ss: seq<string>)
    requires IsGroup(g) && AreGroups(ss)
    ensures AreGroups([g] + ss) && Values([g] + ss) == [ValueOf(g)] + Values(ss)
  {
    hide IsGroup, ValueOf;
    assert ([g] + ss)[1..] == ss;
  }

  /** Eight groups of one digit with a colon behind each. */
  lemma EightGroups(t: string, a: seq<Group>) returns (gs: seq<string>)
    requires |t| == 16 && |a| == GROUPS
    requires forall i :: 0 <= i < GROUPS ==> IsHex(t[2 * i]) && t[2 * i + 1] == ':' && a[i] == HexDigitValue(t[2 * i])
    ensures |gs| == GROUPS && AreGroups(gs) && Listed(gs, Colon) == t && Values(gs) == a
  {
    hide Listed, AreGroups, IsGroup, Values, ValueOf, IsHex;
    gs := [];
    NoListed();
    var i := GROUPS;
    while i > 0
      invariant 0 <= i <= GROUPS && |gs| == GROUPS - i && AreGroups(gs) && Listed(gs, Colon) == t[2 * i..]
      invariant Values(gs) == a[i..]
    {
      i := i - 1;
      var g := [t[2 * i]];
      OneDigit(t[2 * i]);
      ListedMore(g, gs, Colon, t[2 * i + 2..]);
      ValuesMore(g, gs);
      assert g + (":" + t[2 * i + 2..]) == t[2 * i..] && [a[i]] + a[i + 1..] == a[i..];
      gs := [g] + gs;
    }
    assert t[0..] == t && a[0..] == a;
  }

  /** They are taken for the address with these digits. */
  lemma EightDigits(t: string, a: seq<Group>)
    requires |t| == 16 && |a| == GROUPS
    requires forall i :: 0 <= i < GROUPS ==> IsHex(t[2 * i]) && t[2 * i + 1] == ':' && a[i] == HexDigitValue(t[2 * i])
    ensures Denotes(t, a) && LoneColon(t)
  {
    hide Listed, AreGroups, Values, IsHex;
    var gs := EightGroups(t, a);
    DigitNoColon();
    assert t[15] == t[2 * 7 + 1] && t[14] == t[2 * 7];
    FullDenotes(gs, t, a);
  }

  lemma FullDenotes(gs: seq<string>, t: string, a: seq<Group>)
    requires |gs| == |a| == GROUPS && AreGroups(gs) && Listed(gs, Colon) == t && Values(gs) == a
    ensures Denotes(t, a)
  {
    hide Listed, AreGroups, Values;
    var f := Full(gs, Colon);
    assert a + [] == a;
    assert WellFormed(f) && FormText(f) == t && Address(f) == Some(a);
  }

  /** The digits from 1 on, with a colon behind each, at the front of a text. */
  lemma DigitColons(t: string, digits: string)
    requires digits <= "12345678" && 2 * |digits| <= |t| && t[..2 * |digits|] == "1:2:3:4:5:6:7:8:"[..2 * |digits|]
    ensures forall i :: 0 <= i < |digits| ==> IsHex(t[2 * i]) && t[2 * i + 1] == ':' && HexDigitValue(t[2 * i]) == i + 1
  {
    var n := |digits|;
    var whole := "1:2:3:4:5:6:7:8:";
    forall i | 0 <= i < n
      ensures t[2 * i] == whole[2 * i] == "12345678"[i] && t[2 * i + 1] == whole[2 * i + 1] == ':'
    {
      assert t[..2 * n][2 * i] == whole[..2 * n][2 * i] && t[..2 * n][2 * i + 1] == whole[..2 * n][2 * i + 1];
      DigitColon(i);
    }
  }

  lemma DigitColon(i: nat)
    requires i < 8
    ensures "1:2:3:4:5:6:7:8:"[2 * i] == "12345678"[i] && "1:2:3:4:5:6:7:8:"[2 * i + 1] == ':'
    ensures "12345678"[i] as int == '0' as int + i + 1
  {
    if i < 4 {
      assert i == 0 || i == 1 || i == 2 || i == 3;
    } else {
      assert i == 4 || i == 5 || i == 6 || i == 7;
    }
  }

  lemma NoListed()
    ensures Listed([], Colon) == [] && AreGroups([]) && Values([]) == []
  {
  }

  /** A text that the parser takes for an address and that is proper for none. */
  lemma ColonBehindEight()
    ensures Denotes("1:2:3:4:5:6:7:8:", [1, 2, 3, 4, 5, 6, 7, 8])
    ensures forall b :: !Proper("1:2:3:4:5:6:7:8:", b)
  {
    hide Denotes, Proper, LoneColon;
    var t := "1:2:3:4:5:6:7:8:";
    DigitColons(t, "12345678");
    EightDigits(t, [1, 2, 3, 4, 5, 6, 7, 8]);
    forall b
      ensures !Proper(t, b)
    {
      ColonImproper(t, b);
    }
  }

  /** One group more in front of a text with something behind its last group. */
  lemma ListedMore(g: string, ss: seq<string>, tail: Tail, t: string)
    requires IsGroup(g) && AreGroups(ss) && Listed(ss, tail) == t && !tail.Nothing?
    ensures AreGroups([g] + ss) && Listed([g] + ss, tail) == g + (":" + t)
  {
    assert ([g] + ss)[1..] == ss;
  }

  lemma DigitBytes()
    ensures IsQuad(["1", "2", "3", "4"]) && QuadText(["1", "2", "3", "4"]) == "1.2.3.4"
  {
    forall s: string | |s| == 1 && D.IsDigit(s[0])
      ensures IsByte(s)
    {
      assert D.Number(s[..0]) == 0;
    }
    var ns := ["1", "2", "3", "4"];
    assert ns[1..] == ["2", "3", "4"] && ns[1..][1..] == ["3", "4"] && ns[1..][1..][1..] == ["4"];
  }

  /** Seven groups of one digit and a quad. */
  lemma SevenDigits(t: string, ns: seq<string>)
    requires |t| >= 14 && IsQuad(ns) && QuadText(ns) == t[14..]
    requires forall i :: 0 <= i < 7 ==> IsHex(t[2 * i]) && t[2 * i + 1] == ':'
    ensures QuadAfterSeven(t)
  {
    hide Listed, QuadText, AreGroups, IsQuad;
    var gs := [];
    ListedQuad(ns);
    var i := 7;
    while i > 0
      invariant 0 <= i <= 7 && |gs| == 7 - i && AreGroups(gs) && Listed(gs, Quad(ns)) == t[2 * i..]
    {
      i := i - 1;
      var g := [t[2 * i]];
      ListedMore(g, gs, Quad(ns), t[2 * i + 2..]);
      assert g + (":" + t[2 * i + 2..]) == t[2 * i..];
      gs := [g] + gs;
    }
    var f := Full(gs, Quad(ns));
    assert t[0..] == t;
    assert WellFormed(f) && FormText(f) == t && GroupCount(f) == 7;
  }

  /** A text for which the parser leaves its array. */
  lemma SevenGroupsAndQuad()
    ensures QuadAfterSeven("1:2:3:4:5:6:7:1.2.3.4")
  {
    hide IsQuad, QuadText, QuadAfterSeven;
    DigitBytes();
    var t := "1:2:3:4:5:6:7:1.2.3.4";
    assert t[14..] == "1.2.3.4";
    DigitColons(t, "1234567");
    SevenDigits(t, ["1", "2", "3", "4"]);
  }

  lemma ListedQuad(ns: seq<string>)
    ensures Listed([], Quad(ns)) == QuadText(ns) && AreGroups([])
  {
  }
}
