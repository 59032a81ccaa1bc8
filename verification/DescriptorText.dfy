// What the descriptor says: the numbers that its digits stand for, its lines as text, and the
// white space that the parser takes away.

module DescriptorText {
  import opened Bytes
  import opened Descriptor
  import Bits

  // ----- numbers -----

  function DigitValue(c: char): nat {
    if '0' <= c <= '9' then c as int - '0' as int
    else if 'a' <= c <= 'f' then c as int - 'a' as int + 10
    else 16
  }

  /** The number that digits stand for, read from left to right. */
  function Value(s: string, base: nat): nat {
    if s == [] then 0 else base * Value(s[..|s| - 1], base) + DigitValue(s[|s| - 1])
  }

  predicate AllDigits(s: string, base: nat) {
    forall i :: 0 <= i < |s| ==> DigitValue(s[i]) < base
  }

  lemma DigitMeans(d: nat)
    requires d < 16
    ensures DigitValue(Digit(d)) == d
  {
    assert "0123456789abcdef"[d] ==
           (if d < 10 then ('0' as int + d) as char else ('a' as int + (d - 10)) as char);
  }

  /** A decimal number stands for itself and has no leading zero. */
  lemma {:induction false} DecimalMeans(n: nat)
    ensures var s := Decimal(n);
            && s != [] && AllDigits(s, 10) && Value(s, 10) == n
            && (s[0] == '0' ==> s == "0" && n == 0)
  {
    var s := Decimal(n);
    DigitMeans(n % 10);
    if n < 10 {
      DigitMeans(n);
      assert s[..0] == [] && s == [Digit(n)];
      assert Value(s, 10) == 10 * Value(s[..0], 10) + n;
    } else {
      DecimalMeans(n / 10);
      assert s[..|s| - 1] == Decimal(n / 10);
    }
  }

  function Pow16(w: nat): (p: nat)
    ensures p > 0
  {
    if w == 0 then 1 else 16 * Pow16(w - 1)
  }

  lemma {:induction false} HexDigitsMean(n: nat, w: nat)
    ensures AllDigits(HexDigits(n, w), 16) && Value(HexDigits(n, w), 16) == n % Pow16(w)
  {
    hide Digit, DigitValue;
    if w > 0 {
      var s := HexDigits(n, w);
      HexDigitsMean(n / 16, w - 1);
      DigitMeans(n % 16);
      assert s[..w - 1] == HexDigits(n / 16, w - 1) && s[w - 1] == Digit(n % 16);
      HexSplit(n, Pow16(w - 1));
    }
  }

  lemma HexSplit(n: nat, p: nat)
    requires p > 0
    ensures n % (16 * p) == 16 * (n / 16 % p) + n % 16
  {
    var q, r := n / 16 / p, n / 16 % p;
    assert n / 16 == p * q + r;
    assert n == (16 * p) * q + (16 * r + n % 16);
    Bits.ModUnique(n, 16 * p, q, 16 * r + n % 16);
  }

  /** Eight lower-case hexadecimal digits that stand for the 32-bit word. */
  lemma HexMeans(n: nat)
    ensures |Hex(n)| == 8 && AllDigits(Hex(n), 16) && Value(Hex(n), 16) == n % 0x1_0000_0000
  {
    HexDigitsMean(n, 8);
    assert Pow16(4) == 0x1_0000;
    assert Pow16(8) == 0x1_0000_0000;
  }

  /** The number that digits with a sign stand for. */
  function SignedValue(s: string): int {
    if s != [] && s[0] == '-' then -(Value(s[1..], 10) as int) else Value(s, 10)
  }

  /** A 32-bit word as the signed number that it is in two's complement. */
  lemma SignedDecimalMeans(n: nat)
    ensures var w := n % 0x1_0000_0000;
            SignedValue(SignedDecimal(n)) == if w < 0x8000_0000 then w else w - 0x1_0000_0000
  {
    hide Decimal;
    var w := n % 0x1_0000_0000;
    DecimalMeans(w);
    DecimalMeans(0x1_0000_0000 - w);
    assert DigitValue('-') == 16;
  }

  /** Cylinders of 255 heads and 63 sectors, rounded up and limited to 65,535. */
  lemma CylindersMean(capacity: nat)
    ensures Cylinders(capacity) == Min(65535, (capacity + 16064) / 16065)
  {
  }

  // ----- the text -----

  function Joined(lines: seq<string>): string {
    if lines == [] then ""
    else if |lines| == 1 then lines[0]
    else lines[0] + "\n" + Joined(lines[1..])
  }

  /** The lines of the template with the numbers in their places. */
  function Template(x: Inputs): seq<string> {
    [ "# Disk DescriptorFile",
      "version=1",
      "encoding=\"UTF-8\"",
      "CID=" + Hex(x.cid),
      "parentCID=ffffffff",
      "createType=\"streamOptimized\"",
      "",
      "# Extent description",
      "RW " + Decimal(x.capacity) + " SPARSE \"disk\"",
      "",
      "# The Disk Data Base",
      "#DDB",
      "",
      "ddb.longContentID = \"" + Hex(x.random.0) + Hex(x.random.1) + Hex(x.random.2) + Hex(x.cid) + "\"",
      "ddb.virtualHWVersion = \"4\"",
      "ddb.geometry.cylinders = \"" + Decimal(Cylinders(x.capacity)) + "\"",
      "ddb.geometry.heads = \"255\"",
      "ddb.geometry.sectors = \"63\"" ]
    + (if x.sectorSize > 0 then
         [ "ddb.logicalSectorSize = \"" + SignedDecimal(x.sectorSize) + "\"",
           "ddb.physicalSectorSize = \"" + SignedDecimal(x.sectorSize) + "\"" ]
       else [])
    + [ "ddb.adapterType = \"lsilogic\"",
        "ddb.toolsInstallType = \"4\"",
        "ddb.toolsVersion = \"" + x.toolsVersion + "\"" ]
  }

  function Texts(ls: seq<Line>): (ts: seq<string>)
    ensures |ts| == |ls|
  {
    seq(|ls|, i requires 0 <= i < |ls| => Text(ls[i]))
  }

  lemma {:induction false} RenderJoins(ls: seq<Line>)
    ensures Render(ls) == Joined(Texts(ls))
  {
    if |ls| > 1 {
      assert Texts(ls)[1..] == Texts(ls[1..]);
      RenderJoins(ls[1..]);
    }
  }

  lemma SpacedText(key: string, value: string, front: string)
    requires front == key + " = \""
    ensures Text(Spaced(key, value)) == front + value + "\""
  {
  }

  lemma VersionText(x: Inputs)
    ensures Texts(Version(x)) ==
            [ "# Disk DescriptorFile", "version=1", "encoding=\"UTF-8\"", "CID=" + Hex(x.cid), "parentCID=ffffffff" ]
  {
    hide Hex;
    assert "#" + " Disk DescriptorFile" == "# Disk DescriptorFile";
    assert "version" + "=" + "1" == "version=1";
    assert "encoding" + "=\"" + "UTF-8" + "\"" == "encoding=\"UTF-8\"";
    assert "CID" + "=" + Hex(x.cid) == "CID=" + Hex(x.cid);
    assert "parentCID" + "=" + "ffffffff" == "parentCID=ffffffff";
  }

  lemma DescriptionText(x: Inputs)
    ensures Texts(Description(x)) ==
            [ "createType=\"streamOptimized\"", "", "# Extent description",
              "RW " + Decimal(x.capacity) + " SPARSE \"disk\"", "" ]
  {
    hide Decimal;
    assert "createType" + "=\"" + "streamOptimized" + "\"" == "createType=\"streamOptimized\"";
    assert "#" + " Extent description" == "# Extent description";
    var n := Decimal(x.capacity);
    assert "RW " + n + " SPARSE \"" + "disk" + "\"" == "RW " + n + " SPARSE \"disk\"";
  }

  lemma DataBaseText(x: Inputs)
    ensures Texts(DataBase(x)) ==
            [ "# The Disk Data Base", "#DDB", "",
              "ddb.longContentID = \"" + Hex(x.random.0) + Hex(x.random.1) + Hex(x.random.2) + Hex(x.cid) + "\"",
              "ddb.virtualHWVersion = \"4\"" ]
  {
    hide Hex;
    var id := Hex(x.random.0) + Hex(x.random.1) + Hex(x.random.2) + Hex(x.cid);
    assert "#" + " The Disk Data Base" == "# The Disk Data Base" && "#" + "DDB" == "#DDB";
    SpacedText("ddb.longContentID", id, "ddb.longContentID = \"");
    SpacedText("ddb.virtualHWVersion", "4", "ddb.virtualHWVersion = \"");
    assert "ddb.longContentID = \"" + id ==
           "ddb.longContentID = \"" + Hex(x.random.0) + Hex(x.random.1) + Hex(x.random.2) + Hex(x.cid);
    assert "ddb.virtualHWVersion = \"" + "4" + "\"" == "ddb.virtualHWVersion = \"4\"";
  }

  lemma ShapeText(x: Inputs)
    ensures Texts(Shape(x)) ==
            [ "ddb.geometry.cylinders = \"" + Decimal(Cylinders(x.capacity)) + "\"",
              "ddb.geometry.heads = \"255\"", "ddb.geometry.sectors = \"63\"" ]
  {
    hide Decimal, Cylinders;
    SpacedText("ddb.geometry.cylinders", Decimal(Cylinders(x.capacity)), "ddb.geometry.cylinders = \"");
    SpacedText("ddb.geometry.heads", "255", "ddb.geometry.heads = \"");
    SpacedText("ddb.geometry.sectors", "63", "ddb.geometry.sectors = \"");
    assert "ddb.geometry.heads = \"" + "255" + "\"" == "ddb.geometry.heads = \"255\"";
    assert "ddb.geometry.sectors = \"" + "63" + "\"" == "ddb.geometry.sectors = \"63\"";
  }

  lemma SectorSizesText(x: Inputs)
    ensures Texts(SectorSizes(x)) ==
            if x.sectorSize > 0 then
              [ "ddb.logicalSectorSize = \"" + SignedDecimal(x.sectorSize) + "\"",
                "ddb.physicalSectorSize = \"" + SignedDecimal(x.sectorSize) + "\"" ]
            else []
  {
    hide SignedDecimal;
    SpacedText("ddb.logicalSectorSize", SignedDecimal(x.sectorSize), "ddb.logicalSectorSize = \"");
    SpacedText("ddb.physicalSectorSize", SignedDecimal(x.sectorSize), "ddb.physicalSectorSize = \"");
  }

  lemma ToolsText(x: Inputs)
    ensures Texts(Tools(x)) ==
            [ "ddb.adapterType = \"lsilogic\"", "ddb.toolsInstallType = \"4\"",
              "ddb.toolsVersion = \"" + x.toolsVersion + "\"" ]
  {
    SpacedText("ddb.adapterType", "lsilogic", "ddb.adapterType = \"");
    SpacedText("ddb.toolsInstallType", "4", "ddb.toolsInstallType = \"");
    SpacedText("ddb.toolsVersion", x.toolsVersion, "ddb.toolsVersion = \"");
    assert "ddb.adapterType = \"" + "lsilogic" + "\"" == "ddb.adapterType = \"lsilogic\"";
    assert "ddb.toolsInstallType = \"" + "4" + "\"" == "ddb.toolsInstallType = \"4\"";
  }

  lemma TextsAppend(a: seq<Line>, b: seq<Line>)
    ensures Texts(a + b) == Texts(a) + Texts(b)
  {
  }

  lemma TemplateTexts(x: Inputs)
    ensures Template(x) == Texts(DescriptorLines(x))
  {
    hide Text, Texts, Version, Description, DataBase, Shape, SectorSizes, Tools, Hex, Decimal, SignedDecimal, Cylinders;
    VersionText(x);
    DescriptionText(x);
    DataBaseText(x);
    ShapeText(x);
    SectorSizesText(x);
    ToolsText(x);
    TextsAppend(Version(x), Description(x));
    TextsAppend(Version(x) + Description(x), DataBase(x));
    TextsAppend(Version(x) + Description(x) + DataBase(x), Shape(x));
    TextsAppend(Version(x) + Description(x) + DataBase(x) + Shape(x), SectorSizes(x));
    TextsAppend(Version(x) + Description(x) + DataBase(x) + Shape(x) + SectorSizes(x), Tools(x));
  }

  /** The printed descriptor is the template, line by line. */
  lemma PrintedText(x: Inputs)
    ensures Print(x) == Joined(Template(x))
  {
    hide Texts, Template, DescriptorLines, Joined, Render;
    TemplateTexts(x);
    RenderJoins(DescriptorLines(x));
  }

  /** The lines that describe extents. */
  function ExtentsOf(lines: seq<string>): seq<string> {
    if lines == [] then []
    else (if |lines[0]| >= 3 && lines[0][..3] == "RW " then [lines[0]] else []) + ExtentsOf(lines[1..])
  }

  lemma {:induction false} OneMatches(lines: seq<string>, k: nat)
    requires k < |lines| && |lines[k]| >= 3 && lines[k][..3] == "RW "
    requires forall i :: 0 <= i < |lines| && i != k ==> lines[i] == [] || lines[i][0] != 'R'
    ensures ExtentsOf(lines) == [lines[k]]
  {
    if k == 0 {
      NoneMatches(lines[1..]);
    } else {
      OneMatches(lines[1..], k - 1);
    }
  }

  lemma {:induction false} NoneMatches(lines: seq<string>)
    requires forall i :: 0 <= i < |lines| ==> lines[i] == [] || lines[i][0] != 'R'
    ensures ExtentsOf(lines) == []
  {
    if lines != [] { NoneMatches(lines[1..]); }
  }

  /** Splitting the text at its newlines drops the blank lines and keeps the others. */
  lemma {:induction false} LinesOfJoined(lines: seq<string>)
    requires forall i :: 0 <= i < |lines| ==> OneLine(lines[i])
    ensures ExtentsOf(Lines(Joined(lines))) == ExtentsOf(lines)
  {
    hide Lines, OneLine;
    LinesStep("");
    if lines != [] {
      LinesOfJoined(lines[1..]);
      LinesOf(lines[0], Joined(lines[1..]));
      assert lines[0] != [] ==> ([lines[0]] + Lines(Joined(lines[1..])))[1..] == Lines(Joined(lines[1..]));
      if |lines| == 1 {
        assert lines[1..] == [];
        assert lines[0] != [] ==> [lines[0]][1..] == [];
      } else if lines[0] == [] {
        assert [] + Lines(Joined(lines[1..])) == Lines(Joined(lines[1..]));
      }
    }
  }

  lemma TemplateLines(x: Inputs)
    requires OneLine(x.toolsVersion)
    ensures forall i :: 0 <= i < |Template(x)| ==> OneLine(Template(x)[i])
  {
    hide Template, OneLine, Text, LineOk, DescriptorLines;
    TemplateTexts(x);
    PrintedOk(x);
    forall i | 0 <= i < |Template(x)| ensures OneLine(Template(x)[i]) { LineParsed(DescriptorLines(x)[i]); }
  }

  lemma PrintedOk(x: Inputs)
    requires OneLine(x.toolsVersion)
    ensures forall i :: 0 <= i < |DescriptorLines(x)| ==> LineOk(DescriptorLines(x)[i])
  {
    hide LineOk, Version, Description, DataBase, Shape, SectorSizes, Tools;
    VersionOk(x); DescriptionOk(x); DataOk(x); ShapeOk(x); SectorSizesOk(x); ToolsOk(x);
  }

  lemma ExtentPlace(x: Inputs)
    ensures var ls, e := Template(x), "RW " + Decimal(x.capacity) + " SPARSE \"disk\"";
            && |ls| > 8 && ls[8] == e && |e| >= 3 && e[..3] == "RW "
            && forall i :: 0 <= i < |ls| && i != 8 ==> ls[i] == [] || ls[i][0] != 'R'
  {
    hide Hex, Decimal, SignedDecimal, Cylinders;
  }

  /** One line of the printed text, and only that one, describes the extent, and its number
      reads back as the capacity in sectors. */
  lemma OneExtent(x: Inputs)
    requires OneLine(x.toolsVersion)
    ensures ExtentsOf(Lines(Print(x))) == ["RW " + Decimal(x.capacity) + " SPARSE \"disk\""]
    ensures AllDigits(Decimal(x.capacity), 10) && Value(Decimal(x.capacity), 10) == x.capacity
  {
    hide Template, Decimal, Lines, OneLine, Joined, ExtentsOf;
    PrintedText(x);
    TemplateLines(x);
    LinesOfJoined(Template(x));
    DecimalMeans(x.capacity);
    ExtentPlace(x);
    OneMatches(Template(x), 8);
  }

  // ----- the JSON text -----

  /** The pairs as the members of an object, quotes inside left as they are. */
  lemma JsonText(ps: seq<Pair>, p: Pair)
    ensures Json([]) == "{}"
    ensures Json([p]) == "{\"" + p.key + "\": \"" + p.value + "\"}"
    ensures ps != [] ==>
              && |Json(ps)| > 0
              && Json(ps + [p]) == Json(ps)[..|Json(ps)| - 1] + ", \"" + p.key + "\": \"" + p.value + "\"}"
  {
    NextPair([], p);
    NextPair(ps, p);
    assert [] + [p] == [p];
    assert "" + "\"" + p.key + "\": \"" + p.value + "\"" == EntryText(true, p);
    assert Json([])[..1] == "{";
  }

  /** The buffer starts with 1,024 bytes and is doubled once when the text so far, key, value and
      ten more are longer; then everything, with a NUL, fits or not. */
  lemma BufferStep(ps: seq<Pair>, p: Pair)
    ensures CapacityAfter([]) == Some(1024)
    ensures CapacityAfter(ps).Some? ==>
              var cap := CapacityAfter(ps).value;
              var cap' := if |Json(ps)| + |p.key| + |p.value| + 10 > cap then 2 * cap else cap;
              CapacityAfter(ps + [p]) == if |Json(ps + [p])| + 1 > cap' then None else Some(cap')
    ensures CapacityAfter(ps).None? ==> CapacityAfter(ps + [p]).None?
  {
    hide Json;
    assert (ps + [p])[..|ps|] == ps;
  }

  // ----- what the parser takes away -----

  /** isspace: blank, tab, newline, vertical tab, form feed and carriage return. */
  predicate White(c: char) {
    c as int == 32 || 9 <= c as int <= 13
  }

  predicate AllWhite(s: string) {
    forall i :: 0 <= i < |s| ==> White(s[i])
  }

  predicate Solid(s: string) {
    s == [] || (!White(s[0]) && !White(s[|s| - 1]))
  }

  lemma {:induction false} LeftPadding(a: string, s: string)
    requires AllWhite(a) && (s == [] || !White(s[0]))
    ensures TrimLeft(a + s) == s
  {
    if a == [] {
      assert a + s == s;
    } else {
      assert IsSpace(a[0]);
      assert (a + s)[1..] == a[1..] + s;
      LeftPadding(a[1..], s);
    }
  }

  lemma {:induction false} RightPadding(s: string, a: string)
    requires AllWhite(a) && s != [] && !White(s[|s| - 1])
    ensures TrimRight(s + a) == s
  {
    if a == [] {
      assert s + a == s;
    } else {
      assert IsSpace((s + a)[|s + a| - 1]);
      assert (s + a)[..|s + a| - 1] == s + a[..|a| - 1];
      RightPadding(s, a[..|a| - 1]);
    }
  }

  lemma Trimmed(a: string, s: string, b: string)
    requires AllWhite(a) && AllWhite(b) && Solid(s)
    ensures TrimRight(TrimLeft(a + s + b)) == s
  {
    hide TrimLeft, TrimRight;
    if s == [] {
      assert a + s + b == (a + b) + [];
      LeftPadding(a + b, []);
      NoSpaceRight([]);
    } else {
      assert a + s + b == a + (s + b);
      LeftPadding(a, s + b);
      RightPadding(s, b);
    }
  }

  /** Around key and value exactly the six characters of isspace are taken away, whatever else
      is in the line, then one pair of quotes around the value. */
  lemma PaddedLine(a: string, key: string, b: string, c: string, value: string, d: string)
    requires AllWhite(a) && AllWhite(b) && AllWhite(c) && AllWhite(d) && Solid(key) && Solid(value)
    requires key != [] && (a + key)[0] != '#' && forall i :: 0 <= i < |key| ==> key[i] != '='
    ensures var line := a + key + b + "=" + c + value + d;
            && (value == [] || value[0] != '"' || value[|value| - 1] != '"' ==> EntryOf(line) == Some(Pair(key, value)))
            && (value == "\"" ==> EntryOf(line) == Some(Pair(key, "")))
            && (forall v :: value == "\"" + v + "\"" ==> EntryOf(line) == Some(Pair(key, v)))
  {
    hide TrimLeft, TrimRight, Unquote, EntryOf;
    var front, back := a + key + b, c + value + d;
    assert a + key + b + "=" + c + value + d == front + "=" + back;
    Trimmed(a, key, b);
    Trimmed(c, value, d);
    SplitLine(front, back, key, value);
    Unquoted(value);
  }

  lemma SplitLine(front: string, back: string, key: string, value: string)
    requires front != [] && front[0] != '#' && forall i :: 0 <= i < |front| ==> front[i] != '='
    requires TrimRight(TrimLeft(front)) == key != [] && TrimRight(TrimLeft(back)) == value
    ensures EntryOf(front + "=" + back) == Some(Pair(key, Unquote(value)))
  {
    hide TrimLeft, TrimRight, Unquote, Before;
    var line := front + "=" + back;
    BeforeFirst(front, '=', back);
    assert line == front + ['='] + back && line[..|front|] == front && line[|front| + 1..] == back;
  }

  lemma Unquoted(value: string)
    ensures value == [] || value[0] != '"' || value[|value| - 1] != '"' ==> Unquote(value) == value
    ensures value == "\"" ==> Unquote(value) == ""
    ensures forall v :: value == "\"" + v + "\"" ==> Unquote(value) == v
  {
    forall v | value == "\"" + v + "\"" ensures Unquote(value) == v {
      assert value[1..|value| - 1] == v;
    }
  }

  /** Comments, lines without an equals sign and lines without a key say nothing. */
  lemma SilentLine(line: string, a: string, rest: string)
    ensures EntryOf("#" + line) == None
    ensures (forall i :: 0 <= i < |line| ==> line[i] != '=') ==> EntryOf(line) == None
    ensures AllWhite(a) ==> EntryOf(a + "=" + rest) == None
  {
    if forall i :: 0 <= i < |line| ==> line[i] != '=' {
      BeforeFirst(line, '=', []);
    }
    if AllWhite(a) {
      BeforeFirst(a, '=', rest);
      assert a + "=" + rest == a + ['='] + rest;
      assert (a + "=" + rest)[..|a|] == a;
      LeftPadding(a, []);
      assert a + [] == a;
    }
  }
}
