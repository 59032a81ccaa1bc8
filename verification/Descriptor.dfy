// The descriptor text: the parser that turns it into key/value pairs, and the printer.

module Descriptor {
  import opened Bytes

  datatype Pair = Pair(key: string, value: string)

  predicate IsSpace(c: char) {
    c == ' ' || c == '\t' || c == '\n' || c == '\U{000B}' || c == '\U{000C}' || c == '\r'
  }

  // ----- lines -----

  /** Length of the part of `s` in front of the first `c`. */
  function Before(s: string, c: char): (n: nat)
    ensures n <= |s| && (n < |s| ==> s[n] == c) && forall i :: 0 <= i < n ==> s[i] != c
  {
    if s == [] || s[0] == c then 0 else 1 + Before(s[1..], c)
  }

  /** strtok_r with a newline as separator: the next line that is not empty, and what is
      behind it. */
  function NextToken(s: string): (r: Option<(string, string)>)
    ensures r.Some? ==> |r.value.0| > 0 && |r.value.1| < |s|
    decreases |s|
  {
    if s == [] then None
    else if s[0] == '\n' then NextToken(s[1..])
    else
      var n := Before(s, '\n');
      Some((s[..n], if n < |s| then s[n + 1..] else []))
  }

  function Lines(s: string): seq<string>
    decreases |s|
  {
    match NextToken(s)
    case None => []
    case Some((line, rest)) => [line] + Lines(rest)
  }

  // ----- one line -----

  function TrimLeft(s: string): (t: string)
    ensures |t| <= |s| && t == s[|s| - |t|..]
  {
    if s != [] && IsSpace(s[0]) then TrimLeft(s[1..]) else s
  }

  /** Trailing white space goes, except in the first position. */
  function TrimRight(s: string): (t: string)
    ensures |t| <= |s| && t == s[..|t|]
  {
    if |s| > 1 && IsSpace(s[|s| - 1]) then TrimRight(s[..|s| - 1]) else s
  }

  /** A value that starts and ends with a quote loses both; a single quote is its own end. */
  function Unquote(s: string): string {
    if |s| > 0 && s[0] == '"' && s[|s| - 1] == '"' then (if |s| == 1 then [] else s[1..|s| - 1]) else s
  }

  /** What a line contributes: nothing for a comment, a line without '=' or an empty key. */
  function EntryOf(line: string): Option<Pair> {
    var n := Before(line, '=');
    if line == [] || line[0] == '#' || n == |line| then None
    else
      var key := TrimRight(TrimLeft(line[..n]));
      var value := Unquote(TrimRight(TrimLeft(line[n + 1..])));
      if key == [] then None else Some(Pair(key, value))
  }

  function Entries(lines: seq<string>): seq<Pair> {
    if lines == [] then []
    else
      var front := Entries(lines[..|lines| - 1]);
      match EntryOf(lines[|lines| - 1])
      case None => front
      case Some(p) => front + [p]
  }

  function Pairs(s: string): seq<Pair> {
    Entries(Lines(s))
  }

  // The pointer loops of the parser.

  method SkipSpaces(s: string, start: nat) returns (i: nat)
    requires start <= |s|
    ensures start <= i <= |s| && s[i..] == TrimLeft(s[start..])
  {
    i := start;
    while i < |s| && IsSpace(s[i])
      invariant start <= i <= |s| && TrimLeft(s[i..]) == TrimLeft(s[start..])
    {
      assert s[i..][1..] == s[i + 1..];
      i := i + 1;
    }
  }

  method CutSpaces(s: string, from: nat) returns (end: nat)
    requires from <= |s|
    ensures from <= end <= |s| && s[from..end] == TrimRight(s[from..])
  {
    end := |s|;
    assert s[from..end] == s[from..];
    while end > from + 1 && IsSpace(s[end - 1])
      invariant from <= end <= |s| && TrimRight(s[from..end]) == TrimRight(s[from..])
    {
      assert s[from..end][..|s[from..end]| - 1] == s[from..end - 1];
      end := end - 1;
    }
  }

  /** strchr. */
  method FindChar(s: string, c: char) returns (i: nat)
    ensures i == Before(s, c)
  {
    i := 0;
    assert s[0..] == s;
    while i < |s| && s[i] != c
      invariant i <= |s| && Before(s, c) == i + Before(s[i..], c)
    {
      assert s[i..][1..] == s[i + 1..];
      i := i + 1;
    }
  }

  /** The text between leading and trailing white space. */
  method Trim(s: string) returns (t: string)
    ensures t == TrimRight(TrimLeft(s))
  {
    hide TrimLeft, TrimRight;
    var start := SkipSpaces(s, 0);
    assert s[0..] == s;
    var end := CutSpaces(s, start);
    t := s[start..end];
  }

  method ParseLine(line: string) returns (r: Option<Pair>)
    ensures r == EntryOf(line)
  {
    hide Before, TrimLeft, TrimRight;
    if line == [] || line[0] == '#' {
      return None;
    }
    var equals := FindChar(line, '=');
    if equals == |line| {
      return None;
    }
    var key := Trim(line[..equals]);
    var value := Trim(line[equals + 1..]);
    if |value| > 0 && value[0] == '"' && value[|value| - 1] == '"' {
      value := if |value| == 1 then [] else value[1..|value| - 1];
    }
    r := if key == [] then None else Some(Pair(key, value));
  }

  // ----- the result and its buffer -----

  function EntryText(first: bool, p: Pair): (t: string)
    ensures |t| == |p.key| + |p.value| + if first then 6 else 8
  {
    (if first then "" else ", ") + "\"" + p.key + "\": \"" + p.value + "\""
  }

  function Body(ps: seq<Pair>): string {
    if ps == [] then "" else Body(ps[..|ps| - 1]) + EntryText(|ps| == 1, ps[|ps| - 1])
  }

  function Json(ps: seq<Pair>): string {
    "{" + Body(ps) + "}"
  }

  const INITIAL_CAPACITY: nat := 1024

  function EntrySize(p: Pair): nat {
    |p.key| + |p.value| + 10
  }

  /** Size of the result buffer once `ps` have been added, growing by at most one doubling
      for each pair; None when a pair, with the terminating NUL, does not fit even so. */
  function CapacityAfter(ps: seq<Pair>): Option<nat> {
    if ps == [] then Some(INITIAL_CAPACITY)
    else
      var front, p := ps[..|ps| - 1], ps[|ps| - 1];
      match CapacityAfter(front)
      case None => None
      case Some(cap) =>
        var cap' := if |Json(front)| + EntrySize(p) > cap then 2 * cap else cap;
        if |Json(ps)| + 1 > cap' then None else Some(cap')
  }

  /** strcat at `at`: writes `s` and the NUL behind it. */
  method Append(result: array<char>, at: nat, s: string) returns (end: nat)
    requires at + |s| + 1 <= result.Length
    modifies result
    ensures end == at + |s| && result[..end] == old(result[..at]) + s && result[end] == '\0'
  {
    forall i | 0 <= i < |s| {
      result[at + i] := s[i];
    }
    end := at + |s|;
    result[end] := '\0';
  }

  method Grow(result: array<char>, size: nat) returns (bigger: array<char>)
    requires size <= result.Length
    ensures fresh(bigger) && bigger.Length == 2 * result.Length && bigger[..size] == result[..size]
  {
    bigger := new char[2 * result.Length](_ => '\0');
    forall i | 0 <= i < size {
      bigger[i] := result[i];
    }
  }

  /** The strcat calls for one pair. */
  method AppendPair(result: array<char>, start: nat, first: bool, p: Pair) returns (at: nat)
    requires start + |EntryText(first, p)| + 2 <= result.Length
    modifies result
    ensures at == start + |EntryText(first, p)| + 1
    ensures result[..at] == old(result[..start]) + EntryText(first, p) + "}" && result[at] == '\0'
  {
    hide EntryText;
    at := start;
    ghost var text := result[..start];
    if !first {
      at := Append(result, at, ", ");
    }
    text := text + if first then "" else ", ";
    assert result[..at] == text;
    at := Append(result, at, "\"");
    at := Append(result, at, p.key);
    at := Append(result, at, "\": \"");
    at := Append(result, at, p.value);
    at := Append(result, at, "\"");
    at := Append(result, at, "}");
    TextParts(old(result[..start]), first, p);
  }

  lemma TextParts(front: string, first: bool, p: Pair)
    ensures front + (if first then "" else ", ") + "\"" + p.key + "\": \"" + p.value + "\"" + "}"
            == front + EntryText(first, p) + "}"
  {
    var c := if first then "" else ", ";
    assert front + (c + "\"" + p.key + "\": \"" + p.value + "\"")
        == front + c + "\"" + p.key + "\": \"" + p.value + "\"";
  }

  /** Adds one pair in front of the closing brace; `fits` is false where the text would
      end behind the buffer. */
  method AddPair(result: array<char>, size: nat, first: bool, p: Pair)
    returns (buffer: array<char>, newSize: nat, fits: bool)
    requires 0 < size < result.Length
    modifies result
    ensures buffer == result || fresh(buffer)
    ensures buffer.Length == if size + EntrySize(p) > result.Length then 2 * result.Length else result.Length
    ensures newSize == size + |EntryText(first, p)| && (fits <==> newSize + 1 <= buffer.Length)
    ensures fits ==> buffer[..newSize] == old(result[..size - 1]) + EntryText(first, p) + "}" && buffer[newSize] == '\0'
  {
    hide EntryText, EntrySize;
    buffer := result;
    if size + EntrySize(p) > result.Length {
      buffer := Grow(result, size);
    }
    newSize := size + |EntryText(first, p)|;
    fits := newSize + 1 <= buffer.Length;
    if !fits {
      return;
    }
    ghost var front := buffer[..size][..size - 1];
    buffer[size - 1] := '\0';
    assert buffer[..size - 1] == front == old(result[..size - 1]);
    var at := AppendPair(buffer, size - 1, first, p);
    assert at == newSize;
  }

  /** parseDescriptorFile: the pairs in order, as long as the buffer holds them; None where
      the code would write behind it. */
  method ParseDescriptor(descriptor: string) returns (json: Option<string>)
    ensures json == if CapacityAfter(Pairs(descriptor)).Some? then Some(Json(Pairs(descriptor))) else None
  {
    hide Lines, NextToken, Entries, EntryOf, CapacityAfter, Json, EntryText, EntrySize;
    var result := new char[INITIAL_CAPACITY](_ => '\0');
    result[0], result[1] := '{', '}';
    var size := 2;
    var first := true;
    ghost var lines := [];
    ghost var ps: seq<Pair> := [];
    var rest := descriptor;
    NothingParsed();
    assert result[..size] == "{}";
    while true
      invariant fresh(result) && 2 <= size < result.Length
      invariant lines + Lines(rest) == Lines(descriptor) && ps == Entries(lines)
      invariant CapacityAfter(ps) == Some(result.Length) && first == (ps == [])
      invariant result[..size] == Json(ps)
      decreases |rest|
    {
      var token := NextToken(rest);
      LinesStep(rest);
      if token.None? {
        assert lines + [] == lines;
        break;
      }
      var line := token.value.0;
      rest := token.value.1;
      var p := ParseLine(line);
      NextLine(lines, line, p);
      assert lines + ([line] + Lines(rest)) == (lines + [line]) + Lines(rest);
      lines := lines + [line];
      if p.Some? {
        NextPair(ps, p.value);
        assert result[..size - 1] == result[..size][..size - 1];
        var fits;
        result, size, fits := AddPair(result, size, first, p.value);
        ps := ps + [p.value];
        first := false;
        if !fits {
          StaysFull(lines, Lines(rest));
          return None;
        }
      }
    }
    json := Some(result[..size]);
  }

  lemma NothingParsed()
    ensures Json([]) == "{}" && CapacityAfter([]) == Some(INITIAL_CAPACITY) && Entries([]) == []
  {
  }

  lemma LinesStep(s: string)
    ensures Lines(s) == match NextToken(s) case None => [] case Some((line, rest)) => [line] + Lines(rest)
  {
  }

  lemma NextLine(lines: seq<string>, line: string, p: Option<Pair>)
    requires p == EntryOf(line)
    ensures Entries(lines + [line]) == if p.Some? then Entries(lines) + [p.value] else Entries(lines)
  {
    assert (lines + [line])[..|lines|] == lines;
  }

  lemma NextPair(ps: seq<Pair>, p: Pair)
    ensures Json(ps + [p]) == Json(ps)[..|Json(ps)| - 1] + EntryText(ps == [], p) + "}"
    ensures CapacityAfter(ps).Some? ==>
              var cap := CapacityAfter(ps).value;
              var cap' := if |Json(ps)| + EntrySize(p) > cap then 2 * cap else cap;
              CapacityAfter(ps + [p]) == if |Json(ps)| + |EntryText(ps == [], p)| + 1 > cap' then None else Some(cap')
  {
    assert (ps + [p])[..|ps|] == ps;
    assert Json(ps)[..|Json(ps)| - 1] == "{" + Body(ps);
  }

  lemma {:induction false} StaysFull(lines: seq<string>, more: seq<string>)
    requires CapacityAfter(Entries(lines)).None?
    ensures CapacityAfter(Entries(lines + more)).None?
  {
    hide CapacityAfter, Entries, EntryOf;
    if more == [] {
      assert lines + more == lines;
    } else {
      var n := |more| - 1;
      StaysFull(lines, more[..n]);
      assert lines + more == (lines + more[..n]) + [more[n]];
      NextLine(lines + more[..n], more[n], EntryOf(more[n]));
      if EntryOf(more[n]).Some? {
        FullWithPair(Entries(lines + more[..n]), EntryOf(more[n]).value);
      }
    }
  }

  lemma FullWithPair(ps: seq<Pair>, p: Pair)
    requires CapacityAfter(ps).None?
    ensures CapacityAfter(ps + [p]).None?
  {
    hide Json, EntrySize;
    assert (ps + [p])[..|ps|] == ps;
  }

  // ----- when the buffer is enough -----

  lemma {:induction false} JsonFits(ps: seq<Pair>)
    ensures CapacityAfter(ps).Some? ==> |Json(ps)| + 1 <= CapacityAfter(ps).value
    ensures CapacityAfter(ps).Some? ==> INITIAL_CAPACITY <= CapacityAfter(ps).value
  {
    if ps == [] {
      NothingParsed();
    } else {
      JsonFits(ps[..|ps| - 1]);
    }
  }

  /** A pair does not fit exactly when its text, its NUL and everything before it are longer
      than twice the buffer. */
  lemma OverrunIff(ps: seq<Pair>, p: Pair)
    requires CapacityAfter(ps).Some?
    ensures CapacityAfter(ps + [p]).None? <==>
            |Json(ps)| + |p.key| + |p.value| + (if ps == [] then 7 else 9) > 2 * CapacityAfter(ps).value
  {
    hide CapacityAfter, Json, EntryText;
    NextPair(ps, p);
    JsonFits(ps);
  }

  /** The buffer that pair `i` meets, if it is reached, is at least half as large as what the
      pair makes of the text. */
  predicate Room(ps: seq<Pair>, i: nat)
    requires i < |ps|
  {
    match CapacityAfter(ps[..i])
    case None => true
    case Some(cap) => |Json(ps[..i + 1])| + 1 <= 2 * cap
  }

  lemma RoomOf(ps: seq<Pair>, n: nat, i: nat)
    requires i < n <= |ps|
    ensures Room(ps[..n], i) == Room(ps, i)
  {
    hide CapacityAfter, Json;
    assert ps[..n][..i] == ps[..i] && ps[..n][..i + 1] == ps[..i + 1];
  }

  /** So the buffer is enough for a sequence of pairs exactly when each of them has room. */
  lemma {:induction false} FitsIff(ps: seq<Pair>)
    ensures CapacityAfter(ps).Some? <==> forall i :: 0 <= i < |ps| ==> Room(ps, i)
  {
    hide Json, EntryText, CapacityAfter, Room;
    if ps == [] {
      NothingParsed();
    } else {
      var n := |ps| - 1;
      forall i | 0 <= i < n ensures Room(ps[..n], i) == Room(ps, i) {
        RoomOf(ps, n, i);
      }
      FitsIff(ps[..n]);
      LastRoom(ps);
    }
  }

  lemma LastRoom(ps: seq<Pair>)
    requires ps != []
    ensures var n := |ps| - 1;
            CapacityAfter(ps).Some? <==> CapacityAfter(ps[..n]).Some? && Room(ps, n)
  {
    hide Json, EntryText, CapacityAfter;
    var n := |ps| - 1;
    assert ps[..n] + [ps[n]] == ps && ps[..n + 1] == ps;
    if CapacityAfter(ps[..n]).Some? {
      OverrunIff(ps[..n], ps[n]);
      NextLength(ps[..n], ps[n]);
    } else {
      StaysNone(ps[..n], ps[n]);
    }
  }

  lemma NextLength(ps: seq<Pair>, p: Pair)
    ensures |Json(ps + [p])| == |Json(ps)| + |p.key| + |p.value| + if ps == [] then 6 else 8
  {
    hide Json, CapacityAfter;
    NextPair(ps, p);
    JsonNotEmpty(ps);
  }

  lemma JsonNotEmpty(ps: seq<Pair>)
    ensures |Json(ps)| >= 2
  {
  }

  lemma StaysNone(ps: seq<Pair>, p: Pair)
    requires CapacityAfter(ps).None?
    ensures CapacityAfter(ps + [p]).None?
  {
    assert (ps + [p])[..|ps|] == ps;
  }

  /** One doubling is enough as long as each entry is no larger than the buffer it meets. */
  lemma {:induction false} SmallEntriesFit(ps: seq<Pair>)
    requires forall i :: 0 <= i < |ps| && CapacityAfter(ps[..i]).Some? ==>
               EntrySize(ps[i]) <= CapacityAfter(ps[..i]).value
    ensures CapacityAfter(ps).Some?
  {
    hide Json, EntryText, CapacityAfter;
    if ps == [] {
      NothingParsed();
    } else {
      var n := |ps| - 1;
      var front := ps[..n];
      forall i | 0 <= i < n ensures front[..i] == ps[..i] {
      }
      SmallEntriesFit(front);
      OverrunIff(front, ps[n]);
      JsonFits(front);
      assert front + [ps[n]] == ps;
    }
  }

  /** As long as the text stays well inside the first buffer, that buffer is kept. */
  lemma {:induction false} FirstBufferKept(ps: seq<Pair>)
    requires |Json(ps)| + 4 <= INITIAL_CAPACITY
    ensures CapacityAfter(ps) == Some(INITIAL_CAPACITY)
  {
    hide Json, EntryText, CapacityAfter;
    if ps == [] {
      NothingParsed();
    } else {
      var n := |ps| - 1;
      assert ps[..n] + [ps[n]] == ps;
      NextLength(ps[..n], ps[n]);
      FirstBufferKept(ps[..n]);
      NextPair(ps[..n], ps[n]);
    }
  }

  /** When only the last pair can be long, two first buffers are what there is. */
  lemma LastPairIff(ps: seq<Pair>, p: Pair)
    requires |Json(ps)| + 4 <= INITIAL_CAPACITY
    ensures CapacityAfter(ps + [p]).Some? <==> |Json(ps + [p])| + 1 <= 2 * INITIAL_CAPACITY
  {
    hide Json, EntryText, CapacityAfter;
    FirstBufferKept(ps);
    OverrunIff(ps, p);
    NextLength(ps, p);
  }

  /** A pair of more than 2,041 characters does not fit into the first buffer doubled. */
  lemma LongEntryOverruns(p: Pair)
    requires |p.key| + |p.value| > 2041
    ensures CapacityAfter([p]).None?
  {
    OverrunIff([], p);
    NothingParsed();
    assert [] + [p] == [p];
  }

  // ----- the printer -----

  function Digit(d: nat): char
    requires d < 16
  {
    "0123456789abcdef"[d]
  }

  /** %u and %llu. */
  function Decimal(n: nat): (s: string)
    ensures |s| > 0
  {
    if n < 10 then [Digit(n)] else Decimal(n / 10) + [Digit(n % 10)]
  }

  /** %d of a 32-bit word. */
  function SignedDecimal(n: nat): string {
    if n % U32 < 0x8000_0000 then Decimal(n % U32) else "-" + Decimal(U32 - n % U32)
  }

  function HexDigits(n: nat, width: nat): (s: string)
    ensures |s| == width
  {
    if width == 0 then [] else HexDigits(n / 16, width - 1) + [Digit(n % 16)]
  }

  /** %08x of a 32-bit word. */
  function Hex(n: nat): (s: string)
    ensures |s| == 8
  {
    HexDigits(n, 8)
  }

  datatype Line =
    | Comment(text: string)
    | Blank
    | Extent(sectors: nat, file: string)
    | Plain(key: string, value: string)
    | Quoted(key: string, value: string)
    | Spaced(key: string, value: string)

  function Text(l: Line): string {
    match l
    case Comment(text) => "#" + text
    case Blank => ""
    case Extent(sectors, file) => "RW " + Decimal(sectors) + " SPARSE \"" + file + "\""
    case Plain(key, value) => key + "=" + value
    case Quoted(key, value) => key + "=\"" + value + "\""
    case Spaced(key, value) => key + " = \"" + value + "\""
  }

  /** The random content id words and the capacity in sectors are inputs. */
  datatype Inputs = Inputs(capacity: nat, sectorSize: nat, cid: nat, random: (nat, nat, nat), toolsVersion: string)

  function Cylinders(capacity: nat): nat {
    if capacity > 65535 * 255 * 63 then 65535 else CeilDiv(capacity, 255 * 63)
  }

  function Version(x: Inputs): seq<Line> {
    [ Comment(" Disk DescriptorFile"),
      Plain("version", "1"),
      Quoted("encoding", "UTF-8"),
      Plain("CID", Hex(x.cid)),
      Plain("parentCID", "ffffffff") ]
  }

  function Description(x: Inputs): seq<Line> {
    [ Quoted("createType", "streamOptimized"),
      Blank,
      Comment(" Extent description"),
      Extent(x.capacity, "disk"),
      Blank ]
  }

  function DataBase(x: Inputs): seq<Line> {
    [ Comment(" The Disk Data Base"),
      Comment("DDB"),
      Blank,
      Spaced("ddb.longContentID", Hex(x.random.0) + Hex(x.random.1) + Hex(x.random.2) + Hex(x.cid)),
      Spaced("ddb.virtualHWVersion", "4") ]
  }

  function Shape(x: Inputs): seq<Line> {
    [ Spaced("ddb.geometry.cylinders", Decimal(Cylinders(x.capacity))),
      Spaced("ddb.geometry.heads", "255"),
      Spaced("ddb.geometry.sectors", "63") ]
  }

  function SectorSizes(x: Inputs): seq<Line> {
    if x.sectorSize > 0 then
      [ Spaced("ddb.logicalSectorSize", SignedDecimal(x.sectorSize)),
        Spaced("ddb.physicalSectorSize", SignedDecimal(x.sectorSize)) ]
    else []
  }

  function Tools(x: Inputs): seq<Line> {
    [ Spaced("ddb.adapterType", "lsilogic"),
      Spaced("ddb.toolsInstallType", "4"),
      Spaced("ddb.toolsVersion", x.toolsVersion) ]
  }

  function DescriptorLines(x: Inputs): seq<Line> {
    Version(x) + Description(x) + DataBase(x) + Shape(x) + SectorSizes(x) + Tools(x)
  }

  /** The lines, with newlines between them. */
  function Render(ls: seq<Line>): string {
    if ls == [] then ""
    else if |ls| == 1 then Text(ls[0])
    else Text(ls[0]) + "\n" + Render(ls[1..])
  }

  /** makeDiskDescriptorFile. */
  function Print(x: Inputs): string {
    Render(DescriptorLines(x))
  }

  /** The pairs that the lines state, quotes stripped. */
  function PairsOf(ls: seq<Line>): seq<Pair> {
    if ls == [] then [] else PairsIn(ls[0]) + PairsOf(ls[1..])
  }

  function PairsIn(l: Line): seq<Pair> {
    if l.Plain? || l.Quoted? || l.Spaced? then [Pair(l.key, l.value)] else []
  }

  // ----- parsing what was printed -----

  predicate KeyOk(k: string) {
    |k| > 0 && k[0] != '#' && forall i :: 0 <= i < |k| ==> IsText(k[i]) && k[i] != '=' && !IsSpace(k[i])
  }

  /** ASCII, and neither NUL nor newline. */
  predicate IsText(c: char) {
    0 < c as int < 128 && c != '\n'
  }

  predicate OneLine(s: string) {
    forall i :: 0 <= i < |s| ==> IsText(s[i])
  }

  /** Neither white space nor quotes, so that an unquoted value survives the parser. */
  predicate Word(s: string) {
    forall i :: 0 <= i < |s| ==> IsText(s[i]) && !IsSpace(s[i]) && s[i] != '"'
  }

  predicate NoEquals(s: string) {
    forall i :: 0 <= i < |s| ==> s[i] != '='
  }

  predicate LineOk(l: Line) {
    match l
    case Comment(text) => OneLine(text)
    case Blank => true
    case Extent(_, file) => OneLine(file) && NoEquals(file)
    case Plain(key, value) => KeyOk(key) && Word(value)
    case Quoted(key, value) => KeyOk(key) && OneLine(value)
    case Spaced(key, value) => KeyOk(key) && OneLine(value)
  }

  lemma {:induction false} BeforeFirst(a: string, c: char, b: string)
    requires forall i :: 0 <= i < |a| ==> a[i] != c
    ensures Before(a + [c] + b, c) == |a| && Before(a, c) == |a|
  {
    if a != [] {
      BeforeFirst(a[1..], c, b);
      assert (a + [c] + b)[1..] == a[1..] + [c] + b;
    }
  }

  lemma {:induction false} DecimalDigits(n: nat)
    ensures forall i :: 0 <= i < |Decimal(n)| ==> '0' <= Decimal(n)[i] <= '9'
  {
    if n >= 10 {
      DecimalDigits(n / 10);
    }
  }

  lemma {:induction false} HexIsWord(n: nat, width: nat)
    ensures forall i :: 0 <= i < width ==> '0' <= HexDigits(n, width)[i] <= 'f'
  {
    if width > 0 {
      HexIsWord(n / 16, width - 1);
    }
  }

  lemma NoSpaceLeft(s: string)
    requires s == [] || !IsSpace(s[0])
    ensures TrimLeft(s) == s
  {
  }

  lemma NoSpaceRight(s: string)
    requires s == [] || !IsSpace(s[|s| - 1])
    ensures TrimRight(s) == s
  {
  }

  /** A key, with or without one space behind it. */
  lemma KeyKept(k: string)
    requires KeyOk(k)
    ensures TrimRight(TrimLeft(k)) == k && TrimRight(TrimLeft(k + " ")) == k
  {
    NoSpaceLeft(k);
    NoSpaceLeft(k + " ");
    assert (k + " ")[..|k|] == k;
  }

  /** A quoted value, with or without one space in front of it. */
  lemma QuotedKept(v: string)
    ensures Unquote(TrimRight(TrimLeft("\"" + v + "\""))) == v
    ensures Unquote(TrimRight(TrimLeft(" \"" + v + "\""))) == v
  {
    var q := "\"" + v + "\"";
    NoSpaceLeft(q);
    NoSpaceRight(q);
    assert (" \"" + v + "\"")[1..] == q;
    assert q[1..|q| - 1] == v;
  }

  lemma SettingParsed(k: string, v: string, sep: string, quoted: string)
    requires KeyOk(k) && (sep == "" || sep == " ")
    requires Unquote(TrimRight(TrimLeft(quoted))) == v
    ensures EntryOf(k + sep + "=" + quoted) == Some(Pair(k, v))
  {
    hide Before, TrimLeft, TrimRight, Unquote, KeyOk;
    KeyInLine(k, sep, quoted);
    KeyKept(k);
    assert k + "" == k;
  }

  lemma KeyInLine(k: string, sep: string, quoted: string)
    requires KeyOk(k) && (sep == "" || sep == " ")
    ensures var line, front := k + sep + "=" + quoted, k + sep;
            && line != [] && line[0] != '#' && k != [] && Before(line, '=') == |front| < |line|
            && line[..|front|] == front && line[|front| + 1..] == quoted
  {
    hide Before;
    var line, front := k + sep + "=" + quoted, k + sep;
    assert line == front + ['='] + quoted;
    BeforeFirst(front, '=', quoted);
  }

  /** Each printed line parses to the pair it states, or to nothing. */
  lemma LineParsed(l: Line)
    requires LineOk(l)
    ensures OneLine(Text(l)) && (Text(l) == [] <==> l == Blank)
    ensures l != Blank ==> PairsIn(l) == match EntryOf(Text(l)) case None => [] case Some(p) => [p]
  {
    hide TrimLeft, TrimRight, Unquote, Before, Decimal, EntryOf, KeyOk;
    match l
    case Comment(text) => CommentParsed(text);
    case Blank =>
    case Extent(sectors, file) => ExtentParsed(sectors, file);
    case Plain(key, value) =>
      WordKept(value);
      SettingText(key, "", value);
      SettingParsed(key, value, "", value);
    case Quoted(key, value) =>
      QuotedKept(value);
      SettingText(key, "", "\"" + value + "\"");
      SettingParsed(key, value, "", "\"" + value + "\"");
    case Spaced(key, value) =>
      QuotedKept(value);
      SettingText(key, " ", " \"" + value + "\"");
      SettingParsed(key, value, " ", " \"" + value + "\"");
  }

  lemma SettingText(k: string, sep: string, quoted: string)
    requires KeyOk(k) && (sep == "" || sep == " ") && OneLine(quoted)
    ensures OneLine(k + sep + "=" + quoted) && k + "" == k
    ensures forall v :: quoted == " \"" + v + "\"" && sep == " " ==> k + sep + "=" + quoted == Text(Spaced(k, v))
    ensures forall v :: quoted == "\"" + v + "\"" && sep == "" ==> k + sep + "=" + quoted == Text(Quoted(k, v))
  {
    forall v | quoted == " \"" + v + "\"" && sep == " " ensures k + sep + "=" + quoted == Text(Spaced(k, v)) {
      assert k + " " + "=" + (" \"" + v + "\"") == k + " = \"" + v + "\"";
    }
    forall v | quoted == "\"" + v + "\"" && sep == "" ensures k + sep + "=" + quoted == Text(Quoted(k, v)) {
      assert k + "" + "=" + ("\"" + v + "\"") == k + "=\"" + v + "\"";
    }
  }

  lemma CommentParsed(text: string)
    ensures EntryOf("#" + text) == None
  {
  }

  lemma ExtentParsed(sectors: nat, file: string)
    requires OneLine(file) && NoEquals(file)
    ensures var t := Text(Extent(sectors, file)); OneLine(t) && t != [] && EntryOf(t) == None
  {
    hide Decimal, TrimLeft, TrimRight, Unquote;
    DecimalDigits(sectors);
    var t := Text(Extent(sectors, file));
    assert NoEquals(t);
    BeforeFirst(t, '=', []);
  }

  lemma WordKept(v: string)
    requires Word(v)
    ensures Unquote(TrimRight(TrimLeft(v))) == v
  {
    NoSpaceLeft(v);
    NoSpaceRight(v);
  }

  lemma TokenOf(line: string, rest: string)
    requires OneLine(line) && line != []
    ensures NextToken(line) == Some((line, [])) && NextToken(line + "\n" + rest) == Some((line, rest))
  {
    BeforeFirst(line, '\n', rest);
    assert line + "\n" + rest == line + ['\n'] + rest;
    assert (line + "\n" + rest)[..|line|] == line && (line + "\n" + rest)[|line| + 1..] == rest;
    assert line[..|line|] == line;
  }

  lemma LinesOf(line: string, rest: string)
    requires OneLine(line)
    ensures Lines(line) == if line == [] then [] else [line]
    ensures Lines(line + "\n" + rest) == (if line == [] then [] else [line]) + Lines(rest)
  {
    if line == [] {
      assert (line + "\n" + rest)[0] == '\n' && (line + "\n" + rest)[1..] == rest;
      assert NextToken(line + "\n" + rest) == NextToken(rest);
    } else {
      TokenOf(line, rest);
      assert Lines([]) == [];
    }
  }

  lemma {:induction false} EntriesFrom(line: string, rest: seq<string>)
    ensures Entries([line] + rest) == (match EntryOf(line) case None => [] case Some(p) => [p]) + Entries(rest)
  {
    hide EntryOf;
    if rest == [] {
      assert [line] + rest == [line];
      assert [line][..0] == [];
    } else {
      var n := |rest| - 1;
      EntriesFrom(line, rest[..n]);
      assert ([line] + rest)[..n + 1] == [line] + rest[..n];
    }
  }

  lemma RenderStep(l: Line, rest: seq<Line>)
    requires LineOk(l)
    ensures Pairs(Render([l] + rest)) == PairsIn(l) + Pairs(Render(rest))
  {
    hide EntryOf, Text, Lines, LineOk, Entries;
    LineParsed(l);
    LinesStep("");
    NothingParsed();
    LinesOf(Text(l), Render(rest));
    var after := if rest == [] then [] else Lines(Render(rest));
    EntriesFrom(Text(l), after);
    assert [Text(l)] + [] == [Text(l)];
    assert [] + after == after;
    assert ([l] + rest)[1..] == rest;
    assert Lines(Render(rest)) == after;
  }

  /** Parsing printed lines gives exactly the pairs they state, in order. */
  lemma {:induction false} RenderParsed(ls: seq<Line>)
    requires forall i :: 0 <= i < |ls| ==> LineOk(ls[i])
    ensures Pairs(Render(ls)) == PairsOf(ls)
  {
    hide EntryOf, Text, Lines, LineOk, Entries, PairsIn;
    if ls == [] {
      LinesStep("");
      NothingParsed();
    } else {
      RenderParsed(ls[1..]);
      RenderStep(ls[0], ls[1..]);
      assert [ls[0]] + ls[1..] == ls;
    }
  }

  // ----- the printed descriptor -----

  lemma {:induction false} PairsAppend(a: seq<Line>, b: seq<Line>)
    ensures PairsOf(a + b) == PairsOf(a) + PairsOf(b)
  {
    hide PairsIn;
    if a == [] {
      assert a + b == b;
    } else {
      var first := PairsIn(a[0]);
      assert (a + b)[0] == a[0] && (a + b)[1..] == a[1..] + b;
      PairsAppend(a[1..], b);
      assert first + (PairsOf(a[1..]) + PairsOf(b)) == first + PairsOf(a[1..]) + PairsOf(b);
    }
  }

  // The pairs that a printed descriptor holds.

  function VersionPairs(x: Inputs): seq<Pair> {
    [Pair("version", "1"), Pair("encoding", "UTF-8"), Pair("CID", Hex(x.cid)), Pair("parentCID", "ffffffff")]
  }

  function DataPairs(x: Inputs): seq<Pair> {
    [ Pair("ddb.longContentID", Hex(x.random.0) + Hex(x.random.1) + Hex(x.random.2) + Hex(x.cid)),
      Pair("ddb.virtualHWVersion", "4") ]
  }

  function ShapePairs(x: Inputs): seq<Pair> {
    [ Pair("ddb.geometry.cylinders", Decimal(Cylinders(x.capacity))),
      Pair("ddb.geometry.heads", "255"),
      Pair("ddb.geometry.sectors", "63") ]
  }

  function SectorPairs(x: Inputs): seq<Pair> {
    if x.sectorSize > 0 then
      [ Pair("ddb.logicalSectorSize", SignedDecimal(x.sectorSize)),
        Pair("ddb.physicalSectorSize", SignedDecimal(x.sectorSize)) ]
    else []
  }

  function ToolsPairs(x: Inputs): seq<Pair> {
    [Pair("ddb.adapterType", "lsilogic"), Pair("ddb.toolsInstallType", "4"), Pair("ddb.toolsVersion", x.toolsVersion)]
  }

  function Expected(x: Inputs): seq<Pair> {
    VersionPairs(x) + [Pair("createType", "streamOptimized")] + DataPairs(x)
    + ShapePairs(x) + SectorPairs(x) + ToolsPairs(x)
  }

  lemma PairsFrom(l: Line, ls: seq<Line>)
    ensures PairsOf([l] + ls) == PairsIn(l) + PairsOf(ls)
  {
    assert ([l] + ls)[1..] == ls;
  }

  lemma PairsOfThree(a: Line, b: Line, c: Line)
    ensures PairsOf([a, b, c]) == PairsIn(a) + PairsIn(b) + PairsIn(c)
    ensures PairsOf([a, b]) == PairsIn(a) + PairsIn(b)
  {
    PairsFrom(c, []);
    PairsFrom(b, [c]);
    PairsFrom(b, []);
    PairsFrom(a, [b, c]);
    PairsFrom(a, [b]);
    assert [a] + [b, c] == [a, b, c] && [b] + [c] == [b, c] && [c] + [] == [c];
    assert [a] + [b] == [a, b] && [b] + [] == [b];
  }

  lemma PairsOfFive(a: Line, b: Line, c: Line, d: Line, e: Line)
    ensures PairsOf([a, b, c, d, e]) == PairsIn(a) + PairsIn(b) + PairsIn(c) + PairsIn(d) + PairsIn(e)
  {
    PairsOfThree(a, b, c);
    PairsOfThree(d, e, e);
    PairsAppend([a, b, c], [d, e]);
    assert [a, b, c] + [d, e] == [a, b, c, d, e];
  }

  lemma VersionStated(x: Inputs)
    ensures PairsOf(Version(x)) == VersionPairs(x)
  {
    hide PairsOf, Hex;
    var l := Version(x);
    PairsOfFive(l[0], l[1], l[2], l[3], l[4]);
    assert l == [l[0], l[1], l[2], l[3], l[4]];
  }

  lemma DescriptionStated(x: Inputs)
    ensures PairsOf(Description(x)) == [Pair("createType", "streamOptimized")]
  {
    hide PairsOf, Decimal;
    var l := Description(x);
    PairsOfFive(l[0], l[1], l[2], l[3], l[4]);
    assert l == [l[0], l[1], l[2], l[3], l[4]];
  }

  lemma DataStated(x: Inputs)
    ensures PairsOf(DataBase(x)) == DataPairs(x)
  {
    hide PairsOf, Hex;
    var l := DataBase(x);
    PairsOfFive(l[0], l[1], l[2], l[3], l[4]);
    assert l == [l[0], l[1], l[2], l[3], l[4]];
  }

  lemma ThreeStated(x: Inputs)
    ensures PairsOf(Shape(x)) == ShapePairs(x) && PairsOf(Tools(x)) == ToolsPairs(x)
  {
    hide PairsOf, Decimal, Cylinders;
    var l, m := Shape(x), Tools(x);
    PairsOfThree(l[0], l[1], l[2]);
    assert l == [l[0], l[1], l[2]];
    PairsOfThree(m[0], m[1], m[2]);
    assert m == [m[0], m[1], m[2]];
  }

  lemma SectorsStated(x: Inputs)
    ensures PairsOf(SectorSizes(x)) == SectorPairs(x)
  {
    hide Decimal, SignedDecimal;
    var l := SectorSizes(x);
    if x.sectorSize > 0 {
      PairsOfThree(l[0], l[1], l[1]);
      assert l == [l[0], l[1]];
    }
  }

  lemma LinesStated(x: Inputs)
    ensures PairsOf(DescriptorLines(x)) == Expected(x)
  {
    hide PairsOf, Version, Description, DataBase, Shape, SectorSizes, Tools, VersionPairs, DataPairs, ShapePairs,
      SectorPairs, ToolsPairs;
    VersionStated(x);
    DescriptionStated(x);
    DataStated(x);
    ThreeStated(x);
    SectorsStated(x);
    PairsAppend(Version(x), Description(x));
    PairsAppend(Version(x) + Description(x), DataBase(x));
    PairsAppend(Version(x) + Description(x) + DataBase(x), Shape(x));
    PairsAppend(Version(x) + Description(x) + DataBase(x) + Shape(x), SectorSizes(x));
    PairsAppend(Version(x) + Description(x) + DataBase(x) + Shape(x) + SectorSizes(x), Tools(x));
  }

  predicate AllOk(ls: seq<Line>) {
    forall i :: 0 <= i < |ls| ==> LineOk(ls[i])
  }

  /** Printed numbers are single words. */
  lemma NumbersAreWords(n: nat)
    ensures Word(Decimal(n)) && Word(Hex(n)) && Word(SignedDecimal(n))
    ensures OneLine(Decimal(n)) && OneLine(Hex(n)) && OneLine(SignedDecimal(n))
  {
    hide Decimal;
    DecimalDigits(n);
    DecimalDigits(n % U32);
    DecimalDigits(U32 - n % U32);
    HexIsWord(n, 8);
  }

  lemma VersionOk(x: Inputs)
    ensures AllOk(Version(x))
  {
    hide Hex, KeyOk;
    VersionKeys();
    NumbersAreWords(x.cid);
  }

  lemma VersionKeys()
    ensures KeyOk("version") && KeyOk("encoding") && KeyOk("CID") && KeyOk("parentCID")
  {
  }

  lemma DescriptionOk(x: Inputs)
    ensures AllOk(Description(x))
  {
    hide Decimal;
  }

  lemma DataKeys()
    ensures KeyOk("ddb.longContentID") && KeyOk("ddb.virtualHWVersion")
    ensures OneLine("4") && OneLine("DDB") && OneLine(" The Disk Data Base")
  {
  }

  lemma ShapeKeys()
    ensures KeyOk("ddb.geometry.cylinders") && KeyOk("ddb.geometry.heads") && KeyOk("ddb.geometry.sectors")
  {
  }

  lemma SectorKeys()
    ensures KeyOk("ddb.logicalSectorSize") && KeyOk("ddb.physicalSectorSize")
  {
  }

  lemma ToolsKeys()
    ensures KeyOk("ddb.adapterType") && KeyOk("ddb.toolsInstallType") && KeyOk("ddb.toolsVersion")
  {
  }

  lemma DataOk(x: Inputs)
    ensures AllOk(DataBase(x))
  {
    hide Hex, KeyOk, Word, OneLine;
    DataKeys();
    NumbersAreWords(x.cid);
    NumbersAreWords(x.random.0);
    NumbersAreWords(x.random.1);
    NumbersAreWords(x.random.2);
    OneLineAppend(Hex(x.random.0), Hex(x.random.1));
    OneLineAppend(Hex(x.random.0) + Hex(x.random.1), Hex(x.random.2));
    OneLineAppend(Hex(x.random.0) + Hex(x.random.1) + Hex(x.random.2), Hex(x.cid));
  }

  lemma OneLineAppend(a: string, b: string)
    requires OneLine(a) && OneLine(b)
    ensures OneLine(a + b)
  {
  }

  lemma ShapeOk(x: Inputs)
    ensures AllOk(Shape(x))
  {
    hide Decimal, Cylinders, KeyOk;
    ShapeKeys();
    NumbersAreWords(Cylinders(x.capacity));
  }

  lemma SectorSizesOk(x: Inputs)
    ensures AllOk(SectorSizes(x))
  {
    hide SignedDecimal, KeyOk, OneLine;
    SectorKeys();
    NumbersAreWords(x.sectorSize);
  }

  lemma ToolsOk(x: Inputs)
    requires OneLine(x.toolsVersion)
    ensures AllOk(Tools(x))
  {
    hide KeyOk;
    ToolsKeys();
  }

  /** The round trip: parsing a printed descriptor yields exactly its key/value pairs, in
      order, with the quotes stripped, for every capacity, content id and tools version. */
  lemma PrintedParses(x: Inputs)
    requires OneLine(x.toolsVersion)
    ensures Pairs(Print(x)) == Expected(x)
  {
    hide LineOk, Pairs, Render, Expected, Version, Description, DataBase, Shape, SectorSizes, Tools, OneLine;
    VersionOk(x);
    DescriptionOk(x);
    DataOk(x);
    ShapeOk(x);
    SectorSizesOk(x);
    ToolsOk(x);
    LinesStated(x);
    RenderParsed(DescriptorLines(x));
  }

  predicate HasKey(ps: seq<Pair>, key: string) {
    exists i :: 0 <= i < |ps| && ps[i].key == key
  }

  /** The sector-size entries are there exactly when a sector size was given. */
  lemma SectorSizeIff(x: Inputs)
    requires OneLine(x.toolsVersion)
    ensures HasKey(Pairs(Print(x)), "ddb.logicalSectorSize") <==> x.sectorSize > 0
    ensures HasKey(Pairs(Print(x)), "ddb.physicalSectorSize") <==> x.sectorSize > 0
  {
    hide Pairs, Print, OneLine, Hex, Decimal, SignedDecimal, Cylinders;
    PrintedParses(x);
    if x.sectorSize > 0 {
      assert Expected(x)[10].key == "ddb.logicalSectorSize";
      assert Expected(x)[11].key == "ddb.physicalSectorSize";
    }
  }

  // ----- sizes -----

  function Pow10(d: nat): (p: nat)
    ensures p > 0
  {
    if d == 0 then 1 else 10 * Pow10(d - 1)
  }

  lemma {:induction false} DecimalLength(n: nat, d: nat)
    requires d > 0 && n < Pow10(d)
    ensures |Decimal(n)| <= d
  {
    if n >= 10 {
      assert d > 1;
      DecimalLength(n / 10, d - 1);
    }
  }

  lemma NumberLengths(n: nat)
    ensures n < U64 ==> |Decimal(n)| <= 20
    ensures n <= 65535 ==> |Decimal(n)| <= 5
    ensures |SignedDecimal(n)| <= 11
  {
    Powers();
    hide Pow10, Decimal;
    if n < U64 { DecimalLength(n, 20); }
    if n <= 65535 { DecimalLength(n, 5); }
    DecimalLength(n % U32, 10);
    if n % U32 > 0 { DecimalLength(U32 - n % U32, 10); }
  }

  lemma Powers()
    ensures Pow10(5) > 65535 && Pow10(10) > U32 && Pow10(20) > U64
  {
    assert Pow10(5) == 100_000;
    assert Pow10(10) == 100_000 * Pow10(5);
    assert Pow10(15) == 100_000 * Pow10(10);
    assert Pow10(20) == 100_000 * Pow10(15);
  }

  lemma CylindersBound(capacity: nat)
    ensures Cylinders(capacity) <= 65535
  {
  }

  /** All pairs but the last. */
  function FrontPairs(x: Inputs): seq<Pair> {
    VersionPairs(x) + [Pair("createType", "streamOptimized")] + DataPairs(x)
    + ShapePairs(x) + SectorPairs(x) + ToolsPairs(x)[..2]
  }

  /** Room for the pairs, each with quotes, colon and comma. */
  function PairSum(ps: seq<Pair>): nat {
    if ps == [] then 0 else PairSum(ps[..|ps| - 1]) + |ps[|ps| - 1].key| + |ps[|ps| - 1].value| + 8
  }

  lemma {:induction false} PairSumAppend(a: seq<Pair>, b: seq<Pair>)
    ensures PairSum(a + b) == PairSum(a) + PairSum(b)
  {
    if b == [] {
      assert a + b == a;
    } else {
      var n := |b| - 1;
      PairSumAppend(a, b[..n]);
      assert (a + b)[..|a| + n] == a + b[..n];
    }
  }

  lemma {:induction false} PairSumBound(ps: seq<Pair>, width: nat)
    requires forall i :: 0 <= i < |ps| ==> |ps[i].key| + |ps[i].value| + 8 <= width
    ensures PairSum(ps) <= |ps| * width
  {
    if ps != [] {
      PairSumBound(ps[..|ps| - 1], width);
      assert |ps| * width == width + (|ps| - 1) * width;
    }
  }

  lemma {:induction false} JsonLength(ps: seq<Pair>)
    ensures |Json(ps)| <= 2 + PairSum(ps)
    ensures ps != [] ==> |ps[|ps| - 1].value| < |Json(ps)|
  {
    hide Json, EntryText;
    if ps == [] {
      NothingParsed();
    } else {
      var n := |ps| - 1;
      assert ps[..n] + [ps[n]] == ps;
      NextLength(ps[..n], ps[n]);
      JsonNotEmpty(ps[..n]);
      JsonLength(ps[..n]);
    }
  }

  lemma FixedSums(x: Inputs)
    ensures PairSum(VersionPairs(x)) <= 128 && PairSum([Pair("createType", "streamOptimized")]) <= 40
    ensures PairSum(DataPairs(x)) <= 128
  {
    hide PairSum;
    PairSumBound(VersionPairs(x), 32);
    PairSumBound([Pair("createType", "streamOptimized")], 40);
    PairSumBound(DataPairs(x), 64);
  }

  lemma NumberSums(x: Inputs)
    ensures PairSum(ShapePairs(x)) <= 120 && PairSum(SectorPairs(x)) <= 84 && PairSum(ToolsPairs(x)[..2]) <= 64
  {
    hide PairSum, Decimal, SignedDecimal, Cylinders;
    CylindersBound(x.capacity);
    NumberLengths(Cylinders(x.capacity));
    NumberLengths(x.sectorSize);
    PairSumBound(ShapePairs(x), 40);
    PairSumBound(SectorPairs(x), 42);
    PairSumBound(ToolsPairs(x)[..2], 32);
  }

  /** Everything in front of the tools version is short. */
  lemma FrontIsShort(x: Inputs)
    ensures |Json(FrontPairs(x))| + 4 <= INITIAL_CAPACITY
  {
    hide PairSum, Json, VersionPairs, DataPairs, ShapePairs, SectorPairs, ToolsPairs;
    var a := VersionPairs(x);
    var b := [Pair("createType", "streamOptimized")];
    var c, d, e := DataPairs(x), ShapePairs(x), SectorPairs(x);
    ToolsLength(x);
    FixedSums(x);
    NumberSums(x);
    PairSumAppend(a, b);
    PairSumAppend(a + b, c);
    PairSumAppend(a + b + c, d);
    PairSumAppend(a + b + c + d, e);
    PairSumAppend(a + b + c + d + e, ToolsPairs(x)[..2]);
    JsonLength(FrontPairs(x));
  }

  lemma ToolsLength(x: Inputs)
    ensures |ToolsPairs(x)| == 3 && ToolsPairs(x)[2] == Pair("ddb.toolsVersion", x.toolsVersion)
  {
  }

  lemma ExpectedSplit(x: Inputs)
    ensures Expected(x) == FrontPairs(x) + [Pair("ddb.toolsVersion", x.toolsVersion)]
  {
    hide VersionPairs, DataPairs, ShapePairs, SectorPairs, ToolsPairs;
    ToolsLength(x);
    assert ToolsPairs(x) == ToolsPairs(x)[..2] + [ToolsPairs(x)[2]];
  }

  /** The parser's buffer is enough for a printed descriptor exactly when the result, with its
      NUL, fits two first buffers. */
  lemma PrintedFitsIff(x: Inputs)
    requires OneLine(x.toolsVersion)
    ensures CapacityAfter(Pairs(Print(x))).Some? <==> |Json(Expected(x))| + 1 <= 2 * INITIAL_CAPACITY
  {
    hide OneLine, Pairs, Print, CapacityAfter, Json, Expected, FrontPairs;
    PrintedParses(x);
    FrontIsShort(x);
    ExpectedSplit(x);
    LastPairIff(FrontPairs(x), Pair("ddb.toolsVersion", x.toolsVersion));
  }

  /** In terms of the tools version alone: it fits up to 1,000 characters and does not fit
      beyond 2,048. */
  lemma ToolsVersionDecides(x: Inputs)
    requires OneLine(x.toolsVersion)
    ensures |x.toolsVersion| <= 1000 ==> CapacityAfter(Pairs(Print(x))).Some?
    ensures |x.toolsVersion| > 2048 ==> CapacityAfter(Pairs(Print(x))).None?
  {
    hide OneLine, Pairs, Print, CapacityAfter, Json, Expected, FrontPairs;
    PrintedFitsIff(x);
    FrontIsShort(x);
    ExpectedSplit(x);
    NextLength(FrontPairs(x), Pair("ddb.toolsVersion", x.toolsVersion));
    JsonLength(Expected(x));
  }

  // ----- the descriptor as bytes -----

  /** One byte for each character; the descriptor is ASCII. */
  function ToBytes(s: string): (b: seq<byte>)
    ensures |b| == |s|
  {
    seq(|s|, i requires 0 <= i < |s| => (s[i] as int % 256) as byte)
  }

  predicate Ascii(s: string) {
    forall i :: 0 <= i < |s| ==> 0 < s[i] as int < 128
  }

  lemma {:induction false} RenderIsAscii(ls: seq<Line>)
    requires AllOk(ls)
    ensures Ascii(Render(ls))
  {
    hide LineOk, Text, EntryOf;
    if ls != [] {
      LineParsed(ls[0]);
      RenderIsAscii(ls[1..]);
    }
  }

  /** Characters of the lines, each with its newline. */
  function TextSum(ls: seq<Line>): nat {
    if ls == [] then 0 else |Text(ls[0])| + 1 + TextSum(ls[1..])
  }

  lemma {:induction false} TextSumAppend(a: seq<Line>, b: seq<Line>)
    ensures TextSum(a + b) == TextSum(a) + TextSum(b)
  {
    hide Text;
    if a == [] {
      assert a + b == b;
    } else {
      TextSumAppend(a[1..], b);
      assert (a + b)[1..] == a[1..] + b;
    }
  }

  lemma {:induction false} TextSumBound(ls: seq<Line>, width: nat)
    requires forall i :: 0 <= i < |ls| ==> |Text(ls[i])| < width
    ensures TextSum(ls) <= |ls| * width
  {
    hide Text;
    if ls != [] {
      TextSumBound(ls[1..], width);
      assert |ls| * width == width + (|ls| - 1) * width;
    }
  }

  lemma {:induction false} RenderLength(ls: seq<Line>)
    ensures |Render(ls)| <= TextSum(ls)
    ensures ls != [] ==> |Text(ls[0])| <= |Render(ls)|
  {
    hide Text;
    if ls != [] {
      RenderLength(ls[1..]);
    }
  }

  lemma FrontSum(x: Inputs)
    requires x.capacity < U64
    ensures TextSum(Version(x)) <= 320 && TextSum(Description(x)) <= 320 && TextSum(DataBase(x)) <= 320
  {
    hide Hex, Decimal, TextSum;
    NumberLengths(x.capacity);
    TextSumBound(Version(x), 64);
    TextSumBound(Description(x), 64);
    TextSumBound(DataBase(x), 64);
  }

  lemma RearSum(x: Inputs)
    ensures TextSum(Shape(x)) <= 192 && TextSum(SectorSizes(x)) <= 128
  {
    hide Hex, Decimal, SignedDecimal, Cylinders, TextSum;
    CylindersBound(x.capacity);
    NumberLengths(Cylinders(x.capacity));
    NumberLengths(x.sectorSize);
    TextSumBound(Shape(x), 64);
    TextSumBound(SectorSizes(x), 64);
  }

  lemma ToolsSum(x: Inputs)
    ensures TextSum(Tools(x)) <= 192 + |x.toolsVersion|
  {
    hide TextSum;
    var l := Tools(x);
    TextSumBound(l[..2], 64);
    TextSumBound(l[2..], 64 + |x.toolsVersion|);
    TextSumAppend(l[..2], l[2..]);
    assert l[..2] + l[2..] == l;
  }

  /** A printed descriptor is ASCII and not empty. */
  lemma PrintedIsAscii(x: Inputs)
    requires OneLine(x.toolsVersion)
    ensures Ascii(Print(x)) && |Print(x)| > 0
  {
    hide LineOk, Version, Description, DataBase, Shape, SectorSizes, Tools, OneLine, Ascii, TextSum, Render;
    VersionOk(x);
    DescriptionOk(x);
    DataOk(x);
    ShapeOk(x);
    SectorSizesOk(x);
    ToolsOk(x);
    RenderIsAscii(DescriptorLines(x));
    RenderLength(DescriptorLines(x));
    FirstLine(x);
  }

  /** It is at most 1,472 characters longer than the tools version, and so fits the 20 sectors
      reserved for it for every tools version of up to 8,768 characters. */
  lemma PrintedLength(x: Inputs)
    requires x.capacity < U64
    ensures |Print(x)| <= 1472 + |x.toolsVersion|
    ensures |x.toolsVersion| <= 8768 ==> |Print(x)| <= 20 * SECTOR
  {
    hide Version, Description, DataBase, Shape, SectorSizes, Tools, TextSum, Render;
    RenderLength(DescriptorLines(x));
    FrontSum(x);
    RearSum(x);
    ToolsSum(x);
    TextSumAppend(Version(x), Description(x));
    TextSumAppend(Version(x) + Description(x), DataBase(x));
    TextSumAppend(Version(x) + Description(x) + DataBase(x), Shape(x));
    TextSumAppend(Version(x) + Description(x) + DataBase(x) + Shape(x), SectorSizes(x));
    TextSumAppend(Version(x) + Description(x) + DataBase(x) + Shape(x) + SectorSizes(x), Tools(x));
  }

  /** Some descriptors fit their sectors and are then too long for the parser: those of a
      tools version of 2,049 digits, for example. */
  lemma LongVersionOverruns(x: Inputs)
    requires x.capacity < U64 && |x.toolsVersion| == 2049
    requires forall i :: 0 <= i < |x.toolsVersion| ==> '0' <= x.toolsVersion[i] <= '9'
    ensures |Print(x)| <= 20 * SECTOR && CapacityAfter(Pairs(Print(x))).None?
  {
    hide Pairs, Print, CapacityAfter;
    assert OneLine(x.toolsVersion);
    PrintedLength(x);
    ToolsVersionDecides(x);
  }

  lemma FirstLine(x: Inputs)
    ensures DescriptorLines(x) != [] && |Text(DescriptorLines(x)[0])| > 0
  {
    hide Description, DataBase, Shape, SectorSizes, Tools, Hex;
    assert DescriptorLines(x)[0] == Version(x)[0];
  }

  /** The C string in a buffer: up to the first NUL. */
  function CString(b: seq<byte>): string {
    if b == [] || b[0] == 0 then [] else [b[0] as char] + CString(b[1..])
  }

  lemma {:induction false} CStringOf(s: string, pad: nat)
    requires Ascii(s)
    ensures CString(ToBytes(s) + Zeros(pad)) == s
  {
    var b := ToBytes(s) + Zeros(pad);
    if s != [] {
      CStringOf(s[1..], pad);
      assert b[1..] == ToBytes(s[1..]) + Zeros(pad);
    }
  }
}
