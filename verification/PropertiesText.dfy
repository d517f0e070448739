/**
 Editing and loading a whole properties file (src/cmnd_linux/vendor_config.py).

 Lines are split as Python and as Java split them; loading follows
 java.util.Properties with its continuation lines.  The main result says what
 a written line loads as, whatever its value.
 */
module PropertiesText {
  import opened Sequences
  import opened Wrappers
  import opened Text
  import opened JavaProperties
  import opened PropertiesFormat

  // ---- Lines ----

  predicate EndsLine(c: char, python: bool) { if python then IsPythonBreak(c) else IsJavaBreak(c) }

  /** The first line break, or the end. */
  function BreakAt(text: string, python: bool): (n: nat)
    ensures n <= |text| && (n < |text| ==> EndsLine(text[n], python))
    ensures forall i :: 0 <= i < n ==> !EndsLine(text[i], python)
  {
    if text == [] || EndsLine(text[0], python) then 0 else 1 + BreakAt(text[1..], python)
  }

  /** The lines of a text: for the program as Python's splitlines, for load as Java reads them. */
  function Lines(text: string, python: bool): seq<string>
    decreases |text|
  {
    if text == [] then []
    else
      var n := BreakAt(text, python);
      if n == |text| then [text] else [text[..n]] + Lines(text[Behind(text, n)..], python)
  }

  function Join(lines: seq<string>, newline: string): string {
    if lines == [] then [] else if |lines| == 1 then lines[0] else lines[0] + newline + Join(lines[1..], newline)
  }

  // ---- Loading ----

  /** A logical line: continued while it ends in an unescaped backslash, and the lines after it. */
  function Continued(first: string, lines: seq<string>): (r: (string, seq<string>))
    ensures |r.1| <= |lines|
    decreases |lines|
  {
    if first == [] || !OpenEscape(first, false) then (first, lines)
    else
      var shorter := first[..|first| - 1];
      if lines == [] then (shorter, []) else Continued(shorter + SkipSpace(lines[0]), lines[1..])
  }

  function Put(table: Table, loaded: Loaded): Option<Table> {
    match loaded
    case Nothing => Some(table)
    case Malformed => None
    case Entry(key, value) => Some(table[key := value])
  }

  /** java.util.Properties.load on natural lines; None where it rejects the file. */
  function LoadFrom(table: Table, lines: seq<string>): Option<Table>
    decreases |lines|
  {
    if lines == [] then Some(table)
    else if Remark(lines[0]) then LoadFrom(table, lines[1..])
    else
      var logical := Continued(lines[0], lines[1..]);
      var text := SkipSpace(logical.0);
      var next := if text == [] then Some(table) else Put(table, LoadEntry(text));
      if next.None? then None else LoadFrom(next.value, logical.1)
  }

  function LoadText(text: string): Option<Table> { LoadFrom(map[], Lines(text, false)) }

  // ---- The program ----

  function Newline(text: string): string {
    if exists i :: 0 <= i < |text| - 1 && text[i] == '\r' && text[i + 1] == '\n' then "\r\n" else "\n"
  }

  function Tail(text: string): string {
    if text != [] && IsJavaBreak(text[|text| - 1]) then Newline(text) else []
  }

  /** The specification of the program on a whole file. */
  function EditText(text: string, updates: map<string, string>, additions: seq<(string, string)>): Result<string, EditError> {
    match Edit(Lines(text, true), updates, additions)
    case Err(error) => Err(error)
    case Ok(lines) => Ok(Join(lines, Newline(text)) + Tail(text))
  }

  method PropsText(text: string, updates: map<string, string>, additions: seq<(string, string)>)
    returns (r: Result<string, EditError>)
    ensures r == EditText(text, updates, additions)
    ensures r.Ok? ==> Edits(text, updates, additions, r.value)
    ensures r.Err? ==> Refused(text, updates, additions, r.error)
  {
    hide Edits, Refused, Lines, Join, Edit;
    EditDescribed(text, updates, additions);
    var newline := Newline(text);
    var edited := Props(Lines(text, true), updates, additions);
    if edited.Err? { return Err(edited.error); }
    return Ok(Join(edited.value, newline) + if text != [] && IsJavaBreak(text[|text| - 1]) then newline else []);
  }

  // ---- The program does what the description says ----

  /** Python's lines, with the line ends between them. */
  lemma {:induction false} LinesSplit(text: string) returns (ends: seq<string>)
    ensures Splits(text, Lines(text, true), ends)
    decreases |text|
  {
    if text == [] {
      ends := [];
    } else {
      var n := BreakAt(text, true);
      if n == |text| {
        ends := [""];
        assert text == text + "" + Woven([text][1..], ends[1..]);
      } else {
        var k := Behind(text, n);
        var rest := LinesSplit(text[k..]);
        ends := [text[n..k]] + rest;
        SplitsCons(text, n, Lines(text[k..], true), rest);
      }
    }
  }

  lemma SplitsCons(text: string, n: nat, lines: seq<string>, ends: seq<string>)
    requires n < |text| && n == BreakAt(text, true) && Splits(text[Behind(text, n)..], lines, ends)
    ensures Splits(text, [text[..n]] + lines, [text[n..Behind(text, n)]] + ends)
  {
    hide BreakAt, Behind, LineEnd, IsPythonBreak;
    var k := Behind(text, n);
    var all, breaks := [text[..n]] + lines, [text[n..k]] + ends;
    assert all[1..] == lines && breaks[1..] == ends;
    WovenCons(text[..n], lines, text[n..k], ends);
    assert text == text[..n] + text[n..k] + text[k..];
    FirstEnd(text, n);
  }

  lemma WovenCons(a: string, lines: seq<string>, b: string, ends: seq<string>)
    requires |lines| == |ends|
    ensures Woven([a] + lines, [b] + ends) == a + b + Woven(lines, ends)
  {
    assert ([a] + lines)[1..] == lines && ([b] + ends)[1..] == ends;
  }

  lemma FirstEnd(text: string, n: nat)
    requires n < |text| && n == BreakAt(text, true)
    ensures var k := Behind(text, n);
            LineEnd(text[n..k]) && (text[n..k] == ['\r'] ==> k == |text| || text[k] != '\n')
  {
  }

  lemma LinesRevised(lines: seq<string>, updates: map<string, string>)
    ensures forall i :: 0 <= i < |lines| ==> Revised(lines[i], EditLine(lines[i], updates), updates)
  {
    hide Skipped, KeyOf, Escape, KeyLine;
    forall i | 0 <= i < |lines| ensures Revised(lines[i], EditLine(lines[i], updates), updates) {
      forall key ensures KeyLine(lines[i], key) <==> !Skipped(lines[i]) && KeyOf(lines[i]) == key { KeyLineIs(lines[i], key); }
    }
  }

  lemma KeysAre(lines: seq<string>, key: string)
    ensures key in KeysOf(lines) <==> exists line <- lines :: KeyLine(line, key)
  {
    hide Skipped, KeyOf, KeyLine;
    forall line ensures KeyLine(line, key) <==> !Skipped(line) && KeyOf(line) == key { KeyLineIs(line, key); }
    if line :| line in lines && KeyLine(line, key) {
      var i :| 0 <= i < |lines| && lines[i] == line;
    }
  }

  lemma {:induction false} JoinGlues(lines: seq<string>, newline: string)
    ensures Join(lines, newline) == Glued(lines, newline)
  {
    if |lines| > 1 { JoinGlues(lines[1..], newline); }
  }

  lemma EditDecided(lines: seq<string>, updates: map<string, string>, additions: seq<(string, string)>)
    ensures Edit(lines, updates, additions) == Err(MissingKeys) <==> Lacks(lines, updates)
    ensures Edit(lines, updates, additions) == Err(AlreadyPresent) <==> !Lacks(lines, updates) && Clashes(lines, additions)
  {
    hide KeysOf, KeyLine, EditLines, AddedLines;
    forall key ensures key in KeysOf(lines) <==> exists line <- lines :: KeyLine(line, key) { KeysAre(lines, key); }
    if updates.Keys - KeysOf(lines) != {} {
      var key :| key in updates.Keys - KeysOf(lines);
      assert key in updates;
    }
    if Lacks(lines, updates) {
      var key :| key in updates && forall line <- lines :: !KeyLine(line, key);
      assert key in updates.Keys - KeysOf(lines);
    }
  }

  lemma NewlineIs(text: string)
    ensures Newline(text) == if HasCrLf(text) then ['\r', '\n'] else ['\n']
    ensures Tail(text) == if |text| > 0 && text[|text| - 1] in {'\r', '\n'} then Newline(text) else []
  {
  }

  lemma EditDescribed(text: string, updates: map<string, string>, additions: seq<(string, string)>)
    ensures var r := EditText(text, updates, additions);
            if r.Ok? then Edits(text, updates, additions, r.value) else Refused(text, updates, additions, r.error)
  {
    hide Splits, Lacks, Clashes, Lines, Join, Glued, Newline, Tail, HasCrLf, Revised, EditLines, AddedLines, Escape;
    var lines := Lines(text, true);
    var ends := LinesSplit(text);
    EditDecided(lines, updates, additions);
    SplitsLengths(text, lines, ends);
    if Edit(lines, updates, additions).Ok? {
      var revised := EditLines(lines, updates) + AddedLines(additions);
      LinesRevised(lines, updates);
      JoinGlues(revised, Newline(text));
      NewlineIs(text);
      assert EditsLines(text, lines, updates, additions, revised, EditText(text, updates, additions).value);
    }
  }

  lemma SplitsLengths(text: string, lines: seq<string>, ends: seq<string>)
    requires Splits(text, lines, ends)
    ensures |lines| == |ends|
  {
  }

  // ---- Lines that are not continued ----

  predicate Closed(line: string) { Remark(line) || !OpenEscape(line, false) }

  predicate AllClosed(lines: seq<string>) { forall i :: 0 <= i < |lines| ==> Closed(lines[i]) }

  lemma LoadFromCons(table: Table, line: string, rest: seq<string>)
    requires Closed(line)
    ensures LoadFrom(table, [line] + rest)
            == if Put(table, LoadLine(line)).None? then None else LoadFrom(Put(table, LoadLine(line)).value, rest)
  {
    var lines := [line] + rest;
    assert lines[0] == line && lines[1..] == rest;
    if !Remark(line) { assert Continued(line, rest) == (line, rest); }
  }

  lemma {:induction false} LoadFromAppend(table: Table, a: seq<string>, b: seq<string>)
    requires AllClosed(a)
    ensures LoadFrom(table, a + b) == if LoadFrom(table, a).None? then None else LoadFrom(LoadFrom(table, a).value, b)
    decreases |a|
  {
    if a == [] {
      assert a + b == b;
    } else {
      var next := Put(table, LoadLine(a[0]));
      LoadFromCons(table, a[0], a[1..]);
      LoadFromCons(table, a[0], a[1..] + b);
      assert [a[0]] + a[1..] == a && [a[0]] + (a[1..] + b) == a + b;
      if next.Some? { LoadFromAppend(next.value, a[1..], b); }
    }
  }

  /** The text cut at every CR and every LF. */
  function Pieces(text: string): (r: seq<string>)
    ensures r != []
    decreases |text|
  {
    var n := BreakAt(text, false);
    if n == |text| then [text] else [text[..n]] + Pieces(text[n + 1..])
  }

  predicate BreakFree(text: string) { forall i :: 0 <= i < |text| ==> !IsJavaBreak(text[i]) }

  lemma {:induction false} BreakAtIs(text: string, n: nat)
    requires n <= |text| && (n < |text| ==> IsJavaBreak(text[n])) && forall i :: 0 <= i < n ==> !IsJavaBreak(text[i])
    ensures BreakAt(text, false) == n
  {
    if n > 0 { BreakAtIs(text[1..], n - 1); }
  }

  lemma PiecesFree(text: string)
    requires BreakFree(text)
    ensures Pieces(text) == [text]
  {
    BreakAtIs(text, |text|);
  }

  lemma {:induction false} PiecesAreFree(text: string)
    ensures forall i :: 0 <= i < |Pieces(text)| ==> BreakFree(Pieces(text)[i])
    decreases |text|
  {
    var n := BreakAt(text, false);
    if n < |text| { PiecesAreFree(text[n + 1..]); }
  }

  lemma PiecesStep(text: string, n: nat)
    requires n == BreakAt(text, false) < |text|
    ensures Pieces(text) == [text[..n]] + Pieces(text[n + 1..])
  {
  }

  lemma JoinBreaks(a: string, c: char, b: string)
    requires IsJavaBreak(c)
    ensures BreakAt(a + [c] + b, false) == BreakAt(a, false) <= |a|
  {
    var text := a + [c] + b;
    assert forall i :: 0 <= i < |a| ==> text[i] == a[i];
    assert text[|a|] == c;
    BreakAtIs(text, BreakAt(a, false));
  }

  lemma JoinParts(a: string, c: char, b: string, n: nat)
    requires n < |a|
    ensures (a + [c] + b)[..n] == a[..n] && (a + [c] + b)[n + 1..] == a[n + 1..] + [c] + b
  {
  }

  lemma {:induction false} PiecesJoin(a: string, c: char, b: string)
    requires IsJavaBreak(c)
    ensures Pieces(a + [c] + b) == Pieces(a) + Pieces(b)
    decreases |a|
  {
    var text := a + [c] + b;
    var n := BreakAt(a, false);
    JoinBreaks(a, c, b);
    PiecesStep(text, n);
    if n == |a| {
      assert text[..n] == a && text[n + 1..] == b;
      assert Pieces(a) == [a];
    } else {
      PiecesJoin(a[n + 1..], c, b);
      JoinParts(a, c, b, n);
      PiecesStep(a, n);
      hide Pieces;
      Associative([a[..n]], Pieces(a[n + 1..]), Pieces(b));
    }
  }

  lemma LoadBlank(table: Table, rest: seq<string>)
    ensures LoadFrom(table, [[]] + rest) == LoadFrom(table, rest)
  {
    var blank: string := [];
    LoadFromCons(table, blank, rest);
  }

  /** CR and LF that end one line may be taken as ending two, as long as no line is continued. */
  lemma {:induction false} PiecesLoad(table: Table, text: string)
    requires AllClosed(Pieces(text))
    ensures LoadFrom(table, Lines(text, false)) == LoadFrom(table, Pieces(text))
    decreases |text|
  {
    hide BreakAt, Behind, LoadFrom, LoadLine, Put, Closed, AllClosed;
    var n := BreakAt(text, false);
    if text == [] {
      LoadBlank(table, []);
      assert [text] + [] == [text];
    } else if n < |text| {
      var first, k := text[..n], Behind(text, n);
      var next := Put(table, LoadLine(first));
      PiecesTail(text);
      LoadFromCons(table, first, Pieces(text[n + 1..]));
      LoadFromCons(table, first, Lines(text[k..], false));
      if next.Some? {
        PiecesLoad(next.value, text[k..]);
        PiecesBehind(next.value, text, n, k);
      }
    }
  }

  /** The piece between CR and LF is empty. */
  lemma PiecesBehind(table: Table, text: string, n: nat, k: nat)
    requires n < |text| && k == Behind(text, n)
    ensures LoadFrom(table, Pieces(text[n + 1..])) == LoadFrom(table, Pieces(text[k..]))
  {
    if k == n + 2 {
      PiecesOfBreak(text[n + 1..]);
      assert text[n + 1..][1..] == text[k..];
      LoadBlank(table, Pieces(text[k..]));
    }
  }

  lemma ClosedCons(first: string, rest: seq<string>)
    ensures AllClosed([first] + rest) <==> Closed(first) && AllClosed(rest)
  {
    var all := [first] + rest;
    assert all[0] == first;
    if AllClosed(all) {
      forall i | 0 <= i < |rest| ensures Closed(rest[i]) { assert all[i + 1] == rest[i]; }
    }
  }

  lemma PiecesTail(text: string)
    requires AllClosed(Pieces(text)) && BreakAt(text, false) < |text|
    ensures var n := BreakAt(text, false);
            Closed(text[..n]) && AllClosed(Pieces(text[n + 1..])) && AllClosed(Pieces(text[Behind(text, n)..]))
  {
    var n := BreakAt(text, false);
    var rest := text[n + 1..];
    PiecesStep(text, n);
    if Behind(text, n) == n + 2 {
      PiecesOfBreak(rest);
      assert rest[1..] == text[n + 2..];
    }
    hide Pieces, Closed;
    ClosedCons(text[..n], Pieces(rest));
    if Behind(text, n) == n + 2 { ClosedCons([], Pieces(rest[1..])); }
  }

  lemma PiecesOfBreak(text: string)
    requires text != [] && IsJavaBreak(text[0])
    ensures Pieces(text) == [[]] + Pieces(text[1..])
  {
    BreakAtIs(text, 0);
    assert text[..0] == [];
  }

  // ---- Joined lines ----

  /** Loading the pieces of each line in turn. */
  function LoadAll(table: Table, lines: seq<string>): Option<Table>
    decreases |lines|
  {
    if lines == [] then Some(table)
    else
      var next := LoadFrom(table, Pieces(lines[0]));
      if next.None? then None else LoadAll(next.value, lines[1..])
  }

  predicate PiecesClosed(lines: seq<string>) { forall i :: 0 <= i < |lines| ==> AllClosed(Pieces(lines[i])) }

  predicate IsNewline(newline: string) { newline == "\n" || newline == "\r\n" }

  /** A line, a line end and more text: the pieces of both, and perhaps a blank one. */
  lemma PiecesNewline(line: string, newline: string, rest: string)
    requires IsNewline(newline)
    ensures newline == "\n" ==> Pieces(line + newline + rest) == Pieces(line) + Pieces(rest)
    ensures newline == "\r\n" ==> Pieces(line + newline + rest) == Pieces(line) + ([[]] + Pieces(rest))
  {
    hide Pieces;
    if newline == "\n" {
      PiecesJoin(line, '\n', rest);
      assert newline == ['\n'];
    } else {
      PiecesJoin(line, '\r', "\n" + rest);
      PiecesOfBreak("\n" + rest);
      assert ("\n" + rest)[1..] == rest;
      assert line + newline + rest == line + ['\r'] + ("\n" + rest);
    }
  }

  lemma LoadNewline(table: Table, line: string, newline: string, rest: string)
    requires IsNewline(newline) && AllClosed(Pieces(line)) && AllClosed(Pieces(rest))
    ensures AllClosed(Pieces(line + newline + rest))
    ensures LoadFrom(table, Pieces(line + newline + rest))
            == if LoadFrom(table, Pieces(line)).None? then None else LoadFrom(LoadFrom(table, Pieces(line)).value, Pieces(rest))
  {
    PiecesNewline(line, newline, rest);
    var blank: string := [];
    assert Remark(blank);
    if newline == "\n" {
      LoadFromAppend(table, Pieces(line), Pieces(rest));
    } else {
      LoadFromAppend(table, Pieces(line), [blank] + Pieces(rest));
      if LoadFrom(table, Pieces(line)).Some? { LoadBlank(LoadFrom(table, Pieces(line)).value, Pieces(rest)); }
    }
  }

  lemma {:induction false} JoinLoads(table: Table, lines: seq<string>, newline: string, tail: string)
    requires IsNewline(newline) && (tail == [] || tail == newline) && PiecesClosed(lines)
    ensures AllClosed(Pieces(Join(lines, newline) + tail))
    ensures LoadFrom(table, Pieces(Join(lines, newline) + tail)) == LoadAll(table, lines)
    decreases |lines|
  {
    if lines == [] {
      BlankLoads(table);
      TailLoads(table, [], newline, tail);
    } else if |lines| == 1 {
      assert lines[1..] == [];
      TailLoads(table, lines[0], newline, tail);
    } else {
      var rest := Join(lines[1..], newline) + tail;
      var next := LoadFrom(table, Pieces(lines[0]));
      JoinLoads(if next.Some? then next.value else table, lines[1..], newline, tail);
      assert Join(lines, newline) + tail == lines[0] + newline + rest;
      hide Pieces, LoadFrom, Join;
      LoadNewline(table, lines[0], newline, rest);
    }
  }

  lemma BlankLoads(table: Table)
    ensures AllClosed(Pieces([])) && LoadFrom(table, Pieces([])) == Some(table)
  {
    var blank: string := [];
    PiecesFree(blank);
    assert Remark(blank);
    LoadBlank(table, []);
    assert [blank] + [] == [blank];
  }

  lemma TailLoads(table: Table, line: string, newline: string, tail: string)
    requires IsNewline(newline) && (tail == [] || tail == newline) && AllClosed(Pieces(line))
    ensures AllClosed(Pieces(line + tail)) && LoadFrom(table, Pieces(line + tail)) == LoadFrom(table, Pieces(line))
  {
    var blank: string := [];
    if tail == [] {
      assert line + tail == line;
    } else {
      PiecesFree(blank);
      assert Remark(blank);
      LoadNewline(table, line, newline, blank);
      assert line + newline + blank == line + tail;
      var next := LoadFrom(table, Pieces(line));
      if next.Some? {
        LoadBlank(next.value, []);
        assert [blank] + [] == [blank];
      }
    }
  }

  // ---- What a written line loads as, whatever its value ----

  /** Escaping does not depend on the position. */
  lemma {:induction false} EscapeCons(value: string)
    requires value != []
    ensures Escape(value) == EscapeChar(false, value[0]) + Escape(value[1..])
    decreases |value|
  {
    EscapeShift(value, 1);
  }

  lemma FirstAlike(c: char)
    ensures EscapeChar(true, c) == EscapeChar(false, c)
  {
  }

  lemma {:induction false} EscapeShift(value: string, index: nat)
    requires 1 <= index <= |value|
    ensures EscapeFrom(value, index) == EscapeFrom(value[1..], index - 1)
    decreases |value| - index
  {
    hide EscapeChar;
    if index < |value| {
      EscapeShift(value, index + 1);
      FirstAlike(value[index]);
    }
  }

  lemma {:induction false} EscapeAppend(x: string, y: string)
    ensures Escape(x + y) == Escape(x) + Escape(y)
    decreases |x|
  {
    if x == [] {
      assert x + y == y;
    } else {
      ConsAppend(x, y);
      EscapeAppend(x[1..], y);
      EscapeCons(x);
      EscapeCons(x + y);
      Associative(EscapeChar(false, x[0]), Escape(x[1..]), Escape(y));
    }
  }

  lemma EscapeCharFree(c: char)
    requires !IsJavaBreak(c)
    ensures BreakFree(EscapeChar(false, c))
  {
    if c as int > 0x7E { UnitsFree(Utf16Char(c)); }
  }

  lemma {:induction false} UnitsFree(units: seq<nat>)
    requires forall i :: 0 <= i < |units| ==> units[i] < 0x10000
    ensures BreakFree(EscapeUnits(units))
  {
    if units != [] {
      UnitsFree(units[1..]);
      UnitFree(units[0]);
    }
  }

  lemma UnitFree(unit: nat)
    requires unit < 0x10000
    ensures BreakFree(EscapeUnit(unit))
  {
    HexFree(unit / 4096);
    HexFree(unit / 256 % 16);
    HexFree(unit / 16 % 16);
    HexFree(unit % 16);
  }

  lemma HexFree(n: nat)
    requires n < 16
    ensures !IsJavaBreak(HexDigit(n))
  {
  }

  lemma {:induction false} EscapeFree(value: string)
    requires BreakFree(value)
    ensures BreakFree(Escape(value))
    decreases |value|
  {
    if value != [] {
      EscapeCons(value);
      EscapeCharFree(value[0]);
      EscapeFree(value[1..]);
    }
  }

  function EscapeAll(pieces: seq<string>): (r: seq<string>)
    ensures |r| == |pieces| && forall i :: 0 <= i < |r| ==> r[i] == Escape(pieces[i])
  {
    seq(|pieces|, i requires 0 <= i < |pieces| => Escape(pieces[i]))
  }

  lemma EscapeBreak(first: string, c: char, rest: string)
    requires IsJavaBreak(c)
    ensures Escape(first + [c] + rest) == Escape(first) + [c] + Escape(rest)
  {
    EscapeAppend(first, [c] + rest);
    EscapeCons([c] + rest);
    assert ([c] + rest)[1..] == rest && first + ([c] + rest) == first + [c] + rest;
    assert EscapeChar(false, c) == [c];
    Associative(Escape(first), [c], Escape(rest));
  }

  lemma EscapeAllCons(first: string, rest: seq<string>)
    ensures EscapeAll([first] + rest) == [Escape(first)] + EscapeAll(rest)
  {
  }

  /** CR and LF go into the file as they are: the escaped text has the escaped pieces of the value. */
  lemma {:induction false} PiecesOfEscape(value: string)
    ensures Pieces(Escape(value)) == EscapeAll(Pieces(value))
    decreases |value|
  {
    var n := BreakAt(value, false);
    var first := value[..n];
    EscapeFree(first);
    PiecesFree(Escape(first));
    if n == |value| {
      assert first == value;
    } else {
      var c, rest := value[n], value[n + 1..];
      PiecesOfEscape(rest);
      EscapeBreak(first, c, rest);
      assert first + [c] + rest == value;
      hide Pieces, Escape;
      PiecesJoin(Escape(first), c, Escape(rest));
      EscapeAllCons(first, Pieces(rest));
      PiecesStep(value, n);
    }
  }

  lemma PiecesPrefix(prefix: string, text: string)
    requires BreakFree(prefix)
    ensures Pieces(prefix + text) == [prefix + Pieces(text)[0]] + Pieces(text)[1..]
  {
    hide BreakAt;
    var n := BreakAt(text, false);
    var all := prefix + text;
    BreakAtIs(all, |prefix| + n);
    if n < |text| {
      assert all[..|prefix| + n] == prefix + text[..n];
      assert all[|prefix| + n + 1..] == text[n + 1..];
    }
  }

  lemma {:induction false} KeyLengthEscaped(value: string, rest: string)
    requires BreakFree(value)
    ensures KeyLength(Escape(value) + rest, false) == |Escape(value)| + KeyLength(rest, false)
    decreases |value|
  {
    if value == [] {
      assert Escape(value) + rest == rest;
    } else {
      EscapeCons(value);
      KeyLengthEscaped(value[1..], rest);
      Associative(EscapeChar(false, value[0]), Escape(value[1..]), rest);
      KeyLengthChar(value[0], Escape(value[1..]) + rest);
    }
  }

  lemma KeyLengthChar(c: char, rest: string)
    ensures KeyLength(EscapeChar(false, c) + rest, false) == |EscapeChar(false, c)| + KeyLength(rest, false)
  {
    var text := EscapeChar(false, c) + rest;
    if c as int > 0x7E {
      KeyLengthUnits(Utf16Char(c), rest);
    } else if |EscapeChar(false, c)| == 2 {
      assert text[1..][1..] == rest;
    } else {
      assert text[1..] == rest;
    }
  }

  lemma {:induction false} KeyLengthUnits(units: seq<nat>, rest: string)
    requires forall i :: 0 <= i < |units| ==> units[i] < 0x10000
    ensures KeyLength(EscapeUnits(units) + rest, false) == |EscapeUnits(units)| + KeyLength(rest, false)
  {
    if units == [] {
      assert EscapeUnits(units) + rest == rest;
    } else {
      KeyLengthUnits(units[1..], rest);
      Associative(EscapeUnit(units[0]), EscapeUnits(units[1..]), rest);
      KeyLengthUnit(units[0], EscapeUnits(units[1..]) + rest);
    }
  }

  lemma KeyLengthUnit(unit: nat, rest: string)
    requires unit < 0x10000
    ensures KeyLength(EscapeUnit(unit) + rest, false) == 6 + KeyLength(rest, false)
  {
    var text := EscapeUnit(unit) + rest;
    HexInKey(unit / 4096);
    HexInKey(unit / 256 % 16);
    HexInKey(unit / 16 % 16);
    HexInKey(unit % 16);
    assert text[1..][1..] == text[2..];
    KeyLengthWord(text[2..], 4);
    assert text[2..][4..] == rest;
  }

  predicate InKey(c: char) { c != '\\' && c != '=' && c != ':' && !IsJavaSpace(c) }

  lemma HexInKey(n: nat)
    requires n < 16
    ensures InKey(HexDigit(n))
  {
  }

  lemma {:induction false} KeyLengthWord(text: string, n: nat)
    requires n <= |text| && forall i :: 0 <= i < n ==> InKey(text[i])
    ensures KeyLength(text, false) == n + KeyLength(text[n..], false)
  {
    if n > 0 {
      KeyLengthWord(text[1..], n - 1);
      assert text[1..][n - 1..] == text[n..];
    } else {
      assert text[0..] == text;
    }
  }

  lemma EscapeStarts(value: string)
    requires value != []
    ensures Escape(value) != [] && Escape(value)[0] != '#' && Escape(value)[0] != '!' && !IsJavaSpace(Escape(value)[0])
  {
    EscapeCons(value);
    EscapeCharOpens(false, value[0], []);
    if value[0] as int > 0x7E { assert EscapeUnits(Utf16Char(value[0]))[0] == '\\'; }
  }

  /** A piece of a value on a line of its own is a key without a value. */
  lemma BareLine(value: string)
    requires BreakFree(value)
    ensures Closed(Escape(value))
    ensures LoadLine(Escape(value)) == if value == [] then Nothing else Entry(Utf16(value), [])
  {
    EscapedCloses(value, 0);
    if value != [] {
      EscapeStarts(value);
      KeyLengthEscaped(value, []);
      assert Escape(value) + [] == Escape(value);
      UnescapeOfEscape(value, 0);
      assert value[0..] == value;
      var text := Escape(value);
      assert text[..|text|] == text && text[|text|..] == [];
      assert AfterSeparator([]) == [];
    }
  }

  /** Keys without values, one for each piece that is not empty. */
  function BareAll(table: Table, pieces: seq<string>): Table
    decreases |pieces|
  {
    if pieces == [] then table
    else BareAll(if pieces[0] == [] then table else table[Utf16(pieces[0]) := []], pieces[1..])
  }

  lemma {:induction false} BareLoads(table: Table, pieces: seq<string>)
    requires forall i :: 0 <= i < |pieces| ==> BreakFree(pieces[i])
    ensures AllClosed(EscapeAll(pieces)) && LoadFrom(table, EscapeAll(pieces)) == Some(BareAll(table, pieces))
    decreases |pieces|
  {
    if pieces != [] {
      var next := if pieces[0] == [] then table else table[Utf16(pieces[0]) := []];
      BareLine(pieces[0]);
      BareLoads(next, pieces[1..]);
      LoadFromCons(table, Escape(pieces[0]), EscapeAll(pieces[1..]));
      assert EscapeAll(pieces) == [Escape(pieces[0])] + EscapeAll(pieces[1..]);
    }
  }

  /** The line that the program writes for a key and a value. */
  function Written(key: string, value: string): string { key + "=" + Escape(value) }

  /** What the written line makes of a table: the key gets the first piece, every other piece is a key. */
  function WrittenTable(table: Table, key: string, value: string): Table {
    BareAll(table[Utf16(key) := Utf16(Pieces(value)[0])], Pieces(value)[1..])
  }

  lemma PlainKeyFree(key: string)
    requires PlainKey(key)
    ensures BreakFree(key + "=")
  {
    forall i | 0 <= i < |key| ensures !IsJavaBreak(key[i]) { assert PlainKeyChar(key[i]); }
  }

  lemma WrittenPieces(key: string, value: string)
    requires PlainKey(key)
    ensures Pieces(Written(key, value)) == [Written(key, Pieces(value)[0])] + EscapeAll(Pieces(value)[1..])
  {
    PlainKeyFree(key);
    PiecesPrefix(key + "=", Escape(value));
    PiecesOfEscape(value);
    var all := EscapeAll(Pieces(value));
    assert all[1..] == EscapeAll(Pieces(value)[1..]);
  }

  lemma WrittenLoad(table: Table, key: string, value: string)
    requires PlainKey(key)
    ensures AllClosed(Pieces(Written(key, value)))
    ensures LoadFrom(table, Pieces(Written(key, value))) == Some(WrittenTable(table, key, value))
  {
    var pieces := Pieces(value);
    PiecesAreFree(value);
    WrittenPieces(key, value);
    WrittenLine(key, pieces[0]);
    WrittenClosed(key, pieces[0]);
    BareLoads(table[Utf16(key) := Utf16(pieces[0])], pieces[1..]);
    LoadFromCons(table, Written(key, pieces[0]), EscapeAll(pieces[1..]));
  }

  lemma WrittenClosed(key: string, value: string)
    requires PlainKey(key)
    ensures Closed(Written(key, value))
  {
    WrittenCloses(key, value);
    Associative(key, "=", Escape(value));
  }

  lemma {:induction false} BareKeeps(table: Table, pieces: seq<string>, key: seq<nat>)
    requires key in table
    ensures key in BareAll(table, pieces) && (BareAll(table, pieces)[key] == table[key] || BareAll(table, pieces)[key] == [])
    decreases |pieces|
  {
    if pieces != [] {
      BareKeeps(if pieces[0] == [] then table else table[Utf16(pieces[0]) := []], pieces[1..], key);
    }
  }

  lemma FirstPiece(value: string)
    ensures Pieces(value)[0] == value <==> BreakFree(value)
    ensures BreakFree(value) <==> Pieces(value) == [value]
  {
    PiecesAreFree(value);
    if BreakFree(value) { PiecesFree(value); }
  }

  /**
   A file with one written line loads as the key with the value up to its
   first line break, and each further piece of the value as a key of its own;
   so it loads as the key and the value exactly when the value has no CR and
   no LF.
   */
  lemma WrittenTextLoads(key: string, value: string)
    requires PlainKey(key)
    ensures LoadText(Written(key, value)) == Some(WrittenTable(map[], key, value))
    ensures LoadText(Written(key, value)) == Some(map[Utf16(key) := Utf16(value)]) <==> BreakFree(value)
  {
    WrittenLoad(map[], key, value);
    PiecesLoad(map[], Written(key, value));
    FirstPiece(value);
    if !BreakFree(value) {
      var first: Table := map[Utf16(key) := Utf16(Pieces(value)[0])];
      BareKeeps(first, Pieces(value)[1..], Utf16(key));
      InjectiveKeys(value, Pieces(value)[0]);
      assert Utf16(value) != [];
    }
  }

  /** A short loss: the value loses all behind its line feed, which becomes a key. */
  lemma LineFeedSplits()
    ensures EditText("k=x", map["k" := "a\nb"], []) == Ok("k=a\nb")
    ensures LoadText("k=a\nb") == Some(map[Utf16("k") := Utf16("a"), Utf16("b") := []])
  {
    ExampleEdit();
    ExampleLoad();
  }

  lemma EscapeExample()
    ensures Escape("a\nb") == "a\nb"
  {
    EscapeCons("a\nb");
    assert "a\nb"[1..] == "\nb" && "\nb"[1..] == "b" && "b"[1..] == "";
    EscapeCons("\nb");
    EscapeCons("b");
    assert Escape("") == "";
  }

  lemma ExamplePieces()
    ensures Pieces("a\nb") == ["a", "b"]
  {
    var value := "a\nb";
    BreakAtIs(value, 1);
    assert value[..1] == "a" && value[2..] == "b";
    PiecesFree("b");
  }

  lemma ExampleLoad()
    ensures LoadText("k=a\nb") == Some(map[Utf16("k") := Utf16("a"), Utf16("b") := []])
  {
    EscapeExample();
    assert Written("k", "a\nb") == "k=a\nb";
    WrittenTextLoads("k", "a\nb");
    hide LoadText, Pieces, Utf16, Escape;
    ExamplePieces();
    var first: Table := map[Utf16("k") := Utf16("a")];
    assert ["a", "b"][1..] == ["b"];
    BareOne(first, "b");
  }

  lemma BareOne(table: Table, piece: string)
    requires piece != []
    ensures BareAll(table, [piece]) == table[Utf16(piece) := []]
  {
    assert [piece][1..] == [];
  }

  lemma ExampleEdit()
    ensures EditText("k=x", map["k" := "a\nb"], []) == Ok("k=a\nb")
  {
    var text := "k=x";
    assert Lines(text, true) == [text] by {
      assert forall i :: 0 <= i < |text| ==> !EndsLine(text[i], true);
      assert BreakAt(text, true) == 3;
    }
    ExampleLine();
    assert Tail(text) == [] && "k=a\nb" + [] == "k=a\nb";
    assert Join(["k=a\nb"], Newline(text)) == "k=a\nb";
  }

  lemma ExampleLine()
    ensures Edit(["k=x"], map["k" := "a\nb"], []) == Ok(["k=a\nb"])
  {
    var text, updates := "k=x", map["k" := "a\nb"];
    EscapeExample();
    IndexAfter("k", "=x");
    assert "k" + "=x" == text && text[..1] == "k";
    StripPlain("k");
    assert KeyOf(text) == "k";
    assert !Skipped(text) by { assert StripLeft(text) == text; }
    assert KeysOf([text]) == {"k"} by { assert [text][0] == text; }
    assert updates.Keys - KeysOf([text]) == {};
    assert EditLines([text], updates) == [EditLine(text, updates)];
    assert EditLine(text, updates) == "k" + "=" + Escape("a\nb") == "k=a\nb";
    assert AddedLines([]) == [];
    assert ["k=a\nb"] + [] == ["k=a\nb"];
  }
}
