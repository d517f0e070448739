/**
 Editing and escaping of properties files (src/cmnd_linux/vendor_config.py).

 Escaping and loading as java.util.Properties does it come first, with the
 proof that an escaped value loads as itself; then the editor and its loops,
 and the proof that an edited file loads as the original table edited.
 */
module JavaProperties {
  import opened Sequences
  import opened Wrappers
  import opened Text

  const FORM_FEED := '\U{000C}'

  // ---- Characters as Java sees them ----

  /** The UTF-16 code units of a character. */
  function Utf16Char(c: char): (r: seq<nat>)
    ensures 1 <= |r| <= 2 && forall i :: 0 <= i < |r| ==> r[i] < 0x10000
  {
    var n := c as int;
    if n < 0x10000 then [n]
    else [0xD800 + (n - 0x10000) / 0x400, 0xDC00 + (n - 0x10000) % 0x400]
  }

  function Utf16(s: string): seq<nat> {
    if s == [] then [] else Utf16Char(s[0]) + Utf16(s[1..])
  }

  lemma {:induction false} Utf16Injective(s: string, t: string)
    requires Utf16(s) == Utf16(t)
    ensures s == t
  {
    if s == [] || t == [] {
      assert s != [] ==> |Utf16(s)| > 0;
      assert t != [] ==> |Utf16(t)| > 0;
    } else {
      var x, y := Utf16Char(s[0]), Utf16Char(t[0]);
      assert x[0] == Utf16(s)[0] == Utf16(t)[0] == y[0];
      SameHead(x, Utf16(s[1..]), y, Utf16(t[1..]));
      Utf16CharInjective(s[0], t[0]);
      Utf16Injective(s[1..], t[1..]);
    }
  }

  lemma Utf16CharInjective(a: char, b: char)
    requires Utf16Char(a) == Utf16Char(b)
    ensures a == b
  {
    var m, n := a as int - 0x10000, b as int - 0x10000;
    if m >= 0 {
      assert n >= 0;
      assert m / 0x400 == n / 0x400 && m % 0x400 == n % 0x400;
      assert m == 0x400 * (m / 0x400) + m % 0x400 && n == 0x400 * (n / 0x400) + n % 0x400;
    }
  }

  const HEX := "0123456789abcdef"

  function HexDigit(n: nat): char
    requires n < 16
  {
    HEX[n]
  }

  function HexValue(c: char): (r: Option<nat>)
    ensures r.Some? ==> r.value < 16
  {
    if '0' <= c <= '9' then Some(c as int - '0' as int)
    else if 'a' <= c <= 'f' then Some(c as int - 'a' as int + 10)
    else if 'A' <= c <= 'F' then Some(c as int - 'A' as int + 10)
    else None
  }

  lemma HexRoundTrip(n: nat)
    requires n < 16
    ensures HexValue(HexDigit(n)) == Some(n)
  {
  }

  /** A unit as `\uXXXX`. */
  function EscapeUnit(unit: nat): (r: string)
    requires unit < 0x10000
    ensures |r| == 6
  {
    ['\\', 'u', HexDigit(unit / 4096), HexDigit(unit / 256 % 16), HexDigit(unit / 16 % 16), HexDigit(unit % 16)]
  }

  function EscapeUnits(units: seq<nat>): string
    requires forall i :: 0 <= i < |units| ==> units[i] < 0x10000
  {
    if units == [] then [] else EscapeUnit(units[0]) + EscapeUnits(units[1..])
  }

  function EscapeChar(first: bool, c: char): string {
    if c == '\\' then "\\\\"
    else if c == '\t' then "\\t"
    else if c == FORM_FEED then "\\f"
    else if first && c == ' ' then "\\ "
    else if c in {'=', ':', '#', ' ', '!'} then ['\\', c]
    else if c as int > 0x7E then EscapeUnits(Utf16Char(c))
    else [c]
  }

  /** The escaped form of the characters from `index` on. */
  function EscapeFrom(value: string, index: nat): string
    requires index <= |value|
    decreases |value| - index
  {
    if index == |value| then [] else EscapeChar(index == 0, value[index]) + EscapeFrom(value, index + 1)
  }

  function Escape(value: string): string {
    EscapeFrom(value, 0)
  }

  /** The escaping loop of the program. */
  method EscapeValue(value: string) returns (escaped: string)
    ensures escaped == Escape(value)
    ensures Guarded(escaped) && Unescape(escaped) == Some(Utf16(value))
  {
    hide Guarded, Unescape, Utf16;
    EscapeGuarded(value, 0);
    UnescapeOfEscape(value, 0);
    assert value[0..] == value;
    escaped := [];
    for index := 0 to |value|
      invariant escaped + EscapeFrom(value, index) == Escape(value)
    {
      var c := value[index];
      Associative(escaped, EscapeChar(index == 0, c), EscapeFrom(value, index + 1));
      escaped := escaped + EscapeChar(index == 0, c);
    }
  }

  // ---- What load makes of a value ----

  function Prefix(units: seq<nat>, rest: Option<seq<nat>>): Option<seq<nat>> {
    if rest.None? then None else Some(units + rest.value)
  }

  function ReadUnit(text: string): (r: Option<nat>)
    requires |text| >= 4
    ensures r.Some? ==> r.value < 0x10000
  {
    var a, b, c, d := HexValue(text[0]), HexValue(text[1]), HexValue(text[2]), HexValue(text[3]);
    if a.None? || b.None? || c.None? || d.None? then None
    else Some(a.value * 4096 + b.value * 256 + c.value * 16 + d.value)
  }

  function ControlUnit(c: char): nat {
    if c == 't' then 9 else if c == 'n' then 10 else if c == 'r' then 13 else 12
  }

  /** The units a value denotes; None where load rejects it. */
  function Unescape(text: string): Option<seq<nat>>
    decreases |text|
  {
    if text == [] then Some([])
    else if text[0] != '\\' then Prefix(Utf16Char(text[0]), Unescape(text[1..]))
    else if |text| == 1 then None
    else if text[1] == 'u' then
      if |text| < 6 || ReadUnit(text[2..]).None? then None
      else Prefix([ReadUnit(text[2..]).value], Unescape(text[6..]))
    else if text[1] in {'t', 'n', 'r', 'f'} then Prefix([ControlUnit(text[1])], Unescape(text[2..]))
    else Prefix(Utf16Char(text[1]), Unescape(text[2..]))
  }

  lemma PrefixTwice(x: seq<nat>, y: seq<nat>, rest: Option<seq<nat>>)
    ensures Prefix(x, Prefix(y, rest)) == Prefix(x + y, rest)
  {
    if rest.Some? { Associative(x, y, rest.value); }
  }

  lemma HexDigits(unit: nat)
    requires unit < 0x10000
    ensures unit / 4096 < 16
    ensures unit == unit / 4096 * 4096 + unit / 256 % 16 * 256 + unit / 16 % 16 * 16 + unit % 16
  {
    var a, b := unit / 16, unit / 256;
    assert unit == 16 * a + unit % 16;
    assert a / 16 == b && a == 16 * b + a % 16;
    assert b / 16 == unit / 4096 && b == 16 * (b / 16) + b % 16;
  }

  lemma ReadHex(a: nat, b: nat, c: nat, d: nat, text: string)
    requires a < 16 && b < 16 && c < 16 && d < 16 && |text| >= 4
    requires text[0] == HexDigit(a) && text[1] == HexDigit(b) && text[2] == HexDigit(c) && text[3] == HexDigit(d)
    ensures ReadUnit(text) == Some(a * 4096 + b * 256 + c * 16 + d)
  {
    HexRoundTrip(a);
    HexRoundTrip(b);
    HexRoundTrip(c);
    HexRoundTrip(d);
  }

  lemma UnitReads(unit: nat, rest: string)
    requires unit < 0x10000
    ensures var text := EscapeUnit(unit) + rest;
            text[0] == '\\' && text[1] == 'u' && ReadUnit(text[2..]) == Some(unit)
  {
    hide Unescape, ReadUnit, HexDigit;
    HexDigits(unit);
    ReadHex(unit / 4096, unit / 256 % 16, unit / 16 % 16, unit % 16, (EscapeUnit(unit) + rest)[2..]);
  }

  lemma UnescapeUnit(unit: nat, rest: string)
    requires unit < 0x10000
    ensures Unescape(EscapeUnit(unit) + rest) == Prefix([unit], Unescape(rest))
  {
    UnitReads(unit, rest);
    hide EscapeUnit, ReadUnit, Utf16Char;
    assert (EscapeUnit(unit) + rest)[6..] == rest;
  }

  lemma {:induction false} UnescapeUnits(units: seq<nat>, rest: string)
    requires forall i :: 0 <= i < |units| ==> units[i] < 0x10000
    ensures Unescape(EscapeUnits(units) + rest) == Prefix(units, Unescape(rest))
  {
    if units == [] {
      assert EscapeUnits(units) + rest == rest;
      if Unescape(rest).Some? { assert [] + Unescape(rest).value == Unescape(rest).value; }
    } else {
      UnescapeUnits(units[1..], rest);
      Associative(EscapeUnit(units[0]), EscapeUnits(units[1..]), rest);
      UnescapeUnit(units[0], EscapeUnits(units[1..]) + rest);
      PrefixTwice([units[0]], units[1..], Unescape(rest));
      assert [units[0]] + units[1..] == units;
    }
  }

  lemma UnescapeChar(first: bool, c: char, rest: string)
    ensures Unescape(EscapeChar(first, c) + rest) == Prefix(Utf16Char(c), Unescape(rest))
  {
    var text := EscapeChar(first, c) + rest;
    if c as int > 0x7E {
      UnescapeUnits(Utf16Char(c), rest);
    } else if c in {'\\', '\t', FORM_FEED, ' ', '=', ':', '#', '!'} {
      assert text[2..] == rest;
    } else {
      assert text[1..] == rest;
    }
  }

  /** Loading an escaped value gives the value back, surrogate pairs included. */
  lemma {:induction false} UnescapeOfEscape(value: string, index: nat)
    requires index <= |value|
    ensures Unescape(EscapeFrom(value, index)) == Some(Utf16(value[index..]))
    decreases |value| - index
  {
    if index < |value| {
      UnescapeOfEscape(value, index + 1);
      UnescapeChar(index == 0, value[index], EscapeFrom(value, index + 1));
      assert value[index..][1..] == value[index + 1..];
    }
  }

  /** Printable ASCII or a control character; separators, comment marks and blanks only behind a backslash. */
  predicate Guarded(escaped: string) {
    && (forall c <- escaped :: c <= '~' && c != '\t' && c != FORM_FEED)
    && forall i :: 0 <= i < |escaped| && escaped[i] in {'=', ':', '#', '!', ' '} ==> i > 0 && escaped[i - 1] == '\\'
  }

  lemma GuardedJoin(x: string, y: string)
    requires Guarded(x) && Guarded(y)
    ensures Guarded(x + y)
  {
    forall c <- x + y ensures c <= '~' && c != '\t' && c != FORM_FEED { }
    forall i | 0 <= i < |x + y| && (x + y)[i] in {'=', ':', '#', '!', ' '} ensures i > 0 && (x + y)[i - 1] == '\\' {
      if i < |x| { assert x[i] == (x + y)[i] && x[i - 1] == '\\'; } else { assert y[i - |x|] == (x + y)[i] && y[i - |x| - 1] == '\\'; }
    }
  }

  lemma HexGuarded(n: nat)
    requires n < 16
    ensures '0' <= HexDigit(n) <= '9' || 'a' <= HexDigit(n) <= 'f'
  {
  }

  lemma UnitGuarded(unit: nat)
    requires unit < 0x10000
    ensures Guarded(EscapeUnit(unit))
  {
    hide HexDigit;
    HexGuarded(unit / 4096);
    HexGuarded(unit / 256 % 16);
    HexGuarded(unit / 16 % 16);
    HexGuarded(unit % 16);
  }

  lemma {:induction false} UnitsGuarded(units: seq<nat>)
    requires forall i :: 0 <= i < |units| ==> units[i] < 0x10000
    ensures Guarded(EscapeUnits(units))
  {
    hide EscapeUnit, Guarded;
    NothingGuarded();
    if units != [] {
      UnitGuarded(units[0]);
      UnitsGuarded(units[1..]);
      GuardedJoin(EscapeUnit(units[0]), EscapeUnits(units[1..]));
    }
  }

  lemma NothingGuarded()
    ensures Guarded([])
  {
  }

  lemma CharGuarded(first: bool, c: char)
    ensures Guarded(EscapeChar(first, c))
  {
    if c as int > 0x7E { UnitsGuarded(Utf16Char(c)); }
  }

  /** A written value holds nothing that ends a key, begins a comment or is skipped, and nothing outside ASCII. */
  lemma {:induction false} EscapeGuarded(value: string, index: nat)
    requires index <= |value|
    ensures Guarded(EscapeFrom(value, index))
    decreases |value| - index
  {
    hide Guarded, EscapeChar;
    NothingGuarded();
    if index < |value| {
      CharGuarded(index == 0, value[index]);
      EscapeGuarded(value, index + 1);
      GuardedJoin(EscapeChar(index == 0, value[index]), EscapeFrom(value, index + 1));
    }
  }

  // ---- What load makes of a line ----

  predicate IsJavaSpace(c: char) {
    c == ' ' || c == '\t' || c == FORM_FEED
  }

  function SkipSpace(text: string): string {
    if text != [] && IsJavaSpace(text[0]) then SkipSpace(text[1..]) else text
  }

  /** Where the key ends: an unescaped separator or white space. */
  function KeyLength(text: string, escaped: bool): (n: nat)
    ensures n <= |text|
  {
    if text == [] then 0
    else if !escaped && (text[0] == '=' || text[0] == ':' || IsJavaSpace(text[0])) then 0
    else 1 + KeyLength(text[1..], text[0] == '\\' && !escaped)
  }

  /** What stands behind the key: white space, at most one separator, white space. */
  function AfterSeparator(text: string): string {
    var rest := SkipSpace(text);
    if rest != [] && (rest[0] == '=' || rest[0] == ':') then SkipSpace(rest[1..]) else rest
  }

  datatype Loaded = Nothing | Malformed | Entry(key: seq<nat>, value: seq<nat>)

  /** The entry of a logical line without white space before it. */
  function LoadEntry(text: string): Loaded {
    var n := KeyLength(text, false);
    var key, value := Unescape(text[..n]), Unescape(AfterSeparator(text[n..]));
    if key.None? || value.None? then Malformed else Entry(key.value, value.value)
  }

  /** java.util.Properties.load on one line that is not continued. */
  function LoadLine(line: string): Loaded {
    var text := SkipSpace(line);
    if text == [] || text[0] == '#' || text[0] == '!' then Nothing else LoadEntry(text)
  }

  type Table = map<seq<nat>, seq<nat>>

  /** The lines in order; a later entry replaces an earlier one. */
  function Load(lines: seq<string>): Table {
    if lines == [] then map[]
    else
      var last := LoadLine(lines[|lines| - 1]);
      var before := Load(lines[..|lines| - 1]);
      if last.Entry? then before[last.key := last.value] else before
  }

  // ---- The program's editing ----

  function StripLeft(text: string): string {
    if text != [] && IsSpace(text[0]) then StripLeft(text[1..]) else text
  }

  function StripRight(text: string): string {
    if text != [] && IsSpace(text[|text| - 1]) then StripRight(text[..|text| - 1]) else text
  }

  function Strip(text: string): string {
    StripRight(StripLeft(text))
  }

  function IndexOf(text: string, c: char): (n: nat)
    ensures n <= |text|
    ensures n < |text| ==> text[n] == c
    ensures forall i :: 0 <= i < n ==> text[i] != c
  {
    if text == [] || text[0] == c then 0 else 1 + IndexOf(text[1..], c)
  }

  /** Lines without a key for the program: empty, comments, and lines without `=`. */
  predicate Skipped(line: string) {
    var text := StripLeft(line);
    line == [] || (text != [] && (text[0] == '#' || text[0] == '!')) || IndexOf(line, '=') == |line|
  }

  function KeyOf(line: string): string {
    Strip(line[..IndexOf(line, '=')])
  }

  function EditLine(line: string, updates: map<string, string>): string {
    if !Skipped(line) && KeyOf(line) in updates then KeyOf(line) + "=" + Escape(updates[KeyOf(line)]) else line
  }

  function EditLines(lines: seq<string>, updates: map<string, string>): (r: seq<string>)
    ensures |r| == |lines|
    ensures forall i :: 0 <= i < |lines| ==> r[i] == EditLine(lines[i], updates)
  {
    seq(|lines|, i requires 0 <= i < |lines| => EditLine(lines[i], updates))
  }

  function KeysOf(lines: seq<string>): set<string> {
    set i | 0 <= i < |lines| && !Skipped(lines[i]) :: KeyOf(lines[i])
  }

  function AddedLines(additions: seq<(string, string)>): (r: seq<string>)
    ensures |r| == |additions|
    ensures forall i :: 0 <= i < |r| ==> r[i] == additions[i].0 + "=" + Escape(additions[i].1)
  {
    seq(|additions|, i requires 0 <= i < |additions| => additions[i].0 + "=" + Escape(additions[i].1))
  }

  datatype EditError = MissingKeys | AlreadyPresent

  /** The specification of the editing: updates where they stand, additions at the end. */
  function Edit(lines: seq<string>, updates: map<string, string>, additions: seq<(string, string)>)
    : Result<seq<string>, EditError>
  {
    if updates.Keys - KeysOf(lines) != {} then Err(MissingKeys)
    else if exists i :: 0 <= i < |additions| && additions[i].0 in KeysOf(lines) then Err(AlreadyPresent)
    else Ok(EditLines(lines, updates) + AddedLines(additions))
  }

  /** The pass that overwrites lines in place and collects the keys. */
  method UpdateLines(source: seq<string>, updates: map<string, string>)
    returns (lines: seq<string>, existing: set<string>, found: set<string>)
    ensures lines == EditLines(source, updates)
    ensures existing == KeysOf(source) && found == existing * updates.Keys
  {
    lines := source;
    found, existing := {}, {};
    hide Escape, Skipped, KeyOf;
    for index := 0 to |lines|
      invariant |lines| == |source|
      invariant forall i :: 0 <= i < index ==> lines[i] == EditLine(source[i], updates)
      invariant forall i :: index <= i < |lines| ==> lines[i] == source[i]
      invariant existing == set i | 0 <= i < index && !Skipped(source[i]) :: KeyOf(source[i])
      invariant found == existing * updates.Keys
    {
      var line := lines[index];
      if !Skipped(line) {
        var key := KeyOf(line);
        existing := existing + {key};
        if key in updates {
          var escaped := EscapeValue(updates[key]);
          lines := lines[index := key + "=" + escaped];
          found := found + {key};
        }
      }
    }
  }

  /** The program: the updates in place, then the additions. */
  method Props(source: seq<string>, updates: map<string, string>, additions: seq<(string, string)>)
    returns (r: Result<seq<string>, EditError>)
    ensures r == Edit(source, updates, additions)
  {
    hide Escape, Skipped, KeyOf, EditLine, KeysOf;
    var lines, existing, found := UpdateLines(source, updates);
    assert updates.Keys - found == updates.Keys - existing;
    if updates.Keys - found != {} { return Err(MissingKeys); }
    for k := 0 to |additions|
      invariant lines == EditLines(source, updates) + AddedLines(additions[..k])
      invariant forall i :: 0 <= i < k ==> additions[i].0 !in existing
    {
      if additions[k].0 in existing { return Err(AlreadyPresent); }
      var escaped := EscapeValue(additions[k].1);
      assert AddedLines(additions[..k + 1]) == AddedLines(additions[..k]) + [additions[k].0 + "=" + escaped];
      lines := lines + [additions[k].0 + "=" + escaped];
    }
    assert additions[..|additions|] == additions;
    return Ok(lines);
  }

  // ---- Plain files ----

  predicate PlainKeyChar(c: char) {
    !IsSpace(c) && c != '=' && c != ':' && c != '\\'
  }

  predicate PlainKey(key: string) {
    key != [] && key[0] != '#' && key[0] != '!' && forall i :: 0 <= i < |key| ==> PlainKeyChar(key[i])
  }

  /** The text ends in a backslash that escapes the line break. */
  predicate OpenEscape(text: string, escaped: bool) {
    if text == [] then escaped else OpenEscape(text[1..], text[0] == '\\' && !escaped)
  }

  predicate Remark(line: string) {
    var text := SkipSpace(line);
    text == [] || text[0] == '#' || text[0] == '!'
  }

  /** A blank line, a comment, or `key=value` with a plain key, a readable value and no continuation. */
  predicate PlainLine(line: string) {
    Remark(line) ||
    (var n := IndexOf(line, '=');
     && n < |line| && PlainKey(KeyOf(line))
     && (forall i :: 0 <= i < n && IsSpace(line[i]) ==> IsJavaSpace(line[i]))
     && LoadLine(line) != Malformed && !OpenEscape(line, false))
  }

  predicate PlainFile(lines: seq<string>) {
    forall i :: 0 <= i < |lines| ==> PlainLine(lines[i])
  }

  predicate JavaSpaced(text: string) {
    forall i :: 0 <= i < |text| && IsSpace(text[i]) ==> IsJavaSpace(text[i])
  }

  lemma {:induction false} SkipIsStripLeft(text: string)
    requires JavaSpaced(text)
    ensures SkipSpace(text) == StripLeft(text) && JavaSpaced(StripLeft(text))
  {
    if text != [] && IsSpace(text[0]) {
      assert forall i :: 0 <= i < |text[1..]| ==> text[1..][i] == text[i + 1];
      SkipIsStripLeft(text[1..]);
    }
  }

  lemma {:induction false} SkipAppend(text: string, rest: string)
    requires rest != [] && !IsJavaSpace(rest[0])
    ensures SkipSpace(text + rest) == SkipSpace(text) + rest
  {
    if text == [] {
      assert text + rest == rest;
    } else if IsJavaSpace(text[0]) {
      ConsAppend(text, rest);
      SkipAppend(text[1..], rest);
    }
  }

  lemma {:induction false} SkipAll(text: string, rest: string)
    requires (forall i :: 0 <= i < |text| ==> IsJavaSpace(text[i])) && rest != [] && !IsJavaSpace(rest[0])
    ensures SkipSpace(text + rest) == rest
  {
    if text == [] {
      assert text + rest == rest;
    } else {
      ConsAppend(text, rest);
      SkipAll(text[1..], rest);
    }
  }

  lemma {:induction false} StripRightSplit(text: string)
    requires JavaSpaced(text)
    ensures |StripRight(text)| <= |text| && text[..|StripRight(text)|] == StripRight(text)
    ensures forall i :: |StripRight(text)| <= i < |text| ==> IsJavaSpace(text[i])
  {
    if text != [] && IsSpace(text[|text| - 1]) {
      StripRightSplit(text[..|text| - 1]);
    }
  }

  lemma {:induction false} KeyLengthPlain(key: string, rest: string)
    requires forall i :: 0 <= i < |key| ==> PlainKeyChar(key[i])
    requires rest != [] && (rest[0] == '=' || IsJavaSpace(rest[0]))
    ensures KeyLength(key + rest, false) == |key|
  {
    if key == [] {
      assert key + rest == rest;
    } else {
      ConsAppend(key, rest);
      KeyLengthPlain(key[1..], rest);
    }
  }

  lemma {:induction false} UnescapePlain(key: string)
    requires forall i :: 0 <= i < |key| ==> PlainKeyChar(key[i])
    ensures Unescape(key) == Some(Utf16(key))
  {
    if key != [] { UnescapePlain(key[1..]); }
  }

  /** A key with white space around it and a value, read as that key. */
  lemma LoadKeyValue(key: string, space: string, rest: string)
    requires PlainKey(key) && (forall i :: 0 <= i < |space| ==> IsJavaSpace(space[i])) && rest != [] && rest[0] == '='
    ensures var text := key + (space + rest);
            && KeyLength(text, false) == |key| && text[..|key|] == key
            && AfterSeparator(text[|key|..]) == SkipSpace(rest[1..])
            && Unescape(key) == Some(Utf16(key))
  {
    assert (space + rest)[0] == (if space == [] then rest[0] else space[0]);
    KeyLengthPlain(key, space + rest);
    UnescapePlain(key);
    SkipAll(space, rest);
    assert (key + (space + rest))[|key|..] == space + rest;
  }

  lemma KeyParts(before: string, rest: string) returns (space: string)
    requires JavaSpaced(before) && rest != [] && rest[0] == '='
    ensures forall i :: 0 <= i < |space| ==> IsJavaSpace(space[i])
    ensures SkipSpace(before + rest) == Strip(before) + (space + rest)
  {
    SkipIsStripLeft(before);
    SkipAppend(before, rest);
    var text := StripLeft(before);
    StripRightSplit(text);
    var key := StripRight(text);
    space := text[|key|..];
    assert text == key + space;
    Associative(key, space, rest);
  }

  lemma PlainParts(line: string) returns (space: string, rest: string)
    requires PlainLine(line) && !Remark(line)
    ensures PlainKey(KeyOf(line)) && LoadLine(line) != Malformed
    ensures forall i :: 0 <= i < |space| ==> IsJavaSpace(space[i])
    ensures rest != [] && rest[0] == '=' && SkipSpace(line) == KeyOf(line) + (space + rest)
  {
    var n := IndexOf(line, '=');
    rest := line[n..];
    space := KeyParts(line[..n], rest);
    assert line == line[..n] + rest;
  }

  /** A plain `key=value` line is an entry of the key that the program sees. */
  lemma PlainEntry(line: string)
    requires PlainLine(line) && !Remark(line)
    ensures LoadLine(line).Entry? && LoadLine(line).key == Utf16(KeyOf(line)) && PlainKey(KeyOf(line))
  {
    var space, rest := PlainParts(line);
    LoadKeyValue(KeyOf(line), space, rest);
  }

  lemma {:induction false} StripLeftSkips(line: string)
    ensures SkipSpace(line) != [] && !IsSpace(SkipSpace(line)[0]) ==> StripLeft(line) == SkipSpace(line)
    ensures SkipSpace(line) == [] ==> forall i :: 0 <= i < |line| ==> IsJavaSpace(line[i])
  {
    if line != [] && IsJavaSpace(line[0]) {
      StripLeftSkips(line[1..]);
      assert forall i :: 0 < i < |line| ==> line[i] == line[1..][i - 1];
    }
  }

  lemma RemarkSkipped(line: string)
    requires Remark(line)
    ensures Skipped(line) && LoadLine(line) == Nothing
  {
    StripLeftSkips(line);
  }

  lemma PlainNotSkipped(line: string)
    requires PlainLine(line) && !Remark(line)
    ensures !Skipped(line)
  {
    var space, rest := PlainParts(line);
    var key := KeyOf(line);
    assert SkipSpace(line)[0] == key[0];
    assert PlainKeyChar(key[0]);
    StripLeftSkips(line);
  }

  // ---- The lines the program writes ----

  lemma EscapeCharOpens(first: bool, c: char, rest: string)
    ensures EscapeChar(first, c) != [] && !IsJavaSpace(EscapeChar(first, c)[0])
    ensures OpenEscape(EscapeChar(first, c) + rest, false) == OpenEscape(rest, false)
  {
    var text := EscapeChar(first, c) + rest;
    if c as int > 0x7E {
      var units := Utf16Char(c);
      OpenEscapeUnits(units, rest);
      assert EscapeUnits(units)[0] == EscapeUnit(units[0])[0];
    } else if c in {'\\', '\t', FORM_FEED, ' ', '=', ':', '#', '!'} {
      assert text[1..][1..] == rest;
    } else {
      assert text[1..] == rest;
    }
  }

  lemma {:induction false} OpenEscapeUnits(units: seq<nat>, rest: string)
    requires forall i :: 0 <= i < |units| ==> units[i] < 0x10000
    ensures OpenEscape(EscapeUnits(units) + rest, false) == OpenEscape(rest, false)
  {
    if units == [] {
      assert EscapeUnits(units) + rest == rest;
    } else {
      var tail := EscapeUnits(units[1..]) + rest;
      Associative(EscapeUnit(units[0]), EscapeUnits(units[1..]), rest);
      OpenEscapeUnits(units[1..], rest);
      OpenEscapeUnit(units[0], tail);
    }
  }

  lemma HexNotBackslash(n: nat)
    requires n < 16
    ensures HexDigit(n) != '\\'
  {
  }

  lemma OpenEscapeUnit(unit: nat, rest: string)
    requires unit < 0x10000
    ensures OpenEscape(EscapeUnit(unit) + rest, false) == OpenEscape(rest, false)
  {
    HexNotBackslash(unit / 4096);
    HexNotBackslash(unit / 256 % 16);
    HexNotBackslash(unit / 16 % 16);
    HexNotBackslash(unit % 16);
    var t := EscapeUnit(unit) + rest;
    assert t[1..][1..] == t[2..];
    OpenPlain(t[2..], 4);
    assert t[2..][4..] == rest;
  }

  /** Characters other than a backslash leave no open escape. */
  lemma {:induction false} OpenPlain(text: string, n: nat)
    requires n <= |text| && forall i :: 0 <= i < n ==> text[i] != '\\'
    ensures OpenEscape(text, false) == OpenEscape(text[n..], false)
    ensures n > 0 ==> OpenEscape(text, true) == OpenEscape(text[n..], false)
  {
    if n > 0 {
      assert text[1..][n - 1..] == text[n..];
      OpenPlain(text[1..], n - 1);
    }
  }

  lemma {:induction false} EscapedCloses(value: string, index: nat)
    requires index <= |value|
    ensures !OpenEscape(EscapeFrom(value, index), false)
    ensures EscapeFrom(value, index) == [] || !IsJavaSpace(EscapeFrom(value, index)[0])
    decreases |value| - index
  {
    hide EscapeChar;
    if index < |value| {
      EscapedCloses(value, index + 1);
      EscapeCharOpens(index == 0, value[index], EscapeFrom(value, index + 1));
    }
  }

  lemma {:induction false} IndexAfter(key: string, rest: string)
    requires (forall i :: 0 <= i < |key| ==> key[i] != '=') && rest != [] && rest[0] == '='
    ensures IndexOf(key + rest, '=') == |key|
  {
    if key == [] {
      assert key + rest == rest;
    } else {
      ConsAppend(key, rest);
      IndexAfter(key[1..], rest);
    }
  }

  lemma StripPlain(key: string)
    requires PlainKey(key)
    ensures Strip(key) == key
  {
    assert PlainKeyChar(key[0]) && PlainKeyChar(key[|key| - 1]);
  }

  lemma WrittenStarts(key: string, rest: string)
    requires PlainKey(key) && rest != [] && rest[0] == '='
    ensures SkipSpace(key + rest) == key + rest && !Remark(key + rest)
    ensures IndexOf(key + rest, '=') == |key| && KeyOf(key + rest) == key
  {
    var line := key + rest;
    assert line[0] == key[0] && PlainKeyChar(key[0]);
    forall i | 0 <= i < |key|
      ensures key[i] != '='
    {
      assert PlainKeyChar(key[i]);
    }
    IndexAfter(key, rest);
    assert line[..|key|] == key;
    StripPlain(key);
  }

  lemma WrittenLoads(key: string, value: string)
    requires PlainKey(key)
    ensures LoadLine(key + ("=" + Escape(value))) == Entry(Utf16(key), Utf16(value))
  {
    var rest := "=" + Escape(value);
    WrittenStarts(key, rest);
    LoadKeyValue(key, [], rest);
    assert [] + rest == rest;
    EscapedCloses(value, 0);
    assert rest[1..] == Escape(value);
    UnescapeOfEscape(value, 0);
    assert value[0..] == value;
  }

  lemma WrittenCloses(key: string, value: string)
    requires PlainKey(key)
    ensures !OpenEscape(key + ("=" + Escape(value)), false)
  {
    var line := key + ("=" + Escape(value));
    forall i | 0 <= i < |key| + 1
      ensures line[i] != '\\'
    {
      if i < |key| { assert PlainKeyChar(key[i]); }
    }
    OpenPlain(line, |key| + 1);
    assert line[|key| + 1..] == Escape(value);
    EscapedCloses(value, 0);
  }

  /** A written line is plain and loads as its key and its unescaped value. */
  lemma WrittenLine(key: string, value: string)
    requires PlainKey(key)
    ensures var line := key + "=" + Escape(value);
            && PlainLine(line) && !Remark(line) && KeyOf(line) == key
            && LoadLine(line) == Entry(Utf16(key), Utf16(value))
  {
    var rest := "=" + Escape(value);
    Associative(key, "=", Escape(value));
    WrittenStarts(key, rest);
    WrittenLoads(key, value);
    WrittenCloses(key, value);
    forall i | 0 <= i < |key|
      ensures !IsSpace((key + rest)[i])
    {
      assert PlainKeyChar(key[i]);
    }
  }

  // ---- Loading the edited file ----

  lemma InjectiveKeys(a: string, b: string)
    ensures Utf16(a) == Utf16(b) <==> a == b
  {
    if Utf16(a) == Utf16(b) { Utf16Injective(a, b); }
  }

  /** `after` is `before` with the values of the updated keys replaced. */
  predicate Overridden(before: Table, after: Table, updates: map<string, string>) {
    && after.Keys == before.Keys
    && (forall key :: key in updates && Utf16(key) in before ==> after[Utf16(key)] == Utf16(updates[key]))
    && (forall k :: k in before && (forall key :: key in updates ==> Utf16(key) != k) ==> after[k] == before[k])
  }

  lemma OverriddenStep(before: Table, after: Table, updates: map<string, string>, key: string, old_: seq<nat>, new_: seq<nat>)
    requires Overridden(before, after, updates)
    requires new_ == if key in updates then Utf16(updates[key]) else old_
    ensures Overridden(before[Utf16(key) := old_], after[Utf16(key) := new_], updates)
  {
    forall other | other in updates
      ensures Utf16(other) == Utf16(key) <==> other == key
    {
      InjectiveKeys(other, key);
    }
  }

  function LoadStep(before: Table, line: string): Table {
    if LoadLine(line).Entry? then before[LoadLine(line).key := LoadLine(line).value] else before
  }

  lemma LoadLast(front: seq<string>, line: string)
    ensures Load(front + [line]) == LoadStep(Load(front), line)
  {
    assert (front + [line])[..|front|] == front;
  }

  /** A plain line stays plain under editing, keeps its key and gets the updated value. */
  lemma PlainEdited(line: string, updates: map<string, string>)
    requires PlainLine(line)
    ensures PlainLine(EditLine(line, updates))
    ensures Remark(line) ==> Skipped(line) && LoadLine(line) == LoadLine(EditLine(line, updates)) == Nothing
    ensures !Remark(line) ==>
              && !Skipped(line) && PlainKey(KeyOf(line))
              && LoadLine(line).Entry? && LoadLine(line).key == Utf16(KeyOf(line))
              && LoadLine(EditLine(line, updates))
                 == Entry(Utf16(KeyOf(line)), if KeyOf(line) in updates then Utf16(updates[KeyOf(line)]) else LoadLine(line).value)
  {
    if Remark(line) {
      RemarkSkipped(line);
    } else {
      PlainEntry(line);
      PlainNotSkipped(line);
      if KeyOf(line) in updates { WrittenLine(KeyOf(line), updates[KeyOf(line)]); }
    }
  }

  lemma EditedStep(before: Table, after: Table, line: string, updates: map<string, string>)
    requires PlainLine(line) && Overridden(before, after, updates)
    ensures PlainLine(EditLine(line, updates))
    ensures Overridden(LoadStep(before, line), LoadStep(after, EditLine(line, updates)), updates)
  {
    PlainEdited(line, updates);
    if !Remark(line) {
      OverriddenStep(before, after, updates, KeyOf(line), LoadLine(line).value, LoadLine(EditLine(line, updates)).value);
    }
  }

  lemma Snoc(lines: seq<string>)
    requires lines != []
    ensures lines == lines[..|lines| - 1] + [lines[|lines| - 1]]
  {
  }

  lemma EditSnoc(front: seq<string>, line: string, updates: map<string, string>)
    ensures EditLines(front + [line], updates) == EditLines(front, updates) + [EditLine(line, updates)]
  {
  }

  /** Editing the lines overrides the loaded table; no line stops being plain. */
  lemma {:induction false} LoadEdited(lines: seq<string>, updates: map<string, string>)
    requires PlainFile(lines)
    ensures PlainFile(EditLines(lines, updates))
    ensures Overridden(Load(lines), Load(EditLines(lines, updates)), updates)
  {
    if lines != [] {
      var front, last := lines[..|lines| - 1], lines[|lines| - 1];
      Snoc(lines);
      LoadEdited(front, updates);
      EditedStep(Load(front), Load(EditLines(front, updates)), last, updates);
      EditSnoc(front, last, updates);
      LoadLast(front, last);
      LoadLast(EditLines(front, updates), EditLine(last, updates));
    }
  }

  /** The program's keys are the plain keys of the loaded table. */
  lemma {:induction false} KeysLoaded(lines: seq<string>, key: string)
    requires PlainFile(lines)
    ensures key in KeysOf(lines) <==> Utf16(key) in Load(lines)
  {
    if lines != [] {
      var front, last := lines[..|lines| - 1], lines[|lines| - 1];
      Snoc(lines);
      KeysLoaded(front, key);
      LoadLast(front, last);
      KeysSnoc(front, last);
      PlainEdited(last, map[]);
      if !Remark(last) { InjectiveKeys(key, KeyOf(last)); }
    }
  }

  lemma KeysSnoc(front: seq<string>, line: string)
    ensures KeysOf(front + [line]) == KeysOf(front) + if Skipped(line) then {} else {KeyOf(line)}
  {
    var all := front + [line];
    forall key | key in KeysOf(front)
      ensures key in KeysOf(all)
    {
      var i :| 0 <= i < |front| && !Skipped(front[i]) && KeyOf(front[i]) == key;
      assert all[i] == front[i];
    }
    if !Skipped(line) { assert all[|front|] == line; }
  }

  predicate DistinctKeys(additions: seq<(string, string)>) {
    forall i, j :: 0 <= i < j < |additions| ==> additions[i].0 != additions[j].0
  }

  /** `after` is `before` with the additions put in. */
  predicate Extended(before: Table, after: Table, additions: seq<(string, string)>) {
    && (forall i :: 0 <= i < |additions| ==>
          Utf16(additions[i].0) in after && after[Utf16(additions[i].0)] == Utf16(additions[i].1))
    && (forall k :: k in before.Keys + after.Keys ==>
          (forall i :: 0 <= i < |additions| ==> Utf16(additions[i].0) != k) ==>
            k in before && k in after && after[k] == before[k])
  }

  /** An addition with a new key differs from the earlier ones as Java sees them. */
  lemma NewKey(front: seq<(string, string)>, last: (string, string), i: nat)
    requires DistinctKeys(front + [last]) && i < |front|
    ensures Utf16(front[i].0) != Utf16(last.0)
  {
    var all := front + [last];
    assert all[i] == front[i] && all[|front|] == last;
    InjectiveKeys(front[i].0, last.0);
  }

  lemma ExtendedStep(before: Table, after: Table, front: seq<(string, string)>, key: string, value: string)
    requires Extended(before, after, front) && DistinctKeys(front + [(key, value)])
    ensures Extended(before, after[Utf16(key) := Utf16(value)], front + [(key, value)])
  {
    hide Utf16;
    var all := front + [(key, value)];
    forall i | 0 <= i < |front| ensures Utf16(front[i].0) != Utf16(key) { NewKey(front, (key, value), i); }
    assert all[|front|] == (key, value) && forall i :: 0 <= i < |front| ==> all[i] == front[i];
    forall k | k in before.Keys + after.Keys + {Utf16(key)} && forall i :: 0 <= i < |all| ==> Utf16(all[i].0) != k
      ensures k in before && k in after && after[k] == before[k] && k != Utf16(key)
    {
      assert Utf16(all[|front|].0) != k;
      assert forall i :: 0 <= i < |front| ==> Utf16(front[i].0) == Utf16(all[i].0);
    }
  }

  lemma AddedSnoc(lines: seq<string>, front: seq<(string, string)>, last: (string, string))
    ensures lines + AddedLines(front + [last]) == (lines + AddedLines(front)) + [last.0 + "=" + Escape(last.1)]
  {
  }

  lemma {:induction false} LoadAdded(lines: seq<string>, additions: seq<(string, string)>)
    requires PlainFile(lines) && DistinctKeys(additions)
    requires forall i :: 0 <= i < |additions| ==> PlainKey(additions[i].0)
    ensures PlainFile(lines + AddedLines(additions))
    ensures Extended(Load(lines), Load(lines + AddedLines(additions)), additions)
    decreases |additions|
  {
    if additions == [] {
      assert lines + AddedLines(additions) == lines;
    } else {
      var front, last := additions[..|additions| - 1], additions[|additions| - 1];
      assert additions == front + [last];
      LoadAdded(lines, front);
      WrittenLine(last.0, last.1);
      AddedSnoc(lines, front, last);
      LoadLast(lines + AddedLines(front), last.0 + "=" + Escape(last.1));
      ExtendedStep(Load(lines), Load(lines + AddedLines(front)), front, last.0, last.1);
    }
  }

  /** No update and no addition has the key `k`. */
  predicate Unnamed(k: seq<nat>, updates: map<string, string>, additions: seq<(string, string)>) {
    && (forall key :: key in updates ==> Utf16(key) != k)
    && (forall i :: 0 <= i < |additions| ==> Utf16(additions[i].0) != k)
  }

  /** `after` is `before` overridden by the updates and extended by the additions. */
  predicate Edited(before: Table, after: Table, updates: map<string, string>, additions: seq<(string, string)>) {
    && (forall key :: key in updates ==>
          Utf16(key) in before && Utf16(key) in after && after[Utf16(key)] == Utf16(updates[key]))
    && (forall i :: 0 <= i < |additions| ==>
          && Utf16(additions[i].0) !in before && Utf16(additions[i].0) in after
          && after[Utf16(additions[i].0)] == Utf16(additions[i].1))
    && (forall k :: k in before.Keys + after.Keys && Unnamed(k, updates, additions) ==>
          k in before && k in after && after[k] == before[k])
  }

  lemma UpdatesStay(before: Table, middle: Table, after: Table,
                    updates: map<string, string>, additions: seq<(string, string)>, key: string)
    requires Overridden(before, middle, updates) && Extended(middle, after, additions)
    requires key in updates && Utf16(key) in before
    requires forall i :: 0 <= i < |additions| ==> Utf16(additions[i].0) !in before
    ensures Utf16(key) in after && after[Utf16(key)] == Utf16(updates[key])
  {
    assert forall i :: 0 <= i < |additions| ==> Utf16(additions[i].0) != Utf16(key);
  }

  lemma OthersStay(before: Table, middle: Table, after: Table,
                   updates: map<string, string>, additions: seq<(string, string)>, k: seq<nat>)
    requires Overridden(before, middle, updates) && Extended(middle, after, additions)
    requires k in before.Keys + after.Keys && Unnamed(k, updates, additions)
    ensures k in before && k in after && after[k] == before[k]
  {
    assert k in middle.Keys + after.Keys;
  }

  lemma OverrideThenExtend(before: Table, middle: Table, after: Table,
                           updates: map<string, string>, additions: seq<(string, string)>)
    requires Overridden(before, middle, updates) && Extended(middle, after, additions)
    requires forall key :: key in updates ==> Utf16(key) in before
    requires forall i :: 0 <= i < |additions| ==> Utf16(additions[i].0) !in before
    ensures Edited(before, after, updates, additions)
  {
    hide Utf16;
    forall key | key in updates
      ensures Utf16(key) in after && after[Utf16(key)] == Utf16(updates[key])
    {
      UpdatesStay(before, middle, after, updates, additions, key);
    }
    forall k | k in before.Keys + after.Keys && Unnamed(k, updates, additions)
      ensures k in before && k in after && after[k] == before[k]
    {
      OthersStay(before, middle, after, updates, additions, k);
    }
  }

  /**
   Loading the edited file gives the original table overridden by the updates
   and extended by the additions; every line without an updated key is kept.
   */
  lemma EditLoads(lines: seq<string>, updates: map<string, string>, additions: seq<(string, string)>)
    requires PlainFile(lines) && DistinctKeys(additions)
    requires forall i :: 0 <= i < |additions| ==> PlainKey(additions[i].0)
    requires Edit(lines, updates, additions).Ok?
    ensures var out := Edit(lines, updates, additions).value;
            && PlainFile(out) && |out| == |lines| + |additions|
            && (forall i :: 0 <= i < |lines| && (Skipped(lines[i]) || KeyOf(lines[i]) !in updates) ==> out[i] == lines[i])
            && Edited(Load(lines), Load(out), updates, additions)
  {
    LoadEdited(lines, updates);
    LoadAdded(EditLines(lines, updates), additions);
    forall key | key in updates
      ensures Utf16(key) in Load(lines)
    {
      assert key !in updates.Keys - KeysOf(lines);
      KeysLoaded(lines, key);
    }
    forall i | 0 <= i < |additions|
      ensures Utf16(additions[i].0) !in Load(lines)
    {
      KeysLoaded(lines, additions[i].0);
    }
    OverrideThenExtend(Load(lines), Load(EditLines(lines, updates)),
                       Load(EditLines(lines, updates) + AddedLines(additions)), updates, additions);
  }
}
