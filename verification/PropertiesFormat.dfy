/** What editing a properties file means, character by character (src/cmnd_linux/vendor_config.py). */
module PropertiesFormat {
  import opened Text
  import opened JavaProperties

  // The edit of the program is proved against this description; only the
  // escaping of values is taken from it, which has its own description.

  /** `part` is `s` without the white space around it. */
  ghost predicate Trimmed(s: string, part: string) {
    exists i: nat, j: nat :: TrimmedAt(s, part, i, j)
  }

  predicate TrimmedAt(s: string, part: string, i: nat, j: nat) {
    && i <= j <= |s| && part == s[i..j]
    && (forall k :: 0 <= k < i ==> IsSpace(s[k])) && (forall k :: j <= k < |s| ==> IsSpace(s[k]))
    && (i < j ==> !IsSpace(s[i]) && !IsSpace(s[j - 1]))
  }

  /** The first character that is no white space is `#` or `!`. */
  predicate Commented(line: string) {
    exists i :: 0 <= i < |line| && (line[i] == '#' || line[i] == '!') && forall k :: 0 <= k < i ==> IsSpace(line[k])
  }

  /** The key of a line is what stands before its first equals sign, unless the line is a comment. */
  ghost predicate KeyLine(line: string, key: string) {
    !Commented(line) && exists n :: 0 <= n < |line| && line[n] == '=' && '=' !in line[..n] && Trimmed(line[..n], key)
  }

  /** The line is written anew when its key is updated, and stays as it is otherwise. */
  ghost predicate Revised(line: string, revised: string, updates: map<string, string>) {
    && (forall key :: KeyLine(line, key) && key in updates ==> revised == key + ['='] + Escape(updates[key]))
    && ((forall key :: KeyLine(line, key) ==> key !in updates) ==> revised == line)
  }

  function Woven(lines: seq<string>, ends: seq<string>): string
    requires |lines| == |ends|
  {
    if |lines| == 0 then "" else lines[0] + ends[0] + Woven(lines[1..], ends[1..])
  }

  /** A line end: CR LF, or one character at which Python ends a line. */
  predicate LineEnd(end: string) { end == ['\r', '\n'] || (|end| == 1 && IsPythonBreak(end[0])) }

  /** Lines without line ends inside; the last one may have none behind it unless it is empty. */
  predicate Parted(lines: seq<string>, ends: seq<string>) {
    && |lines| == |ends|
    && (lines != [] ==>
          && (forall c <- lines[0] :: !IsPythonBreak(c))
          && (LineEnd(ends[0]) || (|lines| == 1 && ends[0] == "" && lines[0] != ""))
          && Parted(lines[1..], ends[1..])
          && (ends[0] == ['\r'] ==> !(['\n'] <= Woven(lines[1..], ends[1..]))))
  }

  /** The text is these lines with these line ends. */
  predicate Splits(text: string, lines: seq<string>, ends: seq<string>) {
    Parted(lines, ends) && text == Woven(lines, ends)
  }

  function Glued(lines: seq<string>, newline: string): string {
    if |lines| == 0 then "" else if |lines| == 1 then lines[0] else lines[0] + newline + Glued(lines[1..], newline)
  }

  predicate HasCrLf(text: string) { exists i :: 0 <= i && i + 1 < |text| && text[i] == '\r' && text[i + 1] == '\n' }

  /** The file after the edit: its lines revised, the added ones behind them, with the file's own kind of line end. */
  ghost predicate Edits(text: string, updates: map<string, string>, additions: seq<(string, string)>, out: string) {
    exists lines: seq<string>, ends: seq<string>, revised: seq<string> ::
      Splits(text, lines, ends) && EditsLines(text, lines, updates, additions, revised, out)
  }

  ghost predicate EditsLines(text: string, lines: seq<string>, updates: map<string, string>, additions: seq<(string, string)>,
                             revised: seq<string>, out: string) {
    && !Lacks(lines, updates) && !Clashes(lines, additions)
    && |revised| == |lines| + |additions|
    && (forall i :: 0 <= i < |lines| ==> Revised(lines[i], revised[i], updates))
    && (forall i :: 0 <= i < |additions| ==> revised[|lines| + i] == additions[i].0 + ['='] + Escape(additions[i].1))
    && var newline := if HasCrLf(text) then ['\r', '\n'] else ['\n'];
       out == Glued(revised, newline) + if |text| > 0 && text[|text| - 1] in {'\r', '\n'} then newline else []
  }

  /** A key to update has no line. */
  ghost predicate Lacks(lines: seq<string>, updates: map<string, string>) {
    exists key <- updates :: forall line <- lines :: !KeyLine(line, key)
  }

  /** A key to add has a line already. */
  ghost predicate Clashes(lines: seq<string>, additions: seq<(string, string)>) {
    exists i :: 0 <= i < |additions| && exists line <- lines :: KeyLine(line, additions[i].0)
  }

  ghost predicate Refused(text: string, updates: map<string, string>, additions: seq<(string, string)>, e: EditError) {
    exists lines: seq<string>, ends: seq<string> ::
      Splits(text, lines, ends) && if e == MissingKeys then Lacks(lines, updates) else !Lacks(lines, updates) && Clashes(lines, additions)
  }

  // ---- Keys ----

  lemma {:induction false} StripLeftAt(text: string) returns (i: nat)
    ensures i <= |text| && StripLeft(text) == text[i..] && (forall k :: 0 <= k < i ==> IsSpace(text[k])) && (i < |text| ==> !IsSpace(text[i]))
  {
    i := 0;
    if text != [] && IsSpace(text[0]) {
      var j := StripLeftAt(text[1..]);
      i := j + 1;
      forall k | 1 <= k < i ensures IsSpace(text[k]) { assert text[k] == text[1..][k - 1]; }
    }
  }

  lemma {:induction false} StripRightAt(text: string) returns (j: nat)
    ensures j <= |text| && StripRight(text) == text[..j] && (forall k :: j <= k < |text| ==> IsSpace(text[k])) && (j > 0 ==> !IsSpace(text[j - 1]))
    decreases |text|
  {
    j := |text|;
    if text != [] && IsSpace(text[|text| - 1]) { j := StripRightAt(text[..|text| - 1]); }
  }

  lemma StripTrims(s: string)
    ensures Trimmed(s, Strip(s))
  {
    var i := StripLeftAt(s);
    var j := StripRightAt(s[i..]);
    forall k | i + j <= k < |s| ensures IsSpace(s[k]) { assert s[k] == s[i..][k - i]; }
    assert s[i..][..j] == s[i..i + j];
    if j > 0 { assert s[i..][j - 1] == s[i + j - 1]; }
    assert TrimmedAt(s, Strip(s), i, i + j);
  }

  lemma TrimmedOnce(s: string, x: string, y: string)
    requires Trimmed(s, x) && Trimmed(s, y)
    ensures x == y
  {
    var i: nat, j: nat :| TrimmedAt(s, x, i, j);
    var k: nat, l: nat :| TrimmedAt(s, y, k, l);
    if i < j { assert !IsSpace(s[i]) && !IsSpace(s[j - 1]); }
    if k < l { assert !IsSpace(s[k]) && !IsSpace(s[l - 1]); }
  }

  lemma CommentedIs(line: string)
    ensures Commented(line) <==> StripLeft(line) != [] && StripLeft(line)[0] in {'#', '!'}
  {
    var i := StripLeftAt(line);
    assert !IsSpace('#') && !IsSpace('!');
  }

  lemma FirstIs(line: string, c: char, m: nat)
    requires m < |line| && line[m] == c && c !in line[..m]
    ensures IndexOf(line, c) == m
  {
    assert forall k :: 0 <= k < m ==> line[k] == line[..m][k];
  }

  /** The program's key of a line, where it has one, is its key. */
  lemma KeyLineIs(line: string, key: string)
    ensures KeyLine(line, key) <==> !Skipped(line) && KeyOf(line) == key
  {
    hide Strip, StripLeft, Trimmed;
    CommentedIs(line);
    var n := IndexOf(line, '=');
    StripTrims(line[..n]);
    if KeyLine(line, key) {
      var m :| 0 <= m < |line| && line[m] == '=' && '=' !in line[..m] && Trimmed(line[..m], key);
      FirstIs(line, '=', m);
      TrimmedOnce(line[..n], key, KeyOf(line));
    }
    if !Skipped(line) {
      forall c <- line[..n] ensures c != '=' { }
    }
  }
}
