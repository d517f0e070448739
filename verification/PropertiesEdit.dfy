/** Why loading an edited properties file gives the edited table (src/cmnd_linux/vendor_config.py). */
module PropertiesEdit {
  import opened Sequences
  import opened Wrappers
  import opened Text
  import opened JavaProperties
  import opened PropertiesText

  // ---- Plain files ----

  /** The only line ends in the text are CR and LF. */
  predicate OnlyJavaBreaks(text: string) { forall i :: 0 <= i < |text| && IsPythonBreak(text[i]) ==> IsJavaBreak(text[i]) }

  /** A file whose lines end with CR or LF and are plain. */
  predicate PlainText(text: string) { OnlyJavaBreaks(text) && PlainFile(Lines(text, true)) }

  predicate AllFree(lines: seq<string>) { forall i :: 0 <= i < |lines| ==> BreakFree(lines[i]) }

  lemma {:induction false} BreakAtAlike(text: string)
    requires OnlyJavaBreaks(text)
    ensures BreakAt(text, true) == BreakAt(text, false)
  {
    if text != [] && !EndsLine(text[0], true) { BreakAtAlike(text[1..]); }
  }

  lemma {:induction false} LinesAlike(text: string)
    requires OnlyJavaBreaks(text)
    ensures Lines(text, true) == Lines(text, false)
    decreases |text|
  {
    BreakAtAlike(text);
    var n := BreakAt(text, false);
    if n < |text| { LinesAlike(text[Behind(text, n)..]); }
  }

  lemma {:induction false} LinesFree(text: string)
    ensures AllFree(Lines(text, false))
    decreases |text|
  {
    var n := BreakAt(text, false);
    if n < |text| { LinesFree(text[Behind(text, n)..]); }
  }

  lemma PlainPut(table: Table, line: string)
    requires PlainLine(line)
    ensures Closed(line) && Put(table, LoadLine(line)) == Some(LoadStep(table, line))
  {
    if Remark(line) { RemarkSkipped(line); } else { PlainEntry(line); }
  }

  lemma {:induction false} PlainLoad(lines: seq<string>)
    requires PlainFile(lines)
    ensures AllClosed(lines) && LoadFrom(map[], lines) == Some(Load(lines))
    decreases |lines|
  {
    if lines != [] {
      var front, last := lines[..|lines| - 1], lines[|lines| - 1];
      Snoc(lines);
      PlainLoad(front);
      PlainPut(Load(front), last);
      LoadFromAppend(map[], front, [last]);
      LoadFromCons(Load(front), last, []);
      assert [last] + [] == [last];
      LoadLast(front, last);
    }
  }

  lemma TextLoad(text: string)
    requires PlainText(text)
    ensures LoadText(text) == Some(Load(Lines(text, true)))
  {
    LinesAlike(text);
    PlainLoad(Lines(text, true));
  }

  lemma {:induction false} FreeLoad(table: Table, lines: seq<string>)
    requires AllFree(lines) && AllClosed(lines)
    ensures PiecesClosed(lines) && LoadAll(table, lines) == LoadFrom(table, lines)
    decreases |lines|
  {
    if lines != [] {
      var line, rest := lines[0], lines[1..];
      PiecesFree(line);
      assert [line] + rest == lines && [line] + [] == [line];
      LoadFromCons(table, line, rest);
      LoadFromCons(table, line, []);
      FreeLoad(table, rest);
      var next := Put(table, LoadLine(line));
      if next.Some? { FreeLoad(next.value, rest); }
    }
  }

  lemma JoinedLoads(lines: seq<string>, newline: string, tail: string)
    requires IsNewline(newline) && (tail == [] || tail == newline) && PiecesClosed(lines)
    ensures LoadText(Join(lines, newline) + tail) == LoadAll(map[], lines)
  {
    JoinLoads(map[], lines, newline, tail);
    PiecesLoad(map[], Join(lines, newline) + tail);
  }

  predicate ValuesFree(updates: map<string, string>, additions: seq<(string, string)>) {
    && (forall key <- updates :: BreakFree(updates[key]))
    && (forall i :: 0 <= i < |additions| ==> BreakFree(additions[i].1))
  }

  lemma WrittenFree(key: string, value: string)
    requires PlainKey(key) && BreakFree(value)
    ensures BreakFree(Written(key, value))
  {
    PlainKeyFree(key);
    EscapeFree(value);
  }

  /** The keys to update are in the file, and the added ones are plain and new there. */
  predicate Editable(lines: seq<string>, updates: map<string, string>, additions: seq<(string, string)>) {
    && PlainFile(lines) && AllFree(lines) && DistinctKeys(additions)
    && (forall key <- updates :: key in KeysOf(lines))
    && (forall i :: 0 <= i < |additions| ==> PlainKey(additions[i].0) && additions[i].0 !in KeysOf(lines))
  }

  /** Each edited line is a plain line of the file whose key stays, or is written for a key and its value. */
  predicate IsEdited(line: string, lines: seq<string>, updates: map<string, string>, additions: seq<(string, string)>) {
    || (PlainLine(line) && BreakFree(line) && (Remark(line) || (KeyOf(line) in KeysOf(lines) && KeyOf(line) !in updates)))
    || (exists key <- updates :: PlainKey(key) && key in KeysOf(lines) && line == Written(key, updates[key]))
    || (exists i :: 0 <= i < |additions| && line == Written(additions[i].0, additions[i].1))
  }

  lemma LineEdited(lines: seq<string>, i: nat, updates: map<string, string>, additions: seq<(string, string)>)
    requires Editable(lines, updates, additions) && i < |lines|
    ensures IsEdited(EditLine(lines[i], updates), lines, updates, additions)
  {
    var line := lines[i];
    assert PlainLine(line) && BreakFree(line);
    if Remark(line) {
      RemarkSkipped(line);
    } else {
      PlainNotSkipped(line);
      PlainEntry(line);
      assert KeyOf(line) in KeysOf(lines);
    }
  }

  lemma EditedLine(lines: seq<string>, updates: map<string, string>, additions: seq<(string, string)>, i: nat)
    requires Editable(lines, updates, additions) && i < |EditLines(lines, updates) + AddedLines(additions)|
    ensures IsEdited((EditLines(lines, updates) + AddedLines(additions))[i], lines, updates, additions)
  {
    if i < |lines| {
      LineEdited(lines, i, updates, additions);
    } else {
      assert AddedLines(additions)[i - |lines|] == Written(additions[i - |lines|].0, additions[i - |lines|].1);
    }
  }

  lemma EditedClosed(line: string, lines: seq<string>, updates: map<string, string>, additions: seq<(string, string)>)
    requires Editable(lines, updates, additions) && IsEdited(line, lines, updates, additions)
    ensures AllClosed(Pieces(line))
    ensures ValuesFree(updates, additions) ==> BreakFree(line)
  {
    if PlainLine(line) && BreakFree(line) {
      PiecesFree(line);
      PlainPut(map[], line);
    } else if key :| key in updates && PlainKey(key) && line == Written(key, updates[key]) {
      WrittenLoad(map[], key, updates[key]);
      if BreakFree(updates[key]) { WrittenFree(key, updates[key]); }
    } else {
      var i :| 0 <= i < |additions| && line == Written(additions[i].0, additions[i].1);
      WrittenLoad(map[], additions[i].0, additions[i].1);
      if BreakFree(additions[i].1) { WrittenFree(additions[i].0, additions[i].1); }
    }
  }

  lemma EditedShape(lines: seq<string>, updates: map<string, string>, additions: seq<(string, string)>)
    requires Editable(lines, updates, additions)
    ensures var out := EditLines(lines, updates) + AddedLines(additions);
            PiecesClosed(out) && (ValuesFree(updates, additions) ==> AllFree(out))
  {
    var out := EditLines(lines, updates) + AddedLines(additions);
    forall i | 0 <= i < |out| ensures AllClosed(Pieces(out[i])) && (ValuesFree(updates, additions) ==> BreakFree(out[i])) {
      EditedLine(lines, updates, additions, i);
      EditedClosed(out[i], lines, updates, additions);
    }
  }

  lemma EditSucceeds(lines: seq<string>, updates: map<string, string>, additions: seq<(string, string)>)
    requires Editable(lines, updates, additions)
    ensures Edit(lines, updates, additions) == Ok(EditLines(lines, updates) + AddedLines(additions))
  {
    assert updates.Keys - KeysOf(lines) == {};
  }

  // ---- Values without line breaks ----

  lemma FreeEditLoads(lines: seq<string>, updates: map<string, string>, additions: seq<(string, string)>)
    requires Editable(lines, updates, additions) && ValuesFree(updates, additions)
    ensures var out := EditLines(lines, updates) + AddedLines(additions);
            LoadAll(map[], out) == Some(Load(out)) && Edited(Load(lines), Load(out), updates, additions)
  {
    var out := EditLines(lines, updates) + AddedLines(additions);
    EditSucceeds(lines, updates, additions);
    EditLoads(lines, updates, additions);
    EditedShape(lines, updates, additions);
    PlainLoad(out);
    FreeLoad(map[], out);
  }

  // ---- A value with a line break is not loaded ----

  /** The table does not have the whole value under the key. */
  predicate Without(table: Table, key: string, value: string) {
    Utf16(key) in table ==> table[Utf16(key)] != Utf16(value)
  }

  lemma {:induction false} BareWithout(table: Table, pieces: seq<string>, key: string, value: string)
    requires Without(table, key, value) && value != []
    ensures Without(BareAll(table, pieces), key, value)
    decreases |pieces|
  {
    if pieces != [] {
      var next := if pieces[0] == [] then table else table[Utf16(pieces[0]) := []];
      assert Utf16(value) != [];
      BareWithout(next, pieces[1..], key, value);
    }
  }

  /** A written line never loads the broken value of a key, its own included. */
  lemma WrittenWithout(table: Table, own: string, written: string, key: string, value: string)
    requires PlainKey(own) && Without(table, key, value) && !BreakFree(value) && (own == key ==> written == value)
    ensures Without(WrittenTable(table, own, written), key, value)
  {
    var first := Pieces(written)[0];
    InjectiveKeys(own, key);
    InjectiveKeys(first, value);
    PiecesAreFree(written);
    BareWithout(table[Utf16(own) := Utf16(first)], Pieces(written)[1..], key, value);
  }

  /** The key is written with the broken value, and nothing else is written for it. */
  predicate Broken(key: string, value: string, lines: seq<string>, updates: map<string, string>, additions: seq<(string, string)>) {
    && !BreakFree(value)
    && (key in updates || key !in KeysOf(lines))
    && (key in updates ==> key in KeysOf(lines) && updates[key] == value)
    && (forall i :: 0 <= i < |additions| && additions[i].0 == key ==> additions[i].1 == value)
  }

  lemma LineWithout(table: Table, line: string, lines: seq<string>, updates: map<string, string>,
                    additions: seq<(string, string)>, key: string, value: string)
    requires Editable(lines, updates, additions) && IsEdited(line, lines, updates, additions)
    requires Broken(key, value, lines, updates, additions) && Without(table, key, value)
    ensures LoadFrom(table, Pieces(line)).Some? && Without(LoadFrom(table, Pieces(line)).value, key, value)
  {
    if own :| own in updates && PlainKey(own) && line == Written(own, updates[own]) {
      WrittenLoad(table, own, updates[own]);
      WrittenWithout(table, own, updates[own], key, value);
    } else if i :| 0 <= i < |additions| && line == Written(additions[i].0, additions[i].1) {
      WrittenLoad(table, additions[i].0, additions[i].1);
      WrittenWithout(table, additions[i].0, additions[i].1, key, value);
    } else {
      PiecesFree(line);
      PlainPut(table, line);
      LoadFromCons(table, line, []);
      assert [line] + [] == [line];
      if !Remark(line) {
        PlainEntry(line);
        InjectiveKeys(KeyOf(line), key);
      }
    }
  }

  lemma {:induction false} AllWithout(table: Table, out: seq<string>, lines: seq<string>, updates: map<string, string>,
                                      additions: seq<(string, string)>, key: string, value: string)
    requires Editable(lines, updates, additions) && forall i :: 0 <= i < |out| ==> IsEdited(out[i], lines, updates, additions)
    requires Broken(key, value, lines, updates, additions) && Without(table, key, value)
    ensures LoadAll(table, out).Some? && Without(LoadAll(table, out).value, key, value)
    decreases |out|
  {
    if out != [] {
      LineWithout(table, out[0], lines, updates, additions, key, value);
      AllWithout(LoadFrom(table, Pieces(out[0])).value, out[1..], lines, updates, additions, key, value);
    }
  }

  /** One of the values that has a line break. */
  lemma SomeBroken(lines: seq<string>, updates: map<string, string>, additions: seq<(string, string)>)
    returns (key: string, value: string)
    requires Editable(lines, updates, additions) && !ValuesFree(updates, additions)
    ensures Broken(key, value, lines, updates, additions)
    ensures (key in updates && updates[key] == value) || (exists i :: 0 <= i < |additions| && additions[i] == (key, value))
  {
    if k :| k in updates && !BreakFree(updates[k]) {
      key, value := k, updates[k];
    } else {
      var i :| 0 <= i < |additions| && !BreakFree(additions[i].1);
      key, value := additions[i].0, additions[i].1;
      assert additions[i] == (key, value);
    }
  }

  lemma BrokenEditLoses(lines: seq<string>, updates: map<string, string>, additions: seq<(string, string)>)
    requires Editable(lines, updates, additions) && !ValuesFree(updates, additions)
    ensures var out := EditLines(lines, updates) + AddedLines(additions);
            LoadAll(map[], out).Some? && !Edited(Load(lines), LoadAll(map[], out).value, updates, additions)
  {
    var out := EditLines(lines, updates) + AddedLines(additions);
    var key, value := SomeBroken(lines, updates, additions);
    forall i | 0 <= i < |out| ensures IsEdited(out[i], lines, updates, additions) {
      EditedLine(lines, updates, additions, i);
    }
    AllWithout(map[], out, lines, updates, additions, key, value);
  }

  // ---- The theorem on files ----

  lemma PlainTextEditable(text: string, updates: map<string, string>, additions: seq<(string, string)>)
    requires PlainText(text) && DistinctKeys(additions) && forall i :: 0 <= i < |additions| ==> PlainKey(additions[i].0)
    requires EditText(text, updates, additions).Ok?
    ensures Editable(Lines(text, true), updates, additions)
  {
    LinesAlike(text);
    LinesFree(text);
    forall key | key in updates ensures key in KeysOf(Lines(text, true)) {
      assert key !in updates.Keys - KeysOf(Lines(text, true));
    }
  }

  /**
   For a plain file: the edited file loads, and it loads as the original
   table overridden by the updates and extended by the additions exactly when
   no new value has a CR or LF.
   */
  lemma EditTextLoads(text: string, updates: map<string, string>, additions: seq<(string, string)>)
    requires PlainText(text) && DistinctKeys(additions) && forall i :: 0 <= i < |additions| ==> PlainKey(additions[i].0)
    requires EditText(text, updates, additions).Ok?
    ensures var out := EditText(text, updates, additions).value;
            && LoadText(text).Some? && LoadText(out).Some?
            && (Edited(LoadText(text).value, LoadText(out).value, updates, additions) <==> ValuesFree(updates, additions))
  {
    var lines := Lines(text, true);
    var out := EditLines(lines, updates) + AddedLines(additions);
    PlainTextEditable(text, updates, additions);
    TextLoad(text);
    EditSucceeds(lines, updates, additions);
    EditedShape(lines, updates, additions);
    JoinedLoads(out, Newline(text), Tail(text));
    if ValuesFree(updates, additions) {
      FreeEditLoads(lines, updates, additions);
    } else {
      BrokenEditLoses(lines, updates, additions);
    }
  }

  // ---- The other lines ----

  lemma LinesCons(line: string, newline: string, rest: string)
    requires BreakFree(line) && IsNewline(newline)
    ensures Lines(line + newline + rest, false) == [line] + Lines(rest, false)
  {
    var text := line + newline + rest;
    assert forall i :: 0 <= i < |line| ==> text[i] == line[i];
    assert text[|line|] == newline[0];
    BreakAtIs(text, |line|);
    assert text[..|line|] == line;
    if newline == "\r\n" { assert text[|line| + 1] == '\n'; }
    assert text[Behind(text, |line|)..] == rest;
  }

  lemma LinesOfOne(line: string, newline: string, tail: string)
    requires BreakFree(line) && IsNewline(newline) && (tail == newline || (tail == [] && line != []))
    ensures Lines(line + tail, false) == [line]
  {
    if tail == [] {
      assert line + tail == line;
      BreakAtIs(line, |line|);
    } else {
      LinesCons(line, newline, []);
      assert line + newline + [] == line + tail;
      assert Lines([], false) == [];
    }
  }

  lemma JoinOne(lines: seq<string>, newline: string)
    requires |lines| == 1
    ensures Join(lines, newline) == lines[0]
  {
  }

  lemma JoinCons(lines: seq<string>, newline: string, tail: string)
    requires |lines| > 1
    ensures lines[0] + newline + (Join(lines[1..], newline) + tail) == Join(lines, newline) + tail
  {
  }

  lemma {:induction false} LinesOfJoin(lines: seq<string>, newline: string, tail: string)
    requires AllFree(lines) && IsNewline(newline) && lines != []
    requires tail == newline || (tail == [] && lines[|lines| - 1] != [])
    ensures Lines(Join(lines, newline) + tail, false) == lines
    decreases |lines|
  {
    hide Lines, Join;
    if |lines| == 1 {
      LinesOfOne(lines[0], newline, tail);
      JoinOne(lines, newline);
      assert [lines[0]] == lines;
    } else {
      LinesOfJoin(lines[1..], newline, tail);
      LinesCons(lines[0], newline, Join(lines[1..], newline) + tail);
      JoinCons(lines, newline, tail);
      assert [lines[0]] + lines[1..] == lines;
    }
  }

  lemma {:induction false} LastLine(text: string)
    requires text != []
    ensures Lines(text, false) != []
    ensures !IsJavaBreak(text[|text| - 1]) ==> Lines(text, false)[|Lines(text, false)| - 1] != []
    decreases |text|
  {
    var n := BreakAt(text, false);
    if n < |text| {
      var rest := text[Behind(text, n)..];
      if rest != [] {
        LastLine(rest);
        assert rest[|rest| - 1] == text[|text| - 1];
      } else {
        assert text[|text| - 1] == text[n] || text[|text| - 1] == '\n';
      }
    }
  }

  lemma LastEdited(text: string, out: seq<string>, updates: map<string, string>, additions: seq<(string, string)>)
    requires OnlyJavaBreaks(text) && out == EditLines(Lines(text, true), updates) + AddedLines(additions)
    ensures out == [] ==> text == []
    ensures out != [] ==> Tail(text) == Newline(text) || (Tail(text) == [] && out[|out| - 1] != [])
  {
    LinesAlike(text);
    if text != [] { LastLine(text); }
    if out != [] && additions == [] { assert out[|out| - 1] == EditLine(Lines(text, true)[|out| - 1], updates); }
  }

  lemma LinesOfEdited(text: string, updates: map<string, string>, additions: seq<(string, string)>)
    requires PlainText(text) && DistinctKeys(additions) && forall i :: 0 <= i < |additions| ==> PlainKey(additions[i].0)
    requires EditText(text, updates, additions).Ok? && ValuesFree(updates, additions)
    ensures Lines(EditText(text, updates, additions).value, false) == EditLines(Lines(text, true), updates) + AddedLines(additions)
  {
    var out := EditLines(Lines(text, true), updates) + AddedLines(additions);
    PlainTextEditable(text, updates, additions);
    EditSucceeds(Lines(text, true), updates, additions);
    EditedShape(Lines(text, true), updates, additions);
    LastEdited(text, out, updates, additions);
    if out == [] {
      assert Join(out, Newline(text)) + Tail(text) == [];
    } else {
      LinesOfJoin(out, Newline(text), Tail(text));
    }
  }

  lemma LineKept(line: string, updates: map<string, string>)
    requires Skipped(line) || KeyOf(line) !in updates
    ensures EditLine(line, updates) == line
  {
  }

  /** The lines are the same but for the updated ones, and the added ones follow. */
  predicate OthersKept(lines: seq<string>, edited: seq<string>, updates: map<string, string>, additions: seq<(string, string)>) {
    && |edited| == |lines| + |additions|
    && (forall i :: 0 <= i < |lines| && (Skipped(lines[i]) || KeyOf(lines[i]) !in updates) ==> edited[i] == lines[i])
    && (forall i :: 0 <= i < |additions| ==> edited[|lines| + i] == Written(additions[i].0, additions[i].1))
  }

  lemma EditedKeeps(lines: seq<string>, updates: map<string, string>, additions: seq<(string, string)>)
    ensures OthersKept(lines, EditLines(lines, updates) + AddedLines(additions), updates, additions)
  {
    hide Skipped, KeyOf, EditLine, Escape;
    forall i | 0 <= i < |lines| && (Skipped(lines[i]) || KeyOf(lines[i]) !in updates) ensures EditLine(lines[i], updates) == lines[i] {
      LineKept(lines[i], updates);
    }
  }

  /** Without line breaks in the values the file has the same lines, but for the updated and the added ones. */
  lemma OtherLinesKept(text: string, updates: map<string, string>, additions: seq<(string, string)>)
    requires PlainText(text) && DistinctKeys(additions) && forall i :: 0 <= i < |additions| ==> PlainKey(additions[i].0)
    requires EditText(text, updates, additions).Ok? && ValuesFree(updates, additions)
    ensures OthersKept(Lines(text, false), Lines(EditText(text, updates, additions).value, false), updates, additions)
  {
    LinesAlike(text);
    LinesOfEdited(text, updates, additions);
    hide *;
    EditedKeeps(Lines(text, true), updates, additions);
  }
}
