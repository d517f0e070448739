/** What the masker reads and hides, as a grammar of SQL texts (src/cmnd_linux/sql_audit.py). */
module SqlGrammar {
  import opened Sequences
  import opened Text
  import opened SqlLexer
  import opened SqlLiterals
  import opened SqlScanners

  // The grammar is written in characters; the masker is proved against it.

  // ---- Pieces of a text ----

  /** What a quoted region holds: a character, a character behind a backslash, or its quote twice. */
  datatype Unit = Char(c: char) | Escape(c: char) | Twice

  /** How a quoted region ends: with its quote, with the text, or with a backslash at the end of the text. */
  datatype End = Closed | Open | Cut

  datatype Piece =
    | Other(c: char)
    | Text(quote: char, units: seq<Unit>, end: End)
    | Name(units: seq<Unit>, end: End)
    | Hash(text: string)
    | Dashes(text: string)
    | Remark(text: string, closed: bool)
    | Version(number: string, body: Pieces, closed: bool)

  datatype Pieces = Nil | Cons(head: Piece, tail: Pieces)

  function PrintUnit(u: Unit, q: char): string {
    match u
    case Char(c) => [c]
    case Escape(c) => ['\\', c]
    case Twice => [q, q]
  }

  function PrintUnits(units: seq<Unit>, q: char): string {
    if units == [] then [] else PrintUnit(units[0], q) + PrintUnits(units[1..], q)
  }

  function PrintEnd(end: End, q: char): string {
    match end
    case Closed => [q]
    case Open => []
    case Cut => ['\\']
  }

  function PrintClose(closed: bool): string { if closed then "*/" else [] }

  function PrintPiece(p: Piece): string {
    match p
    case Other(c) => [c]
    case Text(q, units, end) => [q] + PrintUnits(units, q) + PrintEnd(end, q)
    case Name(units, end) => ['`'] + PrintUnits(units, '`') + PrintEnd(end, '`')
    case Hash(text) => ['#'] + text
    case Dashes(text) => ['-', '-'] + text
    case Remark(text, closed) => ['/', '*'] + text + PrintClose(closed)
    case Version(number, body, closed) => ['/', '*', '!'] + number + Print(body) + PrintClose(closed)
  }

  function Print(ps: Pieces): string {
    match ps
    case Nil => []
    case Cons(p, rest) => PrintPiece(p) + Print(rest)
  }

  /** White space of the same length, with the same line ends. */
  function Hide(s: string): (r: string)
    ensures |r| == |s|
  {
    seq(|s|, i requires 0 <= i < |s| => if s[i] == '\n' || s[i] == '\r' then s[i] else ' ')
  }

  /** What of a piece stays visible: other characters, names in backticks, and the body behind a version number. */
  function Visible(p: Piece): string {
    match p
    case Other(c) => [c]
    case Name(_, _) => PrintPiece(p)
    case Version(number, body, closed) => Hide(['/', '*', '!'] + number) + VisibleAll(body) + Hide(PrintClose(closed))
    case _ => Hide(PrintPiece(p))
  }

  function VisibleAll(ps: Pieces): string {
    match ps
    case Nil => []
    case Cons(p, rest) => Visible(p) + VisibleAll(rest)
  }

  function Versions(ps: Pieces): nat {
    match ps
    case Nil => 0
    case Cons(p, rest) => (if p.Version? then 1 + Versions(p.body) else 0) + Versions(rest)
  }

  // ---- Which pieces make a text ----

  predicate UnitOk(u: Unit, q: char, escapes: bool) {
    match u
    case Char(c) => c != q && (escapes ==> c != '\\')
    case Escape(_) => escapes
    case Twice => true
  }

  predicate UnitsOk(units: seq<Unit>, q: char, escapes: bool) {
    forall i :: 0 <= i < |units| ==> UnitOk(units[i], q, escapes)
  }

  /** A closing quote is not doubled by what follows; an open region reaches the end of the text. */
  predicate EndOk(end: End, q: char, escapes: bool, rest: string) {
    match end
    case Closed => rest == [] || rest[0] != q
    case Open => rest == []
    case Cut => rest == [] && escapes
  }

  predicate Closes(s: string, k: nat) {
    k + 1 < |s| && s[k] == '*' && s[k + 1] == '/'
  }

  /** The comment ends at its first closing marker, or runs to the end of the text without one. */
  predicate CloseOk(inner: string, closed: bool, rest: string) {
    if closed then forall k :: 0 <= k < |inner| ==> !Closes(inner + "*/", k)
    else rest == [] && forall k :: 0 <= k < |inner| ==> !Closes(inner, k)
  }

  /** The piece can stand in front of `rest`. */
  predicate PieceOk(lx: Lexer, p: Piece, rest: string) {
    match p
    case Other(c) =>
      && c !in {'\'', '"', '`', '#'}
      && !(c == '/' && rest != [] && rest[0] == '*')
      && !(c == '-' && rest != [] && rest[0] == '-' && (|rest| == 1 || IsSpace(rest[1])))
    case Text(q, units, end) => (q == '\'' || q == '"') && UnitsOk(units, q, true) && EndOk(end, q, true, rest)
    case Name(units, end) => UnitsOk(units, '`', false) && EndOk(end, '`', false, rest)
    case Hash(text) => '\n' !in text && (rest == [] || rest[0] == '\n')
    case Dashes(text) => '\n' !in text && (rest == [] || rest[0] == '\n') && (text == [] || IsSpace(text[0]))
    case Remark(text, closed) => (text != [] ==> text[0] != '!') && CloseOk(text, closed, rest)
    case Version(number, body, closed) =>
      && (forall i :: 0 <= i < |number| ==> number[i] in lx.digits)
      && (Print(body) != [] ==> Print(body)[0] !in lx.digits)
      && CloseOk(number + Print(body), closed, rest) && PiecesOk(lx, body)
  }

  predicate PiecesOk(lx: Lexer, ps: Pieces) {
    match ps
    case Nil => true
    case Cons(p, rest) => PieceOk(lx, p, Print(rest)) && PiecesOk(lx, rest)
  }

  // ---- The first token of a printed text ----

  function KindOf(p: Piece): TokenKind {
    match p
    case Other(_) => Plain
    case Text(_, _, _) => Literal
    case Name(_, _) => Identifier
    case Hash(_) => LineComment
    case Dashes(_) => LineComment
    case Remark(_, _) => Comment
    case Version(_, _, _) => Executable
  }

  lemma KindPrinted(lx: Lexer, p: Piece, rest: string)
    requires PieceOk(lx, p, rest)
    ensures PrintPiece(p) != [] && Kind(PrintPiece(p) + rest) == KindOf(p)
  {
    hide Print, PrintUnits, UnitsOk, PiecesOk, Closes;
    var s := PrintPiece(p) + rest;
    if p.Remark? && |s| >= 3 {
      assert s[2] == if p.text != [] then p.text[0] else '*';
    }
  }

  /** The scan of a quoted region passes its units and stops behind its end. */
  lemma {:induction false} UnitsScanned(front: string, units: seq<Unit>, end: End, q: char, escapes: bool, rest: string)
    requires front != [] && UnitsOk(units, q, escapes) && EndOk(end, q, escapes, rest) && (escapes ==> q != '\\')
    ensures var s := front + PrintUnits(units, q) + PrintEnd(end, q) + rest;
            QuotedEnd(s, |front|, q, escapes) == |front| + |PrintUnits(units, q)| + |PrintEnd(end, q)|
    decreases |units|
  {
    hide QuotedEnd, PrintUnit, PrintEnd, UnitOk, EndOk;
    var s := front + PrintUnits(units, q) + PrintEnd(end, q) + rest;
    if units == [] {
      assert s == front + PrintEnd(end, q) + rest;
      EndScanned(front, end, q, escapes, rest);
    } else {
      var unit, tail := PrintUnit(units[0], q), PrintUnits(units[1..], q) + PrintEnd(end, q) + rest;
      Regroup(front, unit, PrintUnits(units[1..], q), PrintEnd(end, q), rest);
      UnitsScanned(front + unit, units[1..], end, q, escapes, rest);
      MiddleOf(front, unit, tail);
      UnitScanned(s, |front|, units[0], q, escapes);
    }
  }

  lemma EndScanned(front: string, end: End, q: char, escapes: bool, rest: string)
    requires EndOk(end, q, escapes, rest) && (escapes ==> q != '\\')
    ensures QuotedEnd(front + PrintEnd(end, q) + rest, |front|, q, escapes) == |front| + |PrintEnd(end, q)|
  {
  }

  lemma Regroup(front: string, unit: string, more: string, end: string, rest: string)
    ensures front + (unit + more) + end + rest == front + unit + (more + end + rest)
    ensures front + (unit + more) + end + rest == (front + unit) + more + end + rest
  {
  }

  lemma MiddleOf(x: string, y: string, z: string)
    ensures (x + y + z)[|x|..|x| + |y|] == y
  {
  }

  lemma UnitScanned(s: string, i: nat, u: Unit, q: char, escapes: bool)
    requires UnitOk(u, q, escapes) && (escapes ==> q != '\\')
    requires i + |PrintUnit(u, q)| <= |s| && s[i..i + |PrintUnit(u, q)|] == PrintUnit(u, q)
    ensures QuotedEnd(s, i, q, escapes) == QuotedEnd(s, i + |PrintUnit(u, q)|, q, escapes)
  {
    var part := s[i..i + |PrintUnit(u, q)|];
    assert s[i] == part[0];
    if !u.Char? { assert s[i + 1] == part[1]; }
  }

  /** `part` stands in `s` at `i`. */
  predicate Stands(s: string, i: nat, part: string) {
    i + |part| <= |s| && forall k :: 0 <= k < |part| ==> s[i + k] == part[k]
  }

  lemma StandsIn(x: string, y: string, z: string)
    ensures Stands(x + y + z, |x|, y)
  {
  }

  lemma CloseMoved(s: string, i: nat, part: string, k: nat)
    requires Stands(s, i, part) && k + 1 < |part|
    ensures CloseAt(s, i + k) <==> Closes(part, k)
  {
  }

  lemma ClosedFound(s: string, i: nat, inner: string, rest: string)
    requires CloseOk(inner, true, rest) && Stands(s, i, inner + "*/")
    ensures FindClose(s, i) == i + |inner|
  {
    hide FindClose, CloseAt, Closes, Stands;
    StandsLength(s, i, inner + "*/");
    forall k | i <= k < i + |inner| ensures !CloseAt(s, k) {
      CloseMoved(s, i, inner + "*/", k - i);
    }
    ClosesAtEnd(inner);
    CloseMoved(s, i, inner + "*/", |inner|);
    FindCloseIs(s, i, i + |inner|);
  }

  lemma StandsLength(s: string, i: nat, part: string)
    requires Stands(s, i, part)
    ensures i + |part| <= |s|
  {
  }

  lemma OpenRuns(s: string, i: nat, inner: string)
    requires CloseOk(inner, false, []) && Stands(s, i, inner) && |s| == i + |inner|
    ensures FindClose(s, i) == |s|
  {
    hide FindClose, CloseAt, Closes, Stands;
    forall k | i <= k < |s| ensures !CloseAt(s, k) {
      if k + 1 < |s| { CloseMoved(s, i, inner, k - i); } else { NoCloseAtEnd(s, k); }
    }
    FindCloseIs(s, i, |s|);
  }

  lemma ClosePrinted(s: string, i: nat, inner: string, closed: bool, rest: string)
    requires CloseOk(inner, closed, rest) && Stands(s, i, inner + PrintClose(closed))
    requires |s| == i + |inner| + |PrintClose(closed)| + |rest|
    ensures FindClose(s, i) == i + |inner|
    ensures CloseEnd(s, FindClose(s, i)) == i + |inner| + |PrintClose(closed)|
  {
    hide FindClose, CloseAt, CloseOk, Stands;
    if closed {
      ClosedFound(s, i, inner, rest);
    } else {
      OpenEnds(inner, rest);
      assert inner + PrintClose(closed) == inner;
      OpenRuns(s, i, inner);
    }
  }

  lemma OpenEnds(inner: string, rest: string)
    requires CloseOk(inner, false, rest)
    ensures rest == []
  {
  }

  lemma NoCloseAtEnd(s: string, k: nat)
    requires k + 1 >= |s|
    ensures !CloseAt(s, k)
  {
  }

  lemma ClosesAtEnd(inner: string)
    ensures Closes(inner + "*/", |inner|)
  {
  }

  lemma {:induction false} FindCloseIs(s: string, i: nat, e: nat)
    requires i <= e <= |s| && (e < |s| ==> CloseAt(s, e)) && forall k :: i <= k < e ==> !CloseAt(s, k)
    ensures FindClose(s, i) == e
    decreases e - i
  {
    if i < e { FindCloseIs(s, i + 1, e); }
  }

  lemma {:induction false} FindNewlineIs(s: string, i: nat, e: nat)
    requires i <= e <= |s| && (e < |s| ==> s[e] == '\n') && forall k :: i <= k < e ==> s[k] != '\n'
    ensures FindNewline(s, i) == e
    decreases e - i
  {
    if i < e { FindNewlineIs(s, i + 1, e); }
  }

  lemma LinePrinted(front: string, text: string, rest: string)
    requires |front| >= 1 && '\n' !in front && '\n' !in text && (rest == [] || rest[0] == '\n')
    ensures FindNewline(front + text + rest, 1) == |front| + |text|
  {
    FindNewlineIs(front + text + rest, 1, |front| + |text|);
  }

  lemma {:induction false} SkipDigitsIs(lx: Lexer, s: string, i: nat, e: nat, close: nat)
    requires i <= e <= close <= |s|
    requires (forall k :: i <= k < e ==> s[k] in lx.digits) && (e < close ==> s[e] !in lx.digits)
    ensures lx.SkipDigits(s, i, close) == e
    decreases e - i
  {
    if i < e { SkipDigitsIs(lx, s, i + 1, e, close); }
  }

  lemma VersionCloses(number: string, body: Pieces, closed: bool, rest: string)
    requires CloseOk(number + Print(body), closed, rest)
    ensures var s := PrintPiece(Version(number, body, closed)) + rest; var close := 3 + |number| + |Print(body)|;
            && FindClose(s, 3) == close && CloseEnd(s, close) == close + |PrintClose(closed)|
  {
    hide FindClose, CloseAt, CloseOk, Stands, Print, CloseEnd;
    var s := PrintPiece(Version(number, body, closed)) + rest;
    var inner := number + Print(body);
    assert s == ['/', '*', '!'] + (inner + PrintClose(closed)) + rest;
    StandsIn(['/', '*', '!'], inner + PrintClose(closed), rest);
    ClosePrinted(s, 3, inner, closed, rest);
  }

  lemma LengthPrinted(lx: Lexer, p: Piece, rest: string)
    requires PieceOk(lx, p, rest)
    ensures PrintPiece(p) != [] && TokenLength(PrintPiece(p) + rest) == |PrintPiece(p)|
  {
    hide Print, PrintUnits, UnitsOk, PiecesOk, QuotedEnd, FindClose, FindNewline, CloseOk;
    var s := PrintPiece(p) + rest;
    KindPrinted(lx, p, rest);
    match p
    case Other(_) =>
    case Text(q, units, end) =>
      assert s == [q] + PrintUnits(units, q) + PrintEnd(end, q) + rest;
      UnitsScanned([q], units, end, q, true, rest);
    case Name(units, end) =>
      assert s == ['`'] + PrintUnits(units, '`') + PrintEnd(end, '`') + rest;
      UnitsScanned(['`'], units, end, '`', false, rest);
    case Hash(text) =>
      LinePrinted(['#'], text, rest);
    case Dashes(text) =>
      LinePrinted(['-', '-'], text, rest);
    case Remark(text, closed) =>
      assert s == ['/', '*'] + (text + PrintClose(closed)) + rest;
      StandsIn(['/', '*'], text + PrintClose(closed), rest);
      ClosePrinted(s, 2, text, closed, rest);
    case Version(number, body, closed) =>
      VersionCloses(number, body, closed, rest);
  }

  lemma NumberSkipped(lx: Lexer, number: string, inner: string, tail: string)
    requires (forall i :: 0 <= i < |number| ==> number[i] in lx.digits) && (inner != [] ==> inner[0] !in lx.digits)
    ensures lx.SkipDigits(['/', '*', '!'] + number + inner + tail, 3, 3 + |number| + |inner|) == 3 + |number|
  {
    var s := ['/', '*', '!'] + number + inner + tail;
    forall k | 3 <= k < 3 + |number| ensures s[k] in lx.digits { assert s[k] == number[k - 3]; }
    if inner != [] { assert s[3 + |number|] == inner[0]; }
    SkipDigitsIs(lx, s, 3, 3 + |number|, 3 + |number| + |inner|);
  }

  /** The body of a printed executable comment stands behind the number. */
  lemma BodyPrinted(lx: Lexer, number: string, body: Pieces, closed: bool, rest: string)
    requires PieceOk(lx, Version(number, body, closed), rest)
    ensures var s := PrintPiece(Version(number, body, closed)) + rest;
            && s != [] && Kind(s) == Executable
            && lx.BodyStart(s) == 3 + |number| && lx.BodyEnd(s) == 3 + |number| + |Print(body)| && lx.Body(s) == Print(body)
  {
    hide Print, PiecesOk, CloseOk, Kind, FindClose, Lexer.SkipDigits;
    var p := Version(number, body, closed);
    var s := PrintPiece(p) + rest;
    KindPrinted(lx, p, rest);
    VersionCloses(number, body, closed, rest);
    var front, inner, tail := ['/', '*', '!'] + number, Print(body), PrintClose(closed) + rest;
    assert s == front + inner + tail;
    NumberSkipped(lx, number, inner, tail);
    MiddleOf(front, inner, tail);
  }

  // ---- The mask of a printed text ----

  lemma BlankHides(s: string)
    ensures Blank(s) == Hide(s)
  {
  }

  lemma VersionMasked(lx: Lexer, number: string, body: Pieces, closed: bool, rest: string)
    requires PieceOk(lx, Version(number, body, closed), rest) && lx.Mask(Print(body)) == VisibleAll(body)
    ensures var s := PrintPiece(Version(number, body, closed)) + rest;
            s != [] && lx.MaskFirst(s) == Visible(Version(number, body, closed))
  {
    hide Print, PieceOk, Kind, TokenLength, Lexer.Mask, Lexer.Body, Lexer.BodyStart, Lexer.BodyEnd, Blank, VisibleAll;
    var p := Version(number, body, closed);
    var s := PrintPiece(p) + rest;
    var front, inner, close := ['/', '*', '!'] + number, Print(body), PrintClose(closed);
    BodyPrinted(lx, number, body, closed, rest);
    LengthPrinted(lx, p, rest);
    BlankHides(front);
    BlankHides(close);
    assert s[..|front|] == front;
    assert s == front + inner + (close + rest);
    assert s[|front| + |inner|..|front| + |inner| + |close|] == close;
  }

  lemma FirstVisible(lx: Lexer, p: Piece, rest: string)
    requires PieceOk(lx, p, rest) && (p.Version? ==> lx.Mask(Print(p.body)) == VisibleAll(p.body))
    ensures PrintPiece(p) + rest != [] && lx.MaskFirst(PrintPiece(p) + rest) == Visible(p)
  {
    hide Print, PieceOk, Kind, TokenLength, Lexer.Mask, Blank, PrintPiece;
    var s := PrintPiece(p) + rest;
    KindPrinted(lx, p, rest);
    LengthPrinted(lx, p, rest);
    if p.Version? {
      VersionMasked(lx, p.number, p.body, p.closed, rest);
    } else {
      assert s[..|PrintPiece(p)|] == PrintPiece(p);
      BlankHides(PrintPiece(p));
      if p.Other? { OtherPrinted(p.c); }
    }
  }

  lemma OtherPrinted(c: char)
    ensures PrintPiece(Other(c)) == [c]
  {
  }

  lemma MaskStep(lx: Lexer, first: string, rest: string)
    requires first + rest != [] && TokenLength(first + rest) == |first|
    ensures lx.Mask(first + rest) == lx.MaskFirst(first + rest) + lx.Mask(rest)
    ensures lx.ExecutableCount(first + rest)
            == (if Kind(first + rest) == Executable then 1 + lx.ExecutableCount(lx.Body(first + rest)) else 0) + lx.ExecutableCount(rest)
  {
    assert (first + rest)[|first|..] == rest;
  }

  /**
   Whatever pieces can stand side by side: of their text exactly the visible
   parts are shown, and every executable comment is counted.
   */
  lemma {:induction false} MaskOfPrint(lx: Lexer, ps: Pieces)
    requires PiecesOk(lx, ps)
    ensures lx.Mask(Print(ps)) == VisibleAll(ps)
    ensures lx.ExecutableCount(Print(ps)) == Versions(ps)
    decreases ps
  {
    hide PieceOk, Kind, TokenLength, Lexer.Mask, Lexer.MaskFirst, Lexer.ExecutableCount, Lexer.Body, PrintPiece;
    match ps
    case Nil => NothingMasked(lx);
    case Cons(p, rest) =>
      MaskOfPrint(lx, rest);
      if p.Version? {
        BodyOk(lx, p, Print(rest));
        MaskOfPrint(lx, p.body);
        BodyPrinted(lx, p.number, p.body, p.closed, Print(rest));
      }
      KindPrinted(lx, p, Print(rest));
      LengthPrinted(lx, p, Print(rest));
      FirstVisible(lx, p, Print(rest));
      MaskStep(lx, PrintPiece(p), Print(rest));
  }

  lemma NothingMasked(lx: Lexer)
    ensures lx.Mask([]) == [] && lx.ExecutableCount([]) == 0
  {
  }

  lemma BodyOk(lx: Lexer, p: Piece, rest: string)
    requires PieceOk(lx, p, rest) && p.Version?
    ensures PiecesOk(lx, p.body)
  {
  }

  // ---- Every text has pieces ----

  /** One more unit in front. */
  lemma UnitsCons(s: string, i: nat, u: Unit, more: seq<Unit>, end: End, e: nat, q: char, escapes: bool)
    requires UnitOk(u, q, escapes) && UnitsOk(more, q, escapes) && i + |PrintUnit(u, q)| <= e <= |s|
    requires s[i..i + |PrintUnit(u, q)|] == PrintUnit(u, q)
    requires s[i + |PrintUnit(u, q)|..e] == PrintUnits(more, q) + PrintEnd(end, q)
    ensures UnitsOk([u] + more, q, escapes)
    ensures s[i..e] == PrintUnits([u] + more, q) + PrintEnd(end, q)
  {
    var next := i + |PrintUnit(u, q)|;
    assert ([u] + more)[1..] == more;
    assert s[i..e] == s[i..next] + s[next..e];
  }

  lemma {:induction false} UnitsRead(s: string, i: nat, q: char, escapes: bool) returns (units: seq<Unit>, end: End, e: nat)
    requires i <= |s|
    ensures UnitsOk(units, q, escapes) && i <= e <= |s| && EndOk(end, q, escapes, s[e..])
    ensures s[i..e] == PrintUnits(units, q) + PrintEnd(end, q)
    decreases |s| - i
  {
    hide UnitsOk, UnitOk, PrintUnits, PrintUnit, PrintEnd, EndOk;
    if i == |s| {
      units, end, e := [], Open, i;
      EndRead(s, i, q, escapes, end);
    } else if escapes && s[i] == '\\' && i + 1 == |s| {
      units, end, e := [], Cut, i + 1;
      EndRead(s, i, q, escapes, end);
    } else if !(escapes && s[i] == '\\') && s[i] == q && !(i + 1 < |s| && s[i + 1] == q) {
      units, end, e := [], Closed, i + 1;
      EndRead(s, i, q, escapes, end);
    } else {
      var u := if escapes && s[i] == '\\' then Escape(s[i + 1]) else if s[i] == q then Twice else Char(s[i]);
      UnitRead(s, i, q, escapes, u);
      var more;
      more, end, e := UnitsRead(s, i + |PrintUnit(u, q)|, q, escapes);
      units := [u] + more;
      UnitsCons(s, i, u, more, end, e, q, escapes);
    }
  }

  lemma EndRead(s: string, i: nat, q: char, escapes: bool, end: End)
    requires i <= |s| && (end.Open? <==> i == |s|)
    requires end.Cut? ==> escapes && s[i] == '\\' && i + 1 == |s|
    requires end.Closed? ==> s[i] == q && !(i + 1 < |s| && s[i + 1] == q)
    ensures var e := if end.Open? then i else i + 1;
            UnitsOk([], q, escapes) && EndOk(end, q, escapes, s[e..]) && s[i..e] == PrintUnits([], q) + PrintEnd(end, q)
  {
  }

  lemma UnitRead(s: string, i: nat, q: char, escapes: bool, u: Unit)
    requires i < |s| && (escapes && s[i] == '\\' ==> i + 1 < |s|)
    requires !(escapes && s[i] == '\\') && s[i] == q ==> i + 1 < |s| && s[i + 1] == q
    requires u == if escapes && s[i] == '\\' then Escape(s[i + 1]) else if s[i] == q then Twice else Char(s[i])
    ensures UnitOk(u, q, escapes) && 1 <= |PrintUnit(u, q)| && i + |PrintUnit(u, q)| <= |s|
    ensures s[i..i + |PrintUnit(u, q)|] == PrintUnit(u, q)
  {
  }

  /** A quoted region or a name at the beginning of a text. */
  lemma QuotedRead(lx: Lexer, s: string) returns (p: Piece, e: nat)
    requires s != [] && s[0] in {'\'', '"', '`'}
    ensures 1 <= e <= |s| && s[..e] == PrintPiece(p) && PieceOk(lx, p, s[e..])
  {
    hide UnitsOk, PrintUnits;
    var q := s[0];
    var units, end;
    units, end, e := UnitsRead(s, 1, q, q != '`');
    p := if q == '`' then Name(units, end) else Text(q, units, end);
    assert s[..e] == [q] + s[1..e];
    assert [q] + PrintUnits(units, q) + PrintEnd(end, q) == [q] + (PrintUnits(units, q) + PrintEnd(end, q));
  }

  lemma LineRead(lx: Lexer, s: string) returns (p: Piece, e: nat)
    requires s != [] && (s[0] == '#' || (|s| >= 2 && s[0] == s[1] == '-' && (|s| == 2 || IsSpace(s[2]))))
    ensures 1 <= e <= |s| && s[..e] == PrintPiece(p) && PieceOk(lx, p, s[e..])
  {
    e := FindNewline(s, if s[0] == '#' then 1 else 2);
    p := if s[0] == '#' then Hash(s[1..e]) else Dashes(s[2..e]);
    assert s[..e] == if s[0] == '#' then ['#'] + s[1..e] else ['-', '-'] + s[2..e];
  }

  /** What stands between `i` and the next closing marker or the end. */
  lemma InnerRead(s: string, i: nat) returns (inner: string, closed: bool, e: nat)
    requires i <= |s|
    ensures closed == (FindClose(s, i) < |s|) && inner == s[i..FindClose(s, i)] && e == CloseEnd(s, FindClose(s, i))
    ensures i <= e <= |s| && s[i..e] == inner + PrintClose(closed) && CloseOk(inner, closed, s[e..])
  {
    hide FindClose, Closes, CloseAt;
    var close := FindClose(s, i);
    closed, inner, e := close < |s|, s[i..close], CloseEnd(s, close);
    InnerStands(s, i, close);
    assert closed ==> inner + PrintClose(closed) == inner + "*/";
    if closed {
      forall k | 0 <= k < |inner| ensures !Closes(inner + "*/", k) {
        assert !CloseAt(s, i + k);
        CloseMoved(s, i, inner + "*/", k);
      }
    } else {
      forall k | 0 <= k < |inner| ensures !Closes(inner, k) {
        assert !CloseAt(s, i + k);
        if k + 1 < |inner| { CloseMoved(s, i, inner, k); } else { NotAtEnd(inner, k); }
      }
    }
  }

  lemma InnerStands(s: string, i: nat, close: nat)
    requires i <= close <= |s| && (close < |s| ==> CloseAt(s, close))
    ensures var inner, closed := s[i..close], close < |s|;
            && Stands(s, i, inner + PrintClose(closed))
            && s[i..CloseEnd(s, close)] == inner + PrintClose(closed)
  {
  }

  lemma NotAtEnd(s: string, k: nat)
    requires k + 1 >= |s|
    ensures !Closes(s, k)
  {
  }

  lemma RemarkRead(lx: Lexer, s: string) returns (p: Piece, e: nat)
    requires s != [] && Kind(s) == Comment
    ensures 1 <= e <= |s| && s[..e] == PrintPiece(p) && PieceOk(lx, p, s[e..])
  {
    hide CloseOk, FindClose;
    var inner, closed;
    inner, closed, e := InnerRead(s, 2);
    p := Remark(inner, closed);
    assert s[..e] == ['/', '*'] + s[2..e];
    assert ['/', '*'] + inner + PrintClose(closed) == ['/', '*'] + (inner + PrintClose(closed));
  }

  lemma NumberRead(lx: Lexer, s: string)
    requires s != [] && Kind(s) == Executable
    ensures var start, close := lx.BodyStart(s), lx.BodyEnd(s);
            && s[3..close] == s[3..start] + lx.Body(s)
            && (forall i :: 0 <= i < start - 3 ==> s[3..start][i] in lx.digits)
            && (lx.Body(s) != [] ==> lx.Body(s)[0] !in lx.digits)
  {
    SkipDigitsAre(lx, s, 3, lx.BodyEnd(s));
  }

  lemma {:induction false} SkipDigitsAre(lx: Lexer, s: string, i: nat, close: nat)
    requires i <= close <= |s|
    ensures var e := lx.SkipDigits(s, i, close);
            (forall k :: i <= k < e ==> s[k] in lx.digits) && (e < close ==> s[e] !in lx.digits)
    decreases close - i
  {
    if i < close && s[i] in lx.digits { SkipDigitsAre(lx, s, i + 1, close); }
  }

  lemma VersionRead(lx: Lexer, s: string, body: Pieces) returns (p: Piece, e: nat)
    requires s != [] && Kind(s) == Executable && PiecesOk(lx, body) && Print(body) == lx.Body(s)
    ensures 1 <= e <= |s| && s[..e] == PrintPiece(p) && PieceOk(lx, p, s[e..])
  {
    hide CloseOk, FindClose, Print, PiecesOk, Lexer.Body, Lexer.BodyStart;
    var inner, closed;
    inner, closed, e := InnerRead(s, 3);
    var number := s[3..lx.BodyStart(s)];
    p := Version(number, body, closed);
    NumberRead(lx, s);
    assert inner == number + Print(body);
    assert s[..e] == ['/', '*', '!'] + s[3..e];
    assert ['/', '*', '!'] + number + Print(body) + PrintClose(closed) == ['/', '*', '!'] + (inner + PrintClose(closed));
  }

  lemma OtherRead(lx: Lexer, s: string)
    requires s != [] && Kind(s) == Plain
    ensures s[..1] == PrintPiece(Other(s[0])) && PieceOk(lx, Other(s[0]), s[1..])
  {
  }

  lemma PiecesCons(lx: Lexer, s: string, p: Piece, e: nat, rest: Pieces)
    requires e <= |s| && s[..e] == PrintPiece(p) && PieceOk(lx, p, s[e..]) && PiecesOk(lx, rest) && Print(rest) == s[e..]
    ensures PiecesOk(lx, Cons(p, rest)) && Print(Cons(p, rest)) == s
  {
    hide PieceOk, PrintPiece;
    assert s == s[..e] + s[e..];
  }

  /** Every text can be read as pieces. */
  lemma {:induction false} PiecesOf(lx: Lexer, s: string) returns (ps: Pieces)
    ensures PiecesOk(lx, ps) && Print(ps) == s
    decreases |s|
  {
    hide PieceOk, PrintPiece, Lexer.Body;
    if s == [] {
      ps := Nil;
    } else {
      var p, e;
      match Kind(s) {
        case Literal => p, e := QuotedRead(lx, s);
        case Identifier => p, e := QuotedRead(lx, s);
        case LineComment => p, e := LineRead(lx, s);
        case Comment => p, e := RemarkRead(lx, s);
        case Executable =>
          var body := PiecesOf(lx, lx.Body(s));
          p, e := VersionRead(lx, s, body);
        case Plain =>
          p, e := Other(s[0]), 1;
          OtherRead(lx, s);
      }
      var rest := PiecesOf(lx, s[e..]);
      PiecesCons(lx, s, p, e, rest);
      ps := Cons(p, rest);
    }
  }

  /** The masker's output for a text is what its pieces show: every text has pieces, and any choice of them shows the same. */
  lemma MaskExactly(lx: Lexer, sql: string, masked: string, count: nat)
    ensures masked == lx.Mask(sql) && count == lx.ExecutableCount(sql)
            <==> exists ps :: PiecesOk(lx, ps) && Print(ps) == sql && masked == VisibleAll(ps) && count == Versions(ps)
  {
    var ps := PiecesOf(lx, sql);
    MaskOfPrint(lx, ps);
    forall other | PiecesOk(lx, other) && Print(other) == sql
      ensures VisibleAll(other) == lx.Mask(sql) && Versions(other) == lx.ExecutableCount(sql)
    {
      MaskOfPrint(lx, other);
    }
  }

  // ---- The literals of a text ----

  /** The literals the masker reads, also those in the bodies of executable comments. */
  function Texts(ps: Pieces): seq<string> {
    match ps
    case Nil => []
    case Cons(p, rest) =>
      (if p.Text? then [PrintPiece(p)] else if p.Version? then Texts(p.body) else []) + Texts(rest)
  }

  lemma LiteralsStep(lx: Lexer, first: string, rest: string)
    requires first + rest != [] && TokenLength(first + rest) == |first|
    ensures MaskedLiterals(lx, first + rest)
            == (match Kind(first + rest)
                case Literal => [first]
                case Executable => MaskedLiterals(lx, lx.Body(first + rest))
                case _ => []) + MaskedLiterals(lx, rest)
  {
    assert (first + rest)[|first|..] == rest && (first + rest)[..|first|] == first;
  }

  lemma {:induction false} MaskedLiteralsOfPrint(lx: Lexer, ps: Pieces)
    requires PiecesOk(lx, ps)
    ensures MaskedLiterals(lx, Print(ps)) == Texts(ps)
    decreases ps
  {
    hide PieceOk, Kind, TokenLength, Lexer.Body, PrintPiece, MaskedLiterals;
    match ps
    case Nil => NoLiterals(lx);
    case Cons(p, rest) =>
      MaskedLiteralsOfPrint(lx, rest);
      if p.Version? {
        BodyOk(lx, p, Print(rest));
        MaskedLiteralsOfPrint(lx, p.body);
        BodyPrinted(lx, p.number, p.body, p.closed, Print(rest));
      }
      KindPrinted(lx, p, Print(rest));
      LengthPrinted(lx, p, Print(rest));
      LiteralsStep(lx, PrintPiece(p), Print(rest));
  }

  lemma NoLiterals(lx: Lexer)
    ensures MaskedLiterals(lx, []) == [] && Literals([]) == []
  {
  }

  /** As the digesting scanner reads: literals, and characters that are no quote. */
  predicate ScanOk(lx: Lexer, ps: Pieces) {
    match ps
    case Nil => true
    case Cons(p, rest) =>
      && (p.Text? || (p.Other? && p.c != '\'' && p.c != '"'))
      && (p.Text? ==> PieceOk(lx, p, Print(rest))) && ScanOk(lx, rest)
  }

  lemma ScanStep(lx: Lexer, p: Piece, rest: string)
    requires p.Text? && PieceOk(lx, p, rest)
    ensures Literals(PrintPiece(p) + rest) == [PrintPiece(p)] + Literals(rest)
  {
    hide PrintUnits, UnitsOk;
    var s := PrintPiece(p) + rest;
    assert s == [p.quote] + PrintUnits(p.units, p.quote) + PrintEnd(p.end, p.quote) + rest;
    UnitsScanned([p.quote], p.units, p.end, p.quote, true, rest);
    assert s[|PrintPiece(p)|..] == rest && s[..|PrintPiece(p)|] == PrintPiece(p);
  }

  lemma {:induction false} LiteralsOfPrint(lx: Lexer, ps: Pieces)
    requires ScanOk(lx, ps)
    ensures Literals(Print(ps)) == Texts(ps)
    decreases ps
  {
    match ps
    case Nil =>
    case Cons(p, rest) =>
      LiteralsOfPrint(lx, rest);
      if p.Text? {
        ScanStep(lx, p, Print(rest));
      } else {
        assert Print(ps)[0] == p.c && Print(ps)[1..] == Print(rest);
        assert [] + Texts(rest) == Texts(rest);
      }
  }

  lemma {:induction false} ScanOf(lx: Lexer, s: string) returns (ps: Pieces)
    ensures ScanOk(lx, ps) && Print(ps) == s
    decreases |s|
  {
    hide PieceOk, PrintPiece;
    if s == [] {
      ps := Nil;
    } else {
      var p, e := Other(s[0]), 1;
      if s[0] == '\'' || s[0] == '"' {
        p, e := QuotedRead(lx, s);
        QuotedIsText(lx, s, p, e);
      } else {
        OtherPrinted(s[0]);
        assert s[..1] == [s[0]];
      }
      var rest := ScanOf(lx, s[e..]);
      assert s == s[..e] + s[e..];
      ps := Cons(p, rest);
    }
  }

  lemma QuotedIsText(lx: Lexer, s: string, p: Piece, e: nat)
    requires s != [] && (s[0] == '\'' || s[0] == '"') && e <= |s| && s[..e] == PrintPiece(p) && e > 0 && PieceOk(lx, p, s[e..])
    ensures p.Text?
  {
    assert s[..e][0] == s[0];
  }

  /** The digested literals of a text are the quoted regions it reads as, comments and backticks notwithstanding. */
  lemma LiteralsExactly(lx: Lexer, sql: string, literals: seq<string>)
    ensures literals == Literals(sql) <==> exists ps :: ScanOk(lx, ps) && Print(ps) == sql && literals == Texts(ps)
  {
    var ps := ScanOf(lx, sql);
    LiteralsOfPrint(lx, ps);
    forall other | ScanOk(lx, other) && Print(other) == sql ensures Texts(other) == Literals(sql) {
      LiteralsOfPrint(lx, other);
    }
  }
}
