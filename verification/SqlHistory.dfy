/** The digest over the migration history of a dump (src/cmnd_linux/restore_prepare.py). */
module SqlHistory {
  import opened Sequences
  import opened Wrappers
  import opened Text
  import opened Bytes
  import opened SqlLexer
  import opened SqlMaskStructure
  import opened SqlSpans
  import opened SqlRewrite

  // The digest covers the lines of the dump whose masked text names the history
  // table.  Which texts name it is a parameter of everything here.

  // ---- Lines with their line ends ----

  predicate NoBreak(s: string, i: nat, j: nat)
    requires i <= j <= |s|
  {
    forall k :: i <= k < j ==> !IsPythonBreak(s[k])
  }

  /** The first line break at or after `i`, or the end. */
  function BreakFrom(s: string, i: nat): (b: nat)
    requires i <= |s|
    ensures i <= b <= |s| && (b < |s| ==> IsPythonBreak(s[b])) && NoBreak(s, i, b)
    decreases |s| - i
  {
    if i == |s| || IsPythonBreak(s[i]) then i else BreakFrom(s, i + 1)
  }

  lemma BreakFromIs(s: string, i: nat, b: nat)
    requires i <= b <= |s| && (b < |s| ==> IsPythonBreak(s[b])) && NoBreak(s, i, b)
    ensures BreakFrom(s, i) == b
  {
  }

  /** Behind the line that begins at `i`, its line end included. */
  function LineEnd(s: string, i: nat): (e: nat)
    requires i < |s|
    ensures i < e <= |s|
  {
    var b := BreakFrom(s, i);
    if b < |s| then Behind(s, b) else b
  }

  /** Python's splitlines, keeping the line ends, from `i` on. */
  function Lines(s: string, i: nat): seq<string>
    requires i <= |s|
    decreases |s| - i
  {
    if i == |s| then [] else [s[i..LineEnd(s, i)]] + Lines(s, LineEnd(s, i))
  }

  function Joined(lines: seq<string>): string {
    if lines == [] then [] else lines[0] + Joined(lines[1..])
  }

  // ---- The digest ----

  /** Source lines whose masked line names the history; the longer list is cut off, as by zip. */
  function Selected(source: seq<string>, lexical: seq<string>, names: string -> bool): seq<string> {
    if source == [] || lexical == [] then []
    else (if names(lexical[0]) then [source[0]] else []) + Selected(source[1..], lexical[1..], names)
  }

  function HistoryLines(lx: Lexer, sql: string, names: string -> bool): seq<string> {
    Selected(Lines(sql, 0), Lines(lx.Mask(sql), 0), names)
  }

  /** What is hashed; no line that names the history is an error. */
  function HistoryInput(lx: Lexer, sql: string, names: string -> bool): Option<seq<Byte>> {
    var selected := HistoryLines(lx, sql, names);
    if selected == [] then None else Some(Utf8(Joined(selected)))
  }

  method HistoryDigest(lx: Lexer, sql: string, names: string -> bool) returns (hashed: Option<seq<Byte>>, lines: nat)
    ensures hashed == HistoryInput(lx, sql, names)
    ensures lines == |HistoryLines(lx, sql, names)|
  {
    var masked, _ := lx.LexicallyMask(sql);
    var selected := Selected(Lines(sql, 0), Lines(masked, 0), names);
    hashed := if selected == [] then None else Some(Utf8(Joined(selected)));
    lines := |selected|;
  }

  // ---- Which lines are digested ----

  /** Every line break outside the last position is shown in the masked text. */
  predicate BreaksShown(s: string, m: string, i: nat)
    requires |m| == |s|
  {
    forall k :: i <= k < |s| - 1 && IsPythonBreak(s[k]) ==> m[k] == s[k]
  }

  predicate SameLengths(x: seq<string>, y: seq<string>) {
    |x| == |y| && forall k :: 0 <= k < |x| ==> |x[k]| == |y[k]|
  }

  /** A masked text as far as its line ends are concerned. */
  predicate BlankedSome(s: string, m: string) {
    && |m| == |s|
    && (forall k :: 0 <= k < |s| ==> m[k] == s[k] || (m[k] == ' ' && !IsJavaBreak(s[k])))
  }

  lemma MaskBlanksSome(lx: Lexer, s: string)
    ensures BlankedSome(s, lx.Mask(s))
  {
    hide Lexer.Mask;
    MaskStructure(lx, s);
  }

  lemma LineEndsAlike(s: string, m: string, i: nat)
    requires BlankedSome(s, m) && i < |s|
    ensures LineEnd(m, i) == LineEnd(s, i)
            <==> forall k :: i <= k < LineEnd(s, i) && k < |s| - 1 && IsPythonBreak(s[k]) ==> m[k] == s[k]
  {
    var b, e := BreakFrom(s, i), LineEnd(s, i);
    if b < |s| {
      if m[b] == s[b] {
        BreakFromIs(m, i, b);
      } else {
        assert e == b + 1 && IsPythonBreak(s[b]);
        assert NoBreak(m, i, e);
      }
    } else {
      BreakFromIs(m, i, b);
    }
  }

  lemma SameLengthsCons(a: string, x: seq<string>, b: string, y: seq<string>)
    ensures SameLengths([a] + x, [b] + y) <==> |a| == |b| && SameLengths(x, y)
  {
    if SameLengths([a] + x, [b] + y) {
      assert ([a] + x)[0] == a && ([b] + y)[0] == b;
      forall k | 0 <= k < |x| ensures |x[k]| == |y[k]| {
        assert ([a] + x)[k + 1] == x[k] && ([b] + y)[k + 1] == y[k];
      }
    }
  }

  lemma {:induction false} LinesAlignFrom(s: string, m: string, i: nat)
    requires BlankedSome(s, m) && i <= |s|
    ensures SameLengths(Lines(s, i), Lines(m, i)) <==> BreaksShown(s, m, i)
    decreases |s| - i
  {
    if i < |s| {
      var e := LineEnd(s, i);
      LineEndsAlike(s, m, i);
      SameLengthsCons(s[i..e], Lines(s, e), m[i..LineEnd(m, i)], Lines(m, LineEnd(m, i)));
      LinesAlignFrom(s, m, e);
    }
  }

  /**
   The source lines and the masked lines correspond exactly when masking blanks
   no line break but, perhaps, the last character.
   */
  lemma LinesAlign(lx: Lexer, sql: string)
    ensures SameLengths(Lines(sql, 0), Lines(lx.Mask(sql), 0)) <==> BreaksShown(sql, lx.Mask(sql), 0)
  {
    hide Lexer.Mask;
    MaskBlanksSome(lx, sql);
    LinesAlignFrom(sql, lx.Mask(sql), 0);
  }

  // ---- Lines of a rewritten text ----

  predicate Unbroken(v: string) { NoBreak(v, 0, |v|) }

  /** Replaced text and new text stand on one line. */
  predicate OnOneLine(s: string, span: Span)
  {
    span.start < span.end <= |s| && NoBreak(s, span.start, span.end) && span.value != [] && Unbroken(span.value)
  }

  predicate OnLines(s: string, spans: seq<Span>) {
    forall i :: 0 <= i < |spans| ==> OnOneLine(s, spans[i])
  }

  /** How many of the first spans begin before `b`. */
  function Before(spans: seq<Span>, b: nat): (n: nat)
    ensures n <= |spans|
    ensures forall i :: 0 <= i < n ==> spans[i].start < b
    ensures n < |spans| ==> spans[n].start >= b
  {
    if spans == [] || spans[0].start >= b then 0 else 1 + Before(spans[1..], b)
  }

  /** The spans split at the line break at `b`: none covers it. */
  lemma SplitOrdered(s: string, spans: seq<Span>, i: nat, b: nat)
    requires i <= |s| && Ordered(spans, i, |s|) && OnLines(s, spans) && b == BreakFrom(s, i)
    ensures var n, e := Before(spans, b), if b < |s| then Behind(s, b) else b;
            && Ordered(spans[..n], i, b) && Ordered(spans[n..], e, |s|)
            && OnLines(s, spans[n..]) && OnLines(s[..b], spans[..n])
  {
    hide BreakFrom, Ordered, OnOneLine, Behind;
    var n, e := Before(spans, b), if b < |s| then Behind(s, b) else b;
    OrderedBounds(spans, i, |s|);
    forall k | 0 <= k < |spans|
      ensures k < n ==> spans[k].end <= b
      ensures k >= n ==> spans[k].start >= e
    {
      if k > n { assert spans[n].start <= spans[k].start; }
      SpanApart(s, spans[k], i, b);
    }
    OrderedFrom(spans[..n], i, b);
    OrderedFrom(spans[n..], e, |s|);
    OnLinesSplit(s, spans, n, b);
  }

  lemma SpanApart(s: string, span: Span, i: nat, b: nat)
    requires i <= |s| && OnOneLine(s, span) && i <= span.start && b == BreakFrom(s, i)
    ensures if span.start < b then span.end <= b else b < |s| ==> span.start >= Behind(s, b)
    ensures b == |s| ==> span.start < b
  {
    assert !IsPythonBreak(s[span.start]);
    assert b < |s| ==> IsPythonBreak(s[b]) && IsPythonBreak(s[Behind(s, b) - 1]) && Behind(s, b) <= b + 2;
  }

  lemma OnLinesSplit(s: string, spans: seq<Span>, n: nat, b: nat)
    requires n <= |spans| && b <= |s| && OnLines(s, spans) && forall k :: 0 <= k < n ==> spans[k].end <= b
    ensures OnLines(s, spans[n..]) && OnLines(s[..b], spans[..n])
  {
    forall k | 0 <= k < n ensures OnOneLine(s[..b], spans[..n][k]) { assert OnOneLine(s, spans[k]); }
  }

  /** Each line with the replacements that lie in it. */
  function RewrittenLines(s: string, spans: seq<Span>, i: nat): (r: seq<string>)
    requires i <= |s| && Ordered(spans, i, |s|) && OnLines(s, spans)
    decreases |s| - i
  {
    if i == |s| then []
    else
      var b, e := BreakFrom(s, i), LineEnd(s, i);
      var n := Before(spans, b);
      SplitOrdered(s, spans, i, b);
      [Apply(s[..b], spans[..n], i) + s[b..e]] + RewrittenLines(s, spans[n..], e)
  }

  lemma {:induction false} ApplySplit(s: string, spans: seq<Span>, n: nat, i: nat, b: nat)
    requires n <= |spans| && Ordered(spans[..n], i, b) && b <= |s| && Ordered(spans[n..], b, |s|)
    ensures Ordered(spans, i, |s|)
    ensures Apply(s, spans, i) == Apply(s[..b], spans[..n], i) + Apply(s, spans[n..], b)
    decreases n
  {
    hide Apply;
    OrderedHead(spans[..n], i, b);
    OrderedHead(spans[n..], b, |s|);
    if n == 0 {
      assert spans[..0] == [] && spans[0..] == spans;
      ApplyNone(s[..b], i);
      assert s[..b][i..] == s[i..b];
      ApplyFromEarlier(s, spans, i, b);
    } else {
      assert spans[..n][1..] == spans[1..][..n - 1] && spans[n..] == spans[1..][n - 1..];
      ApplySplit(s, spans[1..], n - 1, spans[0].end, b);
      ApplyFirst(s[..b], spans[..n], i);
      OrderedHead(spans, i, |s|);
      ApplyFirst(s, spans, i);
      assert s[..b][i..spans[0].start] == s[i..spans[0].start];
      Associative(s[i..spans[0].start] + spans[0].value, Apply(s[..b], spans[..n][1..], spans[0].end), Apply(s, spans[n..], b));
    }
  }

  lemma ApplyNone(s: string, i: nat)
    requires i <= |s|
    ensures Apply(s, [], i) == s[i..]
  {
  }

  lemma JoinSlices(s: string, i: nat, b: nat, e: nat, v: string, rest: string)
    requires i <= b <= e <= |s|
    ensures s[i..e] + v + rest == s[i..b] + (s[b..e] + v + rest)
  {
    assert s[i..e] == s[i..b] + s[b..e];
  }

  lemma ApplyFromEarlier(s: string, spans: seq<Span>, i: nat, b: nat)
    requires i <= b <= |s| && Ordered(spans, b, |s|)
    ensures Ordered(spans, i, |s|) && Apply(s, spans, i) == s[i..b] + Apply(s, spans, b)
  {
    hide Apply;
    OrderedHead(spans, b, |s|);
    if spans == [] {
      ApplyNone(s, i);
      ApplyNone(s, b);
      assert s[i..] == s[i..b] + s[b..];
    } else {
      ApplyFirst(s, spans, b);
      ApplyFirst(s, spans, i);
      JoinSlices(s, i, b, spans[0].start, spans[0].value, Apply(s, spans[1..], spans[0].end));
    }
  }

  /** A line with replacements is not empty and has no break of its own. */
  lemma {:induction false} ApplyUnbroken(s: string, spans: seq<Span>, i: nat)
    requires i <= |s| && NoBreak(s, i, |s|) && Ordered(spans, i, |s|) && OnLines(s, spans)
    ensures Unbroken(Apply(s, spans, i))
    ensures i < |s| ==> Apply(s, spans, i) != []
  {
    OrderedHead(spans, i, |s|);
    if spans != [] {
      var first := spans[0];
      assert OnOneLine(s, first);
      OrderedHead(spans[1..], first.end, |s|);
      ApplyUnbroken(s, spans[1..], first.end);
    }
  }

  lemma ApplyBegins(s: string, spans: seq<Span>, i: nat)
    requires i <= |s| && Ordered(spans, i, |s|) && OnLines(s, spans) && Apply(s, spans, i) != []
    ensures i < |s| && (Apply(s, spans, i)[0] == s[i] || !IsPythonBreak(Apply(s, spans, i)[0]))
  {
    OrderedHead(spans, i, |s|);
    if spans != [] {
      assert OnOneLine(s, spans[0]);
      ApplyFirst(s, spans, i);
    }
  }

  /** `y` ends a line, and what follows does not belong to the line end. */
  predicate LineBreak(y: string, z: string) {
    || (y == [] && z == [])
    || (|y| == 1 && IsPythonBreak(y[0]) && !(y[0] == '\r' && z != [] && z[0] == '\n'))
    || y == ['\r', '\n']
  }

  lemma {:induction false} LinesShift(x: string, y: string, i: nat)
    requires i <= |y|
    ensures Lines(x + y, |x| + i) == Lines(y, i)
    decreases |y| - i
  {
    hide LineEnd;
    if i < |y| {
      LineEndShift(x, y, i);
      LinesShift(x, y, LineEnd(y, i));
      SliceShift(x, y, i, LineEnd(y, i));
    }
  }

  lemma LineEndShift(x: string, y: string, i: nat)
    requires i < |y|
    ensures LineEnd(x + y, |x| + i) == |x| + LineEnd(y, i)
  {
    hide BreakFrom;
    var b := BreakFrom(y, i);
    forall k | |x| + i <= k < |x| + b ensures !IsPythonBreak((x + y)[k]) {
      assert (x + y)[k] == y[k - |x|];
    }
    BreakFromIs(x + y, |x| + i, |x| + b);
  }

  lemma SliceShift(x: string, y: string, i: nat, e: nat)
    requires i <= e <= |y|
    ensures (x + y)[|x| + i..|x| + e] == y[i..e]
  {
  }

  lemma LinesStep(x: string, y: string, z: string)
    requires Unbroken(x) && LineBreak(y, z) && x + y != []
    ensures Lines(x + y + z, 0) == [x + y] + Lines(z, 0)
  {
    var s := x + y + z;
    BreakFromIs(s, 0, |x|);
    assert LineEnd(s, 0) == |x + y|;
    LinesShift(x + y, z, 0);
  }

  lemma NoneAtEnd(s: string, spans: seq<Span>, i: nat)
    requires i <= |s| && Ordered(spans, i, |s|) && OnLines(s, spans)
    ensures spans != [] ==> i < |s|
  {
    if spans != [] { assert OnOneLine(s, spans[0]); }
  }

  lemma {:induction false} LinesRewritten(s: string, spans: seq<Span>, i: nat)
    requires i <= |s| && Ordered(spans, i, |s|) && OnLines(s, spans)
    ensures Lines(Apply(s, spans, i), 0) == RewrittenLines(s, spans, i)
    decreases |s| - i
  {
    hide Apply, OnLines, Ordered, Unbroken;
    if i == |s| {
      NoneAtEnd(s, spans, i);
      ApplyNone(s, i);
    } else {
      var b, e := BreakFrom(s, i), LineEnd(s, i);
      var n := Before(spans, b);
      SplitOrdered(s, spans, i, b);
      ApplyFromEarlier(s, spans[n..], b, e);
      ApplySplit(s, spans, n, i, b);
      var x, y, z := Apply(s[..b], spans[..n], i), s[b..e], Apply(s, spans[n..], e);
      ApplyUnbroken(s[..b], spans[..n], i);
      if z != [] { ApplyBegins(s, spans[n..], e); }
      assert Apply(s, spans, i) == x + y + z;
      LinesStep(x, y, z);
      LinesRewritten(s, spans[n..], e);
    }
  }

  // ---- When the digest stays ----

  /** Lines with the same line end; only the last may have none. */
  predicate Alike(x: string, y: string, last: bool) {
    var i, j := BreakFrom(x, 0), BreakFrom(y, 0);
    x[i..] == y[j..] && (i == |x| ==> last)
  }

  predicate AllAlike(source: seq<string>, rewritten: seq<string>) {
    && |source| == |rewritten|
    && forall k :: 0 <= k < |source| ==> Alike(source[k], rewritten[k], k == |source| - 1)
  }

  lemma RewrittenAlike(s: string, b: nat, i: nat, e: nat, x: string)
    requires i < |s| && b == BreakFrom(s, i) && e == LineEnd(s, i) && Unbroken(x)
    ensures Alike(s[i..e], x + s[b..e], e == |s|)
  {
    BreakFromIs(s[i..e], 0, b - i);
    BreakFromIs(x + s[b..e], 0, |x|);
    assert s[i..e][b - i..] == s[b..e];
    assert (x + s[b..e])[|x|..] == s[b..e];
  }

  lemma AllAlikeCons(a: string, x: seq<string>, b: string, y: seq<string>)
    requires Alike(a, b, x == []) && AllAlike(x, y)
    ensures AllAlike([a] + x, [b] + y)
  {
    hide Alike;
    forall k | 0 <= k < |x| ensures ([a] + x)[k + 1] == x[k] && ([b] + y)[k + 1] == y[k] {}
  }

  /** Rewriting keeps the number of lines and their line ends. */
  lemma {:induction false} LinesStayAlike(s: string, spans: seq<Span>, i: nat)
    requires i <= |s| && Ordered(spans, i, |s|) && OnLines(s, spans)
    ensures AllAlike(Lines(s, i), RewrittenLines(s, spans, i))
    decreases |s| - i
  {
    hide Apply, OnLines, Ordered, Alike, AllAlike, Unbroken;
    if i == |s| {
      NothingAlike();
    } else {
      var b, e := BreakFrom(s, i), LineEnd(s, i);
      var n := Before(spans, b);
      SplitOrdered(s, spans, i, b);
      LinesStayAlike(s, spans[n..], e);
      ApplyUnbroken(s[..b], spans[..n], i);
      RewrittenAlike(s, b, i, e, Apply(s[..b], spans[..n], i));
      AllAlikeCons(s[i..e], Lines(s, e), Apply(s[..b], spans[..n], i) + s[b..e], RewrittenLines(s, spans[n..], e));
    }
  }

  lemma NothingAlike()
    ensures AllAlike([], [])
  {
  }

  /** The first of several joined lines can be told from the text. */
  lemma FirstAlike(x: string, y: string, last: bool, p: string, q: string)
    requires Alike(x, y, last) && (last ==> p == [] && q == []) && x + p == y + q
    ensures x == y && p == q
  {
    var i, j := BreakFrom(x, 0), BreakFrom(y, 0);
    if i < |x| {
      var t := x + p;
      assert t[j] == y[j] == y[j..][0] && t[i] == x[i] == x[i..][0];
      assert forall k :: 0 <= k < i ==> t[k] == x[k];
      assert forall k :: 0 <= k < j ==> t[k] == y[k];
      BreakFromIs(t, 0, i);
      BreakFromIs(t, 0, j);
      assert |x| == |y|;
    } else {
      assert x + p == x && y + q == y;
    }
    assert (x + p)[..|x|] == x && (y + q)[..|y|] == y;
    assert (x + p)[|x|..] == p && (y + q)[|y|..] == q;
  }

  /** Every digested line is the line it was. */
  predicate DigestedStay(source: seq<string>, rewritten: seq<string>, lexical: seq<string>, names: string -> bool) {
    forall k :: 0 <= k < |source| && k < |rewritten| && k < |lexical| && names(lexical[k]) ==> source[k] == rewritten[k]
  }

  predicate SameNames(lexical: seq<string>, rewritten: seq<string>, names: string -> bool) {
    |lexical| == |rewritten| && forall k :: 0 <= k < |lexical| ==> names(lexical[k]) == names(rewritten[k])
  }

  lemma {:induction false} SelectedAlike(source: seq<string>, rewritten: seq<string>, lexical: seq<string>, lexical': seq<string>, names: string -> bool)
    requires AllAlike(source, rewritten) && SameNames(lexical, lexical', names)
    ensures var x, y := Selected(source, lexical, names), Selected(rewritten, lexical', names);
            && |x| == |y|
            && (Joined(x) == Joined(y) <==> DigestedStay(source, rewritten, lexical, names))
  {
    if source != [] && lexical != [] {
      hide Alike;
      SelectedAlike(source[1..], rewritten[1..], lexical[1..], lexical'[1..], names);
      var p, q := Selected(source[1..], lexical[1..], names), Selected(rewritten[1..], lexical'[1..], names);
      StaysCons(source, rewritten, lexical, names);
      if names(lexical[0]) {
        assert ([source[0]] + p)[1..] == p && ([rewritten[0]] + q)[1..] == q;
        if source[0] + Joined(p) == rewritten[0] + Joined(q) {
          FirstAlike(source[0], rewritten[0], |source| == 1, Joined(p), Joined(q));
        }
      } else {
        assert [] + p == p && [] + q == q;
      }
    }
  }

  lemma StaysCons(source: seq<string>, rewritten: seq<string>, lexical: seq<string>, names: string -> bool)
    requires source != [] && rewritten != [] && lexical != []
    ensures DigestedStay(source, rewritten, lexical, names)
            <==> (names(lexical[0]) ==> source[0] == rewritten[0]) && DigestedStay(source[1..], rewritten[1..], lexical[1..], names)
  {
    if DigestedStay(source, rewritten, lexical, names) {
      forall k | 0 <= k < |source| - 1 && k < |rewritten| - 1 && k < |lexical| - 1 && names(lexical[1..][k])
        ensures source[1..][k] == rewritten[1..][k]
      {
        assert names(lexical[k + 1]);
      }
    }
  }

  lemma OnLinesMasked(s: string, m: string, spans: seq<Span>)
    requires BlankedSome(s, m) && OnLines(s, spans)
    ensures OnLines(m, spans)
  {
    forall i | 0 <= i < |spans| ensures OnOneLine(m, spans[i]) { assert OnOneLine(s, spans[i]); }
  }

  /** Rewriting keeps which masked lines name the history. */
  ghost predicate NamesStay(lx: Lexer, sql: string, spans: seq<Span>, names: string -> bool)
    requires Ordered(spans, 0, |sql|) && OnLines(sql, spans)
  {
    MaskBlanksSome(lx, sql);
    OnLinesMasked(sql, lx.Mask(sql), spans);
    SameNames(Lines(lx.Mask(sql), 0), RewrittenLines(lx.Mask(sql), spans, 0), names)
  }

  /**
   What is hashed stays as it was if and only if no digested line is changed,
   for a rewriting that keeps which masked lines name the history.
   */
  lemma HistoryStaysExactly(lx: Lexer, sql: string, spans: seq<Span>, names: string -> bool)
    requires Ordered(spans, 0, |sql|) && AllEditable(lx, sql, spans) && OnLines(sql, spans)
    requires NamesStay(lx, sql, spans, names)
    ensures HistoryInput(lx, Apply(sql, spans, 0), names) == HistoryInput(lx, sql, names)
            <==> DigestedStay(Lines(sql, 0), RewrittenLines(sql, spans, 0), Lines(lx.Mask(sql), 0), names)
  {
    hide Lexer.Mask, Apply, Ordered, AllEditable, OnLines, SameNames, DigestedStay, Lines, RewrittenLines, Selected, Joined, Utf8;
    MaskBlanksSome(lx, sql);
    OnLinesMasked(sql, lx.Mask(sql), spans);
    MaskCommutes(lx, sql, spans);
    LinesRewritten(sql, spans, 0);
    LinesRewritten(lx.Mask(sql), spans, 0);
    LinesStayAlike(sql, spans, 0);
    SelectedAlike(Lines(sql, 0), RewrittenLines(sql, spans, 0), Lines(lx.Mask(sql), 0), RewrittenLines(lx.Mask(sql), spans, 0), names);
    var x, y := HistoryLines(lx, sql, names), HistoryLines(lx, Apply(sql, spans, 0), names);
    if Utf8(Joined(x)) == Utf8(Joined(y)) { Utf8Injective(Joined(x), Joined(y)); }
  }

  lemma LastLine(line: string)
    requires Unbroken(line) && line != []
    ensures Lines(line, 0) == [line]
  {
    assert line + [] == line && Lines([], 0) == [];
    LinesStep(line, [], []);
  }

  // ---- A digest that misses the history ----

  /** A line break in a comment moves the selection: the line that names the history is not digested. */
  lemma WrongLineDigested(lx: Lexer, line: string, names: string -> bool)
    requires Unbroken(line) && line != [] && names(line) && !names([' ', ' ', '\n'])
    requires lx.Mask(line) == line
    ensures HistoryLines(lx, ['#', '\U{000B}', '\n'] + line, names) == [['\n']]
  {
    var sql := ['#', '\U{000B}', '\n'] + line;
    HashMask(lx, line);
    SourceLines(line);
    MaskedLines(line);
    var lexical := [[' ', ' ', '\n'], line];
    assert lexical[1..] == [line];
    var source := [['#', '\U{000B}'], ['\n'], line];
    assert source[1..] == [['\n'], line] && source[1..][1..] == [line];
    assert Selected(source[1..], lexical[1..], names) == [['\n']] + Selected([line], [], names);
    assert Selected(source, lexical, names) == [] + Selected(source[1..], lexical[1..], names);
  }

  lemma HashMask(lx: Lexer, line: string)
    requires lx.Mask(line) == line
    ensures lx.Mask(['#', '\U{000B}', '\n'] + line) == [' ', ' ', '\n'] + line
  {
    var sql := ['#', '\U{000B}', '\n'] + line;
    assert FindNewline(sql, 1) == FindNewline(sql, 2) == 2;
    assert Kind(sql) == LineComment && TokenLength(sql) == 2;
    var rest := sql[2..];
    assert rest == ['\n'] + line && rest[1..] == line;
    assert Kind(rest) == Plain;
    assert lx.Mask(rest) == ['\n'] + line;
    assert sql[..2] == ['#', '\U{000B}'];
    assert lx.MaskFirst(sql) == [' ', ' '];
  }

  lemma SourceLines(line: string)
    requires Unbroken(line) && line != []
    ensures Lines(['#', '\U{000B}', '\n'] + line, 0) == [['#', '\U{000B}'], ['\n'], line]
  {
    assert [] + ['\n'] == ['\n'] && ['#'] + ['\U{000B}'] == ['#', '\U{000B}'];
    assert ['#'] + ['\U{000B}'] + (['\n'] + line) == ['#', '\U{000B}', '\n'] + line;
    LinesStep(['#'], ['\U{000B}'], ['\n'] + line);
    LinesStep([], ['\n'], line);
    LastLine(line);
  }

  lemma MaskedLines(line: string)
    requires Unbroken(line) && line != []
    ensures Lines([' ', ' ', '\n'] + line, 0) == [[' ', ' ', '\n'], line]
  {
    assert [' ', ' '] + ['\n'] == [' ', ' ', '\n'];
    LinesStep([' ', ' '], ['\n'], line);
    LastLine(line);
  }
}
