/** Normalization of one database dump (src/cmnd_linux/restore_prepare.py). */
module SqlNormalize {
  import opened Sequences
  import opened Wrappers
  import opened Bytes
  import opened Text
  import opened SqlLexer
  import opened SqlSpans
  import opened SqlRewrite
  import opened SqlLiterals
  import opened SqlScanners
  import opened SqlNames
  import opened SqlDefiners
  import opened SqlHistory

  // The spans that are replaced, the checks around the rewriting, and why the
  // literal check cannot fail when the two scanners read the same quotes.

  // ---- What is editable for the masker is outside the digested literals ----

  lemma {:induction false} OutsideSkip(x: string, rest: string, a: nat, b: nat)
    requires a < b <= |rest| && Outside(rest, a, b) && QuoteFree(x)
    ensures Outside(x + rest, |x| + a, |x| + b)
  {
    if x == [] {
      assert x + rest == rest;
    } else {
      assert (x + rest)[0] == x[0] && (x + rest)[1..] == x[1..] + rest;
      OutsideSkip(x[1..], rest, a, b);
    }
  }

  lemma {:induction false} OutsideAfter(x: string, rest: string, a: nat, b: nat)
    requires a < b <= |rest| && Outside(rest, a, b) && Settled(x) && !IsQuote(rest[0])
    ensures Outside(x + rest, |x| + a, |x| + b)
    decreases |x|
  {
    if x == [] {
      assert x + rest == rest;
    } else if IsQuote(x[0]) {
      SettledFirst(x, rest);
      OutsideAfter(x[QuotedEnd(x, 1, x[0], true)..], rest, a, b);
    } else {
      assert (x + rest)[0] == x[0] && (x + rest)[1..] == x[1..] + rest;
      OutsideAfter(x[1..], rest, a, b);
    }
  }

  lemma {:induction false} OutsideExtend(x: string, rest: string, a: nat, b: nat)
    requires a < b <= |x| && Outside(x, a, b)
    ensures Outside(x + rest, a, b)
    decreases |x|
  {
    var t := x + rest;
    assert t[0] == x[0];
    if IsQuote(x[0]) {
      var n := QuotedEnd(x, 1, x[0], true);
      QuotedEndStops(x, 1, x[0], true);
      QuotedEndStable(x, t, 1, x[0], true);
      assert t[n..] == x[n..] + rest;
      OutsideExtend(x[n..], rest, a - n, b - n);
    } else if a == 0 {
      assert t[..b] == x[..b];
    } else {
      assert t[1..] == x[1..] + rest;
      OutsideExtend(x[1..], rest, a - 1, b - 1);
    }
  }

  lemma {:induction false} OutsideFree(s: string, a: nat, b: nat)
    requires a < b <= |s| && QuoteFree(s[..b])
    ensures Outside(s, a, b)
    decreases |s|
  {
    assert s[..b][0] == s[0];
    if a > 0 {
      assert s[1..][..b - 1] == s[..b][1..];
      OutsideFree(s[1..], a - 1, b - 1);
    }
  }

  lemma {:induction false} RunQuoteFree(lx: Lexer, s: string, b: nat)
    requires b <= |s| && Run(s, b) && QuotesAgree(lx, s)
    ensures QuoteFree(s[..b])
    decreases |s|
  {
    if b > 0 {
      var n := TokenLength(s);
      RunQuoteFree(lx, s[n..], b - n);
      assert s[..b] == s[..n] + s[n..][..b - n];
      assert QuoteFree(s[..n]);
    }
  }

  lemma OutsideAfterFrame(head: string, body: string, mark: string, rest: string, a: nat, b: nat)
    requires QuoteFree(head) && Settled(body) && mark != [] && QuoteFree(mark)
    requires a < b <= |rest| && Outside(rest, a, b)
    ensures var s := head + (body + (mark + rest)); var k := |head| + |body| + |mark|;
            Outside(s, k + a, k + b)
  {
    OutsideSkip(mark, rest, a, b);
    assert (mark + rest)[0] == mark[0];
    OutsideAfter(body, mark + rest, |mark| + a, |mark| + b);
    OutsideSkip(head, body + (mark + rest), |body| + |mark| + a, |body| + |mark| + b);
  }

  lemma OutsideAfterExecutable(lx: Lexer, s: string, a: nat, b: nat)
    requires s != [] && Kind(s) == Executable && QuoteFree(s[..lx.BodyStart(s)])
    requires lx.BodyEnd(s) < |s| ==> Settled(lx.Body(s))
    requires TokenLength(s) <= a < b <= |s|
    requires Outside(s[TokenLength(s)..], a - TokenLength(s), b - TokenLength(s))
    ensures Outside(s, a, b)
  {
    var n := TokenLength(s);
    ExecutableParts(lx, s);
    OutsideAfterFrame(s[..lx.BodyStart(s)], lx.Body(s), s[lx.BodyEnd(s)..n], s[n..], a - n, b - n);
  }

  lemma OutsideAfterFree(s: string, n: nat, a: nat, b: nat)
    requires n <= a < b <= |s| && QuoteFree(s[..n]) && Outside(s[n..], a - n, b - n)
    ensures Outside(s, a, b)
  {
    OutsideSkip(s[..n], s[n..], a - n, b - n);
    assert s[..n] + s[n..] == s;
  }

  lemma OutsideLaterToken(lx: Lexer, s: string, a: nat, b: nat)
    requires s != [] && QuotesAgree(lx, s) && TokenLength(s) <= a < b <= |s|
    requires Outside(s[TokenLength(s)..], a - TokenLength(s), b - TokenLength(s))
    ensures Outside(s, a, b)
  {
    hide TokenLength, Kind, Settled, QuoteFree, Outside;
    if Kind(s) == Executable {
      OutsideAfterExecutable(lx, s, a, b);
    } else if Kind(s) == Literal {
      OutsideAfterLiteral(s, a, b);
    } else {
      if Kind(s) == Plain {
        PlainQuoteFree(s);
      }
      OutsideAfterFree(s, TokenLength(s), a, b);
    }
  }

  lemma OutsideAfterLiteral(s: string, a: nat, b: nat)
    requires s != [] && Kind(s) == Literal && TokenLength(s) <= a < b <= |s|
    requires Outside(s[TokenLength(s)..], a - TokenLength(s), b - TokenLength(s))
    ensures Outside(s, a, b)
  {
  }

  lemma PlainQuoteFree(s: string)
    requires s != [] && Kind(s) == Plain
    ensures QuoteFree(s[..TokenLength(s)])
  {
  }

  lemma OutsideInFrame(head: string, body: string, rest: string, a: nat, b: nat)
    requires QuoteFree(head) && a < b <= |body| && Outside(body, a, b)
    ensures Outside(head + (body + rest), |head| + a, |head| + b)
  {
    OutsideExtend(body, rest, a, b);
    OutsideSkip(head, body + rest, a, b);
  }

  lemma OutsideInBody(lx: Lexer, s: string, a: nat, b: nat)
    requires a < b <= |s| && InBody(lx, s, a, b) && QuoteFree(s[..lx.BodyStart(s)])
    requires Outside(lx.Body(s), a - lx.BodyStart(s), b - lx.BodyStart(s))
    ensures Outside(s, a, b)
  {
    var lo := lx.BodyStart(s);
    ExecutableParts(lx, s);
    OutsideInFrame(s[..lo], lx.Body(s), s[lx.BodyEnd(s)..], a - lo, b - lo);
  }

  /** A span that the masker's tokens allow is outside the digested literals. */
  lemma {:induction false} EditableOutside(lx: Lexer, s: string, a: nat, b: nat)
    requires a < b <= |s| && Editable(lx, s, a, b) && QuotesAgree(lx, s)
    ensures Outside(s, a, b)
    decreases |s|
  {
    hide TokenLength, Kind, Run, Outside;
    var n := TokenLength(s);
    if a >= n {
      EditableOutside(lx, s[n..], a - n, b - n);
      OutsideLaterToken(lx, s, a, b);
    } else if IsRun(s, a, b) {
      RunQuoteFree(lx, s, b);
      OutsideFree(s, a, b);
    } else if InIdentifier(s, a, b) {
      assert s[..b] == s[..n][..b];
      OutsideFree(s, a, b);
    } else {
      EditableOutside(lx, lx.Body(s), a - lx.BodyStart(s), b - lx.BodyStart(s));
      OutsideInBody(lx, s, a, b);
    }
  }

  // ---- The spans the program replaces ----

  datatype NormalizeError = OverlappingSpans | UnprovenDefiners | HistoryMissing | LiteralsChanged | HistoryChanged

  /** What the patterns found in the masked text: schema names and definer clauses. */
  datatype Found = Found(names: seq<Place>, definers: seq<Place>) {
    predicate Fits(n: nat) {
      && (forall i :: 0 <= i < |names| ==> names[i].0 < names[i].1 <= n)
      && (forall i :: 0 <= i < |definers| ==> definers[i].0 < definers[i].1 <= n)
    }
  }

  const DEFINER := "DEFINER=CURRENT_USER"

  /** A name that differs from the target database only in case. */
  function NameSpan(sql: string, database: string, fold: string -> string, name: Place): (r: seq<Span>)
    requires name.0 < name.1 <= |sql|
    ensures r == [] || r == [Span(name.0, name.1, database)]
  {
    var value := sql[name.0..name.1];
    if fold(value) == fold(database) && value != database then [Span(name.0, name.1, database)] else []
  }

  function NameSpans(sql: string, database: string, fold: string -> string, names: seq<Place>): (r: seq<Span>)
    requires forall i :: 0 <= i < |names| ==> names[i].0 < names[i].1 <= |sql|
    ensures Within(r, |sql|)
    ensures forall i :: 0 <= i < |r| ==> r[i].value == database && (r[i].start, r[i].end) in names
  {
    if names == [] then []
    else NameSpan(sql, database, fold, names[0]) + NameSpans(sql, database, fold, names[1..])
  }

  function DefinerSpans(definers: seq<Place>): (r: seq<Span>)
    ensures |r| == |definers|
    ensures forall i :: 0 <= i < |r| ==> r[i] == Span(definers[i].0, definers[i].1, DEFINER)
  {
    seq(|definers|, i requires 0 <= i < |definers| => Span(definers[i].0, definers[i].1, DEFINER))
  }

  function Wanted(sql: string, database: string, fold: string -> string, found: Found): (r: seq<Span>)
    requires found.Fits(|sql|)
    ensures Within(r, |sql|)
  {
    NameSpans(sql, database, fold, found.names) + DefinerSpans(found.definers)
  }

  lemma SortedWithin(spans: seq<Span>, n: nat)
    requires Within(spans, n)
    ensures Within(Sort(spans), n)
  {
    SortCorrect(spans);
    forall i | 0 <= i < |Sort(spans)|
      ensures Sort(spans)[i].start < Sort(spans)[i].end <= n
    {
      assert Sort(spans)[i] in multiset(spans);
    }
  }

  type Place = (nat, nat)

  /** The names that are the database's but for their case. */
  function Renamed(sql: string, database: string, fold: string -> string): Place -> bool {
    (n: Place) => n.0 < n.1 <= |sql| && fold(sql[n.0..n.1]) == fold(database) && sql[n.0..n.1] != database
  }

  method SelectNames(sql: string, database: string, fold: string -> string, names: seq<Place>)
    returns (replacements: seq<Span>)
    requires forall i :: 0 <= i < |names| ==> names[i].0 < names[i].1 <= |sql|
    ensures replacements == NameSpans(sql, database, fold, names)
    ensures exists picked: seq<Place> ::
              && Picks(names, Renamed(sql, database, fold), picked) && |replacements| == |picked|
              && forall k :: 0 <= k < |picked| ==> replacements[k] == Span(picked[k].0, picked[k].1, database)
  {
    hide Chosen, Renamed, Picks, NameSpans, NameSpan;
    replacements := [];
    ghost var picked: seq<Place> := [];
    ChosenNothing(sql, database, fold, names);
    for i := 0 to |names|
      invariant Chosen(sql, database, fold, names, i, replacements, picked)
    {
      var name := names[i];
      var value := sql[name.0..name.1];
      ChosenNext(sql, database, fold, names, i, replacements, picked);
      if fold(value) == fold(database) && value != database {
        replacements, picked := replacements + [Span(name.0, name.1, database)], picked + [name];
      }
    }
    ChosenAll(sql, database, fold, names, replacements, picked);
  }

  /** Among the first `i` names the picked ones are selected, and the rest of the selection is still to come. */
  ghost predicate Chosen(sql: string, database: string, fold: string -> string, names: seq<Place>, i: nat, spans: seq<Span>, picked: seq<Place>)
    requires forall k :: 0 <= k < |names| ==> names[k].0 < names[k].1 <= |sql|
  {
    && i <= |names| && spans + NameSpans(sql, database, fold, names[i..]) == NameSpans(sql, database, fold, names)
    && Picks(names[..i], Renamed(sql, database, fold), picked)
    && |spans| == |picked| && forall k :: 0 <= k < |picked| ==> spans[k] == Span(picked[k].0, picked[k].1, database)
  }

  lemma ChosenNothing(sql: string, database: string, fold: string -> string, names: seq<Place>)
    requires forall k :: 0 <= k < |names| ==> names[k].0 < names[k].1 <= |sql|
    ensures Chosen(sql, database, fold, names, 0, [], [])
  {
    PicksNone<Place>(Renamed(sql, database, fold));
    assert names[0..] == names && names[..0] == [];
  }

  lemma ChosenNext(sql: string, database: string, fold: string -> string, names: seq<Place>, i: nat, spans: seq<Span>, picked: seq<Place>)
    requires forall k :: 0 <= k < |names| ==> names[k].0 < names[k].1 <= |sql|
    requires i < |names| && Chosen(sql, database, fold, names, i, spans, picked)
    ensures var name := names[i]; var value := sql[name.0..name.1];
            if fold(value) == fold(database) && value != database
            then Chosen(sql, database, fold, names, i + 1, spans + [Span(name.0, name.1, database)], picked + [name])
            else Chosen(sql, database, fold, names, i + 1, spans, picked)
  {
    hide Picks, Renamed, NameSpan;
    var name := names[i];
    RenamedIs(sql, database, fold, name);
    NameSpansStep(sql, database, fold, names[i..]);
    assert names[i..][1..] == names[i + 1..];
    TakeNext(names, i);
    PicksNext<Place>(names[..i], Renamed(sql, database, fold), picked, name);
    Associative(spans, NameSpan(sql, database, fold, name), NameSpans(sql, database, fold, names[i + 1..]));
    assert spans + [] == spans;
  }

  lemma NameSpansStep(sql: string, database: string, fold: string -> string, names: seq<Place>)
    requires names != [] && forall k :: 0 <= k < |names| ==> names[k].0 < names[k].1 <= |sql|
    ensures NameSpans(sql, database, fold, names) == NameSpan(sql, database, fold, names[0]) + NameSpans(sql, database, fold, names[1..])
  {
  }

  lemma RenamedIs(sql: string, database: string, fold: string -> string, name: Place)
    requires name.0 < name.1 <= |sql|
    ensures Renamed(sql, database, fold)(name) <==> fold(sql[name.0..name.1]) == fold(database) && sql[name.0..name.1] != database
    ensures NameSpan(sql, database, fold, name) == if Renamed(sql, database, fold)(name) then [Span(name.0, name.1, database)] else []
  {
  }

  lemma ChosenAll(sql: string, database: string, fold: string -> string, names: seq<Place>, spans: seq<Span>, picked: seq<Place>)
    requires forall k :: 0 <= k < |names| ==> names[k].0 < names[k].1 <= |sql|
    requires Chosen(sql, database, fold, names, |names|, spans, picked)
    ensures spans == NameSpans(sql, database, fold, names) && Picks(names, Renamed(sql, database, fold), picked)
    ensures |spans| == |picked| && forall k :: 0 <= k < |picked| ==> spans[k] == Span(picked[k].0, picked[k].1, database)
  {
    assert names[|names|..] == [] && names[..|names|] == names;
  }

  /** Overlapping spans are refused; otherwise the rewriter gets the sorted spans. */
  method ReplacementSpans(sql: string, database: string, fold: string -> string, found: Found)
    returns (r: Result<seq<Span>, NormalizeError>, schemaChanges: nat)
    requires found.Fits(|sql|)
    ensures r.Ok? <==> Disjoint(Wanted(sql, database, fold, found))
    ensures r.Ok? ==> r.value == Sort(Wanted(sql, database, fold, found)) && Ordered(r.value, 0, |sql|)
    ensures r.Ok? ==> forall span :: span in r.value <==>
              || (span.value == database && (span.start, span.end) in found.names
                  && fold(sql[span.start..span.end]) == fold(database) && sql[span.start..span.end] != database)
              || (span.value == DEFINER && (span.start, span.end) in found.definers)
    ensures r.Err? ==> r.error == OverlappingSpans
    ensures schemaChanges == |NameSpans(sql, database, fold, found.names)|
  {
    var replacements := SelectNames(sql, database, fold, found.names);
    schemaChanges := |replacements|;
    var wanted := replacements + DefinerSpans(found.definers);
    var ordered := Sort(wanted);
    SortCorrect(wanted);
    SortedWithin(wanted, |sql|);
    DisjointSort(wanted);
    var ok := CheckOverlap(ordered, |sql|);
    SortedMembers(wanted);
    WantedMembers(sql, database, fold, found);
    hide Sort, Wanted, Disjoint, NameSpans;
    r := if ok then Ok(ordered) else Err(OverlappingSpans);
  }

  /** Which spans are wanted: the names that differ from the database's in case alone, and the definer clauses. */
  lemma WantedMembers(sql: string, database: string, fold: string -> string, found: Found)
    requires found.Fits(|sql|)
    ensures forall span :: span in Wanted(sql, database, fold, found) <==>
              || (span.value == database && (span.start, span.end) in found.names
                  && fold(sql[span.start..span.end]) == fold(database) && sql[span.start..span.end] != database)
              || (span.value == DEFINER && (span.start, span.end) in found.definers)
  {
    NameMembers(sql, database, fold, found.names);
    var clauses := DefinerSpans(found.definers);
    forall span ensures span in clauses <==> span.value == DEFINER && (span.start, span.end) in found.definers {
      if span.value == DEFINER && (span.start, span.end) in found.definers {
        var i :| 0 <= i < |found.definers| && found.definers[i] == (span.start, span.end);
        assert clauses[i] == span;
      }
    }
  }

  lemma {:induction false} NameMembers(sql: string, database: string, fold: string -> string, names: seq<Place>)
    requires forall i :: 0 <= i < |names| ==> names[i].0 < names[i].1 <= |sql|
    ensures forall span :: span in NameSpans(sql, database, fold, names) <==>
              && span.value == database && (span.start, span.end) in names
              && fold(sql[span.start..span.end]) == fold(database) && sql[span.start..span.end] != database
  {
    if names != [] {
      NameMembers(sql, database, fold, names[1..]);
      assert names == [names[0]] + names[1..];
    }
  }

  lemma SortedMembers(spans: seq<Span>)
    ensures forall span :: span in Sort(spans) <==> span in spans
  {
    SortCorrect(spans);
    forall span ensures span in Sort(spans) <==> span in spans {
      assert span in multiset(Sort(spans)) <==> span in multiset(spans);
    }
  }

  /** The new text stands in the result where the old one was, moved by the growth of the spans before it. */
  predicate StandsIn(result: string, sql: string, spans: seq<Span>, a: nat, value: string)
    requires Ordered(spans, 0, |sql|)
  {
    var at := a + SqlSpans.Shift(spans, 0, |sql|, a);
    0 <= at && at + |value| <= |result| && result[at..at + |value|] == value
  }

  /** Each wanted span holds its new text in the result. */
  lemma WantedStand(sql: string, database: string, fold: string -> string, found: Found)
    requires found.Fits(|sql|) && Ordered(Sort(Wanted(sql, database, fold, found)), 0, |sql|)
    ensures var spans := Sort(Wanted(sql, database, fold, found)); var result := Apply(sql, spans, 0);
            && (forall n <- found.names :: fold(sql[n.0..n.1]) == fold(database) && sql[n.0..n.1] != database ==>
                  StandsIn(result, sql, spans, n.0, database))
            && (forall n <- found.definers :: StandsIn(result, sql, spans, n.0, DEFINER))
  {
    hide Sort, Wanted, Apply, Ordered, StandsIn, Within;
    var wanted := Wanted(sql, database, fold, found);
    var spans := Sort(wanted);
    WantedMembers(sql, database, fold, found);
    SortedMembers(wanted);
    SortedWithin(wanted, |sql|);
    SpansStand(sql, spans);
    forall n | n in found.names && fold(sql[n.0..n.1]) == fold(database) && sql[n.0..n.1] != database
      ensures StandsIn(Apply(sql, spans, 0), sql, spans, n.0, database)
    {
      assert Span(n.0, n.1, database) in spans;
    }
    forall n | n in found.definers ensures StandsIn(Apply(sql, spans, 0), sql, spans, n.0, DEFINER) {
      assert Span(n.0, n.1, DEFINER) in spans;
    }
  }

  lemma SpansStand(sql: string, spans: seq<Span>)
    requires Ordered(spans, 0, |sql|) && Within(spans, |sql|)
    ensures forall span <- spans :: StandsIn(Apply(sql, spans, 0), sql, spans, span.start, span.value)
  {
    hide Apply, Ordered;
    forall span <- spans ensures StandsIn(Apply(sql, spans, 0), sql, spans, span.start, span.value) {
      var i :| 0 <= i < |spans| && spans[i] == span;
      ApplyInside(sql, spans, 0, i);
    }
  }

  function CountDefiners(spans: seq<Span>): nat {
    if spans == [] then 0 else (if spans[0].value == DEFINER then 1 else 0) + CountDefiners(spans[1..])
  }

  predicate MissesHistory(lx: Lexer, sql: string, history: Option<string -> bool>) {
    history.Some? && HistoryInput(lx, sql, history.value) == None
  }

  /** The checks on the rewritten text, in their order; a dump without history table has no history check. */
  predicate Judged(lx: Lexer, sql: string, result: string, history: Option<string -> bool>, r: Result<string, NormalizeError>) {
    var sameLiterals := Preimage(Literals(result)) == Preimage(Literals(sql));
    var missing := MissesHistory(lx, sql, history);
    var sameHistory := history.Some? ==> HistoryInput(lx, result, history.value) == HistoryInput(lx, sql, history.value);
    && (r == Err(HistoryMissing) <==> missing || (sameLiterals && MissesHistory(lx, result, history)))
    && (r == Err(LiteralsChanged) <==> !missing && !sameLiterals)
    && (r == Err(HistoryChanged) <==> !missing && sameLiterals && !MissesHistory(lx, result, history) && !sameHistory)
    && (r.Ok? <==> sameLiterals && !missing && sameHistory)
    && if r.Ok? then r.value == result else r.error in {HistoryMissing, LiteralsChanged, HistoryChanged}
  }

  /** How many of the spans are definer clauses. */
  method CountReplaced(replacements: seq<Span>) returns (actual: nat)
    ensures actual == CountDefiners(replacements)
  {
    actual := 0;
    for i := 0 to |replacements|
      invariant actual + CountDefiners(replacements[i..]) == CountDefiners(replacements)
    {
      assert replacements[i..][1..] == replacements[i + 1..];
      if replacements[i].value == DEFINER { actual := actual + 1; }
    }
  }

  lemma {:induction false} CountInsert(span: Span, spans: seq<Span>)
    ensures CountDefiners(Insert(span, spans)) == CountDefiners([span]) + CountDefiners(spans)
  {
    assert [span][1..] == [];
    if spans != [] && span.start > spans[0].start { CountInsert(span, spans[1..]); }
    assert ([span] + spans)[1..] == spans;
  }

  lemma {:induction false} CountSort(spans: seq<Span>)
    ensures CountDefiners(Sort(spans)) == CountDefiners(spans)
  {
    if spans != [] {
      CountSort(spans[1..]);
      CountInsert(spans[0], Sort(spans[1..]));
      assert [spans[0]][1..] == [];
    }
  }

  lemma {:induction false} CountAppend(x: seq<Span>, y: seq<Span>)
    ensures CountDefiners(x + y) == CountDefiners(x) + CountDefiners(y)
  {
    if x == [] {
      assert x + y == y;
    } else {
      CountAppend(x[1..], y);
      assert (x + y)[1..] == x[1..] + y;
    }
  }

  lemma {:induction false} CountAlike(spans: seq<Span>, value: string)
    requires forall i :: 0 <= i < |spans| ==> spans[i].value == value
    ensures CountDefiners(spans) == if value == DEFINER then |spans| else 0
  {
    if spans != [] { CountAlike(spans[1..], value); }
  }

  /** The count is that of the definer clauses found; no database has their new text for a name. */
  lemma DefinersCounted(sql: string, database: string, fold: string -> string, found: Found)
    requires found.Fits(|sql|)
    ensures CountDefiners(Sort(Wanted(sql, database, fold, found)))
            == |found.definers| + if database == DEFINER then |NameSpans(sql, database, fold, found.names)| else 0
  {
    var names, clauses := NameSpans(sql, database, fold, found.names), DefinerSpans(found.definers);
    CountSort(names + clauses);
    CountAppend(names, clauses);
    CountAlike(names, database);
    CountAlike(clauses, DEFINER);
  }

  lemma JudgedBy(lx: Lexer, sql: string, result: string, history: Option<string -> bool>, r: Result<string, NormalizeError>)
    requires Judged(lx, sql, result, history, r)
    ensures if r.Ok? then r.value == result else r.error in {HistoryMissing, LiteralsChanged, HistoryChanged}
  {
  }

  /** Rewrite, and compare literals and history before and after. */
  method Check(lx: Lexer, sql: string, replacements: seq<Span>, history: Option<string -> bool>)
    returns (r: Result<string, NormalizeError>)
    requires Ordered(replacements, 0, |sql|)
    ensures Judged(lx, sql, Apply(sql, replacements, 0), history, r)
  {
    hide HistoryInput, Preimage, Literals, Apply, Ordered;
    var literalHash := LiteralPreimage(sql);
    var historyHash: Option<seq<Byte>> := None;
    if history.Some? {
      var digested, _ := HistoryDigest(lx, sql, history.value);
      historyHash := digested;
      if historyHash == None { return Err(HistoryMissing); }
    }
    var normalized := ApplyReplacements(sql, replacements);
    var normalizedHash := LiteralPreimage(normalized);
    if normalizedHash != literalHash { return Err(LiteralsChanged); }
    if history.Some? {
      var normalizedHistory, _ := HistoryDigest(lx, normalized, history.value);
      if normalizedHistory == None { return Err(HistoryMissing); }
      if normalizedHistory != historyHash { return Err(HistoryChanged); }
    }
    return Ok(normalized);
  }

  /** The text the program stages, before its second audit. */
  method Normalize(
    lx: Lexer, sql: string, database: string, fold: string -> string, found: Found, expectedDefiners: nat, history: Option<string -> bool>
  ) returns (r: Result<string, NormalizeError>)
    requires found.Fits(|sql|)
    ensures var wanted := Wanted(sql, database, fold, found);
            && (r == Err(OverlappingSpans) <==> !Disjoint(wanted))
            && (r == Err(UnprovenDefiners) <==>
                  Disjoint(wanted) && |found.definers| + (if database == DEFINER then |NameSpans(sql, database, fold, found.names)| else 0) != expectedDefiners)
            && (r != Err(OverlappingSpans) && r != Err(UnprovenDefiners) ==>
                  Ordered(Sort(wanted), 0, |sql|) && Judged(lx, sql, Apply(sql, Sort(wanted), 0), history, r))
            && (r.Ok? ==>
                  && (forall n <- found.names :: fold(sql[n.0..n.1]) == fold(database) && sql[n.0..n.1] != database ==>
                        StandsIn(r.value, sql, Sort(wanted), n.0, database))
                  && (forall n <- found.definers :: StandsIn(r.value, sql, Sort(wanted), n.0, DEFINER)))
  {
    hide Judged, StandsIn, Sort, Wanted, Disjoint, NameSpans, CountDefiners;
    var spans, _ := ReplacementSpans(sql, database, fold, found);
    if spans.Err? { return Err(spans.error); }
    var replacements := spans.value;
    DefinersCounted(sql, database, fold, found);
    WantedStand(sql, database, fold, found);
    var actual := CountReplaced(replacements);
    if actual != expectedDefiners { return Err(UnprovenDefiners); }
    r := Check(lx, sql, replacements, history);
    JudgedBy(lx, sql, Apply(sql, replacements, 0), history, r);
  }

  // ---- The program's own names and texts ----

  const DATABASES := {"cas", "tpvision", "smartcms", "smartcontroldb", "smartinstall"}

  lemma ProgramTextSafe(lx: Lexer, database: string)
    requires NoLetterDigits(lx) && database in DATABASES
    ensures SafeText(lx, database) && SafeText(lx, DEFINER)
  {
  }

  /** What the patterns saw in the masked text: names, and definer clauses. */
  ghost predicate FoundSeen(lx: Lexer, sql: string, found: Found)
    requires found.Fits(|sql|)
  {
    && (forall i :: 0 <= i < |found.names| ==> Seen(lx.Mask(sql), found.names[i].0, found.names[i].1))
    && (forall i :: 0 <= i < |found.definers| ==> SeenClause(lx.Mask(sql), found.definers[i].0, found.definers[i].1))
  }

  /**
   Each definer clause begins at a token, hides no literal and no executable
   comment, does not cross the marks of one, and no backtick follows it.
   */
  predicate DefinersStand(lx: Lexer, sql: string, definers: seq<Place>)
    requires forall i :: 0 <= i < |definers| ==> definers[i].0 < definers[i].1 <= |sql|
  {
    forall i :: 0 <= i < |definers| ==>
      && Stands(lx, sql, definers[i].0, definers[i].1)
      && (definers[i].1 < |sql| ==> lx.Mask(sql)[definers[i].1] != '`')
  }

  lemma DefinersEditable(lx: Lexer, sql: string, definers: seq<Place>, i: nat)
    requires i < |definers| && forall k :: 0 <= k < |definers| ==> definers[k].0 < definers[k].1 <= |sql|
    requires SeenClause(lx.Mask(sql), definers[i].0, definers[i].1) && DefinersStand(lx, sql, definers)
    ensures Editable(lx, sql, definers[i].0, definers[i].1)
  {
    hide Lexer.Mask, Editable, Stands;
    SeenClauseEditable(lx, sql, definers[i].0, definers[i].1);
  }

  /** Only words become the database's name when case is ignored. */
  ghost predicate FoldsWords(fold: string -> string, database: string) {
    forall value :: fold(value) == fold(database) ==> Word(value, 0, |value|)
  }

  predicate EditableSpan(lx: Lexer, sql: string, span: Span) {
    span.start < span.end <= |sql| && Editable(lx, sql, span.start, span.end) && SafeText(lx, span.value)
  }

  lemma NameIsWord(sql: string, database: string, fold: string -> string, a: nat, b: nat)
    requires a < b <= |sql| && FoldsWords(fold, database) && fold(sql[a..b]) == fold(database)
    ensures Word(sql, a, b)
  {
    var value := sql[a..b];
    assert Word(value, 0, |value|);
    forall i | a <= i < b ensures WordChar(sql[i]) { assert sql[i] == value[i - a]; }
  }

  lemma SelectedName(sql: string, database: string, fold: string -> string, name: Place)
    requires name.0 < name.1 <= |sql| && FoldsWords(fold, database) && NameSpan(sql, database, fold, name) != []
    ensures Word(sql, name.0, name.1)
  {
    NameIsWord(sql, database, fold, name.0, name.1);
  }

  lemma NameEditable(lx: Lexer, sql: string, database: string, fold: string -> string, name: Place)
    requires name.0 < name.1 <= |sql| && Seen(lx.Mask(sql), name.0, name.1)
    requires SafeText(lx, database) && FoldsWords(fold, database)
    ensures forall i :: 0 <= i < |NameSpan(sql, database, fold, name)| ==> EditableSpan(lx, sql, NameSpan(sql, database, fold, name)[i])
  {
    var spans := NameSpan(sql, database, fold, name);
    if spans != [] {
      SelectedName(sql, database, fold, name);
      SeenEditable(lx, sql, name.0, name.1);
    }
  }

  lemma {:induction false} NameSpansEditable(lx: Lexer, sql: string, database: string, fold: string -> string, names: seq<Place>)
    requires forall i :: 0 <= i < |names| ==>
               names[i].0 < names[i].1 <= |sql| && Seen(lx.Mask(sql), names[i].0, names[i].1)
    requires SafeText(lx, database) && FoldsWords(fold, database)
    ensures forall i :: 0 <= i < |NameSpans(sql, database, fold, names)| ==>
                          EditableSpan(lx, sql, NameSpans(sql, database, fold, names)[i])
  {
    if names != [] {
      NameEditable(lx, sql, database, fold, names[0]);
      NameSpansEditable(lx, sql, database, fold, names[1..]);
    }
  }

  lemma DefinerSpansEditable(lx: Lexer, sql: string, definers: seq<Place>)
    requires forall i :: 0 <= i < |definers| ==>
               definers[i].0 < definers[i].1 <= |sql| && Editable(lx, sql, definers[i].0, definers[i].1)
    requires SafeText(lx, DEFINER)
    ensures forall span :: span in DefinerSpans(definers) ==> EditableSpan(lx, sql, span)
  {
  }

  lemma SortKeepsMembers(spans: seq<Span>, i: nat)
    requires i < |Sort(spans)|
    ensures Sort(spans)[i] in spans
  {
    SortCorrect(spans);
    assert Sort(spans)[i] in multiset(spans);
  }

  lemma SpansEditable(lx: Lexer, sql: string, spans: seq<Span>)
    requires forall i :: 0 <= i < |spans| ==> EditableSpan(lx, sql, spans[i])
    ensures AllEditable(lx, sql, spans)
  {
    hide Editable, SafeText;
  }

  lemma UnsortedEditable(lx: Lexer, sql: string, database: string, fold: string -> string, found: Found)
    requires NoLetterDigits(lx) && database in DATABASES
    requires found.Fits(|sql|) && FoundSeen(lx, sql, found) && DefinersStand(lx, sql, found.definers) && FoldsWords(fold, database)
    ensures forall span <- Wanted(sql, database, fold, found) :: EditableSpan(lx, sql, span)
  {
    hide Editable, EditableSpan, SafeText, NameSpans, Seen;
    ProgramTextSafe(lx, database);
    NameSpansEditable(lx, sql, database, fold, found.names);
    forall i | 0 <= i < |found.definers|
      ensures Editable(lx, sql, found.definers[i].0, found.definers[i].1)
    {
      DefinersEditable(lx, sql, found.definers, i);
    }
    DefinerSpansEditable(lx, sql, found.definers);
  }

  lemma WantedEditable(lx: Lexer, sql: string, database: string, fold: string -> string, found: Found)
    requires NoLetterDigits(lx) && database in DATABASES
    requires found.Fits(|sql|) && FoundSeen(lx, sql, found) && DefinersStand(lx, sql, found.definers) && FoldsWords(fold, database)
    ensures AllEditable(lx, sql, Sort(Wanted(sql, database, fold, found)))
  {
    var wanted := Wanted(sql, database, fold, found);
    UnsortedEditable(lx, sql, database, fold, found);
    hide Editable, EditableSpan, SafeText, Sort, Wanted;
    forall i | 0 <= i < |Sort(wanted)|
      ensures EditableSpan(lx, sql, Sort(wanted)[i])
    {
      SortKeepsMembers(wanted, i);
    }
    SpansEditable(lx, sql, Sort(wanted));
  }

  /**
   Normalizing a dump whose quotes both scanners read alike: the literal check
   holds, masking the result rewrites the mask of the source, and the source
   can be recovered.
   */
  lemma NormalizationSound(lx: Lexer, sql: string, database: string, fold: string -> string, found: Found)
    requires NoLetterDigits(lx) && database in DATABASES
    requires found.Fits(|sql|) && FoundSeen(lx, sql, found) && DefinersStand(lx, sql, found.definers) && FoldsWords(fold, database)
    requires Disjoint(Wanted(sql, database, fold, found)) && QuotesAgree(lx, sql)
    ensures var spans := Sort(Wanted(sql, database, fold, found));
            && Ordered(spans, 0, |sql|)
            && Literals(Apply(sql, spans, 0)) == Literals(sql) == MaskedLiterals(lx, sql)
            && lx.Mask(Apply(sql, spans, 0)) == Apply(lx.Mask(sql), spans, 0)
            && Ordered(Inverse(sql, spans, 0, 0), 0, |Apply(sql, spans, 0)|)
            && Apply(Apply(sql, spans, 0), Inverse(sql, spans, 0, 0), 0) == sql
  {
    hide Lexer.Mask, SqlLiterals.Outside, Literals, Apply, Sort, Editable;
    var wanted := Wanted(sql, database, fold, found);
    var spans := Sort(wanted);
    SortedDisjointOrdered(wanted, |sql|);
    WantedEditable(lx, sql, database, fold, found);
    forall i | 0 <= i < |spans|
      ensures Outside(sql, spans[i].start, spans[i].end) && QuoteFree(spans[i].value)
    {
      EditableOutside(lx, sql, spans[i].start, spans[i].end);
    }
    LiteralsKept(sql, spans);
    ScannersAgree(lx, sql);
    MaskCommutes(lx, sql, spans);
    ApplyInvertible(sql, spans);
  }

  predicate DefinersOnLines(sql: string, definers: seq<Place>)
    requires forall i :: 0 <= i < |definers| ==> definers[i].0 < definers[i].1 <= |sql|
  {
    forall i :: 0 <= i < |definers| ==> NoBreak(sql, definers[i].0, definers[i].1)
  }

  /**
   The history check of a dump whose definer clauses stand on one line each: it
   passes exactly when the program changes no line that it digests.
   */
  lemma HistoryCheckExact(
    lx: Lexer, sql: string, database: string, fold: string -> string, found: Found, names: string -> bool
  )
    requires NoLetterDigits(lx) && database in DATABASES
    requires found.Fits(|sql|) && FoundSeen(lx, sql, found) && DefinersStand(lx, sql, found.definers) && FoldsWords(fold, database)
    requires Disjoint(Wanted(sql, database, fold, found)) && DefinersOnLines(sql, found.definers)
    ensures var spans := Sort(Wanted(sql, database, fold, found));
            && Ordered(spans, 0, |sql|) && OnLines(sql, spans)
            && (NamesStay(lx, sql, spans, names) ==>
                  (HistoryInput(lx, Apply(sql, spans, 0), names) == HistoryInput(lx, sql, names)
                   <==> DigestedStay(Lines(sql, 0), RewrittenLines(sql, spans, 0), Lines(lx.Mask(sql), 0), names)))
  {
    hide Lexer.Mask, Apply, Sort, Editable, Wanted, NamesStay, HistoryInput, DigestedStay, Lines, RewrittenLines;
    var wanted := Wanted(sql, database, fold, found);
    SortedDisjointOrdered(wanted, |sql|);
    WantedEditable(lx, sql, database, fold, found);
    WantedOnLines(sql, database, fold, found);
    SortKeepsLines(sql, wanted);
    if NamesStay(lx, sql, Sort(wanted), names) {
      HistoryStaysExactly(lx, sql, Sort(wanted), names);
    }
  }

  lemma SortKeepsLines(sql: string, spans: seq<Span>)
    requires OnLines(sql, spans)
    ensures OnLines(sql, Sort(spans))
  {
    hide Sort, OnOneLine;
    forall i | 0 <= i < |Sort(spans)| ensures OnOneLine(sql, Sort(spans)[i]) { SortKeepsMembers(spans, i); }
  }

  lemma WantedOnLines(sql: string, database: string, fold: string -> string, found: Found)
    requires database in DATABASES && found.Fits(|sql|) && FoldsWords(fold, database) && DefinersOnLines(sql, found.definers)
    ensures OnLines(sql, Wanted(sql, database, fold, found))
  {
    ProgramTextUnbroken(database);
    NameSpansOnLines(sql, database, fold, found.names);
    DefinerSpansOnLines(sql, found.definers);
    hide OnOneLine, NameSpans, DefinerSpans;
  }

  lemma ProgramTextUnbroken(database: string)
    requires database in DATABASES
    ensures database != [] && Unbroken(database) && Unbroken(DEFINER)
  {
  }

  lemma DefinerSpansOnLines(sql: string, definers: seq<Place>)
    requires forall i :: 0 <= i < |definers| ==> definers[i].0 < definers[i].1 <= |sql|
    requires DefinersOnLines(sql, definers) && Unbroken(DEFINER)
    ensures OnLines(sql, DefinerSpans(definers))
  {
  }

  lemma {:induction false} NameSpansOnLines(sql: string, database: string, fold: string -> string, names: seq<Place>)
    requires forall i :: 0 <= i < |names| ==> names[i].0 < names[i].1 <= |sql|
    requires database != [] && Unbroken(database) && FoldsWords(fold, database)
    ensures OnLines(sql, NameSpans(sql, database, fold, names))
  {
    if names != [] {
      NameSpansOnLines(sql, database, fold, names[1..]);
      if NameSpan(sql, database, fold, names[0]) != [] { SelectedName(sql, database, fold, names[0]); }
    }
  }

  lemma SortedDisjointOrdered(spans: seq<Span>, n: nat)
    requires Within(spans, n) && Disjoint(spans)
    ensures Ordered(Sort(spans), 0, n)
  {
    SortCorrect(spans);
    SortedWithin(spans, n);
    DisjointSort(spans);
    var sorted := Sort(spans);
    forall j | 1 <= j < |sorted|
      ensures sorted[j - 1].end <= sorted[j].start
    {
      assert Apart(sorted[j - 1], sorted[j]);
    }
    AdjacentOrdered(sorted, n);
  }
}
