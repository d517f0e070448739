/** When the masker and the digesting scanner read the same string literals. */
module SqlScanners {
  import opened Sequences
  import opened SqlLexer
  import opened SqlRewrite
  import opened SqlLiterals

  // The masker is in src/cmnd_linux/sql_audit.py, the digesting scanner in
  // src/cmnd_linux/restore_prepare.py.

  // ---- The condition ----

  /** The quoted region around position `i` is closed by its quote. */
  predicate QuoteClosed(s: string, i: nat, q: char)
    requires i <= |s|
    decreases |s| - i
  {
    if i == |s| then false
    else if s[i] == '\\' then i + 2 <= |s| && QuoteClosed(s, i + 2, q)
    else if s[i] == q then !(i + 1 < |s| && s[i + 1] == q) || QuoteClosed(s, i + 2, q)
    else QuoteClosed(s, i + 1, q)
  }

  /** Every quoted region of the text is closed within it. */
  predicate Settled(s: string) {
    s == [] ||
    if IsQuote(s[0]) then QuoteClosed(s, 1, s[0]) && Settled(s[QuotedEnd(s, 1, s[0], true)..])
    else Settled(s[1..])
  }

  /**
   Quotes of the first token occur only where the masker reads literals, and a
   literal inside an executable comment ends before the comment does.
   */
  predicate TokenQuotesAgree(lx: Lexer, s: string)
    requires s != []
  {
    match Kind(s)
    case Literal => true
    case Plain => true
    case Executable => QuoteFree(s[..lx.BodyStart(s)]) && (lx.BodyEnd(s) < |s| ==> Settled(lx.Body(s)))
    case _ => QuoteFree(s[..TokenLength(s)])
  }

  predicate QuotesAgree(lx: Lexer, s: string)
    decreases |s|
  {
    s == [] ||
    (&& TokenQuotesAgree(lx, s)
     && (Kind(s) == Executable ==> QuotesAgree(lx, lx.Body(s)))
     && QuotesAgree(lx, s[TokenLength(s)..]))
  }

  /** The literal tokens of the masker, in order. */
  function MaskedLiterals(lx: Lexer, s: string): seq<string>
    decreases |s|
  {
    if s == [] then []
    else
      (match Kind(s)
       case Literal => [s[..TokenLength(s)]]
       case Executable => MaskedLiterals(lx, lx.Body(s))
       case _ => []) + MaskedLiterals(lx, s[TokenLength(s)..])
  }

  lemma {:induction false} QuoteClosedStable(x: string, rest: string, i: nat, q: char)
    requires i <= |x| && QuoteClosed(x, i, q) && (rest == [] || rest[0] != q)
    ensures QuotedEnd(x + rest, i, q, true) == QuotedEnd(x, i, q, true)
    decreases |x| - i
  {
    var t := x + rest;
    assert t[i] == x[i];
    if x[i] == '\\' {
      QuoteClosedStable(x, rest, i + 2, q);
    } else if x[i] == q {
      if i + 1 < |x| {
        assert t[i + 1] == x[i + 1];
        if x[i + 1] == q { QuoteClosedStable(x, rest, i + 2, q); }
      } else if rest != [] {
        assert t[i + 1] == rest[0];
      }
    } else {
      QuoteClosedStable(x, rest, i + 1, q);
    }
  }

  lemma SettledFirst(x: string, rest: string)
    requires x != [] && IsQuote(x[0]) && Settled(x) && (rest == [] || !IsQuote(rest[0]))
    ensures var n := QuotedEnd(x, 1, x[0], true);
            && (x + rest)[0] == x[0]
            && QuotedEnd(x + rest, 1, x[0], true) == n
            && (x + rest)[n..] == x[n..] + rest && (x + rest)[..n] == x[..n]
  {
    QuoteClosedStable(x, rest, 1, x[0]);
  }

  lemma {:induction false} LiteralsSplit(x: string, rest: string)
    requires Settled(x) && (rest == [] || !IsQuote(rest[0]))
    ensures Literals(x + rest) == Literals(x) + Literals(rest)
    decreases |x|
  {
    if x == [] {
      assert x + rest == rest;
    } else if IsQuote(x[0]) {
      SettledFirst(x, rest);
      LiteralsSplit(x[QuotedEnd(x, 1, x[0], true)..], rest);
    } else {
      assert (x + rest)[0] == x[0] && (x + rest)[1..] == x[1..] + rest;
      LiteralsSplit(x[1..], rest);
    }
  }

  /** The parts of a closed executable comment. */
  lemma ExecutableParts(lx: Lexer, s: string)
    requires s != [] && Kind(s) == Executable
    ensures var n := TokenLength(s);
            && s == s[..lx.BodyStart(s)] + (lx.Body(s) + s[lx.BodyEnd(s)..])
            && s[lx.BodyEnd(s)..] == s[lx.BodyEnd(s)..n] + s[n..]
            && s == s[..lx.BodyStart(s)] + (lx.Body(s) + (s[lx.BodyEnd(s)..n] + s[n..]))
            && QuoteFree(s[lx.BodyEnd(s)..n])
            && (lx.BodyEnd(s) < |s| ==> s[lx.BodyEnd(s)..n] == "*/")
            && (lx.BodyEnd(s) == |s| ==> s[lx.BodyEnd(s)..n] == [] && s[n..] == [])
  {
    var lo, hi, n := lx.BodyStart(s), lx.BodyEnd(s), TokenLength(s);
    assert CloseEnd(s, hi) == n;
    FourParts(s, lo, hi, n);
  }

  lemma FourParts(s: string, lo: nat, hi: nat, n: nat)
    requires lo <= hi <= n <= |s|
    ensures s[hi..] == s[hi..n] + s[n..]
    ensures s == s[..lo] + (s[lo..hi] + s[hi..])
    ensures s == s[..lo] + (s[lo..hi] + (s[hi..n] + s[n..]))
  {
  }

  lemma LiteralsOfFrame(head: string, body: string, mark: string, rest: string)
    requires QuoteFree(head) && QuoteFree(mark)
    requires (Settled(body) && mark != []) || (mark == [] && rest == [])
    ensures Literals(head + (body + (mark + rest))) == Literals(body) + Literals(rest)
  {
    LiteralsSkip(head, body + (mark + rest));
    if mark == [] {
      assert body + (mark + rest) == body;
    } else {
      assert (mark + rest)[0] == mark[0];
      LiteralsSplit(body, mark + rest);
      LiteralsSkip(mark, rest);
    }
  }

  lemma LiteralsOfExecutable(lx: Lexer, s: string)
    requires s != [] && Kind(s) == Executable && QuoteFree(s[..lx.BodyStart(s)])
    requires lx.BodyEnd(s) < |s| ==> Settled(lx.Body(s))
    ensures Literals(s) == Literals(lx.Body(s)) + Literals(s[TokenLength(s)..])
  {
    var n := TokenLength(s);
    ExecutableParts(lx, s);
    LiteralsOfFrame(s[..lx.BodyStart(s)], lx.Body(s), s[lx.BodyEnd(s)..n], s[n..]);
  }

  lemma LiteralsOfFree(s: string, n: nat)
    requires n <= |s| && QuoteFree(s[..n])
    ensures Literals(s) == Literals(s[n..])
  {
    LiteralsSkip(s[..n], s[n..]);
    assert s[..n] + s[n..] == s;
  }

  lemma LiteralsStep(lx: Lexer, s: string)
    requires s != [] && TokenQuotesAgree(lx, s)
    ensures Kind(s) == Literal ==> Literals(s) == [s[..TokenLength(s)]] + Literals(s[TokenLength(s)..])
    ensures Kind(s) == Executable ==> Literals(s) == Literals(lx.Body(s)) + Literals(s[TokenLength(s)..])
    ensures Kind(s) != Literal && Kind(s) != Executable ==> Literals(s) == Literals(s[TokenLength(s)..])
  {
    if Kind(s) == Executable {
      LiteralsOfExecutable(lx, s);
    } else if Kind(s) != Literal && Kind(s) != Plain {
      LiteralsOfFree(s, TokenLength(s));
    }
  }

  /** Under the condition the digested literals are the literals that the masker blanks. */
  lemma {:induction false} AgreeIf(lx: Lexer, s: string)
    requires QuotesAgree(lx, s)
    ensures Literals(s) == MaskedLiterals(lx, s)
    decreases |s|
  {
    if s != [] {
      LiteralsStep(lx, s);
      AgreeIf(lx, s[TokenLength(s)..]);
      if Kind(s) == Executable { AgreeIf(lx, lx.Body(s)); }
    }
  }

  // ---- Counting quotes ----

  function QuoteCount(s: string): nat {
    if s == [] then 0 else (if IsQuote(s[0]) then 1 else 0) + QuoteCount(s[1..])
  }

  function QuotesIn(literals: seq<string>): nat {
    if literals == [] then 0 else QuoteCount(literals[0]) + QuotesIn(literals[1..])
  }

  lemma {:induction false} QuoteCountAppend(x: string, y: string)
    ensures QuoteCount(x + y) == QuoteCount(x) + QuoteCount(y)
  {
    if x == [] {
      assert x + y == y;
    } else {
      ConsAppend(x, y);
      QuoteCountAppend(x[1..], y);
    }
  }

  lemma {:induction false} QuotesInAppend(x: seq<string>, y: seq<string>)
    ensures QuotesIn(x + y) == QuotesIn(x) + QuotesIn(y)
  {
    if x == [] {
      assert x + y == y;
    } else {
      ConsAppend(x, y);
      QuotesInAppend(x[1..], y);
    }
  }

  lemma {:induction false} CountZero(s: string)
    ensures QuoteCount(s) == 0 <==> QuoteFree(s)
  {
    if s != [] {
      CountZero(s[1..]);
      assert QuoteFree(s) <==> !IsQuote(s[0]) && QuoteFree(s[1..]) by {
        assert forall i :: 1 <= i < |s| ==> s[i] == s[1..][i - 1];
      }
    }
  }

  lemma CountCut(s: string, n: nat)
    requires n <= |s|
    ensures QuoteCount(s) == QuoteCount(s[..n]) + QuoteCount(s[n..])
  {
    QuoteCountAppend(s[..n], s[n..]);
    assert s[..n] + s[n..] == s;
  }

  /** The digesting scanner misses no quote. */
  lemma {:induction false} LiteralsHoldQuotes(s: string)
    ensures QuotesIn(Literals(s)) == QuoteCount(s)
    decreases |s|
  {
    if s == [] {
    } else if IsQuote(s[0]) {
      var n := QuotedEnd(s, 1, s[0], true);
      LiteralsHoldQuotes(s[n..]);
      CountCut(s, n);
      QuotesInCons(s[..n], Literals(s[n..]));
    } else {
      LiteralsHoldQuotes(s[1..]);
    }
  }

  lemma QuotesInCons(first: string, rest: seq<string>)
    ensures QuotesIn([first] + rest) == QuoteCount(first) + QuotesIn(rest)
  {
    assert ([first] + rest)[1..] == rest;
  }

  /** The quotes of an executable comment by its parts. */
  lemma CountExecutable(lx: Lexer, s: string)
    requires s != [] && Kind(s) == Executable
    ensures QuoteCount(s) == QuoteCount(s[..lx.BodyStart(s)]) + QuoteCount(lx.Body(s)) + QuoteCount(s[TokenLength(s)..])
  {
    var lo, hi, n := lx.BodyStart(s), lx.BodyEnd(s), TokenLength(s);
    ExecutableParts(lx, s);
    QuoteCountAppend(s[..lo], lx.Body(s) + s[hi..]);
    QuoteCountAppend(lx.Body(s), s[hi..]);
    QuoteCountAppend(s[hi..n], s[n..]);
    CountZero(s[hi..n]);
  }

  /** The literals of the first token. */
  function FirstLiterals(lx: Lexer, s: string): seq<string>
    requires s != []
  {
    match Kind(s)
    case Literal => [s[..TokenLength(s)]]
    case Executable => MaskedLiterals(lx, lx.Body(s))
    case _ => []
  }

  lemma MaskedStep(lx: Lexer, s: string)
    requires s != []
    ensures MaskedLiterals(lx, s) == FirstLiterals(lx, s) + MaskedLiterals(lx, s[TokenLength(s)..])
    ensures QuotesIn(MaskedLiterals(lx, s)) == QuotesIn(FirstLiterals(lx, s)) + QuotesIn(MaskedLiterals(lx, s[TokenLength(s)..]))
  {
    QuotesInAppend(FirstLiterals(lx, s), MaskedLiterals(lx, s[TokenLength(s)..]));
  }

  /** The masker's literals hold some of the quotes. */
  lemma {:induction false} MaskedHoldFewer(lx: Lexer, s: string)
    ensures QuotesIn(MaskedLiterals(lx, s)) <= QuoteCount(s)
    decreases |s|
  {
    if s != [] {
      var n := TokenLength(s);
      MaskedStep(lx, s);
      MaskedHoldFewer(lx, s[n..]);
      if Kind(s) == Executable {
        MaskedHoldFewer(lx, lx.Body(s));
        CountExecutable(lx, s);
      } else {
        CountCut(s, n);
        QuotesInCons(s[..n], []);
      }
    }
  }

  /** All quotes are in literals of the masker. */
  predicate Full(lx: Lexer, s: string) {
    QuotesIn(MaskedLiterals(lx, s)) == QuoteCount(s)
  }

  lemma FullToken(lx: Lexer, s: string)
    requires s != [] && Full(lx, s)
    ensures Full(lx, s[TokenLength(s)..])
    ensures Kind(s) == Executable ==> Full(lx, lx.Body(s)) && QuoteFree(s[..lx.BodyStart(s)])
    ensures Kind(s) != Executable && Kind(s) != Literal ==> QuoteFree(s[..TokenLength(s)])
  {
    var n := TokenLength(s);
    MaskedStep(lx, s);
    MaskedHoldFewer(lx, s[n..]);
    if Kind(s) == Executable {
      MaskedHoldFewer(lx, lx.Body(s));
      CountExecutable(lx, s);
      CountZero(s[..lx.BodyStart(s)]);
    } else {
      CountCut(s, n);
      CountZero(s[..n]);
      QuotesInCons(s[..n], []);
    }
  }

  // ---- Where the masker's literals stand ----

  /** The position of the first quote, or the end. */
  function FirstQuote(s: string): (g: nat)
    ensures g <= |s| && (g < |s| ==> IsQuote(s[g]))
  {
    if s == [] || IsQuote(s[0]) then 0 else 1 + FirstQuote(s[1..])
  }

  /** The literals stand in the text in order, with nothing quoted between and after them. */
  predicate Placed(s: string, literals: seq<string>)
    decreases |literals|
  {
    if literals == [] then QuoteFree(s)
    else
      var g, n := FirstQuote(s), |literals[0]|;
      g < |s| && g + n <= |s| && s[g..g + n] == literals[0] && Placed(s[g + n..], literals[1..])
  }

  lemma {:induction false} FirstQuoteSkip(x: string, s: string)
    requires QuoteFree(x)
    ensures FirstQuote(x + s) == |x| + FirstQuote(s)
  {
    if x == [] {
      assert x + s == s;
    } else {
      ConsAppend(x, s);
      FirstQuoteSkip(x[1..], s);
    }
  }

  lemma {:induction false} FirstQuoteStays(s: string, y: string)
    requires FirstQuote(s) < |s|
    ensures FirstQuote(s + y) == FirstQuote(s) && QuoteFree(s[..FirstQuote(s)])
  {
    assert (s + y)[0] == s[0];
    if !IsQuote(s[0]) {
      ConsAppend(s, y);
      FirstQuoteStays(s[1..], y);
      assert forall i :: 1 <= i < FirstQuote(s) ==> s[i] == s[1..][i - 1];
    }
  }

  lemma PlacedSkip(x: string, s: string, literals: seq<string>)
    requires QuoteFree(x) && Placed(s, literals)
    ensures Placed(x + s, literals)
  {
    if literals != [] {
      var g, n := FirstQuote(s), |literals[0]|;
      FirstQuoteSkip(x, s);
      assert (x + s)[|x| + g..|x| + g + n] == s[g..g + n];
      assert (x + s)[|x| + g + n..] == s[g + n..];
    }
  }

  lemma PlacedCons(x: string, k: nat, y: string, all: seq<string>)
    requires all != [] && FirstQuote(x) < |x| && k == FirstQuote(x) + |all[0]| <= |x|
    requires x[FirstQuote(x)..k] == all[0]
    requires Placed(x[k..] + y, all[1..])
    ensures Placed(x + y, all)
  {
    FirstQuoteStays(x, y);
    assert (x + y)[FirstQuote(x)..k] == x[FirstQuote(x)..k];
    assert (x + y)[k..] == x[k..] + y;
  }

  lemma PlacedParts(x: string, a: seq<string>) returns (k: nat)
    requires a != [] && Placed(x, a)
    ensures FirstQuote(x) < |x| && k == FirstQuote(x) + |a[0]| <= |x|
    ensures x[FirstQuote(x)..k] == a[0] && Placed(x[k..], a[1..])
  {
    k := FirstQuote(x) + |a[0]|;
  }

  lemma {:induction false} PlacedJoin(x: string, a: seq<string>, y: string, b: seq<string>)
    requires Placed(x, a) && Placed(y, b)
    ensures Placed(x + y, a + b)
    decreases |a|
  {
    if a == [] {
      assert a + b == b;
      PlacedSkip(x, y, b);
    } else {
      var k := PlacedParts(x, a);
      PlacedJoin(x[k..], a[1..], y, b);
      ConsAppend(a, b);
      PlacedCons(x, k, y, a + b);
    }
  }

  lemma PlacedFrame(head: string, body: string, mark: string, literals: seq<string>)
    requires QuoteFree(head) && QuoteFree(mark) && Placed(body, literals)
    ensures Placed(head + body + mark, literals)
  {
    PlacedSkip(head, body, literals);
    PlacedJoin(head + body, literals, mark, []);
    assert literals + [] == literals;
  }

  lemma PlacedExecutable(lx: Lexer, s: string)
    requires s != [] && Kind(s) == Executable && QuoteFree(s[..lx.BodyStart(s)])
    requires Placed(lx.Body(s), MaskedLiterals(lx, lx.Body(s)))
    ensures Placed(s[..TokenLength(s)], MaskedLiterals(lx, lx.Body(s)))
  {
    hide MaskedLiterals, TokenLength, Placed;
    var lo, hi, n := lx.BodyStart(s), lx.BodyEnd(s), TokenLength(s);
    ExecutableParts(lx, s);
    PlacedFrame(s[..lo], lx.Body(s), s[hi..n], MaskedLiterals(lx, lx.Body(s)));
    assert s[..n] == s[..lo] + lx.Body(s) + s[hi..n];
  }

  lemma PlacedFirst(lx: Lexer, s: string)
    requires s != [] && Full(lx, s)
    requires Kind(s) == Executable ==> Placed(lx.Body(s), MaskedLiterals(lx, lx.Body(s)))
    ensures Placed(s[..TokenLength(s)], FirstLiterals(lx, s))
  {
    var n := TokenLength(s);
    FullToken(lx, s);
    if Kind(s) == Executable {
      PlacedExecutable(lx, s);
    } else if Kind(s) == Literal {
      assert FirstQuote(s[..n]) == 0;
      assert s[..n][0..n] == s[..n] && s[..n][n..] == [];
    }
  }

  lemma FullPlacedStep(lx: Lexer, s: string)
    requires s != [] && Placed(s[..TokenLength(s)], FirstLiterals(lx, s))
    requires Placed(s[TokenLength(s)..], MaskedLiterals(lx, s[TokenLength(s)..]))
    ensures Placed(s, MaskedLiterals(lx, s))
  {
    var n := TokenLength(s);
    PlacedJoin(s[..n], FirstLiterals(lx, s), s[n..], MaskedLiterals(lx, s[n..]));
    assert s[..n] + s[n..] == s;
    MaskedStep(lx, s);
  }

  lemma {:induction false} FullPlaced(lx: Lexer, s: string)
    requires Full(lx, s)
    ensures Placed(s, MaskedLiterals(lx, s))
    decreases |s|
  {
    if s != [] {
      FullToken(lx, s);
      if Kind(s) == Executable { FullPlaced(lx, lx.Body(s)); }
      PlacedFirst(lx, s);
      FullPlaced(lx, s[TokenLength(s)..]);
      FullPlacedStep(lx, s);
    }
  }

  // ---- The condition is necessary ----

  /** A quoted region of a longer text that ends inside `x` is closed there. */
  lemma {:induction false} ClosedInside(x: string, rest: string, i: nat, q: char)
    requires i <= |x| && rest != [] && QuotedEnd(x + rest, i, q, true) <= |x|
    ensures QuoteClosed(x, i, q) && QuotedEnd(x, i, q, true) == QuotedEnd(x + rest, i, q, true)
    decreases |x| - i
  {
    var t := x + rest;
    if i < |x| {
      assert t[i] == x[i];
      if x[i] == '\\' {
        ClosedInside(x, rest, i + 2, q);
      } else if x[i] == q {
        if i + 1 < |x| {
          assert t[i + 1] == x[i + 1];
          if x[i + 1] == q { ClosedInside(x, rest, i + 2, q); }
        }
      } else {
        ClosedInside(x, rest, i + 1, q);
      }
    }
  }

  lemma {:induction false} SettledFree(s: string)
    requires QuoteFree(s)
    ensures Settled(s)
  {
    if s != [] { SettledFree(s[1..]); }
  }

  lemma {:induction false} SettledSkip(x: string, s: string)
    requires QuoteFree(x) && Settled(s)
    ensures Settled(x + s)
  {
    if x == [] {
      assert x + s == s;
    } else {
      ConsAppend(x, s);
      SettledSkip(x[1..], s);
    }
  }

  lemma LiteralsFrom(s: string, g: nat)
    requires g == FirstQuote(s) < |s|
    ensures QuoteFree(s[..g]) && Literals(s) == Literals(s[g..])
  {
    FirstQuoteStays(s, []);
    LiteralsSkip(s[..g], s[g..]);
    assert s[..g] + s[g..] == s;
  }

  lemma LiteralsHead(y: string, literal: string, later: seq<string>)
    requires y != [] && IsQuote(y[0]) && Literals(y) == [literal] + later
    ensures |literal| == QuotedEnd(y, 1, y[0], true) && Literals(y[|literal|..]) == later
  {
    var n := QuotedEnd(y, 1, y[0], true);
    var all := Literals(y);
    assert all == [y[..n]] + Literals(y[n..]);
    assert all[0] == literal && all[1..] == later;
  }

  /** A literal at the start that is read in the longer text and has room in `y`. */
  lemma HeadClosed(y: string, rest: string, literal: string, later: seq<string>)
    requires y != [] && IsQuote(y[0]) && rest != [] && |literal| <= |y|
    requires Literals(y + rest) == [literal] + later
    ensures Literals(y[|literal|..] + rest) == later
    ensures Settled(y[|literal|..]) ==> Settled(y)
  {
    assert (y + rest)[0] == y[0];
    LiteralsHead(y + rest, literal, later);
    ClosedInside(y, rest, 1, y[0]);
    assert (y + rest)[|literal|..] == y[|literal|..] + rest;
  }

  /** One literal that is read in the longer text and has room in `x`. */
  lemma SettledStep(x: string, rest: string, literal: string, later: seq<string>)
    requires rest != [] && FirstQuote(x) + |literal| <= |x| && FirstQuote(x) < |x|
    requires Literals(x + rest) == [literal] + later
    ensures var k := FirstQuote(x) + |literal|;
            && Literals(x[k..] + rest) == later
            && (Settled(x[k..]) ==> Settled(x))
  {
    hide Literals, Settled, FirstQuote, QuotedEnd;
    var g := FirstQuote(x);
    var y := x[g..];
    FirstQuoteStays(x, rest);
    LiteralsFrom(x + rest, g);
    assert (x + rest)[g..] == y + rest;
    HeadClosed(y, rest, literal, later);
    assert y[|literal|..] == x[g + |literal|..];
    if Settled(y) {
      SettledSkip(x[..g], y);
      assert x[..g] + y == x;
    }
  }

  /** Literals that have room in `x` and are read in a longer text are closed in `x`. */
  lemma {:induction false} SettledByRoom(x: string, rest: string, literals: seq<string>, later: seq<string>)
    requires rest != [] && Placed(x, literals) && Literals(x + rest) == literals + later
    ensures Settled(x)
    decreases |literals|
  {
    if literals == [] {
      SettledFree(x);
    } else {
      var k := FirstQuote(x) + |literals[0]|;
      Associative([literals[0]], literals[1..], later);
      assert [literals[0]] + literals[1..] == literals;
      SettledStep(x, rest, literals[0], literals[1..] + later);
      SettledByRoom(x[k..], rest, literals[1..], later);
    }
  }

  predicate AllQuoted(literals: seq<string>) {
    forall i :: 0 <= i < |literals| ==> QuoteCount(literals[i]) >= 1
  }

  lemma {:induction false} LiteralsQuoted(s: string)
    ensures AllQuoted(Literals(s))
    decreases |s|
  {
    if s == [] {
    } else if IsQuote(s[0]) {
      LiteralsQuoted(s[QuotedEnd(s, 1, s[0], true)..]);
    } else {
      LiteralsQuoted(s[1..]);
    }
  }

  lemma {:induction false} MaskedQuoted(lx: Lexer, s: string)
    ensures AllQuoted(MaskedLiterals(lx, s))
    decreases |s|
  {
    if s != [] {
      MaskedQuoted(lx, s[TokenLength(s)..]);
      if Kind(s) == Executable { MaskedQuoted(lx, lx.Body(s)); }
    }
  }

  /** Equal lists whose first parts hold as many quotes have equal parts. */
  lemma {:induction false} SplitByQuotes(a: seq<string>, b: seq<string>, c: seq<string>, d: seq<string>)
    requires a + b == c + d && QuotesIn(a) == QuotesIn(c) && AllQuoted(a) && AllQuoted(c)
    ensures a == c && b == d
    decreases |a|
  {
    if a == [] || c == [] {
      assert a == [] && c == [];
      assert a + b == b && c + d == d;
    } else {
      ConsAppend(a, b);
      ConsAppend(c, d);
      SplitByQuotes(a[1..], b, c[1..], d);
      assert a == [a[0]] + a[1..] && c == [c[0]] + c[1..];
    }
  }

  /** Equal lists make every token's quotes agree, and split at the first token. */
  lemma AgreeToken(lx: Lexer, s: string)
    requires s != [] && Literals(s) == MaskedLiterals(lx, s)
    ensures TokenQuotesAgree(lx, s)
    ensures Literals(s[TokenLength(s)..]) == MaskedLiterals(lx, s[TokenLength(s)..])
    ensures Kind(s) == Executable ==> Literals(lx.Body(s)) == MaskedLiterals(lx, lx.Body(s))
  {
    var n := TokenLength(s);
    LiteralsHoldQuotes(s);
    FullToken(lx, s);
    MaskedStep(lx, s);
    if Kind(s) == Executable {
      AgreeExecutable(lx, s);
    } else {
      LiteralsStep(lx, s);
    }
  }

  lemma AgreeExecutable(lx: Lexer, s: string)
    requires s != [] && Kind(s) == Executable && Full(lx, lx.Body(s)) && QuoteFree(s[..lx.BodyStart(s)])
    requires Literals(s) == MaskedLiterals(lx, lx.Body(s)) + MaskedLiterals(lx, s[TokenLength(s)..])
    ensures TokenQuotesAgree(lx, s)
    ensures Literals(s[TokenLength(s)..]) == MaskedLiterals(lx, s[TokenLength(s)..])
    ensures Literals(lx.Body(s)) == MaskedLiterals(lx, lx.Body(s))
  {
    var lo, hi, n := lx.BodyStart(s), lx.BodyEnd(s), TokenLength(s);
    var body := lx.Body(s);
    if hi < |s| {
      ExecutableParts(lx, s);
      LiteralsSkip(s[..lo], body + s[hi..]);
      FullPlaced(lx, body);
      SettledByRoom(body, s[hi..], MaskedLiterals(lx, body), MaskedLiterals(lx, s[n..]));
    }
    LiteralsOfExecutable(lx, s);
    LiteralsHoldQuotes(body);
    LiteralsQuoted(body);
    MaskedQuoted(lx, body);
    SplitByQuotes(Literals(body), Literals(s[n..]), MaskedLiterals(lx, body), MaskedLiterals(lx, s[n..]));
  }

  lemma {:induction false} AgreeOnlyIf(lx: Lexer, s: string)
    requires Literals(s) == MaskedLiterals(lx, s)
    ensures QuotesAgree(lx, s)
    decreases |s|
  {
    if s != [] {
      AgreeToken(lx, s);
      AgreeOnlyIf(lx, s[TokenLength(s)..]);
      if Kind(s) == Executable { AgreeOnlyIf(lx, lx.Body(s)); }
    }
  }

  /**
   The two scanners read the same literals exactly when quotes occur only in
   the masker's literals, and every literal in a closed executable comment
   ends before the comment does.
   */
  lemma ScannersAgree(lx: Lexer, s: string)
    ensures Literals(s) == MaskedLiterals(lx, s) <==> QuotesAgree(lx, s)
  {
    if QuotesAgree(lx, s) { AgreeIf(lx, s); }
    if Literals(s) == MaskedLiterals(lx, s) { AgreeOnlyIf(lx, s); }
  }

  /** A quote in a comment: the digesting scanner reads a literal, the masker none. */
  lemma QuoteInComment(lx: Lexer)
    ensures var s := ['/', '*', '\'', '*', '/'];
            Literals(s) == [s[2..]] && MaskedLiterals(lx, s) == [] && !QuotesAgree(lx, s)
  {
    var s := ['/', '*', '\'', '*', '/'];
    assert s[1..][1..] == s[2..];
    assert QuotedEnd(s[2..], 1, '\'', true) == 3;
    assert s[2..][3..] == [];
    assert Literals(s[2..]) == [s[2..][..3]] + [];
    assert s[2..][..3] == s[2..];
    assert Literals(s[1..]) == Literals(s[2..]);
    ExampleToken(s);
    assert s[5..] == [];
    ScannersAgree(lx, s);
  }

  lemma ExampleToken(s: string)
    requires s == ['/', '*', '\'', '*', '/']
    ensures Kind(s) == Comment && TokenLength(s) == 5
  {
    assert CloseAt(s, 3);
    FindCloseUnique(s, 2, 3);
  }
}
