/** Why masking rewritten SQL is the same as rewriting the masked SQL. */
module SqlRewrite {
  import opened Text
  import opened SqlLexer
  import opened SqlSpans

  // The spans found in the masked text (src/cmnd_linux/restore_prepare.py) are
  // replaced in the original, and the masker (src/cmnd_linux/sql_audit.py) is
  // run again.

  // ---- Where a replacement is lexically harmless ----

  /** Whole tokens from the start of `s` to exactly `b`, none a literal or an executable comment. */
  predicate Run(s: string, b: nat)
    requires b <= |s|
    decreases |s|
  {
    b == 0 ||
    (Kind(s) in RUNNING && TokenLength(s) <= b && Run(s[TokenLength(s)..], b - TokenLength(s)))
  }

  const RUNNING := {Plain, Identifier, Comment, LineComment}

  predicate IsRun(s: string, a: nat, b: nat)
    requires a < b <= |s|
  {
    a == 0 && Run(s, b)
  }

  predicate InIdentifier(s: string, a: nat, b: nat)
    requires a < b <= |s|
  {
    Kind(s) == Identifier && 1 <= a && b <= TokenLength(s) && '`' !in s[a..b]
  }

  predicate InBody(lx: Lexer, s: string, a: nat, b: nat)
    requires a < b <= |s|
  {
    Kind(s) == Executable && lx.BodyStart(s) <= a && b <= lx.BodyEnd(s)
  }

  /**
   The span is a run of whole tokens, which may hide comments but neither
   literals nor executable comments, or it lies strictly inside one backtick
   identifier and holds no backtick; in either case possibly inside nested
   executable comments.
   */
  predicate WholeTokens(lx: Lexer, s: string, a: nat, b: nat)
    requires a < b <= |s|
    decreases |s|
  {
    var n := TokenLength(s);
    if a >= n then WholeTokens(lx, s[n..], a - n, b - n)
    else
      || IsRun(s, a, b)
      || InIdentifier(s, a, b)
      || (InBody(lx, s, a, b) && WholeTokens(lx, lx.Body(s), a - lx.BodyStart(s), b - lx.BodyStart(s)))
  }

  /** The span begins with the line feed that ends a line comment. */
  predicate EndsLineComment(lx: Lexer, s: string, a: nat, b: nat)
    requires a < b <= |s|
    decreases |s|
  {
    var n := TokenLength(s);
    if a >= n then (a == n && Kind(s) == LineComment) || EndsLineComment(lx, s[n..], a - n, b - n)
    else InBody(lx, s, a, b) && EndsLineComment(lx, lx.Body(s), a - lx.BodyStart(s), b - lx.BodyStart(s))
  }

  /** Whole tokens, or part of an identifier, that do not end a line comment. */
  predicate Editable(lx: Lexer, s: string, a: nat, b: nat)
    requires a < b <= |s|
    decreases |s|
  {
    var n := TokenLength(s);
    if a >= n then (a == n ==> Kind(s) != LineComment) && Editable(lx, s[n..], a - n, b - n)
    else
      || IsRun(s, a, b)
      || InIdentifier(s, a, b)
      || (InBody(lx, s, a, b) && Editable(lx, lx.Body(s), a - lx.BodyStart(s), b - lx.BodyStart(s)))
  }

  lemma {:induction false} EditableIs(lx: Lexer, s: string, a: nat, b: nat)
    requires a < b <= |s|
    ensures Editable(lx, s, a, b) <==> WholeTokens(lx, s, a, b) && !EndsLineComment(lx, s, a, b)
    decreases |s|
  {
    hide Kind, TokenLength, Run;
    var n := TokenLength(s);
    if a >= n {
      EditableIs(lx, s[n..], a - n, b - n);
    } else if InBody(lx, s, a, b) {
      EditableIs(lx, lx.Body(s), a - lx.BodyStart(s), b - lx.BodyStart(s));
    }
  }

  /** A span that does not begin with a line feed, such as a name, ends no line comment. */
  lemma {:induction false} NamesEndNoComment(lx: Lexer, s: string, a: nat, b: nat)
    requires a < b <= |s| && s[a] != '\n'
    ensures !EndsLineComment(lx, s, a, b)
    decreases |s|
  {
    var n := TokenLength(s);
    if a >= n {
      NamesEndNoComment(lx, s[n..], a - n, b - n);
    } else if InBody(lx, s, a, b) {
      NamesEndNoComment(lx, lx.Body(s), a - lx.BodyStart(s), b - lx.BodyStart(s));
    }
  }

  predicate SafeChar(c: char) {
    c !in {'\'', '"', '`', '#', '-', '/', '*'}
  }

  /** New text: not empty, no quote or comment character, not beginning with a digit or white space. */
  predicate SafeText(lx: Lexer, v: string) {
    v != [] && v[0] !in lx.digits && !IsSpace(v[0]) && forall i :: 0 <= i < |v| ==> SafeChar(v[i])
  }

  // ---- Tokens that a later replacement does not disturb ----

  lemma {:induction false} QuotedEndStable(s: string, t: string, i: nat, q: char, escapes: bool)
    requires i <= |s|
    requires QuotedEnd(s, i, q, escapes) < |s| && QuotedEnd(s, i, q, escapes) < |t|
    requires forall k :: 0 <= k < QuotedEnd(s, i, q, escapes) ==> s[k] == t[k]
    requires t[QuotedEnd(s, i, q, escapes)] != q
    ensures QuotedEnd(t, i, q, escapes) == QuotedEnd(s, i, q, escapes)
    decreases |s| - i
  {
    if escapes && s[i] == '\\' {
      if i + 2 <= |s| { QuotedEndStable(s, t, i + 2, q, escapes); }
    } else if s[i] == q {
      if i + 1 < |s| && s[i + 1] == q { QuotedEndStable(s, t, i + 2, q, escapes); }
    } else {
      QuotedEndStable(s, t, i + 1, q, escapes);
    }
  }

  lemma {:induction false} QuotedEndStops(s: string, i: nat, q: char, escapes: bool)
    requires i <= |s|
    ensures QuotedEnd(s, i, q, escapes) < |s| ==> s[QuotedEnd(s, i, q, escapes)] != q
    decreases |s| - i
  {
    if i == |s| {
    } else if escapes && s[i] == '\\' {
      if i + 2 <= |s| { QuotedEndStops(s, i + 2, q, escapes); }
    } else if s[i] == q {
      if i + 1 < |s| && s[i + 1] == q { QuotedEndStops(s, i + 2, q, escapes); }
    } else {
      QuotedEndStops(s, i + 1, q, escapes);
    }
  }

  lemma {:induction false} FindCloseUnique(s: string, i: nat, e: nat)
    requires i <= e <= |s|
    requires e < |s| ==> CloseAt(s, e)
    requires forall k :: i <= k < e ==> !CloseAt(s, k)
    ensures FindClose(s, i) == e
    decreases e - i
  {
    if i < e { FindCloseUnique(s, i + 1, e); }
  }

  lemma FindCloseStable(s: string, t: string, i: nat, n: nat)
    requires i <= |s| && FindClose(s, i) + 2 == n && n <= |s| && n <= |t|
    requires forall k :: 0 <= k < n ==> s[k] == t[k]
    ensures FindClose(t, i) == FindClose(s, i)
  {
    forall k | i <= k < n - 2
      ensures !CloseAt(t, k)
    {
      assert !CloseAt(s, k);
    }
    FindCloseUnique(t, i, n - 2);
  }

  lemma {:induction false} FindNewlineUnique(s: string, i: nat, e: nat)
    requires i <= e <= |s|
    requires e < |s| ==> s[e] == '\n'
    requires forall k :: i <= k < e ==> s[k] != '\n'
    ensures FindNewline(s, i) == e
    decreases e - i
  {
    if i < e { FindNewlineUnique(s, i + 1, e); }
  }

  lemma {:induction false} SkipDigitsStable(lx: Lexer, s: string, t: string, i: nat, close: nat, close': nat)
    requires i <= close <= |s| && i <= close' <= |t|
    requires lx.SkipDigits(s, i, close) <= close'
    requires forall k :: i <= k < lx.SkipDigits(s, i, close) ==> s[k] == t[k]
    requires lx.SkipDigits(s, i, close) < close' ==> t[lx.SkipDigits(s, i, close)] !in lx.digits
    ensures lx.SkipDigits(t, i, close') == lx.SkipDigits(s, i, close)
    decreases close - i
  {
    if i < close && s[i] in lx.digits { SkipDigitsStable(lx, s, t, i + 1, close, close'); }
  }

  lemma {:induction false} SkipDigitsStops(lx: Lexer, s: string, i: nat, close: nat)
    requires i <= close <= |s|
    ensures lx.SkipDigits(s, i, close) < close ==> s[lx.SkipDigits(s, i, close)] !in lx.digits
    decreases close - i
  {
    if i < close && s[i] in lx.digits { SkipDigitsStops(lx, s, i + 1, close); }
  }

  /**
   `t` agrees with `s` before `a` and has harmless text at `a`; the first token
   of `s` ends at or before `a`.
   */
  predicate SameBefore(s: string, t: string, a: nat)
  {
    && s != [] && TokenLength(s) <= a < |s| && a < |t|
    && (forall k :: 0 <= k < a ==> s[k] == t[k])
    && SafeChar(t[a]) && !IsSpace(t[a])
    && (a == TokenLength(s) ==> Kind(s) != LineComment)
  }

  lemma KindStable(s: string, t: string, a: nat)
    requires SameBefore(s, t, a)
    ensures Kind(t) == Kind(s)
  {
  }

  lemma LengthStable(s: string, t: string, a: nat)
    requires SameBefore(s, t, a)
    ensures TokenLength(t) == TokenLength(s)
  {
    KindStable(s, t, a);
    var n := TokenLength(s);
    match Kind(s)
    case Literal => QuotedEndStops(s, 1, s[0], true); QuotedEndStable(s, t, 1, s[0], true);
    case Identifier => QuotedEndStops(s, 1, '`', false); QuotedEndStable(s, t, 1, '`', false);
    case Executable => FindCloseStable(s, t, 3, n);
    case Comment => FindCloseStable(s, t, 2, n);
    case LineComment => FindNewlineUnique(t, 1, n);
    case Plain =>
  }

  lemma TokenStable(lx: Lexer, s: string, t: string, a: nat)
    requires SameBefore(s, t, a)
    ensures Kind(t) == Kind(s) && TokenLength(t) == TokenLength(s)
    ensures t[..TokenLength(s)] == s[..TokenLength(s)]
    ensures Kind(s) == Executable ==> lx.BodyStart(t) == lx.BodyStart(s) && lx.BodyEnd(t) == lx.BodyEnd(s)
    ensures Kind(s) == Executable ==> lx.Body(t) == lx.Body(s)
    ensures lx.MaskFirst(t) == lx.MaskFirst(s)
  {
    KindStable(s, t, a);
    LengthStable(s, t, a);
    var n := TokenLength(s);
    if Kind(s) == Executable {
      var close := FindClose(s, 3);
      FindCloseStable(s, t, 3, n);
      SkipDigitsStops(lx, s, 3, close);
      SkipDigitsStable(lx, s, t, 3, close, close);
      assert t[lx.BodyStart(s)..close] == s[lx.BodyStart(s)..close];
      assert t[close..n] == s[close..n];
      assert t[..lx.BodyStart(s)] == s[..lx.BodyStart(s)];
    }
  }

  // ---- Tokens that hold the replacement ----

  lemma {:induction false} QuotedEndShift(s: string, i: nat, a: nat, b: nat, v: string)
    requires 1 <= i <= a < b <= |s| && b <= QuotedEnd(s, i, '`', false)
    requires '`' !in s[a..b]
    requires v != [] && '`' !in v
    ensures QuotedEnd(Splice(s, a, b, v), i, '`', false) == QuotedEnd(s, i, '`', false) + |v| - (b - a)
    decreases |s| - i
  {
    var t := Splice(s, a, b, v);
    if i == a {
      QuotedEndSkip(s, i, b);
      QuotedEndSkip(t, i, a + |v|);
      assert t[a + |v|..] == s[b..];
      QuotedEndSuffix(s, b);
      QuotedEndSuffix(t, a + |v|);
    } else if s[i] == '`' {
      assert s[a] in s[a..b];
      assert v[0] in v;
      assert i + 1 < |s| && s[i + 1] == '`';
      QuotedEndShift(s, i + 2, a, b, v);
    } else {
      QuotedEndShift(s, i + 1, a, b, v);
    }
  }

  /** Scanning past text without backticks. */
  lemma {:induction false} QuotedEndSkip(s: string, i: nat, j: nat)
    requires i <= j <= |s| && '`' !in s[i..j]
    ensures QuotedEnd(s, i, '`', false) == QuotedEnd(s, j, '`', false)
    decreases j - i
  {
    if i < j {
      assert s[i] in s[i..j];
      assert s[i + 1..j] == s[i..j][1..];
      QuotedEndSkip(s, i + 1, j);
    }
  }

  /** Scanning depends only on the text that remains. */
  lemma {:induction false} QuotedEndSuffix(s: string, i: nat)
    requires i <= |s|
    ensures QuotedEnd(s, i, '`', false) == i + QuotedEnd(s[i..], 0, '`', false)
    decreases |s| - i
  {
    QuotedEndDrop(s, i, i);
  }

  lemma {:induction false} QuotedEndDrop(s: string, k: nat, i: nat)
    requires k <= i <= |s|
    ensures QuotedEnd(s, i, '`', false) == k + QuotedEnd(s[k..], i - k, '`', false)
    decreases |s| - i
  {
    if i < |s| {
      if s[i] == '`' {
        if i + 1 < |s| && s[i + 1] == '`' { QuotedEndDrop(s, k, i + 2); }
      } else {
        QuotedEndDrop(s, k, i + 1);
      }
    }
  }

  lemma IdentifierHolds(lx: Lexer, s: string, a: nat, b: nat, v: string)
    requires s != [] && Kind(s) == Identifier && 1 <= a < b <= TokenLength(s)
    requires '`' !in s[a..b] && SafeText(lx, v)
    ensures var t := Splice(s, a, b, v);
            && Kind(t) == Identifier && TokenLength(t) == TokenLength(s) + |v| - (b - a)
            && lx.MaskFirst(t) == Splice(lx.MaskFirst(s), a, b, v)
  {
    QuotedEndShift(s, 1, a, b, v);
    SpliceSlice(s, 0, TokenLength(s), a, b, v);
  }

  lemma CloseShift(s: string, i: nat, a: nat, b: nat, v: string)
    requires i <= a < b <= |s| && b <= FindClose(s, i)
    requires v != [] && forall k :: 0 <= k < |v| ==> SafeChar(v[k])
    ensures FindClose(Splice(s, a, b, v), i) == FindClose(s, i) + |v| - (b - a)
  {
    var t := Splice(s, a, b, v);
    var d := |v| - (b - a);
    var close := FindClose(s, i);
    forall k | i <= k < close + d
      ensures !CloseAt(t, k)
    {
      if k < a {
        assert !CloseAt(s, k);
        assert k + 1 == a ==> t[a + 0] == v[0];
      } else if k < a + |v| {
        assert t[a + (k - a)] == v[k - a];
      } else {
        assert !CloseAt(s, k - d);
      }
    }
    FindCloseUnique(t, i, close + d);
  }

  lemma ExecutableHolds(lx: Lexer, s: string, a: nat, b: nat, v: string)
    requires s != [] && Kind(s) == Executable
    requires lx.BodyStart(s) <= a < b <= lx.BodyEnd(s) && SafeText(lx, v)
    ensures var t := Splice(s, a, b, v);
            && Kind(t) == Executable && TokenLength(t) == TokenLength(s) + |v| - (b - a)
            && lx.BodyStart(t) == lx.BodyStart(s) && lx.BodyEnd(t) == lx.BodyEnd(s) + |v| - (b - a)
            && lx.Body(t) == Splice(lx.Body(s), a - lx.BodyStart(s), b - lx.BodyStart(s), v)
  {
    hide Lexer.SkipDigits;
    var t := Splice(s, a, b, v);
    var close := lx.BodyEnd(s);
    CloseShift(s, 3, a, b, v);
    SkipDigitsStops(lx, s, 3, close);
    if lx.BodyStart(s) == a { assert t[a + 0] == v[0]; }
    SkipDigitsStable(lx, s, t, 3, close, close + |v| - (b - a));
    SpliceSlice(s, lx.BodyStart(s), close, a, b, v);
  }

  // ---- Masking commutes with rewriting ----

  lemma MaskTokens(lx: Lexer, s: string)
    requires s != []
    ensures lx.Mask(s) == lx.MaskFirst(s) + lx.Mask(s[TokenLength(s)..])
    ensures Kind(s) != Executable ==> lx.ExecutableCount(s) == lx.ExecutableCount(s[TokenLength(s)..])
  {
  }

  /** The mask after a run is the mask of the text after it. */
  lemma {:induction false} MaskRun(lx: Lexer, s: string, b: nat)
    requires b <= |s| && Run(s, b)
    ensures lx.Mask(s)[b..] == lx.Mask(s[b..])
    ensures lx.ExecutableCount(s) == lx.ExecutableCount(s[b..])
    decreases |s|
  {
    hide Lexer.Mask, Lexer.MaskFirst, TokenLength, Kind, Lexer.ExecutableCount;
    if b == 0 {
      assert s[0..] == s;
    } else {
      var n := TokenLength(s);
      MaskTokens(lx, s);
      MaskRun(lx, s[n..], b - n);
      AfterToken(lx.MaskFirst(s), lx.Mask(s[n..]), b);
      assert s[n..][b - n..] == s[b..];
    }
  }

  lemma AfterToken(first: string, rest: string, b: nat)
    requires |first| <= b <= |first + rest|
    ensures (first + rest)[b..] == rest[b - |first|..]
  {
  }

  lemma SafeToken(lx: Lexer, s: string)
    requires s != [] && SafeChar(s[0])
    ensures lx.Mask(s) == [s[0]] + lx.Mask(s[1..])
    ensures lx.ExecutableCount(s) == lx.ExecutableCount(s[1..])
  {
    MaskTokens(lx, s);
  }

  /** Text without quote or comment characters is its own mask, whatever follows it. */
  lemma {:induction false} MaskSafe(lx: Lexer, v: string, rest: string)
    requires forall i :: 0 <= i < |v| ==> SafeChar(v[i])
    ensures lx.Mask(v + rest) == v + lx.Mask(rest)
    ensures lx.ExecutableCount(v + rest) == lx.ExecutableCount(rest)
  {
    if v == [] {
      assert v + rest == rest;
    } else {
      MaskSafe(lx, v[1..], rest);
      assert (v + rest)[1..] == v[1..] + rest;
      SafeToken(lx, v + rest);
      assert [v[0]] + (v[1..] + lx.Mask(rest)) == v + lx.Mask(rest);
    }
  }

  /** The first token lies before the replacement: it and its mask stay as they are. */
  lemma TokenBefore(lx: Lexer, s: string, a: nat, b: nat, v: string)
    requires a < b <= |s| && TokenLength(s) <= a
    requires (a == TokenLength(s) ==> Kind(s) != LineComment) && SafeText(lx, v)
    ensures SameBefore(s, Splice(s, a, b, v), a)
  {
    SpliceTail(s, 0, a, b, v);
    var t := Splice(s, a, b, v);
    forall k | 0 <= k < a
      ensures s[k] == t[k]
    {
      assert s[..a][k] == t[..a][k];
    }
  }

  /** Masking `s` with a replacement in it is masking `s` and then replacing. */
  predicate MaskCommutesAt(lx: Lexer, s: string, a: nat, b: nat, v: string)
    requires a <= b <= |s|
  {
    lx.Mask(Splice(s, a, b, v)) == Splice(lx.Mask(s), a, b, v)
  }

  /** Also the number of executable comments stays the same. */
  predicate Commutes(lx: Lexer, s: string, a: nat, b: nat, v: string)
    requires a <= b <= |s|
  {
    && MaskCommutesAt(lx, s, a, b, v)
    && lx.ExecutableCount(Splice(s, a, b, v)) == lx.ExecutableCount(s)
  }

  /** A replacement behind the first token commutes when it commutes with masking the rest. */
  lemma MaskAfterToken(lx: Lexer, s: string, a: nat, b: nat, v: string)
    requires s != [] && TokenLength(s) <= a < b <= |s|
    requires SameBefore(s, Splice(s, a, b, v), a)
    ensures MaskCommutesAt(lx, s, a, b, v)
            <==> MaskCommutesAt(lx, s[TokenLength(s)..], a - TokenLength(s), b - TokenLength(s), v)
  {
    hide Lexer.Mask, Lexer.MaskFirst, Splice, TokenLength, Kind, SameBefore, Lexer.ExecutableCount;
    var n, t := TokenLength(s), Splice(s, a, b, v);
    TokenStable(lx, s, t, a);
    SpliceTail(s, n, a, b, v);
    MaskTokens(lx, s);
    MaskTokens(lx, t);
    SpliceOfParts(lx.Mask(s), lx.MaskFirst(s), lx.Mask(s[n..]), lx.Mask(t), lx.Mask(t[n..]), n, a, b, v);
  }

  lemma SpliceOfParts(m: string, first: string, rest: string, m': string, rest': string, n: nat, a: nat, b: nat, v: string)
    requires m == first + rest && m' == first + rest' && |first| == n <= a <= b <= |m|
    ensures m' == Splice(m, a, b, v) <==> rest' == Splice(rest, a - n, b - n, v)
  {
    SpliceAfter(first, rest, a - n, b - n, v);
    assert (first + rest')[n..] == rest';
    assert (first + Splice(rest, a - n, b - n, v))[n..] == Splice(rest, a - n, b - n, v);
  }

  lemma CommutesAfterToken(lx: Lexer, s: string, a: nat, b: nat, v: string)
    requires s != [] && TokenLength(s) <= a < b <= |s|
    requires SameBefore(s, Splice(s, a, b, v), a)
    requires Commutes(lx, s[TokenLength(s)..], a - TokenLength(s), b - TokenLength(s), v)
    ensures Commutes(lx, s, a, b, v)
  {
    hide Lexer.Mask, Lexer.ExecutableCount, Splice, TokenLength, Kind, MaskCommutesAt;
    MaskAfterToken(lx, s, a, b, v);
    CountAfterToken(lx, s, a, b, v);
  }

  lemma CountAfterToken(lx: Lexer, s: string, a: nat, b: nat, v: string)
    requires s != [] && TokenLength(s) <= a < b <= |s|
    requires SameBefore(s, Splice(s, a, b, v), a)
    requires var n := TokenLength(s);
             lx.ExecutableCount(Splice(s[n..], a - n, b - n, v)) == lx.ExecutableCount(s[n..])
    ensures lx.ExecutableCount(Splice(s, a, b, v)) == lx.ExecutableCount(s)
  {
    hide Lexer.Mask, Lexer.MaskFirst, Splice, TokenLength, SameBefore, Lexer.Body;
    TokenStable(lx, s, Splice(s, a, b, v), a);
    SpliceTail(s, TokenLength(s), a, b, v);
    SpliceMakes(s, a, b, v);
  }

  lemma SpliceHead(s: string, b: nat, v: string, rest: string)
    requires b <= |s| && s[b..] == rest
    ensures Splice(s, 0, b, v) == v + rest
  {
  }

  lemma CommutesOnRun(lx: Lexer, s: string, b: nat, v: string)
    requires b <= |s| && Run(s, b) && SafeText(lx, v)
    ensures Commutes(lx, s, 0, b, v)
  {
    MaskRun(lx, s, b);
    MaskSafe(lx, v, s[b..]);
    SpliceHead(s, b, v, s[b..]);
    SpliceHead(lx.Mask(s), b, v, lx.Mask(s[b..]));
  }

  /** The first token holds the replacement and its mask is replaced the same way. */
  lemma CommutesInToken(lx: Lexer, s: string, a: nat, b: nat, v: string)
    requires s != [] && a < b <= TokenLength(s)
    requires Splice(s, a, b, v) != [] && TokenLength(Splice(s, a, b, v)) == TokenLength(s) + |v| - (b - a)
    requires Kind(Splice(s, a, b, v)) == Kind(s)
    requires Kind(s) == Executable ==>
               lx.ExecutableCount(lx.Body(Splice(s, a, b, v))) == lx.ExecutableCount(lx.Body(s))
    requires lx.MaskFirst(Splice(s, a, b, v)) == Splice(lx.MaskFirst(s), a, b, v)
    ensures Commutes(lx, s, a, b, v)
  {
    SpliceSlice(s, 0, TokenLength(s), a, b, v);
    SpliceBefore(lx.MaskFirst(s), lx.Mask(s[TokenLength(s)..]), a, b, v);
  }

  lemma FramedSplice(lx: Lexer, s: string, t: string, body: string, a: nat, b: nat, v: string)
    requires s != [] && Kind(s) == Executable && t != [] && Kind(t) == Executable
    requires lx.BodyStart(s) <= a < b <= lx.BodyEnd(s) && lx.BodyStart(t) == lx.BodyStart(s)
    requires lx.BodyEnd(t) == lx.BodyEnd(s) + |v| - (b - a)
    requires |body| == lx.BodyEnd(s) - lx.BodyStart(s)
    requires t[..lx.BodyStart(t)] == s[..lx.BodyStart(s)]
    requires t[lx.BodyEnd(t)..TokenLength(t)] == s[lx.BodyEnd(s)..TokenLength(s)]
    ensures lx.Framed(t, Splice(body, a - lx.BodyStart(s), b - lx.BodyStart(s), v))
            == Splice(lx.Framed(s, body), a, b, v)
  {
    var head, tail := Blank(s[..lx.BodyStart(s)]), Blank(s[lx.BodyEnd(s)..TokenLength(s)]);
    SpliceWithin(head, body, tail, a - |head|, b - |head|, v);
  }

  lemma CommutesInIdentifier(lx: Lexer, s: string, a: nat, b: nat, v: string)
    requires a < b <= |s| && InIdentifier(s, a, b) && SafeText(lx, v)
    ensures Commutes(lx, s, a, b, v)
  {
    IdentifierHolds(lx, s, a, b, v);
    CommutesInToken(lx, s, a, b, v);
  }

  /** The replacement lies in the body of an executable comment whose body commutes. */
  lemma CommutesInBody(lx: Lexer, s: string, a: nat, b: nat, v: string)
    requires a < b <= |s| && InBody(lx, s, a, b) && SafeText(lx, v)
    requires Commutes(lx, lx.Body(s), a - lx.BodyStart(s), b - lx.BodyStart(s), v)
    ensures Commutes(lx, s, a, b, v)
  {
    var t := Splice(s, a, b, v);
    ExecutableHolds(lx, s, a, b, v);
    SpliceSlice(s, lx.BodyStart(s), TokenLength(s), a, b, v);
    SpliceLater(s, lx.BodyEnd(s), TokenLength(s), a, b, v);
    FramedSplice(lx, s, t, lx.Mask(lx.Body(s)), a, b, v);
    CommutesInToken(lx, s, a, b, v);
  }

  /** One replacement commutes with masking, and keeps the number of executable comments. */
  lemma {:induction false} MaskCommutesOnce(lx: Lexer, s: string, a: nat, b: nat, v: string)
    requires a < b <= |s| && Editable(lx, s, a, b) && SafeText(lx, v)
    ensures Commutes(lx, s, a, b, v)
    decreases |s|
  {
    hide Kind, TokenLength, Run, Splice, Commutes;
    var n := TokenLength(s);
    if a >= n {
      TokenBefore(lx, s, a, b, v);
      MaskCommutesOnce(lx, s[n..], a - n, b - n, v);
      CommutesAfterToken(lx, s, a, b, v);
    } else if IsRun(s, a, b) {
      CommutesOnRun(lx, s, b, v);
    } else if InIdentifier(s, a, b) {
      CommutesInIdentifier(lx, s, a, b, v);
    } else {
      MaskCommutesOnce(lx, lx.Body(s), a - lx.BodyStart(s), b - lx.BodyStart(s), v);
      CommutesInBody(lx, s, a, b, v);
    }
  }

  // ---- When masking does not commute ----

  /** Without its line feed a line comment goes on into the new text, or is none any more. */
  lemma CommentSwallows(lx: Lexer, s: string, b: nat, v: string)
    requires s != [] && Kind(s) == LineComment && TokenLength(s) < b <= |s| && SafeText(lx, v)
    ensures !MaskCommutesAt(lx, s, TokenLength(s), b, v)
  {
    var a := TokenLength(s);
    var t, m := Splice(s, a, b, v), Splice(lx.Mask(s), a, b, v);
    assert t[..a] == s[..a] && t[a] == v[0] && m[a] == v[0];
    assert m[0] == lx.Mask(s)[0] == ' ';
    assert forall k :: 0 <= k < a ==> t[k] == t[..a][k] == s[..a][k] == s[k];
    if Kind(t) == LineComment {
      assert TokenLength(t) > a;
      assert lx.Mask(t)[a] == BlankChar(v[0]) == ' ';
    } else {
      assert lx.Mask(t)[0] == '-';
    }
  }

  lemma SpliceMakes(s: string, a: nat, b: nat, v: string)
    requires a <= b <= |s| && s[..a] != []
    ensures Splice(s, a, b, v) != []
  {
  }

  lemma MaskOfBody(lx: Lexer, s: string)
    requires s != [] && Kind(s) == Executable
    ensures lx.Mask(s)[lx.BodyStart(s)..lx.BodyEnd(s)] == lx.Mask(lx.Body(s))
  {
    var body := lx.Mask(lx.Body(s));
    assert lx.Framed(s, body)[lx.BodyStart(s)..lx.BodyEnd(s)] == body;
  }

  /** Texts whose parts differ from the spliced part are not the spliced text. */
  lemma PartDiffers(t: string, m: string, part: string, body: string, lo: nat, hi: nat, a: nat, b: nat, v: string)
    requires lo <= a <= b <= hi <= |m| && m[lo..hi] == body
    requires hi + |v| - (b - a) <= |t| && t[lo..hi + |v| - (b - a)] == part
    requires part != Splice(body, a - lo, b - lo, v)
    ensures t != Splice(m, a, b, v)
  {
    SpliceSlice(m, lo, hi, a, b, v);
  }

  /** The mask of a text with the replacement in its body has the mask of the spliced body in it. */
  lemma MaskOfSplicedBody(lx: Lexer, s: string, a: nat, b: nat, v: string) returns (mask: string, part: string)
    requires a < b <= |s| && InBody(lx, s, a, b) && SafeText(lx, v)
    ensures mask == lx.Mask(Splice(s, a, b, v))
    ensures part == lx.Mask(Splice(lx.Body(s), a - lx.BodyStart(s), b - lx.BodyStart(s), v))
    ensures |mask| == |s| + |v| - (b - a) && mask[lx.BodyStart(s)..lx.BodyEnd(s) + |v| - (b - a)] == part
  {
    ExecutableHolds(lx, s, a, b, v);
    MaskOfBody(lx, Splice(s, a, b, v));
    mask, part := lx.Mask(Splice(s, a, b, v)), lx.Mask(Splice(lx.Body(s), a - lx.BodyStart(s), b - lx.BodyStart(s), v));
  }

  lemma PartsDiffer(lx: Lexer, s: string, a: nat, b: nat, v: string, mask: string, part: string)
    requires a < b <= |s| && InBody(lx, s, a, b)
    requires |mask| == |s| + |v| - (b - a) && mask[lx.BodyStart(s)..lx.BodyEnd(s) + |v| - (b - a)] == part
    requires part != Splice(lx.Mask(lx.Body(s)), a - lx.BodyStart(s), b - lx.BodyStart(s), v)
    ensures mask != Splice(lx.Mask(s), a, b, v)
  {
    hide Splice, Lexer.Mask, Lexer.MaskFirst;
    MaskOfBody(lx, s);
    PartDiffers(mask, lx.Mask(s), part, lx.Mask(lx.Body(s)), lx.BodyStart(s), lx.BodyEnd(s), a, b, v);
  }

  lemma FailsInBody(lx: Lexer, s: string, a: nat, b: nat, v: string)
    requires a < b <= |s| && InBody(lx, s, a, b) && SafeText(lx, v)
    requires !MaskCommutesAt(lx, lx.Body(s), a - lx.BodyStart(s), b - lx.BodyStart(s), v)
    ensures !MaskCommutesAt(lx, s, a, b, v)
  {
    var mask, part := MaskOfSplicedBody(lx, s, a, b, v);
    PartsDiffer(lx, s, a, b, v, mask, part);
  }

  lemma {:induction false} MaskFails(lx: Lexer, s: string, a: nat, b: nat, v: string)
    requires a < b <= |s| && EndsLineComment(lx, s, a, b) && SafeText(lx, v)
    ensures !MaskCommutesAt(lx, s, a, b, v)
    decreases |s|
  {
    hide TokenLength, Splice, MaskCommutesAt;
    var n := TokenLength(s);
    if a == n && Kind(s) == LineComment {
      CommentSwallows(lx, s, b, v);
    } else if a >= n {
      TokenBefore(lx, s, a, b, v);
      MaskFails(lx, s[n..], a - n, b - n, v);
      MaskAfterToken(lx, s, a, b, v);
    } else {
      MaskFails(lx, lx.Body(s), a - lx.BodyStart(s), b - lx.BodyStart(s), v);
      FailsInBody(lx, s, a, b, v);
    }
  }

  /**
   Replacing whole tokens, or part of an identifier, by safe text commutes
   with masking exactly when the replaced text does not begin with the line
   feed that ends a line comment.
   */
  lemma MaskCommutesExactly(lx: Lexer, s: string, a: nat, b: nat, v: string)
    requires a < b <= |s| && WholeTokens(lx, s, a, b) && SafeText(lx, v)
    ensures MaskCommutesAt(lx, s, a, b, v) <==> !EndsLineComment(lx, s, a, b)
  {
    EditableIs(lx, s, a, b);
    if EndsLineComment(lx, s, a, b) {
      MaskFails(lx, s, a, b, v);
    } else {
      MaskCommutesOnce(lx, s, a, b, v);
    }
  }

  /** A short such case: the line feed of an empty `#` comment is replaced. */
  lemma LineFeedExample(lx: Lexer)
    requires NoLetterDigits(lx)
    ensures var s := ['#', '\n', 'x'];
            WholeTokens(lx, s, 1, 2) && SafeText(lx, ['a']) && !MaskCommutesAt(lx, s, 1, 2, ['a'])
  {
    var s := ['#', '\n', 'x'];
    assert TokenLength(s) == 1;
    assert Run(s[1..], 1) by { assert s[1..][1..] == ['x']; }
    CommentSwallows(lx, s, 2, ['a']);
  }

  predicate NoLetterDigits(lx: Lexer) { forall c :: c in lx.digits ==> !('a' <= c <= 'z') && !('A' <= c <= 'Z') }

  // ---- Several replacements ----

  lemma RunStep(t: string, n: nat, b: nat)
    requires t != [] && n == TokenLength(t) <= b <= |t| && Kind(t) in RUNNING
    requires Run(t[n..], b - n)
    ensures Run(t, b)
  {
  }

  lemma {:induction false} RunStable(lx: Lexer, s: string, b: nat, c: nat, d: nat, v: string)
    requires b <= c < d <= |s| && Run(s, b) && Editable(lx, s, c, d) && SafeText(lx, v)
    ensures Run(Splice(s, c, d, v), b)
    decreases |s|
  {
    hide TokenLength, Splice;
    if b > 0 {
      var n := TokenLength(s);
      TokenBefore(lx, s, c, d, v);
      RunStable(lx, s[n..], b - n, c - n, d - n, v);
      KindStable(s, Splice(s, c, d, v), c);
      LengthStable(s, Splice(s, c, d, v), c);
      SpliceTail(s, n, c, d, v);
      RunStep(Splice(s, c, d, v), n, b);
    }
  }

  lemma EditableInIdentifier(lx: Lexer, s: string, a: nat, b: nat, c: nat, d: nat, v: string)
    requires s != [] && Kind(s) == Identifier && 1 <= a < b <= c < d <= TokenLength(s)
    requires '`' !in s[a..b] && '`' !in s[c..d] && SafeText(lx, v)
    ensures Editable(lx, Splice(s, c, d, v), a, b)
  {
    IdentifierHolds(lx, s, c, d, v);
    assert Splice(s, c, d, v)[a..b] == s[a..b];
  }

  lemma EditableInBody(lx: Lexer, s: string, a: nat, b: nat, c: nat, d: nat, v: string)
    requires s != [] && Kind(s) == Executable
    requires lx.BodyStart(s) <= a < b <= c < d <= lx.BodyEnd(s) && SafeText(lx, v)
    requires Editable(lx, Splice(lx.Body(s), c - lx.BodyStart(s), d - lx.BodyStart(s), v),
                      a - lx.BodyStart(s), b - lx.BodyStart(s))
    ensures Editable(lx, Splice(s, c, d, v), a, b)
  {
    ExecutableHolds(lx, s, c, d, v);
  }

  lemma EditableRunStays(lx: Lexer, s: string, b: nat, c: nat, d: nat, v: string)
    requires 0 < b <= c < d <= |s| && IsRun(s, 0, b)
    requires Editable(lx, s, c, d) && SafeText(lx, v)
    ensures IsRun(Splice(s, c, d, v), 0, b)
  {
    RunStable(lx, s, b, c, d, v);
    SpliceTail(s, 0, c, d, v);
    assert Splice(s, c, d, v)[..c][0] == s[..c][0];
  }

  /** The earlier span lies in the first token, which both texts share. */
  lemma EditableTokenStays(lx: Lexer, s: string, t: string, a: nat, b: nat, c: nat)
    requires SameBefore(s, t, c) && a < b <= TokenLength(s)
    requires InIdentifier(s, a, b) ||
             (InBody(lx, s, a, b) && Editable(lx, lx.Body(s), a - lx.BodyStart(s), b - lx.BodyStart(s)))
    ensures Editable(lx, t, a, b)
  {
    TokenStable(lx, s, t, c);
    SliceOfPrefix(s, t, TokenLength(s), a, b);
  }

  lemma EditableStep(lx: Lexer, t: string, n: nat, a: nat, b: nat)
    requires t != [] && n == TokenLength(t) <= a < b <= |t|
    requires (a == n ==> Kind(t) != LineComment) && Editable(lx, t[n..], a - n, b - n)
    ensures Editable(lx, t, a, b)
  {
    hide Kind, TokenLength, Run;
  }

  lemma EarlierInBody(lx: Lexer, s: string, a: nat, b: nat, c: nat, d: nat)
    requires a < b <= c < d <= |s| && InBody(lx, s, c, d)
    requires Editable(lx, s, a, b)
    ensures InBody(lx, s, a, b) && Editable(lx, lx.Body(s), a - lx.BodyStart(s), b - lx.BodyStart(s))
  {
  }

  lemma EarlierInIdentifier(lx: Lexer, s: string, a: nat, b: nat, c: nat, d: nat)
    requires a < b <= c < d <= |s| && InIdentifier(s, c, d)
    requires Editable(lx, s, a, b)
    ensures InIdentifier(s, a, b)
  {
  }

  /** The replacement lies in the first token: so does the earlier span. */
  lemma {:induction false} EditableStableIn(lx: Lexer, s: string, a: nat, b: nat, c: nat, d: nat, v: string)
    requires a < b <= c < d <= |s| && Editable(lx, s, a, b) && SafeText(lx, v)
    requires InIdentifier(s, c, d) ||
             (InBody(lx, s, c, d) && Editable(lx, lx.Body(s), c - lx.BodyStart(s), d - lx.BodyStart(s)))
    ensures Editable(lx, Splice(s, c, d, v), a, b)
    decreases |s|, 0
  {
    hide Kind, TokenLength, Run, Splice, Editable;
    if InIdentifier(s, c, d) {
      EarlierInIdentifier(lx, s, a, b, c, d);
      EditableInIdentifier(lx, s, a, b, c, d, v);
    } else {
      var lo := lx.BodyStart(s);
      EarlierInBody(lx, s, a, b, c, d);
      EditableStable(lx, lx.Body(s), a - lo, b - lo, c - lo, d - lo, v);
      EditableInBody(lx, s, a, b, c, d, v);
    }
  }

  /** Both lie after the first token. */
  lemma EditableStableTail(lx: Lexer, s: string, a: nat, b: nat, c: nat, d: nat, v: string)
    requires a < b <= c < d <= |s| && TokenLength(s) <= a && (a == TokenLength(s) ==> Kind(s) != LineComment)
    requires SameBefore(s, Splice(s, c, d, v), c)
    requires Editable(lx, Splice(s[TokenLength(s)..], c - TokenLength(s), d - TokenLength(s), v),
                      a - TokenLength(s), b - TokenLength(s))
    ensures Editable(lx, Splice(s, c, d, v), a, b)
  {
    hide *;
    KindStable(s, Splice(s, c, d, v), c);
    LengthStable(s, Splice(s, c, d, v), c);
    SpliceTail(s, TokenLength(s), c, d, v);
    EditableStep(lx, Splice(s, c, d, v), TokenLength(s), a, b);
  }

  /** A replacement leaves every earlier editable span editable. */
  lemma {:induction false} EditableStable(lx: Lexer, s: string, a: nat, b: nat, c: nat, d: nat, v: string)
    requires a < b <= c < d <= |s|
    requires Editable(lx, s, a, b) && Editable(lx, s, c, d) && SafeText(lx, v)
    ensures Editable(lx, Splice(s, c, d, v), a, b)
    decreases |s|, 1
  {
    hide Kind, TokenLength, Run, Splice;
    if c < TokenLength(s) {
      EditableStableIn(lx, s, a, b, c, d, v);
    } else {
      TokenBefore(lx, s, c, d, v);
      if a >= TokenLength(s) {
        var n := TokenLength(s);
        EditableStable(lx, s[n..], a - n, b - n, c - n, d - n, v);
        EditableStableTail(lx, s, a, b, c, d, v);
      } else if IsRun(s, a, b) {
        EditableRunStays(lx, s, b, c, d, v);
      } else {
        EditableTokenStays(lx, s, Splice(s, c, d, v), a, b, c);
      }
    }
  }

  /** Every span can be replaced by its value without changing how the rest is read. */
  predicate AllEditable(lx: Lexer, s: string, spans: seq<Span>)
  {
    forall i :: 0 <= i < |spans| ==>
      spans[i].start < spans[i].end <= |s| && Editable(lx, s, spans[i].start, spans[i].end) && SafeText(lx, spans[i].value)
  }

  /** Masking the rewritten text is rewriting the masked text, for any number of spans. */
  lemma {:induction false} MaskCommutes(lx: Lexer, s: string, spans: seq<Span>)
    requires Ordered(spans, 0, |s|) && AllEditable(lx, s, spans)
    ensures lx.Mask(Apply(s, spans, 0)) == Apply(lx.Mask(s), spans, 0)
    ensures lx.ExecutableCount(Apply(s, spans, 0)) == lx.ExecutableCount(s)
    decreases |spans|
  {
    if spans == [] {
      assert s[0..] == s && lx.Mask(s)[0..] == lx.Mask(s);
    } else {
      var n := |spans| - 1;
      var last := spans[n];
      var t := Splice(s, last.start, last.end, last.value);
      OrderedBounds(spans, 0, |s|);
      ApplyLast(s, spans, 0);
      ApplyLast(lx.Mask(s), spans, 0);
      MaskCommutesOnce(lx, s, last.start, last.end, last.value);
      forall i | 0 <= i < n
        ensures Editable(lx, t, spans[i].start, spans[i].end)
      {
        EditableStable(lx, s, spans[i].start, spans[i].end, last.start, last.end, last.value);
      }
      MaskCommutes(lx, t, spans[..n]);
    }
  }
}
