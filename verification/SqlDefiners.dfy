/** Why a definer clause that the pattern sees in the masked text can be replaced. */
module SqlDefiners {
  import opened Text
  import opened SqlLexer
  import opened SqlSpans
  import opened SqlRewrite
  import opened SqlNames

  // The pattern is in src/cmnd_linux/restore_prepare.py, the masker in
  // src/cmnd_linux/sql_audit.py.

  // ---- What the pattern sees ----

  /** Where the parts of a match stand: its equals sign, both backticks of the user, the at sign, the first backtick of the host. */
  datatype Clause = Clause(equals: nat, user: nat, userEnd: nat, at: nat, host: nat)

  predicate Spaces(m: string, i: nat, j: nat)
    requires i <= j <= |m|
  {
    forall k :: i <= k < j ==> IsSpace(m[k])
  }

  /**
   A keyword, `=`, a quoted user, `@` and a quoted host, with white space
   between them: words of the lengths of DEFINER, siuser and localhost.
   */
  predicate ClauseAt(m: string, a: nat, b: nat, c: Clause) {
    && a + 7 <= c.equals < c.user && c.userEnd == c.user + 7 < c.at < c.host && b == c.host + 11 <= |m|
    && Word(m, a, a + 7) && Spaces(m, a + 7, c.equals)
    && m[c.equals] == '=' && Spaces(m, c.equals + 1, c.user)
    && m[c.user] == '`' && Word(m, c.user + 1, c.userEnd) && m[c.userEnd] == '`'
    && Spaces(m, c.userEnd + 1, c.at) && m[c.at] == '@' && Spaces(m, c.at + 1, c.host)
    && m[c.host] == '`' && Word(m, c.host + 1, b - 1) && m[b - 1] == '`'
  }

  ghost predicate SeenClause(m: string, a: nat, b: nat) {
    exists c :: ClauseAt(m, a, b, c)
  }

  // ---- Where a match may stand ----

  /** The tokens that begin before `b` are neither literals nor executable comments. */
  predicate Clean(s: string, b: nat)
    requires b <= |s|
    decreases |s|
  {
    b == 0 || (Kind(s) in RUNNING && (TokenLength(s) >= b || Clean(s[TokenLength(s)..], b - TokenLength(s))))
  }

  /**
   The match begins at a token, hides no literal and no executable comment,
   and lies on one level of executable comments.
   */
  predicate Stands(lx: Lexer, s: string, a: nat, b: nat)
    requires a < b <= |s|
    decreases |s|
  {
    var n := TokenLength(s);
    if a >= n then Stands(lx, s[n..], a - n, b - n)
    else if a == 0 then Clean(s, b)
    else InBody(lx, s, a, b) && Stands(lx, lx.Body(s), a - lx.BodyStart(s), b - lx.BodyStart(s))
  }

  // ---- From the mask to the tokens ----

  predicate NoTick(m: string, k: nat)
    requires k <= |m|
  {
    forall i :: 0 <= i < k ==> m[i] != '`'
  }

  /** A token whose mask begins with no backtick ends at or before the next visible character. */
  lemma TokenFits(lx: Lexer, s: string, k: nat)
    requires s != [] && Kind(s) in RUNNING && 0 < k <= |s| && lx.Mask(s)[0] != '`'
    requires k < |s| ==> !IsSpace(lx.Mask(s)[k])
    ensures TokenLength(s) <= k && Kind(s) != Identifier
  {
    hide Lexer.Mask, TokenLength;
    match Kind(s)
    case Identifier => IdentifierShown(lx, s);
    case Plain => PlainLength(s);
    case _ => HiddenBlank(lx, s);
  }

  lemma PlainLength(s: string)
    requires s != [] && Kind(s) == Plain
    ensures TokenLength(s) == 1
  {
  }

  /** A comment is masked by white space. */
  lemma HiddenBlank(lx: Lexer, s: string)
    requires s != [] && (Kind(s) == Comment || Kind(s) == LineComment)
    ensures forall i :: 0 <= i < TokenLength(s) ==> IsSpace(lx.Mask(s)[i])
  {
    BlankFirst(lx, s);
    hide Lexer.Mask, Lexer.MaskFirst, TokenLength;
    MaskHead(lx, s);
  }

  lemma BlankFirst(lx: Lexer, s: string)
    requires s != [] && (Kind(s) == Comment || Kind(s) == LineComment)
    ensures forall i :: 0 <= i < TokenLength(s) ==> IsSpace(lx.MaskFirst(s)[i])
  {
  }

  /** Without backticks the tokens end exactly before the next visible character. */
  lemma {:induction false} RunToVisible(lx: Lexer, s: string, k: nat)
    requires k <= |s| && Clean(s, k) && NoTick(lx.Mask(s), k)
    requires k < |s| ==> !IsSpace(lx.Mask(s)[k])
    ensures Run(s, k)
    decreases |s|
  {
    if k > 0 {
      hide Lexer.Mask, Lexer.MaskFirst, TokenLength, Kind;
      var n := TokenLength(s);
      TokenFits(lx, s, k);
      MaskTail(lx, s);
      RunToVisible(lx, s[n..], k - n);
    }
  }

  lemma {:induction false} QuotedEndIs(s: string, i: nat, e: nat)
    requires i <= e < |s| && s[e] == '`' && (e + 1 < |s| ==> s[e + 1] != '`')
    requires forall j :: i <= j < e ==> s[j] != '`'
    ensures QuotedEnd(s, i, '`', false) == e + 1
    decreases e - i
  {
    if i < e { QuotedEndIs(s, i + 1, e); }
  }

  lemma VisibleTick(lx: Lexer, s: string)
    requires s != [] && lx.Mask(s)[0] == '`'
    ensures Kind(s) == Identifier
    ensures forall j :: 0 <= j < TokenLength(s) ==> lx.Mask(s)[j] == s[j]
  {
    MaskHead(lx, s);
    ShownKinds(lx, s, 0);
    if Kind(s) == Executable { MaskFrame(lx, s); }
  }

  lemma IdentifierEnd(s: string, m: string, e: nat)
    requires |m| == |s| && 1 < e < |s| && Kind(s) == Identifier
    requires forall j :: 0 <= j < TokenLength(s) ==> m[j] == s[j]
    requires Word(m, 1, e) && m[e] == '`' && (e + 1 < |s| ==> m[e + 1] != '`')
    ensures TokenLength(s) == e + 1
  {
    var n := TokenLength(s);
    IdentifierCloses(s, 1);
    IdentifierLong(s);
    if n > e + 1 { QuotedEndIs(s, 1, e); }
  }

  /** A visible backtick, a word and one more backtick are one identifier, unless a third backtick follows. */
  lemma IdentifierSeen(lx: Lexer, s: string, e: nat)
    requires 1 < e < |s| && lx.Mask(s)[0] == '`' && Word(lx.Mask(s), 1, e) && lx.Mask(s)[e] == '`'
    requires e + 1 < |s| ==> lx.Mask(s)[e + 1] != '`'
    ensures Kind(s) == Identifier && TokenLength(s) == e + 1
  {
    hide Lexer.Mask, TokenLength, Kind, Word;
    VisibleTick(lx, s);
    IdentifierEnd(s, lx.Mask(s), e);
  }

  lemma IdentifierLong(s: string)
    requires |s| >= 2 && Kind(s) == Identifier
    ensures TokenLength(s) >= 2
  {
  }

  lemma {:induction false} RunJoin(s: string, k: nat, b: nat)
    requires k <= b <= |s| && Run(s, k) && Run(s[k..], b - k)
    ensures Run(s, b)
    decreases |s|
  {
    hide TokenLength, Kind;
    if k == 0 {
      assert s[0..] == s;
    } else {
      var n := TokenLength(s);
      assert s[n..][k - n..] == s[k..];
      RunJoin(s[n..], k - n, b - n);
    }
  }

  lemma {:induction false} CleanAfter(s: string, k: nat, b: nat)
    requires k <= b <= |s| && Run(s, k) && Clean(s, b)
    ensures Clean(s[k..], b - k)
    decreases |s|
  {
    if k == 0 {
      assert s[0..] == s;
    } else {
      var n := TokenLength(s);
      assert s[n..][k - n..] == s[k..];
      if n >= b { assert k == b; } else { CleanAfter(s[n..], k - n, b - n); }
    }
  }

  lemma {:induction false} CleanBefore(s: string, k: nat, b: nat)
    requires k <= b <= |s| && Clean(s, b)
    ensures Clean(s, k)
    decreases |s|
  {
    if k > 0 {
      var n := TokenLength(s);
      if n < k { CleanBefore(s[n..], k - n, b - n); }
    }
  }

  /** The mask behind a run, position by position. */
  lemma MaskBehind(lx: Lexer, s: string, k: nat)
    requires k <= |s| && Run(s, k)
    ensures forall j :: 0 <= j < |s| - k ==> lx.Mask(s[k..])[j] == lx.Mask(s)[k + j]
  {
    MaskRun(lx, s, k);
  }

  /** From a token on: text without backticks and an identifier behind it. */
  lemma RunThroughIdentifier(lx: Lexer, s: string, open_: nat, close: nat)
    requires open_ + 1 < close < |s| && Clean(s, open_) && NoTick(lx.Mask(s), open_)
    requires lx.Mask(s)[open_] == '`' && Word(lx.Mask(s), open_ + 1, close) && lx.Mask(s)[close] == '`'
    requires close + 1 < |s| ==> lx.Mask(s)[close + 1] != '`'
    ensures Run(s, close + 1)
  {
    hide Lexer.Mask, TokenLength, Kind;
    RunToVisible(lx, s, open_);
    MaskBehind(lx, s, open_);
    var rest := s[open_..];
    IdentifierSeen(lx, rest, close - open_);
    OneIdentifier(rest, close - open_ + 1);
    RunJoin(s, open_, close + 1);
  }

  lemma OneIdentifier(s: string, n: nat)
    requires s != [] && Kind(s) == Identifier && TokenLength(s) == n
    ensures Run(s, n)
  {
    assert s[n..] == s[|s[..n]|..];
  }

  /** A match that begins with a token is a run of whole tokens. */
  lemma ClauseRun(lx: Lexer, s: string, b: nat, c: Clause)
    requires b <= |s| && ClauseAt(lx.Mask(s), 0, b, c) && Clean(s, b)
    requires b < |s| ==> lx.Mask(s)[b] != '`'
    ensures Run(s, b)
  {
    hide Lexer.Mask, Run, Clean;
    var m := lx.Mask(s);
    var k := c.userEnd + 1;
    FirstTicks(m, b, c);
    CleanBefore(s, c.user, b);
    RunThroughIdentifier(lx, s, c.user, c.userEnd);
    CleanAfter(s, k, b);
    CleanBefore(s[k..], c.host - k, b - k);
    MaskBehind(lx, s, k);
    RunThroughIdentifier(lx, s[k..], c.host - k, b - 1 - k);
    RunJoin(s, k, b);
  }

  lemma FirstTicks(m: string, b: nat, c: Clause)
    requires ClauseAt(m, 0, b, c)
    ensures NoTick(m, c.user) && m[c.userEnd + 1] != '`'
    ensures forall i :: c.userEnd < i < c.host ==> m[i] != '`'
    ensures c.user + 1 < c.userEnd && c.host + 1 < b - 1
  {
  }

  // ---- At any place in the text ----

  function Shift(c: Clause, k: nat): Clause
    requires k <= c.equals && k <= c.user && k <= c.userEnd && k <= c.at && k <= c.host
  {
    Clause(c.equals - k, c.user - k, c.userEnd - k, c.at - k, c.host - k)
  }

  lemma ClauseShift(m: string, t: string, k: nat, a: nat, b: nat, c: Clause)
    requires ClauseAt(m, a, b, c) && k <= a && b - k <= |t|
    requires forall j :: a - k <= j < b - k ==> t[j] == m[k + j]
    ensures ClauseAt(t, a - k, b - k, Shift(c, k))
  {
  }

  lemma ClauseFirst(m: string, a: nat, b: nat, c: Clause)
    requires ClauseAt(m, a, b, c)
    ensures a + 1 <= |m| && Word(m, a, a + 1)
    ensures c.equals >= a && c.user >= a && c.userEnd >= a && c.at >= a && c.host >= a
  {
  }

  /** A visible match in the text and no backtick behind it. */
  predicate Clear(lx: Lexer, s: string, a: nat, b: nat, c: Clause) {
    b <= |s| && ClauseAt(lx.Mask(s), a, b, c) && (b < |s| ==> lx.Mask(s)[b] != '`')
  }

  lemma ClearAfter(lx: Lexer, s: string, a: nat, b: nat, c: Clause)
    requires s != [] && TokenLength(s) <= a < b && Clear(lx, s, a, b, c)
    ensures c.equals >= a && c.user >= a && c.userEnd >= a && c.at >= a && c.host >= a
    ensures Clear(lx, s[TokenLength(s)..], a - TokenLength(s), b - TokenLength(s), Shift(c, TokenLength(s)))
    ensures a == TokenLength(s) ==> Kind(s) != LineComment
  {
    hide Lexer.Mask, Lexer.MaskFirst, TokenLength, Kind, ClauseAt;
    ClauseFirst(lx.Mask(s), a, b, c);
    WordAfter(lx, s, a, a + 1);
    MaskTail(lx, s);
    ClauseShift(lx.Mask(s), lx.Mask(s[TokenLength(s)..]), TokenLength(s), a, b, c);
  }

  lemma BodyPlace(lx: Lexer, s: string)
    requires s != [] && Kind(s) == Executable
    ensures lx.BodyStart(s) <= lx.BodyEnd(s) <= |s| && |lx.Mask(lx.Body(s))| == |lx.Body(s)| == lx.BodyEnd(s) - lx.BodyStart(s)
    ensures forall j :: 0 <= j < |lx.Body(s)| ==> lx.Mask(lx.Body(s))[j] == lx.Mask(s)[lx.BodyStart(s) + j]
  {
    MaskHead(lx, s);
    MaskBody(lx, s);
  }

  lemma ClearShift(m: string, t: string, lo: nat, a: nat, b: nat, c: Clause)
    requires ClauseAt(m, a, b, c) && lo <= a && b - lo <= |t| && lo + |t| <= |m|
    requires forall j :: 0 <= j < |t| ==> t[j] == m[lo + j]
    requires b < |m| ==> m[b] != '`'
    ensures c.equals >= a && c.user >= a && c.userEnd >= a && c.at >= a && c.host >= a
    ensures ClauseAt(t, a - lo, b - lo, Shift(c, lo)) && (b - lo < |t| ==> t[b - lo] != '`')
  {
    hide ClauseAt;
    ClauseFirst(m, a, b, c);
    ClauseShift(m, t, lo, a, b, c);
  }

  lemma ClearInBody(lx: Lexer, s: string, a: nat, b: nat, c: Clause)
    requires a < b <= |s| && InBody(lx, s, a, b) && Clear(lx, s, a, b, c)
    ensures c.equals >= a && c.user >= a && c.userEnd >= a && c.at >= a && c.host >= a
    ensures Clear(lx, lx.Body(s), a - lx.BodyStart(s), b - lx.BodyStart(s), Shift(c, lx.BodyStart(s)))
  {
    hide Lexer.Mask, Lexer.Body, TokenLength, Kind, ClauseAt, Lexer.BodyStart, Lexer.BodyEnd;
    BodyPlace(lx, s);
    ClearShift(lx.Mask(s), lx.Mask(lx.Body(s)), lx.BodyStart(s), a, b, c);
  }

  lemma {:induction false} ClauseEditable(lx: Lexer, s: string, a: nat, b: nat, c: Clause)
    requires a < b <= |s| && Clear(lx, s, a, b, c) && Stands(lx, s, a, b)
    ensures Editable(lx, s, a, b)
    decreases |s|
  {
    hide Clear, Kind, TokenLength, Run, Clean, Lexer.Mask;
    var n := TokenLength(s);
    if a >= n {
      ClearAfter(lx, s, a, b, c);
      ClauseEditable(lx, s[n..], a - n, b - n, Shift(c, n));
    } else if a == 0 {
      ClearRun(lx, s, b, c);
    } else {
      ClearInBody(lx, s, a, b, c);
      ClauseEditable(lx, lx.Body(s), a - lx.BodyStart(s), b - lx.BodyStart(s), Shift(c, lx.BodyStart(s)));
    }
  }

  lemma ClearRun(lx: Lexer, s: string, b: nat, c: Clause)
    requires 0 < b <= |s| && Clear(lx, s, 0, b, c) && Clean(s, b)
    ensures IsRun(s, 0, b)
  {
    ClauseRun(lx, s, b, c);
  }

  /**
   A definer clause that the pattern has seen can be replaced when it begins
   at a token, hides no literal and no executable comment, stays on one level
   of executable comments and no backtick follows it.
   */
  lemma SeenClauseEditable(lx: Lexer, s: string, a: nat, b: nat)
    requires a < b <= |s| && SeenClause(lx.Mask(s), a, b) && Stands(lx, s, a, b)
    requires b < |s| ==> lx.Mask(s)[b] != '`'
    ensures Editable(lx, s, a, b)
  {
    var c :| ClauseAt(lx.Mask(s), a, b, c);
    ClauseEditable(lx, s, a, b, c);
  }
}
