/** Why a name that the patterns see in the masked text can be replaced. */
module SqlNames {
  import opened Text
  import opened SqlLexer
  import opened SqlSpans
  import opened SqlRewrite

  // The patterns (src/cmnd_linux/sql_audit.py) find a name either as a bare
  // word or between a backtick and the next one.

  /** A character that begins no token of its own kind and is no white space. */
  predicate WordChar(c: char) { SafeChar(c) && !IsSpace(c) }

  predicate Word(s: string, a: nat, b: nat)
    requires a <= b <= |s|
  {
    forall i :: a <= i < b ==> WordChar(s[i])
  }

  /** What a pattern has seen of the name: word characters, or text behind a backtick. */
  predicate Seen(mask: string, a: nat, b: nat)
    requires a < b <= |mask|
  {
    Word(mask, a, b) || (a > 0 && mask[a - 1] == '`')
  }

  // ---- The mask, position by position ----

  /** The mask begins with the mask of the first token. */
  lemma MaskHead(lx: Lexer, s: string)
    requires s != []
    ensures forall i :: 0 <= i < TokenLength(s) ==> lx.Mask(s)[i] == lx.MaskFirst(s)[i]
  {
    MaskJoined(lx, s);
    hide Lexer.Mask, Lexer.MaskFirst, TokenLength;
  }

  /** Behind the first token it is the mask of the text behind it. */
  lemma MaskTail(lx: Lexer, s: string)
    requires s != []
    ensures forall j :: 0 <= j < |s| - TokenLength(s) ==> lx.Mask(s[TokenLength(s)..])[j] == lx.Mask(s)[TokenLength(s) + j]
  {
    MaskJoined(lx, s);
    hide Lexer.Mask, Lexer.MaskFirst, TokenLength;
  }

  /** The same, seen from the whole text. */
  lemma MaskAfter(lx: Lexer, s: string)
    requires s != []
    ensures forall i :: TokenLength(s) <= i < |s| ==> lx.Mask(s)[i] == lx.Mask(s[TokenLength(s)..])[i - TokenLength(s)]
  {
    MaskJoined(lx, s);
    hide Lexer.Mask, Lexer.MaskFirst, TokenLength;
  }

  lemma MaskJoined(lx: Lexer, s: string)
    requires s != []
    ensures lx.Mask(s) == lx.MaskFirst(s) + lx.Mask(s[TokenLength(s)..])
    ensures |lx.MaskFirst(s)| == TokenLength(s) && |lx.Mask(s[TokenLength(s)..])| == |s| - TokenLength(s)
  {
  }

  lemma Framed(lx: Lexer, s: string)
    requires s != [] && Kind(s) == Executable
    ensures lx.MaskFirst(s) == Blank(s[..lx.BodyStart(s)]) + lx.Mask(lx.Body(s)) + Blank(s[lx.BodyEnd(s)..TokenLength(s)])
    ensures |lx.Mask(lx.Body(s))| == lx.BodyEnd(s) - lx.BodyStart(s)
  {
  }

  /** The body of an executable comment is masked in its place. */
  lemma MaskBody(lx: Lexer, s: string)
    requires s != [] && Kind(s) == Executable
    ensures forall j :: 0 <= j < lx.BodyEnd(s) - lx.BodyStart(s) ==> lx.Mask(lx.Body(s))[j] == lx.MaskFirst(s)[lx.BodyStart(s) + j]
  {
    hide Lexer.Mask, Lexer.MaskFirst, Kind, TokenLength, Lexer.Body, Lexer.BodyStart, Lexer.BodyEnd;
    Framed(lx, s);
  }

  /** The marks around the body are blanked. */
  lemma MaskFrame(lx: Lexer, s: string)
    requires s != [] && Kind(s) == Executable
    ensures forall i :: lx.BodyStart(s) <= i < lx.BodyEnd(s) ==> lx.MaskFirst(s)[i] == lx.Mask(lx.Body(s))[i - lx.BodyStart(s)]
    ensures forall i :: 0 <= i < TokenLength(s) && !(lx.BodyStart(s) <= i < lx.BodyEnd(s)) ==> lx.MaskFirst(s)[i] == BlankChar(s[i])
  {
    Framed(lx, s);
    hide Lexer.Mask, Lexer.MaskFirst, TokenLength, Lexer.Body, Lexer.BodyStart, Lexer.BodyEnd;
  }

  /** The kinds of a token whose mask is no blank at `a`. */
  lemma ShownKinds(lx: Lexer, s: string, a: nat)
    requires s != [] && a < TokenLength(s) && !IsSpace(lx.MaskFirst(s)[a])
    ensures Kind(s) == Plain || Kind(s) == Identifier || Kind(s) == Executable
    ensures Kind(s) == Executable ==> lx.BodyStart(s) <= a < lx.BodyEnd(s)
  {
    if Kind(s) == Executable { MaskFrame(lx, s); }
  }

  /** The line feed that ends a line comment is shown. */
  lemma LineEnds(lx: Lexer, s: string)
    requires s != [] && Kind(s) == LineComment && TokenLength(s) < |s|
    ensures lx.Mask(s)[TokenLength(s)] == '\n'
  {
    var rest := s[TokenLength(s)..];
    assert rest[0] == '\n' && Kind(rest) == Plain && TokenLength(rest) == 1;
    assert lx.MaskFirst(rest)[0] == '\n';
    hide Lexer.Mask, Lexer.MaskFirst;
    MaskHead(lx, rest);
    MaskAfter(lx, s);
  }

  /** A closed backtick identifier ends with a backtick. */
  lemma {:induction false} IdentifierCloses(s: string, i: nat)
    requires 1 <= i <= |s|
    ensures QuotedEnd(s, i, '`', false) < |s| ==> s[QuotedEnd(s, i, '`', false) - 1] == '`'
    decreases |s| - i
  {
    if i < |s| {
      if s[i] == '`' {
        if i + 1 < |s| && s[i + 1] == '`' { IdentifierCloses(s, i + 2); }
      } else {
        IdentifierCloses(s, i + 1);
      }
    }
  }

  // ---- A word of the mask can be replaced ----

  /** A word of the mask behind the first token is a word of the mask of the text behind it. */
  lemma WordAfter(lx: Lexer, s: string, a: nat, b: nat)
    requires s != [] && TokenLength(s) <= a < b <= |s| && Word(lx.Mask(s), a, b)
    ensures Word(lx.Mask(s[TokenLength(s)..]), a - TokenLength(s), b - TokenLength(s))
    ensures a == TokenLength(s) ==> Kind(s) != LineComment
  {
    hide Lexer.Mask, Lexer.MaskFirst, TokenLength, Kind, WordChar;
    MaskTail(lx, s);
    if a == TokenLength(s) && Kind(s) == LineComment {
      LineEnds(lx, s);
      NoWordChar();
    }
  }

  lemma NoWordChar()
    ensures !WordChar('\n')
  {
  }

  /** A word at the start of the mask is a run of plain characters. */
  lemma {:induction false} WordRun(lx: Lexer, s: string, b: nat)
    requires b <= |s| && Word(lx.Mask(s), 0, b)
    ensures Run(s, b)
    decreases b
  {
    if b > 0 {
      WordStart(lx, s, b);
      WordRun(lx, s[1..], b - 1);
    }
  }

  lemma WordStart(lx: Lexer, s: string, b: nat)
    requires 0 < b <= |s| && Word(lx.Mask(s), 0, b)
    ensures Kind(s) == Plain && TokenLength(s) == 1 && Word(lx.Mask(s[1..]), 0, b - 1)
  {
    MaskHead(lx, s);
    ShownKinds(lx, s, 0);
    FirstIdentifier(lx, s);
    assert TokenLength(s) == 1;
    MaskTail(lx, s);
  }

  lemma FirstIdentifier(lx: Lexer, s: string)
    requires s != []
    ensures Kind(s) == Identifier ==> lx.MaskFirst(s)[0] == '`'
  {
  }

  /** What the mask shows of an identifier is the identifier. */
  lemma IdentifierShown(lx: Lexer, s: string)
    requires s != [] && Kind(s) == Identifier
    ensures forall i :: 0 <= i < TokenLength(s) ==> lx.Mask(s)[i] == s[i]
    ensures s[0] == '`' && (TokenLength(s) < |s| ==> s[TokenLength(s) - 1] == '`')
  {
    MaskHead(lx, s);
    IdentifierCloses(s, 1);
    hide Lexer.Mask;
  }

  lemma WordInIdentifier(lx: Lexer, s: string, a: nat, b: nat)
    requires a < b <= |s| && Kind(s) == Identifier && a < TokenLength(s) && Word(lx.Mask(s), a, b)
    ensures InIdentifier(s, a, b)
  {
    hide Lexer.Mask, TokenLength, Kind;
    IdentifierShown(lx, s);
    assert forall i :: a <= i < b && i < TokenLength(s) ==> s[i] != '`';
  }

  lemma WordInBody(lx: Lexer, s: string, a: nat, b: nat)
    requires a < b <= |s| && Kind(s) == Executable && lx.BodyStart(s) <= a < lx.BodyEnd(s)
    requires Word(lx.Mask(s), a, b)
    ensures InBody(lx, s, a, b)
    ensures Word(lx.Mask(lx.Body(s)), a - lx.BodyStart(s), b - lx.BodyStart(s))
  {
    WordEndsInBody(lx, s, a, b);
    MaskHead(lx, s);
    MaskBody(lx, s);
    hide Lexer.Mask, Lexer.MaskFirst, TokenLength, Kind, WordChar, Lexer.BodyStart, Lexer.BodyEnd;
  }

  lemma WordEndsInBody(lx: Lexer, s: string, a: nat, b: nat)
    requires a < b <= |s| && Kind(s) == Executable && lx.BodyStart(s) <= a < lx.BodyEnd(s)
    requires Word(lx.Mask(s), a, b)
    ensures b <= lx.BodyEnd(s)
  {
    var hi := lx.BodyEnd(s);
    if hi < |s| {
      assert hi < TokenLength(s) && s[hi] == '*';
      MaskHead(lx, s);
      MaskFrame(lx, s);
      assert lx.Mask(s)[hi] == ' ';
    }
  }

  /** A word of the mask can be replaced, wherever it stands. */
  lemma {:induction false} WordEditable(lx: Lexer, s: string, a: nat, b: nat)
    requires a < b <= |s| && Word(lx.Mask(s), a, b)
    ensures Editable(lx, s, a, b)
    decreases |s|
  {
    hide Lexer.Mask, Lexer.MaskFirst, TokenLength, Kind, Run, Word;
    var n := TokenLength(s);
    if a >= n {
      WordAfter(lx, s, a, b);
      WordEditable(lx, s[n..], a - n, b - n);
    } else {
      WordKinds(lx, s, a, b);
      if Kind(s) == Plain {
        WordRun(lx, s, b);
      } else if Kind(s) == Identifier {
        WordInIdentifier(lx, s, a, b);
      } else {
        WordInBody(lx, s, a, b);
        WordEditable(lx, lx.Body(s), a - lx.BodyStart(s), b - lx.BodyStart(s));
      }
    }
  }

  lemma WordKinds(lx: Lexer, s: string, a: nat, b: nat)
    requires s != [] && a < TokenLength(s) && a < b <= |s| && Word(lx.Mask(s), a, b)
    ensures Kind(s) == Plain || Kind(s) == Identifier || Kind(s) == Executable
    ensures Kind(s) == Plain ==> a == 0 && Word(lx.Mask(s), 0, b)
    ensures Kind(s) == Executable ==> lx.BodyStart(s) <= a < lx.BodyEnd(s)
  {
    MaskHead(lx, s);
    ShownKinds(lx, s, a);
  }

  // ---- A word behind a visible backtick is visible ----

  /** The mask shows the text from `a` to `b` as it is. */
  predicate Shown(lx: Lexer, s: string, a: nat, b: nat)
    requires a <= b <= |s|
  {
    forall i :: a <= i < b ==> lx.Mask(s)[i] == s[i]
  }

  lemma {:induction false} WordShown(lx: Lexer, s: string, b: nat)
    requires b <= |s| && Word(s, 0, b)
    ensures Shown(lx, s, 0, b)
    decreases b
  {
    if b > 0 {
      assert WordChar(s[0]);
      assert Kind(s) == Plain && TokenLength(s) == 1 && lx.MaskFirst(s) == [s[0]];
      hide Lexer.Mask, TokenLength, Kind, Lexer.MaskFirst;
      MaskHead(lx, s);
      WordShown(lx, s[1..], b - 1);
      if b > 1 { ShownAfterToken(lx, s, 1, b); }
    }
  }

  lemma ShownAfterToken(lx: Lexer, s: string, a: nat, b: nat)
    requires s != [] && TokenLength(s) <= a < b <= |s|
    requires Shown(lx, s[TokenLength(s)..], a - TokenLength(s), b - TokenLength(s))
    ensures Shown(lx, s, a, b)
  {
    hide Lexer.Mask, TokenLength;
    MaskAfter(lx, s);
  }

  lemma ShownInIdentifier(lx: Lexer, s: string, a: nat, b: nat)
    requires a < b <= |s| && Kind(s) == Identifier && a < TokenLength(s) && Word(s, a, b)
    ensures Shown(lx, s, a, b)
  {
    hide Lexer.Mask, TokenLength, Kind;
    IdentifierShown(lx, s);
  }

  lemma ShownInBody(lx: Lexer, s: string, a: nat, b: nat)
    requires a < b <= |s| && InBody(lx, s, a, b)
    requires Shown(lx, lx.Body(s), a - lx.BodyStart(s), b - lx.BodyStart(s))
    ensures Shown(lx, s, a, b)
  {
    MaskHead(lx, s);
    MaskFrame(lx, s);
    hide Lexer.Mask, Lexer.MaskFirst, TokenLength, Kind, Lexer.BodyStart, Lexer.BodyEnd;
  }

  /** A word behind a backtick in the body stays in the body. */
  lemma WordStaysInBody(lx: Lexer, s: string, a: nat, b: nat)
    requires 0 < a < b <= |s| && Kind(s) == Executable && lx.BodyStart(s) < a <= lx.BodyEnd(s) && Word(s, a, b)
    ensures b <= lx.BodyEnd(s) && Word(lx.Body(s), a - lx.BodyStart(s), b - lx.BodyStart(s))
  {
  }

  lemma BehindBacktick(lx: Lexer, s: string, a: nat)
    requires s != [] && 0 < a <= TokenLength(s) && lx.Mask(s)[a - 1] == '`'
    ensures Kind(s) == Identifier || Kind(s) == Executable
    ensures Kind(s) == Executable ==>
              lx.BodyStart(s) < a <= lx.BodyEnd(s) && lx.Mask(lx.Body(s))[a - lx.BodyStart(s) - 1] == '`'
  {
    hide Lexer.Mask, Lexer.MaskFirst, TokenLength, Kind;
    MaskHead(lx, s);
    assert !IsSpace('`');
    ShownKinds(lx, s, a - 1);
    if Kind(s) == Executable {
      MaskFrame(lx, s);
    } else if Kind(s) == Plain {
      PlainNoTick(lx, s);
    }
  }

  lemma PlainNoTick(lx: Lexer, s: string)
    requires s != [] && Kind(s) == Plain
    ensures TokenLength(s) == 1 && lx.MaskFirst(s)[0] != '`'
  {
  }

  lemma {:induction false} QuotedShown(lx: Lexer, s: string, a: nat, b: nat)
    requires 0 < a < b <= |s| && lx.Mask(s)[a - 1] == '`' && Word(s, a, b)
    ensures Shown(lx, s, a, b)
    decreases |s|
  {
    hide Lexer.Mask, TokenLength, Kind, Shown;
    var n := TokenLength(s);
    if a > n {
      MaskTail(lx, s);
      QuotedShown(lx, s[n..], a - n, b - n);
      ShownAfterToken(lx, s, a, b);
    } else {
      BehindBacktick(lx, s, a);
      if Kind(s) == Executable {
        var lo := lx.BodyStart(s);
        WordStaysInBody(lx, s, a, b);
        QuotedShown(lx, lx.Body(s), a - lo, b - lo);
        ShownInBody(lx, s, a, b);
      } else if a < n {
        ShownInIdentifier(lx, s, a, b);
      } else {
        WordShown(lx, s[n..], b - n);
        ShownAfterToken(lx, s, a, b);
      }
    }
  }

  /** A name of word characters that a pattern has seen can be replaced. */
  lemma SeenEditable(lx: Lexer, s: string, a: nat, b: nat)
    requires a < b <= |s| && Seen(lx.Mask(s), a, b) && Word(s, a, b)
    ensures Editable(lx, s, a, b)
  {
    hide Lexer.Mask, Editable;
    if !Word(lx.Mask(s), a, b) {
      QuotedShown(lx, s, a, b);
    }
    WordEditable(lx, s, a, b);
  }
}
