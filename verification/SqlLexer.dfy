/** The lexical masker of the SQL audit (src/cmnd_linux/sql_audit.py). */
module SqlLexer {
  import opened Text

  // Everything is written over the remaining text: a function looks at a
  // non-empty suffix, finds the length of its first token and recurses on the
  // rest.  The loop of the program comes after the functions it is proved against.

  datatype TokenKind = Literal | Identifier | Executable | Comment | LineComment | Plain

  predicate IsQuote(c: char) {
    c == '\'' || c == '"'
  }

  function BlankChar(c: char): char {
    if c == '\n' || c == '\r' then c else ' '
  }

  function Blank(s: string): (r: string)
    ensures |r| == |s|
    ensures forall i :: 0 <= i < |s| ==> r[i] == BlankChar(s[i])
  {
    seq(|s|, i requires 0 <= i < |s| => BlankChar(s[i]))
  }

  /** Where a quoted region ends: `i` is a position inside it, `q` its quote. */
  function QuotedEnd(s: string, i: nat, q: char, escapes: bool): (e: nat)
    requires i <= |s|
    ensures i <= e <= |s|
    decreases |s| - i
  {
    if i == |s| then i
    else if escapes && s[i] == '\\' then
      if i + 2 <= |s| then QuotedEnd(s, i + 2, q, escapes) else |s|
    else if s[i] == q then
      if i + 1 < |s| && s[i + 1] == q then QuotedEnd(s, i + 2, q, escapes) else i + 1
    else QuotedEnd(s, i + 1, q, escapes)
  }

  predicate CloseAt(s: string, i: nat) {
    i + 1 < |s| && s[i] == '*' && s[i + 1] == '/'
  }

  /** The first comment close at or after `i`, or the end of the text. */
  function FindClose(s: string, i: nat): (e: nat)
    requires i <= |s|
    ensures i <= e <= |s|
    ensures e < |s| ==> CloseAt(s, e)
    ensures forall k :: i <= k < e ==> !CloseAt(s, k)
    decreases |s| - i
  {
    if i == |s| || CloseAt(s, i) then i else FindClose(s, i + 1)
  }

  /** The first line feed at or after `i`, or the end of the text. */
  function FindNewline(s: string, i: nat): (e: nat)
    requires i <= |s|
    ensures i <= e <= |s|
    ensures e < |s| ==> s[e] == '\n'
    ensures forall k :: i <= k < e ==> s[k] != '\n'
    decreases |s| - i
  {
    if i == |s| || s[i] == '\n' then i else FindNewline(s, i + 1)
  }

  function CloseEnd(s: string, close: nat): (e: nat)
    requires close <= |s|
    requires close < |s| ==> CloseAt(s, close)
    ensures close <= e <= |s|
    ensures close < |s| ==> e == close + 2
  {
    if close < |s| then close + 2 else close
  }

  function Kind(s: string): TokenKind
    requires s != []
  {
    if IsQuote(s[0]) then Literal
    else if s[0] == '`' then Identifier
    else if |s| >= 3 && s[0] == '/' && s[1] == '*' && s[2] == '!' then Executable
    else if |s| >= 2 && s[0] == '/' && s[1] == '*' then Comment
    else if s[0] == '#' || (|s| >= 2 && s[0] == '-' && s[1] == '-' && (|s| == 2 || IsSpace(s[2]))) then LineComment
    else Plain
  }

  function TokenLength(s: string): (n: nat)
    requires s != []
    ensures 1 <= n <= |s|
  {
    match Kind(s)
    case Literal => QuotedEnd(s, 1, s[0], true)
    case Identifier => QuotedEnd(s, 1, '`', false)
    case Executable => CloseEnd(s, FindClose(s, 3))
    case Comment => CloseEnd(s, FindClose(s, 2))
    case LineComment => FindNewline(s, 1)
    case Plain => 1
  }

  /**
   The lexer, for any set of characters taken as digits (Python's str.isdigit
   depends on the Unicode tables of the interpreter).
   */
  datatype Lexer = Lexer(digits: set<char>) {

    function SkipDigits(s: string, i: nat, close: nat): (e: nat)
      requires i <= close <= |s|
      ensures i <= e <= close
      decreases close - i
    {
      if i < close && s[i] in digits then SkipDigits(s, i + 1, close) else i
    }

    /** The bounds of the body of an executable comment. */
    function BodyEnd(s: string): (e: nat)
      requires s != [] && Kind(s) == Executable
      ensures 3 <= e <= TokenLength(s)
    {
      FindClose(s, 3)
    }

    function BodyStart(s: string): (b: nat)
      requires s != [] && Kind(s) == Executable
      ensures 3 <= b <= BodyEnd(s)
    {
      SkipDigits(s, 3, BodyEnd(s))
    }

    function Body(s: string): (b: string)
      requires s != [] && Kind(s) == Executable
      ensures |b| < |s|
    {
      s[BodyStart(s)..BodyEnd(s)]
    }

    /** An executable comment with its markers blanked around a body. */
    function Framed(s: string, body: string): (m: string)
      requires s != [] && Kind(s) == Executable && |body| == BodyEnd(s) - BodyStart(s)
      ensures |m| == TokenLength(s)
    {
      Blank(s[..BodyStart(s)]) + body + Blank(s[BodyEnd(s)..TokenLength(s)])
    }

    function MaskFirst(s: string): (m: string)
      requires s != []
      ensures |m| == TokenLength(s)
      decreases |s|, 0
    {
      var n := TokenLength(s);
      match Kind(s)
      case Plain => s[..n]
      case Identifier => s[..n]
      case Executable => Framed(s, Mask(Body(s)))
      case _ => Blank(s[..n])
    }

    function Mask(s: string): (m: string)
      ensures |m| == |s|
      decreases |s|, 1
    {
      if s == [] then [] else MaskFirst(s) + Mask(s[TokenLength(s)..])
    }

    function ExecutableCount(s: string): nat
      decreases |s|
    {
      if s == [] then 0
      else
        (if Kind(s) == Executable then 1 + ExecutableCount(Body(s)) else 0) + ExecutableCount(s[TokenLength(s)..])
    }

    /** The masking loop of the program: each turn consumes the token at `index`. */
    method LexicallyMask(sql: string) returns (output: string, executableComments: nat)
      ensures output == Mask(sql)
      ensures executableComments == ExecutableCount(sql)
      decreases |sql|, 2
    {
      output, executableComments := [], 0;
      var index := 0;
      while index < |sql|
        invariant index <= |sql|
        invariant output + Mask(sql[index..]) == Mask(sql)
        invariant executableComments + ExecutableCount(sql[index..]) == ExecutableCount(sql)
      {
        ghost var rest := sql[index..];
        var piece, end, found := MaskToken(sql, index);
        assert sql[end..] == rest[TokenLength(rest)..];
        assert output + (piece + Mask(sql[end..])) == (output + piece) + Mask(sql[end..]);
        output := output + piece;
        executableComments := executableComments + found;
        index := end;
      }
      assert sql[index..] == [];
    }

    /** One turn of the loop: the branches on the character at `index`. */
    method MaskToken(sql: string, index: nat) returns (piece: string, end: nat, found: nat)
      requires index < |sql|
      ensures piece == MaskFirst(sql[index..])
      ensures end == index + TokenLength(sql[index..])
      ensures found + ExecutableCount(sql[index..][TokenLength(sql[index..])..]) == ExecutableCount(sql[index..])
      decreases |sql|, 1
    {
      hide StartsAt, QuotedEnd, FindClose, FindNewline, Blank;
      ghost var rest := sql[index..];
      var first := sql[index];
      found := 0;
      StartsWithTwo(sql, "--", index);
      StartsWithTwo(sql, "/*", index);
      StartsWithThree(sql, "/*!", index);
      if IsQuote(first) {
        assert Kind(rest) == Literal;
        end := ScanQuoted(sql, index, first, true);
        piece := Blank(sql[index..end]);
      } else if first == '`' {
        assert Kind(rest) == Identifier;
        end := ScanQuoted(sql, index, first, false);
        piece := sql[index..end];
      } else if StartsAt(sql, "/*!", index) {
        assert Kind(rest) == Executable;
        piece, end, found := MaskExecutable(sql, index);
        return;
      } else if StartsAt(sql, "/*", index) {
        assert Kind(rest) == Comment;
        end := ScanClose(sql, index, 2);
        end := if end < |sql| then end + 2 else |sql|;
        piece := Blank(sql[index..end]);
      } else if first == '#' || (StartsAt(sql, "--", index) && (index + 2 == |sql| || IsSpace(sql[index + 2]))) {
        assert Kind(rest) == LineComment;
        end := ScanNewline(sql, index);
        piece := Blank(sql[index..end]);
      } else {
        assert Kind(rest) == Plain;
        end := index + 1;
        piece := [first];
      }
      assert end == index + TokenLength(rest);
      SliceOfSuffix(sql, index, end);
    }

    /** The executable-comment branch of the loop: only its body stays visible. */
    method MaskExecutable(sql: string, index: nat) returns (piece: string, end: nat, found: nat)
      requires index < |sql| && Kind(sql[index..]) == Executable
      ensures piece == MaskFirst(sql[index..])
      ensures end == index + TokenLength(sql[index..])
      ensures found == 1 + ExecutableCount(Body(sql[index..]))
      decreases |sql|, 0
    {
      ghost var rest := sql[index..];
      var close := ScanClose(sql, index, 3);
      var bodyStart := index + 3;
      while bodyStart < close && sql[bodyStart] in digits
        invariant index + 3 <= bodyStart <= close
        invariant SkipDigits(rest, bodyStart - index, close - index) == BodyStart(rest)
      {
        bodyStart := bodyStart + 1;
      }
      assert sql[bodyStart..close] == Body(rest);
      var maskedBody, nested := LexicallyMask(sql[bodyStart..close]);
      end := if close < |sql| then close + 2 else close;
      piece := Blank(sql[index..bodyStart]) + maskedBody + Blank(sql[close..end]);
      assert rest[..BodyStart(rest)] == sql[index..bodyStart];
      assert rest[BodyEnd(rest)..TokenLength(rest)] == sql[close..end];
      found := 1 + nested;
    }
  }

  lemma SliceOfSuffix(s: string, lo: nat, hi: nat)
    requires lo <= hi <= |s|
    ensures s[lo..][..hi - lo] == s[lo..hi]
  {
  }

  predicate StartsAt(sql: string, prefix: string, index: nat)
    requires index <= |sql|
  {
    index + |prefix| <= |sql| && sql[index..index + |prefix|] == prefix
  }

  lemma StartsWithTwo(sql: string, prefix: string, index: nat)
    requires index <= |sql| && |prefix| == 2
    ensures StartsAt(sql, prefix, index) <==>
            index + 2 <= |sql| && sql[index] == prefix[0] && sql[index + 1] == prefix[1]
  {
    if index + 2 <= |sql| {
      assert sql[index..index + 2] == [sql[index], sql[index + 1]];
    }
  }

  lemma StartsWithThree(sql: string, prefix: string, index: nat)
    requires index <= |sql| && |prefix| == 3
    ensures StartsAt(sql, prefix, index) <==>
            index + 3 <= |sql| && sql[index] == prefix[0] && sql[index + 1] == prefix[1] && sql[index + 2] == prefix[2]
  {
    if index + 3 <= |sql| {
      assert sql[index..index + 3] == [sql[index], sql[index + 1], sql[index + 2]];
    }
  }

  method ScanQuoted(sql: string, index: nat, quote: char, escapes: bool) returns (end: nat)
    requires index < |sql|
    ensures end <= |sql|
    ensures end == index + QuotedEnd(sql[index..], 1, quote, escapes)
  {
    ghost var rest := sql[index..];
    end := index + 1;
    while end < |sql|
      invariant index + 1 <= end <= |sql|
      invariant QuotedEnd(rest, end - index, quote, escapes) == QuotedEnd(rest, 1, quote, escapes)
    {
      if escapes && sql[end] == '\\' {
        end := if end + 2 <= |sql| then end + 2 else |sql|;
        continue;
      }
      if sql[end] == quote {
        if end + 1 < |sql| && sql[end + 1] == quote {
          end := end + 2;
          continue;
        }
        end := end + 1;
        return;
      }
      end := end + 1;
    }
  }

  method ScanClose(sql: string, index: nat, skip: nat) returns (close: nat)
    requires index + skip <= |sql|
    ensures close <= |sql|
    ensures close == index + FindClose(sql[index..], skip)
  {
    ghost var rest := sql[index..];
    close := index + skip;
    while close < |sql| && !(close + 1 < |sql| && sql[close] == '*' && sql[close + 1] == '/')
      invariant index + skip <= close <= |sql|
      invariant FindClose(rest, close - index) == FindClose(rest, skip)
    {
      close := close + 1;
    }
  }

  method ScanNewline(sql: string, index: nat) returns (end: nat)
    requires index < |sql|
    requires sql[index] != '\n'
    ensures end <= |sql|
    ensures end == index + FindNewline(sql[index..], 1)
  {
    ghost var rest := sql[index..];
    end := index + 1;
    while end < |sql| && sql[end] != '\n'
      invariant index + 1 <= end <= |sql|
      invariant FindNewline(rest, end - index) == FindNewline(rest, 1)
    {
      end := end + 1;
    }
  }
}
