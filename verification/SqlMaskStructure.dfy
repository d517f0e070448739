/**
 What masking keeps and what it removes, stated position by position.
 */
module SqlMaskStructure {
  import opened Text
  import opened SqlLexer

  /** How the masker reads one position. */
  datatype Region = Shown | Quoted | Hidden

  function Repeat(region: Region, n: nat): (r: seq<Region>)
    ensures |r| == n && forall i :: 0 <= i < n ==> r[i] == region
  {
    seq(n, _ => region)
  }

  function FirstRegions(lx: Lexer, s: string): (r: seq<Region>)
    requires s != []
    ensures |r| == TokenLength(s)
    decreases |s|, 0
  {
    var n := TokenLength(s);
    match Kind(s)
    case Plain => Repeat(Shown, n)
    case Identifier => Repeat(Quoted, n)
    case Executable =>
      Repeat(Hidden, lx.BodyStart(s)) + Regions(lx, lx.Body(s)) + Repeat(Hidden, n - lx.BodyEnd(s))
    case _ => Repeat(Hidden, n)
  }

  /** Plain text, backtick identifiers, and everything else. */
  function Regions(lx: Lexer, s: string): (r: seq<Region>)
    ensures |r| == |s|
    decreases |s|, 1
  {
    if s == [] then [] else FirstRegions(lx, s) + Regions(lx, s[TokenLength(s)..])
  }

  /** Hidden positions are blanked, the others kept. */
  predicate Covers(s: string, r: seq<Region>, m: string) {
    && |r| == |s| == |m|
    && forall i :: 0 <= i < |s| ==> m[i] == if r[i] == Hidden then BlankChar(s[i]) else s[i]
  }

  /** Two dashes that open a line comment. */
  predicate DashesAt(s: string, i: nat) {
    i + 1 < |s| && s[i] == '-' && s[i + 1] == '-' && (i + 2 == |s| || IsSpace(s[i + 2]))
  }

  /** Shown text holds no quote, backtick or `#`, and no comment opening. */
  predicate Inert(s: string, r: seq<Region>) {
    && |r| == |s|
    && (forall i :: 0 <= i < |s| && r[i] == Shown ==> !DashesAt(s, i))
    && (forall i :: 0 <= i < |s| && r[i] == Shown ==> !IsQuote(s[i]) && s[i] != '`' && s[i] != '#')
    && (forall i :: 0 <= i < |s| - 1 && r[i] == Shown && s[i] == '/' && s[i + 1] == '*' ==> r[i + 1] == Hidden)
  }

  lemma JoinInert(x: string, rx: seq<Region>, y: string, ry: seq<Region>)
    requires Inert(x, rx) && Inert(y, ry)
    requires x != [] && y != [] && rx[|x| - 1] == Shown && x[|x| - 1] == '/' && y[0] == '*' ==> ry[0] == Hidden
    requires x != [] && rx[|x| - 1] == Shown && x[|x| - 1] == '-' ==> !(y != [] && y[0] == '-' && (|y| == 1 || IsSpace(y[1])))
    ensures Inert(x + y, rx + ry)
  {
    var s, r := x + y, rx + ry;
    forall i | 0 <= i < |s| && r[i] == Shown ensures !DashesAt(s, i) {
      if i < |x| { assert !DashesAt(x, i); } else { assert !DashesAt(y, i - |x|); }
    }
  }

  lemma JoinCovers(x: string, rx: seq<Region>, mx: string, y: string, ry: seq<Region>, my: string)
    requires Covers(x, rx, mx) && Covers(y, ry, my)
    ensures Covers(x + y, rx + ry, mx + my)
  {
  }

  /** Text framed by two blanked parts. */
  lemma FrameStructure(x: string, y: string, ry: seq<Region>, my: string, z: string)
    requires Covers(y, ry, my) && Inert(y, ry) && (z == [] || z[0] != '-')
    ensures Covers(x + y + z, Repeat(Hidden, |x|) + ry + Repeat(Hidden, |z|), Blank(x) + my + Blank(z))
    ensures Inert(x + y + z, Repeat(Hidden, |x|) + ry + Repeat(Hidden, |z|))
  {
    JoinInert(x, Repeat(Hidden, |x|), y, ry);
    JoinInert(x + y, Repeat(Hidden, |x|) + ry, z, Repeat(Hidden, |z|));
    JoinCovers(x, Repeat(Hidden, |x|), Blank(x), y, ry, my);
    JoinCovers(x + y, Repeat(Hidden, |x|) + ry, Blank(x) + my, z, Repeat(Hidden, |z|), Blank(z));
  }

  lemma {:induction false} FirstTokenStructure(lx: Lexer, s: string)
    requires s != []
    ensures Covers(s[..TokenLength(s)], FirstRegions(lx, s), lx.MaskFirst(s))
    ensures Inert(s[..TokenLength(s)], FirstRegions(lx, s))
    decreases |s|, 0
  {
    hide Kind, TokenLength, Lexer.Mask, Lexer.MaskFirst, Lexer.Body, Lexer.BodyStart, Lexer.BodyEnd, Regions, FirstRegions, Covers, Inert, Blank;
    var n := TokenLength(s);
    if Kind(s) == Executable {
      ExecutableSlices(lx, s);
      var lo, hi := lx.BodyStart(s), lx.BodyEnd(s);
      RegionsDescribeMask(lx, lx.Body(s));
      FrameStructure(s[..lo], lx.Body(s), Regions(lx, lx.Body(s)), lx.Mask(lx.Body(s)), s[hi..n]);
    } else {
      OtherTokenStructure(lx, s);
    }
  }

  lemma ExecutableSlices(lx: Lexer, s: string)
    requires s != [] && Kind(s) == Executable
    ensures s[..TokenLength(s)] == s[..lx.BodyStart(s)] + lx.Body(s) + s[lx.BodyEnd(s)..TokenLength(s)]
    ensures var z := s[lx.BodyEnd(s)..TokenLength(s)]; z == [] || z[0] != '-'
    ensures FirstRegions(lx, s) == Repeat(Hidden, lx.BodyStart(s)) + Regions(lx, lx.Body(s)) + Repeat(Hidden, TokenLength(s) - lx.BodyEnd(s))
    ensures lx.MaskFirst(s) == Blank(s[..lx.BodyStart(s)]) + lx.Mask(lx.Body(s)) + Blank(s[lx.BodyEnd(s)..TokenLength(s)])
  {
  }

  lemma OtherTokenStructure(lx: Lexer, s: string)
    requires s != [] && Kind(s) != Executable
    ensures Covers(s[..TokenLength(s)], FirstRegions(lx, s), lx.MaskFirst(s))
    ensures Inert(s[..TokenLength(s)], FirstRegions(lx, s))
  {
  }

  lemma {:induction false} RegionsDescribeMask(lx: Lexer, s: string)
    ensures Covers(s, Regions(lx, s), lx.Mask(s))
    ensures Inert(s, Regions(lx, s))
    decreases |s|, 1
  {
    if s != [] {
      var n := TokenLength(s);
      FirstTokenStructure(lx, s);
      RegionsDescribeMask(lx, s[n..]);
      assert s == s[..n] + s[n..];
      if n < |s| { LastOfFirst(lx, s); }
      JoinInert(s[..n], FirstRegions(lx, s), s[n..], Regions(lx, s[n..]));
      JoinCovers(s[..n], FirstRegions(lx, s), lx.MaskFirst(s), s[n..], Regions(lx, s[n..]), lx.Mask(s[n..]));
    }
  }

  lemma LastOfFirst(lx: Lexer, s: string)
    requires s != [] && TokenLength(s) < |s|
    ensures var n := TokenLength(s);
            && (FirstRegions(lx, s)[n - 1] == Shown && s[n - 1] == '/' ==> s[n] != '*')
            && (FirstRegions(lx, s)[n - 1] == Shown && s[n - 1] == '-' ==>
                  !(s[n] == '-' && (|s| - n == 1 || IsSpace(s[n + 1]))))
  {
  }

  /**
   Masking keeps the length and every line break, turns each character into
   itself or a blank, and leaves no quote, backtick, `#` or comment opening
   visible outside backtick identifiers.
   */
  lemma MaskStructure(lx: Lexer, s: string)
    ensures |lx.Mask(s)| == |s|
    ensures forall i :: 0 <= i < |s| ==> lx.Mask(s)[i] == s[i] || lx.Mask(s)[i] == ' '
    ensures forall i :: 0 <= i < |s| ==> (lx.Mask(s)[i] == '\n' <==> s[i] == '\n')
    ensures forall i :: 0 <= i < |s| ==> (lx.Mask(s)[i] == '\r' <==> s[i] == '\r')
    ensures forall i :: 0 <= i < |s| && Regions(lx, s)[i] == Quoted ==> lx.Mask(s)[i] == s[i]
    ensures forall i :: 0 <= i < |s| && Regions(lx, s)[i] != Quoted ==>
              !IsQuote(lx.Mask(s)[i]) && lx.Mask(s)[i] != '`' && lx.Mask(s)[i] != '#'
    ensures forall i :: 0 <= i < |s| - 1 && Regions(lx, s)[i] != Quoted ==>
              !(lx.Mask(s)[i] == '/' && lx.Mask(s)[i + 1] == '*')
    ensures forall i :: 0 <= i < |s| && Regions(lx, s)[i] == Shown ==> !DashesAt(s, i)
  {
    RegionsDescribeMask(lx, s);
  }
}
