/** The digest of string literals (src/cmnd_linux/restore_prepare.py), and why it is kept. */
module SqlLiterals {
  import opened Bytes
  import opened Sequences
  import opened SqlLexer
  import opened SqlSpans
  import opened SqlRewrite

  /** Every region that opens with a quote, comments and backticks notwithstanding. */
  function Literals(s: string): seq<string> {
    if s == [] then []
    else if IsQuote(s[0]) then
      var n := QuotedEnd(s, 1, s[0], true);
      [s[..n]] + Literals(s[n..])
    else Literals(s[1..])
  }

  /** A literal in UTF-8 behind its length in eight bytes. */
  function Frame(literal: string): seq<Byte> {
    BigEndian(|Utf8(literal)|, 8) + Utf8(literal)
  }

  /** What is fed to the digest. */
  function Preimage(literals: seq<string>): seq<Byte> {
    if literals == [] then [] else Frame(literals[0]) + Preimage(literals[1..])
  }

  lemma FrameDecodable(a: string, x: seq<Byte>, b: string, y: seq<Byte>)
    requires Frame(a) + x == Frame(b) + y
    requires |Utf8(a)| < Power256(8) && |Utf8(b)| < Power256(8)
    ensures a == b && x == y
  {
    var u, v := Utf8(a), Utf8(b);
    Associative(BigEndian(|u|, 8), u, x);
    Associative(BigEndian(|v|, 8), v, y);
    SameHead(BigEndian(|u|, 8), u + x, BigEndian(|v|, 8), v + y);
    NumberOfBigEndian(|u|, 8);
    NumberOfBigEndian(|v|, 8);
    assert |u| == |v|;
    SameHead(u, x, v, y);
    Utf8Injective(a, b);
  }

  /** Equal digest input means equal literal lists. */
  lemma {:induction false} PreimageDecodable(xs: seq<string>, ys: seq<string>)
    requires Preimage(xs) == Preimage(ys)
    requires forall i :: 0 <= i < |xs| ==> |Utf8(xs[i])| < Power256(8)
    requires forall i :: 0 <= i < |ys| ==> |Utf8(ys[i])| < Power256(8)
    ensures xs == ys
  {
    if xs == [] || ys == [] {
      assert xs != [] ==> |Preimage(xs)| >= 8;
      assert ys != [] ==> |Preimage(ys)| >= 8;
    } else {
      FrameDecodable(xs[0], Preimage(xs[1..]), ys[0], Preimage(ys[1..]));
      PreimageDecodable(xs[1..], ys[1..]);
    }
  }

  /** The scanning loop of the program, feeding the digest as it goes. */
  method LiteralPreimage(sql: string) returns (digested: seq<Byte>)
    ensures digested == Preimage(Literals(sql))
  {
    digested := [];
    var index := 0;
    while index < |sql|
      invariant index <= |sql|
      invariant digested + Preimage(Literals(sql[index..])) == Preimage(Literals(sql))
    {
      ghost var rest := sql[index..];
      if !IsQuote(sql[index]) {
        assert rest[1..] == sql[index + 1..];
        index := index + 1;
        continue;
      }
      var end := ScanQuoted(sql, index, sql[index], true);
      var encoded := Utf8(sql[index..end]);
      SliceOfSuffix(sql, index, end);
      PreimageOfQuoted(rest, end - index);
      assert rest[end - index..] == sql[end..];
      Associative(digested, Frame(sql[index..end]), Preimage(Literals(sql[end..])));
      digested := digested + (BigEndian(|encoded|, 8) + encoded);
      index := end;
    }
    assert sql[index..] == [];
  }

  lemma PreimageOfQuoted(rest: string, n: nat)
    requires rest != [] && IsQuote(rest[0]) && n == QuotedEnd(rest, 1, rest[0], true)
    ensures Preimage(Literals(rest)) == Frame(rest[..n]) + Preimage(Literals(rest[n..]))
  {
    assert Literals(rest)[1..] == Literals(rest[n..]);
  }

  predicate QuoteFree(s: string) {
    forall i :: 0 <= i < |s| ==> !IsQuote(s[i])
  }

  /** The span holds no quote and lies outside every region read as quoted. */
  predicate Outside(s: string, a: nat, b: nat)
    requires a < b <= |s|
    decreases |s|
  {
    if IsQuote(s[0]) then
      var n := QuotedEnd(s, 1, s[0], true);
      n <= a && Outside(s[n..], a - n, b - n)
    else if a == 0 then QuoteFree(s[..b])
    else Outside(s[1..], a - 1, b - 1)
  }

  lemma {:induction false} LiteralsSkip(x: string, rest: string)
    requires QuoteFree(x)
    ensures Literals(x + rest) == Literals(rest)
  {
    if x == [] {
      assert x + rest == rest;
    } else {
      assert (x + rest)[0] == x[0];
      assert (x + rest)[1..] == x[1..] + rest;
      LiteralsSkip(x[1..], rest);
    }
  }

  lemma OutsideStart(s: string, b: nat)
    requires 0 < b <= |s| && Outside(s, 0, b)
    ensures !IsQuote(s[0]) && QuoteFree(s[..b])
  {
  }

  /** A quoted region that ends before the replacement. */
  lemma QuotedBefore(s: string, a: nat, b: nat, v: string)
    requires a < b <= |s| && IsQuote(s[0]) && QuotedEnd(s, 1, s[0], true) <= a
    requires Outside(s[QuotedEnd(s, 1, s[0], true)..], a - QuotedEnd(s, 1, s[0], true), b - QuotedEnd(s, 1, s[0], true))
    requires v != [] && QuoteFree(v)
    ensures var t := Splice(s, a, b, v); var n := QuotedEnd(s, 1, s[0], true);
            && t != [] && t[0] == s[0] && QuotedEnd(t, 1, t[0], true) == n && t[..n] == s[..n]
            && t[n..] == Splice(s[n..], a - n, b - n, v)
  {
    var t := Splice(s, a, b, v);
    var n := QuotedEnd(s, 1, s[0], true);
    SpliceTail(s, n, a, b, v);
    if n == a { OutsideStart(s[n..], b - n); }
    QuotedEndStops(s, 1, s[0], true);
    forall k | 0 <= k < a
      ensures s[k] == t[k]
    {
      assert t[..a][k] == s[..a][k];
    }
    QuotedEndStable(s, t, 1, s[0], true);
    assert t[..n] == s[..n];
  }

  lemma SpliceKeepsFirst(s: string, a: nat, b: nat, v: string)
    requires 0 < a <= b <= |s|
    ensures |Splice(s, a, b, v)| > 0 && Splice(s, a, b, v)[0] == s[0]
  {
  }

  /** One replacement outside the literals keeps them. */
  lemma {:induction false} LiteralsKeptOnce(s: string, a: nat, b: nat, v: string)
    requires a < b <= |s| && Outside(s, a, b) && v != [] && QuoteFree(v)
    ensures Literals(Splice(s, a, b, v)) == Literals(s)
    decreases |s|
  {
    hide QuotedEnd, Splice;
    if IsQuote(s[0]) {
      var n := QuotedEnd(s, 1, s[0], true);
      QuotedBefore(s, a, b, v);
      LiteralsKeptOnce(s[n..], a - n, b - n, v);
    } else if a == 0 {
      LiteralsSkip(v, s[b..]);
      LiteralsSkip(s[..b], s[b..]);
      assert s[..b] + s[b..] == s;
      SpliceHead(s, b, v, s[b..]);
    } else {
      LiteralsKeptOnce(s[1..], a - 1, b - 1, v);
      SpliceTail(s, 1, a, b, v);
      SpliceKeepsFirst(s, a, b, v);
    }
  }

  lemma {:induction false} OutsideStable(s: string, a: nat, b: nat, c: nat, d: nat, v: string)
    requires a < b <= c < d <= |s| && Outside(s, a, b) && Outside(s, c, d)
    requires v != [] && QuoteFree(v)
    ensures Outside(Splice(s, c, d, v), a, b)
    decreases |s|
  {
    hide QuotedEnd, Splice;
    var t := Splice(s, c, d, v);
    if IsQuote(s[0]) {
      var n := QuotedEnd(s, 1, s[0], true);
      QuotedBefore(s, c, d, v);
      OutsideStable(s[n..], a - n, b - n, c - n, d - n, v);
    } else {
      SpliceTail(s, 0, c, d, v);
      SpliceKeepsFirst(s, c, d, v);
      if a == 0 {
        SliceOfPrefix(s, t, c, 0, b);
      } else {
        SpliceTail(s, 1, c, d, v);
        OutsideStable(s[1..], a - 1, b - 1, c - 1, d - 1, v);
      }
    }
  }

  predicate AllOutside(s: string, spans: seq<Span>) {
    forall i :: 0 <= i < |spans| ==>
      spans[i].start < spans[i].end <= |s| && Outside(s, spans[i].start, spans[i].end)
      && spans[i].value != [] && QuoteFree(spans[i].value)
  }

  /** Rewriting any number of spans outside the literals keeps the list of literals. */
  lemma {:induction false} LiteralsKept(s: string, spans: seq<Span>)
    requires Ordered(spans, 0, |s|) && AllOutside(s, spans)
    ensures Literals(Apply(s, spans, 0)) == Literals(s)
    decreases |spans|
  {
    if spans == [] {
      assert s[0..] == s;
    } else {
      var n := |spans| - 1;
      var last := spans[n];
      OrderedBounds(spans, 0, |s|);
      ApplyLast(s, spans, 0);
      LiteralsKeptOnce(s, last.start, last.end, last.value);
      forall i | 0 <= i < n
        ensures Outside(Splice(s, last.start, last.end, last.value), spans[i].start, spans[i].end)
      {
        OutsideStable(s, spans[i].start, spans[i].end, last.start, last.end, last.value);
      }
      LiteralsKept(Splice(s, last.start, last.end, last.value), spans[..n]);
    }
  }
}
