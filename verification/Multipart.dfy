/**
 The multipart body of a clone upload (src/cmnd_linux/clone_export.py): section
 5.1.1 of RFC 2046 with the delimiter rules of section 4.1 of RFC 7578, as far
 as the program follows them.

 The parser is a function of the body; printing is its inverse on acceptable
 parts.  The loops of the program, which also write the files of the parts,
 are at the end.
 */
module Multipart {
  import opened Sequences
  import opened Wrappers
  import opened Bytes
  import opened MultipartFormat

  const CRLF: seq<Byte> := [13, 10]
  const DASHES: seq<Byte> := [45, 45]
  const BREAK: seq<Byte> := [13, 10, 13, 10]
  const MAX_PARTS := 64
  const MAX_HEADER := 8192
  const MAX_FIELD := 65536

  /** The parts of a body in order, the last with what follows its closing delimiter. */
  datatype Body = Last(part: Part, trailer: seq<Byte>) | More(part: Part, rest: Body) {
    function Count(): (n: nat)
      ensures n >= 1
    {
      if Last? then 1 else 1 + rest.Count()
    }

    function Parts(): (r: seq<Part>)
      ensures |r| == Count()
    {
      if Last? then [part] else [part] + rest.Parts()
    }

    function Trailer(): seq<Byte> {
      if Last? then trailer else rest.Trailer()
    }
  }

  /** The first occurrence of `pattern` inside `data[start..limit]`. */
  function Find(data: seq<Byte>, pattern: seq<Byte>, start: nat, limit: nat): (r: Option<nat>)
    requires limit <= |data|
    ensures r.Some? ==> start <= r.value && r.value + |pattern| <= limit
    decreases limit - start
  {
    if start + |pattern| > limit then None
    else if Holds(data, start, pattern) then Some(start)
    else Find(data, pattern, start + 1, limit)
  }

  /** `Find` gives the first occurrence. */
  lemma {:induction false} FindFirst(data: seq<Byte>, pattern: seq<Byte>, start: nat, limit: nat, at: nat)
    requires limit <= |data| && start <= at
    ensures Find(data, pattern, start, limit) == Some(at)
            <==> && at + |pattern| <= limit && Holds(data, at, pattern)
                 && forall k :: start <= k < at ==> !Holds(data, k, pattern)
    decreases limit - start
  {
    if start + |pattern| <= limit && !Holds(data, start, pattern) {
      if start < at { FindFirst(data, pattern, start + 1, limit, at); }
    }
  }

  /** A delimiter that closes the body or opens the next part. */
  predicate AcceptedAt(data: seq<Byte>, delimiter: seq<Byte>, k: nat) {
    Holds(data, k, delimiter) && (Holds(data, k + |delimiter|, DASHES) || Holds(data, k + |delimiter|, CRLF))
  }

  function FindAccepted(data: seq<Byte>, delimiter: seq<Byte>, start: nat): (r: Option<nat>)
    ensures r.Some? ==> start <= r.value && r.value + |delimiter| + 2 <= |data|
    decreases |data| - start
  {
    if start >= |data| then None
    else if AcceptedAt(data, delimiter, start) then Some(start)
    else FindAccepted(data, delimiter, start + 1)
  }

  /** `FindAccepted` gives the first accepted delimiter. */
  lemma {:induction false} FindAcceptedFirst(data: seq<Byte>, delimiter: seq<Byte>, start: nat, at: nat)
    requires start <= at
    ensures FindAccepted(data, delimiter, start) == Some(at)
            <==> AcceptedAt(data, delimiter, at) && forall k :: start <= k < at ==> !AcceptedAt(data, delimiter, k)
    decreases |data| - start
  {
    if start < |data| && !AcceptedAt(data, delimiter, start) && start < at {
      FindAcceptedFirst(data, delimiter, start + 1, at);
    }
  }

  function Min(a: nat, b: nat): nat {
    if a <= b then a else b
  }

  predicate IsBoundaryByte(b: Byte) {
    || 48 <= b <= 57 || 65 <= b <= 90 || 97 <= b <= 122
    || b in {39, 40, 41, 43, 95, 44, 46, 47, 58, 61, 63, 45}
  }

  /**
   The parser of one request: the delimiter between its parts, the part headers
   that carry a file name, and the file contents that pass the inspection of
   the archive.
   */
  datatype Parser = Parser(delimiter: seq<Byte>, fileHeaders: set<seq<Byte>>, archives: set<seq<Byte>>) {

    /** A carriage return begins the delimiter and does not come back in it. */
    predicate ValidDelimiter() {
      && |delimiter| >= 2 && delimiter[0] == 13
      && forall j :: 0 < j < |delimiter| ==> delimiter[j] != 13
    }

    /** The checks on one part, in the program's order. */
    function CheckPart(part: Part): Option<Error> {
      if part.header in fileHeaders then (if part.content in archives then None else Some(BadArchive))
      else if |part.content| > MAX_FIELD then Some(OversizedField)
      else None
    }

    /** The part that begins at `position`, and where its delimiter ends. */
    function NextPart(data: seq<Byte>, position: nat): (r: Result<(Part, nat), Error>)
      requires position <= |data|
      ensures r.Ok? ==> position < r.value.1 && r.value.1 + 2 <= |data|
    {
      var headerEnd := Find(data, BREAK, position, Min(position + MAX_HEADER, |data|));
      if headerEnd.None? then Err(BadHeaders)
      else
        var start := headerEnd.value + 4;
        var end := FindAccepted(data, delimiter, start);
        if end.None? then Err(MissingClosing)
        else
          var part := Part(data[position..headerEnd.value], data[start..end.value]);
          if CheckPart(part).Some? then Err(CheckPart(part).value)
          else Ok((part, end.value + |delimiter|))
    }

    /** The parts from `position` on, at most `fuel` of them. */
    function ParseParts(data: seq<Byte>, position: nat, fuel: nat): Result<Body, Error>
      requires position <= |data|
      decreases fuel
    {
      if fuel == 0 then Err(TooManyParts)
      else
        match NextPart(data, position)
        case Err(error) => Err(error)
        case Ok(found) =>
          if Holds(data, found.1, DASHES) then Finish(data, found.0, found.1 + 2)
          else AddPart(found.0, ParseParts(data, found.1 + 2, fuel - 1))
    }

    function Finish(data: seq<Byte>, part: Part, position: nat): Result<Body, Error>
      requires position <= |data|
    {
      if TrailerOk(data[position..]) then Ok(Last(part, data[position..])) else Err(TrailingBytes)
    }

    function AddPart(part: Part, rest: Result<Body, Error>): Result<Body, Error> {
      if rest.Err? then rest else Ok(More(part, rest.value))
    }

    predicate HasFile(body: Body) {
      body.part.header in fileHeaders || (body.More? && HasFile(body.rest))
    }

    // ---- Printing ----

    function PrintParts(body: Body): seq<Byte> {
      match body
      case Last(part, trailer) => PrintFirst(part) + (DASHES + trailer)
      case More(part, rest) => PrintFirst(part) + (CRLF + PrintParts(rest))
    }

    function PrintFirst(part: Part): seq<Byte> {
      part.header + BREAK + part.content + delimiter
    }

    /** The blank line that ends the header is the first one, and near enough. */
    predicate HeaderOk(header: seq<Byte>) {
      |header| + 4 <= MAX_HEADER && forall k :: 0 <= k < |header| ==> !Holds(header + BREAK, k, BREAK)
    }

    /** No accepted delimiter begins inside the content. */
    predicate ContentOk(content: seq<Byte>) {
      forall k :: 0 <= k < |content| ==> !AcceptedAt(content + delimiter, delimiter, k)
    }

    predicate PartOk(part: Part) {
      HeaderOk(part.header) && ContentOk(part.content) && CheckPart(part).None?
    }

    predicate TrailerOk(trailer: seq<Byte>) {
      trailer == [] || trailer == CRLF
    }

    predicate PartsOk(body: Body) {
      PartOk(body.part) && if body.Last? then TrailerOk(body.trailer) else PartsOk(body.rest)
    }

    predicate BodyOk(body: Body) {
      body.Count() <= MAX_PARTS && PartsOk(body) && HasFile(body)
    }

    // ---- One part ----

    /** A delimiter cannot begin inside another one. */
    lemma DelimitersApart(data: seq<Byte>, k: nat, j: nat)
      requires ValidDelimiter() && 0 < j < |delimiter|
      requires Holds(data, k, delimiter)
      ensures !Holds(data, k + j, delimiter)
    {
      var d := delimiter;
      assert data[k + j] == d[j];
      assert d[j] != 13 && d[0] == 13;
    }

    lemma SameAccepted(data: seq<Byte>, start: nat, content: seq<Byte>, k: nat)
      requires ValidDelimiter() && Holds(data, start, content + delimiter) && k < |content|
      ensures AcceptedAt(data, delimiter, start + k) <==> AcceptedAt(content + delimiter, delimiter, k)
    {
      var d := delimiter;
      var framed := content + d;
      HoldsParts(data, start, content, d);
      HoldsMiddle(content, d, []);
      assert framed + [] == framed;
      var j := |content| - k;
      if j < |d| {
        assert !Holds(data, start + k, d) by {
          if Holds(data, start + k, d) { DelimitersApart(data, start + k, j); }
        }
        assert !Holds(framed, k, d) by {
          if Holds(framed, k, d) { DelimitersApart(framed, k, j); }
        }
      } else {
        HoldsWithin(data, start, framed, k, d);
        HoldsWithin(data, start, framed, k + |d|, DASHES);
        HoldsWithin(data, start, framed, k + |d|, CRLF);
      }
    }

    /** In a printed part the content stops at the first accepted delimiter. */
    lemma ContentFound(data: seq<Byte>, start: nat, content: seq<Byte>)
      requires ValidDelimiter() && Holds(data, start, content + delimiter)
      requires AcceptedAt(data, delimiter, start + |content|)
      ensures FindAccepted(data, delimiter, start) == Some(start + |content|) <==> ContentOk(content)
    {
      FindAcceptedFirst(data, delimiter, start, start + |content|);
      if ContentOk(content) {
        forall k | start <= k < start + |content|
          ensures !AcceptedAt(data, delimiter, k)
        {
          SameAccepted(data, start, content, k - start);
        }
      } else {
        var k :| 0 <= k < |content| && AcceptedAt(content + delimiter, delimiter, k);
        SameAccepted(data, start, content, k);
      }
    }

    lemma HeaderFound(data: seq<Byte>, position: nat, header: seq<Byte>)
      requires Holds(data, position, header + BREAK)
      ensures Find(data, BREAK, position, Min(position + MAX_HEADER, |data|)) == Some(position + |header|) <==> HeaderOk(header)
    {
      HoldsParts(data, position, header, BREAK);
      FindFirst(data, BREAK, position, Min(position + MAX_HEADER, |data|), position + |header|);
      if forall k :: 0 <= k < |header| ==> !Holds(header + BREAK, k, BREAK) {
        forall k | position <= k < position + |header|
          ensures !Holds(data, k, BREAK)
        {
          HoldsWithin(data, position, header + BREAK, k - position, BREAK);
        }
      } else {
        var k :| 0 <= k < |header| && Holds(header + BREAK, k, BREAK);
        HoldsWithin(data, position, header + BREAK, k, BREAK);
      }
    }

    /** The part read between the two delimiters found stands printed at `position`. */
    lemma PartRead(data: seq<Byte>, position: nat, headerEnd: nat, end: nat)
      requires position <= headerEnd && headerEnd + 4 <= end
      requires Holds(data, headerEnd, BREAK) && Holds(data, end, delimiter)
      ensures Holds(data, position, PrintFirst(Part(data[position..headerEnd], data[headerEnd + 4..end])))
    {
      var header, content := data[position..headerEnd], data[headerEnd + 4..end];
      HoldsSlice(data, position, header);
      HoldsJoin(data, position, header, BREAK);
      HoldsSlice(data, headerEnd + 4, content);
      HoldsJoin(data, position, header + BREAK, content);
      HoldsJoin(data, position, header + BREAK + content, delimiter);
    }

    lemma PartStands(data: seq<Byte>, position: nat, part: Part)
      requires Holds(data, position, PrintFirst(part))
      ensures var headerEnd := position + |part.header|; var end := headerEnd + 4 + |part.content|;
              && end + |delimiter| <= |data|
              && data[position..headerEnd] == part.header && data[headerEnd + 4..end] == part.content
              && Holds(data, position, part.header + BREAK)
              && Holds(data, headerEnd + 4, part.content + delimiter)
    {
      var start := position + |part.header| + 4;
      Associative(part.header + BREAK, part.content, delimiter);
      HoldsParts(data, position, part.header + BREAK, part.content + delimiter);
      HoldsParts(data, position, part.header, BREAK);
      HoldsParts(data, start, part.content, delimiter);
      HoldsSlice(data, position, part.header);
      HoldsSlice(data, start, part.content);
    }

    predicate Searched(data: seq<Byte>, position: nat, headerEnd: nat, end: nat)
      requires position <= |data|
    {
      && Find(data, BREAK, position, Min(position + MAX_HEADER, |data|)) == Some(headerEnd)
      && FindAccepted(data, delimiter, headerEnd + 4) == Some(end)
    }

    lemma NextPartIs(data: seq<Byte>, position: nat, headerEnd: nat, end: nat)
      requires position <= headerEnd && headerEnd + 4 <= end <= |data|
      ensures var part := Part(data[position..headerEnd], data[headerEnd + 4..end]);
              NextPart(data, position) == Ok((part, end + |delimiter|))
              <==> Searched(data, position, headerEnd, end) && CheckPart(part).None?
    {
    }

    lemma PartSearched(data: seq<Byte>, position: nat, header: seq<Byte>, content: seq<Byte>)
      requires ValidDelimiter() && position <= |data|
      requires Holds(data, position, header + BREAK)
      requires Holds(data, position + |header| + 4, content + delimiter)
      requires AcceptedAt(data, delimiter, position + |header| + 4 + |content|)
      ensures Searched(data, position, position + |header|, position + |header| + 4 + |content|)
              <==> HeaderOk(header) && ContentOk(content)
    {
      HeaderFound(data, position, header);
      ContentFound(data, position + |header| + 4, content);
    }

    lemma PartAccepted(data: seq<Byte>, position: nat, part: Part)
      requires Holds(data, position, PrintFirst(part))
      requires Holds(data, position + |PrintFirst(part)|, DASHES) || Holds(data, position + |PrintFirst(part)|, CRLF)
      ensures AcceptedAt(data, delimiter, position + |part.header| + 4 + |part.content|)
    {
      var start := position + |part.header| + 4;
      PartStands(data, position, part);
      HoldsParts(data, start, part.content, delimiter);
    }

    /** A printed part is found again exactly when it is acceptable. */
    lemma PartFound(data: seq<Byte>, position: nat, part: Part)
      requires ValidDelimiter() && position <= |data| && Holds(data, position, PrintFirst(part))
      requires Holds(data, position + |PrintFirst(part)|, DASHES) || Holds(data, position + |PrintFirst(part)|, CRLF)
      ensures NextPart(data, position) == Ok((part, position + |PrintFirst(part)|)) <==> PartOk(part)
    {
      PartStands(data, position, part);
      PartAccepted(data, position, part);
      StandingPartFound(data, position, part);
    }

    lemma StandingPartFound(data: seq<Byte>, position: nat, part: Part)
      requires ValidDelimiter() && position <= |data|
      requires var headerEnd := position + |part.header|; var end := headerEnd + 4 + |part.content|;
               && end <= |data| && AcceptedAt(data, delimiter, end)
               && data[position..headerEnd] == part.header && data[headerEnd + 4..end] == part.content
               && Holds(data, position, part.header + BREAK) && Holds(data, headerEnd + 4, part.content + delimiter)
      ensures NextPart(data, position) == Ok((part, position + |PrintFirst(part)|)) <==> PartOk(part)
    {
      hide NextPart, AcceptedAt, Holds, Find, FindAccepted, ValidDelimiter;
      var headerEnd := position + |part.header|;
      PartSearched(data, position, part.header, part.content);
      NextPartIs(data, position, headerEnd, headerEnd + 4 + |part.content|);
    }

    lemma PartAt(data: seq<Byte>, position: nat) returns (headerEnd: nat, end: nat)
      requires position <= |data| && NextPart(data, position).Ok?
      ensures Find(data, BREAK, position, Min(position + MAX_HEADER, |data|)) == Some(headerEnd)
      ensures FindAccepted(data, delimiter, headerEnd + 4) == Some(end)
      ensures position <= headerEnd && headerEnd + 4 <= end <= |data|
      ensures NextPart(data, position).value == (Part(data[position..headerEnd], data[headerEnd + 4..end]), end + |delimiter|)
    {
      headerEnd := Find(data, BREAK, position, Min(position + MAX_HEADER, |data|)).value;
      end := FindAccepted(data, delimiter, headerEnd + 4).value;
    }

    lemma PartReads(data: seq<Byte>, position: nat)
      requires ValidDelimiter() && position <= |data| && NextPart(data, position).Ok?
      ensures var found := NextPart(data, position).value;
              && PartOk(found.0) && Holds(data, position, PrintFirst(found.0))
              && found.1 == position + |PrintFirst(found.0)|
              && (Holds(data, found.1, DASHES) || Holds(data, found.1, CRLF))
    {
      hide Find, FindAccepted, PartOk, Holds, NextPart, ValidDelimiter;
      var headerEnd, end := PartAt(data, position);
      FindFirst(data, BREAK, position, Min(position + MAX_HEADER, |data|), headerEnd);
      FindAcceptedFirst(data, delimiter, headerEnd + 4, end);
      PartRead(data, position, headerEnd, end);
      PartFound(data, position, NextPart(data, position).value.0);
    }

    // ---- Parsing and printing are inverse ----

    /** The data from `position` on is exactly this body printed. */
    predicate PrintedAt(data: seq<Byte>, position: nat, body: Body) {
      Holds(data, position, PrintParts(body)) && position + |PrintParts(body)| == |data|
    }

    lemma PrintedLast(data: seq<Byte>, position: nat, part: Part, trailer: seq<Byte>)
      ensures PrintedAt(data, position, Last(part, trailer))
              <==> && Holds(data, position, PrintFirst(part))
                   && Holds(data, position + |PrintFirst(part)|, DASHES)
                   && data[position + |PrintFirst(part)| + 2..] == trailer
    {
      var next := position + |PrintFirst(part)|;
      if PrintedAt(data, position, Last(part, trailer)) {
        HoldsParts(data, position, PrintFirst(part), DASHES + trailer);
        HoldsParts(data, next, DASHES, trailer);
        HoldsSlice(data, next + 2, trailer);
      } else if && Holds(data, position, PrintFirst(part))
                && Holds(data, next, DASHES) && data[next + 2..] == trailer {
        HoldsSlice(data, next + 2, trailer);
        HoldsJoin(data, next, DASHES, trailer);
        HoldsJoin(data, position, PrintFirst(part), DASHES + trailer);
      }
    }

    lemma PrintedMore(data: seq<Byte>, position: nat, part: Part, rest: Body)
      ensures PrintedAt(data, position, More(part, rest))
              <==> && Holds(data, position, PrintFirst(part))
                   && Holds(data, position + |PrintFirst(part)|, CRLF)
                   && PrintedAt(data, position + |PrintFirst(part)| + 2, rest)
      ensures PrintedAt(data, position, More(part, rest)) ==> position + |PrintFirst(part)| + 2 <= |data|
    {
      var next := position + |PrintFirst(part)|;
      if PrintedAt(data, position, More(part, rest)) {
        HoldsParts(data, position, PrintFirst(part), CRLF + PrintParts(rest));
        HoldsParts(data, next, CRLF, PrintParts(rest));
      } else if && Holds(data, position, PrintFirst(part)) && Holds(data, next, CRLF) && PrintedAt(data, next + 2, rest) {
        HoldsJoin(data, next, CRLF, PrintParts(rest));
        HoldsJoin(data, position, PrintFirst(part), CRLF + PrintParts(rest));
      }
    }

    lemma NotBoth(data: seq<Byte>, at: nat)
      ensures !(Holds(data, at, DASHES) && Holds(data, at, CRLF))
    {
      if Holds(data, at, CRLF) {
        assert data[at + 0] == CRLF[0];
        assert CRLF[0] != DASHES[0];
      }
    }

    predicate Accounts(data: seq<Byte>, position: nat, fuel: nat, body: Body) {
      PartsOk(body) && body.Count() <= fuel && PrintedAt(data, position, body)
    }

    lemma LastPrinted(data: seq<Byte>, position: nat, fuel: nat, part: Part, next: nat)
      requires ValidDelimiter() && fuel > 0 && position <= |data| && NextPart(data, position) == Ok((part, next))
      requires Holds(data, next, DASHES) && TrailerOk(data[next + 2..])
      ensures Accounts(data, position, fuel, Last(part, data[next + 2..]))
    {
      PartReads(data, position);
      PrintedLast(data, position, part, data[next + 2..]);
    }

    lemma MorePrinted(data: seq<Byte>, position: nat, fuel: nat, part: Part, next: nat, rest: Body)
      requires ValidDelimiter() && fuel > 0 && position <= |data| && NextPart(data, position) == Ok((part, next))
      requires !Holds(data, next, DASHES) && Accounts(data, next + 2, fuel - 1, rest)
      ensures Accounts(data, position, fuel, More(part, rest))
    {
      hide NextPart, Holds, ParseParts, PartOk, PrintFirst, PrintedAt, ValidDelimiter;
      PartReads(data, position);
      PrintedMore(data, position, part, rest);
    }

    lemma ParseUnfold(data: seq<Byte>, position: nat, fuel: nat, body: Body)
      requires position <= |data| && ParseParts(data, position, fuel) == Ok(body)
      ensures fuel > 0 && NextPart(data, position).Ok?
      ensures var found := NextPart(data, position).value;
              && body.part == found.0
              && (body.Last? ==> Holds(data, found.1, DASHES) && body.trailer == data[found.1 + 2..] && TrailerOk(body.trailer))
              && (body.More? ==> !Holds(data, found.1, DASHES) && ParseParts(data, found.1 + 2, fuel - 1) == Ok(body.rest))
    {
    }

    /** What the parser accepts is its result printed, and every part of it is acceptable. */
    lemma {:induction false} ParsePrinted(data: seq<Byte>, position: nat, fuel: nat, body: Body)
      requires ValidDelimiter() && position <= |data| && ParseParts(data, position, fuel) == Ok(body)
      ensures Accounts(data, position, fuel, body)
      decreases fuel
    {
      hide NextPart, ParseParts, Holds, Accounts, TrailerOk;
      ParseUnfold(data, position, fuel, body);
      var next := NextPart(data, position).value.1;
      match body
      case Last(part, _) =>
        LastPrinted(data, position, fuel, part, next);
      case More(part, rest) =>
        ParsePrinted(data, next + 2, fuel - 1, rest);
        MorePrinted(data, position, fuel, part, next, rest);
    }

    lemma LastParses(data: seq<Byte>, position: nat, part: Part, trailer: seq<Byte>, fuel: nat)
      requires ValidDelimiter() && position <= |data| && fuel > 0
      requires PartOk(part) && TrailerOk(trailer) && PrintedAt(data, position, Last(part, trailer))
      ensures ParseParts(data, position, fuel) == Ok(Last(part, trailer))
    {
      PrintedLast(data, position, part, trailer);
      PartFound(data, position, part);
    }

    lemma ParseFold(data: seq<Byte>, position: nat, fuel: nat, part: Part, next: nat, rest: Body)
      requires fuel > 0 && position <= |data| && NextPart(data, position) == Ok((part, next))
      requires !Holds(data, next, DASHES) && ParseParts(data, next + 2, fuel - 1) == Ok(rest)
      ensures ParseParts(data, position, fuel) == Ok(More(part, rest))
    {
      hide NextPart, Holds;
    }

    lemma MoreParses(data: seq<Byte>, position: nat, part: Part, next: nat, rest: Body, fuel: nat)
      requires ValidDelimiter() && position <= |data| && fuel > 0
      requires PartOk(part) && Holds(data, position, PrintFirst(part)) && next == position + |PrintFirst(part)|
      requires Holds(data, next, CRLF) && ParseParts(data, next + 2, fuel - 1) == Ok(rest)
      ensures ParseParts(data, position, fuel) == Ok(More(part, rest))
    {
      hide ParseParts, PartOk, ValidDelimiter, Holds, NextPart;
      PartFound(data, position, part);
      NotBoth(data, next);
      ParseFold(data, position, fuel, part, next, rest);
    }

    /** Acceptable parts, printed, parse back to themselves. */
    lemma {:induction false} PrintedParses(data: seq<Byte>, position: nat, body: Body, fuel: nat)
      requires ValidDelimiter() && position <= |data|
      requires PartsOk(body) && body.Count() <= fuel && PrintedAt(data, position, body)
      ensures ParseParts(data, position, fuel) == Ok(body)
      decreases fuel
    {
      hide ParseParts, PrintedAt, PrintFirst, PartOk, TrailerOk, ValidDelimiter, Holds, NextPart;
      match body
      case Last(part, trailer) =>
        LastParses(data, position, part, trailer, fuel);
      case More(part, rest) =>
        PrintedMore(data, position, part, rest);
        var next := position + |PrintFirst(part)|;
        PrintedParses(data, next + 2, rest, fuel - 1);
        MoreParses(data, position, part, next, rest, fuel);
    }
  }

  // ---- The whole body ----

  predicate ValidBoundary(boundary: seq<Byte>) {
    1 <= |boundary| <= 70 && forall i :: 0 <= i < |boundary| ==> IsBoundaryByte(boundary[i])
  }

  function Opening(boundary: seq<Byte>): seq<Byte> {
    DASHES + boundary + CRLF
  }

  function Delimiter(boundary: seq<Byte>): seq<Byte> {
    CRLF + DASHES + boundary
  }

  lemma DelimiterValid(parser: Parser, boundary: seq<Byte>)
    requires ValidBoundary(boundary) && parser.delimiter == Delimiter(boundary)
    ensures parser.ValidDelimiter()
  {
    var d := parser.delimiter;
    forall j | 0 < j < |d|
      ensures d[j] != 13
    {
      if j >= 4 { assert d[j] == boundary[j - 4]; }
    }
  }

  function Parse(data: seq<Byte>, boundary: seq<Byte>, parser: Parser): Result<Body, Error> {
    if !ValidBoundary(boundary) then Err(InvalidBoundary)
    else if !Holds(data, 0, Opening(boundary)) then Err(MissingOpening)
    else
      match parser.ParseParts(data, |Opening(boundary)|, MAX_PARTS)
      case Err(error) => Err(error)
      case Ok(body) => if parser.HasFile(body) then Ok(body) else Err(NoFiles)
  }

  function Print(body: Body, boundary: seq<Byte>, parser: Parser): seq<Byte> {
    Opening(boundary) + parser.PrintParts(body)
  }

  lemma PrintedWhole(data: seq<Byte>, opening: seq<Byte>, parser: Parser, body: Body)
    ensures data == opening + parser.PrintParts(body)
            <==> Holds(data, 0, opening) && parser.PrintedAt(data, |opening|, body)
  {
    var printed := parser.PrintParts(body);
    HoldsAll(data, opening + printed);
    if data == opening + printed {
      HoldsParts(data, 0, opening, printed);
    } else if Holds(data, 0, opening) && parser.PrintedAt(data, |opening|, body) {
      HoldsJoin(data, 0, opening, printed);
    }
  }

  /**
   The parser accepts exactly the printed bodies of 1 to 64 acceptable parts
   with at least one file, and returns those parts: nothing is lost, and
   nothing printed is misread.
   */
  lemma ParseIsInverseOfPrint(data: seq<Byte>, boundary: seq<Byte>, parser: Parser, body: Body)
    requires ValidBoundary(boundary) && parser.delimiter == Delimiter(boundary)
    ensures Parse(data, boundary, parser) == Ok(body) <==> parser.BodyOk(body) && data == Print(body, boundary, parser)
  {
    var opening := Opening(boundary);
    DelimiterValid(parser, boundary);
    PrintedWhole(data, opening, parser, body);
    if Parse(data, boundary, parser) == Ok(body) {
      parser.ParsePrinted(data, |opening|, MAX_PARTS, body);
    }
    if parser.BodyOk(body) && data == Print(body, boundary, parser) {
      parser.PrintedParses(data, |opening|, body, MAX_PARTS);
    }
  }

  // ---- The parser accepts and refuses what the format says ----

  function Inspecting(parser: Parser): Inspection { Inspection(parser.fileHeaders, parser.archives) }

  lemma SameDelimiter(parser: Parser, boundary: seq<Byte>, data: seq<Byte>, k: nat)
    requires parser.delimiter == Delimiter(boundary)
    ensures parser.delimiter == [13, 10, 45, 45] + boundary
    ensures AcceptedAt(data, parser.delimiter, k) <==> DelimiterAt(data, boundary, k)
  {
    assert parser.delimiter == [13, 10, 45, 45] + boundary;
  }

  lemma SameForm(parser: Parser, boundary: seq<Byte>, part: Part)
    requires parser.delimiter == Delimiter(boundary)
    ensures parser.PrintFirst(part) == WirePart(boundary, part)
    ensures parser.HeaderOk(part.header) && parser.ContentOk(part.content) <==> Fits(boundary, part)
    ensures parser.CheckPart(part).None? <==> Passes(part, Inspecting(parser))
  {
    hide AcceptedAt, DelimiterAt, Holds;
    SameDelimiter(parser, boundary, [], 0);
    forall k | 0 <= k < |part.content|
      ensures AcceptedAt(part.content + parser.delimiter, parser.delimiter, k)
              <==> DelimiterAt(part.content + ([13, 10, 45, 45] + boundary), boundary, k)
    {
      SameDelimiter(parser, boundary, part.content + parser.delimiter, k);
    }
  }

  /** The search finds exactly the part that stands there. */
  lemma StandsSearched(parser: Parser, boundary: seq<Byte>, data: seq<Byte>, q: nat, part: Part)
    requires parser.delimiter == Delimiter(boundary) && parser.ValidDelimiter() && q <= |data|
    requires StandsAt(data, q, boundary, part)
    ensures var headerEnd := q + |part.header|; var end := headerEnd + 4 + |part.content|;
            && end <= |data| && parser.Searched(data, q, headerEnd, end)
            && data[q..headerEnd] == part.header && data[headerEnd + 4..end] == part.content
  {
    hide AcceptedAt, DelimiterAt, Holds, Find, FindAccepted, Parser.ValidDelimiter;
    SameForm(parser, boundary, part);
    SameDelimiter(parser, boundary, data, q + |part.header| + 4 + |part.content|);
    parser.PartStands(data, q, part);
    parser.PartSearched(data, q, part.header, part.content);
  }

  lemma SearchedStands(parser: Parser, boundary: seq<Byte>, data: seq<Byte>, q: nat, headerEnd: nat, end: nat)
    requires parser.delimiter == Delimiter(boundary) && parser.ValidDelimiter()
    requires q <= headerEnd && headerEnd + 4 <= end <= |data| && parser.Searched(data, q, headerEnd, end)
    ensures StandsAt(data, q, boundary, Part(data[q..headerEnd], data[headerEnd + 4..end]))
  {
    hide AcceptedAt, DelimiterAt, Holds, Find, FindAccepted, Parser.ValidDelimiter;
    var part := Part(data[q..headerEnd], data[headerEnd + 4..end]);
    FindFirst(data, BREAK, q, Min(q + MAX_HEADER, |data|), headerEnd);
    FindAcceptedFirst(data, parser.delimiter, headerEnd + 4, end);
    AcceptedHolds(data, parser.delimiter, end);
    parser.PartRead(data, q, headerEnd, end);
    SameForm(parser, boundary, part);
    SameDelimiter(parser, boundary, data, end);
    parser.PartStands(data, q, part);
    parser.PartSearched(data, q, part.header, part.content);
  }

  lemma AcceptedHolds(data: seq<Byte>, delimiter: seq<Byte>, k: nat)
    requires AcceptedAt(data, delimiter, k)
    ensures Holds(data, k, delimiter)
  {
  }

  /** One part is read exactly when it stands there and passes. */
  lemma NextPasses(parser: Parser, boundary: seq<Byte>, data: seq<Byte>, q: nat, part: Part, next: nat)
    requires parser.delimiter == Delimiter(boundary) && parser.ValidDelimiter() && q <= |data|
    ensures parser.NextPart(data, q) == Ok((part, next))
            <==> StandsAt(data, q, boundary, part) && Passes(part, Inspecting(parser)) && next == q + |WirePart(boundary, part)|
  {
    hide AcceptedAt, DelimiterAt, Holds, Find, FindAccepted, Parser.NextPart, Parser.ValidDelimiter, StandsAt, Passes, Parser.CheckPart;
    SameForm(parser, boundary, part);
    WireLength(parser, boundary, part);
    if parser.NextPart(data, q) == Ok((part, next)) {
      var headerEnd, end := parser.PartAt(data, q);
      SearchedStands(parser, boundary, data, q, headerEnd, end);
      parser.NextPartIs(data, q, headerEnd, end);
    }
    if StandsAt(data, q, boundary, part) && Passes(part, Inspecting(parser)) {
      StandsSearched(parser, boundary, data, q, part);
      parser.NextPartIs(data, q, q + |part.header|, q + |part.header| + 4 + |part.content|);
    }
  }

  lemma WireLength(parser: Parser, boundary: seq<Byte>, part: Part)
    requires parser.delimiter == Delimiter(boundary)
    ensures |WirePart(boundary, part)| == |part.header| + 4 + |part.content| + |parser.delimiter|
  {
  }

  lemma HeaderMissing(data: seq<Byte>, q: nat)
    requires q <= |data|
    ensures Find(data, BREAK, q, Min(q + MAX_HEADER, |data|)).None?
            <==> forall k :: q <= k && k + 4 <= q + 8192 ==> !Holds(data, k, [13, 10, 13, 10])
  {
    var found := Find(data, BREAK, q, Min(q + MAX_HEADER, |data|));
    if found.Some? {
      FindFirst(data, BREAK, q, Min(q + MAX_HEADER, |data|), found.value);
    } else {
      forall k | q <= k && k + 4 <= q + 8192 ensures !Holds(data, k, BREAK) {
        if Holds(data, k, BREAK) { FindSome(data, BREAK, q, Min(q + MAX_HEADER, |data|), k); }
      }
    }
  }

  lemma {:induction false} FindSome(data: seq<Byte>, pattern: seq<Byte>, start: nat, limit: nat, k: nat)
    requires limit <= |data| && start <= k && k + |pattern| <= limit && Holds(data, k, pattern)
    ensures Find(data, pattern, start, limit).Some?
    decreases k - start
  {
    if start < k { FindSome(data, pattern, start + 1, limit, k); }
  }

  lemma HeaderEndIs(data: seq<Byte>, q: nat, h: nat)
    requires q <= |data|
    ensures Find(data, BREAK, q, Min(q + MAX_HEADER, |data|)) == Some(h) <==> EmptyLineAt(data, q, h)
  {
    if q <= h { FindFirst(data, BREAK, q, Min(q + MAX_HEADER, |data|), h); }
  }

  lemma {:induction false} NoneAccepted(data: seq<Byte>, delimiter: seq<Byte>, start: nat)
    ensures FindAccepted(data, delimiter, start).None? <==> forall k :: k >= start ==> !AcceptedAt(data, delimiter, k)
    decreases |data| - start
  {
    if start < |data| && !AcceptedAt(data, delimiter, start) { NoneAccepted(data, delimiter, start + 1); }
  }

  lemma ClosingMissing(parser: Parser, boundary: seq<Byte>, data: seq<Byte>, start: nat)
    requires parser.delimiter == Delimiter(boundary)
    ensures FindAccepted(data, parser.delimiter, start).None? <==> forall k :: k >= start ==> !DelimiterAt(data, boundary, k)
  {
    hide AcceptedAt, DelimiterAt, FindAccepted;
    NoneAccepted(data, parser.delimiter, start);
    forall k: nat ensures AcceptedAt(data, parser.delimiter, k) <==> DelimiterAt(data, boundary, k) {
      SameDelimiter(parser, boundary, data, k);
    }
  }

  /** How the search at `q` ends: without a header, without a delimiter, or with a part. */
  lemma NextPartSearched(parser: Parser, boundary: seq<Byte>, data: seq<Byte>, q: nat) returns (h: nat, part: Option<Part>)
    requires parser.delimiter == Delimiter(boundary) && parser.ValidDelimiter() && q <= |data|
    ensures parser.NextPart(data, q) == Err(BadHeaders) <==> PartRefused(data, q, boundary, Inspecting(parser), BadHeaders)
    ensures parser.NextPart(data, q) != Err(BadHeaders) ==> EmptyLineAt(data, q, h)
    ensures parser.NextPart(data, q) == Err(MissingClosing)
            <==> EmptyLineAt(data, q, h) && forall k :: k >= h + 4 ==> !DelimiterAt(data, boundary, k)
    ensures part.Some? <==> parser.NextPart(data, q) != Err(BadHeaders) && parser.NextPart(data, q) != Err(MissingClosing)
    ensures part.Some? ==> StandsAt(data, q, boundary, part.value)
    ensures part.Some? ==>
              var check := parser.CheckPart(part.value);
              parser.NextPart(data, q) == if check.Some? then Err(check.value) else Ok((part.value, q + |WirePart(boundary, part.value)|))
  {
    hide AcceptedAt, DelimiterAt, Holds, Find, FindAccepted, Parser.ValidDelimiter, StandsAt;
    HeaderMissing(data, q);
    var found := Find(data, BREAK, q, Min(q + MAX_HEADER, |data|));
    h, part := 0, None;
    if found.Some? {
      h := found.value;
      HeaderEndIs(data, q, h);
      ClosingMissing(parser, boundary, data, h + 4);
      var end := FindAccepted(data, parser.delimiter, h + 4);
      if end.Some? {
        part := Some(Part(data[q..h], data[h + 4..end.value]));
        SearchedStands(parser, boundary, data, q, h, end.value);
        WireLength(parser, boundary, part.value);
      }
    } else {
      forall k ensures !EmptyLineAt(data, q, k) { HeaderEndIs(data, q, k); }
    }
  }

  /** At most one part stands at a place. */
  lemma StandsOnce(parser: Parser, boundary: seq<Byte>, data: seq<Byte>, q: nat, x: Part, y: Part)
    requires parser.delimiter == Delimiter(boundary) && parser.ValidDelimiter() && q <= |data|
    requires StandsAt(data, q, boundary, x) && StandsAt(data, q, boundary, y)
    ensures x == y
    ensures parser.NextPart(data, q) != Err(BadHeaders) && parser.NextPart(data, q) != Err(MissingClosing)
  {
    hide StandsAt, Parser.ValidDelimiter, Find, FindAccepted;
    StandsSearched(parser, boundary, data, q, x);
    StandsSearched(parser, boundary, data, q, y);
  }
  lemma EmptyLineOnce(data: seq<Byte>, q: nat, h: nat, k: nat)
    requires EmptyLineAt(data, q, h) && EmptyLineAt(data, q, k)
    ensures h == k
  {
  }

  /** One part is refused exactly as the format says. */
  lemma NextRefused(parser: Parser, boundary: seq<Byte>, data: seq<Byte>, q: nat, e: Error)
    requires parser.delimiter == Delimiter(boundary) && parser.ValidDelimiter() && q <= |data|
    ensures parser.NextPart(data, q) == Err(e) <==> PartRefused(data, q, boundary, Inspecting(parser), e)
  {
    hide StandsAt, Parser.ValidDelimiter, Parser.NextPart, EmptyLineAt, DelimiterAt, Holds;
    var i := Inspecting(parser);
    var h, part := NextPartSearched(parser, boundary, data, q);
    forall k | EmptyLineAt(data, q, k) && EmptyLineAt(data, q, h) ensures k == h { EmptyLineOnce(data, q, h, k); }
    if parser.NextPart(data, q) == Err(BadHeaders) {
      forall k ensures !EmptyLineAt(data, q, k) { NoEmptyLine(data, q, k, boundary, i); }
    }
    forall other | StandsAt(data, q, boundary, other) ensures part == Some(other) {
      StandsOnce(parser, boundary, data, q, other, other);
      StandsOnce(parser, boundary, data, q, other, part.value);
    }
    if part.Some? { assert StandsAt(data, q, boundary, part.value); }
  }

  lemma NoEmptyLine(data: seq<Byte>, q: nat, k: nat, boundary: seq<Byte>, i: Inspection)
    requires PartRefused(data, q, boundary, i, BadHeaders)
    ensures !EmptyLineAt(data, q, k)
  {
  }

  /** The parts are refused exactly as the format says. */
  lemma {:induction false} RefusedExactly(parser: Parser, boundary: seq<Byte>, data: seq<Byte>, q: nat, fuel: nat, e: Error)
    requires parser.delimiter == Delimiter(boundary) && parser.ValidDelimiter() && q <= |data|
    ensures parser.ParseParts(data, q, fuel) == Err(e) <==> PartsRefused(data, q, boundary, Inspecting(parser), fuel, e)
    decreases fuel
  {
    hide StandsAt, Parser.ValidDelimiter, Parser.NextPart, PartRefused, Holds, TrailerFits, Parser.TrailerOk, Passes;
    if fuel > 0 {
      NextRefused(parser, boundary, data, q, e);
      forall part | StandsAt(data, q, boundary, part) && Passes(part, Inspecting(parser))
        ensures parser.NextPart(data, q) == Ok((part, q + |WirePart(boundary, part)|))
      {
        NextPasses(parser, boundary, data, q, part, q + |WirePart(boundary, part)|);
      }
      if parser.NextPart(data, q).Ok? {
        var found := parser.NextPart(data, q).value;
        NextPasses(parser, boundary, data, q, found.0, found.1);
        if Holds(data, found.1, DASHES) {
          SameTrailer(parser, data[found.1 + 2..]);
        } else {
          RefusedExactly(parser, boundary, data, found.1 + 2, fuel - 1, e);
        }
      }
    }
  }

  lemma SameTrailer(parser: Parser, trailer: seq<Byte>)
    ensures parser.TrailerOk(trailer) <==> TrailerFits(trailer)
  {
  }

  // ---- The whole upload ----

  lemma SameBoundary(boundary: seq<Byte>)
    ensures ValidBoundary(boundary) <==> BoundaryOk(boundary)
    ensures Opening(boundary) == [45, 45] + boundary + [13, 10]
  {
    forall b: Byte ensures IsBoundaryByte(b) <==> BoundaryChar(b as char) { SameByte(b); }
    if BoundaryOk(boundary) {
      forall k | 0 <= k < |boundary| ensures IsBoundaryByte(boundary[k]) { assert boundary[k] in boundary; }
    }
    if ValidBoundary(boundary) {
      forall b <- boundary ensures IsBoundaryByte(b) { }
    }
  }

  lemma SameByte(b: Byte)
    ensures IsBoundaryByte(b) <==> BoundaryChar(b as char)
  {
  }

  /** The body with these parts. */
  function BodyOf(parts: seq<Part>, trailer: seq<Byte>): (r: Body)
    requires parts != []
    ensures r.Parts() == parts && r.Trailer() == trailer
  {
    if |parts| == 1 then Last(parts[0], trailer) else More(parts[0], BodyOf(parts[1..], trailer))
  }

  lemma {:induction false} SamePrint(parser: Parser, boundary: seq<Byte>, body: Body)
    requires parser.delimiter == Delimiter(boundary)
    ensures parser.PrintParts(body) == WireParts(boundary, body.Parts(), body.Trailer())
  {
    hide WirePart, Parser.PrintFirst;
    SameForm(parser, boundary, body.part);
    if body.More? {
      SamePrint(parser, boundary, body.rest);
      assert body.Parts()[1..] == body.rest.Parts();
    }
  }

  lemma PartsCons(boundary: seq<Byte>, i: Inspection, part: Part, rest: seq<Part>)
    ensures AllPass(boundary, i, [part] + rest) <==> Fits(boundary, part) && Passes(part, i) && AllPass(boundary, i, rest)
    ensures SomeFile(i, [part] + rest) <==> part.header in i.fileHeaders || SomeFile(i, rest)
  {
    hide Fits, Passes;
    var parts := [part] + rest;
    assert parts[0] == part;
    forall k | 0 <= k < |rest| ensures parts[k + 1] == rest[k] {}
    if SomeFile(i, rest) {
      var k :| 0 <= k < |rest| && rest[k].header in i.fileHeaders;
      assert parts[k + 1].header in i.fileHeaders;
    }
  }

  lemma {:induction false} SameParts(parser: Parser, boundary: seq<Byte>, body: Body)
    requires parser.delimiter == Delimiter(boundary)
    ensures parser.PartsOk(body) <==> TrailerFits(body.Trailer()) && AllPass(boundary, Inspecting(parser), body.Parts())
    ensures parser.HasFile(body) <==> SomeFile(Inspecting(parser), body.Parts())
  {
    hide Fits, Passes, Parser.HeaderOk, Parser.ContentOk, Parser.CheckPart, AllPass, SomeFile, Parser.TrailerOk;
    var i := Inspecting(parser);
    SameForm(parser, boundary, body.part);
    if body.More? {
      SameParts(parser, boundary, body.rest);
      PartsCons(boundary, i, body.part, body.rest.Parts());
    } else {
      SameTrailer(parser, body.trailer);
      PartsCons(boundary, i, body.part, []);
      assert [body.part] + [] == [body.part];
      NoPart(boundary, i);
    }
  }

  lemma NoPart(boundary: seq<Byte>, i: Inspection)
    ensures AllPass(boundary, i, []) && !SomeFile(i, [])
  {
  }

  lemma SameWhole(parser: Parser, boundary: seq<Byte>, body: Body)
    requires parser.delimiter == Delimiter(boundary)
    ensures Print(body, boundary, parser) == Wire(boundary, body.Parts(), body.Trailer())
  {
    hide WireParts, Parser.PrintParts;
    SamePrint(parser, boundary, body);
    SameBoundary(boundary);
  }

  /** An upload is accepted with exactly the parts it is made of. */
  lemma AcceptedExactly(data: seq<Byte>, boundary: seq<Byte>, parser: Parser, body: Body)
    requires parser.delimiter == Delimiter(boundary)
    ensures Parse(data, boundary, parser) == Ok(body) <==> Accepts(data, boundary, Inspecting(parser), body.Parts(), body.Trailer())
  {
    hide Fits, Passes, Wire, Print, Parser.PartsOk, Parser.HasFile, Parser.ParseParts;
    SameBoundary(boundary);
    SameParts(parser, boundary, body);
    SameWhole(parser, boundary, body);
    if ValidBoundary(boundary) { ParseIsInverseOfPrint(data, boundary, parser, body); }
  }

  /** An upload without a file is found as such when its parts are acceptable. */
  lemma NoFilesExactly(data: seq<Byte>, boundary: seq<Byte>, parser: Parser)
    requires parser.delimiter == Delimiter(boundary) && ValidBoundary(boundary) && Holds(data, 0, Opening(boundary))
    ensures (exists body :: parser.ParseParts(data, |Opening(boundary)|, MAX_PARTS) == Ok(body) && !parser.HasFile(body))
            <==> exists parts: seq<Part>, trailer: seq<Byte> :: NoFileParts(data, boundary, Inspecting(parser), parts, trailer)
  {
    hide Fits, Passes, Wire, Parser.PartsOk, Parser.HasFile, Parser.ParseParts, Parser.PrintedAt, Parser.PrintParts;
    var q := |Opening(boundary)|;
    DelimiterValid(parser, boundary);
    forall body | parser.ParseParts(data, q, MAX_PARTS) == Ok(body) && !parser.HasFile(body)
      ensures NoFileParts(data, boundary, Inspecting(parser), body.Parts(), body.Trailer())
    {
      parser.ParsePrinted(data, q, MAX_PARTS, body);
      PrintedWhole(data, Opening(boundary), parser, body);
      SameParts(parser, boundary, body);
      SameWhole(parser, boundary, body);
    }
    forall parts: seq<Part>, trailer: seq<Byte> | NoFileParts(data, boundary, Inspecting(parser), parts, trailer)
      ensures exists body :: parser.ParseParts(data, q, MAX_PARTS) == Ok(body) && !parser.HasFile(body)
    {
      var body := BodyOf(parts, trailer);
      SameParts(parser, boundary, body);
      SameWhole(parser, boundary, body);
      PrintedWhole(data, Opening(boundary), parser, body);
      parser.PrintedParses(data, q, body, MAX_PARTS);
    }
  }

  lemma {:induction false} NeverNoFiles(parser: Parser, data: seq<Byte>, q: nat, fuel: nat)
    requires q <= |data|
    ensures parser.ParseParts(data, q, fuel) != Err(NoFiles)
    decreases fuel
  {
    hide Holds, Find, FindAccepted;
    if fuel > 0 && parser.NextPart(data, q).Ok? {
      var next := parser.NextPart(data, q).value.1;
      NeverNoFiles(parser, data, next + 2, fuel - 1);
    }
  }

  /** An upload is refused for exactly the reason the format says. */
  lemma RefusedAs(data: seq<Byte>, boundary: seq<Byte>, parser: Parser, e: Error)
    requires parser.delimiter == Delimiter(boundary)
    ensures Parse(data, boundary, parser) == Err(e) <==> Refuses(data, boundary, Inspecting(parser), e)
  {
    hide Fits, Passes, Wire, Print, Parser.PartsOk, Parser.HasFile, Parser.ParseParts, PartsRefused, Holds, TrailerFits;
    SameBoundary(boundary);
    if ValidBoundary(boundary) && Holds(data, 0, Opening(boundary)) {
      DelimiterValid(parser, boundary);
      OpeningFits(data, boundary);
      var q := |Opening(boundary)|;
      RefusedExactly(parser, boundary, data, q, MAX_PARTS, e);
      NeverNoFiles(parser, data, q, MAX_PARTS);
      if e == NoFiles { NoFilesExactly(data, boundary, parser); }
    }
  }

  lemma OpeningFits(data: seq<Byte>, boundary: seq<Byte>)
    requires Holds(data, 0, Opening(boundary))
    ensures |Opening(boundary)| == |boundary| + 4 <= |data|
  {
  }

  // ---- The loops of the program ----

  method FindFrom(data: seq<Byte>, pattern: seq<Byte>, start: nat, limit: nat) returns (r: Option<nat>)
    requires limit <= |data|
    ensures r == Find(data, pattern, start, limit)
  {
    var at := start;
    while at + |pattern| <= limit
      invariant Find(data, pattern, at, limit) == Find(data, pattern, start, limit)
    {
      if Holds(data, at, pattern) { return Some(at); }
      at := at + 1;
    }
    return None;
  }

  /** Between two occurrences of the delimiter nothing is accepted. */
  lemma {:induction false} SkipToOccurrence(data: seq<Byte>, delimiter: seq<Byte>, start: nat)
    requires |delimiter| > 0
    ensures var found := Find(data, delimiter, start, |data|);
            FindAccepted(data, delimiter, start)
            == if found.None? then None else FindAccepted(data, delimiter, found.value)
    decreases |data| - start
  {
    if start + |delimiter| > |data| {
      if start < |data| { SkipToOccurrence(data, delimiter, start + 1); }
    } else if !Holds(data, start, delimiter) {
      SkipToOccurrence(data, delimiter, start + 1);
    }
  }

  /** Find the delimiter, and go on while what follows it is neither dashes nor a line break. */
  method FindDelimiter(data: seq<Byte>, delimiter: seq<Byte>, start: nat) returns (end: Option<nat>)
    requires |delimiter| > 0
    ensures end == FindAccepted(data, delimiter, start)
  {
    hide Find;
    end := FindFrom(data, delimiter, start, |data|);
    if end.Some? { FindFirst(data, delimiter, start, |data|, end.value); }
    SkipToOccurrence(data, delimiter, start);
    while end.Some? && !(Holds(data, end.value + |delimiter|, DASHES) || Holds(data, end.value + |delimiter|, CRLF))
      invariant end.Some? ==> Holds(data, end.value, delimiter)
      invariant FindAccepted(data, delimiter, start)
                == if end.None? then None else FindAccepted(data, delimiter, end.value)
      decreases if end.Some? then |data| - end.value else 0
    {
      SkipToOccurrence(data, delimiter, end.value + 1);
      var next := FindFrom(data, delimiter, end.value + 1, |data|);
      if next.Some? { FindFirst(data, delimiter, end.value + 1, |data|, next.value); }
      end := next;
    }
  }

  /** The parts read so far in front of what is still to be read. */
  function Wrap(parser: Parser, parts: seq<Part>, rest: Result<Body, Error>): Result<Body, Error> {
    if parts == [] then rest else parser.AddPart(parts[0], Wrap(parser, parts[1..], rest))
  }

  lemma {:induction false} WrapLast(parser: Parser, parts: seq<Part>, part: Part, rest: Result<Body, Error>)
    ensures Wrap(parser, parts + [part], rest) == Wrap(parser, parts, parser.AddPart(part, rest))
  {
    if parts == [] {
      assert (parts + [part])[1..] == [];
    } else {
      ConsAppend(parts, [part]);
      WrapLast(parser, parts[1..], part, rest);
    }
  }

  lemma {:induction false} WrapError(parser: Parser, parts: seq<Part>, error: Error)
    ensures Wrap(parser, parts, Err(error)) == Err(error)
  {
    if parts != [] { WrapError(parser, parts[1..], error); }
  }

  // ---- The files an upload leaves behind ----

  /** The content of a part that carries a file name. */
  function FileOf(parser: Parser, part: Part): seq<seq<Byte>> {
    if part.header in parser.fileHeaders then [part.content] else []
  }

  /** The file contents of a parsed body, in order. */
  function Files(parser: Parser, body: Body): seq<seq<Byte>> {
    FileOf(parser, body.part) + if body.Last? then [] else Files(parser, body.rest)
  }

  function FilesOf(parser: Parser, parts: seq<Part>): seq<seq<Byte>> {
    if parts == [] then [] else FileOf(parser, parts[0]) + FilesOf(parser, parts[1..])
  }

  lemma {:induction false} FilesOfLast(parser: Parser, parts: seq<Part>, part: Part)
    ensures FilesOf(parser, parts + [part]) == FilesOf(parser, parts) + FileOf(parser, part)
  {
    if parts == [] {
      assert (parts + [part])[1..] == [];
    } else {
      ConsAppend(parts, [part]);
      FilesOfLast(parser, parts[1..], part);
      Associative(FileOf(parser, parts[0]), FilesOf(parser, parts[1..]), FileOf(parser, part));
    }
  }

  lemma {:induction false} FilesOfWrapped(parser: Parser, parts: seq<Part>, body: Body)
    ensures Wrap(parser, parts, Ok(body)).Ok?
    ensures Files(parser, Wrap(parser, parts, Ok(body)).value) == FilesOf(parser, parts) + Files(parser, body)
  {
    if parts != [] {
      FilesOfWrapped(parser, parts[1..], body);
      Associative(FileOf(parser, parts[0]), FilesOf(parser, parts[1..]), Files(parser, body));
    }
  }

  /** The bytes of several files. */
  function Total(files: seq<seq<Byte>>): nat {
    if files == [] then 0 else Total(files[..|files| - 1]) + |files[|files| - 1]|
  }

  lemma TotalAdd(files: seq<seq<Byte>>, file: seq<Byte>)
    ensures Total(files + [file]) == Total(files) + |file|
  {
    assert (files + [file])[..|files|] == files;
  }

  // ---- The loops of the program ----

  /** One turn of the loop over the parts; a part's file is written before its archive is inspected. */
  method ReadPart(data: seq<Byte>, parser: Parser, position: nat, written: seq<seq<Byte>>)
    returns (r: Result<(Part, nat), Error>, files: seq<seq<Byte>>)
    requires position <= |data| && |parser.delimiter| > 0 && Total(written) <= position
    ensures r == parser.NextPart(data, position)
    ensures r.Ok? ==> files == written + FileOf(parser, r.value.0) && Total(files) <= r.value.1
    ensures r == Err(BadArchive) ==> exists content :: content !in parser.archives && files == written + [content]
    ensures r.Err? && r != Err(BadArchive) ==> files == written
    ensures r.Ok? && r.value.0.header in parser.fileHeaders ==> r.value.0.content in parser.archives
    ensures Total(files) <= |data|
  {
    hide Find, FindAccepted, Holds, Total, AcceptedAt;
    files := written;
    var headerEnd := FindFrom(data, BREAK, position, Min(position + MAX_HEADER, |data|));
    if headerEnd.None? { return Err(BadHeaders), files; }
    var start := headerEnd.value + 4;
    var end := FindDelimiter(data, parser.delimiter, start);
    if end.None? { return Err(MissingClosing), files; }
    var part := Part(data[position..headerEnd.value], data[start..end.value]);
    if part.header in parser.fileHeaders {
      TotalAdd(files, part.content);
      files := files + [part.content];
      if part.content !in parser.archives { return Err(BadArchive), files; }
    } else if end.value - start > MAX_FIELD {
      return Err(OversizedField), files;
    }
    return Ok((part, end.value + |parser.delimiter|)), files;
  }

  lemma TurnFails(parser: Parser, data: seq<Byte>, position: nat, fuel: nat, parts: seq<Part>)
    requires position <= |data| && fuel > 0 && parser.NextPart(data, position).Err?
    ensures Wrap(parser, parts, parser.ParseParts(data, position, fuel)) == Err(parser.NextPart(data, position).error)
  {
    WrapError(parser, parts, parser.NextPart(data, position).error);
  }

  lemma TurnEnds(parser: Parser, data: seq<Byte>, position: nat, fuel: nat, parts: seq<Part>, part: Part, next: nat)
    requires position <= |data| && fuel > 0 && parser.NextPart(data, position) == Ok((part, next)) && Holds(data, next, DASHES)
    ensures Wrap(parser, parts, parser.ParseParts(data, position, fuel))
            == if parser.TrailerOk(data[next + 2..]) then Wrap(parser, parts, Ok(Last(part, data[next + 2..]))) else Err(TrailingBytes)
  {
    WrapError(parser, parts, TrailingBytes);
  }

  lemma TurnGoesOn(parser: Parser, data: seq<Byte>, position: nat, fuel: nat, parts: seq<Part>, part: Part, next: nat)
    requires position <= |data| && fuel > 0 && parser.NextPart(data, position) == Ok((part, next)) && !Holds(data, next, DASHES)
    ensures Wrap(parser, parts, parser.ParseParts(data, position, fuel))
            == Wrap(parser, parts + [part], parser.ParseParts(data, next + 2, fuel - 1))
  {
    hide Wrap, Parser.NextPart, Holds;
    WrapLast(parser, parts, part, parser.ParseParts(data, next + 2, fuel - 1));
  }

  /** What the loop has read: the parts, where the next one begins, and the files written. */
  datatype Progress = Progress(parts: seq<Part>, position: nat, files: seq<seq<Byte>>)

  /** With `fuel` more turns the loop ends with `whole`. */
  ghost predicate Towards(data: seq<Byte>, parser: Parser, p: Progress, fuel: nat, whole: Result<Body, Error>) {
    p.position <= |data| && Wrap(parser, p.parts, parser.ParseParts(data, p.position, fuel)) == whole
  }

  ghost predicate Stored(parser: Parser, p: Progress) {
    p.files == FilesOf(parser, p.parts) && Total(p.files) <= p.position
  }

  lemma StoredNext(parser: Parser, p: Progress, part: Part, next: nat, files: seq<seq<Byte>>)
    requires Stored(parser, p) && files == p.files + FileOf(parser, part) && Total(files) <= next
    ensures Stored(parser, Progress(p.parts + [part], next + 2, files))
  {
    FilesOfLast(parser, p.parts, part);
  }

  lemma StoredAll(parser: Parser, p: Progress, part: Part, trailer: seq<Byte>, files: seq<seq<Byte>>)
    requires Stored(parser, p) && files == p.files + FileOf(parser, part)
    ensures Wrap(parser, p.parts, Ok(Last(part, trailer))).Ok?
    ensures files == Files(parser, Wrap(parser, p.parts, Ok(Last(part, trailer))).value)
  {
    FilesOfWrapped(parser, p.parts, Last(part, trailer));
    assert Files(parser, Last(part, trailer)) == FileOf(parser, part);
  }

  /** Every file that was written has passed the inspection. */
  predicate Inspected(parser: Parser, files: seq<seq<Byte>>) { forall file <- files :: file in parser.archives }

  lemma InspectedNext(parser: Parser, written: seq<seq<Byte>>, files: seq<seq<Byte>>, part: Part)
    requires files == written + FileOf(parser, part) && (part.header in parser.fileHeaders ==> part.content in parser.archives)
    ensures Inspected(parser, written) ==> Inspected(parser, files)
  {
  }

  lemma BadInspected(parser: Parser, written: seq<seq<Byte>>, files: seq<seq<Byte>>)
    requires exists content :: content !in parser.archives && files == written + [content]
    ensures !Inspected(parser, files)
  {
    var content :| content !in parser.archives && files == written + [content];
    assert files[|written|] == content;
  }

  /** One turn: the result if the loop ends with it, or how far it has come. */
  method Turn(data: seq<Byte>, parser: Parser, p: Progress, ghost fuel: nat, ghost whole: Result<Body, Error>)
    returns (done: Option<Result<Body, Error>>, q: Progress)
    requires |parser.delimiter| > 0 && fuel > 0 && Towards(data, parser, p, fuel, whole) && Stored(parser, p)
    ensures Total(q.files) <= |data|
    ensures done.None? ==> Towards(data, parser, q, fuel - 1, whole) && Stored(parser, q)
    ensures done.Some? ==> done.value == whole && (whole.Ok? ==> q.files == Files(parser, whole.value))
    ensures Inspected(parser, p.files) && done != Some(Err(BadArchive)) ==> Inspected(parser, q.files)
    ensures done == Some(Err(BadArchive)) ==> !Inspected(parser, q.files)
  {
    hide Parser.NextPart, Parser.ParseParts, Wrap, FileOf, FilesOf, Files, Total, Inspected;
    var found, files := ReadPart(data, parser, p.position, p.files);
    q := p.(files := files);
    if found.Err? {
      if found.error == BadArchive { BadInspected(parser, p.files, files); }
      TurnFails(parser, data, p.position, fuel, p.parts);
      return Some(Err(found.error)), q;
    }
    var part, next := found.value.0, found.value.1;
    InspectedNext(parser, p.files, files, part);
    if Holds(data, next, DASHES) {
      TurnEnds(parser, data, p.position, fuel, p.parts, part, next);
      if data[next + 2..] != [] && data[next + 2..] != CRLF { return Some(Err(TrailingBytes)), q; }
      StoredAll(parser, p, part, data[next + 2..], files);
      return Some(Wrap(parser, p.parts, Ok(Last(part, data[next + 2..])))), q;
    }
    TurnGoesOn(parser, data, p.position, fuel, p.parts, part, next);
    StoredNext(parser, p, part, next, files);
    done, q := None, Progress(p.parts + [part], next + 2, files);
  }

  /** The loop over the parts. */
  method ReadParts(data: seq<Byte>, parser: Parser, opening: nat) returns (r: Result<Body, Error>, files: seq<seq<Byte>>)
    requires opening <= |data| && |parser.delimiter| > 0
    ensures r == parser.ParseParts(data, opening, MAX_PARTS)
    ensures Total(files) <= |data| && (r.Ok? ==> files == Files(parser, r.value))
    ensures r == Err(BadArchive) <==> !Inspected(parser, files)
  {
    ghost var whole := parser.ParseParts(data, opening, MAX_PARTS);
    var p := Progress([], opening, []);
    for i := 0 to MAX_PARTS
      invariant Towards(data, parser, p, MAX_PARTS - i, whole) && Stored(parser, p) && Inspected(parser, p.files)
    {
      var done;
      done, p := Turn(data, parser, p, MAX_PARTS - i, whole);
      if done.Some? { return done.value, p.files; }
    }
    WrapError(parser, p.parts, TooManyParts);
    return Err(TooManyParts), p.files;
  }

  function Named(parser: Parser): Part -> bool { (part: Part) => part.header in parser.fileHeaders }

  /** The files are the contents of the parts with a file name, in order and as often as they occur. */
  lemma {:induction false} FilesNamed(parser: Parser, body: Body) returns (named: seq<Part>)
    ensures Picks(body.Parts(), Named(parser), named)
    ensures |Files(parser, body)| == |named| && forall k :: 0 <= k < |named| ==> Files(parser, body)[k] == named[k].content
    ensures parser.HasFile(body) <==> named != []
  {
    hide Picks;
    PicksNone<Part>(Named(parser));
    PicksNext<Part>([], Named(parser), [], body.part);
    assert [] + [body.part] == [body.part];
    named := if Named(parser)(body.part) then [body.part] else [];
    if body.More? {
      var rest := FilesNamed(parser, body.rest);
      PicksJoin<Part>([body.part], body.rest.Parts(), Named(parser), named, rest);
      named := named + rest;
    }
  }

  lemma ParseDescribed(data: seq<Byte>, boundary: seq<Byte>, parser: Parser, r: Result<Body, Error>)
    requires parser.delimiter == Delimiter(boundary) && r == Parse(data, boundary, parser)
    ensures r.Ok? ==> Accepts(data, boundary, Inspecting(parser), r.value.Parts(), r.value.Trailer())
    ensures r.Ok? ==> forall part <- r.value.Parts() ::
              if part.header in parser.fileHeaders then part.content in parser.archives else |part.content| <= 65536
    ensures r.Err? ==> Refuses(data, boundary, Inspecting(parser), r.error)
  {
    hide Parse, Accepts, Refuses;
    if r.Ok? {
      AcceptedExactly(data, boundary, parser, r.value);
      AcceptedPass(data, boundary, Inspecting(parser), r.value.Parts(), r.value.Trailer());
    } else {
      RefusedAs(data, boundary, parser, r.error);
    }
  }

  lemma NoBytes(data: seq<Byte>)
    ensures Total([]) <= |data|
  {
  }

  lemma AcceptedPass(data: seq<Byte>, boundary: seq<Byte>, i: Inspection, parts: seq<Part>, trailer: seq<Byte>)
    requires Accepts(data, boundary, i, parts, trailer)
    ensures forall part <- parts :: if part.header in i.fileHeaders then part.content in i.archives else |part.content| <= 65536
  {
    hide Fits, Wire;
    forall part <- parts
      ensures if part.header in i.fileHeaders then part.content in i.archives else |part.content| <= 65536
    {
      var k :| 0 <= k < |parts| && parts[k] == part;
      assert Passes(parts[k], i);
    }
  }

  /**
   The program's parser of an upload, and the files it has written when it
   ends: never more bytes than the body has, and on success exactly the
   contents of the file parts.
   */
  method ExtractMultipartFiles(data: seq<Byte>, boundary: seq<Byte>, parser: Parser)
    returns (r: Result<Body, Error>, files: seq<seq<Byte>>)
    requires parser.delimiter == Delimiter(boundary)
    ensures r == Parse(data, boundary, parser)
    ensures Total(files) <= |data| && (r.Ok? ==> files == Files(parser, r.value))
    ensures r.Ok? ==> Accepts(data, boundary, Inspecting(parser), r.value.Parts(), r.value.Trailer())
    ensures r.Err? ==> Refuses(data, boundary, Inspecting(parser), r.error)
    ensures r.Ok? ==> forall part <- r.value.Parts() ::
              if part.header in parser.fileHeaders then part.content in parser.archives else |part.content| <= 65536
    ensures r == Err(BadArchive) <==> exists file <- files :: file !in parser.archives
    ensures r.Ok? ==> files != [] && exists named: seq<Part> ::
              && Picks(r.value.Parts(), Named(parser), named)
              && |files| == |named| && forall k :: 0 <= k < |files| ==> files[k] == named[k].content
  {
    hide Accepts, Refuses, Parser.ParseParts, Parser.HasFile, Holds, ValidBoundary, Files, Total, Picks;
    files := [];
    r := Parse(data, boundary, parser);
    ParseDescribed(data, boundary, parser, r);
    NoBytes(data);
    if !ValidBoundary(boundary) { return Err(InvalidBoundary), files; }
    if !Holds(data, 0, Opening(boundary)) { return Err(MissingOpening), files; }
    OpeningFits(data, boundary);
    r, files := ReadParts(data, parser, |Opening(boundary)|);
    if r.Ok? {
      var _ := FilesNamed(parser, r.value);
      if files == [] { return Err(NoFiles), files; }
    }
  }

  lemma HoldsAll(data: seq<Byte>, whole: seq<Byte>)
    ensures data == whole <==> Holds(data, 0, whole) && |data| == |whole|
  {
    if Holds(data, 0, whole) && |data| == |whole| {
      forall i | 0 <= i < |data|
        ensures data[i] == whole[i]
      {
        assert data[0 + i] == whole[i];
      }
    }
  }

  lemma HoldsJoin(data: seq<Byte>, at: nat, x: seq<Byte>, y: seq<Byte>)
    requires Holds(data, at, x) && Holds(data, at + |x|, y)
    ensures Holds(data, at, x + y)
  {
    forall i | 0 <= i < |x + y|
      ensures data[at + i] == (x + y)[i]
    {
      if i >= |x| { assert data[at + |x| + (i - |x|)] == y[i - |x|]; }
    }
  }

  /** An occurrence inside a part of the data. */
  lemma HoldsWithin(data: seq<Byte>, at: nat, part: seq<Byte>, k: nat, pattern: seq<Byte>)
    requires Holds(data, at, part) && k + |pattern| <= |part|
    ensures Holds(data, at + k, pattern) <==> Holds(part, k, pattern)
  {
    if Holds(part, k, pattern) {
      forall i | 0 <= i < |pattern|
        ensures data[at + k + i] == pattern[i]
      {
        assert data[at + (k + i)] == part[k + i];
      }
    }
    if Holds(data, at + k, pattern) {
      forall i | 0 <= i < |pattern|
        ensures part[k + i] == pattern[i]
      {
        assert data[at + (k + i)] == part[k + i];
      }
    }
  }
}
