/** What an upload looks like in bytes, and which uploads are refused (src/cmnd_linux/clone_export.py). */
module MultipartFormat {
  import opened Bytes

  // Everything is written in bytes: CR LF is 13, 10 and two dashes are 45, 45.
  // The parser is proved against it.

  datatype Error =
    | InvalidBoundary | MissingOpening | BadHeaders | MissingClosing | BadArchive | OversizedField
    | TrailingBytes | TooManyParts | NoFiles

  datatype Part = Part(header: seq<Byte>, content: seq<Byte>)

  /** The part headers that carry a file name, and the file contents that pass the inspection of the archive. */
  datatype Inspection = Inspection(fileHeaders: set<seq<Byte>>, archives: set<seq<Byte>>)

  /** Letters, digits and the punctuation of a boundary. */
  predicate BoundaryOk(boundary: seq<Byte>) {
    && 1 <= |boundary| <= 70
    && forall b <- boundary :: BoundaryChar(b as char)
  }

  predicate BoundaryChar(c: char) {
    || '0' <= c <= '9' || 'A' <= c <= 'Z' || 'a' <= c <= 'z'
    || c in {'\'', '(', ')', '+', '_', ',', '.', '/', ':', '=', '?', '-'}
  }

  /** Acceptable parts without a file among them. */
  ghost predicate NoFileParts(data: seq<Byte>, boundary: seq<Byte>, i: Inspection, parts: seq<Part>, trailer: seq<Byte>) {
    && 1 <= |parts| <= 64 && TrailerFits(trailer) && data == Wire(boundary, parts, trailer)
    && AllPass(boundary, i, parts) && !SomeFile(i, parts)
  }

  function WirePart(boundary: seq<Byte>, part: Part): seq<Byte> {
    part.header + [13, 10, 13, 10] + part.content + ([13, 10, 45, 45] + boundary)
  }

  /** The parts, the last one followed by two dashes and the trailer, the others by a line end. */
  function WireParts(boundary: seq<Byte>, parts: seq<Part>, trailer: seq<Byte>): seq<Byte>
    requires parts != []
  {
    if |parts| == 1 then WirePart(boundary, parts[0]) + ([45, 45] + trailer)
    else WirePart(boundary, parts[0]) + ([13, 10] + WireParts(boundary, parts[1..], trailer))
  }

  function Wire(boundary: seq<Byte>, parts: seq<Part>, trailer: seq<Byte>): seq<Byte>
    requires parts != []
  {
    [45, 45] + boundary + [13, 10] + WireParts(boundary, parts, trailer)
  }

  /** A delimiter that is followed by two dashes or a line end. */
  predicate DelimiterAt(data: seq<Byte>, boundary: seq<Byte>, k: nat) {
    && Holds(data, k, [13, 10, 45, 45] + boundary)
    && (Holds(data, k + 4 + |boundary|, [45, 45]) || Holds(data, k + 4 + |boundary|, [13, 10]))
  }

  /** The first empty line ends the header, within 8192 bytes; no such delimiter begins in the content. */
  predicate Fits(boundary: seq<Byte>, part: Part) {
    && |part.header| + 4 <= 8192
    && (forall k :: 0 <= k < |part.header| ==> !Holds(part.header + [13, 10, 13, 10], k, [13, 10, 13, 10]))
    && (forall k :: 0 <= k < |part.content| ==> !DelimiterAt(part.content + ([13, 10, 45, 45] + boundary), boundary, k))
  }

  /** A file is an archive that passes the inspection; any other field has at most 65536 bytes. */
  predicate Passes(part: Part, i: Inspection) {
    if part.header in i.fileHeaders then part.content in i.archives else |part.content| <= 65536
  }

  predicate TrailerFits(trailer: seq<Byte>) { trailer == [] || trailer == [13, 10] }

  predicate AllPass(boundary: seq<Byte>, i: Inspection, parts: seq<Part>) {
    forall k :: 0 <= k < |parts| ==> Fits(boundary, parts[k]) && Passes(parts[k], i)
  }

  predicate SomeFile(i: Inspection, parts: seq<Part>) {
    exists k :: 0 <= k < |parts| && parts[k].header in i.fileHeaders
  }

  /** The body is these parts, with at least one file among them. */
  predicate Accepts(data: seq<Byte>, boundary: seq<Byte>, i: Inspection, parts: seq<Part>, trailer: seq<Byte>) {
    && BoundaryOk(boundary) && 1 <= |parts| <= 64 && TrailerFits(trailer)
    && AllPass(boundary, i, parts) && SomeFile(i, parts)
    && data == Wire(boundary, parts, trailer)
  }

  // ---- Refusals ----

  /** The part stands at `q`, with its delimiter. */
  predicate StandsAt(data: seq<Byte>, q: nat, boundary: seq<Byte>, part: Part) {
    && Holds(data, q, WirePart(boundary, part)) && Fits(boundary, part)
    && DelimiterAt(data, boundary, q + |part.header| + 4 + |part.content|)
  }

  /** The first empty line of the header that begins at `q`. */
  predicate EmptyLineAt(data: seq<Byte>, q: nat, h: nat) {
    && q <= h && h + 4 <= q + 8192 && Holds(data, h, [13, 10, 13, 10])
    && forall k :: q <= k < h ==> !Holds(data, k, [13, 10, 13, 10])
  }

  /** The part at `q` is refused. */
  ghost predicate PartRefused(data: seq<Byte>, q: nat, boundary: seq<Byte>, i: Inspection, e: Error) {
    match e
    case BadHeaders => forall k :: q <= k && k + 4 <= q + 8192 ==> !Holds(data, k, [13, 10, 13, 10])
    case MissingClosing => exists h :: EmptyLineAt(data, q, h) && forall k :: k >= h + 4 ==> !DelimiterAt(data, boundary, k)
    case BadArchive => exists part :: StandsAt(data, q, boundary, part) && part.header in i.fileHeaders && part.content !in i.archives
    case OversizedField => exists part :: StandsAt(data, q, boundary, part) && part.header !in i.fileHeaders && |part.content| > 65536
    case _ => false
  }

  /** With `left` more parts allowed, the parts from `q` on are refused. */
  ghost predicate PartsRefused(data: seq<Byte>, q: nat, boundary: seq<Byte>, i: Inspection, left: nat, e: Error)
    decreases left
  {
    if left == 0 then e == TooManyParts
    else
      || PartRefused(data, q, boundary, i, e)
      || exists part :: StandsAt(data, q, boundary, part) && Passes(part, i) &&
           var next := q + |WirePart(boundary, part)|;
           if Holds(data, next, [45, 45]) then e == TrailingBytes && !TrailerFits(data[next + 2..])
           else PartsRefused(data, next + 2, boundary, i, left - 1, e)
  }

  ghost predicate Refuses(data: seq<Byte>, boundary: seq<Byte>, i: Inspection, e: Error) {
    if !BoundaryOk(boundary) then e == InvalidBoundary
    else if !Holds(data, 0, [45, 45] + boundary + [13, 10]) then e == MissingOpening
    else
      || PartsRefused(data, |boundary| + 4, boundary, i, 64, e)
      || (e == NoFiles && exists parts: seq<Part>, trailer: seq<Byte> :: NoFileParts(data, boundary, i, parts, trailer))
  }
}
