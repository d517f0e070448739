/**
 The receiver of clone uploads (src/cmnd_linux/clone_export.py): its byte
 budget, and what it keeps on disk for uploads that succeed or fail anywhere.
 */
module CloneReceiver {
  import opened Wrappers
  import opened Bytes
  import opened Sequences
  import opened MultipartFormat
  import opened Multipart

  const MAX_UPLOAD := 1_572_864_000
  const CHUNK := 65536

  /**
   Spool the body in chunks of any size; `stream` is what arrives before the
   sender stops or the deadline passes.
   */
  method ReadBody(stream: seq<Byte>, length: nat) returns (complete: bool, body: seq<Byte>)
    ensures complete <==> length <= |stream|
    ensures body == stream[..Min(length, |stream|)]
  {
    body := [];
    var remaining: nat := length;
    while remaining > 0
      invariant remaining + |body| == length && body <= stream
      decreases remaining
    {
      var size: nat := *;
      var most := Min(Min(CHUNK, remaining), |stream| - |body|);
      if most == 0 { return false, body; }
      size := if size == 0 then 1 else Min(size, most);
      body := body + stream[|body|..|body| + size];
      remaining := remaining - size;
    }
    complete := true;
  }

  /** The bytes of the files of all requests. */
  function Extracted(all: seq<seq<seq<Byte>>>): nat {
    if all == [] then 0 else Extracted(all[..|all| - 1]) + Total(all[|all| - 1])
  }

  lemma FilesAdded(all: seq<seq<seq<Byte>>>, files: seq<seq<Byte>>)
    ensures Extracted(all + [files]) == Extracted(all) + Total(files)
  {
    assert (all + [files])[..|all|] == all;
  }

  class ReceiveState {
    const maxBytes: nat
    var totalBytes: nat
    var files: seq<Body>
    var failures: nat
    /** The request bodies and the extracted files on disk. */
    var bodies: seq<seq<Byte>>
    var extracted: seq<seq<seq<Byte>>>

    ghost predicate Valid()
      reads this
    {
      Extracted(extracted) <= Total(bodies) <= totalBytes <= maxBytes
    }

    constructor (maxBytes: nat)
      ensures Valid() && this.maxBytes == maxBytes && totalBytes == 0 && bodies == [] && extracted == [] && files == []
    {
      this.maxBytes, totalBytes, files, failures, bodies, extracted := maxBytes, 0, [], 0, [], [];
    }

    /** Extract the files of a complete body; what was written stays even when the body is rejected. */
    method Unpack(body: seq<Byte>, boundary: seq<Byte>, parser: Parser) returns (ok: bool)
      requires parser.delimiter == Delimiter(boundary)
      modifies this`extracted, this`files
      ensures ok <==> Parse(body, boundary, parser).Ok?
      ensures Extracted(extracted) <= Extracted(old(extracted)) + |body| && old(extracted) <= extracted
      ensures ok ==> extracted == old(extracted) + [Files(parser, Parse(body, boundary, parser).value)]
      ensures files == if ok then old(files) + [Parse(body, boundary, parser).value] else old(files)
    {
      hide Parse, Files, Delimiter, Total, Extracted, Accepts, Refuses, Picks;
      var parsed, written := ExtractMultipartFiles(body, boundary, parser);
      FilesAdded(extracted, written);
      extracted := extracted + [written];
      ok := parsed.Ok?;
      if ok { files := files + [parsed.value]; }
    }

    /** The body of this length was received whole and parsed, and it and its files are kept. */
    twostate predicate Received(length: int, stream: seq<Byte>, boundary: seq<Byte>, parser: Parser)
      reads this
    {
      && 1 <= length <= |stream|
      && var body := stream[..length];
         && Parse(body, boundary, parser).Ok?
         && bodies == old(bodies) + [body] && totalBytes == old(totalBytes) + length
         && files == old(files) + [Parse(body, boundary, parser).value]
         && extracted == old(extracted) + [Files(parser, Parse(body, boundary, parser).value)]
    }

    /** Whether the request is admitted: a single length within the limits of an upload and of the budget. */
    predicate Admits(length: Option<int>)
      reads this
    {
      length.Some? && 1 <= length.value <= MAX_UPLOAD && totalBytes + length.value <= maxBytes
    }

    /** Spool and unpack an admitted body. */
    method Receive(length: nat, stream: seq<Byte>, boundary: seq<Byte>, parser: Parser) returns (ok: bool)
      requires Valid() && parser.delimiter == Delimiter(boundary) && Admits(Some(length))
      modifies this`totalBytes, this`bodies, this`extracted, this`files
      ensures Valid() && old(totalBytes) <= totalBytes && old(bodies) <= bodies && old(extracted) <= extracted
      ensures ok <==> 1 <= length <= |stream| && Parse(stream[..length], boundary, parser).Ok?
      ensures if ok then Received(length, stream, boundary, parser) else files == old(files)
    {
      hide Parse, Files, Delimiter, Total, Extracted;
      totalBytes := totalBytes + length;
      var complete, body := ReadBody(stream, length);
      TotalAdd(bodies, body);
      bodies := bodies + [body];
      if !complete { return false; }
      assert body == stream[..length];
      ok := Unpack(body, boundary, parser);
    }

    /**
     One request: `allowed` says that path and sender match, `length` is its
     content length if the headers give a single one, `stream` what arrives of
     the body in time, `delivered` whether the answer to a received upload can
     be sent.  Disk use stays within twice the
     budget after every request; results grow exactly with a received body,
     which is a success exactly when the answer is delivered.
     */
    method Post(allowed: bool, length: Option<int>, stream: seq<Byte>, boundary: seq<Byte>, parser: Parser, delivered: bool)
      returns (status: int)
      requires Valid() && parser.delimiter == Delimiter(boundary)
      modifies this
      ensures Valid() && Total(bodies) + Extracted(extracted) <= 2 * maxBytes
      ensures status == 403 <==> !allowed
      ensures status == 200 || status == 400 || status == 403
      ensures failures == old(failures) + if status == 400 then 1 else 0
      ensures old(totalBytes) <= totalBytes && old(bodies) <= bodies && old(extracted) <= extracted
      ensures !allowed || !old(Admits(length)) ==>
                bodies == old(bodies) && extracted == old(extracted) && files == old(files) && totalBytes == old(totalBytes)
      ensures files != old(files) <==>
                && allowed && length.Some? && 1 <= length.value <= |stream|
                && length.value <= 1_572_864_000 && old(totalBytes) + length.value <= maxBytes
                && Parse(stream[..length.value], boundary, parser).Ok?
      ensures files != old(files) ==> Received(length.value, stream, boundary, parser)
      ensures status == 200 <==> files != old(files) && delivered
    {
      hide Parse, Files, Delimiter, Total, Extracted;
      if !allowed { return 403; }
      var ok := Admits(length);
      if ok { ok := Receive(length.value, stream, boundary, parser); }
      if !ok || !delivered {
        failures := failures + 1;
        return 400;
      }
      return 200;
    }
  }
}
