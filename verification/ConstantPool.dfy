/**
 Literal replacement in a Java class file
 (src/cmnd_linux/java_portability.py).  The constant pool is that of sections
 4.4, 4.4.5 and 4.4.7 of the Java Virtual Machine Specification.

 Scanning and printing entries are inverse; the loop of the program is proved
 against a scan of the whole pool.
 */
module ConstantPool {
  import opened Sequences
  import opened Wrappers
  import opened Bytes
  import opened ClassFile

  datatype Entry = Utf8(value: seq<Byte>) | Other(tag: Byte, payload: seq<Byte>)

  datatype Error =
    | InvalidHeader | InvalidReplacements | TruncatedPool | TruncatedLength | TruncatedValue
    | UnknownConstant | UnexpectedLayout

  /** What a scan of the pool finds: its entries and where it stops. */
  datatype Pool = Pool(entries: seq<Entry>, offset: nat, index: nat)

  const MAGIC: seq<Byte> := [0xCA, 0xFE, 0xBA, 0xBE]
  const MAX_SIZE := 16 * 1024 * 1024
  const MIN_TAIL := 14

  function PayloadSize(tag: Byte): Option<nat> {
    if tag == 5 || tag == 6 then Some(8)
    else if tag == 15 then Some(3)
    else if tag in {7, 8, 16, 19, 20} then Some(2)
    else if tag in {3, 4, 9, 10, 11, 12, 17, 18} then Some(4)
    else None
  }

  /** Long and Double take two slots. */
  function Slots(entry: Entry): nat {
    if entry.Other? && entry.tag in {5, 6} then 2 else 1
  }

  function ScanEntry(data: seq<Byte>, offset: nat): (r: Result<(Entry, nat), Error>)
    ensures r.Ok? ==> offset < r.value.1 <= |data|
  {
    if offset >= |data| then Err(TruncatedPool)
    else if data[offset] == 1 then
      if offset + 3 > |data| then Err(TruncatedLength)
      else
        var size := ReadU16(data, offset + 1);
        if offset + 3 + size > |data| then Err(TruncatedValue)
        else Ok((Utf8(data[offset + 3..offset + 3 + size]), offset + 3 + size))
    else
      var size := PayloadSize(data[offset]);
      if size.None? || offset + 1 + size.value > |data| then Err(UnknownConstant)
      else Ok((Other(data[offset], data[offset + 1..offset + 1 + size.value]), offset + 1 + size.value))
  }

  function ScanPool(data: seq<Byte>, offset: nat, index: nat, count: nat): Result<Pool, Error>
    decreases count - index
  {
    if index >= count then Ok(Pool([], offset, index))
    else
      match ScanEntry(data, offset)
      case Err(error) => Err(error)
      case Ok(next) => Prepend([next.0], ScanPool(data, next.1, index + Slots(next.0), count))
  }

  function Prepend(entries: seq<Entry>, rest: Result<Pool, Error>): Result<Pool, Error> {
    if rest.Err? then rest else Ok(rest.value.(entries := entries + rest.value.entries))
  }

  function PrintEntry(entry: Entry): seq<Byte> {
    match entry
    case Utf8(value) => [1] + WriteU16(|value|) + value
    case Other(tag, payload) => [tag] + payload
  }

  function Print(entries: seq<Entry>): seq<Byte> {
    if entries == [] then [] else PrintEntry(entries[0]) + Print(entries[1..])
  }

  function RewriteEntry(entry: Entry, replacements: map<seq<Byte>, seq<Byte>>): Entry {
    if entry.Utf8? && entry.value in replacements then Utf8(replacements[entry.value]) else entry
  }

  function Rewrite(entries: seq<Entry>, replacements: map<seq<Byte>, seq<Byte>>): (r: seq<Entry>)
    ensures |r| == |entries|
    ensures forall i :: 0 <= i < |r| ==> r[i] == RewriteEntry(entries[i], replacements)
  {
    seq(|entries|, i requires 0 <= i < |entries| => RewriteEntry(entries[i], replacements))
  }

  /** How many Utf8 entries hold the literal. */
  function Hits(entries: seq<Entry>, literal: seq<Byte>): nat {
    if entries == [] then 0
    else (if entries[0] == Utf8(literal) then 1 else 0) + Hits(entries[1..], literal)
  }

  predicate EachHitOnce(entries: seq<Entry>, replacements: map<seq<Byte>, seq<Byte>>) {
    forall old_ :: old_ in replacements ==> Hits(entries, old_) == 1
  }

  predicate IsAscii(bytes: seq<Byte>) {
    forall i :: 0 <= i < |bytes| ==> bytes[i] < 0x80
  }

  predicate ValidHeader(data: seq<Byte>) {
    10 <= |data| <= MAX_SIZE && data[..4] == MAGIC
  }

  predicate ValidReplacements(replacements: map<seq<Byte>, seq<Byte>>) {
    && replacements != map[]
    && forall old_ :: old_ in replacements ==>
         old_ != [] && IsAscii(old_) && IsAscii(replacements[old_]) && |replacements[old_]| <= 65535
  }

  function PoolCount(data: seq<Byte>): nat
    requires |data| >= 10
  {
    ReadU16(data, 8)
  }

  /** The specification: scan the pool, rewrite its entries, print them back. */
  function Adapt(data: seq<Byte>, replacements: map<seq<Byte>, seq<Byte>>): Result<seq<Byte>, Error> {
    if !ValidHeader(data) then Err(InvalidHeader)
    else if !ValidReplacements(replacements) then Err(InvalidReplacements)
    else
      match ScanPool(data, 10, 1, PoolCount(data))
      case Err(error) => Err(error)
      case Ok(pool) =>
        if pool.index != PoolCount(data) || |data| - pool.offset < MIN_TAIL
           || !EachHitOnce(pool.entries, replacements)
        then Err(UnexpectedLayout)
        else Ok(data[..10] + Print(Rewrite(pool.entries, replacements)) + data[pool.offset..])
  }

  // ---- The loop of the program ----

  lemma PrependTwice(xs: seq<Entry>, ys: seq<Entry>, rest: Result<Pool, Error>)
    ensures Prepend(xs, Prepend(ys, rest)) == Prepend(xs + ys, rest)
  {
    if rest.Ok? { assert xs + (ys + rest.value.entries) == (xs + ys) + rest.value.entries; }
  }

  lemma PrependNone(rest: Result<Pool, Error>)
    ensures Prepend([], rest) == rest
  {
    if rest.Ok? { assert [] + rest.value.entries == rest.value.entries; }
  }

  lemma {:induction false} PrintAppend(xs: seq<Entry>, ys: seq<Entry>)
    ensures Print(xs + ys) == Print(xs) + Print(ys)
  {
    if xs == [] {
      assert xs + ys == ys;
    } else {
      PrintAppend(xs[1..], ys);
      ConsAppend(xs, ys);
      Associative(PrintEntry(xs[0]), Print(xs[1..]), Print(ys));
    }
  }

  lemma {:induction false} HitsAppend(xs: seq<Entry>, ys: seq<Entry>, literal: seq<Byte>)
    ensures Hits(xs + ys, literal) == Hits(xs, literal) + Hits(ys, literal)
  {
    if xs == [] {
      assert xs + ys == ys;
    } else {
      HitsAppend(xs[1..], ys, literal);
      assert (xs + ys)[1..] == xs[1..] + ys;
    }
  }

  lemma PrintOne(entry: Entry)
    ensures Print([entry]) == PrintEntry(entry)
  {
    assert [entry][1..] == [];
  }

  lemma ScanStep(data: seq<Byte>, entries: seq<Entry>, offset: nat, index: nat, count: nat)
    requires index < count && ScanEntry(data, offset).Ok?
    ensures var next := ScanEntry(data, offset).value;
            Prepend(entries, ScanPool(data, offset, index, count))
            == Prepend(entries + [next.0], ScanPool(data, next.1, index + Slots(next.0), count))
  {
    var next := ScanEntry(data, offset).value;
    PrependTwice(entries, [next.0], ScanPool(data, next.1, index + Slots(next.0), count));
  }

  lemma RewriteAppend(entries: seq<Entry>, entry: Entry, replacements: map<seq<Byte>, seq<Byte>>)
    ensures Print(Rewrite(entries + [entry], replacements))
            == Print(Rewrite(entries, replacements)) + PrintEntry(RewriteEntry(entry, replacements))
  {
    assert Rewrite(entries + [entry], replacements)
        == Rewrite(entries, replacements) + [RewriteEntry(entry, replacements)];
    PrintAppend(Rewrite(entries, replacements), [RewriteEntry(entry, replacements)]);
    PrintOne(RewriteEntry(entry, replacements));
  }

  /** The counter of the program: hits per key. */
  function HitMap(entries: seq<Entry>, replacements: map<seq<Byte>, seq<Byte>>): map<seq<Byte>, nat> {
    map old_ | old_ in replacements :: Hits(entries, old_)
  }

  lemma HitMapReads(entries: seq<Entry>, replacements: map<seq<Byte>, seq<Byte>>)
    ensures (forall old_ :: old_ in HitMap(entries, replacements) ==> HitMap(entries, replacements)[old_] == 1)
            <==> EachHitOnce(entries, replacements)
  {
    if forall old_ :: old_ in HitMap(entries, replacements) ==> HitMap(entries, replacements)[old_] == 1 {
      forall old_ | old_ in replacements
        ensures Hits(entries, old_) == 1
      {
        assert old_ in HitMap(entries, replacements);
      }
    }
  }

  lemma HitMapAppend(entries: seq<Entry>, entry: Entry, replacements: map<seq<Byte>, seq<Byte>>)
    ensures var hits := HitMap(entries, replacements);
            HitMap(entries + [entry], replacements)
            == if entry.Utf8? && entry.value in replacements then hits[entry.value := hits[entry.value] + 1] else hits
  {
    forall old_ | old_ in replacements
      ensures Hits(entries + [entry], old_) == Hits(entries, old_) + if entry == Utf8(old_) then 1 else 0
    {
      HitsAppend(entries, [entry], old_);
      assert [entry][1..] == [];
    }
  }

  method ReadEntry(data: seq<Byte>, start: nat) returns (r: Result<(Entry, nat), Error>)
    ensures r == ScanEntry(data, start)
    ensures r == Err(TruncatedPool) <==> start >= |data|
    ensures r == Err(TruncatedLength) <==> start < |data| && data[start] == 1 && |data| - start < 3
    ensures r == Err(TruncatedValue) <==>
              && start < |data| && data[start] == 1 && |data| - start >= 3
              && |data| - start - 3 < data[start + 1] as int * 256 + data[start + 2] as int
    ensures r == Err(UnknownConstant) ==> data[start] != 1
  {
    var offset := start;
    if offset >= |data| { return Err(TruncatedPool); }
    var tag := data[offset];
    offset := offset + 1;
    if tag == 1 {
      if offset + 2 > |data| { return Err(TruncatedLength); }
      var size := ReadU16(data, offset);
      offset := offset + 2;
      if offset + size > |data| { return Err(TruncatedValue); }
      return Ok((Utf8(data[offset..offset + size]), offset + size));
    } else {
      var size := PayloadSize(tag);
      if size.None? || offset + size.value > |data| { return Err(UnknownConstant); }
      return Ok((Other(tag, data[offset..offset + size.value]), offset + size.value));
    }
  }

  /** Bytes scanned as an entry are that entry printed. */
  lemma PrintScanned(data: seq<Byte>, offset: nat)
    requires ScanEntry(data, offset).Ok?
    ensures var next := ScanEntry(data, offset).value;
            next.1 <= |data| && data[offset..next.1] == PrintEntry(next.0)
  {
    var next := ScanEntry(data, offset).value;
    if data[offset] == 1 {
      var size := ReadU16(data, offset + 1);
      assert next == (Utf8(data[offset + 3..offset + 3 + size]), offset + 3 + size);
      hide ScanEntry, ReadU16, WriteU16;
      WriteOfRead(data, offset + 1);
      Utf8Printed(data, offset, next.1);
    } else {
      assert next.0 == Other(data[offset], data[offset + 1..next.1]);
      hide ScanEntry;
      assert data[offset..next.1] == [data[offset]] + data[offset + 1..next.1];
    }
  }

  lemma Utf8Printed(data: seq<Byte>, offset: nat, end: nat)
    requires offset + 3 <= end <= |data| && data[offset] == 1
    ensures data[offset..end] == [1] + data[offset + 1..offset + 3] + data[offset + 3..end]
  {
  }

  /** What one entry adds to the output and to the counter. */
  method EmitEntry(data: seq<Byte>, start: nat, offset: nat, entry: Entry,
                   replacements: map<seq<Byte>, seq<Byte>>, hits: map<seq<Byte>, nat>)
    returns (part: seq<Byte>, counted: map<seq<Byte>, nat>, slots: nat)
    requires ScanEntry(data, start) == Ok((entry, offset)) && hits.Keys == replacements.Keys
    ensures part == PrintEntry(RewriteEntry(entry, replacements)) && slots == Slots(entry)
    ensures counted == if entry.Utf8? && entry.value in replacements then hits[entry.value := hits[entry.value] + 1] else hits
  {
    PrintScanned(data, start);
    counted, slots := hits, 1;
    match entry
    case Utf8(text) =>
      var value := text;
      if value in replacements {
        counted := counted[value := counted[value] + 1];
        value := replacements[value];
      }
      part := [1] + WriteU16(|value|) + value;
    case Other(tag, _) =>
      part := data[start..offset];
      if tag == 5 || tag == 6 { slots := 2; }
  }

  lemma ScanStop(data: seq<Byte>, entries: seq<Entry>, offset: nat, index: nat, count: nat)
    requires index >= count || ScanEntry(data, offset).Err?
    ensures Prepend(entries, ScanPool(data, offset, index, count))
            == if index >= count then Ok(Pool(entries, offset, index)) else Err(ScanEntry(data, offset).error)
  {
    assert entries + [] == entries;
  }

  /** What the loop has read: the entries, where the scan stands, the output and the hits. */
  datatype Progress = Progress(entries: seq<Entry>, offset: nat, index: nat, parts: seq<Byte>, hits: map<seq<Byte>, nat>)

  /** The rest of the scan behind what was read is the whole scan; output and hits are those of the entries. */
  ghost predicate Towards(data: seq<Byte>, replacements: map<seq<Byte>, seq<Byte>>, count: nat, p: Progress, whole: Result<Pool, Error>) {
    && 10 <= p.offset <= |data|
    && Prepend(p.entries, ScanPool(data, p.offset, p.index, count)) == whole
    && p.hits == HitMap(p.entries, replacements) && p.parts == Print(Rewrite(p.entries, replacements))
  }

  lemma TowardsNext(data: seq<Byte>, replacements: map<seq<Byte>, seq<Byte>>, count: nat, p: Progress, whole: Result<Pool, Error>,
                    entry: Entry, offset: nat, part: seq<Byte>, counted: map<seq<Byte>, nat>)
    requires Towards(data, replacements, count, p, whole) && p.index < count
    requires ScanEntry(data, p.offset) == Ok((entry, offset)) && part == PrintEntry(RewriteEntry(entry, replacements))
    requires counted == if entry.Utf8? && entry.value in replacements then p.hits[entry.value := p.hits[entry.value] + 1] else p.hits
    ensures Towards(data, replacements, count, Progress(p.entries + [entry], offset, p.index + Slots(entry), p.parts + part, counted), whole)
    ensures Slots(entry) >= 1
  {
    hide ScanPool, Prepend, Print, Rewrite, HitMap, PrintEntry, RewriteEntry;
    ScanStep(data, p.entries, p.offset, p.index, count);
    RewriteAppend(p.entries, entry, replacements);
    HitMapAppend(p.entries, entry, replacements);
  }

  /** One turn of the loop: the refusal of the entry, or what has been read with it. */
  method ReadNext(data: seq<Byte>, replacements: map<seq<Byte>, seq<Byte>>, count: nat, p: Progress, ghost whole: Result<Pool, Error>)
    returns (failed: Option<Error>, q: Progress)
    requires Towards(data, replacements, count, p, whole) && p.index < count && p.hits.Keys == replacements.Keys
    ensures failed.Some? ==> whole == Err(failed.value)
    ensures failed.None? ==> Towards(data, replacements, count, q, whole) && q.index > p.index && q.hits.Keys == replacements.Keys
  {
    hide *;
    q := p;
    var next := ReadEntry(data, p.offset);
    if next.Err? {
      TowardsStops(data, replacements, count, p, whole);
      return Some(next.error), p;
    }
    var entry, offset := next.value.0, next.value.1;
    var part, counted, slots := EmitEntry(data, p.offset, offset, entry, replacements, p.hits);
    TowardsNext(data, replacements, count, p, whole, entry, offset, part, counted);
    failed, q := None, Progress(p.entries + [entry], offset, p.index + slots, p.parts + part, counted);
  }

  lemma TowardsStops(data: seq<Byte>, replacements: map<seq<Byte>, seq<Byte>>, count: nat, p: Progress, whole: Result<Pool, Error>)
    requires Towards(data, replacements, count, p, whole) && p.index < count && ScanEntry(data, p.offset).Err?
    ensures whole == Err(ScanEntry(data, p.offset).error)
  {
    ScanStop(data, p.entries, p.offset, p.index, count);
  }

  /** The loop of the program: one pass over the pool, counting hits and collecting the output. */
  method RewritePool(data: seq<Byte>, replacements: map<seq<Byte>, seq<Byte>>, count: nat)
    returns (r: Result<Pool, Error>, parts: seq<Byte>, hits: map<seq<Byte>, nat>)
    requires |data| >= 10
    ensures r == ScanPool(data, 10, 1, count)
    ensures r.Ok? ==> 10 <= r.value.offset <= |data|
    ensures r.Ok? ==> parts == Print(Rewrite(r.value.entries, replacements))
    ensures r.Ok? ==> hits == HitMap(r.value.entries, replacements)
  {
    ghost var whole := ScanPool(data, 10, 1, count);
    var p := Progress([], 10, 1, [], map old_ | old_ in replacements :: 0 as nat);
    PrependNone(whole);
    while p.index < count
      invariant Towards(data, replacements, count, p, whole) && p.hits.Keys == replacements.Keys
      decreases count - p.index
    {
      hide Towards;
      var failed;
      failed, p := ReadNext(data, replacements, count, p, whole);
      if failed.Some? { return Err(failed.value), p.parts, p.hits; }
    }
    ScanStop(data, p.entries, p.offset, p.index, count);
    return Ok(Pool(p.entries, p.offset, p.index)), p.parts, p.hits;
  }

  method AdaptLiterals(data: seq<Byte>, replacements: map<seq<Byte>, seq<Byte>>) returns (r: Result<seq<Byte>, Error>)
    ensures r == Adapt(data, replacements)
    ensures r.Ok? ==> Rewrites(data, replacements, r.value)
    ensures r.Err? ==> forall out :: !Rewrites(data, replacements, out)
    ensures r == Err(InvalidHeader) <==> !HeaderOk(data)
    ensures r == Err(InvalidReplacements) <==> HeaderOk(data) && !ReplacementsOk(replacements)
  {
    hide ValidReplacements, HeaderOk, ReplacementsOk, Rewrites, EachHitOnce, ScanPool, Print;
    AdaptDescribed(data, replacements);
    if !ValidHeader(data) { return Err(InvalidHeader); }
    if !ValidReplacements(replacements) { return Err(InvalidReplacements); }
    var count := ReadU16(data, 8);
    var pool, parts, hits := RewritePool(data, replacements, count);
    if pool.Err? { return Err(pool.error); }
    var offset := pool.value.offset;
    var eachOnce := forall old_ :: old_ in hits ==> hits[old_] == 1;
    assert eachOnce <==> EachHitOnce(pool.value.entries, replacements) by {
      HitMapReads(pool.value.entries, replacements);
    }
    if pool.value.index != count || |data| - offset < MIN_TAIL || !eachOnce {
      return Err(UnexpectedLayout);
    }
    return Ok(data[..10] + parts + data[offset..]);
  }

  // ---- Scanning and printing are inverse ----

  predicate ValidEntry(entry: Entry) {
    match entry
    case Utf8(value) => |value| <= 65535
    case Other(tag, payload) => PayloadSize(tag) == Some(|payload|)
  }

  predicate ValidEntries(entries: seq<Entry>) {
    forall i :: 0 <= i < |entries| ==> ValidEntry(entries[i])
  }

  function TotalSlots(entries: seq<Entry>): nat {
    if entries == [] then 0 else Slots(entries[0]) + TotalSlots(entries[1..])
  }

  lemma ScannedValid(data: seq<Byte>, offset: nat)
    requires ScanEntry(data, offset).Ok?
    ensures ValidEntry(ScanEntry(data, offset).value.0)
  {
  }

  /** A successful scan has read exactly the printed entries. */
  lemma {:induction false} ScanReads(data: seq<Byte>, offset: nat, index: nat, count: nat)
    requires ScanPool(data, offset, index, count).Ok? && offset <= |data|
    ensures var pool := ScanPool(data, offset, index, count).value;
            && offset <= pool.offset <= |data|
            && ValidEntries(pool.entries)
            && data[offset..pool.offset] == Print(pool.entries)
            && pool.index == index + TotalSlots(pool.entries)
    decreases count - index
  {
    hide ScanEntry, PrintEntry, ValidEntry;
    if index < count {
      var next := ScanEntry(data, offset).value;
      ScanReads(data, next.1, index + Slots(next.0), count);
      ScannedValid(data, offset);
      PrintScanned(data, offset);
      var rest := ScanPool(data, next.1, index + Slots(next.0), count).value;
      assert ([next.0] + rest.entries)[1..] == rest.entries;
      assert data[offset..rest.offset] == data[offset..next.1] + data[next.1..rest.offset];
    }
  }

  lemma ScanPrinted(data: seq<Byte>, at: nat, entry: Entry)
    requires ValidEntry(entry) && Holds(data, at, PrintEntry(entry))
    ensures ScanEntry(data, at) == Ok((entry, at + |PrintEntry(entry)|))
  {
    match entry
    case Utf8(value) =>
      var size := WriteU16(|value|);
      HoldsParts(data, at, [1] + size, value);
      HoldsParts(data, at, [1], size);
      assert data[at + 0] == [1][0];
      ReadOfWrite(data, at + 1, |value|);
      HoldsSlice(data, at + 3, value);
    case Other(tag, payload) =>
      HoldsParts(data, at, [tag], payload);
      assert data[at + 0] == [tag][0];
      HoldsSlice(data, at + 1, payload);
  }

  lemma ScanPrintedFirst(data: seq<Byte>, at: nat, head: Entry, rest: Pool, index: nat, count: nat)
    requires ValidEntry(head) && Holds(data, at, PrintEntry(head)) && index < count
    requires ScanPool(data, at + |PrintEntry(head)|, index + Slots(head), count) == Ok(rest)
    ensures ScanPool(data, at, index, count) == Ok(Pool([head] + rest.entries, rest.offset, rest.index))
  {
    ScanPrinted(data, at, head);
  }

  lemma PrintedParts(data: seq<Byte>, at: nat, entries: seq<Entry>)
    requires entries != [] && Holds(data, at, Print(entries))
    ensures Holds(data, at, PrintEntry(entries[0]))
    ensures Holds(data, at + |PrintEntry(entries[0])|, Print(entries[1..]))
    ensures |Print(entries)| == |PrintEntry(entries[0])| + |Print(entries[1..])|
    ensures [entries[0]] + entries[1..] == entries
  {
    hide Holds, PrintEntry;
    HoldsParts(data, at, PrintEntry(entries[0]), Print(entries[1..]));
  }

  /** The entries are scanned back from `at`, up to `end`. */
  predicate ScansBack(data: seq<Byte>, at: nat, entries: seq<Entry>, end: nat, index: nat, count: nat) {
    ScanPool(data, at, index, count) == Ok(Pool(entries, end, count))
  }

  lemma ScansBackStep(data: seq<Byte>, at: nat, entries: seq<Entry>, end: nat, index: nat, count: nat)
    requires entries != [] && ValidEntry(entries[0]) && Holds(data, at, PrintEntry(entries[0])) && index < count
    requires ScansBack(data, at + |PrintEntry(entries[0])|, entries[1..], end, index + Slots(entries[0]), count)
    ensures ScansBack(data, at, entries, end, index, count)
  {
    ScanPrintedFirst(data, at, entries[0], Pool(entries[1..], end, count), index, count);
    assert [entries[0]] + entries[1..] == entries;
  }

  lemma ScansBackEnd(data: seq<Byte>, at: nat, index: nat)
    ensures ScansBack(data, at, [], at, index, index)
  {
  }

  /** What the printed entries need for being scanned back, taken apart at the first one. */
  lemma PrintedStep(data: seq<Byte>, at: nat, entries: seq<Entry>)
    requires ValidEntries(entries) && Holds(data, at, Print(entries)) && entries != []
    ensures ValidEntry(entries[0]) && ValidEntries(entries[1..])
    ensures TotalSlots(entries) == Slots(entries[0]) + TotalSlots(entries[1..])
    ensures Holds(data, at, PrintEntry(entries[0])) && Holds(data, at + |PrintEntry(entries[0])|, Print(entries[1..]))
    ensures |Print(entries)| == |PrintEntry(entries[0])| + |Print(entries[1..])|
  {
    PrintedParts(data, at, entries);
  }

  /** Scanning printed entries that fill their slots gives the entries back. */
  lemma {:induction false} ScanOfPrint(data: seq<Byte>, at: nat, entries: seq<Entry>, index: nat, count: nat)
    requires ValidEntries(entries) && Holds(data, at, Print(entries))
    requires index + TotalSlots(entries) == count
    ensures ScansBack(data, at, entries, at + |Print(entries)|, index, count)
    decreases |entries|
  {
    hide ScanPool;
    if entries == [] {
      ScansBackEnd(data, at, index);
    } else {
      PrintedStep(data, at, entries);
      var next := at + |PrintEntry(entries[0])|;
      ScanOfPrint(data, next, entries[1..], index + Slots(entries[0]), count);
      ScansBackStep(data, at, entries, next + |Print(entries[1..])|, index, count);
    }
  }

  // ---- What a successful rewriting keeps ----

  /** A class file read as its header, the entries of its pool and the rest. */
  predicate Reads(data: seq<Byte>, entries: seq<Entry>, tail: seq<Byte>) {
    && |data| >= 10 && |tail| <= |data|
    && ValidEntries(entries)
    && 1 + TotalSlots(entries) == PoolCount(data)
    && data == data[..10] + Print(entries) + tail
    && ScanPool(data, 10, 1, PoolCount(data)) == Ok(Pool(entries, |data| - |tail|, PoolCount(data)))
  }

  lemma {:induction false} RewriteKeepsSlots(entries: seq<Entry>, replacements: map<seq<Byte>, seq<Byte>>)
    ensures TotalSlots(Rewrite(entries, replacements)) == TotalSlots(entries)
  {
    if entries != [] {
      RewriteKeepsSlots(entries[1..], replacements);
      assert Rewrite(entries, replacements)[1..] == Rewrite(entries[1..], replacements);
    }
  }

  lemma RewriteKeepsValid(entries: seq<Entry>, replacements: map<seq<Byte>, seq<Byte>>)
    requires ValidEntries(entries) && ValidReplacements(replacements)
    ensures ValidEntries(Rewrite(entries, replacements))
  {
  }

  /** Printed entries behind a header that counts their slots are read back. */
  lemma PrintedReads(header: seq<Byte>, entries: seq<Entry>, tail: seq<Byte>)
    requires |header| == 10 && ValidEntries(entries) && 1 + TotalSlots(entries) == PoolCount(header)
    ensures Reads(header + Print(entries) + tail, entries, tail)
  {
    var data := header + Print(entries) + tail;
    assert data[..10] == header;
    assert data[8] == header[8] && data[9] == header[9];
    HoldsMiddle(header, Print(entries), tail);
    ScanOfPrint(data, 10, entries, 1, PoolCount(data));
  }

  lemma AdaptScans(data: seq<Byte>, replacements: map<seq<Byte>, seq<Byte>>) returns (pool: Pool)
    requires Adapt(data, replacements).Ok?
    ensures |data| >= 10 && ScanPool(data, 10, 1, PoolCount(data)) == Ok(pool) && pool.index == PoolCount(data)
    ensures EachHitOnce(pool.entries, replacements) && pool.offset <= |data| && MIN_TAIL <= |data| - pool.offset
    ensures Adapt(data, replacements).value == data[..10] + Print(Rewrite(pool.entries, replacements)) + data[pool.offset..]
  {
    pool := ScanPool(data, 10, 1, PoolCount(data)).value;
  }

  /** A scan from the header on reads the whole file. */
  lemma ScannedReads(data: seq<Byte>, pool: Pool)
    requires |data| >= 10 && ScanPool(data, 10, 1, PoolCount(data)) == Ok(pool)
    requires pool.index == PoolCount(data) && pool.offset <= |data|
    ensures Reads(data, pool.entries, data[pool.offset..])
  {
    hide ScanPool, PoolCount, Print, TotalSlots, ValidEntries;
    ScanReads(data, 10, 1, PoolCount(data));
    assert data == data[..10] + data[10..pool.offset] + data[pool.offset..];
  }

  lemma AdaptReads(data: seq<Byte>, replacements: map<seq<Byte>, seq<Byte>>) returns (entries: seq<Entry>, tail: seq<Byte>)
    requires Adapt(data, replacements).Ok?
    ensures Reads(data, entries, tail) && EachHitOnce(entries, replacements) && |tail| >= MIN_TAIL
    ensures Adapt(data, replacements).value == data[..10] + Print(Rewrite(entries, replacements)) + tail
  {
    hide *;
    var pool := AdaptScans(data, replacements);
    entries, tail := pool.entries, data[pool.offset..];
    ScannedReads(data, pool);
  }

  /** The first pool index of the entry at position `i`. */
  function SlotNumber(entries: seq<Entry>, i: nat): nat
    requires i <= |entries|
  {
    if i == 0 then 1 else Slots(entries[0]) + SlotNumber(entries[1..], i - 1)
  }

  lemma {:induction false} RewriteKeepsSlotNumbers(entries: seq<Entry>, replacements: map<seq<Byte>, seq<Byte>>, i: nat)
    requires i <= |entries|
    ensures SlotNumber(Rewrite(entries, replacements), i) == SlotNumber(entries, i)
  {
    if i > 0 {
      RewriteKeepsSlotNumbers(entries[1..], replacements, i - 1);
      assert Rewrite(entries, replacements)[1..] == Rewrite(entries[1..], replacements);
    }
  }

  /** The only position of a literal that is hit once. */
  lemma {:induction false} HitOnce(entries: seq<Entry>, literal: seq<Byte>) returns (i: nat)
    requires Hits(entries, literal) == 1
    ensures i < |entries| && entries[i] == Utf8(literal)
    ensures forall j :: 0 <= j < |entries| && j != i ==> entries[j] != Utf8(literal)
  {
    if entries[0] == Utf8(literal) {
      i := 0;
      HitNever(entries[1..], literal);
      forall j | 0 < j < |entries|
        ensures entries[j] != Utf8(literal)
      {
        assert entries[1..][j - 1] == entries[j];
      }
    } else {
      var k := HitOnce(entries[1..], literal);
      i := k + 1;
      forall j | 0 <= j < |entries| && j != i
        ensures entries[j] != Utf8(literal)
      {
        if j > 0 { assert entries[1..][j - 1] == entries[j]; }
      }
    }
  }

  lemma {:induction false} HitNever(entries: seq<Entry>, literal: seq<Byte>)
    ensures Hits(entries, literal) == 0 <==> forall j :: 0 <= j < |entries| ==> entries[j] != Utf8(literal)
  {
    if entries != [] {
      HitNever(entries[1..], literal);
      if forall j :: 0 <= j < |entries| ==> entries[j] != Utf8(literal) {
        assert forall j :: 0 <= j < |entries[1..]| ==> entries[1..][j] == entries[j + 1];
      } else {
        var j :| 0 <= j < |entries| && entries[j] == Utf8(literal);
        if j > 0 { assert entries[1..][j - 1] == Utf8(literal); }
      }
    }
  }

  /** The entries and the rest of a class file whose pool can be scanned. */
  predicate Scans(data: seq<Byte>) {
    && |data| >= 10 && ScanPool(data, 10, 1, PoolCount(data)).Ok?
    && ScanPool(data, 10, 1, PoolCount(data)).value.offset <= |data|
  }

  function EntriesOf(data: seq<Byte>): seq<Entry>
    requires Scans(data)
  {
    ScanPool(data, 10, 1, PoolCount(data)).value.entries
  }

  function TailOf(data: seq<Byte>): seq<Byte>
    requires Scans(data)
  {
    data[ScanPool(data, 10, 1, PoolCount(data)).value.offset..]
  }

  lemma ReadsScans(data: seq<Byte>, entries: seq<Entry>, tail: seq<Byte>)
    requires Reads(data, entries, tail)
    ensures Scans(data) && EntriesOf(data) == entries && TailOf(data) == tail
  {
  }

  /**
   A rewritten class has the same header, number of entries, slot numbers and
   rest; every entry is kept but exactly one per key, which becomes its
   replacement.
   */
  lemma AdaptIndexPreserving(data: seq<Byte>, replacements: map<seq<Byte>, seq<Byte>>)
    requires Adapt(data, replacements).Ok?
    ensures Scans(data) && Scans(Adapt(data, replacements).value)
    ensures var out := Adapt(data, replacements).value;
            var entries, changed := EntriesOf(data), EntriesOf(out);
            && out[..10] == data[..10] && TailOf(out) == TailOf(data)
            && |changed| == |entries|
            && (forall i :: 0 <= i <= |entries| ==> SlotNumber(changed, i) == SlotNumber(entries, i))
            && (forall i :: 0 <= i < |entries| ==> changed[i] == RewriteEntry(entries[i], replacements))
            && (forall old_ :: old_ in replacements ==>
                  exists i :: 0 <= i < |entries| && entries[i] == Utf8(old_) && changed[i] == Utf8(replacements[old_])
                              && forall j :: 0 <= j < |entries| && j != i ==> entries[j] != Utf8(old_))
  {
    var out := Adapt(data, replacements).value;
    var entries, tail := AdaptReads(data, replacements);
    var changed := Rewrite(entries, replacements);
    RewriteKeepsSlots(entries, replacements);
    RewriteKeepsValid(entries, replacements);
    PrintedReads(data[..10], changed, tail);
    ReadsScans(data, entries, tail);
    ReadsScans(out, changed, tail);
    forall i | 0 <= i <= |entries|
      ensures SlotNumber(changed, i) == SlotNumber(entries, i)
    {
      RewriteKeepsSlotNumbers(entries, replacements, i);
    }
    forall old_ | old_ in replacements
      ensures exists i :: 0 <= i < |entries| && entries[i] == Utf8(old_) && changed[i] == Utf8(replacements[old_])
                          && forall j :: 0 <= j < |entries| && j != i ==> entries[j] != Utf8(old_)
    {
      var i := HitOnce(entries, old_);
    }
  }

  // ---- Entries are the constants of a class file ----

  function EntryOf(c: Constant): Entry
    requires ConstantOk(c)
  {
    if c.Utf8Info? then Utf8(c.bytes) else Other(WriteConstant(c)[0], WriteConstant(c)[1..])
  }

  function EntriesFor(cs: seq<Constant>): (r: seq<Entry>)
    requires ConstantsOk(cs)
    ensures |r| == |cs| && forall i :: 0 <= i < |cs| ==> r[i] == EntryOf(cs[i])
  {
    seq(|cs|, i requires 0 <= i < |cs| => EntryOf(cs[i]))
  }

  /** A constant written field by field is the entry printed. */
  lemma EntryWritten(c: Constant)
    requires ConstantOk(c)
    ensures PrintEntry(EntryOf(c)) == WriteConstant(c) && ValidEntry(EntryOf(c))
    ensures Slots(EntryOf(c)) == if c.LongInfo? || c.DoubleInfo? then 2 else 1
  {
    if c.Utf8Info? {
      assert |c.bytes| / 256 % 256 == |c.bytes| / 256;
    } else {
      var written := WriteConstant(c);
      assert written == [written[0]] + written[1..];
    }
  }

  lemma U2Of(bytes: seq<Byte>) returns (n: U2)
    requires |bytes| == 2
    ensures WriteU2(n) == bytes
  {
    n := bytes[0] as int * 256 + bytes[1] as int;
  }

  lemma U4Of(bytes: seq<Byte>) returns (n: U4)
    requires |bytes| == 4
    ensures WriteU4(n) == bytes
  {
    var a, b, c, d: int := bytes[0], bytes[1], bytes[2], bytes[3];
    n := ((a * 256 + b) * 256 + c) * 256 + d;
    assert n / 256 == (a * 256 + b) * 256 + c && n / 256 / 256 == a * 256 + b;
    assert n / 0x1_0000 == n / 256 / 256 && n / 0x100_0000 == n / 256 / 256 / 256;
  }

  /** An entry of two halves. */
  lemma PairOf(tag: Byte, payload: seq<Byte>) returns (c: Constant)
    requires tag in {9, 10, 11, 12, 17, 18} && |payload| == 4
    ensures ConstantOk(c) && EntryOf(c) == Other(tag, payload)
  {
    var a := U2Of(payload[..2]);
    var b := U2Of(payload[2..]);
    assert payload == payload[..2] + payload[2..];
    c := if tag == 9 then FieldrefInfo(a, b) else if tag == 10 then MethodrefInfo(a, b)
    else if tag == 11 then InterfaceMethodrefInfo(a, b) else if tag == 12 then NameAndTypeInfo(a, b)
    else if tag == 17 then DynamicInfo(a, b) else InvokeDynamicInfo(a, b);
    assert WriteConstant(c)[1..] == payload;
  }

  lemma SingleOf(tag: Byte, payload: seq<Byte>) returns (c: Constant)
    requires tag in {7, 8, 16, 19, 20} && |payload| == 2
    ensures ConstantOk(c) && EntryOf(c) == Other(tag, payload)
  {
    var a := U2Of(payload);
    c := if tag == 7 then ClassInfo(a) else if tag == 8 then StringInfo(a) else if tag == 16 then MethodTypeInfo(a)
    else if tag == 19 then ModuleInfo(a) else PackageInfo(a);
    assert WriteConstant(c)[1..] == payload;
  }

  lemma NumberOf(tag: Byte, payload: seq<Byte>) returns (c: Constant)
    requires (tag in {3, 4} && |payload| == 4) || (tag in {5, 6} && |payload| == 8)
    ensures ConstantOk(c) && EntryOf(c) == Other(tag, payload)
  {
    var high := U4Of(payload[..4]);
    if tag == 3 || tag == 4 {
      assert payload[..4] == payload;
      c := if tag == 3 then IntegerInfo(high) else FloatInfo(high);
    } else {
      var low := U4Of(payload[4..]);
      assert payload == payload[..4] + payload[4..];
      c := if tag == 5 then LongInfo(high, low) else DoubleInfo(high, low);
    }
    assert WriteConstant(c)[1..] == payload;
  }

  /** Every entry that can be scanned is a constant. */
  lemma ConstantFor(entry: Entry) returns (c: Constant)
    requires ValidEntry(entry)
    ensures ConstantOk(c) && EntryOf(c) == entry
  {
    match entry
    case Utf8(value) => c := Utf8Info(value);
    case Other(tag, payload) =>
      if tag in {9, 10, 11, 12, 17, 18} {
        c := PairOf(tag, payload);
      } else if tag in {7, 8, 16, 19, 20} {
        c := SingleOf(tag, payload);
      } else if tag == 15 {
        var reference := U2Of(payload[1..]);
        c := MethodHandleInfo(payload[0], reference);
        assert WriteConstant(c)[1..] == payload;
      } else {
        c := NumberOf(tag, payload);
      }
  }

  lemma EntriesCons(c: Constant, cs: seq<Constant>)
    requires ConstantOk(c) && ConstantsOk(cs)
    ensures ConstantsOk([c] + cs) && EntriesFor([c] + cs) == [EntryOf(c)] + EntriesFor(cs)
  {
    hide EntryOf, ConstantOk;
  }

  lemma {:induction false} ConstantsFor(entries: seq<Entry>) returns (cs: seq<Constant>)
    requires ValidEntries(entries)
    ensures ConstantsOk(cs) && EntriesFor(cs) == entries
  {
    hide EntryOf, ValidEntry, ConstantOk, WriteConstant;
    cs := [];
    if entries != [] {
      var first := ConstantFor(entries[0]);
      var rest := ConstantsFor(entries[1..]);
      cs := [first] + rest;
      EntriesCons(first, rest);
      assert entries == [entries[0]] + entries[1..];
    }
  }

  lemma {:induction false} EntriesWritten(cs: seq<Constant>)
    requires ConstantsOk(cs)
    ensures Print(EntriesFor(cs)) == WriteConstants(cs) && ValidEntries(EntriesFor(cs)) && TotalSlots(EntriesFor(cs)) == Indices(cs)
  {
    hide WriteConstant, PrintEntry, Slots, ValidEntry;
    if cs != [] {
      EntryWritten(cs[0]);
      EntriesWritten(cs[1..]);
      assert EntriesFor(cs)[1..] == EntriesFor(cs[1..]);
      assert EntriesFor(cs) == [EntryOf(cs[0])] + EntriesFor(cs[1..]);
    }
  }

  /** A file consists of constants exactly when it reads as their entries. */
  lemma ConsistsReads(data: seq<Byte>, cs: seq<Constant>, tail: seq<Byte>)
    requires ConstantsOk(cs)
    ensures Consists(data, cs, tail) <==> |tail| >= 14 && Reads(data, EntriesFor(cs), tail)
  {
    hide Print, WriteConstants, TotalSlots, ValidEntries, ScanPool;
    EntriesWritten(cs);
    if Consists(data, cs, tail) {
      assert data[..10][8] == data[8] && data[..10][9] == data[9];
      PrintedReads(data[..10], EntriesFor(cs), tail);
    }
  }

  lemma OnceHit(cs: seq<Constant>, text: seq<Byte>)
    requires ConstantsOk(cs)
    ensures StandsOnce(cs, text) <==> Hits(EntriesFor(cs), text) == 1
  {
    var entries := EntriesFor(cs);
    forall i | 0 <= i < |cs| ensures entries[i] == Utf8(text) <==> cs[i] == Utf8Info(text) { }
    if Hits(entries, text) == 1 {
      var i := HitOnce(entries, text);
      assert cs[i] == Utf8Info(text);
    }
    if StandsOnce(cs, text) {
      var i :| 0 <= i < |cs| && cs[i] == Utf8Info(text) && forall j :: 0 <= j < |cs| && j != i ==> cs[j] != Utf8Info(text);
      OnlyHit(entries, text, i);
    }
  }

  lemma {:induction false} OnlyHit(entries: seq<Entry>, literal: seq<Byte>, i: nat)
    requires i < |entries| && entries[i] == Utf8(literal)
    requires forall j :: 0 <= j < |entries| && j != i ==> entries[j] != Utf8(literal)
    ensures Hits(entries, literal) == 1
  {
    if i == 0 {
      HitNever(entries[1..], literal);
    } else {
      assert forall j :: 0 <= j < |entries[1..]| ==> entries[1..][j] == entries[j + 1];
      OnlyHit(entries[1..], literal, i - 1);
    }
  }

  /** The constants after a replacement. */
  function Replace(cs: seq<Constant>, replacements: map<seq<Byte>, seq<Byte>>): (r: seq<Constant>)
    ensures Replaced(cs, r, replacements)
  {
    seq(|cs|, i requires 0 <= i < |cs| =>
      if cs[i].Utf8Info? && cs[i].bytes in replacements then Utf8Info(replacements[cs[i].bytes]) else cs[i])
  }

  lemma ReplaceOk(cs: seq<Constant>, changed: seq<Constant>, replacements: map<seq<Byte>, seq<Byte>>)
    requires ConstantsOk(cs) && ValidReplacements(replacements) && Replaced(cs, changed, replacements)
    ensures ConstantsOk(changed)
  {
    forall c <- changed ensures ConstantOk(c) {
      var i :| 0 <= i < |changed| && changed[i] == c;
      assert cs[i] in cs;
    }
  }

  lemma RewritesEntries(cs: seq<Constant>, changed: seq<Constant>, replacements: map<seq<Byte>, seq<Byte>>)
    requires ConstantsOk(cs) && ConstantsOk(changed) && Replaced(cs, changed, replacements)
    ensures EntriesFor(changed) == Rewrite(EntriesFor(cs), replacements)
  {
    hide WriteConstant;
    forall i | 0 <= i < |cs| ensures EntryOf(changed[i]) == RewriteEntry(EntryOf(cs[i]), replacements) { }
  }

  lemma SameAscii(bytes: seq<Byte>)
    ensures IsAscii(bytes) <==> forall b <- bytes :: b <= 127
  {
    if IsAscii(bytes) {
      forall b <- bytes ensures b <= 127 { }
    }
    if forall b <- bytes :: b <= 127 {
      forall i | 0 <= i < |bytes| ensures bytes[i] < 0x80 { assert bytes[i] in bytes; }
    }
  }

  lemma SameHeader(data: seq<Byte>)
    ensures ValidHeader(data) <==> HeaderOk(data)
    ensures |data| >= 10 ==> PoolCount(data) == data[8] as int * 256 + data[9] as int
  {
    if |data| >= 10 { assert data[..4] == [data[0], data[1], data[2], data[3]]; }
  }

  lemma SameReplacements(replacements: map<seq<Byte>, seq<Byte>>)
    ensures ValidReplacements(replacements) <==> ReplacementsOk(replacements)
  {
    hide IsAscii;
    forall old_ <- replacements
      ensures IsAscii(old_) <==> forall b <- old_ :: b <= 127
      ensures IsAscii(replacements[old_]) <==> forall b <- replacements[old_] :: b <= 127
    {
      SameAscii(old_);
      SameAscii(replacements[old_]);
    }
  }

  /** For a file that consists of these constants. */
  lemma AdaptOfConstants(data: seq<Byte>, replacements: map<seq<Byte>, seq<Byte>>, cs: seq<Constant>, tail: seq<Byte>, changed: seq<Constant>)
    requires Consists(data, cs, tail) && ValidReplacements(replacements) && Replaced(cs, changed, replacements)
    ensures ConstantsOk(changed)
    ensures Adapt(data, replacements).Ok? <==> HeaderOk(data) && forall old_ <- replacements :: StandsOnce(cs, old_)
    ensures Adapt(data, replacements).Ok? ==> Adapt(data, replacements).value == data[..10] + WriteConstants(changed) + tail
  {
    hide Consists, Reads, Adapt, ValidHeader, HeaderOk, ValidReplacements, Replaced, Print, WriteConstants, StandsOnce, Hits;
    ConsistsOk(data, cs, tail);
    ReplaceOk(cs, changed, replacements);
    ConsistsReads(data, cs, tail);
    AdaptOfReads(data, EntriesFor(cs), tail, replacements);
    SameHeader(data);
    EntriesWritten(changed);
    RewritesEntries(cs, changed, replacements);
    forall old_ <- replacements ensures StandsOnce(cs, old_) <==> Hits(EntriesFor(cs), old_) == 1 { OnceHit(cs, old_); }
  }

  lemma ConsistsOk(data: seq<Byte>, cs: seq<Constant>, tail: seq<Byte>)
    requires Consists(data, cs, tail)
    ensures ConstantsOk(cs) && |tail| >= 14 && |data| >= 10
  {
  }

  lemma AdaptRewrites(data: seq<Byte>, replacements: map<seq<Byte>, seq<Byte>>)
    requires Adapt(data, replacements).Ok?
    ensures Rewrites(data, replacements, Adapt(data, replacements).value)
  {
    hide Consists, Reads, ValidHeader, HeaderOk, ValidReplacements, ReplacementsOk, Replaced, Print, WriteConstants, StandsOnce, Hits, ScanPool;
    var entries, tail := AdaptReads(data, replacements);
    ReadsValid(data, entries, tail);
    var cs := ConstantsFor(entries);
    ConsistsReads(data, cs, tail);
    SameReplacements(replacements);
    var changed := Replace(cs, replacements);
    AdaptOfConstants(data, replacements, cs, tail, changed);
  }

  lemma ReadsValid(data: seq<Byte>, entries: seq<Entry>, tail: seq<Byte>)
    requires Reads(data, entries, tail)
    ensures ValidEntries(entries) && |data| >= 10
  {
  }

  /** The program's output for a class file is exactly its rewriting, constant by constant. */
  lemma AdaptExactly(data: seq<Byte>, replacements: map<seq<Byte>, seq<Byte>>, out: seq<Byte>)
    ensures Adapt(data, replacements) == Ok(out) <==> Rewrites(data, replacements, out)
  {
    hide Consists, Replaced, StandsOnce, Adapt, WriteConstants, ReplacementsOk, ValidReplacements, ConstantsOk;
    if Adapt(data, replacements) == Ok(out) { AdaptRewrites(data, replacements); }
    if Rewrites(data, replacements, out) {
      SameReplacements(replacements);
      var cs: seq<Constant>, tail: seq<Byte>, changed: seq<Constant> :|
        && Consists(data, cs, tail) && (forall old_ <- replacements :: StandsOnce(cs, old_))
        && Replaced(cs, changed, replacements) && ConstantsOk(changed)
        && out == data[..10] + WriteConstants(changed) + tail;
      AdaptOfConstants(data, replacements, cs, tail, changed);
    }
  }

  lemma AdaptDescribed(data: seq<Byte>, replacements: map<seq<Byte>, seq<Byte>>)
    ensures Adapt(data, replacements).Ok? ==> Rewrites(data, replacements, Adapt(data, replacements).value)
    ensures Adapt(data, replacements).Err? ==> forall out :: !Rewrites(data, replacements, out)
    ensures Adapt(data, replacements) == Err(InvalidHeader) <==> !HeaderOk(data)
    ensures Adapt(data, replacements) == Err(InvalidReplacements) <==> HeaderOk(data) && !ReplacementsOk(replacements)
  {
    hide Rewrites, HeaderOk, ReplacementsOk, ValidHeader, ValidReplacements;
    SameHeader(data);
    SameReplacements(replacements);
    NeverInvalid(data, 10, 1, if |data| >= 10 then PoolCount(data) else 0);
    forall out ensures Adapt(data, replacements) == Ok(out) <==> Rewrites(data, replacements, out) {
      AdaptExactly(data, replacements, out);
    }
  }

  lemma {:induction false} NeverInvalid(data: seq<Byte>, offset: nat, index: nat, count: nat)
    ensures ScanPool(data, offset, index, count) != Err(InvalidHeader) && ScanPool(data, offset, index, count) != Err(InvalidReplacements)
    decreases count - index
  {
    if index < count && ScanEntry(data, offset).Ok? {
      var next := ScanEntry(data, offset).value;
      NeverInvalid(data, next.1, index + Slots(next.0), count);
    }
  }

  // ---- How much the file grows ----

  function Sum(keys: seq<seq<Byte>>, f: seq<Byte> -> int): int {
    if keys == [] then 0 else f(keys[0]) + Sum(keys[1..], f)
  }

  function Grown(replacements: map<seq<Byte>, seq<Byte>>): seq<Byte> -> int {
    old_ => if old_ in replacements then |replacements[old_]| - |old_| else 0
  }

  function GrownHits(entries: seq<Entry>, replacements: map<seq<Byte>, seq<Byte>>): seq<Byte> -> int {
    old_ => Hits(entries, old_) * Grown(replacements)(old_)
  }

  /** The keys, each once, in some order. */
  predicate Enumerates(keys: seq<seq<Byte>>, replacements: map<seq<Byte>, seq<Byte>>) {
    && (forall old_ :: old_ in replacements ==> old_ in keys)
    && (forall old_ :: old_ in keys ==> old_ in replacements)
    && forall i, j :: 0 <= i < j < |keys| ==> keys[i] != keys[j]
  }

  lemma {:induction false} SumZero(keys: seq<seq<Byte>>, replacements: map<seq<Byte>, seq<Byte>>)
    ensures Sum(keys, GrownHits([], replacements)) == 0
  {
    if keys != [] {
      SumZero(keys[1..], replacements);
      assert GrownHits([], replacements)(keys[0]) == 0 * Grown(replacements)(keys[0]) == 0;
    }
  }

  /** One more entry adds its own growth to the sum over distinct keys. */
  lemma {:induction false} SumStep(keys: seq<seq<Byte>>, entry: Entry, rest: seq<Entry>, replacements: map<seq<Byte>, seq<Byte>>)
    requires forall i, j :: 0 <= i < j < |keys| ==> keys[i] != keys[j]
    ensures Sum(keys, GrownHits([entry] + rest, replacements))
            == Sum(keys, GrownHits(rest, replacements))
               + if entry.Utf8? && entry.value in keys then Grown(replacements)(entry.value) else 0
  {
    if keys != [] {
      SumStep(keys[1..], entry, rest, replacements);
      assert ([entry] + rest)[1..] == rest;
      var k := keys[0];
      var g := Grown(replacements)(k);
      assert entry == Utf8(k) ==> k !in keys[1..];
      assert (Hits(rest, k) + 1) * g == Hits(rest, k) * g + g;
      assert entry.Utf8? ==> (entry.value in keys <==> entry.value == k || entry.value in keys[1..]);
    }
  }

  lemma {:induction false} PrintGrowth(entries: seq<Entry>, replacements: map<seq<Byte>, seq<Byte>>, keys: seq<seq<Byte>>)
    requires Enumerates(keys, replacements)
    ensures |Print(Rewrite(entries, replacements))| == |Print(entries)| + Sum(keys, GrownHits(entries, replacements))
  {
    if entries == [] {
      SumZero(keys, replacements);
    } else {
      PrintGrowth(entries[1..], replacements, keys);
      assert Rewrite(entries, replacements)[1..] == Rewrite(entries[1..], replacements);
      assert [entries[0]] + entries[1..] == entries;
      SumStep(keys, entries[0], entries[1..], replacements);
    }
  }

  lemma {:induction false} SumSame(keys: seq<seq<Byte>>, entries: seq<Entry>, replacements: map<seq<Byte>, seq<Byte>>)
    requires forall k :: k in keys ==> Hits(entries, k) == 1
    ensures Sum(keys, GrownHits(entries, replacements)) == Sum(keys, Grown(replacements))
  {
    if keys != [] { SumSame(keys[1..], entries, replacements); }
  }

  /** The output is longer by exactly the differences of the literals, one per key. */
  lemma AdaptLength(data: seq<Byte>, replacements: map<seq<Byte>, seq<Byte>>, keys: seq<seq<Byte>>)
    requires Adapt(data, replacements).Ok? && Enumerates(keys, replacements)
    ensures |Adapt(data, replacements).value| == |data| + Sum(keys, Grown(replacements))
  {
    var entries, tail := AdaptReads(data, replacements);
    PrintGrowth(entries, replacements, keys);
    SumSame(keys, entries, replacements);
  }

  // ---- Swapping the mapping undoes the rewriting ----

  /** `back` maps every new literal to its old one, and nothing else. */
  predicate Swapped(replacements: map<seq<Byte>, seq<Byte>>, back: map<seq<Byte>, seq<Byte>>) {
    && (forall old_ :: old_ in replacements ==> replacements[old_] in back && back[replacements[old_]] == old_)
    && (forall new_ :: new_ in back ==> back[new_] in replacements && replacements[back[new_]] == new_)
  }

  /** The new literal of `old_` is not empty, and is a key or absent from the pool. */
  predicate Undoable(entries: seq<Entry>, replacements: map<seq<Byte>, seq<Byte>>) {
    forall old_ :: old_ in replacements ==>
      replacements[old_] != [] && (replacements[old_] in replacements || Hits(entries, replacements[old_]) == 0)
  }

  lemma SwapEntry(entry: Entry, replacements: map<seq<Byte>, seq<Byte>>, back: map<seq<Byte>, seq<Byte>>)
    requires Swapped(replacements, back)
    requires entry.Utf8? && entry.value in back ==> entry.value in replacements
    ensures RewriteEntry(RewriteEntry(entry, replacements), back) == entry
  {
  }

  /** After rewriting, a new literal is hit as often as its old one was, plus where it stood unmapped. */
  lemma {:induction false} RewrittenHits(entries: seq<Entry>, replacements: map<seq<Byte>, seq<Byte>>,
                                         back: map<seq<Byte>, seq<Byte>>, old_: seq<Byte>)
    requires Swapped(replacements, back) && old_ in replacements
    ensures var new_ := replacements[old_];
            Hits(Rewrite(entries, replacements), new_)
            == Hits(entries, old_) + if new_ in replacements then 0 else Hits(entries, new_)
  {
    if entries != [] {
      RewrittenHits(entries[1..], replacements, back, old_);
      assert Rewrite(entries, replacements)[1..] == Rewrite(entries[1..], replacements);
      var entry := entries[0];
      if entry.Utf8? && entry.value in replacements && replacements[entry.value] == replacements[old_] {
        assert entry.value == back[replacements[entry.value]] == old_;
      }
    }
  }

  lemma SwapEntries(entries: seq<Entry>, replacements: map<seq<Byte>, seq<Byte>>, back: map<seq<Byte>, seq<Byte>>)
    requires Swapped(replacements, back) && Undoable(entries, replacements)
    ensures Rewrite(Rewrite(entries, replacements), back) == entries
  {
    forall i | 0 <= i < |entries|
      ensures RewriteEntry(RewriteEntry(entries[i], replacements), back) == entries[i]
    {
      if entries[i].Utf8? && entries[i].value in back && entries[i].value !in replacements {
        HitNever(entries, entries[i].value);
        assert false;
      }
      SwapEntry(entries[i], replacements, back);
    }
  }

  /** The keys that are hit are no longer than a constant can be. */
  lemma SwappedValid(entries: seq<Entry>, replacements: map<seq<Byte>, seq<Byte>>, back: map<seq<Byte>, seq<Byte>>)
    requires Swapped(replacements, back) && ValidReplacements(replacements)
    requires ValidEntries(entries) && EachHitOnce(entries, replacements)
    ensures ValidReplacements(back) <==> forall old_ :: old_ in replacements ==> replacements[old_] != []
  {
    forall old_ | old_ in replacements
      ensures |old_| <= 65535
    {
      var i := HitOnce(entries, old_);
      assert ValidEntry(entries[i]);
    }
    var some :| some in replacements;
    assert replacements[some] in back;
  }

  /** What the program does with a file that reads as these entries. */
  lemma AdaptOfReads(data: seq<Byte>, entries: seq<Entry>, tail: seq<Byte>, replacements: map<seq<Byte>, seq<Byte>>)
    requires Reads(data, entries, tail)
    ensures Adapt(data, replacements).Ok? <==>
              ValidHeader(data) && ValidReplacements(replacements) && |tail| >= MIN_TAIL && EachHitOnce(entries, replacements)
    ensures Adapt(data, replacements).Ok? ==>
              Adapt(data, replacements).value == data[..10] + Print(Rewrite(entries, replacements)) + tail
  {
    assert data[|data| - |tail|..] == tail;
  }

  /** The swapped keys are all hit once exactly when nothing unmapped collides with them. */
  lemma SwappedHits(entries: seq<Entry>, replacements: map<seq<Byte>, seq<Byte>>, back: map<seq<Byte>, seq<Byte>>)
    requires Swapped(replacements, back) && EachHitOnce(entries, replacements)
    requires forall old_ :: old_ in replacements ==> replacements[old_] != []
    ensures EachHitOnce(Rewrite(entries, replacements), back) <==> Undoable(entries, replacements)
  {
    var changed := Rewrite(entries, replacements);
    forall old_ | old_ in replacements
      ensures Hits(changed, replacements[old_]) == 1
              <==> replacements[old_] in replacements || Hits(entries, replacements[old_]) == 0
    {
      RewrittenHits(entries, replacements, back, old_);
    }
    if EachHitOnce(changed, back) {
      forall old_ | old_ in replacements
        ensures Hits(changed, replacements[old_]) == 1
      {
        assert replacements[old_] in back;
      }
    }
  }

  /** The header and the rewritten entries read as the rewritten entries. */
  lemma RewrittenReads(data: seq<Byte>, entries: seq<Entry>, tail: seq<Byte>, replacements: map<seq<Byte>, seq<Byte>>)
    requires Reads(data, entries, tail) && ValidReplacements(replacements)
    ensures Reads(data[..10] + Print(Rewrite(entries, replacements)) + tail, Rewrite(entries, replacements), tail)
  {
    RewriteKeepsSlots(entries, replacements);
    RewriteKeepsValid(entries, replacements);
    PrintedReads(data[..10], Rewrite(entries, replacements), tail);
  }

  lemma OutputHeader(data: seq<Byte>, middle: seq<Byte>, tail: seq<Byte>)
    requires ValidHeader(data)
    ensures var out := data[..10] + middle + tail;
            out[..10] == data[..10] && (ValidHeader(out) <==> |out| <= MAX_SIZE)
  {
    HeaderKept(data, middle + tail);
    assert data[..10] + middle + tail == data[..10] + (middle + tail);
  }

  /** The output reads as the rewritten entries. */
  lemma OutputReads(data: seq<Byte>, replacements: map<seq<Byte>, seq<Byte>>, entries: seq<Entry>, tail: seq<Byte>, out: seq<Byte>)
    requires Adapt(data, replacements) == Ok(out) && Reads(data, entries, tail)
    ensures Reads(out, Rewrite(entries, replacements), tail) && out[..10] == data[..10]
    ensures ValidHeader(out) <==> |out| <= MAX_SIZE
  {
    AdaptOfReads(data, entries, tail, replacements);
    RewrittenReads(data, entries, tail, replacements);
    OutputHeader(data, Print(Rewrite(entries, replacements)), tail);
  }

  /** The swapped mapping is accepted on the rewritten entries exactly when it undoes them. */
  lemma UndoneEntries(entries: seq<Entry>, replacements: map<seq<Byte>, seq<Byte>>, back: map<seq<Byte>, seq<Byte>>)
    requires Swapped(replacements, back) && ValidReplacements(replacements)
    requires ValidEntries(entries) && EachHitOnce(entries, replacements)
    ensures ValidReplacements(back) && EachHitOnce(Rewrite(entries, replacements), back) <==> Undoable(entries, replacements)
    ensures Undoable(entries, replacements) ==> Rewrite(Rewrite(entries, replacements), back) == entries
  {
    SwappedValid(entries, replacements, back);
    if forall old_ :: old_ in replacements ==> replacements[old_] != [] {
      SwappedHits(entries, replacements, back);
      if Undoable(entries, replacements) { SwapEntries(entries, replacements, back); }
    }
  }

  /**
   Applying the swapped mapping to the output gives the original back exactly
   when no new literal is empty, each is a key or absent from the original
   pool, and the file with the differences of the literals added is within
   the size limit.
   */
  lemma AdaptUndone(data: seq<Byte>, replacements: map<seq<Byte>, seq<Byte>>, back: map<seq<Byte>, seq<Byte>>, keys: seq<seq<Byte>>)
    requires Adapt(data, replacements).Ok? && Swapped(replacements, back) && Enumerates(keys, replacements)
    ensures Scans(data)
    ensures Adapt(Adapt(data, replacements).value, back) == Ok(data)
            <==> Undoable(EntriesOf(data), replacements) && |data| + Sum(keys, Grown(replacements)) <= MAX_SIZE
  {
    var entries, tail := AdaptReads(data, replacements);
    var out := Adapt(data, replacements).value;
    ReadsScans(data, entries, tail);
    OutputReads(data, replacements, entries, tail, out);
    AdaptOfReads(data, entries, tail, replacements);
    AdaptOfReads(out, Rewrite(entries, replacements), tail, back);
    UndoneEntries(entries, replacements, back);
    AdaptLength(data, replacements, keys);
  }

  /** A class file with the constants `a` and `b` and nothing else in its pool. */
  function Example(): (data: seq<Byte>) {
    (MAGIC + [0, 0, 0, 52, 0, 3]) + Print([Utf8([97]), Utf8([98])]) + seq(MIN_TAIL, _ => 0)
  }

  /** `a` becomes `b`, which stands in the pool already: the swapped mapping finds it twice and is refused. */
  lemma UndoRefused()
    ensures Adapt(Example(), map[[97] := [98]]).Ok?
    ensures Adapt(Adapt(Example(), map[[97] := [98]]).value, map[[98] := [97]]) == Err(UnexpectedLayout)
  {
    var header: seq<Byte> := MAGIC + [0, 0, 0, 52, 0, 3];
    var entries := [Utf8([97]), Utf8([98])];
    var tail: seq<Byte> := seq(MIN_TAIL, _ => 0);
    var there: map<seq<Byte>, seq<Byte>> := map[[97] := [98]];
    var back: map<seq<Byte>, seq<Byte>> := map[[98] := [97]];
    ExampleReads(header, entries, tail);
    var data := Example();
    AdaptOfReads(data, entries, tail, there);
    ExampleHits();
    var out := Adapt(data, there).value;
    OutputReads(data, there, entries, tail, out);
    ReadsScans(out, Rewrite(entries, there), tail);
    AdaptOfReads(out, Rewrite(entries, there), tail, back);
  }

  lemma ExampleReads(header: seq<Byte>, entries: seq<Entry>, tail: seq<Byte>)
    requires header == MAGIC + [0, 0, 0, 52, 0, 3] && entries == [Utf8([97]), Utf8([98])] && tail == seq(MIN_TAIL, _ => 0)
    ensures Example() == header + Print(entries) + tail
    ensures Reads(Example(), entries, tail) && ValidHeader(Example()) && |tail| == MIN_TAIL
  {
    assert entries[1..] == [Utf8([98])] && entries[1..][1..] == [];
    assert TotalSlots(entries[1..][1..]) == 0 && TotalSlots(entries[1..]) == 1 && TotalSlots(entries) == 2;
    PrintedReads(header, entries, tail);
    assert |Print(entries)| == 8 by {
      assert Print(entries[1..][1..]) == [];
    }
    assert Example()[..4] == MAGIC;
  }

  lemma ExampleHits()
    ensures var entries, there, back: map<seq<Byte>, seq<Byte>> := [Utf8([97]), Utf8([98])], map[[97] := [98]], map[[98] := [97]];
            && EachHitOnce(entries, there) && ValidReplacements(there) && ValidReplacements(back)
            && Rewrite(entries, there) == [Utf8([98]), Utf8([98])]
            && !EachHitOnce(Rewrite(entries, there), back)
  {
    var entries := [Utf8([97]), Utf8([98])];
    assert entries[1..] == [Utf8([98])] && entries[1..][1..] == [];
    var there: map<seq<Byte>, seq<Byte>> := map[[97] := [98]];
    var back: map<seq<Byte>, seq<Byte>> := map[[98] := [97]];
    assert [97] in there && [98] in back;
    var changed := [Utf8([98]), Utf8([98])];
    assert changed[1..] == [Utf8([98])] && changed[1..][1..] == [];
    assert Hits(changed, [98]) == 2;
  }

  lemma HeaderKept(data: seq<Byte>, rest: seq<Byte>)
    requires |data| >= 10
    ensures (data[..10] + rest)[..10] == data[..10]
    ensures (data[..10] + rest)[..4] == data[..4]
  {
  }
}
