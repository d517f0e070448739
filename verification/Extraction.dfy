/**
 Extraction of an archive into a directory (src/cmnd_linux/artifacts.py): all
 of its files or, when anything fails, none.
 */
module Extraction {
  import opened Sequences
  import opened Wrappers

  type Path = seq<string>

  type Content = seq<int>

  /**
   An archive member: its name, its sizes, whether it is a symbolic link, and
   its content, or None where reading it fails.
   */
  datatype Member = Member(name: string, size: nat, compressed: nat, isLink: bool, content: Option<Content>)

  datatype Limits = Limits(files: nat, bytes: nat, ratio: nat)

  datatype ArchiveError =
    | TooManyFiles | TooManyBytes | UnsafeName | NameCollision | SymbolicLink | CompressionRatio | ExtractionFailed

  // ---- Names ----

  function Normalized(name: string): string {
    if name == [] then [] else [if name[0] == '\\' then '/' else name[0]] + Normalized(name[1..])
  }

  /** The text before the first slash and the text after it. */
  function Component(text: string): (r: (string, string))
    ensures |r.1| < |text| || text == []
  {
    if text == [] then ([], [])
    else if text[0] == '/' then ([], text[1..])
    else
      var rest := Component(text[1..]);
      ([text[0]] + rest.0, rest.1)
  }

  /** The parts of a relative POSIX path: empty and `.` components are dropped. */
  function Parts(text: string): Path
    decreases |text|
  {
    if text == [] then []
    else
      var split := Component(text);
      (if split.0 == "" || split.0 == "." then [] else [split.0]) + Parts(split.1)
  }

  function Join(parts: Path): string {
    if parts == [] then "" else if |parts| == 1 then parts[0] else parts[0] + "/" + Join(parts[1..])
  }

  function AsPosix(parts: Path): string {
    if parts == [] then "." else Join(parts)
  }

  /** The path of an acceptable name: relative, without a drive and without `..`. */
  function SafeMember(name: string): Option<Path> {
    var text := Normalized(name);
    if text == [] || text[0] == '/' || (|text| >= 2 && text[1] == ':') || ".." in Parts(text) then None
    else Some(Parts(text))
  }

  /** Case folding, given by the forms that differ from the name itself. */
  function Fold(folds: map<string, string>, name: string): string {
    if name in folds then folds[name] else name
  }

  predicate IsDirectory(name: string) {
    name != [] && (name[|name| - 1] == '/' || name[|name| - 1] == '\\')
  }

  function TotalSize(members: seq<Member>): nat {
    if members == [] then 0 else members[0].size + TotalSize(members[1..])
  }

  /** A member with the path of its name. */
  datatype Entry = Entry(member: Member, path: Path)

  function Flaw(member: Member, limits: Limits): Option<ArchiveError> {
    if member.isLink then Some(SymbolicLink)
    else if member.compressed != 0 && member.size > limits.ratio * member.compressed then Some(CompressionRatio)
    else None
  }

  predicate Acceptable(member: Member, limits: Limits) {
    SafeMember(member.name).Some? && Flaw(member, limits).None?
  }

  function PathOf(member: Member): Path {
    var path := SafeMember(member.name);
    if path.Some? then path.value else []
  }

  function FoldedName(folds: map<string, string>, member: Member): string {
    Fold(folds, AsPosix(PathOf(member)))
  }

  /** Within the limits, every member acceptable, the folded names pairwise distinct. */
  predicate AllAcceptable(members: seq<Member>, limits: Limits, folds: map<string, string>) {
    && |members| <= limits.files && TotalSize(members) <= limits.bytes
    && (forall i :: 0 <= i < |members| ==> Acceptable(members[i], limits))
    && (forall i, j :: 0 <= i < j < |members| ==> FoldedName(folds, members[i]) != FoldedName(folds, members[j]))
  }

  function EntriesOf(members: seq<Member>): (r: seq<Entry>)
    ensures |r| == |members|
    ensures forall i :: 0 <= i < |r| ==> r[i] == Entry(members[i], PathOf(members[i]))
  {
    seq(|members|, i requires 0 <= i < |members| => Entry(members[i], PathOf(members[i])))
  }

  /** The checks on one member, in the program's order. */
  method CheckMember(member: Member, limits: Limits, folds: map<string, string>, seen: set<string>)
    returns (r: Result<(Path, string), ArchiveError>)
    ensures r.Ok? <==> Acceptable(member, limits) && FoldedName(folds, member) !in seen
    ensures r.Ok? ==> r.value == (PathOf(member), FoldedName(folds, member))
    ensures r == Err(UnsafeName) <==> forall path :: !IsPathOf(member.name, path)
    ensures r == Err(NameCollision) <==> SafeMember(member.name).Some? && FoldedName(folds, member) in seen
    ensures r == Err(SymbolicLink) ==> member.isLink
    ensures r == Err(CompressionRatio) ==> !member.isLink && member.compressed != 0 && member.size > limits.ratio * member.compressed
    ensures r.Err? ==> r.error !in {TooManyFiles, TooManyBytes}
    ensures r.Err? ==> r.error != ExtractionFailed
  {
    forall path ensures SafeMember(member.name) == Some(path) <==> IsPathOf(member.name, path) { SafeMemberExactly(member.name, path); }
    hide SafeMember, IsPathOf;
    var path := SafeMember(member.name);
    if path.Some? { assert IsPathOf(member.name, path.value); }
    if path.None? { return Err(UnsafeName); }
    var folded := Fold(folds, AsPosix(path.value));
    if folded in seen { return Err(NameCollision); }
    var flaw := Flaw(member, limits);
    if flaw.Some? { return Err(flaw.value); }
    return Ok((path.value, folded));
  }

  // ---- What an acceptable archive is ----

  /** The pieces with a slash between each two. */
  function Joined(pieces: seq<string>): string {
    if |pieces| == 0 then "" else if |pieces| == 1 then pieces[0] else pieces[0] + "/" + Joined(pieces[1..])
  }

  function Kept(): string -> bool { (piece: string) => piece != "" && piece != "." }

  /**
   With backslashes read as slashes, the name is relative, has no drive, none
   of its pieces is `..`, and the path is its pieces but the empty ones and `.`.
   */
  ghost predicate IsPathOf(name: string, path: Path) {
    exists pieces: seq<string> ::
      && Names(name, Joined(pieces)) && (forall piece <- pieces :: '/' !in piece)
      && Joined(pieces) != "" && Joined(pieces)[0] != '/' && !(|Joined(pieces)| > 1 && Joined(pieces)[1] == ':')
      && ".." !in pieces && Picks(pieces, Kept(), path)
  }

  predicate Names(name: string, text: string) {
    |text| == |name| && forall i :: 0 <= i < |name| ==> text[i] == if name[i] == '\\' then '/' else name[i]
  }

  function Split(text: string): (r: seq<string>)
    ensures r != []
  {
    if text == [] then [[]]
    else
      var rest := Split(text[1..]);
      if text[0] == '/' then [[]] + rest else [[text[0]] + rest[0]] + rest[1..]
  }

  lemma {:induction false} SplitJoins(text: string)
    ensures Joined(Split(text)) == text && forall piece <- Split(text) :: '/' !in piece
  {
    if text != [] {
      SplitJoins(text[1..]);
      var rest := Split(text[1..]);
      assert ([[]] + rest)[1..] == rest && ([[text[0]] + rest[0]] + rest[1..])[1..] == rest[1..];
      assert text == [text[0]] + text[1..];
    }
  }

  lemma {:induction false} SplitOfJoined(pieces: seq<string>)
    requires pieces != [] && forall piece <- pieces :: '/' !in piece
    ensures Split(Joined(pieces)) == pieces
    decreases |Joined(pieces)|
  {
    var text := Joined(pieces);
    var first := pieces[0];
    assert first in pieces;
    if first == [] {
      if |pieces| > 1 {
        assert text == "/" + Joined(pieces[1..]) && text[1..] == Joined(pieces[1..]);
        SplitOfJoined(pieces[1..]);
      }
    } else {
      var shorter := [first[1..]] + pieces[1..];
      assert shorter[1..] == pieces[1..];
      assert text[1..] == Joined(shorter) && text[0] == first[0];
      assert '/' !in first[1..];
      SplitOfJoined(shorter);
      assert [first[0]] + first[1..] == first && shorter[0] == first[1..];
      assert pieces == [first] + pieces[1..];
    }
  }

  /** The first component of a text and the rest are those of its pieces. */
  lemma {:induction false} ComponentSplit(text: string)
    requires text != []
    ensures Component(text).0 == Split(text)[0]
    ensures if |Split(text)| == 1 then Component(text).1 == [] else Split(Component(text).1) == Split(text)[1..]
  {
    if text[0] == '/' {
      assert ([[]] + Split(text[1..]))[1..] == Split(text[1..]);
    } else if text[1..] != [] {
      ComponentSplit(text[1..]);
    }
  }

  lemma {:induction false} PartsSplit(text: string)
    ensures Picks(Split(text), Kept(), Parts(text))
    ensures ".." in Parts(text) <==> ".." in Split(text)
    decreases |text|
  {
    hide Picks;
    PicksNone<string>(Kept());
    var first := Split(text)[0];
    PicksNext<string>([], Kept(), [], first);
    assert [] + [first] == [first];
    var chosen: seq<string> := if Kept()(first) then [first] else [];
    if text != [] {
      var rest := Component(text).1;
      ComponentSplit(text);
      if |Split(text)| == 1 {
        assert Split(text) == [first] && chosen + [] == chosen;
      } else {
        PartsSplit(rest);
        PicksJoin<string>([first], Split(rest), Kept(), chosen, Parts(rest));
        assert Split(text) == [first] + Split(rest);
      }
    }
  }

  lemma {:induction false} NormalizedNames(name: string)
    ensures Names(name, Normalized(name))
  {
    if name != [] { NormalizedNames(name[1..]); }
  }

  /** A name is accepted with a path exactly when that is its path. */
  lemma SafeMemberExactly(name: string, path: Path)
    ensures SafeMember(name) == Some(path) <==> IsPathOf(name, path)
  {
    hide Split, Joined, Parts, Picks, Normalized;
    var text := Normalized(name);
    NormalizedNames(name);
    SplitJoins(text);
    PartsSplit(text);
    if IsPathOf(name, path) {
      var pieces: seq<string> :|
        && Names(name, Joined(pieces)) && (forall piece <- pieces :: '/' !in piece)
        && Joined(pieces) != "" && Joined(pieces)[0] != '/' && !(|Joined(pieces)| > 1 && Joined(pieces)[1] == ':')
        && ".." !in pieces && Picks(pieces, Kept(), path);
      assert Joined(pieces) == text;
      JoinedNothing();
      SplitOfJoined(pieces);
      PicksAlike<string>(pieces, Kept(), Kept(), path, Parts(text));
    }
    if SafeMember(name).Some? {
      assert Names(name, Joined(Split(text)));
    }
  }

  lemma JoinedNothing()
    ensures Joined([]) == ""
  {
  }

  /** The folded text of a path, `.` for the empty one. */
  function FoldedPath(folds: map<string, string>, path: Path): string {
    var text := if path == [] then "." else Joined(path);
    if text in folds then folds[text] else text
  }

  function Bytes(members: seq<Member>): nat {
    if members == [] then 0 else Bytes(members[..|members| - 1]) + members[|members| - 1].size
  }

  /** Counts and sizes within the limits, every name has a path, no links, no wild expansion, no two paths alike but for case. */
  ghost predicate Wholesome(members: seq<Member>, limits: Limits, folds: map<string, string>) {
    && |members| <= limits.files && Bytes(members) <= limits.bytes
    && (forall m <- members ::
          && (exists path :: IsPathOf(m.name, path)) && !m.isLink
          && (m.compressed == 0 || m.size <= limits.ratio * m.compressed))
    && forall i, j, p, q :: 0 <= i < j < |members| && IsPathOf(members[i].name, p) && IsPathOf(members[j].name, q) ==>
         FoldedPath(folds, p) != FoldedPath(folds, q)
  }

  lemma {:induction false} BytesAre(members: seq<Member>)
    ensures TotalSize(members) == Bytes(members)
  {
    if members != [] {
      var n := |members| - 1;
      BytesAre(members[..n]);
      TotalSizeLast(members[..n], members[n]);
      assert members[..n] + [members[n]] == members;
    }
  }

  lemma {:induction false} TotalSizeLast(members: seq<Member>, m: Member)
    ensures TotalSize(members + [m]) == TotalSize(members) + m.size
  {
    if members == [] {
      assert ([] + [m])[1..] == [];
    } else {
      TotalSizeLast(members[1..], m);
      assert (members + [m])[1..] == members[1..] + [m];
    }
  }

  lemma {:induction false} JoinIsJoined(path: Path)
    ensures Join(path) == Joined(path)
  {
    if |path| > 1 { JoinIsJoined(path[1..]); }
  }

  lemma SameMember(member: Member, limits: Limits, folds: map<string, string>)
    ensures Acceptable(member, limits)
            <==> && (exists path :: IsPathOf(member.name, path)) && !member.isLink
                 && (member.compressed == 0 || member.size <= limits.ratio * member.compressed)
    ensures forall path :: IsPathOf(member.name, path) ==> FoldedPath(folds, path) == FoldedName(folds, member)
  {
    hide SafeMember, IsPathOf, Join;
    forall path ensures SafeMember(member.name) == Some(path) <==> IsPathOf(member.name, path) { SafeMemberExactly(member.name, path); }
    JoinIsJoined(PathOf(member));
    if SafeMember(member.name).Some? { assert IsPathOf(member.name, SafeMember(member.name).value); }
  }

  /** The checks accept exactly the wholesome archives. */
  lemma AcceptableExactly(members: seq<Member>, limits: Limits, folds: map<string, string>)
    ensures AllAcceptable(members, limits, folds) <==> Wholesome(members, limits, folds)
  {
    hide Acceptable, IsPathOf, FoldedName, FoldedPath, TotalSize, Bytes;
    BytesAre(members);
    forall m <- members
      ensures Acceptable(m, limits)
              <==> (exists path :: IsPathOf(m.name, path)) && !m.isLink && (m.compressed == 0 || m.size <= limits.ratio * m.compressed)
      ensures forall path :: IsPathOf(m.name, path) ==> FoldedPath(folds, path) == FoldedName(folds, m)
    {
      SameMember(m, limits, folds);
    }
    if Wholesome(members, limits, folds) {
      forall i | 0 <= i < |members| ensures Acceptable(members[i], limits) { assert members[i] in members; }
      forall i, j | 0 <= i < j < |members| ensures FoldedName(folds, members[i]) != FoldedName(folds, members[j]) {
        assert members[i] in members && members[j] in members;
        var p :| IsPathOf(members[i].name, p);
        var q :| IsPathOf(members[j].name, q);
      }
    }
    if AllAcceptable(members, limits, folds) {
      forall i, j, p, q | 0 <= i < j < |members| && IsPathOf(members[i].name, p) && IsPathOf(members[j].name, q)
        ensures FoldedPath(folds, p) != FoldedPath(folds, q)
      {
        assert members[i] in members && members[j] in members;
      }
    }
  }

  lemma PathsOf(members: seq<Member>, limits: Limits)
    ensures forall i :: 0 <= i < |members| && Acceptable(members[i], limits) ==> IsPathOf(members[i].name, PathOf(members[i]))
  {
    hide IsPathOf, SafeMember;
    forall i | 0 <= i < |members| && Acceptable(members[i], limits) ensures IsPathOf(members[i].name, PathOf(members[i])) {
      SafeMemberExactly(members[i].name, PathOf(members[i]));
    }
  }

  predicate AllDistinct(names: seq<string>) {
    forall i, j :: 0 <= i < j < |names| ==> names[i] != names[j]
  }

  function FoldedNames(folds: map<string, string>, members: seq<Member>): (r: seq<string>)
    ensures |r| == |members|
    ensures forall i :: 0 <= i < |r| ==> r[i] == FoldedName(folds, members[i])
  {
    seq(|members|, i requires 0 <= i < |members| => FoldedName(folds, members[i]))
  }

  /** The first members have no flaw and different names. */
  predicate Fine(members: seq<Member>, names: seq<string>, limits: Limits, k: nat)
    requires k <= |members| == |names|
  {
    (forall i :: 0 <= i < k ==> Acceptable(members[i], limits)) && AllDistinct(names[..k])
  }

  lemma FineNext(members: seq<Member>, names: seq<string>, limits: Limits, k: nat)
    requires k < |members| == |names| && Fine(members, names, limits, k)
    ensures Fine(members, names, limits, k + 1) <==> Acceptable(members[k], limits) && names[k] !in names[..k]
  {
    assert names[..k + 1] == names[..k] + [names[k]];
    if names[k] in names[..k] {
      var i :| 0 <= i < k && names[..k][i] == names[k];
      assert names[..k + 1][i] == names[..k + 1][k];
    }
  }

  lemma FineBack(members: seq<Member>, names: seq<string>, limits: Limits, k: nat, n: nat)
    requires k <= n <= |members| == |names|
    ensures Fine(members, names, limits, n) ==> Fine(members, names, limits, k)
  {
    assert forall i :: 0 <= i < k ==> names[..k][i] == names[..n][i];
  }

  /** Why an archive is refused. */
  ghost predicate Refused(members: seq<Member>, limits: Limits, folds: map<string, string>, e: ArchiveError) {
    match e
    case TooManyFiles => |members| > limits.files
    case TooManyBytes => |members| <= limits.files && Bytes(members) > limits.bytes
    case SymbolicLink => exists m <- members :: m.isLink
    case CompressionRatio => exists m <- members :: !m.isLink && m.compressed != 0 && m.size > limits.ratio * m.compressed
    case UnsafeName => exists m <- members :: forall path :: !IsPathOf(m.name, path)
    case NameCollision => exists i, j, p, q ::
      0 <= i < j < |members| && IsPathOf(members[i].name, p) && IsPathOf(members[j].name, q) && FoldedPath(folds, p) == FoldedPath(folds, q)
    case ExtractionFailed => false
  }

  lemma MemberRefused(members: seq<Member>, limits: Limits, folds: map<string, string>, k: nat, seen: set<string>, e: ArchiveError)
    requires k < |members| && (forall f :: f in seen <==> f in FoldedNames(folds, members)[..k])
    requires forall i :: 0 <= i < k ==> Acceptable(members[i], limits)
    requires match e
             case UnsafeName => forall path :: !IsPathOf(members[k].name, path)
             case NameCollision => SafeMember(members[k].name).Some? && FoldedName(folds, members[k]) in seen
             case SymbolicLink => members[k].isLink
             case CompressionRatio => !members[k].isLink && members[k].compressed != 0 && members[k].size > limits.ratio * members[k].compressed
             case _ => false
    ensures Refused(members, limits, folds, e)
  {
    hide IsPathOf, SafeMember, FoldedName, FoldedPath, Flaw;
    assert members[k] in members;
    if e == NameCollision {
      var names := FoldedNames(folds, members);
      var i :| 0 <= i < k && names[..k][i] == names[k];
      SameMember(members[i], limits, folds);
      SameMember(members[k], limits, folds);
      var p, q := PathOf(members[i]), PathOf(members[k]);
      SafeMemberExactly(members[i].name, p);
      SafeMemberExactly(members[k].name, q);
      assert FoldedPath(folds, p) == FoldedPath(folds, q);
    }
  }

  lemma SizesRefused(members: seq<Member>, limits: Limits, folds: map<string, string>)
    ensures |members| > limits.files ==> Refused(members, limits, folds, TooManyFiles)
    ensures |members| <= limits.files && TotalSize(members) > limits.bytes ==> Refused(members, limits, folds, TooManyBytes)
  {
    BytesAre(members);
  }

  lemma FineMembers(members: seq<Member>, names: seq<string>, limits: Limits, k: nat)
    requires k <= |members| == |names| && Fine(members, names, limits, k)
    ensures forall i :: 0 <= i < k ==> Acceptable(members[i], limits)
  {
  }

  lemma AllFine(members: seq<Member>, limits: Limits, folds: map<string, string>)
    ensures AllAcceptable(members, limits, folds)
            <==> && |members| <= limits.files && TotalSize(members) <= limits.bytes
                 && Fine(members, FoldedNames(folds, members), limits, |members|)
  {
    hide Acceptable, FoldedName, TotalSize;
    assert FoldedNames(folds, members)[..|members|] == FoldedNames(folds, members);
  }

  /** The first loop of the program: every name is checked before anything is written. */
  method Validate(members: seq<Member>, limits: Limits, folds: map<string, string>)
    returns (r: Result<seq<Entry>, ArchiveError>)
    ensures r.Ok? <==> AllAcceptable(members, limits, folds)
    ensures r.Ok? <==> Wholesome(members, limits, folds)
    ensures r.Ok? ==> r.value == EntriesOf(members)
    ensures r.Ok? ==> forall i :: 0 <= i < |members| ==> IsPathOf(members[i].name, r.value[i].path)
    ensures r.Err? ==> Refused(members, limits, folds, r.error)
    ensures r.Err? ==> r.error != ExtractionFailed
  {
    hide Wholesome, IsPathOf, SafeMember, AllAcceptable, Acceptable, FoldedName, Refused, TotalSize;
    AcceptableExactly(members, limits, folds);
    PathsOf(members, limits);
    AllFine(members, limits, folds);
    SizesRefused(members, limits, folds);
    ghost var names, entries := FoldedNames(folds, members), EntriesOf(members);
    if |members| > limits.files { return Err(TooManyFiles); }
    if TotalSize(members) > limits.bytes { return Err(TooManyBytes); }
    var seen: set<string> := {};
    var validated: seq<Entry> := [];
    for k := 0 to |members|
      invariant |validated| == k && Fine(members, names, limits, k)
      invariant validated == entries[..k]
      invariant forall f :: f in seen <==> f in names[..k]
    {
      hide Fine;
      FineNext(members, names, limits, k);
      var checked := CheckMember(members[k], limits, folds, seen);
      if checked.Err? {
        FineBack(members, names, limits, k + 1, |members|);
        FineMembers(members, names, limits, k);
        MemberRefused(members, limits, folds, k, seen, checked.error);
        return Err(checked.error);
      }
      seen := seen + {checked.value.1};
      TakeNext(names, k);
      TakeNext(entries, k);
      assert entries[k] == Entry(members[k], checked.value.0);
      validated := validated + [Entry(members[k], checked.value.0)];
    }
    assert entries[..|members|] == entries;
    return Ok(validated);
  }

  // ---- The file tree ----

  type Files = map<Path, Content>

  /** The files with the entries from the archive added; directories hold no content. */
  function Added(files: Files, target: Path, entries: seq<Entry>): Files
  {
    if entries == [] then files
    else
      var last := entries[|entries| - 1];
      var before := Added(files, target, entries[..|entries| - 1]);
      if IsDirectory(last.member.name) || last.member.content.None? then before
      else before[target + last.path := last.member.content.value]
  }

  /** The entry is a file of the archive. */
  predicate IsFile(entry: Entry) {
    entry.member.name == "" || entry.member.name[|entry.member.name| - 1] !in {'/', '\\'}
  }

  /** Every file of the archive can be read and finds its place free. */
  predicate AllFresh(files: Files, target: Path, entries: seq<Entry>) {
    && (forall i :: 0 <= i < |entries| && IsFile(entries[i]) ==>
          entries[i].member.content.Some? && target + entries[i].path !in files)
    && (forall i, j :: 0 <= i < j < |entries| && IsFile(entries[i]) && IsFile(entries[j]) ==>
          entries[i].path != entries[j].path)
  }

  /** `all` is `files` with exactly the archive's files, each with its content. */
  ghost predicate AddsExactly(files: Files, target: Path, entries: seq<Entry>, all: Files) {
    && (forall p :: p in files ==> p in all && all[p] == files[p])
    && (forall i :: 0 <= i < |entries| && IsFile(entries[i]) ==>
          target + entries[i].path in all && Some(all[target + entries[i].path]) == entries[i].member.content)
    && (forall p :: p in all && p !in files ==> AnyFile(target, entries, p))
  }

  /** The path is that of a file of the archive. */
  predicate AnyFile(target: Path, entries: seq<Entry>, p: Path) {
    exists i :: 0 <= i < |entries| && IsFile(entries[i]) && p == target + entries[i].path
  }

  lemma AnyFileNext(target: Path, entries: seq<Entry>, last: Entry, p: Path)
    ensures AnyFile(target, entries + [last], p) <==> AnyFile(target, entries, p) || (IsFile(last) && p == target + last.path)
  {
    var all := entries + [last];
    assert all[|entries|] == last;
    if AnyFile(target, entries, p) {
      var i :| 0 <= i < |entries| && IsFile(entries[i]) && p == target + entries[i].path;
      assert all[i] == entries[i];
    }
    if AnyFile(target, all, p) && !(IsFile(last) && p == target + last.path) {
      var i :| 0 <= i < |all| && IsFile(all[i]) && p == target + all[i].path;
      assert entries[i] == all[i];
    }
  }

  /** One more file, at a new place. */
  lemma AddsFile(files: Files, target: Path, entries: seq<Entry>, last: Entry, all: Files)
    requires AddsExactly(files, target, entries, all) && IsFile(last) && last.member.content.Some?
    requires target + last.path !in files && forall i :: 0 <= i < |entries| && IsFile(entries[i]) ==> entries[i].path != last.path
    ensures AddsExactly(files, target, entries + [last], all[target + last.path := last.member.content.value])
  {
    var next := all[target + last.path := last.member.content.value];
    forall i | 0 <= i < |entries| && IsFile(entries[i]) ensures target + entries[i].path != target + last.path {
      PathsDiffer(target, entries[i].path, last.path);
    }
    hide AnyFile;
    forall p | p in next && p !in files ensures AnyFile(target, entries + [last], p) {
      AnyFileNext(target, entries, last, p);
    }
  }

  lemma AddsDirectory(files: Files, target: Path, entries: seq<Entry>, last: Entry, all: Files)
    requires AddsExactly(files, target, entries, all) && !IsFile(last)
    ensures AddsExactly(files, target, entries + [last], all)
  {
    hide AnyFile;
    forall p | p in all && p !in files ensures AnyFile(target, entries + [last], p) {
      AnyFileNext(target, entries, last, p);
    }
  }

  lemma AddedNext(files: Files, target: Path, entries: seq<Entry>, last: Entry)
    ensures var before := Added(files, target, entries);
            Added(files, target, entries + [last])
            == if IsDirectory(last.member.name) || last.member.content.None? then before
               else before[target + last.path := last.member.content.value]
  {
    assert (entries + [last])[..|entries|] == entries;
  }

  lemma FreshInit(files: Files, target: Path, entries: seq<Entry>, last: Entry)
    requires AllFresh(files, target, entries + [last])
    ensures AllFresh(files, target, entries)
    ensures IsFile(last) ==> last.member.content.Some? && target + last.path !in files
    ensures IsFile(last) ==> forall i :: 0 <= i < |entries| && IsFile(entries[i]) ==> entries[i].path != last.path
  {
    var all := entries + [last];
    assert all[|entries|] == last && forall i :: 0 <= i < |entries| ==> all[i] == entries[i];
  }

  /** What extraction adds: exactly the archive's files, each with its content. */
  lemma {:induction false} AddedExactly(files: Files, target: Path, entries: seq<Entry>)
    requires AllFresh(files, target, entries)
    ensures AddsExactly(files, target, entries, Added(files, target, entries))
  {
    if entries != [] {
      var n := |entries| - 1;
      var front, last := entries[..n], entries[n];
      assert entries == front + [last];
      FreshInit(files, target, front, last);
      AddedExactly(files, target, front);
      AddedNext(files, target, front, last);
      hide Added, AddsExactly, AllFresh;
      if IsFile(last) {
        AddsFile(files, target, front, last, Added(files, target, front));
      } else {
        AddsDirectory(files, target, front, last, Added(files, target, front));
      }
    }
  }

  lemma PathsDiffer(target: Path, a: Path, b: Path)
    ensures target + a == target + b <==> a == b
  {
    if target + a == target + b {
      assert a == (target + a)[|target|..] && b == (target + b)[|target|..];
    }
  }

  // ---- Where the entries go ----

  function Output(target: Path, e: Entry): Path { target + e.path }

  /** The directory that is made for the entry: its own, or that of its file. */
  function Home(target: Path, e: Entry): Path {
    var output := Output(target, e);
    if !IsFile(e) || output == [] then output else output[..|output| - 1]
  }

  /** The entry needs `p` to be a directory. */
  predicate Passes(target: Path, e: Entry, p: Path) { p <= Home(target, e) }

  /** Nothing that was there is in the way of the entry. */
  ghost predicate Placeable(files: Files, directories: set<Path>, target: Path, e: Entry) {
    && (forall p :: Passes(target, e, p) ==> p !in files)
    && (IsFile(e) ==>
          && e.member.content.Some? && Output(target, e) !in files && Output(target, e) !in directories
          && !Passes(target, e, Output(target, e)))
  }

  /** One of the entries is a file where the other needs a directory, or both are the same file. */
  predicate Conflict(target: Path, a: Entry, b: Entry) {
    || (IsFile(a) && Passes(target, b, Output(target, a)))
    || (IsFile(b) && Passes(target, a, Output(target, b)))
    || (IsFile(a) && IsFile(b) && Output(target, a) == Output(target, b))
  }

  /** Every entry finds its place, whatever the other entries need. */
  ghost predicate Clear(files: Files, directories: set<Path>, target: Path, entries: seq<Entry>) {
    && (forall i :: 0 <= i < |entries| ==> Placeable(files, directories, target, entries[i]))
    && (forall i, j :: 0 <= i < j < |entries| ==> !Conflict(target, entries[i], entries[j]))
  }

  lemma ClearNext(files: Files, directories: set<Path>, target: Path, entries: seq<Entry>, k: nat)
    requires k < |entries|
    ensures Clear(files, directories, target, entries[..k + 1])
            <==> && Clear(files, directories, target, entries[..k]) && Placeable(files, directories, target, entries[k])
                 && forall j :: 0 <= j < k ==> !Conflict(target, entries[j], entries[k])
  {
    hide Placeable, Conflict;
    var front, next := entries[..k], entries[..k + 1];
    assert next == front + [entries[k]];
    if Clear(files, directories, target, next) {
      forall i | 0 <= i < k ensures Placeable(files, directories, target, front[i]) { assert next[i] == front[i]; }
      forall i, j | 0 <= i < j < k ensures !Conflict(target, front[i], front[j]) { assert next[i] == front[i] && next[j] == front[j]; }
      assert next[k] == entries[k];
      forall j | 0 <= j < k ensures !Conflict(target, entries[j], entries[k]) { assert next[j] == entries[j]; }
    }
  }

  lemma ClearFront(files: Files, directories: set<Path>, target: Path, entries: seq<Entry>, k: nat)
    requires k <= |entries| && Clear(files, directories, target, entries)
    ensures Clear(files, directories, target, entries[..k])
  {
    hide Placeable, Conflict;
  }

  /** A step of the extraction of the entry with this number. */
  datatype Step = MakeHome(entry: nat) | Create(entry: nat) | Fill(entry: nat)

  /** A file tree; an operation that does not work fails whatever it finds. */
  class FileTree {
    var files: Files
    var directories: set<Path>

    constructor (files: Files, directories: set<Path>)
      ensures this.files == files && this.directories == directories
    {
      this.files, this.directories := files, directories;
    }

    /** Make a directory with its parents; refused where a file is in the way. */
    method MakeDirectory(path: Path, works: bool) returns (ok: bool)
      modifies this`directories
      ensures ok <==> works && forall p :: p <= path ==> p !in files
      ensures ok ==> forall p :: p in directories <==> p in old(directories) || p <= path
    {
      if !works {
        var some: set<Path> := *;
        directories := directories + some;
        return false;
      }
      for k := 0 to |path| + 1
        invariant forall p :: p in directories <==> p in old(directories) || (p <= path && |p| < k)
        invariant forall p :: p <= path && |p| < k ==> p !in files
      {
        if path[..k] in files {
          assert path[..k] <= path;
          return false;
        }
        directories := directories + {path[..k]};
        forall p | p <= path && |p| == k ensures p == path[..k] {}
      }
      return true;
    }

    /** Create an empty file, never over an existing file or directory. */
    method CreateExclusive(path: Path, works: bool) returns (ok: bool)
      modifies this`files
      ensures ok <==> works && path !in old(files) && path !in directories
      ensures ok ==> files == old(files)[path := []]
      ensures !ok ==> files == old(files)
    {
      if !works || path in files || path in directories { return false; }
      files := files[path := []];
      return true;
    }

    /** Copy the content chunk by chunk; an interrupted copy leaves some of it. */
    method Fill(path: Path, content: Option<Content>, works: bool) returns (ok: bool)
      requires path in files
      modifies this`files
      ensures ok <==> works && content.Some?
      ensures ok ==> files == old(files)[path := content.value]
      ensures path in files && files.Keys == old(files.Keys) && forall p :: p in files && p != path ==> files[p] == old(files[p])
    {
      if content.None? || !works {
        var partial: Content := *;
        files := files[path := partial];
        return false;
      }
      files := files[path := content.value];
      return true;
    }

    method Unlink(path: Path)
      modifies this`files
      ensures files == old(files) - {path}
    {
      files := files - {path};
    }

    /** Remove the created files, the last first. */
    method RemoveAll(created: seq<Path>)
      modifies this`files
      ensures files == old(files) - (set p | p in created)
    {
      var k := |created|;
      while k > 0
        invariant 0 <= k <= |created|
        invariant files == old(files) - (set p | p in created[k..])
      {
        k := k - 1;
        assert created[k..] == [created[k]] + created[k + 1..];
        Unlink(created[k]);
      }
      assert created[0..] == created;
    }
  }

  /** Only the created files have come to `before`. */
  predicate OnlyCreated(before: Files, now: Files, created: seq<Path>) {
    && now.Keys == before.Keys + (set p | p in created)
    && (forall p :: p in created ==> p !in before)
    && (forall p :: p in before ==> now[p] == before[p])
  }

  lemma Undo(before: Files, now: Files, created: seq<Path>)
    requires OnlyCreated(before, now, created)
    ensures now - (set p | p in created) == before
  {
  }

  /** The failure branch: what was created goes, and the old files are back. */
  method RemoveCreated(tree: FileTree, created: seq<Path>, ghost before: Files)
    requires OnlyCreated(before, tree.files, created)
    modifies tree
    ensures tree.files == before
  {
    Undo(before, tree.files, created);
    tree.RemoveAll(created);
  }

  /** The state finds place for the entry. */
  ghost predicate HasPlace(files: Files, directories: set<Path>, target: Path, e: Entry) {
    && (forall p :: Passes(target, e, p) ==> p !in files)
    && (IsFile(e) ==>
          && e.member.content.Some? && Output(target, e) !in files && Output(target, e) !in directories
          && !Passes(target, e, Output(target, e)))
  }

  /** None of the steps of the entry fails. */
  predicate StepsWork(e: Entry, k: nat, fails: set<Step>) {
    MakeHome(k) !in fails && (IsFile(e) ==> Create(k) !in fails && Step.Fill(k) !in fails)
  }

  /** One member of the second loop: what is created for it is recorded in `created`. */
  method ExtractEntry(tree: FileTree, target: Path, entry: Entry, k: nat, fails: set<Step>, created: seq<Path>, ghost before: Files)
    returns (ok: bool, made: seq<Path>)
    requires OnlyCreated(before, tree.files, created)
    modifies tree
    ensures ok <==> HasPlace(old(tree.files), old(tree.directories), target, entry) && StepsWork(entry, k, fails)
    ensures ok ==> forall p :: p in tree.directories <==> p in old(tree.directories) || Passes(target, entry, p)
    ensures ok ==> made == if IsFile(entry) then created + [target + entry.path] else created
    ensures ok && IsFile(entry) ==>
              && entry.member.content.Some? && target + entry.path !in old(tree.files)
              && tree.files == old(tree.files)[target + entry.path := entry.member.content.value]
    ensures ok && !IsFile(entry) ==> tree.files == old(tree.files)
    ensures OnlyCreated(before, tree.files, made)
  {
    hide OnlyCreated;
    made := created;
    var output := target + entry.path;
    if IsDirectory(entry.member.name) {
      ok := tree.MakeDirectory(output, MakeHome(k) !in fails);
      return;
    }
    ok := tree.MakeDirectory(if output == [] then output else output[..|output| - 1], MakeHome(k) !in fails);
    if !ok { return; }
    ok := tree.CreateExclusive(output, Create(k) !in fails);
    if !ok { return; }
    CreatedOne(before, old(tree.files), tree.files, created, output);
    made := created + [output];
    ghost var empty := tree.files;
    ok := tree.Fill(output, entry.member.content, Step.Fill(k) !in fails);
    FilledOne(before, empty, tree.files, made, output);
  }

  lemma CreatedOne(before: Files, now: Files, after: Files, created: seq<Path>, output: Path)
    requires OnlyCreated(before, now, created) && output !in now && after == now[output := []]
    ensures OnlyCreated(before, after, created + [output])
  {
    assert (set p | p in created + [output]) == (set p | p in created) + {output};
  }

  lemma FilledOne(before: Files, now: Files, after: Files, created: seq<Path>, output: Path)
    requires OnlyCreated(before, now, created) && output in created && after.Keys == now.Keys
    requires forall p :: p in after && p != output ==> after[p] == now[p]
    ensures OnlyCreated(before, after, created)
  {
  }

  /** The directories are the old ones and those the entries need. */
  ghost predicate Made(before: set<Path>, now: set<Path>, target: Path, entries: seq<Entry>) {
    forall p :: p in now <==> p in before || exists i :: 0 <= i < |entries| && Passes(target, entries[i], p)
  }

  lemma MadeNothing(before: set<Path>, target: Path)
    ensures Made(before, before, target, [])
  {
  }

  lemma MadeNext(before: set<Path>, now: set<Path>, after: set<Path>, target: Path, entries: seq<Entry>, last: Entry)
    requires Made(before, now, target, entries) && forall p :: p in after <==> p in now || Passes(target, last, p)
    ensures Made(before, after, target, entries + [last])
  {
    hide Passes;
    var all := entries + [last];
    assert all[|entries|] == last;
    forall p ensures p in after <==> p in before || exists i :: 0 <= i < |all| && Passes(target, all[i], p) {
      if i :| 0 <= i < |entries| && Passes(target, entries[i], p) { assert all[i] == entries[i]; }
      if i :| 0 <= i < |all| && Passes(target, all[i], p) { assert i < |entries| ==> all[i] == entries[i]; }
    }
  }

  /** The state after the first entries has place for the next one exactly when nothing was or came in its way. */
  lemma PlaceFound(before: Files, directories: set<Path>, files: Files, now: set<Path>, target: Path, entries: seq<Entry>, e: Entry, extracted: seq<string>)
    requires Progress(before, files, target, entries, extracted) && Made(directories, now, target, entries)
    ensures HasPlace(files, now, target, e)
            <==> Placeable(before, directories, target, e) && forall j :: 0 <= j < |entries| ==> !Conflict(target, entries[j], e)
  {
    AddedExactly(before, target, entries);
    FilesAre(before, files, target, entries);
    hide Added, AddsExactly, AllFresh, Passes, AnyFile, Progress;
    if HasPlace(files, now, target, e) {
      forall j | 0 <= j < |entries| ensures !Conflict(target, entries[j], e) {
        if IsFile(entries[j]) { AnyFileAt(target, entries, j); }
      }
    }
    if Placeable(before, directories, target, e) && forall j :: 0 <= j < |entries| ==> !Conflict(target, entries[j], e) {
      forall p | Passes(target, e, p) || (IsFile(e) && p == Output(target, e)) ensures p !in files {
        if p in files { InTheWay(target, entries, e, p); }
      }
    }
  }

  lemma InTheWay(target: Path, entries: seq<Entry>, e: Entry, p: Path)
    requires AnyFile(target, entries, p) && (Passes(target, e, p) || (IsFile(e) && p == Output(target, e)))
    ensures exists j :: 0 <= j < |entries| && Conflict(target, entries[j], e)
  {
    var j := FileAt(target, entries, p);
    assert Conflict(target, entries[j], e);
  }

  lemma AnyFileAt(target: Path, entries: seq<Entry>, j: nat)
    requires j < |entries| && IsFile(entries[j])
    ensures AnyFile(target, entries, Output(target, entries[j]))
  {
  }

  lemma FileAt(target: Path, entries: seq<Entry>, p: Path) returns (j: nat)
    requires AnyFile(target, entries, p)
    ensures j < |entries| && IsFile(entries[j]) && p == Output(target, entries[j])
  {
    j :| j < |entries| && IsFile(entries[j]) && p == target + entries[j].path;
  }

  lemma FilesAre(before: Files, files: Files, target: Path, entries: seq<Entry>)
    requires AddsExactly(before, target, entries, files)
    ensures forall p :: p in files <==> p in before || AnyFile(target, entries, p)
  {
  }

  /**
   The program, where the steps in `fails` fail: on success the tree has gained
   exactly the archive's files, on failure it holds the files it held before;
   it succeeds exactly when the archive is acceptable, no entry is in the way
   of another or of what was there, and no step fails.
   */
  method SafeExtract(tree: FileTree, target: Path, members: seq<Member>, limits: Limits, folds: map<string, string>, fails: set<Step>)
    returns (r: Result<seq<string>, ArchiveError>)
    modifies tree
    ensures r.Ok? <==>
              && Wholesome(members, limits, folds)
              && Clear(old(tree.files), old(tree.directories), target, EntriesOf(members))
              && forall k: nat :: k < |members| ==> StepsWork(EntriesOf(members)[k], k, fails)
    ensures r.Err? && r.error != ExtractionFailed ==> Refused(members, limits, folds, r.error)
    ensures r == Err(ExtractionFailed) <==> r.Err? && Wholesome(members, limits, folds)
    ensures r.Err? ==> tree.files == old(tree.files)
    ensures r.Ok? ==>
              && AllFresh(old(tree.files), target, EntriesOf(members))
              && tree.files == Added(old(tree.files), target, EntriesOf(members))
              && AddsExactly(old(tree.files), target, EntriesOf(members), tree.files)
              && r.value == FileNames(EntriesOf(members))
    ensures r.Ok? ==> exists files: seq<Entry> ::
              && Picks(EntriesOf(members), NoDirectory(), files) && |r.value| == |files|
              && forall k :: 0 <= k < |files| ==> r.value[k] == if files[k].path == [] then "." else Joined(files[k].path)
  {
    hide Extracting, AllAcceptable, Wholesome, Refused, IsPathOf, AllFresh, Added, AddsExactly, Clear, FileNames, OnlyCreated;
    var checked := Validate(members, limits, folds);
    if checked.Err? { return Err(checked.error); }
    var entries := checked.value;
    var created: seq<Path> := [];
    var extracted: seq<string> := [];
    ghost var before, directories := tree.files, tree.directories;
    ExtractingStart(before, directories, target, entries, fails);
    for k := 0 to |entries|
      invariant OnlyCreated(before, tree.files, created)
      invariant Extracting(before, directories, tree.files, tree.directories, target, entries, k, fails, extracted)
    {
      var ok;
      ok, created, extracted := ExtractNext(tree, target, entries, k, fails, created, extracted, before, directories);
      if !ok {
        RemoveCreated(tree, created, before);
        return Err(ExtractionFailed);
      }
    }
    ExtractingEnd(before, directories, tree.files, tree.directories, target, entries, fails, extracted);
    var _ := NamesReported(entries);
    return Ok(extracted);
  }

  /** The first `k` entries are extracted, and nothing stood in their way. */
  ghost predicate Extracting(before: Files, directories: set<Path>, files: Files, now: set<Path>, target: Path, entries: seq<Entry>,
                             k: nat, fails: set<Step>, extracted: seq<string>)
    requires k <= |entries|
  {
    && Progress(before, files, target, entries[..k], extracted) && Made(directories, now, target, entries[..k])
    && Clear(before, directories, target, entries[..k])
    && forall i: nat :: i < k ==> StepsWork(entries[i], i, fails)
  }

  lemma ExtractingStart(before: Files, directories: set<Path>, target: Path, entries: seq<Entry>, fails: set<Step>)
    ensures OnlyCreated(before, before, []) && Extracting(before, directories, before, directories, target, entries, 0, fails, [])
  {
    assert entries[..0] == [];
    NothingYet(before, target);
    MadeNothing(directories, target);
    ClearNothing(before, directories, target);
  }

  lemma ExtractingEnd(before: Files, directories: set<Path>, files: Files, now: set<Path>, target: Path, entries: seq<Entry>, fails: set<Step>,
                      extracted: seq<string>)
    requires Extracting(before, directories, files, now, target, entries, |entries|, fails, extracted)
    ensures Clear(before, directories, target, entries) && (forall i: nat :: i < |entries| ==> StepsWork(entries[i], i, fails))
    ensures AllFresh(before, target, entries) && files == Added(before, target, entries) && extracted == FileNames(entries)
    ensures AddsExactly(before, target, entries, files)
  {
    hide Clear, AllFresh, Added, FileNames, AddsExactly, Made;
    assert entries[..|entries|] == entries;
    AllExtracted(before, files, target, entries, extracted);
    AddedExactly(before, target, entries);
  }

  /** One turn of the second loop: the next entry is extracted exactly when nothing is in its way and its steps work. */
  method ExtractNext(tree: FileTree, target: Path, entries: seq<Entry>, k: nat, fails: set<Step>, created: seq<Path>, extracted: seq<string>,
                     ghost before: Files, ghost directories: set<Path>)
    returns (ok: bool, made: seq<Path>, names: seq<string>)
    requires k < |entries| && OnlyCreated(before, tree.files, created)
    requires Extracting(before, directories, tree.files, tree.directories, target, entries, k, fails, extracted)
    modifies tree
    ensures OnlyCreated(before, tree.files, made)
    ensures ok ==> Extracting(before, directories, tree.files, tree.directories, target, entries, k + 1, fails, names)
    ensures !ok ==> !(Clear(before, directories, target, entries) && forall i: nat :: i < |entries| ==> StepsWork(entries[i], i, fails))
  {
    hide OnlyCreated, Progress, AsPosix, IsFile, Clear, Made, HasPlace, Placeable, Conflict, Passes, StepsWork;
    var entry := entries[k];
    ghost var files, now := tree.files, tree.directories;
    PlaceFound(before, directories, files, now, target, entries[..k], entry, extracted);
    ClearNext(before, directories, target, entries, k);
    ok, made := ExtractEntry(tree, target, entry, k, fails, created, before);
    names := extracted + if IsFile(entry) then [AsPosix(entry.path)] else [];
    if !ok {
      if Clear(before, directories, target, entries) { ClearFront(before, directories, target, entries, k + 1); }
      return;
    }
    ProgressNext(before, files, tree.files, target, entries[..k], entry, extracted);
    MadeNext(directories, now, tree.directories, target, entries[..k], entry);
    TakeNext(entries, k);
  }

  lemma ClearNothing(files: Files, directories: set<Path>, target: Path)
    ensures Clear(files, directories, target, [])
  {
  }

  lemma NothingYet(before: Files, target: Path)
    ensures OnlyCreated(before, before, [])
    ensures Progress(before, before, target, [], [])
  {
  }

  lemma AllExtracted(before: Files, files: Files, target: Path, entries: seq<Entry>, extracted: seq<string>)
    requires Progress(before, files, target, entries, extracted)
    ensures AllFresh(before, target, entries) && files == Added(before, target, entries) && extracted == FileNames(entries)
  {
  }

  lemma FreshNext(before: Files, target: Path, entries: seq<Entry>, last: Entry)
    requires AllFresh(before, target, entries)
    requires IsFile(last) ==> last.member.content.Some? && target + last.path !in Added(before, target, entries)
    ensures AllFresh(before, target, entries + [last])
  {
    AddedExactly(before, target, entries);
    hide Added, AnyFile;
    forall i | 0 <= i < |entries| && IsFile(entries[i]) && IsFile(last)
      ensures entries[i].path != last.path
    {
      assert target + entries[i].path in Added(before, target, entries);
    }
  }

  /** The entries so far are extracted, and nothing else has changed. */
  ghost predicate Progress(before: Files, files: Files, target: Path, entries: seq<Entry>, extracted: seq<string>) {
    AllFresh(before, target, entries) && files == Added(before, target, entries) && extracted == FileNames(entries)
  }

  lemma ProgressNext(before: Files, files: Files, after: Files, target: Path, entries: seq<Entry>, last: Entry, extracted: seq<string>)
    requires Progress(before, files, target, entries, extracted)
    requires IsFile(last) ==>
               && last.member.content.Some? && target + last.path !in files
               && after == files[target + last.path := last.member.content.value]
    requires !IsFile(last) ==> after == files
    ensures Progress(before, after, target, entries + [last], extracted + if IsFile(last) then [AsPosix(last.path)] else [])
  {
    hide Added, AllFresh, FileNames, AsPosix;
    FreshNext(before, target, entries, last);
    AddedNext(before, target, entries, last);
    FileNamesNext(entries, last);
  }

  lemma FileNamesNext(entries: seq<Entry>, last: Entry)
    ensures FileNames(entries + [last]) == FileNames(entries) + if IsFile(last) then [AsPosix(last.path)] else []
  {
    assert (entries + [last])[..|entries|] == entries;
  }

  /** The POSIX names of the archive's files, in order. */
  function FileNames(entries: seq<Entry>): seq<string> {
    if entries == [] then []
    else
      var last := entries[|entries| - 1];
      FileNames(entries[..|entries| - 1]) + if IsFile(last) then [AsPosix(last.path)] else []
  }

  /** Neither the name nor its backslash form is that of a directory. */
  function NoDirectory(): Entry -> bool {
    (e: Entry) => e.member.name == "" || (e.member.name[|e.member.name| - 1] != '/' && e.member.name[|e.member.name| - 1] != '\\')
  }

  /** The reported names are the paths of the archive's files, in order and as often as they occur. */
  lemma {:induction false} NamesReported(entries: seq<Entry>) returns (files: seq<Entry>)
    ensures Picks(entries, NoDirectory(), files) && |FileNames(entries)| == |files|
    ensures forall k :: 0 <= k < |files| ==> FileNames(entries)[k] == if files[k].path == [] then "." else Joined(files[k].path)
  {
    hide Picks, Join, Joined;
    if entries == [] {
      files := [];
      PicksNone<Entry>(NoDirectory());
    } else {
      var n := |entries| - 1;
      var some := NamesReported(entries[..n]);
      PicksNext<Entry>(entries[..n], NoDirectory(), some, entries[n]);
      assert entries == entries[..n] + [entries[n]];
      files := if NoDirectory()(entries[n]) then some + [entries[n]] else some;
      JoinIsJoined(entries[n].path);
    }
  }
}
