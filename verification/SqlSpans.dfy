/**
 Rewriting spans of a text (src/cmnd_linux/restore_prepare.py): the spans the
 rewriter accepts, the rewriting itself and its inverse.
 */
module SqlSpans {

  datatype Span = Span(start: nat, end: nat, value: string)

  /** Spans in order, without overlap, between `lo` and `hi`. */
  predicate Ordered(spans: seq<Span>, lo: nat, hi: nat)
  {
    if spans == [] then lo <= hi
    else lo <= spans[0].start <= spans[0].end && Ordered(spans[1..], spans[0].end, hi)
  }

  lemma OrderedBounds(spans: seq<Span>, lo: nat, hi: nat)
    requires Ordered(spans, lo, hi)
    ensures lo <= hi
    ensures forall i :: 0 <= i < |spans| ==> lo <= spans[i].start <= spans[i].end <= hi
    ensures forall i, j :: 0 <= i < j < |spans| ==> spans[i].end <= spans[j].start
  {
    if spans != [] {
      OrderedBounds(spans[1..], spans[0].end, hi);
      forall i, j | 0 <= i < j < |spans|
        ensures spans[i].end <= spans[j].start
      {
        assert spans[j] == spans[1..][j - 1];
        if i > 0 { assert spans[i] == spans[1..][i - 1]; }
      }
      forall i | 0 <= i < |spans|
        ensures lo <= spans[i].start <= spans[i].end <= hi
      {
        if i > 0 { assert spans[i] == spans[1..][i - 1]; }
      }
    }
  }

  lemma {:induction false} OrderedHead(spans: seq<Span>, lo: nat, hi: nat)
    requires Ordered(spans, lo, hi)
    ensures lo <= hi
    ensures spans != [] ==> lo <= spans[0].start <= spans[0].end <= hi
  {
    if spans != [] { OrderedHead(spans[1..], spans[0].end, hi); }
  }

  lemma OrderedFrom(spans: seq<Span>, lo: nat, hi: nat)
    requires lo <= hi
    requires forall i :: 0 <= i < |spans| ==> lo <= spans[i].start <= spans[i].end <= hi
    requires forall i, j :: 0 <= i < j < |spans| ==> spans[i].end <= spans[j].start
    ensures Ordered(spans, lo, hi)
  {
    if spans != [] { OrderedFrom(spans[1..], spans[0].end, hi); }
  }

  lemma OrderedInit(spans: seq<Span>, lo: nat, hi: nat)
    requires Ordered(spans, lo, hi) && spans != []
    ensures Ordered(spans[..|spans| - 1], lo, spans[|spans| - 1].start)
  {
    OrderedBounds(spans, lo, hi);
    OrderedFrom(spans[..|spans| - 1], lo, spans[|spans| - 1].start);
  }

  /** The text from `position` on with the spans replaced. */
  function Apply(s: string, spans: seq<Span>, position: nat): string
    requires Ordered(spans, position, |s|)
  {
    OrderedHead(spans, position, |s|);
    if spans == [] then s[position..]
    else s[position..spans[0].start] + spans[0].value + Apply(s, spans[1..], spans[0].end)
  }

  /** The rewriting loop of the program. */
  method ApplyReplacements(sql: string, replacements: seq<Span>) returns (output: string)
    requires Ordered(replacements, 0, |sql|)
    ensures output == Apply(sql, replacements, 0)
  {
    output := [];
    var position: nat := 0;
    for i := 0 to |replacements|
      invariant Ordered(replacements[i..], position, |sql|)
      invariant output + Apply(sql, replacements[i..], position) == Apply(sql, replacements, 0)
    {
      ghost var rest := replacements[i..];
      OrderedHead(rest, position, |sql|);
      var span := replacements[i];
      assert rest[1..] == replacements[i + 1..];
      output := output + sql[position..span.start] + span.value;
      position := span.end;
    }
    OrderedHead(replacements[|replacements|..], position, |sql|);
    output := output + sql[position..];
  }

  /** One replacement. */
  function Splice(s: string, a: nat, b: nat, v: string): (r: string)
    requires a <= b <= |s|
    ensures |r| == |s| + |v| - (b - a)
  {
    s[..a] + v + s[b..]
  }

  /** Replacing the first span, then the others. */
  lemma ApplyFirst(s: string, spans: seq<Span>, position: nat)
    requires Ordered(spans, position, |s|) && spans != []
    ensures position <= spans[0].start <= spans[0].end <= |s| && Ordered(spans[1..], spans[0].end, |s|)
    ensures Apply(s, spans, position) == s[position..spans[0].start] + spans[0].value + Apply(s, spans[1..], spans[0].end)
  {
    OrderedHead(spans, position, |s|);
    OrderedHead(spans[1..], spans[0].end, |s|);
  }

  /** Replacing all spans is replacing the last one first, then the others. */
  lemma {:induction false} ApplyLast(s: string, spans: seq<Span>, position: nat)
    requires Ordered(spans, position, |s|) && spans != []
    ensures var last := spans[|spans| - 1];
            && last.start <= last.end <= |s|
            && Ordered(spans[..|spans| - 1], position, last.start)
            && Ordered(spans[..|spans| - 1], position, |Splice(s, last.start, last.end, last.value)|)
            && Apply(s, spans, position)
               == Apply(Splice(s, last.start, last.end, last.value), spans[..|spans| - 1], position)
  {
    hide Apply, Splice;
    OrderedBounds(spans, position, |s|);
    OrderedInit(spans, position, |s|);
    var n := |spans| - 1;
    var last := spans[n];
    var t := Splice(s, last.start, last.end, last.value);
    OrderedFrom(spans[..n], position, |t|);
    if n == 0 {
      assert spans == [last] && spans[..n] == [];
      ApplyOne(s, last, position);
    } else {
      ApplyLast(s, spans[1..], spans[0].end);
      assert spans[1..][..n - 1] == spans[..n][1..];
      SpliceTail(s, 0, last.start, last.end, last.value);
      SliceOfPrefix(t, s, last.start, position, spans[0].start);
      ApplyFirst(s, spans, position);
      ApplyFirst(t, spans[..n], position);
    }
  }

  lemma ApplyOne(s: string, span: Span, position: nat)
    requires position <= span.start <= span.end <= |s|
    ensures Ordered([span], position, |s|)
    ensures Apply(s, [span], position) == Apply(Splice(s, span.start, span.end, span.value), [], position)
  {
    assert [span][1..] == [];
    assert Apply(s, [], span.end) == s[span.end..];
    assert s[..span.start] == s[..position] + s[position..span.start];
  }

  /** A replacement inside a slice. */
  lemma SpliceSlice(s: string, lo: nat, hi: nat, a: nat, b: nat, v: string)
    requires lo <= a <= b <= hi <= |s|
    ensures Splice(s, a, b, v)[lo..hi + |v| - (b - a)] == Splice(s[lo..hi], a - lo, b - lo, v)
    ensures Splice(s, a, b, v)[..lo] == s[..lo]
    ensures Splice(s, a, b, v)[hi + |v| - (b - a)..] == s[hi..]
  {
    var left, mid, right := s[..lo], s[lo..hi], s[hi..];
    assert s[..a] == left + mid[..a - lo];
    assert s[b..] == mid[b - lo..] + right;
    assert Splice(s, a, b, v) == left + Splice(mid, a - lo, b - lo, v) + right;
  }

  lemma SpliceTail(s: string, n: nat, a: nat, b: nat, v: string)
    requires n <= a <= b <= |s|
    ensures Splice(s, a, b, v)[n..] == Splice(s[n..], a - n, b - n, v)
    ensures Splice(s, a, b, v)[..a] == s[..a]
    ensures v != [] ==> Splice(s, a, b, v)[a] == v[0]
  {
  }

  lemma SpliceAfter(x: string, y: string, a: nat, b: nat, v: string)
    requires a <= b <= |y|
    ensures x + Splice(y, a, b, v) == Splice(x + y, |x| + a, |x| + b, v)
  {
  }

  lemma SpliceBefore(x: string, y: string, a: nat, b: nat, v: string)
    requires a <= b <= |x|
    ensures Splice(x, a, b, v) + y == Splice(x + y, a, b, v)
  {
  }

  lemma SpliceWithin(x: string, y: string, z: string, a: nat, b: nat, v: string)
    requires a <= b <= |y|
    ensures x + Splice(y, a, b, v) + z == Splice(x + y + z, |x| + a, |x| + b, v)
  {
    SpliceAfter(x, y, a, b, v);
    SpliceBefore(x + y, z, |x| + a, |x| + b, v);
  }

  lemma SpliceLater(s: string, lo: nat, hi: nat, a: nat, b: nat, v: string)
    requires a <= b <= lo <= hi <= |s|
    ensures Splice(s, a, b, v)[lo + |v| - (b - a)..hi + |v| - (b - a)] == s[lo..hi]
  {
  }

  lemma SliceOfPrefix(s: string, t: string, n: nat, a: nat, b: nat)
    requires a <= b <= n <= |s| && n <= |t| && s[..n] == t[..n]
    ensures s[a..b] == t[a..b]
  {
    forall k | a <= k < b
      ensures s[k] == t[k]
    {
      assert s[..n][k] == t[..n][k];
    }
  }

  // ---- What rewriting keeps, and how to undo it ----

  function Delta(span: Span): int
    requires span.start <= span.end
  {
    |span.value| - (span.end - span.start)
  }

  /** The total change of length. */
  function Growth(spans: seq<Span>, lo: nat, hi: nat): int
    requires Ordered(spans, lo, hi)
  {
    if spans == [] then 0 else Delta(spans[0]) + Growth(spans[1..], spans[0].end, hi)
  }

  /** How far the character at `p` moves: the growth of the spans before it. */
  function Shift(spans: seq<Span>, lo: nat, hi: nat, p: nat): int
    requires Ordered(spans, lo, hi)
  {
    if spans == [] || p < spans[0].end then 0
    else Delta(spans[0]) + Shift(spans[1..], spans[0].end, hi, p)
  }

  predicate Untouched(spans: seq<Span>, p: nat) {
    forall i :: 0 <= i < |spans| ==> !(spans[i].start <= p < spans[i].end)
  }

  lemma {:induction false} ApplyLength(s: string, spans: seq<Span>, position: nat)
    requires Ordered(spans, position, |s|)
    ensures |Apply(s, spans, position)| == |s| - position + Growth(spans, position, |s|)
  {
    OrderedHead(spans, position, |s|);
    if spans != [] { ApplyLength(s, spans[1..], spans[0].end); }
  }

  lemma UntouchedTail(spans: seq<Span>, p: nat)
    requires Untouched(spans, p) && spans != []
    ensures Untouched(spans[1..], p) && !(spans[0].start <= p < spans[0].end)
  {
    forall i | 0 <= i < |spans[1..]|
      ensures !(spans[1..][i].start <= p < spans[1..][i].end)
    {
      assert spans[1..][i] == spans[i + 1];
    }
  }

  /** Every character outside the spans is still there, moved by what grew before it. */
  lemma {:induction false} ApplyOutside(s: string, spans: seq<Span>, position: nat, p: nat)
    requires Ordered(spans, position, |s|) && position <= p < |s| && Untouched(spans, p)
    ensures 0 <= p - position + Shift(spans, position, |s|, p) < |Apply(s, spans, position)|
    ensures Apply(s, spans, position)[p - position + Shift(spans, position, |s|, p)] == s[p]
  {
    OrderedHead(spans, position, |s|);
    if spans != [] {
      UntouchedTail(spans, p);
      var span := spans[0];
      var rest := Apply(s, spans[1..], span.end);
      var kept := s[position..span.start];
      if p >= span.end {
        ApplyOutside(s, spans[1..], span.end, p);
        var k := p - span.end + Shift(spans[1..], span.end, |s|, p);
        assert (kept + span.value + rest)[|kept + span.value| + k] == rest[k];
      } else {
        assert (kept + span.value + rest)[p - position] == kept[p - position];
      }
    }
  }

  lemma InsideHead(kept: string, value: string, rest: string)
    ensures (kept + value + rest)[|kept|..|kept| + |value|] == value
  {
  }

  lemma ShiftTail(spans: seq<Span>, lo: nat, hi: nat, p: nat)
    requires Ordered(spans, lo, hi) && spans != [] && spans[0].end <= p
    ensures Shift(spans, lo, hi, p) == Delta(spans[0]) + Shift(spans[1..], spans[0].end, hi, p)
  {
  }

  /** Where the new text of the span at `i` stands in the rewritten text. */
  predicate StandsAt(s: string, spans: seq<Span>, position: nat, i: nat)
    requires Ordered(spans, position, |s|) && i < |spans|
  {
    var at := spans[i].start - position + Shift(spans, position, |s|, spans[i].start);
    && 0 <= at <= at + |spans[i].value| <= |Apply(s, spans, position)|
    && Apply(s, spans, position)[at..at + |spans[i].value|] == spans[i].value
  }

  lemma StandsLater(s: string, spans: seq<Span>, position: nat, i: nat)
    requires Ordered(spans, position, |s|) && 0 < i < |spans| && spans[0].end <= spans[i].start
    requires StandsAt(s, spans[1..], spans[0].end, i - 1)
    ensures StandsAt(s, spans, position, i)
  {
    OrderedHead(spans, position, |s|);
    var target := spans[i];
    ShiftTail(spans, position, |s|, target.start);
    var before := s[position..spans[0].start] + spans[0].value;
    var at := target.start - spans[0].end + Shift(spans[1..], spans[0].end, |s|, target.start);
    SliceOfAppend(before, Apply(s, spans[1..], spans[0].end), at, at + |target.value|);
  }

  /** Each span's new text stands where the span began, moved likewise. */
  lemma {:induction false} ApplyInside(s: string, spans: seq<Span>, position: nat, i: nat)
    requires Ordered(spans, position, |s|) && i < |spans| && Within(spans, |s|)
    ensures StandsAt(s, spans, position, i)
  {
    OrderedHead(spans, position, |s|);
    if i > 0 {
      assert forall k :: 0 <= k < |spans[1..]| ==> spans[1..][k] == spans[k + 1];
      ApplyInside(s, spans[1..], spans[0].end, i - 1);
      OrderedBounds(spans, position, |s|);
      StandsLater(s, spans, position, i);
    } else {
      InsideHead(s[position..spans[0].start], spans[0].value, Apply(s, spans[1..], spans[0].end));
    }
  }

  lemma SliceOfAppend(x: string, y: string, a: nat, b: nat)
    requires a <= b <= |y|
    ensures (x + y)[|x| + a..|x| + b] == y[a..b]
  {
  }

  /** The spans of the rewritten text that put the old text back. */
  function Inverse(s: string, spans: seq<Span>, position: nat, shifted: nat): seq<Span>
    requires Ordered(spans, position, |s|)
  {
    if spans == [] then []
    else
      OrderedHead(spans, position, |s|);
      var span := spans[0];
      var start := shifted + (span.start - position);
      var end := start + |span.value|;
      [Span(start, end, s[span.start..span.end])] + Inverse(s, spans[1..], span.end, end)
  }

  lemma ApplyCons(t: string, head: Span, tail: seq<Span>, position: nat)
    requires position <= head.start <= head.end && Ordered(tail, head.end, |t|)
    ensures Ordered([head] + tail, position, |t|) && head.end <= |t|
    ensures Apply(t, [head] + tail, position) == t[position..head.start] + head.value + Apply(t, tail, head.end)
  {
    OrderedHead(tail, head.end, |t|);
    assert ([head] + tail)[1..] == tail;
  }

  /** `back` puts the old text `old_` back behind `done`. */
  predicate PutsBack(done: string, rest: string, back: seq<Span>, old_: string) {
    Ordered(back, |done|, |done + rest|) && Apply(done + rest, back, |done|) == old_
  }

  /** Putting the first span's old text back, once the later spans put theirs. */
  lemma InverseStep(s: string, span: Span, position: nat, done: string, rest: string, back: seq<Span>)
    requires position <= span.start <= span.end <= |s|
    requires PutsBack(done + s[position..span.start] + span.value, rest, back, s[span.end..])
    ensures var start := |done| + (span.start - position);
            PutsBack(done, s[position..span.start] + span.value + rest,
                     [Span(start, start + |span.value|, s[span.start..span.end])] + back, s[position..])
  {
    var kept, old_ := s[position..span.start], s[span.start..span.end];
    var t := done + (kept + span.value + rest);
    RegroupParts(done, kept, span.value, rest);
    ApplyCons(t, Span(|done + kept|, |done + kept + span.value|, old_), back, |done|);
    JoinParts(s, position, span.start, span.end);
  }

  lemma InverseFirst(s: string, spans: seq<Span>, position: nat, shifted: nat)
    requires Ordered(spans, position, |s|) && spans != []
    ensures position <= spans[0].start <= spans[0].end <= |s|
    ensures var start := shifted + (spans[0].start - position); var end := start + |spans[0].value|;
            Inverse(s, spans, position, shifted)
            == [Span(start, end, s[spans[0].start..spans[0].end])] + Inverse(s, spans[1..], spans[0].end, end)
  {
    OrderedHead(spans, position, |s|);
  }

  lemma InverseNone(s: string, position: nat, done: string)
    requires position <= |s|
    ensures PutsBack(done, Apply(s, [], position), Inverse(s, [], position, |done|), s[position..])
  {
    assert (done + s[position..])[|done|..] == s[position..];
  }

  lemma {:induction false} ApplyInverseFrom(s: string, spans: seq<Span>, position: nat, done: string)
    requires Ordered(spans, position, |s|)
    ensures position <= |s|
    ensures PutsBack(done, Apply(s, spans, position), Inverse(s, spans, position, |done|), s[position..])
  {
    hide Apply, Inverse, PutsBack, Ordered;
    OrderedHead(spans, position, |s|);
    if spans == [] {
      InverseNone(s, position, done);
    } else {
      ApplyFirst(s, spans, position);
      InverseFirst(s, spans, position, |done|);
      var span := spans[0];
      var next := done + s[position..span.start] + span.value;
      ApplyInverseFrom(s, spans[1..], span.end, next);
      InverseStep(s, span, position, done, Apply(s, spans[1..], span.end), Inverse(s, spans[1..], span.end, |next|));
    }
  }

  lemma RegroupParts(x: string, y: string, v: string, z: string)
    ensures x + (y + v + z) == (x + y + v) + z
    ensures (x + (y + v + z))[|x|..|x| + |y|] == y
  {
  }

  lemma JoinParts(s: string, i: nat, j: nat, k: nat)
    requires i <= j <= k <= |s|
    ensures s[i..j] + s[j..k] + s[k..] == s[i..]
  {
  }

  /** Rewriting and then applying the inverse spans gives the original back. */
  lemma ApplyInvertible(s: string, spans: seq<Span>)
    requires Ordered(spans, 0, |s|)
    ensures Ordered(Inverse(s, spans, 0, 0), 0, |Apply(s, spans, 0)|)
    ensures Apply(Apply(s, spans, 0), Inverse(s, spans, 0, 0), 0) == s
  {
    ApplyInverseFrom(s, spans, 0, []);
    assert [] + Apply(s, spans, 0) == Apply(s, spans, 0);
    assert s[0..] == s;
  }

  // ---- Sorting the spans and refusing overlaps ----

  predicate SortedByStart(spans: seq<Span>) {
    forall i, j :: 0 <= i < j < |spans| ==> spans[i].start <= spans[j].start
  }

  /** The stable sort of the program's `sort(key=start)`. */
  function Insert(span: Span, spans: seq<Span>): (r: seq<Span>)
    ensures |r| == |spans| + 1
  {
    if spans == [] || span.start <= spans[0].start then [span] + spans
    else [spans[0]] + Insert(span, spans[1..])
  }

  function Sort(spans: seq<Span>): (r: seq<Span>)
    ensures |r| == |spans|
  {
    if spans == [] then [] else Insert(spans[0], Sort(spans[1..]))
  }

  lemma {:induction false} InsertMembers(span: Span, spans: seq<Span>)
    ensures multiset(Insert(span, spans)) == multiset{span} + multiset(spans)
    ensures forall i :: 0 <= i < |Insert(span, spans)| ==> Insert(span, spans)[i] == span || Insert(span, spans)[i] in spans
  {
    if spans == [] || span.start <= spans[0].start {
    } else {
      InsertMembers(span, spans[1..]);
      assert spans == [spans[0]] + spans[1..];
    }
  }

  lemma {:induction false} InsertSorted(span: Span, spans: seq<Span>)
    requires SortedByStart(spans)
    ensures SortedByStart(Insert(span, spans))
  {
    if spans == [] || span.start <= spans[0].start {
    } else {
      InsertSorted(span, spans[1..]);
      InsertMembers(span, spans[1..]);
    }
  }

  lemma {:induction false} SortCorrect(spans: seq<Span>)
    ensures SortedByStart(Sort(spans))
    ensures multiset(Sort(spans)) == multiset(spans)
  {
    if spans != [] {
      SortCorrect(spans[1..]);
      InsertSorted(spans[0], Sort(spans[1..]));
      InsertMembers(spans[0], Sort(spans[1..]));
      assert spans == [spans[0]] + spans[1..];
    }
  }

  predicate Apart(x: Span, y: Span) {
    x.end <= y.start || y.end <= x.start
  }

  /** No two spans of the list overlap. */
  predicate Disjoint(spans: seq<Span>) {
    forall i, j :: 0 <= i < j < |spans| ==> Apart(spans[i], spans[j])
  }

  predicate ApartFrom(span: Span, spans: seq<Span>) {
    forall i :: 0 <= i < |spans| ==> Apart(span, spans[i])
  }

  lemma DisjointCons(span: Span, spans: seq<Span>)
    ensures Disjoint([span] + spans) <==> ApartFrom(span, spans) && Disjoint(spans)
  {
    var all := [span] + spans;
    if Disjoint(all) {
      forall i | 0 <= i < |spans|
        ensures Apart(span, spans[i])
      {
        assert Apart(all[0], all[i + 1]);
      }
      forall i, j | 0 <= i < j < |spans|
        ensures Apart(spans[i], spans[j])
      {
        assert Apart(all[i + 1], all[j + 1]);
      }
    }
  }

  lemma ApartCons(x: Span, head: Span, tail: seq<Span>)
    ensures ApartFrom(x, [head] + tail) <==> Apart(x, head) && ApartFrom(x, tail)
  {
    var all := [head] + tail;
    if ApartFrom(x, all) {
      assert Apart(x, all[0]);
      forall i | 0 <= i < |tail|
        ensures Apart(x, tail[i])
      {
        assert Apart(x, all[i + 1]);
      }
    }
  }

  lemma {:induction false} ApartFromInsert(x: Span, span: Span, spans: seq<Span>)
    ensures ApartFrom(x, Insert(span, spans)) <==> Apart(x, span) && ApartFrom(x, spans)
  {
    if spans == [] || span.start <= spans[0].start {
      ApartCons(x, span, spans);
    } else {
      ApartFromInsert(x, span, spans[1..]);
      ApartCons(x, spans[0], spans[1..]);
      ApartCons(x, spans[0], Insert(span, spans[1..]));
      assert spans == [spans[0]] + spans[1..];
    }
  }

  lemma {:induction false} DisjointInsert(span: Span, spans: seq<Span>)
    ensures Disjoint(Insert(span, spans)) <==> Disjoint([span] + spans)
  {
    DisjointCons(span, spans);
    if spans == [] || span.start <= spans[0].start {
    } else {
      var head, tail := spans[0], spans[1..];
      assert spans == [head] + tail;
      DisjointInsert(span, tail);
      DisjointCons(head, tail);
      DisjointCons(span, tail);
      DisjointCons(head, Insert(span, tail));
      ApartFromInsert(head, span, tail);
      ApartCons(span, head, tail);
    }
  }

  lemma {:induction false} DisjointSort(spans: seq<Span>)
    ensures Disjoint(Sort(spans)) <==> Disjoint(spans)
  {
    if spans != [] {
      DisjointSort(spans[1..]);
      DisjointInsert(spans[0], Sort(spans[1..]));
      DisjointCons(spans[0], Sort(spans[1..]));
      DisjointCons(spans[0], spans[1..]);
      assert spans == [spans[0]] + spans[1..];
      ApartFromSort(spans[0], spans[1..]);
    }
  }

  lemma {:induction false} ApartFromSort(x: Span, spans: seq<Span>)
    ensures ApartFrom(x, Sort(spans)) <==> ApartFrom(x, spans)
  {
    if spans != [] {
      ApartFromSort(x, spans[1..]);
      ApartFromInsert(x, spans[0], Sort(spans[1..]));
      ApartCons(x, spans[0], spans[1..]);
      assert spans == [spans[0]] + spans[1..];
    }
  }

  /** Non-empty spans inside a text of length `n`. */
  predicate Within(spans: seq<Span>, n: nat) {
    forall i :: 0 <= i < |spans| ==> spans[i].start < spans[i].end <= n
  }

  /** The adjacent comparison of the program, which finds any overlap of sorted spans. */
  method CheckOverlap(spans: seq<Span>, n: nat) returns (ok: bool)
    requires SortedByStart(spans) && Within(spans, n)
    ensures ok <==> Disjoint(spans)
    ensures ok ==> Ordered(spans, 0, n)
  {
    ok := true;
    var i := 1;
    while i < |spans|
      invariant 1 <= i
      invariant forall j :: 1 <= j < i && j < |spans| ==> spans[j - 1].end <= spans[j].start
    {
      if spans[i - 1].end > spans[i].start {
        assert !Apart(spans[i - 1], spans[i]);
        return false;
      }
      i := i + 1;
    }
    AdjacentOrdered(spans, n);
  }

  lemma {:induction false} AdjacentOrdered(spans: seq<Span>, n: nat)
    requires Within(spans, n)
    requires forall j :: 1 <= j < |spans| ==> spans[j - 1].end <= spans[j].start
    ensures Ordered(spans, 0, n) && Disjoint(spans)
  {
    if spans == [] {
    } else {
      AdjacentOrdered(spans[1..], n);
      OrderedBounds(spans[1..], 0, n);
      AdjacentAfter(spans, n);
      OrderedFrom(spans[1..], spans[0].end, n);
      DisjointCons(spans[0], spans[1..]);
      assert spans == [spans[0]] + spans[1..];
    }
  }

  lemma AdjacentAfter(spans: seq<Span>, n: nat)
    requires Within(spans, n) && spans != [] && Ordered(spans[1..], 0, n)
    requires forall j :: 1 <= j < |spans| ==> spans[j - 1].end <= spans[j].start
    ensures forall i :: 0 <= i < |spans[1..]| ==> spans[0].end <= spans[1..][i].start
  {
    OrderedBounds(spans[1..], 0, n);
    forall i | 0 <= i < |spans[1..]|
      ensures spans[0].end <= spans[1..][i].start
    {
      if i > 0 { assert spans[1..][0].end <= spans[1..][i].start; }
    }
  }
}
