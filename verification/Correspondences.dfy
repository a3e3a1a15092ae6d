/** Alignment spans: canonical appending, what a complete list of spans means
    for the two captures, and the mapping of unchanged ranges. */
module Correspondences {
  import opened Basics
  import opened EditDistance

  datatype Kind = Equal | Changed | Unresolved

  datatype Correspondence = Correspondence(kind: Kind, before: Range, after: Range) {
    /** Bytes an edit script spends on this span: nothing when it is equal. */
    function EditedBytes(): int {
      if kind.Equal? then 0 else (before.end - before.start) + (after.end - after.start)
    }

    ghost predicate Within(a: seq<byte>, b: seq<byte>) {
      before.start <= before.end <= |a| && after.start <= after.end <= |b|
    }

    ghost predicate IsEmpty() {
      before.start == before.end && after.start == after.end
    }

    /** Inside both captures, and byte-identical if it claims to be equal. */
    ghost predicate Verified(a: seq<byte>, b: seq<byte>) {
      && Within(a, b)
      && (kind.Equal? ==> a[before.start..before.end] == b[after.start..after.end])
    }
  }

  function Appended(items: seq<Correspondence>, item: Correspondence): seq<Correspondence> {
    if item.before.start == item.before.end && item.after.start == item.after.end then items
    else if |items| > 0 && items[|items| - 1].kind == item.kind
            && items[|items| - 1].before.end == item.before.start
            && items[|items| - 1].after.end == item.after.start then
      var last := items[|items| - 1];
      items[..|items| - 1] + [Correspondence(item.kind, Range(last.before.start, item.before.end),
                                             Range(last.after.start, item.after.end))]
    else items + [item]
  }

  /** The growing span list, always within the capacity reserved for it. */
  class SpanBuffer {
    var items: seq<Correspondence>

    constructor ()
      ensures items == []
    {
      items := [];
    }

    method Append(kind: Kind, a: nat, b: nat, c: nat, d: nat)
      modifies this
      ensures items == Appended(old(items), Correspondence(kind, Range(a, b), Range(c, d)))
    {
      if a == b && c == d { return; }
      if |items| > 0 {
        var last := items[|items| - 1];
        if last.kind == kind && last.before.end == a && last.after.end == c {
          items := items[..|items| - 1] +
            [Correspondence(kind, Range(last.before.start, b), Range(last.after.start, d))];
          return;
        }
      }
      items := items + [Correspondence(kind, Range(a, b), Range(c, d))];
    }
  }

  /** The spans cover both captures from their starts up to (x, y), in order and
      without a gap or overlap. */
  ghost predicate Contiguous(s: seq<Correspondence>, x: nat, y: nat) {
    && (s == [] ==> x == 0 && y == 0)
    && (s != [] ==>
          && s[0].before.start == 0 && s[0].after.start == 0
          && s[|s| - 1].before.end == x && s[|s| - 1].after.end == y)
    && forall i :: 0 < i < |s| ==>
         s[i].before.start == s[i - 1].before.end && s[i].after.start == s[i - 1].after.end
  }

  /** No empty span, and no two neighbours of one kind. */
  ghost predicate Canonical(s: seq<Correspondence>) {
    && (forall i :: 0 <= i < |s| ==> !s[i].IsEmpty())
    && (forall i :: 0 < i < |s| ==> s[i].kind != s[i - 1].kind)
  }

  ghost predicate AllVerified(s: seq<Correspondence>, a: seq<byte>, b: seq<byte>) {
    forall i :: 0 <= i < |s| ==> s[i].Verified(a, b)
  }

  ghost predicate Aligned(s: seq<Correspondence>, a: seq<byte>, b: seq<byte>, x: nat, y: nat) {
    Contiguous(s, x, y) && Canonical(s) && AllVerified(s, a, b)
  }

  function EditedBytes(s: seq<Correspondence>): int {
    if s == [] then 0 else EditedBytes(s[..|s| - 1]) + s[|s| - 1].EditedBytes()
  }

  predicate HasUnresolved(s: seq<Correspondence>) {
    exists i :: 0 <= i < |s| && s[i].kind.Unresolved?
  }

  lemma Merged(last: Correspondence, item: Correspondence, a: seq<byte>, b: seq<byte>)
    requires last.Verified(a, b) && item.Verified(a, b)
    requires last.kind == item.kind
    requires last.before.end == item.before.start && last.after.end == item.after.start
    ensures
      var both := Correspondence(item.kind, Range(last.before.start, item.before.end),
          Range(last.after.start, item.after.end));
      both.Verified(a, b) && both.EditedBytes() == last.EditedBytes() + item.EditedBytes()
  {
    if item.kind.Equal? {
      assert a[last.before.start..item.before.end]
          == a[last.before.start..last.before.end] + a[item.before.start..item.before.end];
      assert b[last.after.start..item.after.end]
          == b[last.after.start..last.after.end] + b[item.after.start..item.after.end];
    }
  }

  lemma PushedContiguous(s: seq<Correspondence>, item: Correspondence)
    requires Contiguous(s, item.before.start, item.after.start)
    ensures Contiguous(s + [item], item.before.end, item.after.end)
  {
  }

  lemma PushedEdits(s: seq<Correspondence>, item: Correspondence)
    ensures EditedBytes(s + [item]) == EditedBytes(s) + item.EditedBytes()
  {
    assert (s + [item])[..|s|] == s;
  }

  /** Extending an alignment by a span of another kind. */
  lemma Pushed(s: seq<Correspondence>, item: Correspondence, a: seq<byte>, b: seq<byte>)
    requires Aligned(s, a, b, item.before.start, item.after.start)
    requires item.Verified(a, b) && !item.IsEmpty()
    requires s != [] ==> s[|s| - 1].kind != item.kind
    ensures Aligned(s + [item], a, b, item.before.end, item.after.end)
    ensures EditedBytes(s + [item]) == EditedBytes(s) + item.EditedBytes()
  {
    PushedContiguous(s, item);
    PushedEdits(s, item);
    hide Contiguous, EditedBytes, Correspondence.Within, Correspondence.IsEmpty, Correspondence.Verified;
    var t := s + [item];
    forall i | 0 <= i < |t| ensures !t[i].IsEmpty() && t[i].Verified(a, b) && (0 < i ==> t[i].kind != t[i - 1].kind) {
      if i < |s| { assert t[i] == s[i]; }
    }
  }

  /** The last span of an alignment. */
  lemma LastSpan(s: seq<Correspondence>, a: seq<byte>, b: seq<byte>, x: nat, y: nat)
    requires s != [] && Aligned(s, a, b, x, y)
    ensures
      var last := s[|s| - 1];
      && last.Verified(a, b) && !last.IsEmpty() && last.before.end == x && last.after.end == y
      && (|s| > 1 ==> s[|s| - 2].kind != last.kind)
  {
    hide Correspondence.Verified, Correspondence.IsEmpty;
    assert |s| > 1 ==> s[|s| - 1].kind != s[|s| - 2].kind;
  }

  /** A piece of the last span's kind extends that span. */
  lemma MergedAligned(s: seq<Correspondence>, item: Correspondence, a: seq<byte>, b: seq<byte>)
    requires Aligned(s, a, b, item.before.start, item.after.start) && item.Verified(a, b) && !item.IsEmpty()
    requires s != [] && s[|s| - 1].kind == item.kind
    ensures
      var last := s[|s| - 1];
      var both := Correspondence(item.kind, Range(last.before.start, item.before.end),
          Range(last.after.start, item.after.end));
      && Aligned(s[..|s| - 1] + [both], a, b, item.before.end, item.after.end)
      && EditedBytes(s[..|s| - 1] + [both]) == EditedBytes(s) + item.EditedBytes()
  {
    var init, last := s[..|s| - 1], s[|s| - 1];
    AlignedInit(s, a, b, item.before.start, item.after.start);
    LastSpan(s, a, b, item.before.start, item.after.start);
    Merged(last, item, a, b);
    NotEmpty(last, item, a, b);
    hide Aligned, Correspondence.Verified, Correspondence.IsEmpty;
    Pushed(init, Correspondence(item.kind, Range(last.before.start, item.before.end),
                                Range(last.after.start, item.after.end)), a, b);
  }

  lemma NotEmpty(last: Correspondence, item: Correspondence, a: seq<byte>, b: seq<byte>)
    requires last.Verified(a, b) && item.Verified(a, b) && !item.IsEmpty()
    requires last.before.end == item.before.start && last.after.end == item.after.start
    ensures last.before.start < item.before.end || last.after.start < item.after.end
  {
  }

  /** Appending the next verified piece keeps the list an alignment, whether it
      is dropped as empty, merged into its neighbour, or pushed. */
  lemma AppendedAligned(s: seq<Correspondence>, item: Correspondence, a: seq<byte>, b: seq<byte>)
    requires Aligned(s, a, b, item.before.start, item.after.start)
    requires item.Verified(a, b)
    ensures Aligned(Appended(s, item), a, b, item.before.end, item.after.end)
    ensures EditedBytes(Appended(s, item)) == EditedBytes(s) + item.EditedBytes()
    ensures |s| <= |Appended(s, item)| <= |s| + 1
  {
    hide Aligned, EditedBytes, Correspondence.Verified;
    if item.IsEmpty() {
    } else if s != [] && s[|s| - 1].kind == item.kind {
      LastSpan(s, a, b, item.before.start, item.after.start);
      MergedAligned(s, item, a, b);
    } else {
      Pushed(s, item, a, b);
    }
  }

  lemma AppendedUnresolved(s: seq<Correspondence>, item: Correspondence)
    ensures HasUnresolved(Appended(s, item)) <==> HasUnresolved(s) || (item.kind.Unresolved? && !item.IsEmpty())
  {
    var t := Appended(s, item);
    if item.IsEmpty() {
    } else if |t| == |s| {
      assert forall i :: 0 <= i < |s| ==> t[i].kind == s[i].kind;
    } else {
      assert t[..|s|] == s && t[|s|] == item;
      if HasUnresolved(s) {
        var i :| 0 <= i < |s| && s[i].kind.Unresolved?;
        assert t[i].kind.Unresolved?;
      }
      if item.kind.Unresolved? { assert t[|s|].kind.Unresolved?; }
    }
  }

  /** Equal bytes from the old capture, all others from the new one. */
  function Rebuilt(s: seq<Correspondence>, a: seq<byte>, b: seq<byte>): seq<byte>
    requires forall i :: 0 <= i < |s| ==> s[i].before.start <= s[i].before.end <= |a|
    requires forall i :: 0 <= i < |s| ==> s[i].after.start <= s[i].after.end <= |b|
  {
    if s == [] then []
    else
      var last := s[|s| - 1];
      Rebuilt(s[..|s| - 1], a, b) +
      if last.kind.Equal? then a[last.before.start..last.before.end] else b[last.after.start..last.after.end]
  }

  /** Equal bytes are kept; any other span deletes its old bytes and inserts its
      new ones. */
  function PieceOf(item: Correspondence, a: seq<byte>, b: seq<byte>): seq<Edit<byte>>
    requires item.before.start <= item.before.end <= |a| && item.after.start <= item.after.end <= |b|
  {
    if item.kind.Equal? then Kept(a[item.before.start..item.before.end])
    else Replaced(a[item.before.start..item.before.end], b[item.after.start..item.after.end])
  }

  /** The edit script a list of spans describes. */
  function ScriptOf(s: seq<Correspondence>, a: seq<byte>, b: seq<byte>): seq<Edit<byte>>
    requires forall i :: 0 <= i < |s| ==> s[i].before.start <= s[i].before.end <= |a|
    requires forall i :: 0 <= i < |s| ==> s[i].after.start <= s[i].after.end <= |b|
  {
    if s == [] then [] else ScriptOf(s[..|s| - 1], a, b) + PieceOf(s[|s| - 1], a, b)
  }

  lemma PieceScript(item: Correspondence, a: seq<byte>, b: seq<byte>)
    requires item.Verified(a, b)
    ensures Turns(PieceOf(item, a, b), a[item.before.start..item.before.end], b[item.after.start..item.after.end])
    ensures Cost(PieceOf(item, a, b)) == item.EditedBytes()
  {
    if item.kind.Equal? {
      KeptScript(a[item.before.start..item.before.end]);
    } else {
      ReplacedScript(a[item.before.start..item.before.end], b[item.after.start..item.after.end]);
    }
  }

  /** An alignment up to (x, y) rebuilds exactly the first y new bytes. */
  lemma {:induction false} AlignmentRebuilds(s: seq<Correspondence>, a: seq<byte>, b: seq<byte>, x: nat, y: nat)
    requires Aligned(s, a, b, x, y) && x <= |a| && y <= |b|
    ensures Rebuilt(s, a, b) == b[..y]
    decreases |s|
  {
    if s != [] {
      var last := s[|s| - 1];
      var init := s[..|s| - 1];
      assert last.Verified(a, b);
      assert Aligned(init, a, b, last.before.start, last.after.start) by { AlignedInit(s, a, b, x, y); }
      AlignmentRebuilds(init, a, b, last.before.start, last.after.start);
      assert b[..last.after.start] + b[last.after.start..y] == b[..y];
    }
  }

  lemma AlignedInit(s: seq<Correspondence>, a: seq<byte>, b: seq<byte>, x: nat, y: nat)
    requires s != [] && Aligned(s, a, b, x, y)
    ensures Aligned(s[..|s| - 1], a, b, s[|s| - 1].before.start, s[|s| - 1].after.start)
  {
    var init := s[..|s| - 1];
    assert forall i :: 0 <= i < |init| ==> init[i] == s[i];
    if init != [] { assert s[|s| - 1].before.start == s[|s| - 2].before.end; }
  }

  /** The spans of an alignment are an edit script between the captures, and
      the script costs exactly the bytes the non-equal spans cover. */
  lemma {:induction false} AlignmentIsScript(s: seq<Correspondence>, a: seq<byte>, b: seq<byte>, x: nat, y: nat)
    requires Aligned(s, a, b, x, y) && x <= |a| && y <= |b|
    ensures Turns(ScriptOf(s, a, b), a[..x], b[..y])
    ensures Cost(ScriptOf(s, a, b)) == EditedBytes(s)
    decreases |s|
  {
    if s != [] {
      var last := s[|s| - 1];
      var init := s[..|s| - 1];
      assert last.Verified(a, b);
      AlignedInit(s, a, b, x, y);
      AlignmentIsScript(init, a, b, last.before.start, last.after.start);
      PieceScript(last, a, b);
      hide Turns, Cost, PieceOf;
      Joined(ScriptOf(init, a, b), PieceOf(last, a, b), a, b, last.before.start, x, last.after.start, y);
    }
  }

  // ----- Mapping of unchanged ranges -----

  predicate Covers(item: Correspondence, range: Range) {
    item.kind.Equal? && item.before.start <= range.start && item.before.end >= range.end
  }

  /** The first equal span covering the range. */
  function FirstCovering(s: seq<Correspondence>, range: Range): (found: Option<Correspondence>)
    ensures found.Some? ==> found.value in s && Covers(found.value, range)
    ensures found.None? ==> forall i :: 0 <= i < |s| ==> !Covers(s[i], range)
  {
    if s == [] then None
    else if Covers(s[0], range) then Some(s[0])
    else FirstCovering(s[1..], range)
  }

  function CorrespondingAfter(s: seq<Correspondence>, range: Range): Option<Range> {
    if range.start >= range.end then None
    else match FirstCovering(s, range)
      case None => None
      case Some(item) =>
        var start := item.after.start + range.start - item.before.start;
        Some(Range(start, start + (range.end - range.start)))
  }

  /** Spans of an alignment come in order in both captures. */
  lemma {:induction false} SpansOrdered(s: seq<Correspondence>, a: seq<byte>, b: seq<byte>, x: nat, y: nat, i: nat,
                                        j: nat)
    requires Aligned(s, a, b, x, y) && i < j < |s|
    ensures s[i].before.end <= s[j].before.start && s[i].after.end <= s[j].after.start
    decreases j
  {
    assert s[j].before.start == s[j - 1].before.end && s[j].after.start == s[j - 1].after.end;
    if i < j - 1 {
      SpansOrdered(s, a, b, x, y, i, j - 1);
      assert s[j - 1].Verified(a, b);
    }
  }

  lemma Subslice(s: seq<byte>, start: nat, end: nat, lo: nat, hi: nat)
    requires start <= end <= |s| && lo <= hi <= end - start
    ensures s[start..end][lo..hi] == s[start + lo..start + hi]
  {
    var p, q := s[start..end][lo..hi], s[start + lo..start + hi];
    forall i | 0 <= i < |p| ensures p[i] == q[i] {
      assert p[i] == s[start..end][lo + i];
    }
  }

  /** A range is mapped exactly when it is nonempty and lies in one equal span;
      the image has the same length and the same bytes. */
  lemma MappingIsSound(s: seq<Correspondence>, a: seq<byte>, b: seq<byte>, range: Range)
    requires Aligned(s, a, b, |a|, |b|)
    ensures CorrespondingAfter(s, range).Some? <==>
      range.start < range.end && exists i :: 0 <= i < |s| && Covers(s[i], range)
    ensures CorrespondingAfter(s, range).Some? ==>
      var image := CorrespondingAfter(s, range).value;
      && range.start < range.end <= |a| && image.start < image.end <= |b|
      && a[range.start..range.end] == b[image.start..image.end]
  {
    hide Contiguous, Canonical, Correspondence.Verified;
    if CorrespondingAfter(s, range).Some? {
      var item := FirstCovering(s, range).value;
      assert item.Verified(a, b) by { var i :| 0 <= i < |s| && s[i] == item; }
      CoveredBytes(item, a, b, range);
    }
  }

  lemma CoveredBytes(item: Correspondence, a: seq<byte>, b: seq<byte>, range: Range)
    requires item.Verified(a, b) && Covers(item, range) && range.start < range.end
    ensures
      var start := item.after.start + range.start - item.before.start;
      var end := start + (range.end - range.start);
      && range.end <= |a| && end <= |b| && a[range.start..range.end] == b[start..end]
  {
    var lo, hi := range.start - item.before.start, range.end - item.before.start;
    assert |a[item.before.start..item.before.end]| == |b[item.after.start..item.after.end]|;
    Subslice(a, item.before.start, item.before.end, lo, hi);
    Subslice(b, item.after.start, item.after.end, lo, hi);
  }

  /** Which span is found does not depend on the search order: at most one
      equal span covers a nonempty range. */
  lemma CoveringIsUnique(s: seq<Correspondence>, a: seq<byte>, b: seq<byte>, range: Range, i: nat, j: nat)
    requires Aligned(s, a, b, |a|, |b|)
    requires range.start < range.end && i < |s| && j < |s| && Covers(s[i], range) && Covers(s[j], range)
    ensures i == j
  {
    if i < j { SpansOrdered(s, a, b, |a|, |b|, i, j); }
    if j < i { SpansOrdered(s, a, b, |a|, |b|, j, i); }
  }

  /** The mapping keeps order and never merges two ranges: it moves every mapped
      byte strictly forward with its position, so distinct ranges have distinct
      images and disjoint ranges have disjoint images in the same order. */
  lemma MappingKeepsOrder(s: seq<Correspondence>, a: seq<byte>, b: seq<byte>, p: Range, q: Range)
    requires Aligned(s, a, b, |a|, |b|)
    requires CorrespondingAfter(s, p).Some? && CorrespondingAfter(s, q).Some?
    ensures
      var p', q' := CorrespondingAfter(s, p).value, CorrespondingAfter(s, q).value;
      && (p.start < q.start <==> p'.start < q'.start)
      && (p.end <= q.start <==> p'.end <= q'.start)
      && (p == q <==> p' == q')
  {
    hide FirstCovering, Aligned;
    var i := FoundSpan(s, a, b, p);
    var j := FoundSpan(s, a, b, q);
    if i < j { SpansOrdered(s, a, b, |a|, |b|, i, j); }
    if j < i { SpansOrdered(s, a, b, |a|, |b|, j, i); }
  }

  lemma FoundSpan(s: seq<Correspondence>, a: seq<byte>, b: seq<byte>, range: Range) returns (i: nat)
    requires Aligned(s, a, b, |a|, |b|) && CorrespondingAfter(s, range).Some?
    ensures i < |s| && FirstCovering(s, range) == Some(s[i]) && Covers(s[i], range)
    ensures s[i].before.start <= s[i].before.end && s[i].after.start <= s[i].after.end
    ensures s[i].before.end - s[i].before.start == s[i].after.end - s[i].after.start
  {
    hide Contiguous, Canonical;
    i :| 0 <= i < |s| && s[i] == FirstCovering(s, range).value;
    assert s[i].Verified(a, b);
    assert |a[s[i].before.start..s[i].before.end]| == |b[s[i].after.start..s[i].after.end]|;
  }
}
