/** The bounded navigation view of an outline: numbered candidates in preorder, each
    naming its parent. */
module Symbols {
  import opened Basics
  import opened Outline
  import opened LineIndex
  import opened RustTokens
  import opened RustItems
  import opened Utf8

  const MAX_SOURCE_BYTES: nat := 65536
  const MAX_ITEMS: nat := 4096
  const MAX_LINES: nat := 4096
  const MAX_SCOPES: nat := 128

  type Span = (nat, nat)

  /** Whether a slice of the text may begin or end here. */
  predicate Boundary(text: seq<byte>, i: nat) {
    i == 0 || i == |text| || (i < |text| && !Continues(text, i))
  }

  /** In valid text a slice may begin or end exactly where what precedes is valid text. */
  lemma BoundariesAreBetweenCharacters(text: seq<byte>, i: nat)
    requires IsUtf8(text) && i <= |text|
    ensures Boundary(text, i) <==> IsUtf8(text[..i])
  {
    hide WellFormedFrom;
    AtTheEnd(text[..0]);
    assert text[..|text|] == text;
    if 0 < i < |text| { CharactersMeet(text, 0, i); }
  }

  function SliceOf(text: seq<byte>, start: nat, end: nat): Option<string> {
    if start <= end <= |text| && Boundary(text, start) && Boundary(text, end) then Some(Lossy(text[start..end]))
    else None
  }

  /** The decoded text by byte range, and decoded ranges mapped to original bytes;
      both owned by the decoder and undefined for some ranges. */
  datatype Decoded = Decoded(slice: Span -> Option<string>, original: Span -> Option<Span>, lineStarts: seq<nat>) {
    function Mapped(start: nat, end: nat): Option<Span> {
      if start >= end || slice((start, end)).None? then None else original((start, end))
    }

    /** The name range, if there is one, lies in the item and spells its name. */
    function NameSpan(item: Item): Option<Option<Span>> {
      match item.evidence.name
      case None => Some(None)
      case Some(name) =>
        if name.start < item.evidence.byteStart || name.end > item.evidence.byteEnd then None
        else if slice((name.start, name.end)) != Some(item.name) then None
        else match Mapped(name.start, name.end)
          case None => None
          case Some(span) => Some(Some(span))
    }

    /** Slices are the text's own, and the line starts are its. */
    ghost predicate Describes(text: seq<byte>) {
      && (forall start: nat, end: nat :: slice((start, end)) == SliceOf(text, start, end))
      && IsLineStarts(lineStarts, text)
    }

    /** The original bytes of the item or of its name are undefined. */
    predicate Unmapped(item: Item) {
      || original((item.evidence.byteStart, item.evidence.byteEnd)).None?
      || (item.evidence.name.Some? && original((item.evidence.name.value.start, item.evidence.name.value.end)).None?)
    }

    predicate Accepts(item: Item) {
      Mapped(item.evidence.byteStart, item.evidence.byteEnd).Some? && NameSpan(item).Some?
    }
  }

  datatype Candidate = Candidate(id: nat, parent: Option<nat>, depth: nat, name: string, kind: Kind, range: Span,
                                 nameRange: Option<Span>, line: nat)

  datatype SymbolError =
    | SourceLimit | ComplexityLimit | InvalidLimits | UnsupportedEncoding | InvalidEvidence | Canceled

  /** Line blocks and headings belong to other views. */
  predicate IsForeign(item: Item) { item.kind.LineBlock? || item.kind.Heading? }

  function OrElse<T>(option: Option<T>, other: T): T { if option.Some? then option.value else other }

  function CandidateOf(text: Decoded, item: Item, parent: Option<nat>, depth: nat, id: nat): Candidate {
    Candidate(id, parent, depth, item.name, item.kind,
              OrElse(text.Mapped(item.evidence.byteStart, item.evidence.byteEnd), (0, 0)),
              OrElse(text.NameSpan(item), None),
              StartsUpTo(text.lineStarts, item.evidence.byteStart))
  }

  /** The items of the view: preorder, without skipped items and what lies under them. */
  function Eligible(items: seq<Item>): seq<Item> {
    if items == [] then []
    else if IsForeign(items[0]) then Eligible(items[1..])
    else [items[0]] + Eligible(items[0].children) + Eligible(items[1..])
  }

  /** The unlimited view, numbered on from n. */
  function Full(text: Decoded, items: seq<Item>, parent: Option<nat>, depth: nat, n: nat): seq<Candidate>
    decreases items
  {
    if items == [] then []
    else if IsForeign(items[0]) then Full(text, items[1..], parent, depth, n)
    else
      var nested := Full(text, items[0].children, Some(n + 1), depth + 1, n + 1);
      [CandidateOf(text, items[0], parent, depth, n + 1)] + nested
      + Full(text, items[1..], parent, depth, n + 1 + |nested|)
  }

  function Take<T>(s: seq<T>, n: nat): seq<T> { s[..Min(n, |s|)] }

  /** The view of a nonempty list, one step unfolded. */
  lemma FullStep(text: Decoded, items: seq<Item>, parent: Option<nat>, depth: nat, n: nat)
    requires items != [] && !IsForeign(items[0])
    ensures
      var nested := Full(text, items[0].children, Some(n + 1), depth + 1, n + 1);
      Full(text, items, parent, depth, n)
        == [CandidateOf(text, items[0], parent, depth, n + 1)] + nested
           + Full(text, items[1..], parent, depth, n + 1 + |nested|)
  {
  }

  lemma FullSkip(text: Decoded, items: seq<Item>, parent: Option<nat>, depth: nat, n: nat)
    requires items != [] && IsForeign(items[0])
    ensures Full(text, items, parent, depth, n) == Full(text, items[1..], parent, depth, n)
  {
  }

  // ----- What the unlimited view looks like -----

  /** Candidate k is eligible item k, numbered by its position. */
  lemma {:induction false} FullIsEligible(text: Decoded, items: seq<Item>, parent: Option<nat>, depth: nat, n: nat)
    ensures AreNumbered(text, Full(text, items, parent, depth, n), Eligible(items), n)
    decreases items
  {
    if items != [] {
      if IsForeign(items[0]) {
        FullIsEligible(text, items[1..], parent, depth, n);
      } else {
        FullStep(text, items, parent, depth, n);
        hide CandidateOf, AreNumbered;
        var nested := Full(text, items[0].children, Some(n + 1), depth + 1, n + 1);
        FullIsEligible(text, items[0].children, Some(n + 1), depth + 1, n + 1);
        FullIsEligible(text, items[1..], parent, depth, n + 1 + |nested|);
        NumberedParts(text, CandidateOf(text, items[0], parent, depth, n + 1), items[0], nested,
            Eligible(items[0].children),
          Full(text, items[1..], parent, depth, n + 1 + |nested|), Eligible(items[1..]), n);
      }
    }
  }

  lemma NumberedParts(text: Decoded, own: Candidate, item: Item, nested: seq<Candidate>, under: seq<Item>,
                      rest: seq<Candidate>, others: seq<Item>, n: nat)
    requires own == CandidateOf(text, item, own.parent, own.depth, n + 1)
    requires AreNumbered(text, nested, under, n + 1) && AreNumbered(text, rest, others, n + 1 + |nested|)
    ensures AreNumbered(text, [own] + nested + rest, [item] + under + others, n)
  {
    hide CandidateOf;
  }

  /** Candidate k shows eligible item k and is numbered by its position. */
  ghost predicate AreNumbered(text: Decoded, full: seq<Candidate>, eligible: seq<Item>, n: nat) {
    && |full| == |eligible|
    && forall k :: 0 <= k < |eligible| ==>
         full[k] == CandidateOf(text, eligible[k], full[k].parent, full[k].depth, n + k + 1)
  }

  /** When the outline holds nothing to skip, the view is its flat preorder. */
  lemma {:induction false} EligibleIsPreorder(items: seq<Item>)
    requires forall i :: i in PreorderAll(items) ==> !IsForeign(i)
    ensures Eligible(items) == PreorderAll(items)
    decreases items
  {
    if items != [] {
      assert items[0] in PreorderAll(items);
      EligibleIsPreorder(items[0].children);
      EligibleIsPreorder(items[1..]);
    }
  }

  /** Candidate k of a view at this depth hangs under the closest earlier candidate
      that is shallower, which is exactly one level up. */
  ghost predicate HangsRight(full: seq<Candidate>, parent: Option<nat>, depth: nat, n: nat, k: nat)
    requires k < |full|
  {
    var c := full[k];
    && depth <= c.depth
    && if c.depth == depth then c.parent == parent
       else
         && c.parent.Some? && n < c.parent.value <= n + k
         && full[c.parent.value - n - 1].depth == c.depth - 1
         && forall m :: c.parent.value - n - 1 < m < k ==> full[m].depth >= c.depth
  }

  ghost predicate AllHang(full: seq<Candidate>, parent: Option<nat>, depth: nat, n: nat) {
    forall k: nat :: k < |full| ==> HangsRight(full, parent, depth, n, k)
  }

  lemma {:induction false} ParentsAreClosest(text: Decoded, items: seq<Item>, parent: Option<nat>, depth: nat, n: nat)
    ensures AllHang(Full(text, items, parent, depth, n), parent, depth, n)
    decreases items
  {
    if items != [] {
      if IsForeign(items[0]) {
        ParentsAreClosest(text, items[1..], parent, depth, n);
      } else {
        FullStep(text, items, parent, depth, n);
        var own := CandidateOf(text, items[0], parent, depth, n + 1);
        var nested := Full(text, items[0].children, Some(n + 1), depth + 1, n + 1);
        ParentsAreClosest(text, items[0].children, Some(n + 1), depth + 1, n + 1);
        ParentsAreClosest(text, items[1..], parent, depth, n + 1 + |nested|);
        PartsHang(own, nested, Full(text, items[1..], parent, depth, n + 1 + |nested|), depth, n);
      }
    }
  }

  lemma PartsHang(own: Candidate, nested: seq<Candidate>, rest: seq<Candidate>, depth: nat, n: nat)
    requires own.depth == depth
    requires AllHang(nested, Some(n + 1), depth + 1, n + 1) && AllHang(rest, own.parent, depth, n + 1 + |nested|)
    ensures AllHang([own] + nested + rest, own.parent, depth, n)
  {
    var full := [own] + nested + rest;
    forall k: nat | k < |full| ensures HangsRight(full, own.parent, depth, n, k) {
      if 0 < k <= |nested| {
        NestedHangs(own, nested, rest, depth, n, k);
      } else if k > |nested| {
        assert HangsRight(rest, own.parent, depth, n + 1 + |nested|, k - 1 - |nested|);
        RestHangs([own] + nested, rest, own.parent, depth, n, k);
      }
    }
  }

  lemma NestedHangs(own: Candidate, nested: seq<Candidate>, rest: seq<Candidate>, depth: nat, n: nat, k: nat)
    requires 0 < k <= |nested| && own.depth == depth && AllHang(nested, Some(n + 1), depth + 1, n + 1)
    ensures HangsRight([own] + nested + rest, own.parent, depth, n, k)
  {
    var full := [own] + nested + rest;
    assert full[k] == nested[k - 1] && HangsRight(nested, Some(n + 1), depth + 1, n + 1, k - 1);
    forall m | 0 < m < k ensures full[m] == nested[m - 1] && full[m].depth >= depth + 1 {
      assert HangsRight(nested, Some(n + 1), depth + 1, n + 1, m - 1);
    }
    if full[k].depth == depth + 1 { assert full[0] == own; }
  }

  lemma RestHangs(before: seq<Candidate>, rest: seq<Candidate>, parent: Option<nat>, depth: nat, n: nat, k: nat)
    requires |before| <= k < |before| + |rest|
    requires HangsRight(rest, parent, depth, n + |before|, k - |before|)
    ensures HangsRight(before + rest, parent, depth, n, k)
  {
    var full := before + rest;
    assert forall m :: |before| <= m < |full| ==> full[m] == rest[m - |before|];
  }

  // ----- Limiting -----

  lemma {:induction false} FullSnoc(text: Decoded, items: seq<Item>, item: Item, parent: Option<nat>, depth: nat,
                                    n: nat)
    ensures Full(text, items + [item], parent, depth, n)
         == Full(text, items, parent, depth, n)
            + Full(text, [item], parent, depth, n + |Full(text, items, parent, depth, n)|)
    decreases |items|
  {
    hide Full, CandidateOf;
    if items == [] {
      assert [] + [item] == [item];
      NoView(text, parent, depth, n);
    } else {
      assert (items + [item])[1..] == items[1..] + [item];
      if IsForeign(items[0]) {
        FullSkip(text, items, parent, depth, n);
        FullSkip(text, items + [item], parent, depth, n);
        FullSnoc(text, items[1..], item, parent, depth, n);
      } else {
        FullStep(text, items, parent, depth, n);
        FullStep(text, items + [item], parent, depth, n);
        var nested := Full(text, items[0].children, Some(n + 1), depth + 1, n + 1);
        FullSnoc(text, items[1..], item, parent, depth, n + 1 + |nested|);
      }
    }
  }

  lemma {:induction false} EligibleSnoc(items: seq<Item>, item: Item)
    ensures Eligible(items + [item]) == Eligible(items) + Eligible([item])
    decreases |items|
  {
    if items == [] {
      assert [] + [item] == [item];
    } else {
      assert (items + [item])[1..] == items[1..] + [item];
      EligibleSnoc(items[1..], item);
    }
  }

  lemma {:induction false} DepthMember(items: seq<Item>, i: nat)
    requires i < |items|
    ensures items[i].Depth() <= DepthAll(items)
  {
    if i > 0 { DepthMember(items[1..], i - 1); }
  }

  /** Appending part by part and cutting each time is appending everything and
      cutting once. */
  lemma CutStep<T>(out: seq<T>, full: seq<T>, part: seq<T>, numbered: seq<T>, limit: nat)
    requires |out| <= limit && |part| == |numbered|
    requires |out| + |full| <= limit ==> part == numbered
    ensures Take(Take(out + full, limit) + part, limit) == Take(out + (full + numbered), limit)
    ensures |out + (full + numbered)| > limit <==> |out + full| > limit || |Take(out + full, limit) + part| > limit
  {
    assert out + (full + numbered) == (out + full) + numbered;
  }

  /** One item's view, numbered where it goes, as it lands in a list with this limit. */
  lemma OwnView(text: Decoded, out: seq<Candidate>, item: Item, parent: Option<nat>, depth: nat, limit: nat)
    requires |out| <= limit
    ensures
      var n := |out|;
      var full := Full(text, [item], parent, depth, n);
      var started := out + [CandidateOf(text, item, parent, depth, n + 1)];
      var nested := Full(text, item.children, Some(n + 1), depth + 1, n + 1);
      if IsForeign(item) then Take(out + full, limit) == out && |out + full| <= limit
      else if n == limit then Take(out + full, limit) == out && |out + full| > limit
      else Take(out + full, limit) == Take(started + nested, limit) && |out + full| == |started + nested|
    ensures Eligible([item]) == if IsForeign(item) then [] else [item] + Eligible(item.children)
  {
    NoView(text, parent, depth, |out|);
    if IsForeign(item) {
      FullSkip(text, [item], parent, depth, |out|);
    } else {
      FullStep(text, [item], parent, depth, |out|);
      hide Full, CandidateOf;
      var own := CandidateOf(text, item, parent, depth, |out| + 1);
      var nested := Full(text, item.children, Some(|out| + 1), depth + 1, |out| + 1);
      assert Full(text, [item], parent, depth, |out|) == [own] + nested;
      assert out + ([own] + nested) == out + [own] + nested;
    }
  }

  lemma PartView(text: Decoded, out: seq<Candidate>, items: seq<Item>, i: nat, parent: Option<nat>, depth: nat,
                 limit: nat)
    requires |out| <= limit && i < |items|
    ensures
      var n := |out|;
      var full := Full(text, items[..i], parent, depth, n);
      var more := Full(text, items[..i + 1], parent, depth, n);
      var cut := Take(out + full, limit);
      var part := Full(text, [items[i]], parent, depth, |cut|);
      && Take(cut + part, limit) == Take(out + more, limit)
      && (|out + more| > limit <==> |out + full| > limit || |cut + part| > limit)
  {
    var n := |out|;
    var full := Full(text, items[..i], parent, depth, n);
    var cut := Take(out + full, limit);
    FullSnoc(text, items[..i], items[i], parent, depth, n);
    assert items[..i] + [items[i]] == items[..i + 1];
    FullIsEligible(text, [items[i]], parent, depth, |cut|);
    FullIsEligible(text, [items[i]], parent, depth, n + |full|);
    hide Full, Eligible;
    CutStep(out, full, Full(text, [items[i]], parent, depth, |cut|), Full(text, [items[i]], parent, depth, n + |full|),
        limit);
  }

  /** The items that come into the view are accepted, as far as there is room for them. */
  ghost predicate AcceptedWithin(text: Decoded, eligible: seq<Item>, room: nat) {
    forall k :: 0 <= k < |eligible| && k < room ==> text.Accepts(eligible[k])
  }

  lemma AcceptedParts(text: Decoded, first: seq<Item>, second: seq<Item>, room: nat)
    ensures AcceptedWithin(text, first + second, room)
      <==> AcceptedWithin(text, first, room) && AcceptedWithin(text, second, room - Min(|first|, room))
  {
    hide Decoded.Accepts;
    var all := first + second;
    if AcceptedWithin(text, all, room) {
      assert forall k :: 0 <= k < |first| ==> all[k] == first[k];
      assert forall k :: 0 <= k < |second| ==> all[|first| + k] == second[k];
    }
  }

  /** What is accepted of the first i items and of the next one is accepted of both. */
  lemma AcceptedPrefix(text: Decoded, items: seq<Item>, i: nat, room: nat)
    requires i < |items|
    ensures
      var front := Eligible(items[..i]);
      AcceptedWithin(text, Eligible(items[..i + 1]), room)
      <==> AcceptedWithin(text, front, room)
           && AcceptedWithin(text, Eligible([items[i]]), room - Min(|front|, room))
  {
    EligibleSnoc(items[..i], items[i]);
    assert items[..i] + [items[i]] == items[..i + 1];
    hide Eligible, AcceptedWithin;
    AcceptedParts(text, Eligible(items[..i]), Eligible([items[i]]), room);
  }

  /** What is refused of the first items is refused of all. */
  lemma {:induction false} AcceptedWhole(text: Decoded, items: seq<Item>, i: nat, room: nat)
    requires i <= |items| && !AcceptedWithin(text, Eligible(items[..i]), room)
    ensures !AcceptedWithin(text, Eligible(items), room)
    decreases |items| - i
  {
    hide Eligible, AcceptedWithin;
    if i < |items| {
      AcceptedPrefix(text, items, i, room);
      AcceptedWhole(text, items, i + 1, room);
    } else {
      assert items[..i] == items;
    }
  }

  /** From number n on no candidate is more than 128 levels down. */
  ghost predicate Shallow(out: seq<Candidate>, n: nat) {
    forall k :: n <= k < |out| ==> out[k].depth <= 128
  }

  class SymbolList {
    var out: seq<Candidate>
    var limited: bool

    constructor ()
      ensures out == [] && !limited
    {
      out, limited := [], false;
    }

    /** Add one item and what is under it. Success adds exactly the first candidates
        of its full view that fit, and reports whether any did not. */
    method Append(item: Item, parent: Option<nat>, depth: nat, text: Decoded, limit: nat, cancel: Cancellation)
      returns (error: Option<SymbolError>)
      requires |out| <= limit
      modifies this, cancel
      ensures error.None? ==>
        && cancel.Quiet(old(cancel.polls))
        && out == Take(old(out) + Full(text, [item], parent, depth, |old(out)|), limit)
        && limited == (old(limited) || |old(out) + Full(text, [item], parent, depth, |old(out)|)| > limit)
      ensures error.Some? ==>
        match error.value
        case Canceled => cancel.Stopped(old(cancel.polls))
        case ComplexityLimit => depth + item.Depth() > MAX_SCOPES + 1
        case InvalidEvidence => !AcceptedWithin(text, Eligible([item]), limit - |old(out)|)
        case _ => false
      ensures error.None? ==> AcceptedWithin(text, Eligible([item]), limit - |old(out)|)
      ensures error.None? ==> |out| - |old(out)| <= cancel.polls - old(cancel.polls)
      ensures error.None? ==> old(out) <= out && Shallow(out, |old(out)|)
      decreases item, 1
    {
      hide Full, Eligible, CandidateOf, Take, Decoded.Mapped, Decoded.NameSpan;
      ghost var room := limit - |out|;
      AcceptedParts(text, [item], Eligible(item.children), room);
      OwnView(text, out, item, parent, depth, limit);
      var stop := cancel.Poll();
      if stop { return Some(Canceled); }
      if depth > MAX_SCOPES { return Some(ComplexityLimit); }
      if IsForeign(item) { return None; }
      if |out| == limit {
        limited := true;
        return None;
      }
      var range := text.Mapped(item.evidence.byteStart, item.evidence.byteEnd);
      var nameRange := text.NameSpan(item);
      if range.None? || nameRange.None? {
        assert !text.Accepts([item][0]);
        return Some(InvalidEvidence);
      }
      var line := StartsUpTo(text.lineStarts, item.evidence.byteStart);
      var id := |out| + 1;
      var candidate := Candidate(id, parent, depth, item.name, item.kind, range.value, nameRange.value, line);
      assert candidate == CandidateOf(text, item, parent, depth, id) by { Accepted(text, item, parent, depth, id); }
      out := out + [candidate];
      error := AppendAll(item.children, Some(id), depth + 1, text, limit, cancel);
    }

    method AppendAll(items: seq<Item>, parent: Option<nat>, depth: nat, text: Decoded, limit: nat, cancel: Cancellation)
      returns (error: Option<SymbolError>)
      requires |out| <= limit
      modifies this, cancel
      ensures error.None? ==>
        && cancel.Quiet(old(cancel.polls))
        && out == Take(old(out) + Full(text, items, parent, depth, |old(out)|), limit)
        && limited == (old(limited) || |old(out) + Full(text, items, parent, depth, |old(out)|)| > limit)
      ensures error.Some? ==>
        match error.value
        case Canceled => cancel.Stopped(old(cancel.polls))
        case ComplexityLimit => depth + DepthAll(items) > MAX_SCOPES + 1
        case InvalidEvidence => !AcceptedWithin(text, Eligible(items), limit - |old(out)|)
        case _ => false
      ensures error.None? ==> AcceptedWithin(text, Eligible(items), limit - |old(out)|)
      ensures error.None? ==> |out| - |old(out)| <= cancel.polls - old(cancel.polls)
      ensures error.None? ==> old(out) <= out && Shallow(out, |old(out)|)
      decreases items, 0
    {
      hide Full, Eligible, CandidateOf, AcceptedWithin;
      ghost var room := limit - |out|;
      NothingAccepted(text, room);
      ghost var since, start := cancel.polls, out;
      error := None;
      NoView(text, parent, depth, |out|);
      assert items[..0] == [];
      for i := 0 to |items|
        invariant error.None? && |out| <= limit && cancel.Quiet(since)
        invariant out == Take(start + Full(text, items[..i], parent, depth, |start|), limit)
        invariant limited == (old(limited) || |start + Full(text, items[..i], parent, depth, |start|)| > limit)
        invariant AcceptedWithin(text, Eligible(items[..i]), room)
        invariant |out| - |start| <= cancel.polls - since && start <= out && Shallow(out, |start|)
      {
        FullIsEligible(text, items[..i], parent, depth, |start|);
        AcceptedPrefix(text, items, i, room);
        PartView(text, start, items, i, parent, depth, limit);
        error := Append(items[i], parent, depth, text, limit, cancel);
        if error.Some? {
          DepthMember(items, i);
          if error.value.InvalidEvidence? { AcceptedWhole(text, items, i + 1, room); }
          return;
        }
      }
      assert items[..|items|] == items;
    }
  }

  lemma NothingAccepted(text: Decoded, room: nat)
    ensures Eligible([]) == [] && AcceptedWithin(text, [], room)
  {
  }

  lemma NoView(text: Decoded, parent: Option<nat>, depth: nat, n: nat)
    ensures Full(text, [], parent, depth, n) == []
  {
  }

  lemma Accepted(text: Decoded, item: Item, parent: Option<nat>, depth: nat, id: nat)
    requires text.Accepts(item)
    ensures CandidateOf(text, item, parent, depth, id) == Candidate(id, parent, depth, item.name, item.kind,
      text.Mapped(item.evidence.byteStart, item.evidence.byteEnd).value, text.NameSpan(item).value,
      StartsUpTo(text.lineStarts, item.evidence.byteStart))
  {
  }

  /** The delivered view of an outline cut to its limit. */
  ghost predicate IsView(candidates: seq<Candidate>, limited: bool, text: Decoded, items: seq<Item>, maxItems: nat) {
    var full := Full(text, items, None, 0, 0);
    && candidates == Take(full, maxItems)
    && (limited <==> |full| > maxItems)
  }

  /** Cutting keeps every delivered candidate's parent: ids are positions, every
      candidate shows the eligible item at its position, and its parent is the closest
      earlier candidate that is shallower. */
  lemma ViewIsClosed(candidates: seq<Candidate>, limited: bool, text: Decoded, items: seq<Item>, maxItems: nat)
    requires IsView(candidates, limited, text, items, maxItems)
    ensures |candidates| == Min(|Eligible(items)|, maxItems)
    ensures AreNumbered(text, candidates, Take(Eligible(items), maxItems), 0)
    ensures AllHang(candidates, None, 0, 0)
    ensures limited <==> |candidates| < |Eligible(items)|
  {
    var full := Full(text, items, None, 0, 0);
    FullIsEligible(text, items, None, 0, 0);
    ParentsAreClosest(text, items, None, 0, 0);
    hide Full, Eligible, CandidateOf;
    forall k: nat | k < |candidates| ensures HangsRight(candidates, None, 0, 0, k) {
      assert HangsRight(full, None, 0, 0, k);
    }
  }

  datatype View = View(candidates: seq<Candidate>, limited: bool, fallback: bool)

  /** What the worker refuses before it extracts anything. */
  predicate TooComplex(text: seq<byte>) {
    Newlines(text) + 1 > MAX_LINES || BraceBytes(text) > MAX_SCOPES
  }

  /** From any extracted outline to its view, for every language. */
  method Navigate(items: seq<Item>, source: seq<byte>, decoded: Decoded, maxItems: nat, cancel: Cancellation)
    returns (r: Result<View, SymbolError>)
    modifies cancel
    ensures r.Ok? ==>
      && cancel.Quiet(old(cancel.polls))
      && IsView(r.value.candidates, r.value.limited, decoded, items, maxItems)
      && (r.value.fallback <==> r.value.candidates == [] && source != [])
      && AcceptedWithin(decoded, Eligible(items), maxItems)
      && |r.value.candidates| <= cancel.polls - old(cancel.polls) && Shallow(r.value.candidates, 0)
    ensures r.Err? ==>
      match r.error
      case ComplexityLimit => DepthAll(items) > MAX_SCOPES + 1
      case InvalidEvidence => !AcceptedWithin(decoded, Eligible(items), maxItems)
      case Canceled => cancel.Stopped(old(cancel.polls))
      case _ => false
  {
    hide Eligible, Full, AcceptedWithin;
    var stop := cancel.Poll();
    if stop { return Err(Canceled); }
    var list := new SymbolList();
    var error := list.AppendAll(items, None, 0, decoded, maxItems, cancel);
    if error.Some? { return Err(error.value); }
    stop := cancel.Poll();
    if stop { return Err(Canceled); }
    assert [] + Full(decoded, items, None, 0, 0) == Full(decoded, items, None, 0, 0);
    r := Ok(View(list.out, list.limited, list.out == [] && source != []));
  }

  // ----- Rust items can be shown -----

  /** The item and its name begin and end between characters, and the name is what the
      text says there. */
  ghost predicate Sliceable(text: seq<byte>, item: Item) {
    && item.evidence.byteStart < item.evidence.byteEnd
    && SliceOf(text, item.evidence.byteStart, item.evidence.byteEnd).Some?
    && match item.evidence.name
       case None => true
       case Some(name) =>
         && item.evidence.byteStart <= name.start < name.end <= item.evidence.byteEnd
         && SliceOf(text, name.start, name.end) == Some(item.name)
  }

  /** Then only a missing original range can be held against it. */
  lemma OnlyUnmapped(text: seq<byte>, decoded: Decoded, item: Item)
    requires decoded.Describes(text) && Sliceable(text, item)
    ensures decoded.Accepts(item) <==> !decoded.Unmapped(item)
  {
    hide SliceOf, IsLineStarts;
    assert decoded.slice((item.evidence.byteStart, item.evidence.byteEnd)).Some?;
    if item.evidence.name.Some? {
      assert decoded.slice((item.evidence.name.value.start, item.evidence.name.value.end)) == Some(item.name);
    }
  }

  lemma TokenIsAscii(text: seq<byte>, token: Token)
    requires IsToken(text, token)
    ensures forall k :: token.start <= k < token.end ==> text[k] < 128
  {
  }

  lemma TokenIsSliceable(text: seq<byte>, token: Token)
    requires IsUtf8(text) && IsToken(text, token)
    ensures token.start < token.end && Boundary(text, token.start) && Boundary(text, token.end)
    ensures SliceOf(text, token.start, token.end) == Some(token.text)
  {
    TokenIsAscii(text, token);
    if token.end < |text| { AsciiStandsAlone(text, 0, token.end); }
    var own := text[token.start..token.end];
    AsciiDecodes(own, 0);
    assert own[0..] == own;
    hide WellFormedFrom, LossyFrom;
  }

  lemma {:induction false} ItemIsSliceable(file: File, text: seq<byte>, at: nat, item: Item, next: nat, nested: bool)
    requires IsItem(file, at, item, next, nested)
    requires IsUtf8(text) && Scans(text, file.tokens) && file.codeLen == |text|
    ensures forall i :: i in Eligible([item]) ==> Sliceable(text, i)
    decreases item, 1
  {
    hide IsItem, Reaches, Describes, HeaderEnd, Scans, IsUtf8, Sliceable;
    var k, s, c := OpenItem(file, at, item, next, nested);
    OwnSlice(file, text, at, k, item, next, nested);
    if item.children != [] { ItemsAreSliceable(file, text, s + 1, next - 1, item.children, c, true); }
    assert Eligible([item]) == if IsForeign(item) then [] else [item] + Eligible(item.children);
  }

  lemma OwnSlice(file: File, text: seq<byte>, at: nat, k: nat, item: Item, next: nat, nested: bool)
    requires Describes(file, at, k, item, next, nested)
    requires IsUtf8(text) && Scans(text, file.tokens) && file.codeLen == |text|
    ensures Sliceable(text, item)
  {
    DescribedEnd(file, at, k, item, next, nested);
    ScannedTokensOk(text, file.tokens);
    ScannedTokensAreTokens(text, file.tokens);
    hide Block, ImplBody, KindOf, Scans, IsUtf8, IsToken, SliceOf;
    var tokens := file.tokens;
    EndsBehind(tokens, |text|, file.codeLen, item.evidence.byteEnd, next, k);
    TokenIsSliceable(text, tokens[k]);
    TokenIsSliceable(text, tokens[k + 1]);
    TokenIsSliceable(text, tokens[next - 1]);
    SliceExists(text, item.evidence.byteStart, item.evidence.byteEnd);
  }

  lemma SliceExists(text: seq<byte>, start: nat, end: nat)
    requires start <= end <= |text| && Boundary(text, start) && Boundary(text, end)
    ensures SliceOf(text, start, end).Some?
  {
  }

  lemma {:induction false} ItemsAreSliceable(file: File, text: seq<byte>, from: nat, limit: int, items: seq<Item>,
                                             c: nat, nested: bool)
    requires Reaches(file, from, limit, items, c, nested)
    requires IsUtf8(text) && Scans(text, file.tokens) && file.codeLen == |text|
    ensures forall i :: i in Eligible(items) ==> Sliceable(text, i)
    decreases items, 0
  {
    hide IsItem, Reaches, Scans, IsUtf8, Sliceable;
    if items == [] {
      assert Eligible([]) == [];
    } else {
      var front, last := items[..|items| - 1], items[|items| - 1];
      var at, next := OpenLast(file, from, limit, items, c, nested);
      ItemsAreSliceable(file, text, from, limit, front, at, nested);
      ItemIsSliceable(file, text, at, last, next, nested);
      EligibleSnoc(front, last);
      assert front + [last] == items;
    }
  }

  /** Line blocks and headings are left to other views, and nothing else is. */
  lemma ForeignKinds(item: Item)
    ensures IsForeign(item) <==>
      match item.kind
      case LineBlock(_, _) => true
      case Heading(_) => true
      case _ => false
  {
  }

  /** The ranges of an accepted item's candidate are the original bytes of the item and of
      its name. */
  lemma CandidateRanges(decoded: Decoded, item: Item, parent: Option<nat>, depth: nat, id: nat)
    requires decoded.Accepts(item)
    ensures
      var candidate, evidence := CandidateOf(decoded, item, parent, depth, id), item.evidence;
      && Some(candidate.range) == decoded.original((evidence.byteStart, evidence.byteEnd))
      && match evidence.name
         case None => candidate.nameRange.None?
         case Some(name) =>
           && candidate.nameRange.Some? && candidate.nameRange == decoded.original((name.start, name.end))
           && decoded.slice((name.start, name.end)) == Some(item.name)
           && evidence.byteStart <= name.start < name.end <= evidence.byteEnd
  {
  }

  /** An item is accepted exactly when it and its name, if it has one, are not empty, lie in
      one another, are slices of the text and have original bytes, and the name is what the
      text says there. */
  lemma AcceptedExactly(decoded: Decoded, item: Item)
    ensures decoded.Accepts(item) <==>
      && item.evidence.byteStart < item.evidence.byteEnd
      && decoded.slice((item.evidence.byteStart, item.evidence.byteEnd)).Some?
      && decoded.original((item.evidence.byteStart, item.evidence.byteEnd)).Some?
      && match item.evidence.name
         case None => true
         case Some(name) =>
           && item.evidence.byteStart <= name.start < name.end <= item.evidence.byteEnd
           && decoded.slice((name.start, name.end)) == Some(item.name)
           && decoded.original((name.start, name.end)).Some?
  {
  }

  /** A candidate's line is one more than the newlines before its item. */
  lemma CandidateLine(text: seq<byte>, decoded: Decoded, item: Item, parent: Option<nat>, depth: nat, id: nat)
    requires decoded.Describes(text) && item.evidence.byteStart <= |text|
    ensures CandidateOf(decoded, item, parent, depth, id).line == 1 + Newlines(text[..item.evidence.byteStart])
  {
    hide IsLineStarts, Newlines;
    LineOfByte(Index(decoded.lineStarts, |text|), text, item.evidence.byteStart);
  }

  /** The view's items are the declarations of the text, or there are none. */
  ghost predicate FromOutline(items: seq<Item>, text: seq<byte>) {
    || IsRustOutline(items, text, text, MAX_SOURCE_BYTES)
    || (Eligible(items) == [] && IsRustOutline([], text, text, MAX_SOURCE_BYTES))
  }

  /** What refuses a capture before its outline is looked at, in the order it is asked:
      sizes beyond 64 KiB, more than 4096 candidates or none, text that does not decode,
      and more than 4096 lines or 128 opening braces. */
  ghost function Refusal(source: seq<byte>, text: seq<byte>, decodes: bool, maxItems: nat): Option<SymbolError> {
    if |source| > 65536 then Some(SourceLimit)
    else if maxItems == 0 || maxItems > 4096 then Some(InvalidLimits)
    else if !decodes then Some(UnsupportedEncoding)
    else if |text| > 65536 then Some(SourceLimit)
    else if multiset(text)[10] + 1 > 4096 || multiset(text)[123] > 128 then Some(ComplexityLimit)
    else None
  }

  /** Newlines and opening braces are counted one by one. */
  lemma {:induction false} BytesAreCounted(text: seq<byte>)
    ensures Newlines(text) == multiset(text)[10] && BraceBytes(text) == multiset(text)[123]
  {
    if text != [] {
      BytesAreCounted(text[..|text| - 1]);
      assert text == text[..|text| - 1] + [text[|text| - 1]];
    }
  }

  /** The Rust route. Beyond what is refused at sight, only an item without original bytes
      is held against a capture, and only one that would be delivered: not the depth of the
      outline, which the brace limit bounds, nor anything the text says. */
  method BuildRust(source: seq<byte>, text: seq<byte>, decodes: bool, decoded: Decoded, maxItems: nat,
                   cancel: Cancellation)
    returns (r: Result<View, SymbolError>, ghost items: seq<Item>)
    requires decodes ==> IsUtf8(text) && decoded.Describes(text)
    modifies cancel
    ensures r == Err(Canceled) ==>
      cancel.Stopped(old(cancel.polls)) && |source| <= 65536 && 0 < maxItems <= 4096
    ensures Refusal(source, text, decodes, maxItems).Some? ==> cancel.polls <= old(cancel.polls) + 1
    ensures r != Err(Canceled) && Refusal(source, text, decodes, maxItems).Some? ==>
      r == Err(Refusal(source, text, decodes, maxItems).value)
    ensures r != Err(Canceled) && Refusal(source, text, decodes, maxItems).None? ==>
      && FromOutline(items, text)
      && if AcceptedWithin(decoded, Eligible(items), maxItems) then
           && r.Ok? && cancel.Quiet(old(cancel.polls))
           && IsView(r.value.candidates, r.value.limited, decoded, items, maxItems)
           && (r.value.fallback <==> r.value.candidates == [] && source != [])
         else
           && r == Err(InvalidEvidence)
           && exists k :: 0 <= k < |Eligible(items)| && k < maxItems && decoded.Unmapped(Eligible(items)[k])
  {
    hide IsRustOutline, IsView, Eligible, Full, Newlines, BraceBytes, Tiles, Scans, Barren, Allocated, IsUtf8,
      EncodeAll, Lossy, SliceOf, IsLineStarts, FromOutline, Decoded.Describes;
    items := [];
    if |source| > MAX_SOURCE_BYTES { return Err(SourceLimit), items; }
    if !(1 <= maxItems <= MAX_ITEMS) { return Err(InvalidLimits), items; }
    var stop := cancel.Poll();
    if stop { return Err(Canceled), items; }
    if !decodes { return Err(UnsupportedEncoding), items; }
    if |text| > MAX_SOURCE_BYTES { return Err(SourceLimit), items; }
    BytesAreCounted(text);
    if TooComplex(text) { return Err(ComplexityLimit), items; }
    stop := cancel.Poll();
    if stop { return Err(Canceled), items; }
    var extracted, fallback := ExtractRust(text, MAX_SOURCE_BYTES, 50);
    items := extracted;
    Utf8RoundTrip(text);
    if fallback { BlocksAreForeign(items, text); } else { RustDepth(items, text); }
    assert FromOutline(items, text) by { OutlineOrBlocks(items, text, fallback); }
    if !AcceptedWithin(decoded, Eligible(items), maxItems) { RefusedIsUnmapped(items, text, decoded, maxItems); }
    r := Navigate(extracted, source, decoded, maxItems, cancel);
  }

  lemma OutlineOrBlocks(items: seq<Item>, text: seq<byte>, fallback: bool)
    requires if fallback then Eligible(items) == [] && IsRustOutline([], text, text, MAX_SOURCE_BYTES)
             else IsRustOutline(items, text, text, MAX_SOURCE_BYTES)
    ensures FromOutline(items, text)
  {
    hide IsRustOutline, Eligible;
  }

  lemma RefusedIsUnmapped(items: seq<Item>, text: seq<byte>, decoded: Decoded, maxItems: nat)
    requires FromOutline(items, text) && IsUtf8(text) && decoded.Describes(text)
    requires !AcceptedWithin(decoded, Eligible(items), maxItems)
    ensures exists k :: 0 <= k < |Eligible(items)| && k < maxItems && decoded.Unmapped(Eligible(items)[k])
  {
    hide Reaches, Scans, IsUtf8, IsLineStarts, Eligible, SliceOf, Sliceable;
    var k :| 0 <= k < |Eligible(items)| && k < maxItems && !decoded.Accepts(Eligible(items)[k]);
    var file: File, c: nat :|
      && Scans(text, file.tokens) && file.index.Indexes(text) && file.codeLen == |text|
      && |items| <= MAX_SOURCE_BYTES && Reaches(file, 0, |file.tokens|, items, c, false)
      && (|items| < MAX_SOURCE_BYTES ==> |file.tokens| <= c);
    ItemsAreSliceable(file, text, 0, |file.tokens|, items, c, false);
    OnlyUnmapped(text, decoded, Eligible(items)[k]);
  }

  lemma RustDepth(items: seq<Item>, text: seq<byte>)
    requires IsRustOutline(items, text, text, MAX_SOURCE_BYTES) && !TooComplex(text)
    ensures DepthAll(items) <= MAX_SCOPES + 1
  {
    hide Reaches, Scans, PostAll;
    var file: File, c: nat :|
      && Scans(text, file.tokens) && file.index.Indexes(text) && file.codeLen == |text|
      && |items| <= MAX_SOURCE_BYTES && Reaches(file, 0, |file.tokens|, items, c, false)
      && (|items| < MAX_SOURCE_BYTES ==> |file.tokens| <= c);
    OutlineDepth(file, text, items, c, MAX_SCOPES);
  }

  lemma BlocksAreForeign(items: seq<Item>, text: seq<byte>)
    requires exists byteEnd: nat, lineEnd: nat ::
      Tiles(items, byteEnd, lineEnd, Max(50, 1), text) && (|items| < MAX_SOURCE_BYTES ==> byteEnd == |text|)
    ensures Eligible(items) == [] && DepthAll(items) <= 1
  {
    forall i | 0 <= i < |items| ensures IsForeign(items[i]) && items[i].children == [] {
      assert IsBlock(items[i], i + 1, Max(50, 1), text);
    }
    OnlyForeign(items);
  }

  lemma {:induction false} OnlyForeign(items: seq<Item>)
    requires forall i :: 0 <= i < |items| ==> IsForeign(items[i]) && items[i].children == []
    ensures Eligible(items) == [] && DepthAll(items) <= 1
  {
    if items != [] {
      OnlyForeign(items[1..]);
      assert DepthAll([]) == 0;
    }
  }
}
