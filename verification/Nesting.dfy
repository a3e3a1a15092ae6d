/** The stack machine that nests outline items by level: Markdown headings by
    heading level, Python definitions by indentation.

    Every considered line is an event. An event first closes the open items of its
    level or deeper, then may open an item of its own. */
module Nesting {
  import opened Basics
  import opened Outline

  datatype Event = Event(level: nat, isItem: bool)

  /** Item j is still open after event i: every later event was deeper. */
  ghost predicate Open(events: seq<Event>, j: nat, i: nat) {
    && j <= i < |events| && events[j].isItem
    && forall k :: j < k <= i ==> events[k].level > events[j].level
  }

  /** The nearest earlier item that is open for event i once it has closed what it
      closes. */
  ghost predicate IsParent(events: seq<Event>, j: nat, i: nat) {
    j < i && Open(events, j, i) && forall k :: j < k < i ==> !Open(events, k, i)
  }

  /** `at` lists the item events in order. */
  ghost predicate ListsItems(at: seq<nat>, events: seq<Event>) {
    && (forall k :: 0 <= k < |at| ==> at[k] < |events| && events[at[k]].isItem)
    && (forall k, l :: 0 <= k < l < |at| ==> at[k] < at[l])
    && (forall i :: 0 <= i < |events| && events[i].isItem ==> i in at)
  }

  /** Item event at[k], given this parent id, hangs under its parent. */
  ghost predicate ParentOk(parent: Option<nat>, at: seq<nat>, events: seq<Event>, k: nat)
    requires k < |at|
  {
    match parent
    case None => forall j: nat :: j < at[k] ==> !Open(events, j, at[k])
    case Some(p) => 1 <= p <= k && IsParent(events, at[p - 1], at[k])
  }

  /** The entries number the items 1..n in source order, each under its parent. */
  ghost predicate LogOk(log: seq<Entry>, at: seq<nat>, events: seq<Event>) {
    && |log| == |at| && ListsItems(at, events)
    && forall k: nat :: k < |log| ==> log[k].id == k + 1 && ParentOk(log[k].parent, at, events, k)
  }

  lemma FirstIsIn(s: seq<nat>)
    ensures s != [] ==> s[0] in s
  {
  }

  lemma LogLists(log: seq<Entry>, at: seq<nat>, events: seq<Event>)
    requires LogOk(log, at, events)
    ensures ListsItems(at, events) && |log| == |at|
  {
  }

  /** More events never change who was open before. */
  lemma OpenIsStable(events: seq<Event>, more: seq<Event>, j: nat, i: nat)
    requires events <= more && i < |events|
    ensures Open(more, j, i) <==> Open(events, j, i)
  {
  }

  /** Nor do they change anyone's parent. */
  lemma ParentIsStable(parent: Option<nat>, at: seq<nat>, events: seq<Event>, at': seq<nat>, more: seq<Event>, k: nat)
    requires at <= at' && events <= more && k < |at| && ListsItems(at, events)
    requires ParentOk(parent, at, events, k)
    ensures ParentOk(parent, at', more, k)
  {
    forall j: nat | j <= at[k] ensures Open(more, j, at[k]) <==> Open(events, j, at[k]) {
      OpenIsStable(events, more, j, at[k]);
    }
    hide Open;
    assert at'[k] == at[k];
    if parent.Some? {
      assert at'[parent.value - 1] == at[parent.value - 1];
    }
  }

  lemma LogSurvives(log: seq<Entry>, at: seq<nat>, events: seq<Event>, event: Event)
    requires LogOk(log, at, events) && !event.isItem
    ensures LogOk(log, at, events + [event])
  {
    hide ParentOk;
    forall k: nat | k < |log| ensures ParentOk(log[k].parent, at, events + [event], k) {
      ParentIsStable(log[k].parent, at, events, at, events + [event], k);
    }
  }

  /** Item j stays open when a line of this level arrives. */
  ghost predicate Survives(events: seq<Event>, j: nat, level: nat) {
    j < |events| && Open(events, j, |events| - 1) && events[j].level < level
  }

  lemma SurvivorsAreOpen(events: seq<Event>, event: Event, j: nat)
    requires j < |events|
    ensures Open(events + [event], j, |events|) <==> Survives(events, j, event.level)
  {
    var more := events + [event];
    assert more[|events|] == event && more[..|events|] == events;
    if Open(more, j, |events|) {
      assert events[j] == more[j];
      forall k | j < k <= |events| - 1 ensures events[k].level > events[j].level { assert events[k] == more[k]; }
    }
  }

  /** `open` ascends and holds exactly the surviving items. */
  ghost predicate AreSurvivors(open: seq<nat>, events: seq<Event>, level: nat) {
    && (forall s, t :: 0 <= s < t < |open| ==> open[s] < open[t])
    && (forall j: nat :: j in open <==> Survives(events, j, level))
  }

  /** `open` ascends and holds exactly the open items. */
  ghost predicate AreOpen(open: seq<nat>, events: seq<Event>) {
    && (forall s, t :: 0 <= s < t < |open| ==> open[s] < open[t])
    && (forall j: nat :: j in open <==> j < |events| && Open(events, j, |events| - 1))
  }

  lemma SurvivorsThenSkip(open: seq<nat>, events: seq<Event>, level: nat)
    requires AreSurvivors(open, events, level)
    ensures AreOpen(open, events + [Event(level, false)])
  {
    var more := events + [Event(level, false)];
    forall j: nat ensures j in open <==> j < |more| && Open(more, j, |events|) {
      if j < |events| { SurvivorsAreOpen(events, Event(level, false), j); }
    }
  }

  lemma SurvivorsThenItem(open: seq<nat>, events: seq<Event>, level: nat)
    requires AreSurvivors(open, events, level)
    ensures AreOpen(open + [|events|], events + [Event(level, true)])
  {
    var more := events + [Event(level, true)];
    assert Open(more, |events|, |events|);
    assert forall s :: 0 <= s < |open| ==> open[s] in open;
    forall j: nat ensures j in open + [|events|] <==> j < |more| && Open(more, j, |events|) {
      if j < |events| { SurvivorsAreOpen(events, Event(level, true), j); }
    }
  }

  /** A new item's parent is the last survivor. */
  lemma LastSurvivor(open: seq<nat>, events: seq<Event>, level: nat)
    requires AreSurvivors(open, events, level)
    ensures
      var more := events + [Event(level, true)];
      if open == [] then forall j: nat :: j < |events| ==> !Open(more, j, |events|)
      else IsParent(more, open[|open| - 1], |events|)
  {
    var more := events + [Event(level, true)];
    forall j: nat | j < |events| ensures Open(more, j, |events|) <==> j in open {
      SurvivorsAreOpen(events, Event(level, true), j);
    }
    hide Open, Survives;
    if open != [] {
      var last := open[|open| - 1];
      assert last in open;
      forall k | last < k < |events| ensures !Open(more, k, |events|) {
        if k in open { var s :| 0 <= s < |open| && open[s] == k; }
      }
    }
  }

  lemma ListGrows(at: seq<nat>, events: seq<Event>, level: nat)
    requires ListsItems(at, events)
    ensures ListsItems(at + [|events|], events + [Event(level, true)])
  {
    forall m | 0 <= m < |events| && events[m].isItem ensures m in at + [|events|] { assert m in at; }
  }

  /** Dropping the entries of this level or deeper from the top leaves the survivors. */
  lemma CloseKeeps(events: seq<Event>, open: seq<nat>, stack: seq<Frame>, at: seq<nat>, level: nat, kept: seq<nat>)
    requires AreOpen(open, events) && FramesOk(stack, open, at, events) && kept <= open
    requires forall s, t :: 0 <= s < t < |stack| ==> stack[s].0 < stack[t].0
    requires kept != [] ==> stack[|kept| - 1].0 < level
    requires forall s :: |kept| <= s < |stack| ==> stack[s].0 >= level
    ensures AreSurvivors(kept, events, level)
  {
    hide Open;
    forall j: nat ensures j in kept <==> Survives(events, j, level) {
      if j in kept {
        var s :| 0 <= s < |kept| && kept[s] == j;
        assert open[s] in open;
        if s < |kept| - 1 { assert stack[s].0 < stack[|kept| - 1].0; }
      }
      if Survives(events, j, level) {
        assert j in open;
        var s :| 0 <= s < |open| && open[s] == j;
      }
    }
  }

  /** Entries at top level. */
  function RootEntries(log: seq<Entry>): nat {
    if log == [] then 0 else RootEntries(log[..|log| - 1]) + if log[|log| - 1].parent.None? then 1 else 0
  }

  lemma OneMoreEntry(log: seq<Entry>, entry: Entry)
    ensures RootEntries(log + [entry]) == RootEntries(log) + if entry.parent.None? then 1 else 0
    ensures RootEntries([]) == 0
  {
    assert (log + [entry])[..|log|] == log;
  }

  type Frame = (nat, Item)

  function TopId(stack: seq<Frame>): Option<nat> {
    if stack == [] then None else Some(stack[|stack| - 1].1.id)
  }

  /** The entries of the open items, outermost first. */
  function StackEntries(stack: seq<Frame>): seq<Entry> {
    if stack == [] then []
    else
      var rest, last := stack[..|stack| - 1], stack[|stack| - 1].1;
      StackEntries(rest) + [EntryOf(last, TopId(rest))] + Entries(last.children, Some(last.id))
  }

  lemma NoFrames()
    ensures StackEntries([]) == []
  {
  }

  lemma StackPush(stack: seq<Frame>, frame: Frame)
    requires frame.1.children == []
    ensures StackEntries(stack + [frame]) == StackEntries(stack) + [EntryOf(frame.1, TopId(stack))]
  {
    StackSnoc(stack, frame);
  }

  lemma StackSnoc(rest: seq<Frame>, frame: Frame)
    ensures StackEntries(rest + [frame])
         == StackEntries(rest) + ([EntryOf(frame.1, TopId(rest))] + Entries(frame.1.children, Some(frame.1.id)))
  {
    hide Entries;
    assert (rest + [frame])[..|rest|] == rest;
  }

  /** Hanging the top item under the one below it changes no entry. */
  lemma StackPop(base: seq<Frame>, below: Frame, last: Frame)
    ensures
      var joined := below.1.(children := below.1.children + [last.1]);
      StackEntries(base + [(below.0, joined)]) == StackEntries(base + [below] + [last])
  {
    var joined := below.1.(children := below.1.children + [last.1]);
    StackSnoc(base, (below.0, joined));
    StackSnoc(base, below);
    StackSnoc(base + [below], last);
    EntriesSnoc(below.1.children, last.1, Some(below.1.id));
    hide StackEntries, Entries;
    var s, e, c := StackEntries(base), [EntryOf(below.1, TopId(base))], Entries(below.1.children, Some(below.1.id));
    var l := [EntryOf(last.1, Some(below.1.id))] + Entries(last.1.children, Some(last.1.id));
    assert s + (e + (c + l)) == s + (e + c) + l;
  }

  /** Each stack frame is an open item event. */
  ghost predicate FramesOk(stack: seq<Frame>, open: seq<nat>, at: seq<nat>, events: seq<Event>) {
    && |open| == |stack|
    && (forall s :: 0 <= s < |stack| ==>
          && open[s] < |events| && stack[s].0 == events[open[s]].level
          && 1 <= stack[s].1.id <= |at| && at[stack[s].1.id - 1] == open[s])
  }

  /** The outermost frames of an earlier stack, perhaps with more children. */
  ghost predicate Bottom(stack: seq<Frame>, before: seq<Frame>) {
    && |stack| <= |before|
    && forall s :: 0 <= s < |stack| ==> stack[s].0 == before[s].0 && stack[s].1.id == before[s].1.id
  }

  lemma FramesMatch(stack: seq<Frame>, open: seq<nat>, at: seq<nat>, events: seq<Event>)
    requires FramesOk(stack, open, at, events)
    ensures |open| == |stack|
  {
  }

  lemma FramesShrink(stack: seq<Frame>, before: seq<Frame>, open: seq<nat>, at: seq<nat>, events: seq<Event>)
    requires FramesOk(before, open, at, events) && Bottom(stack, before)
    ensures FramesOk(stack, open[..|stack|], at, events)
  {
  }

  lemma FramesGrow(stack: seq<Frame>, open: seq<nat>, at: seq<nat>, events: seq<Event>, frame: Frame)
    requires FramesOk(stack, open, at, events) && frame.1.id == |at| + 1
    ensures FramesOk(stack + [frame], open + [|events|], at + [|events|], events + [Event(frame.0, true)])
  {
  }

  /** The entry of a new item extends the log. */
  lemma LogGrows(log: seq<Entry>, at: seq<nat>, events: seq<Event>, level: nat, item: Item, stack: seq<Frame>,
                 open: seq<nat>)
    requires LogOk(log, at, events) && AreSurvivors(open, events, level) && FramesOk(stack, open, at, events)
    requires item.id == |at| + 1
    ensures LogOk(log + [EntryOf(item, TopId(stack))], at + [|events|], events + [Event(level, true)])
  {
    var entry := EntryOf(item, TopId(stack));
    var log', at', more := log + [entry], at + [|events|], events + [Event(level, true)];
    ListGrows(at, events, level);
    LastSurvivor(open, events, level);
    hide AreSurvivors, Open, IsParent, ListsItems;
    assert ParentOk(entry.parent, at', more, |log|);
    hide ParentOk;
    forall k: nat | k < |log| ensures log'[k].id == k + 1 && ParentOk(log'[k].parent, at', more, k) {
      ParentIsStable(log[k].parent, at, events, at', more, k);
    }
  }

  /** Open items get strictly deeper from the bottom of the stack to its top. */
  lemma LevelsAscend(stack: seq<Frame>, open: seq<nat>, at: seq<nat>, events: seq<Event>)
    requires FramesOk(stack, open, at, events) && AreOpen(open, events)
    ensures |open| == |stack|
    ensures forall s, t :: 0 <= s < t < |stack| ==> stack[s].0 < stack[t].0
  {
    forall s, t | 0 <= s < t < |stack| ensures stack[s].0 < stack[t].0 {
      assert open[s] in open && Open(events, open[s], |events| - 1);
      assert open[t] in open && Open(events, open[t], |events| - 1);
    }
  }

  lemma NothingYet()
    ensures Entries([], None) == [] && StackEntries([]) == [] && RootEntries([]) == 0
    ensures LogOk([], [], []) && FramesOk([], [], [], []) && AreOpen([], [])
  {
  }

  class NestingStack {
    var top: seq<Item>
    var stack: seq<Frame>
    /** The events so far, which of them are items, which are open, and the entries
        of all items in source order. */
    ghost var events: seq<Event>
    ghost var at: seq<nat>
    ghost var open: seq<nat>
    ghost var log: seq<Entry>

    constructor ()
      ensures Valid() && top == [] && stack == [] && events == [] && at == [] && log == []
    {
      top, stack := [], [];
      events, at, open, log := [], [], [], [];
      new;
      hide LogOk, FramesOk, AreOpen, StackEntries, Entries, RootEntries;
      NothingYet();
    }

    ghost predicate Consistent()
      reads this
    {
      && log == Entries(top, None) + StackEntries(stack) && |log| == |at|
      && LogOk(log, at, events)
      && FramesOk(stack, open, at, events)
      && RootEntries(log) == |top| + if stack == [] then 0 else 1
    }

    ghost predicate Valid()
      reads this
    {
      Consistent() && AreOpen(open, events)
    }

    /** A line of this level has arrived and closed what it closes. */
    ghost predicate Arriving(level: nat)
      reads this
    {
      Consistent() && AreSurvivors(open, events, level)
    }

    /** Close the innermost open item under the one around it, or at top level. */
    method Pop()
      requires stack != [] && |open| == |stack|
      modifies this`top, this`stack, this`open
      ensures Entries(top, None) + StackEntries(stack) == old(Entries(top, None) + StackEntries(stack))
      ensures |stack| == |old(stack)| - 1 && open == old(open)[..|stack|]
      ensures forall s :: 0 <= s < |stack| ==> stack[s].0 == old(stack)[s].0 && stack[s].1.id == old(stack)[s].1.id
      ensures |top| == |old(top)| + if stack == [] then 1 else 0
    {
      hide StackEntries, Entries;
      var n := |stack|;
      var popped := stack[n - 1].1;
      open := open[..n - 1];
      if n == 1 {
        EntriesSnoc(top, popped, None);
        StackSnoc([], stack[0]);
        assert [] + [stack[0]] == stack;
        NoFrames();
        top, stack := top + [popped], [];
      } else {
        var below := stack[n - 2];
        StackPop(stack[..n - 2], below, stack[n - 1]);
        assert stack[..n - 2] + [below] + [stack[n - 1]] == stack;
        stack := stack[..n - 2] + [(below.0, below.1.(children := below.1.children + [popped]))];
      }
    }

    /** A line of the given level arrives: close every open item of that level or
        deeper. */
    method CloseTo(level: nat)
      requires Valid()
      modifies this
      ensures Arriving(level) && events == old(events) && log == old(log) && at == old(at)
    {
      hide LogOk, FramesOk, AreOpen, AreSurvivors, StackEntries, Entries, RootEntries;
      LevelsAscend(stack, open, at, events);
      ghost var before := stack;
      while stack != [] && stack[|stack| - 1].0 >= level
        invariant Bottom(stack, before) && open == old(open)[..|stack|]
        invariant Entries(top, None) + StackEntries(stack) == old(Entries(top, None) + StackEntries(stack))
        invariant forall s :: |stack| <= s < |before| ==> before[s].0 >= level
        invariant events == old(events) && log == old(log) && at == old(at)
        invariant |top| + (if stack == [] then 0 else 1) == |old(top)| + (if before == [] then 0 else 1)
        decreases |stack|
      {
        Pop();
      }
      FramesShrink(stack, before, old(open), at, events);
      CloseKeeps(events, old(open), before, at, level, open);
    }

    /** The line opens no item. */
    ghost method Skip(level: nat)
      requires Arriving(level)
      modifies this`events
      ensures Valid() && events == old(events) + [Event(level, false)]
    {
      assert FramesOk(stack, open, at, events + [Event(level, false)]);
      LogSurvives(log, at, events, Event(level, false));
      SurvivorsThenSkip(open, events, level);
      hide RootEntries, FramesOk, LogOk, AreOpen, AreSurvivors, StackEntries, Entries, RootEntries;
      events := events + [Event(level, false)];
    }

    /** The line opens an item of its own. */
    method Push(level: nat, item: Item)
      requires Arriving(level) && item.children == [] && item.id == |at| + 1
      modifies this
      ensures Valid() && events == old(events) + [Event(level, true)]
      ensures at == old(at) + [|old(events)|]
      ensures log == old(log) + [EntryOf(item, TopId(old(stack)))]
      ensures stack != []
    {
      hide FramesOk, LogOk, AreOpen, AreSurvivors, StackEntries, Entries, RootEntries;
      FramesGrow(stack, open, at, events, (level, item));
      LogGrows(log, at, events, level, item, stack, open);
      SurvivorsThenItem(open, events, level);
      StackPush(stack, (level, item));
      OneMoreEntry(log, EntryOf(item, TopId(stack)));
      log := log + [EntryOf(item, TopId(stack))];
      stack := stack + [(level, item)];
      open, at, events := open + [|events|], at + [|events|], events + [Event(level, true)];
      assert log == Entries(top, None) + StackEntries(stack);
    }

    /** End of input: close everything. */
    method Drain()
      requires Valid()
      modifies this
      ensures stack == [] && events == old(events) && at == old(at) && log == old(log)
      ensures Entries(top, None) == log && (top == [] <==> log == []) && LogOk(log, at, events)
    {
      hide LogOk, FramesOk, AreOpen, StackEntries;
      FramesMatch(stack, open, at, events);
      NoFrames();
      while stack != []
        invariant |open| == |stack| && events == old(events) && log == old(log) && at == old(at)
        invariant Entries(top, None) + StackEntries(stack) == log
        decreases |stack|
      {
        Pop();
      }
    }
  }

  // ----- How deep a nesting can get -----

  /** The entry's rank is within the limit and above its parent's. */
  predicate RanksAbove(entry: Entry, ranks: seq<nat>, most: nat) {
    && 1 <= entry.id <= |ranks| && ranks[entry.id - 1] <= most
    && (entry.parent.Some? ==>
          1 <= entry.parent.value <= |ranks| && ranks[entry.parent.value - 1] < ranks[entry.id - 1])
  }

  /** With every item strictly above its parent in some ranking, a forest is no deeper
      than the ranking is high. */
  lemma {:induction false} DepthByRank(items: seq<Item>, parent: Option<nat>, ranks: seq<nat>, most: nat)
    requires forall e :: e in Entries(items, parent) ==> RanksAbove(e, ranks, most)
    requires parent.Some? ==> 1 <= parent.value <= |ranks| && ranks[parent.value - 1] <= most
    ensures DepthAll(items) <= if parent.Some? then most - ranks[parent.value - 1] else most + 1
    decreases items
  {
    if items != [] {
      var first := EntryOf(items[0], parent);
      assert Entries(items, parent) == [first] + Entries(items[0].children, Some(items[0].id))
          + Entries(items[1..], parent);
      assert first in Entries(items, parent) && RanksAbove(first, ranks, most);
      hide Entries;
      DepthByRank(items[0].children, Some(items[0].id), ranks, most);
      DepthByRank(items[1..], parent, ranks, most);
    }
  }

  /** Nested items sit at strictly higher levels, so levels from `least` to `most`
      allow that many generations and no more. */
  lemma DepthIsBounded(items: seq<Item>, at: seq<nat>, events: seq<Event>, least: nat, most: nat)
    requires LogOk(Entries(items, None), at, events) && least <= most
    requires forall i :: 0 <= i < |events| ==> least <= events[i].level <= most
    ensures DepthAll(items) <= most - least + 1
  {
    hide Entries;
    var log := Entries(items, None);
    var ranks := seq(|at|, k requires 0 <= k < |at| => if at[k] < |events| && least <= events[at[k]].level
                                                      then events[at[k]].level - least else 0);
    forall e | e in log ensures RanksAbove(e, ranks, most - least) {
      var k :| 0 <= k < |log| && log[k] == e;
      EntryRanks(log, at, events, least, most, k, ranks);
    }
    hide LogOk;
    DepthByRank(items, None, ranks, most - least);
  }

  lemma EntryRanks(log: seq<Entry>, at: seq<nat>, events: seq<Event>, least: nat, most: nat, k: nat, ranks: seq<nat>)
    requires LogOk(log, at, events) && k < |log| && |ranks| == |at| && least <= most
    requires forall i :: 0 <= i < |events| ==> least <= events[i].level <= most
    requires forall j :: 0 <= j < |at| && at[j] < |events| ==> ranks[j] == events[at[j]].level - least
    ensures RanksAbove(log[k], ranks, most - least)
  {
    assert ParentOk(log[k].parent, at, events, k) && log[k].id == k + 1;
    assert at[k] < |events|;
    if log[k].parent.Some? { ParentIsLower(at[log[k].parent.value - 1], at[k], events); }
  }

  lemma ParentIsLower(j: nat, i: nat, events: seq<Event>)
    requires IsParent(events, j, i)
    ensures j < i < |events| && events[j].level < events[i].level
  {
  }
}
