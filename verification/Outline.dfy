/** Structural outline items, their evidence and their preorder view. */
module Outline {
  import opened Basics

  datatype Kind =
    | Module | Struct | Class | Interface | Trait | Impl | Enum | Variant | Function | Method
    | Heading(level: nat) | Const | TypeAlias | LineBlock(startLine: nat, endLine: nat)

  datatype NameRange = NameRange(start: nat, end: nat)

  datatype Evidence = Evidence(byteStart: nat, byteEnd: nat, lineStart: nat, lineEnd: nat, name: Option<NameRange>)

  /** A verified evidence span, or None when a range is reversed or the name lies
      outside the item. */
  function NewEvidence(byteStart: nat, byteEnd: nat, lineStart: nat, lineEnd: nat,
                       name: Option<NameRange>): (r: Option<Evidence>)
    ensures r.Some? <==>
      && byteStart <= byteEnd && lineStart <= lineEnd
      && (name.Some? ==> byteStart <= name.value.start <= name.value.end <= byteEnd)
    ensures r.Some? ==> r.value == Evidence(byteStart, byteEnd, lineStart, lineEnd, name)
  {
    if byteStart > byteEnd then None
    else if lineStart > lineEnd then None
    else if name.Some? && name.value.start > name.value.end then None
    else if name.Some? && (name.value.start < byteStart || name.value.end > byteEnd) then None
    else Some(Evidence(byteStart, byteEnd, lineStart, lineEnd, name))
  }

  datatype Item = Item(id: nat, name: string, kind: Kind, evidence: Evidence, children: seq<Item>) {
    /** Items in this subtree, including itself. */
    function Count(): nat {
      1 + CountAll(children)
    }

    /** One for a leaf. */
    function Depth(): nat {
      1 + DepthAll(children)
    }

    function Preorder(): seq<Item> {
      [this] + PreorderAll(children)
    }

    /** The deepest item whose span holds the offset, first match in order. */
    function FindAtOffset(offset: nat): Option<Item> {
      if offset < evidence.byteStart || offset >= evidence.byteEnd then None
      else match FindAllAtOffset(children, offset)
        case Some(found) => Some(found)
        case None => Some(this)
    }
  }

  function CountAll(items: seq<Item>): nat {
    if items == [] then 0 else items[0].Count() + CountAll(items[1..])
  }

  function DepthAll(items: seq<Item>): nat {
    if items == [] then 0 else Max(items[0].Depth(), DepthAll(items[1..]))
  }

  function PreorderAll(items: seq<Item>): seq<Item> {
    if items == [] then [] else items[0].Preorder() + PreorderAll(items[1..])
  }

  function FindAllAtOffset(items: seq<Item>, offset: nat): Option<Item> {
    if items == [] then None
    else match items[0].FindAtOffset(offset)
      case Some(found) => Some(found)
      case None => FindAllAtOffset(items[1..], offset)
  }

  function Max(x: nat, y: nat): nat { if x >= y then x else y }

  /** Depth-first collection into one growing list. */
  method CollectFlat(item: Item, out: seq<Item>) returns (collected: seq<Item>)
    ensures collected == out + item.Preorder()
    decreases item
  {
    collected := out + [item];
    var i := 0;
    assert item.children[..0] == [];
    while i < |item.children|
      invariant i <= |item.children|
      invariant collected == out + [item] + PreorderAll(item.children[..i])
    {
      collected := CollectFlat(item.children[i], collected);
      PreorderSnoc(item.children[..i], item.children[i]);
      assert item.children[..i + 1] == item.children[..i] + [item.children[i]];
      i := i + 1;
    }
    assert item.children[..i] == item.children;
  }

  lemma {:induction false} PreorderSnoc(items: seq<Item>, last: Item)
    ensures PreorderAll(items + [last]) == PreorderAll(items) + last.Preorder()
    decreases |items|
  {
    if items == [] {
      assert [] + [last] == [last];
    } else {
      PreorderSnoc(items[1..], last);
      assert (items + [last])[1..] == items[1..] + [last];
    }
  }

  /** The recorded total is the length of the flat view. */
  lemma {:induction false} CountIsFlatLength(items: seq<Item>)
    ensures CountAll(items) == |PreorderAll(items)|
  {
    if items != [] {
      CountIsFlatLength(items[0].children);
      CountIsFlatLength(items[1..]);
    }
  }

  predicate Holds(item: Item, offset: nat) {
    item.evidence.byteStart <= offset < item.evidence.byteEnd
  }

  /** The search answers exactly when some item of the list holds the offset, with an
      item of the tree that holds it and has no child that does. */
  lemma {:induction false} FindIsDeepest(items: seq<Item>, offset: nat)
    ensures FindAllAtOffset(items, offset).Some? <==> exists i :: 0 <= i < |items| && Holds(items[i], offset)
    ensures FindAllAtOffset(items, offset).Some? ==>
      var found := FindAllAtOffset(items, offset).value;
      found in PreorderAll(items) && Holds(found, offset) && forall c :: c in found.children ==> !Holds(c, offset)
    decreases items
  {
    if items != [] {
      FindIsDeepest(items[0].children, offset);
      FindIsDeepest(items[1..], offset);
      assert PreorderAll(items) == [items[0]] + PreorderAll(items[0].children) + PreorderAll(items[1..]);
      assert forall i :: 0 < i < |items| ==> items[i] == items[1..][i - 1];
      if FindAllAtOffset(items[1..], offset).Some? {
        var i :| 0 <= i < |items[1..]| && Holds(items[1..][i], offset);
        assert items[i + 1] == items[1..][i];
      }
    }
  }

  /** Of several items that hold the offset the first is searched, and no other. */
  lemma {:induction false} FindTakesFirst(items: seq<Item>, i: nat, offset: nat)
    requires i < |items| && Holds(items[i], offset) && forall j :: 0 <= j < i ==> !Holds(items[j], offset)
    ensures FindAllAtOffset(items, offset) == items[i].FindAtOffset(offset)
    ensures FindAllAtOffset(items, offset).Some? && FindAllAtOffset(items, offset).value in items[i].Preorder()
  {
    if i == 0 {
      FindIsDeepest([items[0]], offset);
      FindIsDeepest(items[0].children, offset);
      assert items[0].Preorder() == [items[0]] + PreorderAll(items[0].children);
    } else {
      assert !Holds(items[0], offset);
      FindTakesFirst(items[1..], i - 1, offset);
    }
  }

  // ----- Entries: items with their parents instead of their children -----

  datatype Entry = Entry(id: nat, parent: Option<nat>, name: string, kind: Kind, evidence: Evidence)

  function EntryOf(item: Item, parent: Option<nat>): Entry {
    Entry(item.id, parent, item.name, item.kind, item.evidence)
  }

  /** The preorder view with each item's parent id. */
  function Entries(items: seq<Item>, parent: Option<nat>): seq<Entry> {
    if items == [] then []
    else [EntryOf(items[0], parent)] + Entries(items[0].children, Some(items[0].id)) + Entries(items[1..], parent)
  }

  lemma EntriesStep(items: seq<Item>, parent: Option<nat>)
    requires items != []
    ensures Entries(items, parent)
         == [EntryOf(items[0], parent)] + Entries(items[0].children, Some(items[0].id)) + Entries(items[1..], parent)
    ensures Entries([], parent) == []
  {
  }

  lemma {:induction false} EntriesSnoc(items: seq<Item>, last: Item, parent: Option<nat>)
    ensures Entries(items + [last], parent)
         == Entries(items, parent) + [EntryOf(last, parent)] + Entries(last.children, Some(last.id))
    decreases |items|
  {
    hide Entries, EntryOf;
    EntriesStep(items + [last], parent);
    if items == [] {
      assert [] + [last] == [last] && [last][1..] == [];
    } else {
      EntriesStep(items, parent);
      EntriesSnoc(items[1..], last, parent);
      assert (items + [last])[1..] == items[1..] + [last];
    }
  }

  /** Entry k shows item k. */
  predicate Shows(entries: seq<Entry>, items: seq<Item>) {
    && |entries| == |items|
    && forall k :: 0 <= k < |entries| ==> entries[k] == EntryOf(items[k], entries[k].parent)
  }

  lemma ShowsParts(entry: Entry, item: Item, nested: seq<Entry>, under: seq<Item>, rest: seq<Entry>, others: seq<Item>)
    requires entry == EntryOf(item, entry.parent) && Shows(nested, under) && Shows(rest, others)
    ensures Shows([entry] + nested + rest, [item] + under + others)
  {
  }

  /** The entries are the flat view, item by item. */
  lemma {:induction false} EntriesFollowPreorder(items: seq<Item>, parent: Option<nat>)
    ensures Shows(Entries(items, parent), PreorderAll(items))
  {
    if items != [] {
      EntriesFollowPreorder(items[0].children, Some(items[0].id));
      EntriesFollowPreorder(items[1..], parent);
      hide Shows;
      ShowsParts(EntryOf(items[0], parent), items[0], Entries(items[0].children, Some(items[0].id)),
                 PreorderAll(items[0].children), Entries(items[1..], parent), PreorderAll(items[1..]));
    }
  }
}
