/** Flattening a tree of group instances into fields, and walking it back. */
module GroupRoundTrip {
  import opened Wrappers
  import opened Sequences
  import opened Tags
  import opened Messages
  import opened Groups
  import opened GroupLaws

  /**
   * Part of an instance: a field, or a nested group given by its count field, the unknown
   * fields before its first instance, and its instances.
   */
  datatype Item =
    | Leaf(entry: Entry)
    | Sub(count: Entry, lead: seq<Entry>, instances: seq<Instance>)

  datatype Instance = Instance(items: seq<Item>)

  function FirstEntry(item: Item): Entry {
    match item
    case Leaf(entry) => entry
    case Sub(count, _, _) => count
  }

  function FlatItem(item: Item): (r: seq<Entry>)
    ensures |r| > 0 && r[0] == FirstEntry(item)
  {
    match item
    case Leaf(entry) => [entry]
    case Sub(count, lead, instances) => [count] + lead + FlatInstances(instances)
  }

  function FlatItems(items: seq<Item>): (r: seq<Entry>) {
    if items == [] then [] else FlatItem(items[0]) + FlatItems(items[1..])
  }

  function FlatInstances(instances: seq<Instance>): (r: seq<Entry>) {
    if instances == [] then [] else FlatItems(instances[0].items) + FlatInstances(instances[1..])
  }

  /** A field no table here knows, which a walk keeps in whatever instance it stands in. */
  predicate Unknown(entry: Entry, known: set<Tag>) {
    entry.tag !in known && entry.tag != CHECKSUM
  }

  predicate AllUnknown(entries: seq<Entry>, known: set<Tag>) {
    forall i :: 0 <= i < |entries| ==> Unknown(entries[i], known)
  }

  /** The tags of the items that are the table's own members, in order. */
  function OwnTags(items: seq<Item>, table: GroupTable): (r: seq<Tag>) {
    if items == [] then []
    else
      (if FirstEntry(items[0]).tag in table.members then [FirstEntry(items[0]).tag] else []) + OwnTags(items[1..], table)
  }

  /** An item `table` allows in an instance: a plain member, an unknown field, or a nested group. */
  ghost predicate ItemFits(item: Item, table: GroupTable, known: set<Tag>)
    decreases item
  {
    match item
    case Leaf(entry) =>
      if entry.tag in table.members
      then entry.tag != CHECKSUM && NestedCountedBy(table.nested, entry.tag) == None
      else Unknown(entry, known)
    case Sub(count, lead, instances) =>
      && count.tag in table.members && count.tag != CHECKSUM
      && var nested := NestedCountedBy(table.nested, count.tag);
      && nested.Some?
      && IsCount(count.value, |instances|)
      && AllUnknown(lead, known)
      && InstancesFit(instances, nested.value, known)
  }

  ghost predicate ItemsFit(items: seq<Item>, table: GroupTable, known: set<Tag>)
    decreases items
  {
    items == [] || (ItemFits(items[0], table, known) && ItemsFit(items[1..], table, known))
  }

  /** Every instance opens with the delimiter, and holds no own tag twice. */
  ghost predicate InstancesFit(instances: seq<Instance>, table: GroupTable, known: set<Tag>)
    decreases instances
  {
    instances == [] ||
    (&& instances[0].items != []
     && FirstEntry(instances[0].items[0]).tag == table.delimiter && table.delimiter in table.members
     && Distinct(OwnTags(instances[0].items, table))
     && ItemsFit(instances[0].items, table, known)
     && InstancesFit(instances[1..], table, known))
  }

  /** `entries` stands in the message at `slot`, within `end`. */
  predicate At(message: seq<Entry>, end: nat, slot: nat, entries: seq<Entry>) {
    slot + |entries| <= end <= |message| && message[slot..slot + |entries|] == entries
  }

  lemma AtSplits(message: seq<Entry>, end: nat, slot: nat, a: seq<Entry>, b: seq<Entry>)
    requires At(message, end, slot, a + b)
    ensures At(message, end, slot, a) && At(message, end, slot + |a|, b)
    ensures slot + |a + b| <= end <= |message|
  {
    assert a == (a + b)[..|a|];
    assert b == (a + b)[|a|..];
  }

  lemma AtBounds(message: seq<Entry>, end: nat, slot: nat, entries: seq<Entry>)
    requires At(message, end, slot, entries)
    ensures slot + |entries| <= end <= |message|
  {
  }

  lemma FirstAt(message: seq<Entry>, end: nat, slot: nat, entries: seq<Entry>)
    requires At(message, end, slot, entries) && entries != []
    ensures slot < end && message[slot] == entries[0]
  {
    assert message[slot..slot + |entries|][0] == message[slot];
  }

  /** The next slot that is not an unknown field. */
  function SkipUnknown(message: seq<Entry>, end: nat, slot: nat, known: set<Tag>): (r: nat)
    requires slot <= end <= |message|
    ensures slot <= r <= end
    decreases end - slot
  {
    if slot == end || !Unknown(message[slot], known) then slot else SkipUnknown(message, end, slot + 1, known)
  }

  /** What follows `slot`, unknown fields aside, is nothing `table` could take at any depth. */
  predicate Clear(message: seq<Entry>, end: nat, slot: nat, table: GroupTable, known: set<Tag>)
    requires slot <= end <= |message|
  {
    var next := SkipUnknown(message, end, slot, known);
    next == end || message[next].tag == CHECKSUM || message[next].tag !in TagsWithin(table)
  }

  /** What follows `slot`, unknown fields aside, is nothing a group nested in `table` could take. */
  predicate Between(message: seq<Entry>, end: nat, slot: nat, table: GroupTable, known: set<Tag>)
    requires slot <= end <= |message|
  {
    var next := SkipUnknown(message, end, slot, known);
    || next == end || message[next].tag == CHECKSUM
    || message[next].tag in table.members || message[next].tag !in TagsWithin(table)
  }

  /** Unknown fields make no difference to where a walk goes. */
  lemma {:induction false} SkippingChangesNothing(message: seq<Entry>, end: nat, slot: nat, table: GroupTable, known: set<Tag>)
    requires slot <= end <= |message| && TagsWithin(table) <= known
    ensures var next := SkipUnknown(message, end, slot, known);
            && WalkEnd(message, end, slot, table, known) == WalkEnd(message, end, next, table, known)
            && OwnSlots(message, end, slot, table, known) == OwnSlots(message, end, next, table, known)
    decreases end - slot
  {
    if slot < end && Unknown(message[slot], known) {
      SkippingChangesNothing(message, end, slot + 1, table, known);
    }
  }

  lemma ClearWalkStops(message: seq<Entry>, end: nat, slot: nat, table: GroupTable, known: set<Tag>)
    requires slot <= end <= |message| && TagsWithin(table) <= known && Clear(message, end, slot, table, known)
    ensures WalkEnd(message, end, slot, table, known) == SkipUnknown(message, end, slot, known)
    ensures OwnSlots(message, end, slot, table, known) == []
  {
    SkippingChangesNothing(message, end, slot, table, known);
    NextIsKnown(message, end, slot, known);
  }

  lemma {:induction false} NextIsKnown(message: seq<Entry>, end: nat, slot: nat, known: set<Tag>)
    requires slot <= end <= |message|
    ensures var next := SkipUnknown(message, end, slot, known); next < end ==> !Unknown(message[next], known)
    decreases end - slot
  {
    if slot < end && Unknown(message[slot], known) { NextIsKnown(message, end, slot + 1, known); }
  }

  lemma {:induction false} SkipsUnknownEntries(message: seq<Entry>, end: nat, slot: nat, entries: seq<Entry>, known: set<Tag>)
    requires At(message, end, slot, entries) && AllUnknown(entries, known)
    ensures SkipUnknown(message, end, slot, known) == SkipUnknown(message, end, slot + |entries|, known)
    decreases |entries|
  {
    if entries != [] {
      FirstAt(message, end, slot, entries);
      assert entries == entries[..1] + entries[1..];
      AtSplits(message, end, slot, entries[..1], entries[1..]);
      SkipsUnknownEntries(message, end, slot + 1, entries[1..], known);
    }
  }

  /** Before an item that fits, as before what may follow it, no nested group goes on. */
  lemma {:induction false} BetweenItems(message: seq<Entry>, end: nat, slot: nat, items: seq<Item>, table: GroupTable, known: set<Tag>)
    requires At(message, end, slot, FlatItems(items)) && ItemsFit(items, table, known)
    requires TagsWithin(table) <= known
    requires Between(message, end, slot + |FlatItems(items)|, table, known)
    ensures Between(message, end, slot, table, known)
    decreases |items|
  {
    hide At, TagsWithin;
    if items != [] {
      var first := FlatItem(items[0]);
      AtSplits(message, end, slot, first, FlatItems(items[1..]));
      FirstAt(message, end, slot, first);
      BetweenItems(message, end, slot + |first|, items[1..], table, known);
    }
  }

  lemma {:induction false} BetweenInstances(message: seq<Entry>, end: nat, slot: nat, instances: seq<Instance>, table: GroupTable, known: set<Tag>)
    requires At(message, end, slot, FlatInstances(instances)) && InstancesFit(instances, table, known)
    requires TagsWithin(table) <= known
    requires Between(message, end, slot + |FlatInstances(instances)|, table, known)
    ensures Between(message, end, slot, table, known)
    decreases |instances|
  {
    hide At, Between, ItemsFit, TagsWithin, FlatInstances, FlatItems;
    if instances == [] {
      NoInstances(slot, table);
    } else {
      var first := FlatItems(instances[0].items);
      FirstInstance(instances, slot, table);
      AtSplits(message, end, slot, first, FlatInstances(instances[1..]));
      BetweenInstances(message, end, slot + |first|, instances[1..], table, known);
      BetweenItems(message, end, slot, instances[0].items, table, known);
    }
  }

  /** The slots of the items that are the table's own members. */
  function ItemSlots(items: seq<Item>, slot: nat, table: GroupTable): (r: seq<nat>)
    ensures |r| == |OwnTags(items, table)|
    decreases |items|
  {
    if items == [] then []
    else
      (if FirstEntry(items[0]).tag in table.members then [slot] else [])
      + ItemSlots(items[1..], slot + |FlatItem(items[0])|, table)
  }

  function InstanceSlots(instances: seq<Instance>, slot: nat, table: GroupTable): (r: seq<nat>)
    decreases |instances|
  {
    if instances == [] then []
    else ItemSlots(instances[0].items, slot, table) + InstanceSlots(instances[1..], slot + |FlatItems(instances[0].items)|, table)
  }

  /** Instances are the first, and then the others after it. */
  lemma FirstInstance(instances: seq<Instance>, slot: nat, table: GroupTable)
    requires instances != []
    ensures var first, rest := FlatItems(instances[0].items), instances[1..];
            && FlatInstances(instances) == first + FlatInstances(rest)
            && |FlatInstances(instances)| == |first| + |FlatInstances(rest)|
            && InstanceSlots(instances, slot, table)
               == ItemSlots(instances[0].items, slot, table) + InstanceSlots(rest, slot + |first|, table)
  {
    hide FlatItems, ItemSlots;
  }

  lemma NoInstances(slot: nat, table: GroupTable)
    ensures FlatInstances([]) == [] && InstanceSlots([], slot, table) == []
  {
  }

  /** A walk crosses items that fit, meeting exactly their own members. */
  lemma {:induction false} WalkCrossesItems(message: seq<Entry>, end: nat, slot: nat, items: seq<Item>, table: GroupTable, known: set<Tag>)
    requires At(message, end, slot, FlatItems(items)) && ItemsFit(items, table, known)
    requires UniqueTags(table) && TagsWithin(table) <= known
    requires Between(message, end, slot + |FlatItems(items)|, table, known)
    ensures var after := slot + |FlatItems(items)|;
            && WalkEnd(message, end, slot, table, known) == WalkEnd(message, end, after, table, known)
            && OwnSlots(message, end, slot, table, known) == ItemSlots(items, slot, table) + OwnSlots(message, end, after, table, known)
    decreases items
  {
    hide At, WalkEnd, OwnSlots, ItemFits, Between, UniqueTags, TagsWithin, FirstEntry, FlatItem, FlatItems, ItemSlots, ItemsFit;
    AtBounds(message, end, slot, FlatItems(items));
    if items == [] {
      NoItems(slot, table, OwnSlots(message, end, slot, table, known));
    } else {
      var next, rest := slot + |FlatItem(items[0])|, items[1..];
      var own := if FirstEntry(items[0]).tag in table.members then [slot] else [];
      FirstItem(items, slot, table);
      FirstItemFits(items, table, known);
      AtSplits(message, end, slot, FlatItem(items[0]), FlatItems(rest));
      BetweenItems(message, end, next, rest, table, known);
      WalkCrossesItem(message, end, slot, items[0], table, known);
      WalkCrossesItems(message, end, next, rest, table, known);
      FollowedBy(own, ItemSlots(rest, next, table), OwnSlots(message, end, slot + |FlatItems(items)|, table, known),
                 OwnSlots(message, end, next, table, known));
    }
  }

  lemma FollowedBy(a: seq<nat>, b: seq<nat>, c: seq<nat>, later: seq<nat>)
    requires later == b + c
    ensures a + later == a + b + c
  {
  }

  lemma NoItems(slot: nat, table: GroupTable, others: seq<nat>)
    ensures FlatItems([]) == [] && ItemSlots([], slot, table) + others == others
  {
  }

  /** Items are the first, and then the others after it. */
  lemma FirstItem(items: seq<Item>, slot: nat, table: GroupTable)
    requires items != []
    ensures var first, rest := FlatItem(items[0]), items[1..];
            && FlatItems(items) == first + FlatItems(rest)
            && |FlatItems(items)| == |first| + |FlatItems(rest)|
            && ItemSlots(items, slot, table)
               == (if FirstEntry(items[0]).tag in table.members then [slot] else []) + ItemSlots(rest, slot + |first|, table)
  {
    hide FlatItem, FirstEntry;
  }

  lemma FirstItemFits(items: seq<Item>, table: GroupTable, known: set<Tag>)
    requires items != [] && ItemsFit(items, table, known)
    ensures ItemFits(items[0], table, known) && ItemsFit(items[1..], table, known)
  {
    hide ItemFits;
  }

  /** With unique tags, what follows an item cannot go on with the group nested in it. */
  lemma BetweenIsClear(message: seq<Entry>, end: nat, slot: nat, table: GroupTable, nested: GroupTable, known: set<Tag>)
    requires slot <= end <= |message| && Between(message, end, slot, table, known)
    requires UniqueTags(table) && nested in table.nested
    ensures UniqueTags(nested) && TagsWithin(nested) <= TagsWithin(table)
    ensures Clear(message, end, slot, nested, known) && Between(message, end, slot, nested, known)
  {
    var k :| 0 <= k < |table.nested| && table.nested[k] == nested;
  }

  /** A count field and the group it counts are crossed in one step. */
  lemma MemberStepTo(message: seq<Entry>, end: nat, slot: nat, after: nat, table: GroupTable, known: set<Tag>)
    requires slot < after <= end <= |message| && TagsWithin(table) <= known
    requires message[slot].tag in table.members && message[slot].tag != CHECKSUM
    requires Past(message, end, slot, table, known) == SkipUnknown(message, end, after, known)
    ensures WalkEnd(message, end, slot, table, known) == WalkEnd(message, end, after, table, known)
    ensures OwnSlots(message, end, slot, table, known) == [slot] + OwnSlots(message, end, after, table, known)
  {
    SkippingChangesNothing(message, end, after, table, known);
  }

  lemma {:induction false} WalkCrossesItem(message: seq<Entry>, end: nat, slot: nat, item: Item, table: GroupTable, known: set<Tag>)
    requires At(message, end, slot, FlatItem(item)) && ItemFits(item, table, known)
    requires UniqueTags(table) && TagsWithin(table) <= known
    requires Between(message, end, slot + |FlatItem(item)|, table, known)
    ensures var after := slot + |FlatItem(item)|;
            && WalkEnd(message, end, slot, table, known) == WalkEnd(message, end, after, table, known)
            && OwnSlots(message, end, slot, table, known)
               == (if FirstEntry(item).tag in table.members then [slot] else []) + OwnSlots(message, end, after, table, known)
    decreases item
  {
    hide At, Between, UniqueTags, TagsWithin, InstancesFit, WalkEnd, OwnSlots, FlatInstances;
    AtBounds(message, end, slot, FlatItem(item));
    FirstAt(message, end, slot, FlatItem(item));
    match item
    case Leaf(entry) =>
      PlainStep(message, end, slot, table, known);
    case Sub(count, lead, instances) =>
      assert FlatItem(item) == [count] + (lead + FlatInstances(instances));
      AtSplits(message, end, slot, [count], lead + FlatInstances(instances));
      WalkCrossesNested(message, end, slot, lead, instances, table, NestedCountedBy(table.nested, count.tag).value, known);
  }

  lemma PlainStep(message: seq<Entry>, end: nat, slot: nat, table: GroupTable, known: set<Tag>)
    requires slot < end <= |message| && TagsWithin(table) <= known && message[slot].tag != CHECKSUM
    requires if message[slot].tag in table.members then NestedCountedBy(table.nested, message[slot].tag) == None else message[slot].tag !in known
    ensures WalkEnd(message, end, slot, table, known) == WalkEnd(message, end, slot + 1, table, known)
    ensures OwnSlots(message, end, slot, table, known)
         == (if message[slot].tag in table.members then [slot] else []) + OwnSlots(message, end, slot + 1, table, known)
  {
  }

  lemma {:induction false} WalkCrossesNested(
    message: seq<Entry>, end: nat, slot: nat, lead: seq<Entry>, instances: seq<Instance>, table: GroupTable, nested: GroupTable, known: set<Tag>)
    requires At(message, end, slot + 1, lead + FlatInstances(instances))
    requires message[slot].tag in table.members && message[slot].tag != CHECKSUM
    requires NestedCountedBy(table.nested, message[slot].tag) == Some(nested)
    requires AllUnknown(lead, known) && InstancesFit(instances, nested, known)
    requires UniqueTags(table) && TagsWithin(table) <= known
    requires Between(message, end, slot + 1 + |lead + FlatInstances(instances)|, table, known)
    ensures var after := slot + 1 + |lead + FlatInstances(instances)|;
            && WalkEnd(message, end, slot, table, known) == WalkEnd(message, end, after, table, known)
            && OwnSlots(message, end, slot, table, known) == [slot] + OwnSlots(message, end, after, table, known)
    decreases instances, 2
  {
    hide At, Between, UniqueTags, TagsWithin, InstancesFit, AllUnknown, WalkEnd, OwnSlots, SkipUnknown, Clear, FlatInstances;
    AtBounds(message, end, slot + 1, lead + FlatInstances(instances));
    var after := slot + 1 + |lead + FlatInstances(instances)|;
    BetweenIsClear(message, end, after, table, nested, known);
    WalkCrossesGroup(message, end, slot + 1, lead, instances, nested, known);
    ClearWalkStops(message, end, after, nested, known);
    MemberStepTo(message, end, slot, after, table, known);
  }

  lemma {:induction false} WalkCrossesGroup(
    message: seq<Entry>, end: nat, slot: nat, lead: seq<Entry>, instances: seq<Instance>, table: GroupTable, known: set<Tag>)
    requires At(message, end, slot, lead + FlatInstances(instances))
    requires AllUnknown(lead, known) && InstancesFit(instances, table, known)
    requires UniqueTags(table) && TagsWithin(table) <= known
    requires Between(message, end, slot + |lead + FlatInstances(instances)|, table, known)
    ensures var after := slot + |lead + FlatInstances(instances)|;
            && WalkEnd(message, end, slot, table, known) == WalkEnd(message, end, after, table, known)
            && OwnSlots(message, end, slot, table, known)
               == InstanceSlots(instances, slot + |lead|, table) + OwnSlots(message, end, after, table, known)
    decreases instances, 1
  {
    hide At, WalkEnd, OwnSlots, Between, UniqueTags, TagsWithin, SkipUnknown, InstancesFit, FlatInstances;
    AtSplits(message, end, slot, lead, FlatInstances(instances));
    SkipsUnknownEntries(message, end, slot, lead, known);
    SkippingChangesNothing(message, end, slot, table, known);
    SkippingChangesNothing(message, end, slot + |lead|, table, known);
    WalkCrossesInstances(message, end, slot + |lead|, instances, table, known);
  }

  lemma {:induction false} WalkCrossesInstances(
    message: seq<Entry>, end: nat, slot: nat, instances: seq<Instance>, table: GroupTable, known: set<Tag>)
    requires At(message, end, slot, FlatInstances(instances)) && InstancesFit(instances, table, known)
    requires UniqueTags(table) && TagsWithin(table) <= known
    requires Between(message, end, slot + |FlatInstances(instances)|, table, known)
    ensures var after := slot + |FlatInstances(instances)|;
            && WalkEnd(message, end, slot, table, known) == WalkEnd(message, end, after, table, known)
            && OwnSlots(message, end, slot, table, known)
               == InstanceSlots(instances, slot, table) + OwnSlots(message, end, after, table, known)
    decreases instances, 0
  {
    hide At, WalkEnd, OwnSlots, ItemsFit, ItemSlots, Between, UniqueTags, TagsWithin, FlatItems, OwnTags, FlatInstances, InstanceSlots, InstancesFit;
    AtBounds(message, end, slot, FlatInstances(instances));
    if instances == [] {
      NoInstances(slot, table);
      assert [] + OwnSlots(message, end, slot, table, known) == OwnSlots(message, end, slot, table, known);
    } else {
      var first := FlatItems(instances[0].items);
      FirstInstance(instances, slot, table);
      FirstFits(instances, table, known);
      AtSplits(message, end, slot, first, FlatInstances(instances[1..]));
      BetweenInstances(message, end, slot + |first|, instances[1..], table, known);
      WalkCrossesItems(message, end, slot, instances[0].items, table, known);
      WalkCrossesInstances(message, end, slot + |first|, instances[1..], table, known);
      Associates(
        ItemSlots(instances[0].items, slot, table),
        InstanceSlots(instances[1..], slot + |first|, table),
        OwnSlots(message, end, slot + |FlatInstances(instances)|, table, known));
    }
  }

  lemma {:induction false} PlaceAllInTwo(g: Grouping, message: seq<Entry>, a: seq<nat>, b: seq<nat>, delimiter: Tag)
    requires forall i :: 0 <= i < |a + b| ==> (a + b)[i] < |message|
    ensures forall i :: 0 <= i < |a| ==> a[i] == (a + b)[i] < |message|
    ensures forall i :: 0 <= i < |b| ==> b[i] == (a + b)[|a| + i] < |message|
    ensures PlaceAll(g, message, a + b, delimiter) == PlaceAll(PlaceAll(g, message, a, delimiter), message, b, delimiter)
    decreases |a|
  {
    assert forall i :: 0 <= i < |a| ==> a[i] == (a + b)[i];
    assert forall i :: 0 <= i < |b| ==> b[i] == (a + b)[|a| + i];
    if a == [] {
      assert a + b == b;
    } else {
      assert (a + b)[1..] == a[1..] + b;
      PlaceAllInTwo(Place(g, message, a[0], delimiter), message, a[1..], b, delimiter);
    }
  }

  function TagsAt(message: seq<Entry>, slots: seq<nat>): (r: seq<Tag>)
    requires forall i :: 0 <= i < |slots| ==> slots[i] < |message|
    ensures |r| == |slots|
  {
    seq(|slots|, i requires 0 <= i < |slots| => message[slots[i]].tag)
  }

  /** Slots with new, distinct tags all join the open instance. */
  lemma {:induction false} NewTagsJoin(g: Grouping, message: seq<Entry>, slots: seq<nat>, delimiter: Tag)
    requires forall i :: 0 <= i < |slots| ==> slots[i] < |message|
    requires g.instanceStart.Some? && Distinct(g.seen + TagsAt(message, slots))
    ensures PlaceAll(g, message, slots, delimiter) == g.(seen := g.seen + TagsAt(message, slots))
    decreases |slots|
  {
    if slots == [] {
      assert g.seen + TagsAt(message, slots) == g.seen;
    } else {
      var tags := TagsAt(message, slots);
      assert tags[0] !in g.seen by {
        assert (g.seen + tags)[|g.seen|] == tags[0];
        forall i | 0 <= i < |g.seen| ensures g.seen[i] != tags[0] {
          assert (g.seen + tags)[i] == g.seen[i];
        }
      }
      assert tags == [tags[0]] + TagsAt(message, slots[1..]);
      assert g.seen + tags == g.seen + [tags[0]] + TagsAt(message, slots[1..]);
      NewTagsJoin(Place(g, message, slots[0], delimiter), message, slots[1..], delimiter);
    }
  }

  lemma TagsAtJoin(message: seq<Entry>, a: seq<nat>, b: seq<nat>)
    requires forall i :: 0 <= i < |a| ==> a[i] < |message|
    requires forall i :: 0 <= i < |b| ==> b[i] < |message|
    ensures forall i :: 0 <= i < |a + b| ==> (a + b)[i] < |message|
    ensures TagsAt(message, a + b) == TagsAt(message, a) + TagsAt(message, b)
  {
  }

  lemma OneTagAt(message: seq<Entry>, slot: nat, tag: Tag)
    requires slot < |message| && message[slot].tag == tag
    ensures TagsAt(message, [slot]) == [tag] && TagsAt(message, []) == []
  {
  }

  /** The items' own slots are in the message, and hold the items' own tags. */
  lemma {:induction false} ItemSlotsHoldOwnTags(message: seq<Entry>, end: nat, slot: nat, items: seq<Item>, table: GroupTable)
    requires At(message, end, slot, FlatItems(items))
    ensures forall i :: 0 <= i < |ItemSlots(items, slot, table)| ==> ItemSlots(items, slot, table)[i] < |message|
    ensures TagsAt(message, ItemSlots(items, slot, table)) == OwnTags(items, table)
    decreases |items|
  {
    hide At, ItemSlots, OwnTags, FlatItem, FlatItems, TagsAt, FirstEntry;
    if items == [] {
      NoOwnTags(message, slot, table);
    } else {
      var first, tag := FlatItem(items[0]), FirstEntry(items[0]).tag;
      FirstItem(items, slot, table);
      FirstOwnTag(items, table);
      AtSplits(message, end, slot, first, FlatItems(items[1..]));
      FirstAt(message, end, slot, first);
      ItemSlotsHoldOwnTags(message, end, slot + |first|, items[1..], table);
      var own := if tag in table.members then [slot] else [];
      TagsAtJoin(message, own, ItemSlots(items[1..], slot + |first|, table));
      OneTagAt(message, slot, tag);
    }
  }

  lemma NoOwnTags(message: seq<Entry>, slot: nat, table: GroupTable)
    ensures ItemSlots([], slot, table) == [] && OwnTags([], table) == [] && TagsAt(message, []) == []
  {
  }

  lemma FirstOwnTag(items: seq<Item>, table: GroupTable)
    requires items != []
    ensures OwnTags(items, table)
         == (if FirstEntry(items[0]).tag in table.members then [FirstEntry(items[0]).tag] else []) + OwnTags(items[1..], table)
  {
  }

  /** The instances a grouping has if its open one ends at `at`. */
  function ClosedAt(g: Grouping, at: nat): (r: seq<Scope>) {
    if g.instanceStart.Some? then g.instances + [Scope(g.instanceStart.value, at)] else g.instances
  }

  /** The instances' own extents, laid end to end from `slot`. */
  function Extents(instances: seq<Instance>, slot: nat): (r: seq<Scope>)
    ensures |r| == |instances|
    decreases |instances|
  {
    if instances == [] then []
    else
      var after := slot + |FlatItems(instances[0].items)|;
      [Scope(slot, after)] + Extents(instances[1..], after)
  }

  /** An instance's members, placed after another instance or first, make one instance. */
  lemma InstanceIsGrouped(g: Grouping, message: seq<Entry>, end: nat, slot: nat, items: seq<Item>, table: GroupTable)
    requires At(message, end, slot, FlatItems(items)) && items != []
    requires FirstEntry(items[0]).tag == table.delimiter && table.delimiter in table.members
    requires Distinct(OwnTags(items, table))
    requires g.instanceStart.Some? ==> table.delimiter in g.seen
    ensures forall i :: 0 <= i < |ItemSlots(items, slot, table)| ==> ItemSlots(items, slot, table)[i] < |message|
    ensures PlaceAll(g, message, ItemSlots(items, slot, table), table.delimiter)
         == Grouping(Some(slot), OwnTags(items, table), ClosedAt(g, slot), g.anomalies)
    ensures table.delimiter in OwnTags(items, table)
  {
    hide At, Distinct, PlaceAll, TagsAt, FlatItems, ClosedAt;
    ItemSlotsHoldOwnTags(message, end, slot, items, table);
    FirstSlotIsDelimiter(items, slot, table);
    FirstItemAt(message, end, slot, items);
    DelimiterOpens(g, message, ItemSlots(items, slot, table), table.delimiter);
  }

  lemma FirstItemAt(message: seq<Entry>, end: nat, slot: nat, items: seq<Item>)
    requires At(message, end, slot, FlatItems(items)) && items != []
    ensures slot < |message| && message[slot] == FirstEntry(items[0])
  {
    AtSplits(message, end, slot, FlatItem(items[0]), FlatItems(items[1..]));
    FirstAt(message, end, slot, FlatItem(items[0]));
    hide At, FlatItems;
  }

  lemma FirstSlotIsDelimiter(items: seq<Item>, slot: nat, table: GroupTable)
    requires items != [] && FirstEntry(items[0]).tag in table.members
    ensures ItemSlots(items, slot, table) != [] && ItemSlots(items, slot, table)[0] == slot
  {
  }

  /** Members with distinct tags, the delimiter first, close what was open and make one instance. */
  lemma DelimiterOpens(g: Grouping, message: seq<Entry>, slots: seq<nat>, delimiter: Tag)
    requires slots != [] && forall i :: 0 <= i < |slots| ==> slots[i] < |message|
    requires message[slots[0]].tag == delimiter && Distinct(TagsAt(message, slots))
    requires g.instanceStart.Some? ==> delimiter in g.seen
    ensures PlaceAll(g, message, slots, delimiter) == Grouping(Some(slots[0]), TagsAt(message, slots), ClosedAt(g, slots[0]), g.anomalies)
    ensures delimiter in TagsAt(message, slots)
  {
    var tags := TagsAt(message, slots);
    assert tags == [tags[0]] + TagsAt(message, slots[1..]);
    hide Distinct, TagsAt;
    NewTagsJoin(Place(g, message, slots[0], delimiter), message, slots[1..], delimiter);
  }

  lemma NothingToPlace(g: Grouping, message: seq<Entry>, delimiter: Tag)
    ensures PlaceAll(g, message, [], delimiter) == g
  {
  }

  lemma {:induction false} InstancesAreGrouped(
    g: Grouping, message: seq<Entry>, end: nat, slot: nat, instances: seq<Instance>, table: GroupTable, known: set<Tag>)
    requires At(message, end, slot, FlatInstances(instances)) && InstancesFit(instances, table, known)
    requires g.instanceStart.Some? ==> table.delimiter in g.seen
    ensures forall i :: 0 <= i < |InstanceSlots(instances, slot, table)| ==> InstanceSlots(instances, slot, table)[i] < |message|
    ensures var placed := PlaceAll(g, message, InstanceSlots(instances, slot, table), table.delimiter);
            && ClosedAt(placed, slot + |FlatInstances(instances)|)
               == (if instances == [] then ClosedAt(g, slot) else ClosedAt(g, slot) + Extents(instances, slot))
            && placed.anomalies == g.anomalies
    decreases |instances|
  {
    hide At, ItemSlots, OwnTags, ItemsFit, FlatItems, PlaceAll, FlatInstances, InstanceSlots, Extents, InstancesFit, ClosedAt, Distinct;
    if instances == [] {
      NoInstances(slot, table);
      NothingToPlace(g, message, table.delimiter);
    } else {
      var first, rest := FlatItems(instances[0].items), instances[1..];
      FirstInstance(instances, slot, table);
      FirstExtent(instances, slot);
      AtSplits(message, end, slot, first, FlatInstances(rest));
      FirstFits(instances, table, known);
      InstanceIsGrouped(g, message, end, slot, instances[0].items, table);
      ClosesAt(g, slot, OwnTags(instances[0].items, table), slot + |first|);
      var here := ItemSlots(instances[0].items, slot, table);
      var later := InstanceSlots(rest, slot + |first|, table);
      var next := PlaceAll(g, message, here, table.delimiter);
      InstancesAreGrouped(next, message, end, slot + |first|, rest, table, known);
      AllWithin(message, here, later);
      PlaceAllInTwo(g, message, here, later, table.delimiter);
      Associates(ClosedAt(g, slot), [Scope(slot, slot + |first|)], Extents(rest, slot + |first|));
      assert ClosedAt(g, slot) + [Scope(slot, slot + |first|)] + [] == ClosedAt(g, slot) + [Scope(slot, slot + |first|)];
    }
  }

  lemma FirstFits(instances: seq<Instance>, table: GroupTable, known: set<Tag>)
    requires instances != [] && InstancesFit(instances, table, known)
    ensures instances[0].items != [] && FirstEntry(instances[0].items[0]).tag == table.delimiter && table.delimiter in table.members
    ensures Distinct(OwnTags(instances[0].items, table)) && ItemsFit(instances[0].items, table, known) && InstancesFit(instances[1..], table, known)
  {
    hide Distinct, OwnTags, ItemsFit;
  }

  lemma ClosesAt(g: Grouping, slot: nat, seen: seq<Tag>, at: nat)
    ensures ClosedAt(Grouping(Some(slot), seen, ClosedAt(g, slot), g.anomalies), at) == ClosedAt(g, slot) + [Scope(slot, at)]
  {
  }

  lemma FirstExtent(instances: seq<Instance>, slot: nat)
    requires instances != []
    ensures var after := slot + |FlatItems(instances[0].items)|;
            && Extents(instances, slot) == [Scope(slot, after)] + Extents(instances[1..], after)
            && (instances[1..] == [] ==> Extents(instances[1..], after) == [])
  {
    hide FlatItems;
  }

  lemma AllWithin(message: seq<Entry>, a: seq<nat>, b: seq<nat>)
    requires forall i :: 0 <= i < |a| ==> a[i] < |message|
    requires forall i :: 0 <= i < |b| ==> b[i] < |message|
    ensures forall i :: 0 <= i < |a + b| ==> (a + b)[i] < |message|
  {
  }

  /**
   * A flattened group walks back to its instances: the count field, unknown fields before the
   * first instance, and the instances, followed by the scope's end, CheckSum, or a known tag
   * the group cannot hold.
   */
  lemma FlattenedGroupReadsBack(
    message: seq<Entry>, scope: Scope, countSlot: nat, lead: seq<Entry>, instances: seq<Instance>, table: GroupTable, known: set<Tag>)
    requires Find(message, scope, table.countTag, scope.start) == Some(countSlot)
    requires UniqueTags(table) && TagsWithin(table) <= known
    requires IsCount(message[countSlot].value, |instances|)
    requires AllUnknown(lead, known) && InstancesFit(instances, table, known)
    requires At(message, scope.end, countSlot + 1, lead + FlatInstances(instances))
    requires var after := countSlot + 1 + |lead + FlatInstances(instances)|;
             after == scope.end || message[after].tag == CHECKSUM
             || (message[after].tag in known && message[after].tag !in TagsWithin(table))
    ensures GetGroup(message, scope, table, known) == Ok(Some(Extents(instances, countSlot + 1 + |lead|)))
    ensures WalkOf(message, scope.end, countSlot, table, known).1 == countSlot + 1 + |lead + FlatInstances(instances)|
  {
    hide WalkOf, ParseCount, At, FlatInstances, TagsWithin, UniqueTags, InstancesFit, IsCount, Extents, AllUnknown;
    FlattenedGroupWalks(message, scope.end, countSlot, lead, instances, table, known);
  }

  lemma FlattenedGroupWalks(
    message: seq<Entry>, end: nat, countSlot: nat, lead: seq<Entry>, instances: seq<Instance>, table: GroupTable, known: set<Tag>)
    requires countSlot < end <= |message|
    requires UniqueTags(table) && TagsWithin(table) <= known
    requires IsCount(message[countSlot].value, |instances|)
    requires AllUnknown(lead, known) && InstancesFit(instances, table, known)
    requires At(message, end, countSlot + 1, lead + FlatInstances(instances))
    requires var after := countSlot + 1 + |lead + FlatInstances(instances)|;
             after == end || message[after].tag == CHECKSUM
             || (message[after].tag in known && message[after].tag !in TagsWithin(table))
    ensures WalkOf(message, end, countSlot, table, known)
         == (Walk(Some(|instances|), Extents(instances, countSlot + 1 + |lead|), []), countSlot + 1 + |lead + FlatInstances(instances)|)
  {
    hide At, UniqueTags, TagsWithin, InstancesFit, AllUnknown, WalkEnd, OwnSlots, PlaceAll, ParseCount, FlatInstances, InstanceSlots, Extents, WalkOf, ClosedAt, IsCount;
    CountIs(message[countSlot].value, |instances|);
    var start, first := countSlot + 1, countSlot + 1 + |lead|;
    AtBounds(message, end, start, lead + FlatInstances(instances));
    var after := start + |lead + FlatInstances(instances)|;
    FlattenedGroupSlots(message, end, start, lead, instances, table, known);
    FlattenedGroupIsGrouped(message, end, first, instances, table, known);
    WalkOfParts(message, end, countSlot, table, known, after, Extents(instances, first));
  }

  /** The walk ends after the group, and its own slots are those of the instances. */
  lemma FlattenedGroupSlots(
    message: seq<Entry>, end: nat, start: nat, lead: seq<Entry>, instances: seq<Instance>, table: GroupTable, known: set<Tag>)
    requires UniqueTags(table) && TagsWithin(table) <= known
    requires AllUnknown(lead, known) && InstancesFit(instances, table, known)
    requires At(message, end, start, lead + FlatInstances(instances)) && start + |lead + FlatInstances(instances)| <= end <= |message|
    requires var after := start + |lead + FlatInstances(instances)|;
             after == end || message[after].tag == CHECKSUM
             || (message[after].tag in known && message[after].tag !in TagsWithin(table))
    ensures At(message, end, start + |lead|, FlatInstances(instances))
    ensures WalkEnd(message, end, start, table, known) == start + |lead + FlatInstances(instances)|
    ensures OwnSlots(message, end, start, table, known) == InstanceSlots(instances, start + |lead|, table)
  {
    hide At, Between, Clear, SkipUnknown, UniqueTags, TagsWithin, InstancesFit, AllUnknown, WalkEnd, OwnSlots, FlatInstances, InstanceSlots;
    var after := start + |lead + FlatInstances(instances)|;
    StopIsClear(message, end, after, table, known);
    ClearWalkStops(message, end, after, table, known);
    AtSplits(message, end, start, lead, FlatInstances(instances));
    WalkCrossesGroup(message, end, start, lead, instances, table, known);
    assert InstanceSlots(instances, start + |lead|, table) + [] == InstanceSlots(instances, start + |lead|, table);
  }

  lemma FlattenedGroupIsGrouped(message: seq<Entry>, end: nat, first: nat, instances: seq<Instance>, table: GroupTable, known: set<Tag>)
    requires At(message, end, first, FlatInstances(instances)) && InstancesFit(instances, table, known)
    ensures |Extents(instances, first)| == |instances|
    ensures forall i :: 0 <= i < |InstanceSlots(instances, first, table)| ==> InstanceSlots(instances, first, table)[i] < |message|
    ensures var placed := PlaceAll(StartGrouping(Some(|instances|)), message, InstanceSlots(instances, first, table), table.delimiter);
            ClosedAt(placed, first + |FlatInstances(instances)|) == Extents(instances, first) && placed.anomalies == []
  {
    hide At, InstancesFit, PlaceAll, FlatInstances, InstanceSlots, Extents, ClosedAt;
    InstancesAreGrouped(StartGrouping(Some(|instances|)), message, end, first, instances, table, known);
    FlatExtents(instances, first);
    NothingOpen(|instances|, first, Extents(instances, first));
  }

  lemma NothingOpen(declared: nat, at: nat, others: seq<Scope>)
    ensures ClosedAt(StartGrouping(Some(declared)), at) == [] && [] + others == others
  {
  }

  lemma FlatExtents(instances: seq<Instance>, slot: nat)
    ensures instances == [] ==> Extents(instances, slot) == []
  {
  }

  /** A walk whose members make as many instances as it declares has no anomalies. */
  lemma WalkOfParts(message: seq<Entry>, end: nat, countSlot: nat, table: GroupTable, known: set<Tag>, stop: nat, instances: seq<Scope>)
    requires countSlot < end <= |message| && WalkEnd(message, end, countSlot + 1, table, known) == stop
    requires ParseCount(message[countSlot].value) == Some(|instances|)
    requires var placed := PlaceAll(StartGrouping(Some(|instances|)), message, OwnSlots(message, end, countSlot + 1, table, known), table.delimiter);
             ClosedAt(placed, stop) == instances && placed.anomalies == []
    ensures WalkOf(message, end, countSlot, table, known) == (Walk(Some(|instances|), instances, []), stop)
  {
  }

  lemma StopIsClear(message: seq<Entry>, end: nat, slot: nat, table: GroupTable, known: set<Tag>)
    requires slot <= end <= |message|
    requires slot == end || message[slot].tag == CHECKSUM || (message[slot].tag in known && message[slot].tag !in TagsWithin(table))
    ensures SkipUnknown(message, end, slot, known) == slot
    ensures Clear(message, end, slot, table, known) && Between(message, end, slot, table, known)
  {
  }
}
