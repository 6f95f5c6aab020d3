/** What every walk guarantees, and re-reading a nested group from the instance that holds it. */
module GroupLaws {
  import opened Wrappers
  import opened Tags
  import opened Messages
  import opened Groups

  /** Every tag a group's instances can hold, at any depth. */
  function TagsWithin(table: GroupTable): (r: set<Tag>)
    ensures forall t :: t in table.members ==> t in r
    ensures forall n :: n in table.nested ==> TagsWithin(n) <= r
  {
    (set t | t in table.members) + TagsWithinAll(table.nested)
  }

  function TagsWithinAll(tables: seq<GroupTable>): (r: set<Tag>)
    ensures forall n :: n in tables ==> TagsWithin(n) <= r
  {
    if tables == [] then {}
    else TagsWithin(tables[0]) + TagsWithinAll(tables[1..])
  }

  /** Nested counts are members, and no tag belongs to two levels or two nested groups. */
  predicate UniqueTags(table: GroupTable) {
    && (forall i :: 0 <= i < |table.nested| ==>
          && table.nested[i].countTag in table.members
          && UniqueTags(table.nested[i]))
    && (forall i, t :: 0 <= i < |table.nested| && t in table.members ==> t !in TagsWithin(table.nested[i]))
    && (forall i, j :: 0 <= i < j < |table.nested| ==>
          && table.nested[i].countTag != table.nested[j].countTag
          && TagsWithin(table.nested[i]) !! TagsWithin(table.nested[j]))
  }

  /** Where a walk stops, and why. */
  lemma {:induction false} WalkStops(message: seq<Entry>, end: nat, slot: nat, table: GroupTable, known: set<Tag>)
    requires slot <= end <= |message|
    ensures var r := WalkEnd(message, end, slot, table, known);
            r == end || message[r].tag == CHECKSUM || (message[r].tag !in table.members && message[r].tag in known)
    decreases end - slot
  {
    if slot < end && message[slot].tag != CHECKSUM {
      if message[slot].tag in table.members {
        WalkStops(message, end, Past(message, end, slot, table, known), table, known);
      } else if message[slot].tag !in known {
        WalkStops(message, end, slot + 1, table, known);
      }
    }
  }

  /** What a walk steps over: never CheckSum, and only the table's tags and unknown ones. */
  lemma {:induction false} WalkedTags(message: seq<Entry>, end: nat, slot: nat, table: GroupTable, known: set<Tag>)
    requires slot <= end <= |message|
    ensures forall j :: slot <= j < WalkEnd(message, end, slot, table, known) ==>
              && message[j].tag != CHECKSUM
              && (message[j].tag in TagsWithin(table) || message[j].tag !in known)
    decreases end - slot
  {
    if slot < end && message[slot].tag != CHECKSUM {
      var tag := message[slot].tag;
      if tag in table.members {
        var nested := NestedCountedBy(table.nested, tag);
        if nested.Some? {
          WalkedTags(message, end, slot + 1, nested.value, known);
        }
        WalkedTags(message, end, Past(message, end, slot, table, known), table, known);
      } else if tag !in known {
        WalkedTags(message, end, slot + 1, table, known);
      }
    }
  }

  /** With unique tags, every slot holding one of the table's own tags is one of its own slots. */
  lemma {:induction false} OwnTagsAreOwnSlots(message: seq<Entry>, end: nat, slot: nat, table: GroupTable, known: set<Tag>, j: nat)
    requires slot <= end <= |message| && UniqueTags(table) && TagsWithin(table) <= known
    requires slot <= j < WalkEnd(message, end, slot, table, known) && message[j].tag in table.members
    ensures j in OwnSlots(message, end, slot, table, known)
    decreases end - slot
  {
    if message[slot].tag in table.members {
      var next := Past(message, end, slot, table, known);
      if next <= j {
        OwnTagsAreOwnSlots(message, end, next, table, known, j);
      } else if slot < j {
        var nested := NestedCountedBy(table.nested, message[slot].tag);
        WalkedTags(message, end, slot + 1, nested.value, known);
      }
    } else {
      OwnTagsAreOwnSlots(message, end, slot + 1, table, known, j);
    }
  }

  /** The walk resumes past each own slot before it meets the next one or stops. */
  lemma {:induction false} OwnSlotsAreResumed(message: seq<Entry>, end: nat, slot: nat, table: GroupTable, known: set<Tag>, s: nat)
    requires slot <= end <= |message| && s in OwnSlots(message, end, slot, table, known)
    ensures Past(message, end, s, table, known) <= WalkEnd(message, end, slot, table, known)
    ensures forall later :: later in OwnSlots(message, end, slot, table, known) && s < later ==> Past(message, end, s, table, known) <= later
    decreases end - slot
  {
    if message[slot].tag in table.members {
      var next := Past(message, end, slot, table, known);
      if s != slot {
        OwnSlotsAreResumed(message, end, next, table, known, s);
      }
    } else {
      OwnSlotsAreResumed(message, end, slot + 1, table, known, s);
    }
  }

  /**
   * A walk over part of the scope, knowing fewer tags, takes the same steps: what it must
   * know is the table's tags and whatever stopped the wider walk inside the part.
   */
  lemma {:induction false} NarrowWalkAgrees(
    message: seq<Entry>, end: nat, narrow: nat, slot: nat, table: GroupTable, known: set<Tag>, fewer: set<Tag>)
    requires slot <= narrow <= end <= |message|
    requires TagsWithin(table) <= fewer <= known
    requires var r := WalkEnd(message, end, slot, table, known);
             r == narrow || (r < narrow && (message[r].tag in fewer || message[r].tag == CHECKSUM))
    ensures WalkEnd(message, narrow, slot, table, fewer) == WalkEnd(message, end, slot, table, known)
    ensures OwnSlots(message, narrow, slot, table, fewer) == OwnSlots(message, end, slot, table, known)
    decreases end - slot
  {
    if slot < narrow && message[slot].tag != CHECKSUM {
      var tag := message[slot].tag;
      if tag in table.members {
        var next := Past(message, end, slot, table, known);
        var nested := NestedCountedBy(table.nested, tag);
        if nested.Some? {
          WalkStops(message, end, slot + 1, nested.value, known);
          NarrowWalkAgrees(message, end, narrow, slot + 1, nested.value, known, fewer);
        }
        NarrowWalkAgrees(message, end, narrow, next, table, known, fewer);
      } else if tag !in known {
        NarrowWalkAgrees(message, end, narrow, slot + 1, table, known, fewer);
      }
    }
  }

  /**
   * The instances found for a group whose own slots are `slots`: contiguous, from the first
   * own slot to `stop`, each starting at an own slot, no own tag twice in one, and each after
   * the first starting at a tag the one before holds.
   */
  ghost predicate Separated(message: seq<Entry>, slots: seq<nat>, instances: seq<Scope>, stop: nat) {
    && Contiguous(slots, instances, stop)
    && (forall a :: a in slots ==> a < |message| && a < stop)
    && (forall i :: 0 <= i < |instances| ==> HoldsNoTagTwice(message, slots, instances[i]))
    && (forall i :: 0 < i < |instances| ==> Repeats(message, slots, instances[i - 1].start, instances[i].start))
  }

  ghost predicate Contiguous(slots: seq<nat>, instances: seq<Scope>, stop: nat) {
    && (instances == [] <==> slots == [])
    && (forall i :: 0 <= i < |instances| ==> instances[i].start in slots && instances[i].start < instances[i].end)
    && (forall i :: 0 < i < |instances| ==> instances[i - 1].end == instances[i].start)
    && (instances != [] ==> instances[0].start == slots[0] && instances[|instances| - 1].end == stop)
  }

  ghost predicate HoldsNoTagTwice(message: seq<Entry>, slots: seq<nat>, instance: Scope) {
    forall a, b :: a in slots && b in slots && instance.start <= a < b < instance.end && b < |message| ==>
      message[a].tag != message[b].tag
  }

  /** The tag at `slot` already stands at an own slot from `start` on. */
  ghost predicate Repeats(message: seq<Entry>, slots: seq<nat>, start: nat, slot: nat) {
    exists a :: a in slots && start <= a < slot < |message| && message[a].tag == message[slot].tag
  }

  /** `seen` holds the tags of the own slots from `start` on. */
  ghost predicate SeenFrom(message: seq<Entry>, seen: seq<Tag>, slots: seq<nat>, start: nat) {
    && (forall a :: a in slots && start <= a < |message| ==> message[a].tag in seen)
    && (forall t :: t in seen ==> exists a :: a in slots && start <= a < |message| && message[a].tag == t)
  }

  /** `g` is the grouping of the own slots placed so far, all before `stop`. */
  ghost predicate Grouped(message: seq<Entry>, g: Grouping, placed: seq<nat>, stop: nat) {
    match g.instanceStart
    case None => placed == [] && g.instances == [] && g.seen == []
    case Some(start) =>
      && Separated(message, placed, g.instances + [Scope(start, stop)], stop)
      && SeenFrom(message, g.seen, placed, start)
  }

  /** A later stop, with no own slot in between, only stretches the open instance. */
  lemma StretchLast(message: seq<Entry>, slots: seq<nat>, closed: seq<Scope>, start: nat, stop: nat, later: nat)
    requires Separated(message, slots, closed + [Scope(start, stop)], stop) && stop <= later
    ensures Separated(message, slots, closed + [Scope(start, later)], later)
  {
    var before, after := closed + [Scope(start, stop)], closed + [Scope(start, later)];
    forall i | 0 <= i < |after| ensures after[i].start in slots && after[i].start < after[i].end && HoldsNoTagTwice(message, slots, after[i]) {
      assert after[i].start == before[i].start && HoldsNoTagTwice(message, slots, before[i]);
    }
    forall i | 0 < i < |after|
      ensures after[i - 1].end == after[i].start && Repeats(message, slots, after[i - 1].start, after[i].start)
    {
      assert after[i - 1] == before[i - 1] && before[i - 1].end == before[i].start;
      assert Repeats(message, slots, before[i - 1].start, before[i].start);
    }
  }

  /** An own slot whose tag is new to the open instance joins it. */
  lemma JoinLast(message: seq<Entry>, slots: seq<nat>, closed: seq<Scope>, start: nat, slot: nat)
    requires Separated(message, slots, closed + [Scope(start, slot)], slot) && slot < |message|
    requires forall a :: a in slots && start <= a ==> message[a].tag != message[slot].tag
    ensures Separated(message, slots + [slot], closed + [Scope(start, slot + 1)], slot + 1)
  {
    var before, after, slots' := closed + [Scope(start, slot)], closed + [Scope(start, slot + 1)], slots + [slot];
    assert slot !in slots;
    assert start == before[|closed|].start && start in slots;
    EndsInOrder(slots, before, slot);
    forall i | 0 <= i < |after| ensures after[i].start in slots' && after[i].start < after[i].end && HoldsNoTagTwice(message, slots', after[i]) {
      assert after[i].start == before[i].start && HoldsNoTagTwice(message, slots, before[i]);
    }
    forall i | 0 < i < |after|
      ensures after[i - 1].end == after[i].start && Repeats(message, slots', after[i - 1].start, after[i].start)
    {
      assert after[i - 1] == before[i - 1] && before[i - 1].end == before[i].start;
      assert Repeats(message, slots, before[i - 1].start, before[i].start);
    }
  }

  lemma {:induction false} EndsInOrder(slots: seq<nat>, instances: seq<Scope>, stop: nat)
    requires Contiguous(slots, instances, stop)
    ensures forall i :: 0 <= i < |instances| ==> instances[i].end <= stop
  {
    var i := |instances|;
    while i > 0
      invariant 0 <= i <= |instances|
      invariant forall j :: i <= j < |instances| ==> instances[j].end <= stop
    {
      i := i - 1;
      assert i + 1 < |instances| ==> instances[i].end == instances[i + 1].start < instances[i + 1].end;
    }
  }

  lemma HoldsStill(message: seq<Entry>, slots: seq<nat>, slot: nat, instance: Scope)
    requires HoldsNoTagTwice(message, slots, instance) && instance.end <= slot
    ensures HoldsNoTagTwice(message, slots + [slot], instance)
  {
  }

  lemma RepeatsStill(message: seq<Entry>, slots: seq<nat>, slot: nat, start: nat, at: nat)
    requires Repeats(message, slots, start, at)
    ensures Repeats(message, slots + [slot], start, at)
  {
    var a :| a in slots && start <= a < at && message[a].tag == message[at].tag;
    assert a in slots + [slot];
  }

  /** An own slot whose tag the open instance holds closes it and opens the next. */
  lemma OpenNext(message: seq<Entry>, slots: seq<nat>, closed: seq<Scope>, start: nat, slot: nat)
    requires Separated(message, slots, closed + [Scope(start, slot)], slot) && slot < |message|
    requires Repeats(message, slots, start, slot)
    ensures Separated(message, slots + [slot], closed + [Scope(start, slot), Scope(slot, slot + 1)], slot + 1)
  {
    hide HoldsNoTagTwice, Repeats;
    var before, slots' := closed + [Scope(start, slot)], slots + [slot];
    var after := closed + [Scope(start, slot), Scope(slot, slot + 1)];
    assert after == before + [Scope(slot, slot + 1)];
    EndsInOrder(slots, before, slot);
    forall i | 0 <= i < |after| ensures HoldsNoTagTwice(message, slots', after[i]) {
      if i < |before| { HoldsStill(message, slots, slot, before[i]); } else { OneSlotHoldsOnce(message, slots', slot); }
    }
    forall i | 0 < i < |after| ensures Repeats(message, slots', after[i - 1].start, after[i].start) {
      RepeatsStill(message, slots, slot, after[i - 1].start, after[i].start);
    }
  }

  lemma OneSlotHoldsOnce(message: seq<Entry>, slots: seq<nat>, slot: nat)
    ensures HoldsNoTagTwice(message, slots, Scope(slot, slot + 1))
  {
  }

  lemma PlaceKeepsGrouped(message: seq<Entry>, g: Grouping, placed: seq<nat>, slot: nat, delimiter: Tag, stop: nat)
    requires Grouped(message, g, placed, stop) && stop <= slot < |message|
    ensures Grouped(message, Place(g, message, slot, delimiter), placed + [slot], slot + 1)
  {
    hide Separated, SeenFrom;
    if g.instanceStart.None? {
      FirstSlot(message, slot);
    } else {
      var start := g.instanceStart.value;
      LastIsOpen(message, placed, g.instances, start, stop);
      StretchLast(message, placed, g.instances, start, stop, slot);
      SeenTells(message, g.seen, placed, start, slot);
      if message[slot].tag in g.seen {
        OpenNext(message, placed, g.instances, start, slot);
        SeenAnew(message, g.instances, placed, start, slot);
      } else {
        JoinLast(message, placed, g.instances, start, slot);
        SeenOneMore(message, g.seen, placed, start, slot);
      }
    }
  }

  lemma LastIsOpen(message: seq<Entry>, slots: seq<nat>, closed: seq<Scope>, start: nat, stop: nat)
    requires Separated(message, slots, closed + [Scope(start, stop)], stop)
    ensures start < stop && forall a :: a in slots ==> a < stop
  {
    assert (closed + [Scope(start, stop)])[|closed|] == Scope(start, stop);
  }

  lemma FirstSlot(message: seq<Entry>, slot: nat)
    requires slot < |message|
    ensures Separated(message, [] + [slot], [] + [Scope(slot, slot + 1)], slot + 1)
    ensures SeenFrom(message, [message[slot].tag], [] + [slot], slot)
  {
  }

  /** What the open instance has seen tells whether a tag repeats in it. */
  lemma SeenTells(message: seq<Entry>, seen: seq<Tag>, placed: seq<nat>, start: nat, slot: nat)
    requires SeenFrom(message, seen, placed, start) && slot < |message| && forall a :: a in placed ==> a < slot
    ensures message[slot].tag in seen ==> Repeats(message, placed, start, slot)
    ensures message[slot].tag !in seen ==> forall a :: a in placed && start <= a ==> message[a].tag != message[slot].tag
  {
  }

  lemma SeenAnew(message: seq<Entry>, closed: seq<Scope>, placed: seq<nat>, start: nat, slot: nat)
    requires slot < |message| && forall a :: a in placed ==> a < slot
    ensures SeenFrom(message, [message[slot].tag], placed + [slot], slot)
    ensures closed + [Scope(start, slot)] + [Scope(slot, slot + 1)] == closed + [Scope(start, slot), Scope(slot, slot + 1)]
  {
  }

  lemma SeenOneMore(message: seq<Entry>, seen: seq<Tag>, placed: seq<nat>, start: nat, slot: nat)
    requires SeenFrom(message, seen, placed, start) && start <= slot < |message|
    ensures SeenFrom(message, seen + [message[slot].tag], placed + [slot], start)
  {
    var seen', placed' := seen + [message[slot].tag], placed + [slot];
    forall t | t in seen' ensures exists a :: a in placed' && start <= a < |message| && message[a].tag == t {
      if t in seen {
        var a :| a in placed && start <= a < |message| && message[a].tag == t;
        assert a in placed';
      } else {
        assert slot in placed';
      }
    }
  }

  lemma StretchGrouped(message: seq<Entry>, g: Grouping, placed: seq<nat>, stop: nat, later: nat)
    requires Grouped(message, g, placed, stop) && stop <= later
    ensures Grouped(message, g, placed, later)
  {
    if g.instanceStart.Some? {
      StretchLast(message, placed, g.instances, g.instanceStart.value, stop, later);
    }
  }

  lemma {:induction false} PlaceAllKeepsGrouped(message: seq<Entry>, g: Grouping, placed: seq<nat>, slots: seq<nat>, delimiter: Tag, stop: nat, end: nat)
    requires Grouped(message, g, placed, stop) && stop <= end
    requires forall i :: 0 <= i < |slots| ==> stop <= slots[i] < end <= |message|
    requires forall i, j :: 0 <= i < j < |slots| ==> slots[i] < slots[j]
    ensures Grouped(message, PlaceAll(g, message, slots, delimiter), placed + slots, end)
    decreases |slots|
  {
    hide Grouped, Place;
    if slots == [] {
      assert placed + slots == placed;
      StretchGrouped(message, g, placed, stop, end);
    } else {
      assert forall i :: 0 <= i < |slots[1..]| ==> slots[1..][i] == slots[i + 1];
      PlaceKeepsGrouped(message, g, placed, slots[0], delimiter, stop);
      PlaceAllKeepsGrouped(message, Place(g, message, slots[0], delimiter), placed + [slots[0]], slots[1..], delimiter, slots[0] + 1, end);
      assert placed + [slots[0]] + slots[1..] == placed + slots;
    }
  }

  /** What every walk finds: its own slots told apart into instances, up to where it stops. */
  lemma WalkSeparatesInstances(message: seq<Entry>, end: nat, countSlot: nat, table: GroupTable, known: set<Tag>)
    requires countSlot < end <= |message|
    ensures var (walk, stop) := WalkOf(message, end, countSlot, table, known);
            && countSlot < stop <= end
            && Separated(message, OwnSlots(message, end, countSlot + 1, table, known), walk.instances, stop)
            && (stop == end || message[stop].tag == CHECKSUM || (message[stop].tag !in table.members && message[stop].tag in known))
            && forall j :: countSlot < j < stop ==> message[j].tag != CHECKSUM
  {
    hide WalkEnd, OwnSlots, PlaceAll, Grouped, Separated, TagsWithin, Conclude, ParseCount;
    var declaredCount := ParseCount(message[countSlot].value);
    var stop := WalkEnd(message, end, countSlot + 1, table, known);
    var slots := OwnSlots(message, end, countSlot + 1, table, known);
    StartIsGrouped(message, declaredCount, countSlot + 1);
    PlaceAllKeepsGrouped(message, StartGrouping(declaredCount), [], slots, table.delimiter, countSlot + 1, stop);
    assert [] + slots == slots;
    ConcludeSeparates(message, PlaceAll(StartGrouping(declaredCount), message, slots, table.delimiter), slots, declaredCount, stop);
    WalkStops(message, end, countSlot + 1, table, known);
    WalkedTags(message, end, countSlot + 1, table, known);
  }

  lemma StartIsGrouped(message: seq<Entry>, declaredCount: Option<nat>, stop: nat)
    ensures Grouped(message, StartGrouping(declaredCount), [], stop)
  {
  }

  lemma ConcludeSeparates(message: seq<Entry>, g: Grouping, slots: seq<nat>, declaredCount: Option<nat>, stop: nat)
    requires Grouped(message, g, slots, stop)
    ensures Separated(message, slots, Conclude(g, declaredCount, stop).instances, stop)
  {
    hide HoldsNoTagTwice, Repeats, SeenFrom;
  }

  function StartsOf(instances: seq<Scope>): (r: seq<nat>)
    ensures |r| == |instances|
  {
    seq(|instances|, i requires 0 <= i < |instances| => instances[i].start)
  }

  /** The anomalies of instances that start with another tag than the delimiter, in order. */
  function MissingDelimiters(message: seq<Entry>, starts: seq<nat>, delimiter: Tag): (r: seq<Anomaly>)
    requires forall i :: 0 <= i < |starts| ==> starts[i] < |message|
    ensures r == [] <==> forall i :: 0 <= i < |starts| ==> message[starts[i]].tag == delimiter
  {
    if starts == [] then []
    else
      var last := message[starts[|starts| - 1]].tag;
      MissingDelimiters(message, starts[..|starts| - 1], delimiter) + if last != delimiter then [MissingDelimiter(last)] else []
  }

  /** Where a grouping's instances start, the open one included. */
  function GroupingStarts(g: Grouping): (r: seq<nat>) {
    StartsOf(g.instances) + if g.instanceStart.Some? then [g.instanceStart.value] else []
  }

  /** The anomalies a grouping has, given those it began with. */
  ghost predicate Reported(message: seq<Entry>, g: Grouping, first: seq<Anomaly>, delimiter: Tag) {
    && (forall i :: 0 <= i < |GroupingStarts(g)| ==> GroupingStarts(g)[i] < |message|)
    && g.anomalies == first + MissingDelimiters(message, GroupingStarts(g), delimiter)
  }

  lemma {:induction false} PlaceAllReports(message: seq<Entry>, g: Grouping, slots: seq<nat>, first: seq<Anomaly>, delimiter: Tag)
    requires Reported(message, g, first, delimiter)
    requires g.instanceStart.None? ==> g.instances == []
    requires forall i :: 0 <= i < |slots| ==> slots[i] < |message|
    ensures Reported(message, PlaceAll(g, message, slots, delimiter), first, delimiter)
    decreases |slots|
  {
    if slots != [] {
      PlaceReports(message, g, slots[0], first, delimiter);
      hide Reported;
      PlaceAllReports(message, Place(g, message, slots[0], delimiter), slots[1..], first, delimiter);
    }
  }

  lemma PlaceReports(message: seq<Entry>, g: Grouping, slot: nat, first: seq<Anomaly>, delimiter: Tag)
    requires Reported(message, g, first, delimiter)
    requires g.instanceStart.None? ==> g.instances == []
    requires slot < |message|
    ensures Reported(message, Place(g, message, slot, delimiter), first, delimiter)
  {
    hide MissingDelimiters, GroupingStarts;
    var next, starts := Place(g, message, slot, delimiter), GroupingStarts(g);
    if g.instanceStart.None? || message[slot].tag in g.seen {
      StartsOneMore(g, message, slot, delimiter);
      MissingOneMore(message, starts, slot, delimiter);
    } else {
      StartsNoMore(g, message, slot, delimiter);
    }
  }

  lemma StartsOneMore(g: Grouping, message: seq<Entry>, slot: nat, delimiter: Tag)
    requires slot < |message| && (g.instanceStart.None? || message[slot].tag in g.seen)
    requires g.instanceStart.None? ==> g.instances == []
    ensures GroupingStarts(Place(g, message, slot, delimiter)) == GroupingStarts(g) + [slot]
  {
  }

  lemma StartsNoMore(g: Grouping, message: seq<Entry>, slot: nat, delimiter: Tag)
    requires slot < |message| && g.instanceStart.Some? && message[slot].tag !in g.seen
    ensures GroupingStarts(Place(g, message, slot, delimiter)) == GroupingStarts(g)
  {
  }

  lemma MissingOneMore(message: seq<Entry>, starts: seq<nat>, slot: nat, delimiter: Tag)
    requires slot < |message| && forall i :: 0 <= i < |starts| ==> starts[i] < |message|
    ensures MissingDelimiters(message, starts + [slot], delimiter) ==
            MissingDelimiters(message, starts, delimiter) + if message[slot].tag != delimiter then [MissingDelimiter(message[slot].tag)] else []
  {
    assert (starts + [slot])[..|starts|] == starts;
  }

  lemma FinishReports(message: seq<Entry>, start: Grouping, end: nat, slot: nat, table: GroupTable, known: set<Tag>)
    requires slot <= end <= |message| && start.instanceStart == None && start.instances == []
    ensures Reported(message, Finish(start, message, end, slot, table, known), start.anomalies, table.delimiter)
  {
    assert GroupingStarts(start) == [];
    PlaceAllReports(message, start, OwnSlots(message, end, slot, table, known), start.anomalies, table.delimiter);
  }

  /** Concluding a grouping keeps its starts and adds what is wrong with the count. */
  lemma ConcludeReports(message: seq<Entry>, g: Grouping, declared: Option<nat>, stop: nat, first: seq<Anomaly>, delimiter: Tag)
    requires Reported(message, g, first, delimiter)
    ensures var walk := Conclude(g, declared, stop);
            var found := |walk.instances|;
            && walk.declaredCount == declared
            && (forall i :: 0 <= i < found ==> StartsOf(walk.instances)[i] < |message|)
            && walk.anomalies ==
                 first + MissingDelimiters(message, StartsOf(walk.instances), delimiter)
                 + (if declared.Some? && declared.value != found then [CountMismatch(declared.value, found)] else [])
  {
    hide MissingDelimiters;
    assert StartsOf(Conclude(g, declared, stop).instances) == GroupingStarts(g);
  }

  lemma WalkOfConcludes(message: seq<Entry>, end: nat, countSlot: nat, table: GroupTable, known: set<Tag>)
    requires countSlot < end <= |message|
    ensures var declared := ParseCount(message[countSlot].value);
            var stop := WalkEnd(message, end, countSlot + 1, table, known);
            WalkOf(message, end, countSlot, table, known)
            == (Conclude(Finish(StartGrouping(declared), message, end, countSlot + 1, table, known), declared, stop), stop)
  {
  }

  lemma StartingAnomalies(declared: Option<nat>)
    ensures var start := StartGrouping(declared);
            start.instanceStart == None && start.instances == [] && start.anomalies == if declared.None? then [InvalidCount] else []
  {
  }

  /** The anomalies of a walk, all of them and in order. */
  lemma WalkReports(message: seq<Entry>, end: nat, countSlot: nat, table: GroupTable, known: set<Tag>)
    requires countSlot < end <= |message|
    ensures var walk := WalkOf(message, end, countSlot, table, known).0;
            var declared := ParseCount(message[countSlot].value);
            var found := |walk.instances|;
            && walk.declaredCount == declared
            && (forall n: nat :: declared == Some(n) <==> IsCount(message[countSlot].value, n))
            && (forall i :: 0 <= i < found ==> StartsOf(walk.instances)[i] < |message|)
            && walk.anomalies ==
                 (if declared.None? then [InvalidCount] else [])
                 + MissingDelimiters(message, StartsOf(walk.instances), table.delimiter)
                 + (if declared.Some? && declared.value != found then [CountMismatch(declared.value, found)] else [])
  {
    hide WalkOf, Conclude, Finish, StartGrouping, WalkEnd, ParseCount, IsCount, MissingDelimiters, Reported;
    var declared := ParseCount(message[countSlot].value);
    forall n: nat ensures declared == Some(n) <==> IsCount(message[countSlot].value, n) { CountIs(message[countSlot].value, n); }
    var start, stop := StartGrouping(declared), WalkEnd(message, end, countSlot + 1, table, known);
    StartingAnomalies(declared);
    FinishReports(message, start, end, countSlot + 1, table, known);
    ConcludeReports(message, Finish(start, message, end, countSlot + 1, table, known), declared, stop, start.anomalies, table.delimiter);
    WalkOfConcludes(message, end, countSlot, table, known);
  }

  /**
   * A group is accepted exactly when its count is a number, that many instances are found
   * and each starts with the delimiter; an absent one is no group and any other an error.
   */
  lemma GroupAcceptedExactlyWhenWellFormed(message: seq<Entry>, scope: Scope, table: GroupTable, known: set<Tag>)
    requires scope.end <= |message|
    ensures var found := Find(message, scope, table.countTag, scope.start);
            var group := GetGroup(message, scope, table, known);
            match found
            case None => group == Ok(None)
            case Some(countSlot) =>
              var instances := WalkOf(message, scope.end, countSlot, table, known).0.instances;
              && (forall i :: 0 <= i < |instances| ==> instances[i].start < |message|)
              && if IsCount(message[countSlot].value, |instances|)
                    && forall i :: 0 <= i < |instances| ==> message[instances[i].start].tag == table.delimiter
                 then group == Ok(Some(instances))
                 else group == Err(InvalidValue(table.countTag))
  {
    hide WalkOf, ParseCount, IsCount, MissingDelimiters, Find;
    var found := Find(message, scope, table.countTag, scope.start);
    if found.Some? {
      CountIs(message[found.value].value, |WalkOf(message, scope.end, found.value, table, known).0.instances|);
      WalkReports(message, scope.end, found.value, table, known);
      var instances := WalkOf(message, scope.end, found.value, table, known).0.instances;
      StartsAreInstances(instances);
    }
  }

  lemma StartsAreInstances(instances: seq<Scope>)
    ensures forall i :: 0 <= i < |instances| ==> StartsOf(instances)[i] == instances[i].start
  {
  }

  /**
   * Re-reading a nested group from the instance that holds it, knowing only the tags the
   * outer group can hold, finds what the outer walk stepped over: the same instances, the
   * same anomalies and the same end. It finds no group exactly when the outer walk met no
   * count field for it in that instance.
   */
  lemma NestedReadAgrees(message: seq<Entry>, end: nat, countSlot: nat, table: GroupTable, known: set<Tag>, i: nat, k: nat)
    requires countSlot < end <= |message|
    requires UniqueTags(table) && TagsWithin(table) <= known
    requires i < |WalkOf(message, end, countSlot, table, known).0.instances| && k < |table.nested|
    ensures var instance := WalkOf(message, end, countSlot, table, known).0.instances[i];
            var own := OwnSlots(message, end, countSlot + 1, table, known);
            var nested := table.nested[k];
            && instance.end <= end
            && match Find(message, instance, nested.countTag, instance.start)
               case None =>
                 && WalkGroup(message, instance, nested, TagsWithin(table)) == None
                 && forall s :: s in own && instance.start <= s < instance.end ==> message[s].tag != nested.countTag
               case Some(s) =>
                 && s in own && instance.start <= s < instance.end
                 && WalkOf(message, instance.end, s, nested, TagsWithin(table)) == WalkOf(message, end, s, nested, known)
                 && WalkOf(message, end, s, nested, known).1 == Past(message, end, s, table, known)
                 && WalkGroup(message, instance, nested, TagsWithin(table)) == Some(WalkOf(message, end, s, nested, known).0)
  {
    hide WalkOf, WalkEnd, OwnSlots, TagsWithin, UniqueTags, Repeats, HoldsNoTagTwice;
    WalkOfStops(message, end, countSlot, table, known);
    var (walk, stop) := WalkOf(message, end, countSlot, table, known);
    var own := OwnSlots(message, end, countSlot + 1, table, known);
    var instance, nested := walk.instances[i], table.nested[k];
    WalkSeparatesInstances(message, end, countSlot, table, known);
    EndsInOrder(own, walk.instances, stop);
    var found := Find(message, instance, nested.countTag, instance.start);
    assert instance.start in own;
    if found.Some? {
      assert instance.end == stop || instance.end in own by {
        if i + 1 < |walk.instances| { assert walk.instances[i].end == walk.instances[i + 1].start; }
      }
      NestedWalkAgrees(message, end, countSlot, table, known, instance.end, found.value, k);
    }
  }

  lemma WalkOfStops(message: seq<Entry>, end: nat, countSlot: nat, table: GroupTable, known: set<Tag>)
    requires countSlot < end <= |message|
    ensures WalkOf(message, end, countSlot, table, known).1 == WalkEnd(message, end, countSlot + 1, table, known)
  {
    hide WalkEnd;
  }

  /** The nested walk from the count field at `s`, inside an instance that ends at `instanceEnd`. */
  lemma NestedWalkAgrees(message: seq<Entry>, end: nat, countSlot: nat, table: GroupTable, known: set<Tag>, instanceEnd: nat, s: nat, k: nat)
    requires countSlot < end <= |message|
    requires UniqueTags(table) && TagsWithin(table) <= known
    requires k < |table.nested| && countSlot < s < instanceEnd <= WalkEnd(message, end, countSlot + 1, table, known)
    requires message[s].tag == table.nested[k].countTag
    requires instanceEnd == WalkEnd(message, end, countSlot + 1, table, known)
          || instanceEnd in OwnSlots(message, end, countSlot + 1, table, known)
    ensures s in OwnSlots(message, end, countSlot + 1, table, known)
    ensures WalkOf(message, instanceEnd, s, table.nested[k], TagsWithin(table)) == WalkOf(message, end, s, table.nested[k], known)
    ensures WalkOf(message, end, s, table.nested[k], known).1 == Past(message, end, s, table, known)
  {
    hide WalkEnd, OwnSlots, Past, WalkOf, UniqueTags, TagsWithin, NestedCountedBy;
    var nested := table.nested[k];
    CountedByThatNested(table, k);
    OwnTagsAreOwnSlots(message, end, countSlot + 1, table, known, s);
    OwnSlotsAreResumed(message, end, countSlot + 1, table, known, s);
    NestedIsPassed(message, end, s, table, nested, known);
    WalkStops(message, end, s + 1, nested, known);
    WalkedTags(message, end, countSlot + 1, table, known);
    NarrowWalkAgrees(message, end, instanceEnd, s + 1, nested, known, TagsWithin(table));
    SameWalk(message, end, instanceEnd, s, nested, known, TagsWithin(table));
  }

  lemma NestedIsPassed(message: seq<Entry>, end: nat, s: nat, table: GroupTable, nested: GroupTable, known: set<Tag>)
    requires s < end <= |message| && NestedCountedBy(table.nested, message[s].tag) == Some(nested)
    ensures Past(message, end, s, table, known) == WalkEnd(message, end, s + 1, nested, known)
    ensures WalkOf(message, end, s, nested, known).1 == WalkEnd(message, end, s + 1, nested, known)
  {
  }

  /** Walks with the same end and the same own slots find the same. */
  lemma SameWalk(message: seq<Entry>, end: nat, narrow: nat, countSlot: nat, table: GroupTable, known: set<Tag>, fewer: set<Tag>)
    requires countSlot < narrow <= end <= |message|
    requires WalkEnd(message, narrow, countSlot + 1, table, fewer) == WalkEnd(message, end, countSlot + 1, table, known)
    requires OwnSlots(message, narrow, countSlot + 1, table, fewer) == OwnSlots(message, end, countSlot + 1, table, known)
    ensures WalkOf(message, narrow, countSlot, table, fewer) == WalkOf(message, end, countSlot, table, known)
  {
    hide WalkEnd, OwnSlots, PlaceAll, Conclude;
  }

  lemma CountedByThatNested(table: GroupTable, k: nat)
    requires UniqueTags(table) && k < |table.nested|
    ensures NestedCountedBy(table.nested, table.nested[k].countTag) == Some(table.nested[k])
    ensures table.nested[k] in table.nested && table.nested[k].countTag in table.members
  {
    FirstCounted(table.nested, k);
  }
}
