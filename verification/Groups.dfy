/** Repeating groups: the tables that describe them, and the walker that follows a table. */
module Groups {
  import opened Wrappers
  import opened Bytes
  import opened Tags
  import opened Messages

  /** The structure of a repeating group. */
  datatype GroupTable = GroupTable(countTag: Tag, delimiter: Tag, members: seq<Tag>, nested: seq<GroupTable>)

  datatype GroupTableError =
    | UnsortedMembers
    | DelimiterNotMember(delimiter: Tag)
    | NestedCountNotMember(countTag: Tag)

  /** The rules a table keeps about its own level. */
  predicate TableRules(table: GroupTable) {
    && IsSortedSet(table.members)
    && table.delimiter in table.members
    && forall i :: 0 <= i < |table.nested| ==> table.nested[i].countTag in table.members
  }

  /** Whether `tags` is strictly increasing. */
  method CheckSortedSet(tags: seq<Tag>) returns (sorted: bool)
    ensures sorted <==> IsSortedSet(tags)
  {
    var index := 1;
    while index < |tags|
      invariant 1 <= index
      invariant index <= |tags| || |tags| == 0
      invariant |tags| > 0 ==> IsSortedSet(tags[..index])
      invariant |tags| > 0 ==> forall i :: 0 <= i < index ==> tags[i] <= tags[index - 1]
    {
      if tags[index - 1] >= tags[index] {
        return false;
      }
      index := index + 1;
    }
    assert |tags| > 0 ==> tags[..index] == tags;
    return true;
  }

  /** Whether `tags` contains `tag`. */
  method CheckContains(tags: seq<Tag>, tag: Tag) returns (found: bool)
    ensures found <==> tag in tags
  {
    var index := 0;
    while index < |tags|
      invariant index <= |tags| && tag !in tags[..index]
    {
      if tags[index] == tag {
        return true;
      }
      index := index + 1;
    }
    return false;
  }

  /** A table built from its parts, or the first rule it breaks. */
  method NewGroupTable(countTag: Tag, delimiter: Tag, members: seq<Tag>, nested: seq<GroupTable>)
    returns (r: Result<GroupTable, GroupTableError>)
    ensures r.Ok? <==> TableRules(GroupTable(countTag, delimiter, members, nested))
    ensures r.Ok? ==> r.value == GroupTable(countTag, delimiter, members, nested)
    ensures r == Err(UnsortedMembers) <==> !IsSortedSet(members)
    ensures r == Err(DelimiterNotMember(delimiter)) <==> IsSortedSet(members) && delimiter !in members
    ensures r.Err? && r.error.NestedCountNotMember? ==>
              exists i :: 0 <= i < |nested| && nested[i].countTag == r.error.countTag && r.error.countTag !in members
                       && forall j :: 0 <= j < i ==> nested[j].countTag in members
  {
    var sorted := CheckSortedSet(members);
    if !sorted { return Err(UnsortedMembers); }
    var hasDelimiter := CheckContains(members, delimiter);
    if !hasDelimiter { return Err(DelimiterNotMember(delimiter)); }
    var index := 0;
    while index < |nested|
      invariant index <= |nested|
      invariant forall i :: 0 <= i < index ==> nested[i].countTag in members
    {
      var hasCount := CheckContains(members, nested[index].countTag);
      if !hasCount { return Err(NestedCountNotMember(nested[index].countTag)); }
      index := index + 1;
    }
    return Ok(GroupTable(countTag, delimiter, members, nested));
  }

  /** The first nested table counted by `tag`. */
  function NestedCountedBy(nested: seq<GroupTable>, tag: Tag): (r: Option<GroupTable>)
    ensures r.Some? ==> r.value.countTag == tag && exists i :: 0 <= i < |nested| && nested[i] == r.value && forall j :: 0 <= j < i ==> nested[j].countTag != tag
    ensures r.None? <==> forall i :: 0 <= i < |nested| ==> nested[i].countTag != tag
  {
    if nested == [] then None
    else if nested[0].countTag == tag then Some(nested[0])
    else NestedCountedBy(nested[1..], tag)
  }

  /** It is the first that the tag counts. */
  lemma {:induction false} FirstCounted(nested: seq<GroupTable>, i: nat)
    requires i < |nested| && forall j :: 0 <= j < i ==> nested[j].countTag != nested[i].countTag
    ensures NestedCountedBy(nested, nested[i].countTag) == Some(nested[i])
    decreases i
  {
    if i > 0 { FirstCounted(nested[1..], i - 1); }
  }

  /** A way a group on the wire departs from its table. */
  datatype Anomaly =
    | InvalidCount
    | MissingDelimiter(tag: Tag)
    | CountMismatch(declared: nat, found: nat)

  /** What the walker found for one group, without judging it. */
  datatype Walk = Walk(declaredCount: Option<nat>, instances: seq<Scope>, anomalies: seq<Anomaly>)

  /** Parses a NumInGroup value as `usize::from_str` does: digits, after at most one plus sign. */
  function ParseCount(value: bytes): (r: Option<nat>) {
    var digits := if |value| > 1 && value[0] == PLUS then value[1..] else value;
    if digits == [] || !AllDigits(digits) then None else CheckedFold(digits, USIZE_MAX)
  }

  /** `value` writes the count `n`: digits, or a plus sign and digits. */
  ghost predicate IsCount(value: bytes, n: nat) {
    n <= USIZE_MAX && exists digits :: Writes(digits, n) && (value == digits || value == [PLUS] + digits)
  }

  /** A count is read exactly from the texts that write it. */
  lemma CountIs(value: bytes, n: nat)
    ensures ParseCount(value) == Some(n) <==> IsCount(value, n)
  {
    hide DigitsValue, CheckedFold;
    if ParseCount(value) == Some(n) {
      var digits := if |value| > 1 && value[0] == PLUS then value[1..] else value;
      CheckedFoldIsValue(digits, USIZE_MAX);
      assert Writes(digits, n) && (value == digits || value == [PLUS] + digits);
    }
    forall digits | Writes(digits, n) && n <= USIZE_MAX && (value == digits || value == [PLUS] + digits) ensures ParseCount(value) == Some(n) {
      CheckedFoldIsValue(digits, USIZE_MAX);
      assert IsDigit(digits[0]) && !IsDigit(PLUS);
      if value != digits { assert value[1..] == digits; }
    }
  }

  lemma DecimalIsCount(n: nat)
    requires n <= USIZE_MAX
    ensures IsCount(Decimal(n), n) && ParseCount(Decimal(n)) == Some(n)
  {
    DecimalRoundTrip(n);
    assert Writes(Decimal(n), n);
    CountIs(Decimal(n), n);
  }

  /** Where the walk of `table` that has reached `slot` ends. */
  function WalkEnd(message: seq<Entry>, end: nat, slot: nat, table: GroupTable, known: set<Tag>): (r: nat)
    requires slot <= end <= |message|
    ensures slot <= r <= end
    decreases end - slot, 1
  {
    if slot == end || message[slot].tag == CHECKSUM then slot
    else if message[slot].tag in table.members then WalkEnd(message, end, Past(message, end, slot, table, known), table, known)
    else if message[slot].tag in known then slot
    else WalkEnd(message, end, slot + 1, table, known)
  }

  /** The slot after the member at `slot`, with the whole group it counts if it counts one. */
  function Past(message: seq<Entry>, end: nat, slot: nat, table: GroupTable, known: set<Tag>): (r: nat)
    requires slot < end <= |message|
    ensures slot < r <= end
    decreases end - slot, 0
  {
    match NestedCountedBy(table.nested, message[slot].tag)
    case Some(nested) => WalkEnd(message, end, slot + 1, nested, known)
    case None => slot + 1
  }

  /** The slots from `slot` on whose members belong to `table` itself, not to a nested group. */
  function OwnSlots(message: seq<Entry>, end: nat, slot: nat, table: GroupTable, known: set<Tag>): (r: seq<nat>)
    requires slot <= end <= |message|
    ensures forall i :: 0 <= i < |r| ==> slot <= r[i] < WalkEnd(message, end, slot, table, known)
    ensures forall i :: 0 <= i < |r| ==> r[i] < |message| && message[r[i]].tag in table.members && message[r[i]].tag != CHECKSUM
    ensures forall i, j :: 0 <= i < j < |r| ==> r[i] < r[j]
    decreases end - slot
  {
    if slot == end || message[slot].tag == CHECKSUM then []
    else if message[slot].tag in table.members then
      [slot] + OwnSlots(message, end, Past(message, end, slot, table, known), table, known)
    else if message[slot].tag in known then []
    else OwnSlots(message, end, slot + 1, table, known)
  }

  /** Instances as they are told apart: the open one's start and tags, and those closed. */
  datatype Grouping = Grouping(instanceStart: Option<nat>, seen: seq<Tag>, instances: seq<Scope>, anomalies: seq<Anomaly>)

  /** Adds the member at `slot`, which opens an instance if none is open or its tag repeats. */
  function Place(g: Grouping, message: seq<Entry>, slot: nat, delimiter: Tag): (r: Grouping)
    requires slot < |message|
  {
    var tag := message[slot].tag;
    if g.instanceStart.None? || tag in g.seen then
      Grouping(
        Some(slot),
        [tag],
        if g.instanceStart.Some? then g.instances + [Scope(g.instanceStart.value, slot)] else g.instances,
        if tag != delimiter then g.anomalies + [MissingDelimiter(tag)] else g.anomalies)
    else g.(seen := g.seen + [tag])
  }

  function PlaceAll(g: Grouping, message: seq<Entry>, slots: seq<nat>, delimiter: Tag): (r: Grouping)
    requires forall i :: 0 <= i < |slots| ==> slots[i] < |message|
    decreases |slots|
  {
    if slots == [] then g else PlaceAll(Place(g, message, slots[0], delimiter), message, slots[1..], delimiter)
  }

  /** The walk's findings once its members are grouped and its end is known. */
  function Conclude(g: Grouping, declaredCount: Option<nat>, end: nat): (r: Walk) {
    var instances := if g.instanceStart.Some? then g.instances + [Scope(g.instanceStart.value, end)] else g.instances;
    Walk(
      declaredCount,
      instances,
      if declaredCount.Some? && declaredCount.value != |instances|
      then g.anomalies + [CountMismatch(declaredCount.value, |instances|)]
      else g.anomalies)
  }

  function StartGrouping(declaredCount: Option<nat>): Grouping {
    Grouping(None, [], [], if declaredCount.None? then [InvalidCount] else [])
  }

  /** What the walk of the group counted at `countSlot` finds, and where it ends. */
  function WalkOf(message: seq<Entry>, end: nat, countSlot: nat, table: GroupTable, known: set<Tag>): (r: (Walk, nat))
    requires countSlot < end <= |message|
  {
    var declaredCount := ParseCount(message[countSlot].value);
    var stop := WalkEnd(message, end, countSlot + 1, table, known);
    (Conclude(Finish(StartGrouping(declaredCount), message, end, countSlot + 1, table, known), declaredCount, stop), stop)
  }

  /** The grouping reached once the rest of the walk's own members are placed. */
  function Finish(g: Grouping, message: seq<Entry>, end: nat, slot: nat, table: GroupTable, known: set<Tag>): (r: Grouping)
    requires slot <= end <= |message|
  {
    PlaceAll(g, message, OwnSlots(message, end, slot, table, known), table.delimiter)
  }

  lemma MemberStep(g: Grouping, message: seq<Entry>, end: nat, slot: nat, table: GroupTable, known: set<Tag>)
    requires slot < end <= |message| && message[slot].tag in table.members && message[slot].tag != CHECKSUM
    ensures var next := Past(message, end, slot, table, known);
            && Finish(g, message, end, slot, table, known)
               == Finish(Place(g, message, slot, table.delimiter), message, end, next, table, known)
            && WalkEnd(message, end, slot, table, known) == WalkEnd(message, end, next, table, known)
  {
    var later := OwnSlots(message, end, Past(message, end, slot, table, known), table, known);
    assert ([slot] + later)[1..] == later;
  }

  lemma UnknownStep(g: Grouping, message: seq<Entry>, end: nat, slot: nat, table: GroupTable, known: set<Tag>)
    requires slot < end <= |message| && message[slot].tag !in table.members && message[slot].tag !in known && message[slot].tag != CHECKSUM
    ensures Finish(g, message, end, slot, table, known) == Finish(g, message, end, slot + 1, table, known)
    ensures WalkEnd(message, end, slot, table, known) == WalkEnd(message, end, slot + 1, table, known)
  {
  }

  lemma StopStep(g: Grouping, message: seq<Entry>, end: nat, slot: nat, table: GroupTable, known: set<Tag>)
    requires slot <= end <= |message|
    requires slot == end || message[slot].tag == CHECKSUM || (message[slot].tag !in table.members && message[slot].tag in known)
    ensures Finish(g, message, end, slot, table, known) == g && WalkEnd(message, end, slot, table, known) == slot
  {
  }

  /** Walks the group whose count field sits at `countSlot`, in one pass. */
  method WalkFrom(message: seq<Entry>, end: nat, countSlot: nat, table: GroupTable, known: set<Tag>)
    returns (walk: Walk, slot: nat)
    requires countSlot < end <= |message|
    ensures (walk, slot) == WalkOf(message, end, countSlot, table, known)
    ensures countSlot < slot <= end
    decreases end - countSlot, 0
  {
    hide WalkEnd, OwnSlots, PlaceAll, Finish;
    var declaredCount := ParseCount(message[countSlot].value);
    var anomalies: seq<Anomaly> := [];
    if declaredCount.None? {
      anomalies := anomalies + [InvalidCount];
    }

    var instances: seq<Scope> := [];
    var instanceStart: Option<nat> := None;
    var seen: seq<Tag> := [];
    slot := countSlot + 1;
    assert Grouping(instanceStart, seen, instances, anomalies) == StartGrouping(declaredCount);
    while slot < end
      invariant countSlot < slot <= end
      invariant WalkEnd(message, end, slot, table, known) == WalkEnd(message, end, countSlot + 1, table, known)
      invariant Finish(Grouping(instanceStart, seen, instances, anomalies), message, end, slot, table, known)
             == Finish(StartGrouping(declaredCount), message, end, countSlot + 1, table, known)
    {
      ghost var g := Grouping(instanceStart, seen, instances, anomalies);
      var tag := message[slot].tag;
      if tag == CHECKSUM {
        break;
      }
      if tag in table.members {
        MemberStep(g, message, end, slot, table, known);
        if instanceStart.None? || tag in seen {
          if instanceStart.Some? {
            instances := instances + [Scope(instanceStart.value, slot)];
          }
          if tag != table.delimiter {
            anomalies := anomalies + [MissingDelimiter(tag)];
          }
          instanceStart := Some(slot);
          seen := [];
        }
        seen := seen + [tag];
        assert Grouping(instanceStart, seen, instances, anomalies) == Place(g, message, slot, table.delimiter);
        slot := SkipMember(message, end, slot, table, known);
      } else if tag in known {
        break;
      } else {
        UnknownStep(g, message, end, slot, table, known);
        slot := slot + 1;
      }
    }
    StopStep(Grouping(instanceStart, seen, instances, anomalies), message, end, slot, table, known);
    if instanceStart.Some? {
      instances := instances + [Scope(instanceStart.value, slot)];
    }
    if declaredCount.Some? && declaredCount.value != |instances| {
      anomalies := anomalies + [CountMismatch(declaredCount.value, |instances|)];
    }
    walk := Walk(declaredCount, instances, anomalies);
  }

  /** Steps over the member at `slot`, walking the nested group it counts if it counts one. */
  method SkipMember(message: seq<Entry>, end: nat, slot: nat, table: GroupTable, known: set<Tag>) returns (next: nat)
    requires slot < end <= |message|
    ensures next == Past(message, end, slot, table, known)
    decreases end - slot, 1
  {
    match NestedCountedBy(table.nested, message[slot].tag) {
      case Some(nested) =>
        var _, after := WalkFrom(message, end, slot, nested, known);
        next := after;
      case None =>
        next := slot + 1;
    }
  }

  /** Walks the group `table` describes, or `None` if its count field is not in the scope. */
  function WalkGroup(message: seq<Entry>, scope: Scope, table: GroupTable, known: set<Tag>): (r: Option<Walk>) {
    match Find(message, scope, table.countTag, scope.start)
    case None => None
    case Some(countSlot) => Some(WalkOf(message, scope.end, countSlot, table, known).0)
  }

  /** An error names the count tag of a malformed group. */
  datatype InvalidValue = InvalidValue(tag: Tag)

  /** The instances of the group `table` describes, `Ok(None)` if its count field is absent. */
  function GetGroup(message: seq<Entry>, scope: Scope, table: GroupTable, known: set<Tag>): (r: Result<Option<seq<Scope>>, InvalidValue>) {
    match WalkGroup(message, scope, table, known)
    case None => Ok(None)
    case Some(walk) => if walk.anomalies != [] then Err(InvalidValue(table.countTag)) else Ok(Some(walk.instances))
  }
}
