/** The group tables and known tags generated from a resolved dictionary. */
module Tables {
  import opened Wrappers
  import opened Sequences
  import opened Tags
  import opened Dictionary
  import opened Resolution
  import opened SpecChecks
  import opened ResolutionLaws
  import opened Groups
  import opened GroupLaws

  function TagAt(fields: seq<FieldDef>, index: nat): Tag
    requires index < |fields|
  {
    fields[index].tag
  }

  /** The tags the members stand for directly: their fields, or their count fields. */
  function DirectTags(members: seq<ResolvedMember>, fields: seq<FieldDef>): (r: seq<Tag>)
    requires WellBuilt(members, fields)
  {
    if members == [] then []
    else
      assert members[0] in members && MemberWellBuilt(members[0], fields);
      [TagAt(fields, FirstField(members[0]))] + DirectTags(members[1..], fields)
  }

  /** The tags a group's instances directly contain, sorted. */
  function MemberTags(members: seq<ResolvedMember>, fields: seq<FieldDef>): (r: seq<Tag>)
    requires WellBuilt(members, fields)
  {
    Sort(DirectTags(members, fields))
  }

  /** Adds every tag in `members` at any depth to `tags`, group count tags included. */
  method CollectTags(members: seq<ResolvedMember>, fields: seq<FieldDef>, before: seq<Tag>) returns (tags: seq<Tag>)
    requires WellBuilt(members, fields)
    ensures tags == before + TagsOf(members, fields)
    decreases members
  {
    tags := before;
    for i := 0 to |members|
      invariant WellBuilt(members[i..], fields)
      invariant tags + TagsOf(members[i..], fields) == before + TagsOf(members, fields)
    {
      var member := members[i];
      assert member in members && MemberWellBuilt(member, fields);
      assert members[i..][0] == member && members[i..][1..] == members[i + 1..];
      ghost var was, rest := tags, TagsOf(members[i + 1..], fields);
      ghost var inner := if member.Group? then TagsOf(member.members, fields) else [];
      tags := tags + [fields[FirstField(member)].tag];
      if member.Group? {
        tags := CollectTags(member.members, fields, tags);
      }
      assert tags == was + [fields[FirstField(member)].tag] + inner;
      Associates(was, [fields[FirstField(member)].tag], inner);
      Associates(was, [fields[FirstField(member)].tag] + inner, rest);
    }
    assert TagsOf([], fields) == [];
  }

  /** Every tag in `members` at any depth, sorted. */
  method KnownTags(members: seq<ResolvedMember>, fields: seq<FieldDef>) returns (tags: seq<Tag>)
    requires WellBuilt(members, fields)
    ensures tags == Sort(TagsOf(members, fields))
  {
    tags := CollectTags(members, fields, []);
    assert [] + TagsOf(members, fields) == TagsOf(members, fields);
    tags := Sort(tags);
  }

  /** Every tag a message can contain, its envelope's included, sorted. */
  method MessageKnownTags(members: seq<ResolvedMember>, fields: seq<FieldDef>, envelope: seq<Tag>) returns (tags: seq<Tag>)
    requires WellBuilt(members, fields)
    ensures tags == Sort(envelope + TagsOf(members, fields))
  {
    tags := CollectTags(members, fields, envelope);
    tags := Sort(tags);
  }

  /** The tags of the header and the trailer, sorted. */
  function Envelope(resolved: Resolved, fields: seq<FieldDef>): (r: seq<Tag>)
    requires WellBuilt(resolved.header + resolved.trailer, fields)
  {
    Sort(TagsOf(resolved.header + resolved.trailer, fields))
  }

  lemma FirstWellBuilt(members: seq<ResolvedMember>, fields: seq<FieldDef>)
    requires WellBuilt(members, fields) && members != []
    ensures MemberWellBuilt(members[0], fields)
  {
    assert members[0] in members;
  }

  /** The table generated for a group. */
  function TableOf(group: ResolvedMember, fields: seq<FieldDef>): (r: GroupTable)
    requires group.Group? && MemberWellBuilt(group, fields)
    decreases group
  {
    FirstWellBuilt(group.members, fields);
    GroupTable(
      TagAt(fields, group.countIndex),
      TagAt(fields, group.delimiterIndex),
      MemberTags(group.members, fields),
      NestedTables(group.members, fields))
  }

  /** The tables of the groups among `members`, in order. */
  function NestedTables(members: seq<ResolvedMember>, fields: seq<FieldDef>): (r: seq<GroupTable>)
    requires WellBuilt(members, fields)
    decreases members
  {
    if members == [] then []
    else
      assert members[0] in members && MemberWellBuilt(members[0], fields);
      (if members[0].Group? then [TableOf(members[0], fields)] else []) + NestedTables(members[1..], fields)
  }

  /** A table keeps the rules its constructor checks, at every depth. */
  predicate RulesKept(table: GroupTable) {
    TableRules(table) && forall i :: 0 <= i < |table.nested| ==> RulesKept(table.nested[i])
  }

  lemma {:induction false} DirectTagsAreSome(members: seq<ResolvedMember>, fields: seq<FieldDef>)
    requires WellBuilt(members, fields) && Distinct(TagsOf(members, fields))
    ensures Distinct(DirectTags(members, fields)) && SetOf(DirectTags(members, fields)) <= SetOf(TagsOf(members, fields))
    decreases |members|
  {
    if members != [] {
      var member, rest := members[0], members[1..];
      assert member in members && MemberWellBuilt(member, fields);
      var tag := TagAt(fields, FirstField(member));
      var inner := if member.Group? then TagsOf(member.members, fields) else [];
      DistinctInTurn(tag, inner, TagsOf(rest, fields), {});
      DirectTagsAreSome(rest, fields);
      DistinctJoined([tag], DirectTags(rest, fields));
    }
  }

  /** Tables nested beside `direct` tags: sound, counted by a direct tag, and sharing no tag. */
  ghost predicate SoundBeside(direct: set<Tag>, tables: seq<GroupTable>) {
    && (forall i :: 0 <= i < |tables| ==> RulesKept(tables[i]) && UniqueTags(tables[i]))
    && (forall i :: 0 <= i < |tables| ==> tables[i].countTag in direct && TagsWithin(tables[i]) !! direct)
    && (forall i, j :: 0 <= i < j < |tables| ==>
          tables[i].countTag != tables[j].countTag && TagsWithin(tables[i]) !! TagsWithin(tables[j]))
  }

  /** The tags of a group member's own instances. */
  function InnerTags(member: ResolvedMember, fields: seq<FieldDef>): seq<Tag>
    requires MemberWellBuilt(member, fields)
  {
    if member.Group? then TagsOf(member.members, fields) else []
  }

  /** The tags and tables of a list are those of its first member and of the rest. */
  lemma FirstMemberSplits(members: seq<ResolvedMember>, fields: seq<FieldDef>)
    requires WellBuilt(members, fields) && members != [] && Distinct(TagsOf(members, fields))
    ensures MemberWellBuilt(members[0], fields) && FirstField(members[0]) < |fields| && WellBuilt(members[1..], fields)
    ensures var tag, inner, later := TagAt(fields, FirstField(members[0])), InnerTags(members[0], fields), TagsOf(members[1..], fields);
            && SetOf(TagsOf(members, fields)) == {tag} + SetOf(inner) + SetOf(later)
            && Distinct(inner) && Apart(inner, {tag}) && Distinct(later) && Apart(later, {tag} + SetOf(inner))
    ensures SetOf(DirectTags(members, fields)) == {TagAt(fields, FirstField(members[0]))} + SetOf(DirectTags(members[1..], fields))
    ensures NestedTables(members, fields) ==
            (if members[0].Group? then [TableOf(members[0], fields)] else []) + NestedTables(members[1..], fields)
  {
    FirstWellBuilt(members, fields);
    hide TableOf, NestedTables, DirectTags, SetOf, Distinct, Apart;
    FirstDirectTag(members, fields);
    FirstNestedTable(members, fields);
    var tag, inner, later := TagAt(fields, FirstField(members[0])), InnerTags(members[0], fields), TagsOf(members[1..], fields);
    DistinctInTurn(tag, inner, later, {});
    var none: set<Tag> := {};
    assert none + {tag} == {tag} && none + {tag} + SetOf(inner) == {tag} + SetOf(inner);
    assert Apart(TagsOf(members, fields), none) by { NothingSeen(TagsOf(members, fields)); }
  }

  lemma NothingSeen(tags: seq<Tag>)
    ensures Apart(tags, {})
  {
  }

  lemma FirstDirectTag(members: seq<ResolvedMember>, fields: seq<FieldDef>)
    requires WellBuilt(members, fields) && members != [] && MemberWellBuilt(members[0], fields)
    ensures SetOf(DirectTags(members, fields)) == {TagAt(fields, FirstField(members[0]))} + SetOf(DirectTags(members[1..], fields))
  {
  }

  lemma FirstNestedTable(members: seq<ResolvedMember>, fields: seq<FieldDef>)
    requires WellBuilt(members, fields) && members != [] && MemberWellBuilt(members[0], fields)
    ensures NestedTables(members, fields) ==
            (if members[0].Group? then [TableOf(members[0], fields)] else []) + NestedTables(members[1..], fields)
  {
    hide TableOf;
  }

  lemma TableIsCounted(group: ResolvedMember, fields: seq<FieldDef>)
    requires group.Group? && MemberWellBuilt(group, fields)
    ensures TableOf(group, fields).countTag == TagAt(fields, FirstField(group))
  {
    hide NestedTables, MemberTags;
  }

  /** The tables nested in a member list that uses no tag twice are sound, and hold the rest of its tags. */
  lemma {:induction false} NestedTablesAreSound(members: seq<ResolvedMember>, fields: seq<FieldDef>)
    requires WellBuilt(members, fields) && Distinct(TagsOf(members, fields))
    ensures SoundBeside(SetOf(DirectTags(members, fields)), NestedTables(members, fields))
    ensures SetOf(TagsOf(members, fields)) == SetOf(DirectTags(members, fields)) + TagsWithinAll(NestedTables(members, fields))
    decreases members
  {
    if members == [] {
      NoTables(members, fields);
    } else {
      hide SoundBeside, UniqueTags, RulesKept, TagsWithin, TableOf, Apart, Distinct, DirectTags, TagsOf, NestedTables, SetOf, WellBuilt;
      var member, rest := members[0], members[1..];
      FirstMemberSplits(members, fields);
      NestedTablesAreSound(rest, fields);
      var tag, inner, later := TagAt(fields, FirstField(member)), InnerTags(member, fields), TagsOf(rest, fields);
      if member.Group? {
        TableIsSound(member, fields);
        TableIsCounted(member, fields);
        OneMoreSoundTable(tag, TableOf(member, fields), inner, later, SetOf(DirectTags(rest, fields)), NestedTables(rest, fields));
      } else {
        OneMoreDirectTag(tag, later, SetOf(DirectTags(rest, fields)), NestedTables(rest, fields));
      }
    }
  }

  lemma NoTables(members: seq<ResolvedMember>, fields: seq<FieldDef>)
    requires WellBuilt(members, fields) && members == []
    ensures SoundBeside(SetOf(DirectTags(members, fields)), NestedTables(members, fields))
    ensures SetOf(TagsOf(members, fields)) == SetOf(DirectTags(members, fields)) + TagsWithinAll(NestedTables(members, fields))
  {
  }

  lemma OneMoreDirectTag(tag: Tag, later: seq<Tag>, direct: set<Tag>, tables: seq<GroupTable>)
    requires SoundBeside(direct, tables) && SetOf(later) == direct + TagsWithinAll(tables) && Apart(later, {tag} + SetOf([]))
    ensures SoundBeside({tag} + direct, [] + tables)
    ensures {tag} + SetOf([]) + SetOf(later) == {tag} + direct + TagsWithinAll([] + tables)
  {
    assert [] + tables == tables;
    forall i | 0 <= i < |tables| ensures TagsWithin(tables[i]) !! {tag} + direct {
      assert TagsWithin(tables[i]) <= TagsWithinAll(tables);
      assert tag !in SetOf(later);
    }
  }

  lemma OneMoreSoundTable(tag: Tag, table: GroupTable, inner: seq<Tag>, later: seq<Tag>, direct: set<Tag>, tables: seq<GroupTable>)
    requires SoundBeside(direct, tables) && SetOf(later) == direct + TagsWithinAll(tables)
    requires RulesKept(table) && UniqueTags(table) && table.countTag == tag && TagsWithin(table) == SetOf(inner)
    requires Apart(inner, {tag}) && Apart(later, {tag} + SetOf(inner))
    ensures SoundBeside({tag} + direct, [table] + tables)
    ensures {tag} + SetOf(inner) + SetOf(later) == {tag} + direct + TagsWithinAll([table] + tables)
  {
    hide UniqueTags, RulesKept, TagsWithin;
    var all := [table] + tables;
    assert all[1..] == tables;
    SetsApart(inner, {tag}, later, {tag} + SetOf(inner));
    forall i | 0 <= i < |tables| ensures TagsWithin(tables[i]) <= SetOf(later) && tables[i].countTag in SetOf(later) {
      assert TagsWithin(tables[i]) <= TagsWithinAll(tables);
    }
    hide SetOf, Apart;
    forall i | 0 <= i < |all| ensures RulesKept(all[i]) && UniqueTags(all[i]) && all[i].countTag in {tag} + direct && TagsWithin(all[i]) !! {tag} + direct {
      if i > 0 { assert all[i] == tables[i - 1]; }
    }
    forall i, j | 0 <= i < j < |all| ensures all[i].countTag != all[j].countTag && TagsWithin(all[i]) !! TagsWithin(all[j]) {
      assert all[j] == tables[j - 1];
      if i > 0 { assert all[i] == tables[i - 1]; }
    }
  }

  lemma SetsApart(a: seq<Tag>, b: set<Tag>, c: seq<Tag>, d: set<Tag>)
    requires Apart(a, b) && Apart(c, d)
    ensures SetOf(a) !! b && SetOf(c) !! d
  {
  }

  /**
   * A group whose instances use no tag twice has a table that keeps every rule at every depth,
   * shares no tag between levels, and can hold exactly the tags listed for the group.
   */
  lemma {:induction false} TableIsSound(group: ResolvedMember, fields: seq<FieldDef>)
    requires group.Group? && MemberWellBuilt(group, fields) && Distinct(TagsOf(group.members, fields))
    ensures RulesKept(TableOf(group, fields)) && UniqueTags(TableOf(group, fields))
    ensures TagsWithin(TableOf(group, fields)) == SetOf(TagsOf(group.members, fields))
    decreases group, 0
  {
    hide RulesKept, UniqueTags, TagsWithin, SoundBeside, Distinct, TableOf, DirectTags, NestedTables, SetOf;
    TableParts(group, fields);
    NestedTablesAreSound(group.members, fields);
    DirectTagsAreSome(group.members, fields);
    SoundTable(TableOf(group, fields), DirectTags(group.members, fields));
  }

  lemma TableParts(group: ResolvedMember, fields: seq<FieldDef>)
    requires group.Group? && MemberWellBuilt(group, fields)
    ensures var table, direct := TableOf(group, fields), DirectTags(group.members, fields);
            && table.members == Sort(direct) && table.nested == NestedTables(group.members, fields)
            && direct != [] && table.delimiter == direct[0]
  {
    FirstWellBuilt(group.members, fields);
    hide NestedTables, Sort;
  }

  /** A table over distinct tags, its delimiter the first of them, is sound if its nested tables are beside them. */
  lemma SoundTable(table: GroupTable, direct: seq<Tag>)
    requires table.members == Sort(direct) && Distinct(direct) && direct != [] && table.delimiter == direct[0]
    requires SoundBeside(SetOf(direct), table.nested)
    ensures RulesKept(table) && UniqueTags(table) && TagsWithin(table) == SetOf(direct) + TagsWithinAll(table.nested)
  {
    hide Distinct, Sort, SetOf, IsSortedSet;
    SortedDirectTags(direct);
    assert (set t | t in table.members) == SetOf(direct);
  }

  lemma SortedDirectTags(direct: seq<Tag>)
    requires Distinct(direct) && direct != []
    ensures IsSortedSet(Sort(direct)) && direct[0] in Sort(direct)
    ensures forall t :: t in Sort(direct) <==> t in SetOf(direct)
  {
    hide Distinct, Sort;
    SortOfDistinctIsSortedSet(direct);
    forall t ensures t in Sort(direct) <==> t in SetOf(direct) { SortKeepsMembers(direct, t); }
    assert direct[0] in SetOf(direct);
  }

  /** `group` stands in `members`, at any depth. */
  ghost predicate StandsIn(group: ResolvedMember, members: seq<ResolvedMember>)
    decreases members
  {
    exists m :: m in members && m.Group? && (m == group || StandsIn(group, m.members))
  }

  lemma {:induction false} MemberTagsAreSome(member: ResolvedMember, members: seq<ResolvedMember>, fields: seq<FieldDef>)
    requires WellBuilt(members, fields) && member in members && member.Group?
    ensures MemberWellBuilt(member, fields)
    ensures SetOf(TagsOf(member.members, fields)) <= SetOf(TagsOf(members, fields))
    ensures Distinct(TagsOf(members, fields)) ==> Distinct(TagsOf(member.members, fields))
    decreases |members|
  {
    assert MemberWellBuilt(member, fields);
    FirstWellBuilt(members, fields);
    var inner := if members[0].Group? then TagsOf(members[0].members, fields) else [];
    DistinctInTurn(TagAt(fields, FirstField(members[0])), inner, TagsOf(members[1..], fields), {});
    if members[0] != member {
      MemberTagsAreSome(member, members[1..], fields);
    }
  }

  /** A group anywhere in a list that uses no tag twice has a sound table within the list's tags. */
  lemma {:induction false} GroupsWithinAreSound(group: ResolvedMember, members: seq<ResolvedMember>, fields: seq<FieldDef>)
    requires WellBuilt(members, fields) && Distinct(TagsOf(members, fields)) && group.Group? && StandsIn(group, members)
    ensures MemberWellBuilt(group, fields) && Distinct(TagsOf(group.members, fields))
    ensures RulesKept(TableOf(group, fields)) && UniqueTags(TableOf(group, fields))
    ensures TagsWithin(TableOf(group, fields)) <= SetOf(TagsOf(members, fields))
    decreases members
  {
    var m :| m in members && m.Group? && (m == group || StandsIn(group, m.members));
    MemberTagsAreSome(m, members, fields);
    if m == group {
      TableIsSound(group, fields);
    } else {
      GroupsWithinAreSound(group, m.members, fields);
    }
  }

  lemma SortedTagsAreKnown(tags: seq<Tag>)
    requires Distinct(tags)
    ensures IsSortedSet(Sort(tags)) && SetOf(Sort(tags)) == SetOf(tags)
  {
    SortOfDistinctIsSortedSet(tags);
    forall t ensures t in Sort(tags) <==> t in tags { SortKeepsMembers(tags, t); }
  }

  /** What a spec with a message resolves to uses no tag twice across header, message and trailer. */
  lemma ResolvedTagsAreDistinct(spec: Spec, i: nat)
    requires InlineSpec(spec).Ok? && i < |spec.messages|
    ensures var resolved := InlineSpec(spec).value;
            && |resolved.messages| == |spec.messages|
            && WellBuilt(resolved.header, spec.fields) && WellBuilt(resolved.messages[i], spec.fields) && WellBuilt(resolved.trailer, spec.fields)
            && Distinct(TagsOf(resolved.header, spec.fields) + TagsOf(resolved.messages[i], spec.fields) + TagsOf(resolved.trailer, spec.fields))
  {
    var resolved := InlineSpec(spec).value;
    EachMessageResolves(spec, spec.messages, resolved.header, resolved.trailer, i);
    MessageTagsAreDistinct(spec, spec.messages[i], resolved.header, resolved.trailer);
  }

  lemma DistinctOuter(h: seq<Tag>, m: seq<Tag>, t: seq<Tag>)
    requires Distinct(h + m + t)
    ensures Distinct(h + t) && Distinct(m) && Distinct(h) && Distinct(t)
    ensures forall e :: SetOf(e) == SetOf(h + t) && Distinct(e) ==> Distinct(e + m)
  {
    DistinctJoined(h + m, t);
    DistinctJoined(h, m);
    DistinctJoined(h, t);
    assert SetOf(h + m) == SetOf(h) + SetOf(m);
    assert forall x :: x in t ==> exists i :: 0 <= i < |t| && t[i] == x;
    forall e | SetOf(e) == SetOf(h + t) && Distinct(e) ensures Distinct(e + m) {
      DistinctJoined(e, m);
      forall i | 0 <= i < |m| ensures m[i] !in SetOf(e) {
        assert m[i] !in SetOf(h);
        assert m[i] in SetOf(h + m);
        assert m[i] !in t;
      }
    }
  }

  /** The tags a generated message knows. */
  function KnownToMessage(resolved: Resolved, i: nat, fields: seq<FieldDef>): seq<Tag>
    requires i < |resolved.messages|
    requires WellBuilt(resolved.header + resolved.trailer, fields) && WellBuilt(resolved.messages[i], fields)
  {
    Sort(Envelope(resolved, fields) + TagsOf(resolved.messages[i], fields))
  }

  /**
   * A group's table keeps every rule, shares no tag between levels, holds only known tags, and
   * its own known tags are a sorted set of exactly those it can hold.
   */
  ghost predicate TableFits(group: ResolvedMember, known: seq<Tag>, fields: seq<FieldDef>) {
    && group.Group? && MemberWellBuilt(group, fields)
    && RulesKept(TableOf(group, fields)) && UniqueTags(TableOf(group, fields))
    && TagsWithin(TableOf(group, fields)) <= SetOf(known)
    && IsSortedSet(Sort(TagsOf(group.members, fields)))
    && TagsWithin(TableOf(group, fields)) == SetOf(Sort(TagsOf(group.members, fields)))
  }

  lemma GroupFits(group: ResolvedMember, members: seq<ResolvedMember>, known: seq<Tag>, fields: seq<FieldDef>)
    requires WellBuilt(members, fields) && Distinct(TagsOf(members, fields)) && group.Group? && StandsIn(group, members)
    requires SetOf(TagsOf(members, fields)) <= SetOf(known)
    ensures TableFits(group, known, fields)
  {
    hide RulesKept, UniqueTags, TagsWithin, TableOf, StandsIn, SetOf;
    GroupsWithinAreSound(group, members, fields);
    TableIsSound(group, fields);
    SortedTagsAreKnown(TagsOf(group.members, fields));
  }

  /**
   * A resolved dictionary with a message gives valid tables: the envelope's and the message's
   * known tags are sorted sets, and every group in the header, the message or the trailer, at any
   * depth, has a table that fits them.
   */
  lemma ResolvedDictionariesGiveSoundTables(spec: Spec, i: nat)
    requires InlineSpec(spec).Ok? && i < |spec.messages|
    ensures var resolved, fields := InlineSpec(spec).value, spec.fields;
            && |resolved.messages| == |spec.messages|
            && WellBuilt(resolved.header + resolved.trailer, fields) && WellBuilt(resolved.messages[i], fields)
            && IsSortedSet(Envelope(resolved, fields))
            && IsSortedSet(KnownToMessage(resolved, i, fields))
            && forall group: ResolvedMember :: group.Group? && StandsIn(group, resolved.header + resolved.messages[i] + resolved.trailer) ==>
                 TableFits(group, KnownToMessage(resolved, i, fields), fields)
  {
    hide InlineSpec, Distinct, TableFits, StandsIn;
    var resolved, fields := InlineSpec(spec).value, spec.fields;
    ResolvedTagsAreDistinct(spec, i);
    var members := resolved.messages[i];
    var h, m, t := TagsOf(resolved.header, fields), TagsOf(members, fields), TagsOf(resolved.trailer, fields);
    TagsOfJoined(resolved.header, resolved.trailer, fields);
    TagsOfJoined(resolved.header, members, fields);
    TagsOfJoined(resolved.header + members, resolved.trailer, fields);
    DistinctOuter(h, m, t);
    SortedTagsAreKnown(h + t);
    DistinctMultiset(h + t);
    SortedTagsAreKnown(Envelope(resolved, fields) + m);
    JoinedTags(h, m, t, Envelope(resolved, fields));
    forall group: ResolvedMember | group.Group? && StandsIn(group, resolved.header + members + resolved.trailer)
      ensures TableFits(group, KnownToMessage(resolved, i, fields), fields)
    {
      GroupFits(group, resolved.header + members + resolved.trailer, KnownToMessage(resolved, i, fields), fields);
    }
  }

  lemma JoinedTags(h: seq<Tag>, m: seq<Tag>, t: seq<Tag>, e: seq<Tag>)
    requires SetOf(e) == SetOf(h + t)
    ensures SetOf(h + m + t) == SetOf(e + m)
  {
    assert SetOf(h + t) == SetOf(h) + SetOf(t);
    assert SetOf(e + m) == SetOf(e) + SetOf(m);
    assert SetOf(h + m + t) == SetOf(h) + SetOf(m) + SetOf(t);
  }

  lemma DistinctMultiset(tags: seq<Tag>)
    requires Distinct(tags)
    ensures Distinct(Sort(tags))
  {
    SortOfDistinctIsSortedSet(tags);
  }

  /**
   * The message is needed: without one, header and trailer are never compared, and the
   * envelope's tags are a sorted set exactly when the two happen to share none.
   */
  lemma EnvelopeNeedsAMessage(spec: Spec)
    requires InlineSpec(spec).Ok? && spec.messages == []
    ensures var resolved, fields := InlineSpec(spec).value, spec.fields;
            && WellBuilt(resolved.header, fields) && WellBuilt(resolved.trailer, fields)
            && WellBuilt(resolved.header + resolved.trailer, fields)
            && (IsSortedSet(Envelope(resolved, fields)) <==>
                  SetOf(TagsOf(resolved.header, fields)) !! SetOf(TagsOf(resolved.trailer, fields)))
  {
    var resolved, fields := InlineSpec(spec).value, spec.fields;
    var h, t := TagsOf(resolved.header, fields), TagsOf(resolved.trailer, fields);
    ListTagsAreDistinct(spec, {}, spec.header, InHeader, false);
    ListTagsAreDistinct(spec, {}, spec.trailer, InTrailer, false);
    TagsOfJoined(resolved.header, resolved.trailer, fields);
    DistinctJoined(h, t);
    if Distinct(h + t) {
      SortOfDistinctIsSortedSet(h + t);
    }
    if IsSortedSet(Sort(h + t)) {
      DistinctIsMultiplicityOne(Sort(h + t));
      DistinctIsMultiplicityOne(h + t);
    }
    assert Apart(t, SetOf(h)) <==> SetOf(h) !! SetOf(t);
  }

  /** One field, in both the header and the trailer, and no message. */
  const SHARED: Spec := Spec([FieldRef(1, true)], [], [FieldRef(1, true)], [FieldDef("Signature", 1, Other("STRING"), None, [])], [])

  lemma OneFieldInlines(context: MemberContext)
    ensures InlineList(SHARED, {}, [FieldRef(1, true)], context, false) == Ok([Field(0, true)])
  {
    var members := [FieldRef(1, true)];
    assert members[1..] == [];
    assert FieldIndex(SHARED.fields, 1) == Some(0);
    assert Inline(SHARED, {}, members[0], context, false) == Ok([Field(0, true)]);
    assert InlineEach(SHARED, {}, members[1..], context, false) == Ok([]);
    assert InlineEach(SHARED, {}, members, context, false) == Ok([Field(0, true)] + []);
    assert [Field(0, true)][1..] == [] && [Field(0, true)] + [] == [Field(0, true)];
  }

  lemma SharedHasNoProblem()
    ensures SpecProblem(SHARED) == None
  {
    ChecksPassExactly(SHARED);
  }

  lemma SharedResolves()
    ensures InlineSpec(SHARED) == Ok(Resolved([Field(0, true)], [], [Field(0, true)]))
  {
    SharedHasNoProblem();
    OneFieldInlines(InHeader);
    OneFieldInlines(InTrailer);
    hide InlineList, SpecProblem;
  }

  /** Such a spec resolves, though its header and trailer share a tag. */
  lemma HeaderAndTrailerCanShareATag()
    ensures SHARED.messages == [] && InlineSpec(SHARED) == Ok(Resolved([Field(0, true)], [], [Field(0, true)]))
    ensures WellBuilt([Field(0, true)] + [Field(0, true)], SHARED.fields)
    ensures !IsSortedSet(Envelope(Resolved([Field(0, true)], [], [Field(0, true)]), SHARED.fields))
  {
    hide InlineSpec, Envelope;
    SharedResolves();
    EnvelopeNeedsAMessage(SHARED);
    assert TagsOf([Field(0, true)], SHARED.fields) == [1] by { assert [Field(0, true)][1..] == []; }
    assert 1 in SetOf([1]);
  }
}
