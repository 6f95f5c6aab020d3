/** Where a list's tags stand, and where one is found to repeat. */
module Placements {
  import opened Wrappers
  import opened Sequences
  import opened Tags
  import opened Dictionary
  import opened SpecChecks
  import opened Resolution
  import opened ResolutionLaws
  import opened Resolvability

  datatype Placed = Placed(tag: Tag, context: MemberContext)

  /** The tags a declared member brings with where each stands: a component's members stand where it is referred to. */
  function UsedPlaces(spec: Spec, around: set<nat>, member: Member, context: MemberContext): (r: seq<Placed>)
    decreases Idle(spec, around), member, 0
  {
    match member
    case FieldRef(tag, _) => [Placed(tag, context)]
    case GroupDecl(countTag, _, members) =>
      (match FieldIndex(spec.fields, countTag)
       case None => []
       case Some(field) =>
         [Placed(countTag, context)] + UsedPlacesEach(spec, around, members, InGroup(spec.fields[field].name, context)))
    case ComponentRef(name, _) =>
      match ComponentIndex(spec.components, name)
      case None => []
      case Some(child) =>
        if child in around then []
        else
          assert child in Idle(spec, around) && child !in Idle(spec, around + {child});
          UsedPlacesEach(spec, around + {child}, spec.components[child].members, context)
  }

  function UsedPlacesEach(spec: Spec, around: set<nat>, members: seq<Member>, context: MemberContext): (r: seq<Placed>)
    decreases Idle(spec, around), members, 1
  {
    if members == [] then []
    else UsedPlaces(spec, around, members[0], context) + UsedPlacesEach(spec, around, members[1..], context)
  }

  /** The tag is the first to stand twice: at `first`, then at `second`. */
  ghost predicate Repeats(places: seq<Placed>, tag: Tag, first: MemberContext, second: MemberContext) {
    exists i, j :: 0 <= i < j < |places| && places[i] == Placed(tag, first) && places[j] == Placed(tag, second) && TagsDiffer(places[..j])
  }

  predicate TagsDiffer(places: seq<Placed>) {
    forall i, j :: 0 <= i < j < |places| ==> places[i].tag != places[j].tag
  }

  // Resolved members.

  function PlacesOf(members: seq<ResolvedMember>, context: MemberContext, fields: seq<FieldDef>): (r: seq<Placed>)
    requires WellBuilt(members, fields)
    decreases members
  {
    if members == [] then []
    else
      assert members[0] in members && MemberWellBuilt(members[0], fields);
      PlacesOfOne(members[0], context, fields) + PlacesOf(members[1..], context, fields)
  }

  function PlacesOfOne(member: ResolvedMember, context: MemberContext, fields: seq<FieldDef>): (r: seq<Placed>)
    requires MemberWellBuilt(member, fields)
    decreases member
  {
    [Placed(fields[FirstField(member)].tag, context)]
    + if member.Group? then PlacesOf(member.members, InGroup(fields[member.countIndex].name, context), fields) else []
  }

  lemma {:induction false} PlacesOfJoined(a: seq<ResolvedMember>, b: seq<ResolvedMember>, context: MemberContext, fields: seq<FieldDef>)
    requires WellBuilt(a, fields) && WellBuilt(b, fields)
    ensures WellBuilt(a + b, fields) && PlacesOf(a + b, context, fields) == PlacesOf(a, context, fields) + PlacesOf(b, context, fields)
    decreases |a|
  {
    hide MemberWellBuilt, PlacesOfOne;
    if a == [] {
      assert a + b == b;
    } else {
      PlacesOfJoined(a[1..], b, context, fields);
      assert (a + b)[1..] == a[1..] + b;
    }
  }

  lemma {:induction false} PlacesOfSpliced(expansion: seq<ResolvedMember>, isRequired: bool, context: MemberContext, fields: seq<FieldDef>)
    requires WellBuilt(expansion, fields)
    ensures WellBuilt(Spliced(expansion, isRequired), fields)
    ensures PlacesOf(Spliced(expansion, isRequired), context, fields) == PlacesOf(expansion, context, fields)
    decreases |expansion|
  {
    SplicedWellBuilt(expansion, isRequired, fields);
    if expansion != [] {
      assert expansion[0] in expansion && MemberWellBuilt(expansion[0], fields);
      PlacesOfSpliced(expansion[1..], isRequired, context, fields);
      assert Spliced(expansion, isRequired)[1..] == Spliced(expansion[1..], isRequired);
    }
  }

  lemma PlacesOfRequired(members: seq<ResolvedMember>, context: MemberContext, fields: seq<FieldDef>)
    requires WellBuilt(members, fields)
    ensures WellBuilt(RequireFirst(members), fields) && PlacesOf(RequireFirst(members), context, fields) == PlacesOf(members, context, fields)
  {
    TagsOfRequired(members, fields);
    if members != [] {
      FirstIsWellBuilt(members, fields);
      assert RequireFirst(members)[1..] == members[1..];
    }
  }

  lemma PlacesOfNamed(component: Component, members: seq<ResolvedMember>, context: MemberContext, fields: seq<FieldDef>)
    requires WellBuilt(members, fields)
    ensures WellBuilt(NameSoleGroup(component, members), fields)
    ensures PlacesOf(NameSoleGroup(component, members), context, fields) == PlacesOf(members, context, fields)
  {
    assert members != [] ==> members[0] in members && MemberWellBuilt(members[0], fields);
  }

  lemma PlacesOfSole(members: seq<ResolvedMember>, context: MemberContext, fields: seq<FieldDef>)
    requires WellBuilt(members, fields) && |members| == 1
    ensures MemberWellBuilt(members[0], fields) && PlacesOf(members, context, fields) == PlacesOfOne(members[0], context, fields)
  {
    assert members[0] in members && members[1..] == [];
  }

  // What inlines, placed anywhere, stands where its declared members do.

  lemma {:induction false} InlinedPlaces(
    spec: Spec, active: set<nat>, member: Member, context: MemberContext, first: bool, at: MemberContext)
    requires Inline(spec, active, member, context, first).Ok?
    ensures PlacesOf(Inline(spec, active, member, context, first).value, at, spec.fields) == UsedPlaces(spec, active, member, at)
    decreases Idle(spec, active), member, 0
  {
    hide PlacesOf, WellBuilt, InlineList;
    var r := Inline(spec, active, member, context, first).value;
    match member
    case FieldRef(_, _) => PlacesOfSole(r, at, spec.fields);
    case GroupDecl(countTag, _, members) =>
      var name := spec.fields[FieldIndexIn(spec, countTag, context).value].name;
      ListPlaces(spec, active, members, InGroup(name, context), true, InGroup(name, at));
      PlacesOfSole(r, at, spec.fields);
    case ComponentRef(name, isRequired) =>
      var child := ComponentIndex(spec.components, name).value;
      assert child in Idle(spec, active) && child !in Idle(spec, active + {child});
      ComponentPlaces(spec, active + {child}, child, at);
      PlacesOfSpliced(InlineComponent(spec, active + {child}, child).value, isRequired || first, at, spec.fields);
  }

  lemma {:induction false} EachPlaces(
    spec: Spec, active: set<nat>, members: seq<Member>, context: MemberContext, first: bool, at: MemberContext)
    requires InlineEach(spec, active, members, context, first).Ok?
    ensures PlacesOf(InlineEach(spec, active, members, context, first).value, at, spec.fields) == UsedPlacesEach(spec, active, members, at)
    decreases Idle(spec, active), members, 1
  {
    hide WellBuilt;
    if members != [] {
      InlinedPlaces(spec, active, members[0], context, first, at);
      EachPlaces(spec, active, members[1..], context, false, at);
      PlacesOfJoined(
        Inline(spec, active, members[0], context, first).value,
        InlineEach(spec, active, members[1..], context, false).value, at, spec.fields);
    }
  }

  lemma {:induction false} ListPlaces(
    spec: Spec, active: set<nat>, members: seq<Member>, context: MemberContext, isInstance: bool, at: MemberContext)
    requires InlineList(spec, active, members, context, isInstance).Ok?
    ensures PlacesOf(InlineList(spec, active, members, context, isInstance).value, at, spec.fields) == UsedPlacesEach(spec, active, members, at)
    decreases Idle(spec, active), members, 2
  {
    hide PlacesOf, WellBuilt, InsertUniqueTags;
    EachPlaces(spec, active, members, context, isInstance, at);
    PlacesOfRequired(InlineEach(spec, active, members, context, isInstance).value, at, spec.fields);
  }

  lemma {:induction false} ComponentPlaces(spec: Spec, active: set<nat>, index: nat, at: MemberContext)
    requires index < |spec.components| && InlineComponent(spec, active, index).Ok?
    ensures PlacesOf(InlineComponent(spec, active, index).value, at, spec.fields)
         == UsedPlacesEach(spec, active, spec.components[index].members, at)
    decreases Idle(spec, active), spec.components[index].members, 3
  {
    hide PlacesOf, WellBuilt, NameSoleGroup, InlineList;
    var component := spec.components[index];
    ListPlaces(spec, active, component.members, InComponent(component.name), false, at);
    PlacesOfNamed(component, InlineList(spec, active, component.members, InComponent(component.name), false).value, at, spec.fields);
  }

  /** With fewer components around it, what inlines stands in the same places. */
  lemma {:induction false} SamePlaces(
    spec: Spec, active: set<nat>, fewer: set<nat>, member: Member, context: MemberContext, first: bool, at: MemberContext)
    requires Inline(spec, active, member, context, first).Ok? && fewer <= active
    ensures UsedPlaces(spec, fewer, member, at) == UsedPlaces(spec, active, member, at)
    decreases Idle(spec, active), member, 0
  {
    hide InlineList;
    match member
    case FieldRef(_, _) =>
    case GroupDecl(countTag, _, members) =>
      var name := spec.fields[FieldIndexIn(spec, countTag, context).value].name;
      SamePlacesList(spec, active, fewer, members, InGroup(name, context), true, InGroup(name, at));
    case ComponentRef(name, _) =>
      var child := ComponentIndex(spec.components, name).value;
      assert child in Idle(spec, active) && child !in Idle(spec, active + {child});
      var component := spec.components[child];
      SamePlacesList(spec, active + {child}, fewer + {child}, component.members, InComponent(component.name), false, at);
  }

  lemma {:induction false} SamePlacesEach(
    spec: Spec, active: set<nat>, fewer: set<nat>, members: seq<Member>, context: MemberContext, first: bool, at: MemberContext)
    requires InlineEach(spec, active, members, context, first).Ok? && fewer <= active
    ensures UsedPlacesEach(spec, fewer, members, at) == UsedPlacesEach(spec, active, members, at)
    decreases Idle(spec, active), members, 1
  {
    if members != [] {
      SamePlaces(spec, active, fewer, members[0], context, first, at);
      SamePlacesEach(spec, active, fewer, members[1..], context, false, at);
    }
  }

  lemma {:induction false} SamePlacesList(
    spec: Spec, active: set<nat>, fewer: set<nat>, members: seq<Member>, context: MemberContext, isInstance: bool, at: MemberContext)
    requires InlineList(spec, active, members, context, isInstance).Ok? && fewer <= active
    ensures UsedPlacesEach(spec, fewer, members, at) == UsedPlacesEach(spec, active, members, at)
    decreases Idle(spec, active), members, 2
  {
    hide FinishList;
    SamePlacesEach(spec, active, fewer, members, context, isInstance, at);
  }

  // Recording tags.

  /** The map tells where each tag so far stands. */
  ghost predicate Records(seen: map<Tag, MemberContext>, places: seq<Placed>) {
    && TagsDiffer(places)
    && (forall p :: p in places ==> p.tag in seen && seen[p.tag] == p.context)
    && forall t :: t in seen ==> Placed(t, seen[t]) in places
  }

  lemma NewIsRecorded(seen: map<Tag, MemberContext>, places: seq<Placed>, tag: Tag, context: MemberContext)
    requires Records(seen, places) && tag !in seen
    ensures Records(seen[tag := context], places + [Placed(tag, context)])
  {
    var all := places + [Placed(tag, context)];
    forall i | 0 <= i < |places| ensures all[i].tag != tag { assert all[i] in places; }
  }

  lemma OldIsRepeated(seen: map<Tag, MemberContext>, places: seq<Placed>, tag: Tag, context: MemberContext, later: seq<Placed>)
    requires Records(seen, places) && tag in seen
    ensures Repeats(places + ([Placed(tag, context)] + later), tag, seen[tag], context)
  {
    var all := places + ([Placed(tag, context)] + later);
    var i :| 0 <= i < |places| && places[i] == Placed(tag, seen[tag]);
    assert all[i] == places[i] && all[|places|] == Placed(tag, context) && all[..|places|] == places;
  }

  lemma RepeatsStill(places: seq<Placed>, later: seq<Placed>, tag: Tag, first: MemberContext, second: MemberContext)
    requires Repeats(places, tag, first, second)
    ensures Repeats(places + later, tag, first, second)
  {
    var i, j :| 0 <= i < j < |places| && places[i] == Placed(tag, first) && places[j] == Placed(tag, second) && TagsDiffer(places[..j]);
    var all := places + later;
    assert all[i] == places[i] && all[j] == places[j] && all[..j] == places[..j];
  }

  ghost predicate RecordsOrRepeats(r: Result<map<Tag, MemberContext>, Error>, places: seq<Placed>) {
    match r
    case Ok(seen) => Records(seen, places)
    case Err(error) => error.DuplicateField? && Repeats(places, error.tag, error.firstContext, error.secondContext)
  }

  /** Recording a list after what is recorded tells where each tag stands, or which is the first to repeat and where. */
  lemma {:induction false} RecordingLocates(
    members: seq<ResolvedMember>, context: MemberContext, fields: seq<FieldDef>, seen: map<Tag, MemberContext>, before: seq<Placed>)
    requires WellBuilt(members, fields) && Records(seen, before)
    ensures RecordsOrRepeats(InsertUniqueTags(members, context, fields, seen), before + PlacesOf(members, context, fields))
    decreases members
  {
    hide WellBuilt, MemberWellBuilt, Records, Repeats, InsertUniqueTags;
    if members == [] {
      NothingToInsert(context, fields, seen);
      assert before + [] == before;
    } else {
      FirstIsWellBuilt(members, fields);
      InsertInTurn(members, context, fields, seen);
      var here, later := PlacesOfOne(members[0], context, fields), PlacesOf(members[1..], context, fields);
      var r := InsertFirst(members[0], context, fields, seen);
      FirstLocates(members[0], context, fields, seen, before);
      Associates(before, here, later);
      if r.Ok? {
        RecordingLocates(members[1..], context, fields, r.value, before + here);
      } else {
        RepeatsStill(before + here, later, r.error.tag, r.error.firstContext, r.error.secondContext);
      }
    }
  }

  lemma {:induction false} FirstLocates(
    member: ResolvedMember, context: MemberContext, fields: seq<FieldDef>, seen: map<Tag, MemberContext>, before: seq<Placed>)
    requires MemberWellBuilt(member, fields) && Records(seen, before)
    ensures RecordsOrRepeats(InsertFirst(member, context, fields, seen), before + PlacesOfOne(member, context, fields))
    decreases member
  {
    hide WellBuilt, Records, Repeats, InsertUniqueTags, PlacesOf;
    var tag := fields[FirstField(member)].tag;
    var here := Placed(tag, context);
    if tag in seen {
      OldIsRepeated(seen, before, tag, context, PlacesOfOne(member, context, fields)[1..]);
      assert PlacesOfOne(member, context, fields) == [here] + PlacesOfOne(member, context, fields)[1..];
    } else {
      NewIsRecorded(seen, before, tag, context);
      if member.Group? {
        var instance := InGroup(fields[member.countIndex].name, context);
        RecordingLocates(member.members, instance, fields, seen[tag := context], before + [here]);
        Associates(before, [here], PlacesOf(member.members, instance, fields));
      } else {
        assert [here] + [] == [here];
      }
    }
  }
}
