/** When a spec resolves, said of its declared members. */
module Resolvability {
  import opened Wrappers
  import opened Sequences
  import opened Tags
  import opened Dictionary
  import opened SpecChecks
  import opened Resolution
  import opened ResolutionLaws

  /**
   * The tags a declared member brings, its components' and its groups' members at any depth
   * included. Components in `around` bring none, and neither do undefined ones.
   */
  function UsedTags(spec: Spec, around: set<nat>, member: Member): (r: seq<Tag>)
    decreases Idle(spec, around), member, 0
  {
    match member
    case FieldRef(tag, _) => [tag]
    case GroupDecl(countTag, _, members) => [countTag] + UsedTagsEach(spec, around, members)
    case ComponentRef(name, _) =>
      match ComponentIndex(spec.components, name)
      case None => []
      case Some(child) =>
        if child in around then []
        else
          assert child in Idle(spec, around) && child !in Idle(spec, around + {child});
          UsedTagsEach(spec, around + {child}, spec.components[child].members)
  }

  function UsedTagsEach(spec: Spec, around: set<nat>, members: seq<Member>): (r: seq<Tag>)
    decreases Idle(spec, around), members, 1
  {
    if members == [] then [] else UsedTags(spec, around, members[0]) + UsedTagsEach(spec, around, members[1..])
  }

  /** What the member names is defined, a data field has a length tag, and a group brings a tag and none twice. */
  predicate MemberSound(spec: Spec, around: set<nat>, member: Member)
    decreases member, 0
  {
    match member
    case FieldRef(tag, _) =>
      var field := FieldIndex(spec.fields, tag);
      field.Some? && (HasLengthField(spec.fields[field.value].dataType) ==> spec.fields[field.value].lengthTag.Some?)
    case ComponentRef(name, _) => ComponentIndex(spec.components, name).Some?
    case GroupDecl(countTag, _, members) =>
      FieldIndex(spec.fields, countTag).Some? && UsedTagsEach(spec, around, members) != [] && ListSound(spec, around, members)
  }

  predicate EachSound(spec: Spec, around: set<nat>, members: seq<Member>)
    decreases members, 1
  {
    members == [] || (MemberSound(spec, around, members[0]) && EachSound(spec, around, members[1..]))
  }

  /** So is each member of the list, and the list brings no tag twice. */
  predicate ListSound(spec: Spec, around: set<nat>, members: seq<Member>)
    decreases members, 2
  {
    EachSound(spec, around, members) && Distinct(UsedTagsEach(spec, around, members))
  }

  // The tags of resolved lists.

  lemma {:induction false} TagsOfSpliced(expansion: seq<ResolvedMember>, isRequired: bool, fields: seq<FieldDef>)
    requires WellBuilt(expansion, fields)
    ensures WellBuilt(Spliced(expansion, isRequired), fields)
    ensures TagsOf(Spliced(expansion, isRequired), fields) == TagsOf(expansion, fields)
    decreases |expansion|
  {
    SplicedWellBuilt(expansion, isRequired, fields);
    if expansion != [] {
      assert expansion[0] in expansion && MemberWellBuilt(expansion[0], fields);
      TagsOfSpliced(expansion[1..], isRequired, fields);
      assert Spliced(expansion, isRequired)[1..] == Spliced(expansion[1..], isRequired);
    }
  }

  lemma TagsOfRequired(members: seq<ResolvedMember>, fields: seq<FieldDef>)
    requires WellBuilt(members, fields)
    ensures WellBuilt(RequireFirst(members), fields) && TagsOf(RequireFirst(members), fields) == TagsOf(members, fields)
  {
    if members != [] {
      FirstIsWellBuilt(members, fields);
      forall m | m in RequireFirst(members) ensures MemberWellBuilt(m, fields) {
        assert m == Require(members[0]) || m in members;
      }
      assert RequireFirst(members)[1..] == members[1..];
    }
  }

  lemma TagsOfNamed(component: Component, members: seq<ResolvedMember>, fields: seq<FieldDef>)
    requires WellBuilt(members, fields)
    ensures WellBuilt(NameSoleGroup(component, members), fields)
    ensures TagsOf(NameSoleGroup(component, members), fields) == TagsOf(members, fields)
  {
    assert members != [] ==> members[0] in members && MemberWellBuilt(members[0], fields);
  }

  lemma NoTagsNoMembers(members: seq<ResolvedMember>, fields: seq<FieldDef>)
    requires WellBuilt(members, fields)
    ensures TagsOf(members, fields) == [] <==> members == []
  {
    if members != [] { FirstIsWellBuilt(members, fields); }
  }

  lemma TagsOfOne(member: ResolvedMember, fields: seq<FieldDef>)
    requires MemberWellBuilt(member, fields)
    ensures WellBuilt([member], fields)
    ensures TagsOf([member], fields) == [fields[FirstField(member)].tag] + if member.Group? then TagsOf(member.members, fields) else []
  {
    assert [member][1..] == [];
  }

  /** Closing a list succeeds exactly when it uses no tag twice. */
  lemma FinishListExactly(spec: Spec, inlined: seq<ResolvedMember>, context: MemberContext, isInstance: bool)
    requires WellBuilt(inlined, spec.fields)
    ensures var r := FinishList(spec, inlined, context, isInstance);
            && (r.Ok? <==> Distinct(TagsOf(inlined, spec.fields)))
            && (r.Ok? ==> TagsOf(r.value, spec.fields) == TagsOf(inlined, spec.fields))
  {
    hide TagsOf, InsertUniqueTags, WellBuilt, Distinct;
    TagsOfRequired(inlined, spec.fields);
    InsertingChecksDistinctness(if isInstance then RequireFirst(inlined) else inlined, context, spec.fields, map[]);
  }

  // What resolves is sound.

  /** The tags of what a member inlines to are those it brings, and it is sound. */
  lemma {:induction false} InlinedIsSound(spec: Spec, active: set<nat>, member: Member, context: MemberContext, first: bool)
    requires Inline(spec, active, member, context, first).Ok?
    ensures TagsOf(Inline(spec, active, member, context, first).value, spec.fields) == UsedTags(spec, active, member)
    ensures MemberSound(spec, active, member)
    decreases Idle(spec, active), member, 0
  {
    hide TagsOf, WellBuilt, Distinct;
    var r := Inline(spec, active, member, context, first).value;
    match member
    case FieldRef(_, _) => TagsOfOne(r[0], spec.fields);
    case GroupDecl(countTag, _, members) =>
      var countIndex := FieldIndexIn(spec, countTag, context).value;
      var instance := InGroup(spec.fields[countIndex].name, context);
      ListIsSound(spec, active, members, instance, true);
      NoTagsNoMembers(InlineList(spec, active, members, instance, true).value, spec.fields);
      GroupIsBuilt(r, spec.fields);
    case ComponentRef(name, isRequired) =>
      var child := ComponentIndex(spec.components, name).value;
      assert child in Idle(spec, active) && child !in Idle(spec, active + {child});
      ComponentIsSound(spec, active + {child}, child);
      TagsOfSpliced(InlineComponent(spec, active + {child}, child).value, isRequired || first, spec.fields);
  }

  lemma GroupIsBuilt(members: seq<ResolvedMember>, fields: seq<FieldDef>)
    requires WellBuilt(members, fields) && |members| == 1
    ensures MemberWellBuilt(members[0], fields) && FirstField(members[0]) < |fields| && (members[0].Group? ==> WellBuilt(members[0].members, fields))
    ensures TagsOf(members, fields)
         == [fields[FirstField(members[0])].tag] + if members[0].Group? then TagsOf(members[0].members, fields) else []
  {
    assert members[0] in members;
    TagsOfOne(members[0], fields);
    assert members == [members[0]];
  }

  lemma {:induction false} EachIsSound(spec: Spec, active: set<nat>, members: seq<Member>, context: MemberContext, first: bool)
    requires InlineEach(spec, active, members, context, first).Ok?
    ensures TagsOf(InlineEach(spec, active, members, context, first).value, spec.fields) == UsedTagsEach(spec, active, members)
    ensures EachSound(spec, active, members)
    decreases Idle(spec, active), members, 1
  {
    hide WellBuilt, Distinct;
    if members != [] {
      InlinedIsSound(spec, active, members[0], context, first);
      EachIsSound(spec, active, members[1..], context, false);
      TagsOfJoined(
        Inline(spec, active, members[0], context, first).value,
        InlineEach(spec, active, members[1..], context, false).value, spec.fields);
    }
  }

  lemma {:induction false} ListIsSound(spec: Spec, active: set<nat>, members: seq<Member>, context: MemberContext, isInstance: bool)
    requires InlineList(spec, active, members, context, isInstance).Ok?
    ensures TagsOf(InlineList(spec, active, members, context, isInstance).value, spec.fields) == UsedTagsEach(spec, active, members)
    ensures ListSound(spec, active, members)
    decreases Idle(spec, active), members, 2
  {
    hide TagsOf, WellBuilt, Distinct, FinishList;
    EachIsSound(spec, active, members, context, isInstance);
    FinishListExactly(spec, InlineEach(spec, active, members, context, isInstance).value, context, isInstance);
  }

  lemma {:induction false} ComponentIsSound(spec: Spec, active: set<nat>, index: nat)
    requires index < |spec.components| && InlineComponent(spec, active, index).Ok?
    ensures TagsOf(InlineComponent(spec, active, index).value, spec.fields) == UsedTagsEach(spec, active, spec.components[index].members)
    ensures ListSound(spec, active, spec.components[index].members)
    decreases Idle(spec, active), spec.components[index].members, 3
  {
    hide TagsOf, WellBuilt, Distinct, NameSoleGroup, InlineList;
    var component := spec.components[index];
    ListIsSound(spec, active, component.members, InComponent(component.name), false);
    TagsOfNamed(component, InlineList(spec, active, component.members, InComponent(component.name), false).value, spec.fields);
  }

  /** With fewer components around it, what inlines brings the same tags. */
  lemma {:induction false} FewerAround(spec: Spec, active: set<nat>, fewer: set<nat>, member: Member, context: MemberContext, first: bool)
    requires Inline(spec, active, member, context, first).Ok? && fewer <= active
    ensures UsedTags(spec, fewer, member) == UsedTags(spec, active, member)
    ensures MemberSound(spec, active, member) ==> MemberSound(spec, fewer, member)
    decreases Idle(spec, active), member, 0
  {
    hide Distinct;
    match member
    case FieldRef(_, _) =>
    case GroupDecl(countTag, _, members) =>
      var countIndex := FieldIndexIn(spec, countTag, context).value;
      FewerAroundList(spec, active, fewer, members, InGroup(spec.fields[countIndex].name, context), true);
    case ComponentRef(name, _) =>
      var child := ComponentIndex(spec.components, name).value;
      assert child in Idle(spec, active) && child !in Idle(spec, active + {child});
      var component := spec.components[child];
      FewerAroundList(spec, active + {child}, fewer + {child}, component.members, InComponent(component.name), false);
  }

  lemma {:induction false} FewerAroundEach(spec: Spec, active: set<nat>, fewer: set<nat>, members: seq<Member>, context: MemberContext, first: bool)
    requires InlineEach(spec, active, members, context, first).Ok? && fewer <= active
    ensures UsedTagsEach(spec, fewer, members) == UsedTagsEach(spec, active, members)
    ensures EachSound(spec, active, members) ==> EachSound(spec, fewer, members)
    decreases Idle(spec, active), members, 1
  {
    if members != [] {
      FewerAround(spec, active, fewer, members[0], context, first);
      FewerAroundEach(spec, active, fewer, members[1..], context, false);
    }
  }

  lemma {:induction false} FewerAroundList(spec: Spec, active: set<nat>, fewer: set<nat>, members: seq<Member>, context: MemberContext, isInstance: bool)
    requires InlineList(spec, active, members, context, isInstance).Ok? && fewer <= active
    ensures UsedTagsEach(spec, fewer, members) == UsedTagsEach(spec, active, members)
    ensures ListSound(spec, active, members) ==> ListSound(spec, fewer, members)
    decreases Idle(spec, active), members, 2
  {
    hide FinishList, Distinct;
    FewerAroundEach(spec, active, fewer, members, context, isInstance);
  }

  // What is sound resolves.

  ghost predicate Acyclic(spec: Spec) {
    forall path :: !Cycle(spec, path)
  }

  predicate ComponentsSound(spec: Spec) {
    forall i :: 0 <= i < |spec.components| ==> ListSound(spec, {}, spec.components[i].members)
  }

  function Around(path: seq<nat>): set<nat> {
    set i | i in path
  }

  /** What the list refers to, the last component of the chain refers to. */
  ghost predicate Under(spec: Spec, path: seq<nat>, members: seq<Member>) {
    Chain(spec, path)
    && (path == [] || forall child :: SomeRefersTo(spec, members, child) ==> SomeRefersTo(spec, spec.components[path[|path| - 1]].members, child))
  }

  /** In a spec without cycles, what a chain's last component refers to is not in the chain, and extends it. */
  lemma ChainGoesOn(spec: Spec, path: seq<nat>, members: seq<Member>, child: nat)
    requires Acyclic(spec) && Under(spec, path, members) && SomeRefersTo(spec, members, child) && child < |spec.components|
    ensures child !in path && Around(path + [child]) == Around(path) + {child}
    ensures Under(spec, path + [child], spec.components[child].members)
  {
    hide RefersTo, SomeRefersTo;
    var longer := path + [child];
    assert forall i :: 0 <= i < |path| ==> longer[i] == path[i];
    assert Chain(spec, longer);
    if i :| 0 <= i < |path| && path[i] == child { TailIsCycle(spec, longer, i); }
  }

  lemma TailIsCycle(spec: Spec, path: seq<nat>, i: nat)
    requires Chain(spec, path) && i < |path| - 1 && path[i] == path[|path| - 1]
    ensures Cycle(spec, path[i..])
  {
    hide RefersTo, SomeRefersTo;
    var tail := path[i..];
    assert forall j :: 0 <= j < |tail| ==> tail[j] == path[i + j];
  }

  lemma UnderParts(spec: Spec, path: seq<nat>, members: seq<Member>)
    requires Under(spec, path, members) && members != []
    ensures Under(spec, path, [members[0]]) && Under(spec, path, members[1..])
  {
    forall child: nat | SomeRefersTo(spec, [members[0]], child) || SomeRefersTo(spec, members[1..], child)
      ensures SomeRefersTo(spec, members, child)
    {
      OneRefersTo(spec, members[0], child);
    }
  }

  lemma OneRefersTo(spec: Spec, member: Member, child: nat)
    ensures SomeRefersTo(spec, [member], child) <==> RefersTo(spec, member, child)
  {
    assert [member][1..] == [];
    assert !SomeRefersTo(spec, [], child);
  }

  lemma UnderGroup(spec: Spec, path: seq<nat>, member: Member)
    requires Under(spec, path, [member]) && member.GroupDecl?
    ensures Under(spec, path, member.members)
  {
    forall child: nat | SomeRefersTo(spec, member.members, child) ensures SomeRefersTo(spec, [member], child) {
      OneRefersTo(spec, member, child);
    }
  }

  lemma RefersToOne(spec: Spec, member: Member, child: nat)
    requires member.ComponentRef? && ComponentIndex(spec.components, member.name) == Some(child)
    ensures SomeRefersTo(spec, [member], child)
  {
  }

  /** What is around a member makes no difference to the tags it brings in a spec without cycles. */
  lemma {:induction false} TagsInContext(spec: Spec, p: seq<nat>, q: seq<nat>, member: Member)
    requires Acyclic(spec) && Under(spec, p, [member]) && Under(spec, q, [member])
    ensures UsedTags(spec, Around(p), member) == UsedTags(spec, Around(q), member)
    decreases Idle(spec, Around(p)), member, 0
  {
    hide Acyclic, Under, Around;
    match member
    case FieldRef(_, _) =>
    case GroupDecl(_, _, members) =>
      UnderGroup(spec, p, member);
      UnderGroup(spec, q, member);
      TagsInContextEach(spec, p, q, members);
    case ComponentRef(name, _) =>
      var found := ComponentIndex(spec.components, name);
      if found.Some? {
        var child := found.value;
        RefersToOne(spec, member, child);
        ChainGoesOn(spec, p, [member], child);
        ChainGoesOn(spec, q, [member], child);
        NotInChain(p, child);
        NotInChain(q, child);
        assert child in Idle(spec, Around(p)) && child !in Idle(spec, Around(p) + {child});
        TagsInContextEach(spec, p + [child], q + [child], spec.components[child].members);
      }
  }

  lemma NotInChain(path: seq<nat>, child: nat)
    requires child !in path
    ensures child !in Around(path)
  {
  }

  lemma {:induction false} TagsInContextEach(spec: Spec, p: seq<nat>, q: seq<nat>, members: seq<Member>)
    requires Acyclic(spec) && Under(spec, p, members) && Under(spec, q, members)
    ensures UsedTagsEach(spec, Around(p), members) == UsedTagsEach(spec, Around(q), members)
    decreases Idle(spec, Around(p)), members, 1
  {
    hide Acyclic, Under, Around;
    if members != [] {
      UnderParts(spec, p, members);
      UnderParts(spec, q, members);
      TagsInContext(spec, p, q, members[0]);
      TagsInContextEach(spec, p, q, members[1..]);
    }
  }

  lemma UnderNothing(spec: Spec, members: seq<Member>)
    ensures Under(spec, [], members) && Around([]) == {}
  {
  }

  /** A sound member, in a spec of sound components without cycles, inlines to members with its tags. */
  lemma {:induction false} SoundInlines(spec: Spec, path: seq<nat>, member: Member, context: MemberContext, first: bool)
    requires Acyclic(spec) && ComponentsSound(spec) && Under(spec, path, [member]) && MemberSound(spec, {}, member)
    ensures Inline(spec, Around(path), member, context, first).Ok?
    decreases Idle(spec, Around(path)), member, 0
  {
    hide Acyclic, Under, Around, ComponentsSound, Distinct, WellBuilt, ListSound;
    match member
    case FieldRef(_, _) =>
    case GroupDecl(countTag, _, members) =>
      var countIndex := FieldIndexIn(spec, countTag, context).value;
      var instance := InGroup(spec.fields[countIndex].name, context);
      UnderGroup(spec, path, member);
      SoundListInlines(spec, path, members, instance, true);
      ListIsSound(spec, Around(path), members, instance, true);
      NoTagsNoMembers(InlineList(spec, Around(path), members, instance, true).value, spec.fields);
      UnderNothing(spec, members);
      TagsInContextEach(spec, path, [], members);
    case ComponentRef(name, _) =>
      var child := ComponentIndex(spec.components, name).value;
      RefersToOne(spec, member, child);
      ChainGoesOn(spec, path, [member], child);
      NotInChain(path, child);
      assert child in Idle(spec, Around(path)) && child !in Idle(spec, Around(path) + {child});
      SoundComponentInlines(spec, path + [child], child);
  }

  lemma {:induction false} SoundEachInlines(spec: Spec, path: seq<nat>, members: seq<Member>, context: MemberContext, first: bool)
    requires Acyclic(spec) && ComponentsSound(spec) && Under(spec, path, members) && EachSound(spec, {}, members)
    ensures InlineEach(spec, Around(path), members, context, first).Ok?
    decreases Idle(spec, Around(path)), members, 1
  {
    hide Acyclic, Under, Around, ComponentsSound, MemberSound, WellBuilt;
    if members != [] {
      UnderParts(spec, path, members);
      SoundInlines(spec, path, members[0], context, first);
      SoundEachInlines(spec, path, members[1..], context, false);
    }
  }

  lemma {:induction false} SoundListInlines(spec: Spec, path: seq<nat>, members: seq<Member>, context: MemberContext, isInstance: bool)
    requires Acyclic(spec) && ComponentsSound(spec) && Under(spec, path, members) && ListSound(spec, {}, members)
    ensures InlineList(spec, Around(path), members, context, isInstance).Ok?
    decreases Idle(spec, Around(path)), members, 2
  {
    hide Acyclic, Under, Around, ComponentsSound, Distinct, WellBuilt, FinishList, TagsOf;
    SoundEachInlines(spec, path, members, context, isInstance);
    EachIsSound(spec, Around(path), members, context, isInstance);
    UnderNothing(spec, members);
    TagsInContextEach(spec, path, [], members);
    FinishListExactly(spec, InlineEach(spec, Around(path), members, context, isInstance).value, context, isInstance);
  }

  lemma {:induction false} SoundComponentInlines(spec: Spec, path: seq<nat>, index: nat)
    requires Acyclic(spec) && ComponentsSound(spec) && index < |spec.components| && Under(spec, path, spec.components[index].members)
    ensures InlineComponent(spec, Around(path), index).Ok?
    decreases Idle(spec, Around(path)), spec.components[index].members, 3
  {
    hide Acyclic, Under, Around, ListSound, WellBuilt, InlineList;
    var component := spec.components[index];
    SoundListInlines(spec, path, component.members, InComponent(component.name), false);
  }

  // When a spec resolves.

  /** Every list is sound, and no message uses a tag twice with the header and the trailer around it. */
  predicate ListsSound(spec: Spec) {
    && ComponentsSound(spec) && ListSound(spec, {}, spec.header) && ListSound(spec, {}, spec.trailer)
    && forall i :: 0 <= i < |spec.messages| ==> MessageSound(spec, spec.messages[i])
  }

  predicate MessageSound(spec: Spec, message: Message) {
    ListSound(spec, {}, message.members)
    && Distinct(UsedTagsEach(spec, {}, spec.header) + UsedTagsEach(spec, {}, message.members) + UsedTagsEach(spec, {}, spec.trailer))
  }

  lemma ComponentsAreSound(spec: Spec)
    requires CheckComponents(spec, 0) == None
    ensures ComponentsSound(spec)
  {
    hide ListSound;
    forall i | 0 <= i < |spec.components| ensures ListSound(spec, {}, spec.components[i].members) {
      CheckedComponents(spec, 0, i);
      ComponentIsSound(spec, {i}, i);
      var component := spec.components[i];
      FewerAroundList(spec, {i}, {}, component.members, InComponent(component.name), false);
    }
  }

  lemma {:induction false} SoundComponentsCheck(spec: Spec, from: nat)
    requires Acyclic(spec) && ComponentsSound(spec)
    ensures CheckComponents(spec, from) == None
    decreases |spec.components| - from
  {
    hide Acyclic, ComponentsSound, InlineComponent;
    if from < |spec.components| {
      OneInChain(spec, from);
      SoundComponentInlines(spec, [from], from);
      SoundComponentsCheck(spec, from + 1);
    }
  }

  lemma OneInChain(spec: Spec, index: nat)
    requires index < |spec.components|
    ensures Under(spec, [index], spec.components[index].members) && Around([index]) == {index}
  {
  }

  lemma SoundSectionInlines(spec: Spec, members: seq<Member>, context: MemberContext)
    requires Acyclic(spec) && ComponentsSound(spec) && ListSound(spec, {}, members)
    ensures InlineList(spec, {}, members, context, false).Ok?
    ensures TagsOf(InlineList(spec, {}, members, context, false).value, spec.fields) == UsedTagsEach(spec, {}, members)
  {
    hide Acyclic, ComponentsSound, ListSound, InlineList;
    UnderNothing(spec, members);
    SoundListInlines(spec, [], members, context, false);
    ListIsSound(spec, {}, members, context, false);
  }

  /** A message resolves exactly when it is sound, once header and trailer have. */
  lemma MessageResolvesExactly(spec: Spec, message: Message, header: seq<ResolvedMember>, trailer: seq<ResolvedMember>)
    requires Acyclic(spec) && ComponentsSound(spec) && WellBuilt(header, spec.fields) && WellBuilt(trailer, spec.fields)
    requires TagsOf(header, spec.fields) == UsedTagsEach(spec, {}, spec.header)
    requires TagsOf(trailer, spec.fields) == UsedTagsEach(spec, {}, spec.trailer)
    ensures InlineMessage(spec, message, header, trailer).Ok? <==> MessageSound(spec, message)
  {
    hide Acyclic, ComponentsSound, ListSound, InlineList, InlineMessage, TagsOf, WellBuilt, Distinct;
    var context := InMessage(message.name);
    MessageTagsAreDistinct(spec, message, header, trailer);
    if ListSound(spec, {}, message.members) { SoundSectionInlines(spec, message.members, context); }
    if InlineList(spec, {}, message.members, context, false).Ok? { ListIsSound(spec, {}, message.members, context, false); }
  }

  lemma {:induction false} MessagesResolveExactly(spec: Spec, messages: seq<Message>, header: seq<ResolvedMember>, trailer: seq<ResolvedMember>)
    requires Acyclic(spec) && ComponentsSound(spec) && WellBuilt(header, spec.fields) && WellBuilt(trailer, spec.fields)
    requires TagsOf(header, spec.fields) == UsedTagsEach(spec, {}, spec.header)
    requires TagsOf(trailer, spec.fields) == UsedTagsEach(spec, {}, spec.trailer)
    ensures InlineMessages(spec, messages, header, trailer).Ok? <==>
            forall i :: 0 <= i < |messages| ==> MessageSound(spec, messages[i])
    decreases |messages|
  {
    hide Acyclic, ComponentsSound, MessageSound, InlineMessage, TagsOf, WellBuilt;
    if messages != [] {
      MessageResolvesExactly(spec, messages[0], header, trailer);
      MessagesResolveExactly(spec, messages[1..], header, trailer);
      assert forall i :: 0 < i < |messages| ==> messages[i] == messages[1..][i - 1];
    }
  }

  /**
   * A spec resolves exactly when its definitions pass the checks, no components refer to each other
   * in a cycle, and every list is sound: what its members name is defined, its data fields have length
   * tags, its groups bring a tag each, and no tag is used twice.
   */
  lemma ResolvesExactly(spec: Spec)
    ensures InlineSpec(spec).Ok? <==> SpecProblem(spec) == None && Acyclic(spec) && ListsSound(spec)
  {
    hide SpecProblem, CheckComponents, Cycle, ComponentsSound, ListSound, MessageSound, InlineList, InlineMessages, TagsOf, WellBuilt;
    if InlineSpec(spec).Ok? {
      forall path ensures !Cycle(spec, path) { ResolvedComponentsAreAcyclic(spec, path); }
      ComponentsAreSound(spec);
      SectionsDecide(spec);
    }
    if SpecProblem(spec) == None && Acyclic(spec) && ListsSound(spec) {
      SoundComponentsCheck(spec, 0);
      SoundSectionInlines(spec, spec.header, InHeader);
      SoundSectionInlines(spec, spec.trailer, InTrailer);
      SectionsDecide(spec);
    }
  }

  /** Once header and trailer have inlined, the messages decide. */
  lemma SectionsDecide(spec: Spec)
    requires Acyclic(spec) && ComponentsSound(spec)
    requires InlineList(spec, {}, spec.header, InHeader, false).Ok? && InlineList(spec, {}, spec.trailer, InTrailer, false).Ok?
    ensures ListSound(spec, {}, spec.header) && ListSound(spec, {}, spec.trailer)
    ensures InlineMessages(
              spec, spec.messages, InlineList(spec, {}, spec.header, InHeader, false).value,
              InlineList(spec, {}, spec.trailer, InTrailer, false).value).Ok?
       <==> forall i :: 0 <= i < |spec.messages| ==> MessageSound(spec, spec.messages[i])
  {
    hide Acyclic, ComponentsSound, ListSound, MessageSound, InlineList, InlineMessages, TagsOf, WellBuilt;
    ListIsSound(spec, {}, spec.header, InHeader, false);
    ListIsSound(spec, {}, spec.trailer, InTrailer, false);
    MessagesResolveExactly(
      spec, spec.messages, InlineList(spec, {}, spec.header, InHeader, false).value,
      InlineList(spec, {}, spec.trailer, InTrailer, false).value);
  }
}
