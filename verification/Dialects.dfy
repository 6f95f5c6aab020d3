/** The length tags a generated dialect gives its tokenizer, and why they are all it needs. */
module Dialects {
  import opened Wrappers
  import opened Sequences
  import opened Tags
  import opened Dictionary
  import opened SpecChecks
  import opened Resolution

  function GivenLengthTags(fields: seq<FieldDef>): (r: seq<Tag>) {
    if fields == [] then []
    else (if fields[0].lengthTag.Some? then [fields[0].lengthTag.value] else []) + GivenLengthTags(fields[1..])
  }

  /** Every length tag a field gives, sorted. Nothing here removes repeats. */
  function LengthTags(fields: seq<FieldDef>): (r: seq<Tag>) {
    Sort(GivenLengthTags(fields))
  }

  lemma {:induction false} GivenLengthTagsAre(fields: seq<FieldDef>, tag: Tag)
    ensures tag in GivenLengthTags(fields) <==> exists f :: f in fields && f.lengthTag == Some(tag)
  {
    if fields != [] {
      GivenLengthTagsAre(fields[1..], tag);
      if f :| f in fields && f.lengthTag == Some(tag) { assert f == fields[0] || f in fields[1..]; }
    }
  }

  lemma {:induction false} OwnLengthsAreDistinct(fields: seq<FieldDef>)
    requires forall i, j :: 0 <= i < j < |fields| && fields[i].lengthTag.Some? ==> fields[i].lengthTag != fields[j].lengthTag
    ensures Distinct(GivenLengthTags(fields))
  {
    if fields != [] {
      var rest := fields[1..];
      assert forall i :: 0 <= i < |rest| ==> rest[i] == fields[i + 1];
      OwnLengthsAreDistinct(rest);
      if fields[0].lengthTag.Some? {
        GivenLengthTagsAre(rest, fields[0].lengthTag.value);
        assert fields[0].lengthTag.value !in GivenLengthTags(rest);
      }
    }
  }

  /** At any depth, a data field has a length tag. */
  predicate LengthsGiven(members: seq<ResolvedMember>, fields: seq<FieldDef>) {
    forall m :: m in members ==> MemberLengthsGiven(m, fields)
  }

  predicate MemberLengthsGiven(member: ResolvedMember, fields: seq<FieldDef>) {
    match member
    case Field(index, _) => index < |fields| && (HasLengthField(fields[index].dataType) ==> fields[index].lengthTag.Some?)
    case Group(_, _, _, _, _, members) => LengthsGiven(members, fields)
  }

  lemma SplicedLengthsGiven(expansion: seq<ResolvedMember>, isRequired: bool, fields: seq<FieldDef>)
    requires LengthsGiven(expansion, fields)
    ensures LengthsGiven(Spliced(expansion, isRequired), fields)
  {
    forall m | m in Spliced(expansion, isRequired) ensures MemberLengthsGiven(m, fields) {
      var i :| 0 <= i < |expansion| && m == CombineRequired(expansion[i], isRequired);
      assert expansion[i] in expansion && MemberLengthsGiven(expansion[i], fields);
    }
  }

  lemma {:induction false} InlinedLengthsGiven(spec: Spec, active: set<nat>, member: Member, context: MemberContext, first: bool)
    requires Inline(spec, active, member, context, first).Ok?
    ensures LengthsGiven(Inline(spec, active, member, context, first).value, spec.fields)
    decreases Idle(spec, active), member, 0
  {
    match member
    case FieldRef(_, _) =>
    case ComponentRef(name, isRequired) =>
      var child := ComponentIndex(spec.components, name).value;
      assert child in Idle(spec, active) && child !in Idle(spec, active + {child});
      ComponentLengthsGiven(spec, active + {child}, child);
      SplicedLengthsGiven(InlineComponent(spec, active + {child}, child).value, isRequired || first, spec.fields);
    case GroupDecl(countTag, _, members) =>
      var countIndex := FieldIndexIn(spec, countTag, context).value;
      ListLengthsGiven(spec, active, members, InGroup(spec.fields[countIndex].name, context), true);
  }

  lemma {:induction false} EachLengthsGiven(spec: Spec, active: set<nat>, members: seq<Member>, context: MemberContext, first: bool)
    requires InlineEach(spec, active, members, context, first).Ok?
    ensures LengthsGiven(InlineEach(spec, active, members, context, first).value, spec.fields)
    decreases Idle(spec, active), members, 1
  {
    if members != [] {
      InlinedLengthsGiven(spec, active, members[0], context, first);
      EachLengthsGiven(spec, active, members[1..], context, false);
    }
  }

  /** In a resolved list every data field, at any depth, has a length tag. */
  lemma {:induction false} ListLengthsGiven(spec: Spec, active: set<nat>, members: seq<Member>, context: MemberContext, isInstance: bool)
    requires InlineList(spec, active, members, context, isInstance).Ok?
    ensures LengthsGiven(InlineList(spec, active, members, context, isInstance).value, spec.fields)
    decreases Idle(spec, active), members, 2
  {
    EachLengthsGiven(spec, active, members, context, isInstance);
    var inlined := InlineEach(spec, active, members, context, isInstance).value;
    if inlined != [] { assert inlined[0] in inlined && MemberLengthsGiven(inlined[0], spec.fields); }
  }

  lemma {:induction false} ComponentLengthsGiven(spec: Spec, active: set<nat>, index: nat)
    requires index < |spec.components| && InlineComponent(spec, active, index).Ok?
    ensures LengthsGiven(InlineComponent(spec, active, index).value, spec.fields)
    decreases Idle(spec, active), spec.components[index].members, 3
  {
    var component := spec.components[index];
    var members := InlineList(spec, active, component.members, InComponent(component.name), false);
    ListLengthsGiven(spec, active, component.members, InComponent(component.name), false);
    if members.value != [] { assert members.value[0] in members.value && MemberLengthsGiven(members.value[0], spec.fields); }
  }

  lemma {:induction false} MessagesLengthsGiven(spec: Spec, messages: seq<Message>, header: seq<ResolvedMember>, trailer: seq<ResolvedMember>)
    requires WellBuilt(header, spec.fields) && WellBuilt(trailer, spec.fields)
    requires InlineMessages(spec, messages, header, trailer).Ok?
    ensures forall m :: m in InlineMessages(spec, messages, header, trailer).value ==> LengthsGiven(m, spec.fields)
    decreases messages
  {
    if messages != [] {
      ListLengthsGiven(spec, {}, messages[0].members, InMessage(messages[0].name), false);
      MessagesLengthsGiven(spec, messages[1..], header, trailer);
    }
  }

  /**
   * The length tags of a resolved dictionary are a sorted set of LENGTH fields' tags, and each
   * data field of its header, messages and trailer, at any depth, gives one of them, its own.
   */
  lemma ResolvedLengthsAreKnown(spec: Spec)
    requires InlineSpec(spec).Ok?
    ensures var resolved, fields := InlineSpec(spec).value, spec.fields;
            && LengthsGiven(resolved.header, fields) && LengthsGiven(resolved.trailer, fields)
            && forall m :: m in resolved.messages ==> LengthsGiven(m, fields)
    ensures IsSortedSet(LengthTags(spec.fields)) && LengthsAreOwn(spec.fields)
    ensures forall t :: t in LengthTags(spec.fields) <==> exists f :: f in spec.fields && f.lengthTag == Some(t)
  {
    var resolved := InlineSpec(spec).value;
    ListLengthsGiven(spec, {}, spec.header, InHeader, false);
    ListLengthsGiven(spec, {}, spec.trailer, InTrailer, false);
    MessagesLengthsGiven(spec, spec.messages, resolved.header, resolved.trailer);
    hide LengthsGiven, SpecProblem, InlineList, InlineMessages, CheckComponents;
    ChecksPassExactly(spec);
    OwnLengthsAreDistinct(spec.fields);
    SortOfDistinctIsSortedSet(GivenLengthTags(spec.fields));
    forall t ensures t in LengthTags(spec.fields) <==> exists f :: f in spec.fields && f.lengthTag == Some(t) {
      SortKeepsMembers(GivenLengthTags(spec.fields), t);
      GivenLengthTagsAre(spec.fields, t);
    }
  }
}
