/**
 * Resolving a spec by direct inlining: each component reference is replaced by its members,
 * expanded anew at every use, and a reference to a component being expanded is an error.
 */
module Resolution {
  import opened Wrappers
  import opened Tags
  import opened Dictionary
  import opened SpecChecks

  function FieldIndexIn(spec: Spec, tag: Tag, context: MemberContext): (r: Result<nat, Error>)
    ensures r.Ok? ==> r.value < |spec.fields| && spec.fields[r.value].tag == tag
  {
    match FieldIndex(spec.fields, tag)
    case Some(index) => Ok(index)
    case None => Err(UnknownField(tag, context))
  }

  function ResolveFieldRef(spec: Spec, tag: Tag, isRequired: bool, context: MemberContext): (r: Result<ResolvedMember, Error>) {
    var index :- FieldIndexIn(spec, tag, context);
    var field := spec.fields[index];
    if HasLengthField(field.dataType) && field.lengthTag.None? then Err(MissingLengthTag(field.name, context))
    else Ok(Field(index, isRequired))
  }

  /** Makes a member required in its scope. */
  function Require(member: ResolvedMember): ResolvedMember {
    member.(isRequired := true)
  }

  /** Keeps a member required only if `isRequired` holds as well. */
  function CombineRequired(member: ResolvedMember, isRequired: bool): ResolvedMember {
    member.(isRequired := member.isRequired && isRequired)
  }

  /** An expansion spliced into a scope by a reference of requiredness `isRequired`. */
  function Spliced(expansion: seq<ResolvedMember>, isRequired: bool): (r: seq<ResolvedMember>)
    ensures |r| == |expansion|
  {
    seq(|expansion|, i requires 0 <= i < |expansion| => CombineRequired(expansion[i], isRequired))
  }

  /** The first member of a group instance is required whatever it declares. */
  function RequireFirst(members: seq<ResolvedMember>): (r: seq<ResolvedMember>) {
    if members == [] then [] else members[0 := Require(members[0])]
  }

  /** At any depth, field indices are fields' and a group's delimiter is what its first member starts with. */
  predicate WellBuilt(members: seq<ResolvedMember>, fields: seq<FieldDef>) {
    forall m :: m in members ==> MemberWellBuilt(m, fields)
  }

  predicate MemberWellBuilt(member: ResolvedMember, fields: seq<FieldDef>) {
    && FirstField(member) < |fields|
    && (member.Group? ==>
          && member.members != [] && WellBuilt(member.members, fields)
          && member.delimiterIndex == FirstField(member.members[0]))
  }

  /** Records where each tag appears, descending into group instances. */
  function InsertUniqueTags(members: seq<ResolvedMember>, context: MemberContext, fields: seq<FieldDef>, seen: map<Tag, MemberContext>)
    : (r: Result<map<Tag, MemberContext>, Error>)
    requires WellBuilt(members, fields)
    decreases members
  {
    if members == [] then Ok(seen)
    else
      var member := members[0];
      assert member in members && MemberWellBuilt(member, fields);
      var tag := fields[FirstField(member)].tag;
      if tag in seen then Err(DuplicateField(tag, seen[tag], context))
      else
        var seen' := seen[tag := context];
        var seen'' :-
          if member.Group?
          then InsertUniqueTags(member.members, InGroup(fields[member.countIndex].name, context), fields, seen')
          else Ok(seen');
        InsertUniqueTags(members[1..], context, fields, seen'')
  }

  function CheckUniqueTags(members: seq<ResolvedMember>, context: MemberContext, fields: seq<FieldDef>): (r: Option<Error>)
    requires WellBuilt(members, fields)
  {
    match InsertUniqueTags(members, context, fields, map[])
    case Ok(_) => None
    case Err(error) => Some(error)
  }

  /** Components not being expanded: what is left for an expansion to descend into. */
  function Idle(spec: Spec, active: set<nat>): (r: set<nat>) {
    Below(|spec.components|) - active
  }

  function Below(n: nat): (r: set<nat>)
    ensures forall i: nat :: i in r <==> i < n
  {
    if n == 0 then {} else Below(n - 1) + {n - 1}
  }

  /** A component's own group is named after it when it is the only member. */
  function NameSoleGroup(component: Component, members: seq<ResolvedMember>): (r: seq<ResolvedMember>) {
    if |component.members| == 1 && component.members[0].GroupDecl? && |members| == 1 && members[0].Group?
    then [members[0].(component := Some(component.name))]
    else members
  }

  lemma SplicedWellBuilt(expansion: seq<ResolvedMember>, isRequired: bool, fields: seq<FieldDef>)
    requires WellBuilt(expansion, fields)
    ensures WellBuilt(Spliced(expansion, isRequired), fields)
  {
    forall m | m in Spliced(expansion, isRequired)
      ensures MemberWellBuilt(m, fields)
    {
      var i :| 0 <= i < |expansion| && m == CombineRequired(expansion[i], isRequired);
      assert expansion[i] in expansion && MemberWellBuilt(expansion[i], fields);
    }
  }

  /** One member, its component references expanded in place. */
  function Inline(spec: Spec, active: set<nat>, member: Member, context: MemberContext, first: bool)
    : (r: Result<seq<ResolvedMember>, Error>)
    ensures r.Ok? ==> WellBuilt(r.value, spec.fields)
    decreases Idle(spec, active), member, 0
  {
    match member
    case FieldRef(tag, isRequired) =>
      var field :- ResolveFieldRef(spec, tag, isRequired, context);
      Ok([field])
    case ComponentRef(name, isRequired) =>
      (match ComponentIndex(spec.components, name)
       case None => Err(UnknownComponent(name, context))
       case Some(child) =>
         if child in active then Err(CircularComponent(spec.components[child].name))
         else
           assert child in Idle(spec, active) && child !in Idle(spec, active + {child});
           var expansion :- InlineComponent(spec, active + {child}, child);
           SplicedWellBuilt(expansion, isRequired || first, spec.fields);
           Ok(Spliced(expansion, isRequired || first)))
    case GroupDecl(countTag, isRequired, members) =>
      var countIndex :- FieldIndexIn(spec, countTag, context);
      var instance := InGroup(spec.fields[countIndex].name, context);
      var inlined :- InlineList(spec, active, members, instance, true);
      if inlined == [] then Err(EmptyGroup(instance))
      else
        assert inlined[0] in inlined && MemberWellBuilt(inlined[0], spec.fields);
        Ok([Group(countIndex, FirstField(inlined[0]), isRequired, context, None, inlined)])
  }

  function InlineEach(spec: Spec, active: set<nat>, members: seq<Member>, context: MemberContext, first: bool)
    : (r: Result<seq<ResolvedMember>, Error>)
    ensures r.Ok? ==> WellBuilt(r.value, spec.fields)
    decreases Idle(spec, active), members, 1
  {
    if members == [] then Ok([])
    else
      var head :- Inline(spec, active, members[0], context, first);
      var rest :- InlineEach(spec, active, members[1..], context, false);
      Ok(head + rest)
  }

  /** One member list, with no tag twice in it. `isInstance` holds for a group's instances. */
  function InlineList(spec: Spec, active: set<nat>, members: seq<Member>, context: MemberContext, isInstance: bool)
    : (r: Result<seq<ResolvedMember>, Error>)
    ensures r.Ok? ==> WellBuilt(r.value, spec.fields)
    decreases Idle(spec, active), members, 2
  {
    var inlined :- InlineEach(spec, active, members, context, isInstance);
    FinishList(spec, inlined, context, isInstance)
  }

  /** The checks and the first-member rule that close a member list. */
  function FinishList(spec: Spec, inlined: seq<ResolvedMember>, context: MemberContext, isInstance: bool)
    : (r: Result<seq<ResolvedMember>, Error>)
    requires WellBuilt(inlined, spec.fields)
    ensures r.Ok? ==> WellBuilt(r.value, spec.fields)
  {
    var members := if isInstance then RequireFirst(inlined) else inlined;
    assert inlined != [] ==> inlined[0] in inlined && MemberWellBuilt(inlined[0], spec.fields);
    match CheckUniqueTags(members, context, spec.fields)
    case Some(error) => Err(error)
    case None => Ok(members)
  }

  /** A component's members, `active` holding it and the components around it. */
  function InlineComponent(spec: Spec, active: set<nat>, index: nat): (r: Result<seq<ResolvedMember>, Error>)
    requires index < |spec.components|
    ensures r.Ok? ==> WellBuilt(r.value, spec.fields)
    decreases Idle(spec, active), spec.components[index].members, 3
  {
    var component := spec.components[index];
    var members :- InlineList(spec, active, component.members, InComponent(component.name), false);
    assert members != [] ==> members[0] in members && MemberWellBuilt(members[0], spec.fields);
    Ok(NameSoleGroup(component, members))
  }

  /** A message's members, once no tag of the header, the message and the trailer repeats. */
  function InlineMessage(spec: Spec, message: Message, header: seq<ResolvedMember>, trailer: seq<ResolvedMember>)
    : (r: Result<seq<ResolvedMember>, Error>)
    requires WellBuilt(header, spec.fields) && WellBuilt(trailer, spec.fields)
    ensures r.Ok? ==> WellBuilt(r.value, spec.fields)
  {
    var context := InMessage(message.name);
    var members :- InlineList(spec, {}, message.members, context, false);
    var seen :- InsertUniqueTags(header, InHeader, spec.fields, map[]);
    var seen' :- InsertUniqueTags(members, context, spec.fields, seen);
    var _ :- InsertUniqueTags(trailer, InTrailer, spec.fields, seen');
    Ok(members)
  }

  function InlineMessages(spec: Spec, messages: seq<Message>, header: seq<ResolvedMember>, trailer: seq<ResolvedMember>)
    : (r: Result<seq<seq<ResolvedMember>>, Error>)
    requires WellBuilt(header, spec.fields) && WellBuilt(trailer, spec.fields)
  {
    if messages == [] then Ok([])
    else
      var head :- InlineMessage(spec, messages[0], header, trailer);
      var rest :- InlineMessages(spec, messages[1..], header, trailer);
      Ok([head] + rest)
  }

  /** The first error in expanding the components from `index` on. */
  function CheckComponents(spec: Spec, index: nat): (r: Option<Error>)
    decreases |spec.components| - index
  {
    if index >= |spec.components| then None
    else
      match InlineComponent(spec, {index}, index)
      case Err(error) => Some(error)
      case Ok(_) => CheckComponents(spec, index + 1)
  }

  /** The dictionary a spec resolves to, by direct inlining throughout. */
  function InlineSpec(spec: Spec): (r: Result<Resolved, Error>) {
    match SpecProblem(spec)
    case Some(error) => Err(error)
    case None =>
      match CheckComponents(spec, 0)
      case Some(error) => Err(error)
      case None =>
        var header :- InlineList(spec, {}, spec.header, InHeader, false);
        var trailer :- InlineList(spec, {}, spec.trailer, InTrailer, false);
        var messages :- InlineMessages(spec, spec.messages, header, trailer);
        Ok(Resolved(header, messages, trailer))
  }
}
