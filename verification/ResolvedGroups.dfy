/** Where the groups of a resolved dictionary come from. */
module ResolvedGroups {
  import opened Wrappers
  import opened Sequences
  import opened Dictionary
  import opened SpecChecks
  import opened Resolution
  import opened ResolutionLaws
  import opened Resolvability
  import opened GroupLaws
  import opened Tables

  /** `members` is the list declared at `context`. */
  ghost predicate ListAt(spec: Spec, context: MemberContext, members: seq<Member>) {
    match context
    case InHeader => members == spec.header
    case InTrailer => members == spec.trailer
    case InMessage(name) => exists m :: m in spec.messages && m.name == name && m.members == members
    case InComponent(name) => exists c :: c in spec.components && c.name == name && c.members == members
    case InGroup(name, parent) =>
      exists outer, group :: ListAt(spec, parent, outer) && GroupNamed(spec, outer, group, name) && group.members == members
  }

  /** A group of the list whose count field has that name. */
  predicate GroupNamed(spec: Spec, outer: seq<Member>, group: Member, name: string) {
    && group in outer && group.GroupDecl?
    && var field := FieldIndex(spec.fields, group.countTag);
    field.Some? && spec.fields[field.value].name == name
  }

  lemma GroupListAt(spec: Spec, list: seq<Member>, group: Member, context: MemberContext)
    requires group.GroupDecl? && FieldIndex(spec.fields, group.countTag).Some? && ListAt(spec, context, list) && group in list
    ensures ListAt(spec, InGroup(spec.fields[FieldIndex(spec.fields, group.countTag).value].name, context), group.members)
  {
    assert GroupNamed(spec, list, group, spec.fields[FieldIndex(spec.fields, group.countTag).value].name);
  }

  /** The group has the declaration's count field, its members' tags, each once, and the first of these as delimiter. */
  predicate Reads(spec: Spec, decl: Member, group: ResolvedMember) {
    && decl.GroupDecl? && group.Group? && MemberWellBuilt(group, spec.fields)
    && FieldIndex(spec.fields, decl.countTag) == Some(group.countIndex)
    && var tags := UsedTagsEach(spec, {}, decl.members);
    && TagsOf(group.members, spec.fields) == tags && Distinct(tags)
    && tags != [] && group.delimiterIndex < |spec.fields| && spec.fields[group.delimiterIndex].tag == tags[0]
  }

  ghost predicate FromList(spec: Spec, group: ResolvedMember, context: MemberContext, list: seq<Member>, component: Option<string>) {
    group.Group? && group.declaredIn == context && group.component == component && exists decl :: decl in list && Reads(spec, decl, group)
  }

  /** A group that a component declares and nothing else bears the component's name. */
  function NameIn(context: MemberContext, list: seq<Member>): Option<string> {
    if context.InComponent? && |list| == 1 then Some(context.component) else None
  }

  ghost predicate HasOrigin(spec: Spec, group: ResolvedMember) {
    exists context, list :: ListAt(spec, context, list) && FromList(spec, group, context, list, NameIn(context, list))
  }

  /** Every group, at any depth, reads a group declared in the list it says it is declared in, and is named as that list says. */
  ghost predicate HaveOrigins(spec: Spec, members: seq<ResolvedMember>) {
    forall m :: m in members ==> OneHasOrigins(spec, m)
  }

  ghost predicate OneHasOrigins(spec: Spec, member: ResolvedMember) {
    member.Group? ==> HasOrigin(spec, member) && HaveOrigins(spec, member.members)
  }

  predicate OnlyGroups(list: seq<Member>) {
    forall x :: x in list ==> x.GroupDecl?
  }

  /** So too before the component names its sole group. */
  ghost predicate MayLackName(spec: Spec, member: ResolvedMember, context: MemberContext, list: seq<Member>) {
    member.Group? ==>
      && HaveOrigins(spec, member.members)
      && (FromList(spec, member, context, list, None) || (HasOrigin(spec, member) && !OnlyGroups(list)))
  }

  function WithFlag(member: ResolvedMember, isRequired: bool): ResolvedMember {
    member.(isRequired := isRequired)
  }

  lemma FlagDoesNotMatter(spec: Spec, member: ResolvedMember, isRequired: bool, context: MemberContext, list: seq<Member>)
    ensures OneHasOrigins(spec, member) ==> OneHasOrigins(spec, WithFlag(member, isRequired))
    ensures MayLackName(spec, member, context, list) ==> MayLackName(spec, WithFlag(member, isRequired), context, list)
  {
    hide ListAt, HaveOrigins, Reads;
    forall context, list, component | FromList(spec, member, context, list, component)
      ensures FromList(spec, WithFlag(member, isRequired), context, list, component)
    {
      var decl :| decl in list && Reads(spec, decl, member);
      ReadsWithAnyFlag(spec, decl, member, isRequired);
    }
  }

  lemma ReadsWithAnyFlag(spec: Spec, decl: Member, group: ResolvedMember, isRequired: bool)
    requires Reads(spec, decl, group)
    ensures Reads(spec, decl, WithFlag(group, isRequired))
  {
  }

  /** What a member of a list inlines to has its origins, but for a name. */
  lemma {:induction false} InlinedOrigins(
    spec: Spec, active: set<nat>, list: seq<Member>, member: Member, context: MemberContext, first: bool)
    requires Inline(spec, active, member, context, first).Ok? && ListAt(spec, context, list) && member in list
    ensures forall m :: m in Inline(spec, active, member, context, first).value ==> MayLackName(spec, m, context, list)
    decreases Idle(spec, active), member, 0
  {
    hide ListAt, InlineList, HaveOrigins, FromList, HasOrigin;
    match member
    case FieldRef(_, _) =>
    case GroupDecl(countTag, _, members) =>
      var instance := InGroup(spec.fields[FieldIndexIn(spec, countTag, context).value].name, context);
      GroupListAt(spec, list, member, context);
      ListOrigins(spec, active, members, instance, true);
      InstanceHasOrigins(spec, InlineList(spec, active, members, instance, true).value, instance, members);
      GroupIsFromList(spec, active, list, member, context, first);
    case ComponentRef(name, isRequired) =>
      var child := ComponentIndex(spec.components, name).value;
      assert child in Idle(spec, active) && child !in Idle(spec, active + {child});
      ComponentOrigins(spec, active + {child}, child);
      SplicedOrigins(spec, InlineComponent(spec, active + {child}, child).value, isRequired || first);
  }

  lemma SplicedOrigins(spec: Spec, expansion: seq<ResolvedMember>, isRequired: bool)
    requires HaveOrigins(spec, expansion)
    ensures HaveOrigins(spec, Spliced(expansion, isRequired))
    ensures forall m :: m in Spliced(expansion, isRequired) && m.Group? ==> HasOrigin(spec, m) && HaveOrigins(spec, m.members)
  {
    hide OneHasOrigins;
    forall m | m in Spliced(expansion, isRequired) ensures OneHasOrigins(spec, m) {
      var i :| 0 <= i < |expansion| && m == CombineRequired(expansion[i], isRequired);
      FlagDoesNotMatter(spec, expansion[i], expansion[i].isRequired && isRequired, InHeader, []);
    }
    OriginsOfEach(spec, Spliced(expansion, isRequired));
  }

  lemma OriginsOfEach(spec: Spec, members: seq<ResolvedMember>)
    requires HaveOrigins(spec, members)
    ensures forall m :: m in members && m.Group? ==> HasOrigin(spec, m) && HaveOrigins(spec, m.members)
  {
    hide HasOrigin;
  }

  lemma InstanceHasOrigins(spec: Spec, members: seq<ResolvedMember>, context: MemberContext, list: seq<Member>)
    requires (forall m :: m in members ==> MayLackName(spec, m, context, list)) && ListAt(spec, context, list) && !context.InComponent?
    ensures HaveOrigins(spec, members)
  {
    hide ListAt, FromList;
    forall m | m in members ensures OneHasOrigins(spec, m) {
      assert MayLackName(spec, m, context, list);
      assert NameIn(context, list) == None;
    }
  }

  lemma GroupIsFromList(spec: Spec, active: set<nat>, list: seq<Member>, decl: Member, context: MemberContext, first: bool)
    requires decl.GroupDecl? && decl in list && Inline(spec, active, decl, context, first).Ok?
    ensures FromList(spec, Inline(spec, active, decl, context, first).value[0], context, list, None)
  {
    hide InlineList, TagsOf, UsedTagsEach, WellBuilt, Distinct, EachSound;
    var group := Inline(spec, active, decl, context, first).value[0];
    var instance := InGroup(spec.fields[group.countIndex].name, context);
    ListIsSound(spec, active, decl.members, instance, true);
    FewerAroundList(spec, active, {}, decl.members, instance, true);
    assert group in Inline(spec, active, decl, context, first).value;
    DelimiterIsFirst(group, spec.fields);
    assert Reads(spec, decl, group);
  }

  lemma DelimiterIsFirst(group: ResolvedMember, fields: seq<FieldDef>)
    requires group.Group? && MemberWellBuilt(group, fields)
    ensures group.delimiterIndex < |fields|
    ensures TagsOf(group.members, fields) != [] && TagsOf(group.members, fields)[0] == fields[group.delimiterIndex].tag
  {
    FirstIsWellBuilt(group.members, fields);
  }

  lemma {:induction false} EachOrigins(
    spec: Spec, active: set<nat>, list: seq<Member>, members: seq<Member>, context: MemberContext, first: bool)
    requires InlineEach(spec, active, members, context, first).Ok? && ListAt(spec, context, list) && forall m :: m in members ==> m in list
    ensures forall m :: m in InlineEach(spec, active, members, context, first).value ==> MayLackName(spec, m, context, list)
    decreases Idle(spec, active), members, 1
  {
    hide ListAt, MayLackName;
    if members != [] {
      InlinedOrigins(spec, active, list, members[0], context, first);
      EachOrigins(spec, active, list, members[1..], context, false);
    }
  }

  lemma {:induction false} ListOrigins(spec: Spec, active: set<nat>, list: seq<Member>, context: MemberContext, isInstance: bool)
    requires InlineList(spec, active, list, context, isInstance).Ok? && ListAt(spec, context, list)
    ensures forall m :: m in InlineList(spec, active, list, context, isInstance).value ==> MayLackName(spec, m, context, list)
    decreases Idle(spec, active), list, 2
  {
    hide ListAt, MayLackName, InsertUniqueTags;
    EachOrigins(spec, active, list, list, context, isInstance);
    var inlined := InlineEach(spec, active, list, context, isInstance).value;
    if inlined != [] { FlagDoesNotMatter(spec, inlined[0], true, context, list); }
  }

  lemma {:induction false} ComponentOrigins(spec: Spec, active: set<nat>, index: nat)
    requires index < |spec.components| && InlineComponent(spec, active, index).Ok?
    ensures HaveOrigins(spec, InlineComponent(spec, active, index).value)
    decreases Idle(spec, active), spec.components[index].members, 3
  {
    hide MayLackName, InlineList, NameSoleGroup, HaveOrigins;
    var component := spec.components[index];
    assert component in spec.components && ListAt(spec, InComponent(component.name), component.members);
    ListOrigins(spec, active, component.members, InComponent(component.name), false);
    SoleGroup(spec, active, component.members, InComponent(component.name));
    NamingGivesOrigins(spec, component, InlineList(spec, active, component.members, InComponent(component.name), false).value);
  }

  /** A list of one group inlines to one group. */
  lemma SoleGroup(spec: Spec, active: set<nat>, list: seq<Member>, context: MemberContext)
    requires InlineList(spec, active, list, context, false).Ok?
    ensures var r := InlineList(spec, active, list, context, false).value;
            |list| == 1 && list[0].GroupDecl? ==> |r| == 1 && r[0].Group?
  {
    hide InsertUniqueTags, InlineList;
    if |list| == 1 && list[0].GroupDecl? {
      assert list[1..] == [];
      assert InlineEach(spec, active, list[1..], context, false) == Ok([]);
      ListIsEach(spec, active, list, context);
    }
  }

  lemma ListIsEach(spec: Spec, active: set<nat>, list: seq<Member>, context: MemberContext)
    requires InlineList(spec, active, list, context, false).Ok?
    ensures InlineEach(spec, active, list, context, false) == InlineList(spec, active, list, context, false)
  {
    hide InsertUniqueTags;
  }

  lemma NamingGivesOrigins(spec: Spec, component: Component, members: seq<ResolvedMember>)
    requires forall m :: m in members ==> MayLackName(spec, m, InComponent(component.name), component.members)
    requires ListAt(spec, InComponent(component.name), component.members)
    requires |component.members| == 1 && component.members[0].GroupDecl? ==> |members| == 1 && members[0].Group?
    ensures HaveOrigins(spec, NameSoleGroup(component, members))
  {
    hide ListAt, Reads;
    var context, list := InComponent(component.name), component.members;
    if |list| == 1 && list[0].GroupDecl? {
      assert members[0] in members;
      NamedHasOrigins(spec, context, list, members[0]);
    } else {
      forall m | m in members ensures OneHasOrigins(spec, m) {
        UnnamedHasOrigins(spec, context, list, m);
      }
    }
  }

  lemma NamedHasOrigins(spec: Spec, context: MemberContext, list: seq<Member>, member: ResolvedMember)
    requires context.InComponent? && |list| == 1 && list[0].GroupDecl? && ListAt(spec, context, list)
    requires member.Group? && MayLackName(spec, member, context, list)
    ensures OneHasOrigins(spec, member.(component := Some(context.component)))
  {
    hide ListAt, HaveOrigins;
    assert OnlyGroups(list);
    assert NameIn(context, list) == Some(context.component);
    assert FromList(spec, member.(component := Some(context.component)), context, list, Some(context.component)) by {
      var decl :| decl in list && Reads(spec, decl, member);
      ReadsWithAnyName(spec, decl, member, Some(context.component));
    }
  }

  lemma ReadsWithAnyName(spec: Spec, decl: Member, group: ResolvedMember, component: Option<string>)
    requires Reads(spec, decl, group)
    ensures Reads(spec, decl, group.(component := component))
  {
  }

  lemma UnnamedHasOrigins(spec: Spec, context: MemberContext, list: seq<Member>, member: ResolvedMember)
    requires MayLackName(spec, member, context, list) && ListAt(spec, context, list) && !(|list| == 1 && list[0].GroupDecl?)
    ensures OneHasOrigins(spec, member)
  {
    hide ListAt, HaveOrigins;
    if |list| == 1 {
      assert forall decl :: decl in list ==> decl == list[0];
    } else {
      assert NameIn(context, list) == None;
    }
  }

  lemma SectionOrigins(spec: Spec, list: seq<Member>, context: MemberContext)
    requires InlineList(spec, {}, list, context, false).Ok? && ListAt(spec, context, list) && !context.InComponent?
    ensures HaveOrigins(spec, InlineList(spec, {}, list, context, false).value)
  {
    hide ListAt, InlineList;
    ListOrigins(spec, {}, list, context, false);
    InstanceHasOrigins(spec, InlineList(spec, {}, list, context, false).value, context, list);
  }

  /**
   * Every group of a resolved dictionary, at any depth, reads a group the spec declares where the
   * group says: with its count field, its members' tags in order and the first of them as delimiter,
   * and with a component's name exactly when that component declares nothing else.
   */
  lemma ResolvedGroupsAreDeclared(spec: Spec, i: nat)
    requires InlineSpec(spec).Ok? && i < |spec.messages|
    ensures var resolved := InlineSpec(spec).value;
            && |resolved.messages| == |spec.messages|
            && HaveOrigins(spec, resolved.header) && HaveOrigins(spec, resolved.messages[i]) && HaveOrigins(spec, resolved.trailer)
  {
    hide HaveOrigins, InlineList, SpecProblem, CheckComponents, InsertUniqueTags, WellBuilt, InlineMessages;
    var resolved, message := InlineSpec(spec).value, spec.messages[i];
    EachMessageResolves(spec, spec.messages, resolved.header, resolved.trailer, i);
    assert message in spec.messages && ListAt(spec, InMessage(message.name), message.members);
    assert ListAt(spec, InHeader, spec.header) && ListAt(spec, InTrailer, spec.trailer);
    SectionOrigins(spec, spec.header, InHeader);
    SectionOrigins(spec, message.members, InMessage(message.name));
    SectionOrigins(spec, spec.trailer, InTrailer);
  }

  /** So its table is counted by the declared tag, starts each instance at the first tag of the members, and holds their tags. */
  lemma TableReadsDeclaration(spec: Spec, decl: Member, group: ResolvedMember)
    requires Reads(spec, decl, group)
    ensures var table, tags := TableOf(group, spec.fields), UsedTagsEach(spec, {}, decl.members);
            table.countTag == decl.countTag && table.delimiter == tags[0] && TagsWithin(table) == SetOf(tags)
  {
    hide TableOf, TagsOf, Distinct, UsedTagsEach;
    TableIsSound(group, spec.fields);
    TableHeads(group, spec.fields);
  }

  lemma TableHeads(group: ResolvedMember, fields: seq<FieldDef>)
    requires group.Group? && MemberWellBuilt(group, fields) && group.delimiterIndex < |fields|
    ensures TableOf(group, fields).countTag == fields[group.countIndex].tag
    ensures TableOf(group, fields).delimiter == fields[group.delimiterIndex].tag
  {
    hide MemberTags, NestedTables;
  }
}
