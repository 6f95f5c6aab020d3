/** Each error of the resolver is true of the spec it is about. */
module ResolveErrors {
  import opened Wrappers
  import opened Bytes
  import opened Sequences
  import opened Tags
  import opened Dictionary
  import opened SpecChecks
  import opened Resolution
  import opened ResolutionLaws
  import opened Resolvability
  import opened Placements
  import opened ResolvedGroups

  predicate Names(member: Member, tag: Tag) {
    match member
    case FieldRef(t, _) => t == tag
    case GroupDecl(t, _, _) => t == tag
    case ComponentRef(_, _) => false
  }

  predicate IsDataWithoutLength(spec: Spec, member: Member, name: string) {
    && member.FieldRef?
    && var field := FieldIndex(spec.fields, member.tag);
    && field.Some? && spec.fields[field.value].name == name
    && HasLengthField(spec.fields[field.value].dataType) && spec.fields[field.value].lengthTag.None?
  }

  /** What an error about members says. */
  ghost predicate MemberErrorHolds(spec: Spec, error: Error) {
    match error
    case MissingLengthTag(field, context) =>
      exists list: seq<Member>, m: Member :: ListAt(spec, context, list) && m in list && IsDataWithoutLength(spec, m, field)
    case UnknownField(tag, context) =>
      FieldIndex(spec.fields, tag).None? && exists list: seq<Member>, m: Member :: ListAt(spec, context, list) && m in list && Names(m, tag)
    case UnknownComponent(name, context) =>
      ComponentIndex(spec.components, name).None?
      && exists list: seq<Member>, m: Member :: ListAt(spec, context, list) && m in list && m.ComponentRef? && m.name == name
    case EmptyGroup(context) =>
      context.InGroup? && exists list: seq<Member> :: ListAt(spec, context, list) && UsedTagsEach(spec, {}, list) == []
    case DuplicateField(tag, first, second) =>
      || (exists context, list :: ListAt(spec, context, list) && Repeats(UsedPlacesEach(spec, {}, list, context), tag, first, second))
      || (exists message :: message in spec.messages && Repeats(MessagePlaces(spec, message), tag, first, second))
    case CircularComponent(name) => exists cycle :: Cycle(spec, cycle) && spec.components[cycle[0]].name == name
    case _ => false
  }

  /** Where the tags of a message stand, with the header before and the trailer after. */
  function MessagePlaces(spec: Spec, message: Message): seq<Placed> {
    UsedPlacesEach(spec, {}, spec.header, InHeader)
    + UsedPlacesEach(spec, {}, message.members, InMessage(message.name))
    + UsedPlacesEach(spec, {}, spec.trailer, InTrailer)
  }

  /** What an error about definitions says. */
  predicate DefinitionErrorHolds(spec: Spec, error: Error) {
    match error
    case DuplicateTag(tag) => exists i, j :: 0 <= i < j < |spec.fields| && spec.fields[i].tag == tag == spec.fields[j].tag
    case NonIntegerValue(field, value) =>
      exists f :: f in spec.fields && f.name == field && IsIntBased(f.dataType) && value in f.values && !IsInteger(value)
    case RepeatedCode(field, first, second) => exists f :: f in spec.fields && f.name == field && ListsTwice(f, first, second)
    case DuplicateComponent(name) =>
      exists i, j :: 0 <= i < j < |spec.components| && spec.components[i].name == name == spec.components[j].name
    case DuplicateMsgType(msgType, first, second) =>
      exists i, j :: 0 <= i < j < |spec.messages|
                     && Declares(spec.messages[i], msgType, first) && Declares(spec.messages[j], msgType, second)
    case UnexpectedLengthTag(field, tag) => exists f :: f in spec.fields && GivesLength(f, field, tag) && !HasLengthField(f.dataType)
    case UnknownLengthTag(field, tag) =>
      FieldIndex(spec.fields, tag).None? && exists f :: f in spec.fields && GivesLength(f, field, tag) && HasLengthField(f.dataType)
    case NonLengthField(field, lengthField) =>
      exists f, l :: f in spec.fields && l in spec.fields && GivesLength(f, field, l.tag) && l.name == lengthField && !l.dataType.Length?
    case SharedLengthField(lengthField, first, second) =>
      exists i, j, l :: 0 <= i < j < |spec.fields| && l in spec.fields && l.name == lengthField
                        && GivesLength(spec.fields[i], first, l.tag) && GivesLength(spec.fields[j], second, l.tag)
    case _ => false
  }

  predicate ListsTwice(field: FieldDef, first: bytes, second: bytes) {
    exists i, j :: 0 <= i < j < |field.values|
                   && field.values[i] == first && field.values[j] == second && SameCode(field.dataType, first, second)
  }

  predicate Declares(message: Message, msgType: string, name: string) {
    message.msgType == msgType && message.name == name
  }

  predicate GivesLength(field: FieldDef, name: string, tag: Tag) {
    field.name == name && field.lengthTag == Some(tag)
  }

  // Errors about members.

  /** An error in inlining a member says what is true of the spec, but for a circularity. */
  lemma {:induction false} InlineErrorHolds(
    spec: Spec, active: set<nat>, list: seq<Member>, member: Member, context: MemberContext, first: bool)
    requires Inline(spec, active, member, context, first).Err? && ListAt(spec, context, list) && member in list
    ensures var error := Inline(spec, active, member, context, first).error;
            error.CircularComponent? || MemberErrorHolds(spec, error)
    decreases Idle(spec, active), member, 0
  {
    hide UsedTagsEach, InlineComponent, InlineList, ListAt, MemberErrorHolds;
    match member
    case FieldRef(tag, isRequired) => FieldErrorHolds(spec, list, member, context);
    case GroupDecl(countTag, _, members) =>
      var countIndex := FieldIndexIn(spec, countTag, context);
      if countIndex.Err? {
        UnknownHolds(spec, list, member, countTag, context);
      } else {
        var instance := InGroup(spec.fields[countIndex.value].name, context);
        GroupListAt(spec, list, member, context);
        if InlineList(spec, active, members, instance, true).Err? {
          ListErrorHolds(spec, active, members, instance, true);
        } else {
          EmptyHolds(spec, active, members, instance);
        }
      }
    case ComponentRef(name, _) =>
      var child := ComponentIndex(spec.components, name);
      if child.None? {
        UnknownComponentHolds(spec, list, member, context);
      } else if child.value !in active {
        assert child.value in Idle(spec, active) && child.value !in Idle(spec, active + {child.value});
        ComponentErrorHolds(spec, active + {child.value}, child.value);
      }
  }

  lemma FieldErrorHolds(spec: Spec, list: seq<Member>, member: Member, context: MemberContext)
    requires member.FieldRef? && ResolveFieldRef(spec, member.tag, member.isRequired, context).Err?
    requires ListAt(spec, context, list) && member in list
    ensures MemberErrorHolds(spec, ResolveFieldRef(spec, member.tag, member.isRequired, context).error)
  {
    hide ListAt, UsedTagsEach;
    var error := ResolveFieldRef(spec, member.tag, member.isRequired, context).error;
    if error.UnknownField? {
      assert Names(member, member.tag);
    } else {
      assert IsDataWithoutLength(spec, member, error.field);
    }
  }

  lemma UnknownHolds(spec: Spec, list: seq<Member>, member: Member, tag: Tag, context: MemberContext)
    requires FieldIndex(spec.fields, tag).None? && Names(member, tag) && ListAt(spec, context, list) && member in list
    ensures MemberErrorHolds(spec, UnknownField(tag, context))
  {
    hide ListAt;
  }

  lemma UnknownComponentHolds(spec: Spec, list: seq<Member>, member: Member, context: MemberContext)
    requires member.ComponentRef? && ComponentIndex(spec.components, member.name).None? && ListAt(spec, context, list) && member in list
    ensures MemberErrorHolds(spec, UnknownComponent(member.name, context))
  {
    hide ListAt;
  }

  lemma EmptyHolds(spec: Spec, active: set<nat>, members: seq<Member>, instance: MemberContext)
    requires InlineList(spec, active, members, instance, true) == Ok([]) && instance.InGroup? && ListAt(spec, instance, members)
    ensures MemberErrorHolds(spec, EmptyGroup(instance))
  {
    hide ListAt, InlineList;
    ListIsSound(spec, active, members, instance, true);
    FewerAroundList(spec, active, {}, members, instance, true);
    NoTagsNoMembers([], spec.fields);
  }

  lemma {:induction false} EachErrorHolds(
    spec: Spec, active: set<nat>, list: seq<Member>, members: seq<Member>, context: MemberContext, first: bool)
    requires InlineEach(spec, active, members, context, first).Err? && ListAt(spec, context, list)
    requires forall m :: m in members ==> m in list
    ensures var error := InlineEach(spec, active, members, context, first).error;
            error.CircularComponent? || MemberErrorHolds(spec, error)
    decreases Idle(spec, active), members, 1
  {
    hide ListAt, MemberErrorHolds;
    if Inline(spec, active, members[0], context, first).Err? {
      InlineErrorHolds(spec, active, list, members[0], context, first);
    } else {
      EachErrorHolds(spec, active, list, members[1..], context, false);
    }
  }

  lemma {:induction false} ListErrorHolds(spec: Spec, active: set<nat>, members: seq<Member>, context: MemberContext, isInstance: bool)
    requires InlineList(spec, active, members, context, isInstance).Err? && ListAt(spec, context, members)
    ensures var error := InlineList(spec, active, members, context, isInstance).error;
            error.CircularComponent? || MemberErrorHolds(spec, error)
    decreases Idle(spec, active), members, 2
  {
    hide ListAt, MemberErrorHolds, FinishList, PlacesOf, UsedPlacesEach;
    var inlined := InlineEach(spec, active, members, context, isInstance);
    if inlined.Err? {
      EachErrorHolds(spec, active, members, members, context, isInstance);
    } else {
      EachPlaces(spec, active, members, context, isInstance, context);
      SamePlacesEach(spec, active, {}, members, context, isInstance, context);
      FinishErrorHolds(spec, inlined.value, members, context, isInstance);
    }
  }

  lemma FinishErrorHolds(spec: Spec, inlined: seq<ResolvedMember>, members: seq<Member>, context: MemberContext, isInstance: bool)
    requires WellBuilt(inlined, spec.fields) && FinishList(spec, inlined, context, isInstance).Err?
    requires ListAt(spec, context, members) && PlacesOf(inlined, context, spec.fields) == UsedPlacesEach(spec, {}, members, context)
    ensures MemberErrorHolds(spec, FinishList(spec, inlined, context, isInstance).error)
  {
    hide ListAt, InsertUniqueTags, PlacesOf, UsedPlacesEach, WellBuilt, Repeats;
    PlacesOfRequired(inlined, context, spec.fields);
    var places := UsedPlacesEach(spec, {}, members, context);
    RecordingLocates(if isInstance then RequireFirst(inlined) else inlined, context, spec.fields, map[], []);
    assert [] + places == places;
  }

  lemma {:induction false} ComponentErrorHolds(spec: Spec, active: set<nat>, index: nat)
    requires index < |spec.components| && InlineComponent(spec, active, index).Err?
    ensures var error := InlineComponent(spec, active, index).error;
            error.CircularComponent? || MemberErrorHolds(spec, error)
    decreases Idle(spec, active), spec.components[index].members, 3
  {
    hide MemberErrorHolds, InlineList;
    var component := spec.components[index];
    assert component in spec.components && ListAt(spec, InComponent(component.name), component.members);
    ListErrorHolds(spec, active, component.members, InComponent(component.name), false);
  }

  /** So does an error in resolving a message, once header and trailer have. */
  lemma MessageErrorHolds(spec: Spec, message: Message, header: seq<ResolvedMember>, trailer: seq<ResolvedMember>)
    requires WellBuilt(header, spec.fields) && WellBuilt(trailer, spec.fields) && message in spec.messages
    requires PlacesOf(header, InHeader, spec.fields) == UsedPlacesEach(spec, {}, spec.header, InHeader)
    requires PlacesOf(trailer, InTrailer, spec.fields) == UsedPlacesEach(spec, {}, spec.trailer, InTrailer)
    requires InlineMessage(spec, message, header, trailer).Err?
    ensures var error := InlineMessage(spec, message, header, trailer).error;
            error.CircularComponent? || MemberErrorHolds(spec, error)
  {
    hide MemberErrorHolds, InlineList, InsertUniqueTags, PlacesOf, UsedPlacesEach, WellBuilt;
    var context := InMessage(message.name);
    assert ListAt(spec, context, message.members);
    var list := InlineList(spec, {}, message.members, context, false);
    if list.Err? {
      ListErrorHolds(spec, {}, message.members, context, false);
    } else {
      ListPlaces(spec, {}, message.members, context, false, context);
      SectionsErrorHolds(spec, message, header, list.value, trailer);
    }
  }

  lemma SectionsErrorHolds(
    spec: Spec, message: Message, header: seq<ResolvedMember>, members: seq<ResolvedMember>, trailer: seq<ResolvedMember>)
    requires WellBuilt(header, spec.fields) && WellBuilt(members, spec.fields) && WellBuilt(trailer, spec.fields) && message in spec.messages
    requires PlacesOf(header, InHeader, spec.fields) == UsedPlacesEach(spec, {}, spec.header, InHeader)
    requires PlacesOf(members, InMessage(message.name), spec.fields)
          == UsedPlacesEach(spec, {}, message.members, InMessage(message.name))
    requires PlacesOf(trailer, InTrailer, spec.fields) == UsedPlacesEach(spec, {}, spec.trailer, InTrailer)
    requires InlineList(spec, {}, message.members, InMessage(message.name), false) == Ok(members)
    requires InlineMessage(spec, message, header, trailer).Err?
    ensures MemberErrorHolds(spec, InlineMessage(spec, message, header, trailer).error)
  {
    hide MemberErrorHolds, InlineList, InsertUniqueTags, PlacesOf, UsedPlacesEach, WellBuilt, Repeats;
    var fields := spec.fields;
    var h, m, t := PlacesOf(header, InHeader, fields), PlacesOf(members, InMessage(message.name), fields), PlacesOf(trailer, InTrailer, fields);
    var error := InlineMessage(spec, message, header, trailer).error;
    RecordingLocates(header, InHeader, fields, map[], []);
    assert [] + h == h;
    var seen := InsertUniqueTags(header, InHeader, fields, map[]);
    if seen.Err? {
      RepeatsStill(h, m, error.tag, error.firstContext, error.secondContext);
      RepeatsStill(h + m, t, error.tag, error.firstContext, error.secondContext);
    } else {
      RecordingLocates(members, InMessage(message.name), fields, seen.value, h);
      var seen' := InsertUniqueTags(members, InMessage(message.name), fields, seen.value);
      if seen'.Err? {
        RepeatsStill(h + m, t, error.tag, error.firstContext, error.secondContext);
      } else {
        RecordingLocates(trailer, InTrailer, fields, seen'.value, h + m);
      }
    }
    RepeatHolds(spec, message, error);
  }

  lemma RepeatHolds(spec: Spec, message: Message, error: Error)
    requires message in spec.messages && error.DuplicateField?
    requires Repeats(MessagePlaces(spec, message), error.tag, error.firstContext, error.secondContext)
    ensures MemberErrorHolds(spec, error)
  {
    hide ListAt, Repeats, MessagePlaces;
  }

  lemma {:induction false} MessagesErrorHolds(spec: Spec, messages: seq<Message>, header: seq<ResolvedMember>, trailer: seq<ResolvedMember>)
    requires WellBuilt(header, spec.fields) && WellBuilt(trailer, spec.fields) && forall m :: m in messages ==> m in spec.messages
    requires PlacesOf(header, InHeader, spec.fields) == UsedPlacesEach(spec, {}, spec.header, InHeader)
    requires PlacesOf(trailer, InTrailer, spec.fields) == UsedPlacesEach(spec, {}, spec.trailer, InTrailer)
    requires InlineMessages(spec, messages, header, trailer).Err?
    ensures var error := InlineMessages(spec, messages, header, trailer).error;
            error.CircularComponent? || MemberErrorHolds(spec, error)
    decreases |messages|
  {
    hide MemberErrorHolds, InlineMessage, PlacesOf, UsedPlacesEach, WellBuilt;
    if InlineMessage(spec, messages[0], header, trailer).Err? {
      MessageErrorHolds(spec, messages[0], header, trailer);
    } else {
      MessagesErrorHolds(spec, messages[1..], header, trailer);
    }
  }

  lemma {:induction false} ComponentsErrorHolds(spec: Spec, from: nat)
    requires CheckComponents(spec, from).Some?
    ensures var error := CheckComponents(spec, from).value;
            error.CircularComponent? || MemberErrorHolds(spec, error)
    decreases |spec.components| - from
  {
    hide MemberErrorHolds, InlineComponent;
    if InlineComponent(spec, {from}, from).Err? {
      ComponentErrorHolds(spec, {from}, from);
    } else {
      ComponentsErrorHolds(spec, from + 1);
    }
  }

  // Errors about definitions.

  lemma {:induction false} IntValueErrorHolds(spec: Spec, fields: seq<FieldDef>)
    requires IntValueProblem(fields).Some? && forall f :: f in fields ==> f in spec.fields
    ensures DefinitionErrorHolds(spec, IntValueProblem(fields).value)
    decreases |fields|
  {
    if IsIntBased(fields[0].dataType) && NonInteger(fields[0].values).Some? {
      assert fields[0] in spec.fields;
    } else {
      IntValueErrorHolds(spec, fields[1..]);
    }
  }

  lemma {:induction false} CodeErrorHolds(spec: Spec, fields: seq<FieldDef>)
    requires CodeProblem(fields).Some? && forall f :: f in fields ==> f in spec.fields
    ensures DefinitionErrorHolds(spec, CodeProblem(fields).value)
    decreases |fields|
  {
    hide CanonicalCode, SameCode;
    var repeat := FirstRepeat(Codes(fields[0]));
    if repeat.Some? {
      var field := fields[0];
      var (i, j) := repeat.value;
      CanonicalCodesAgree(field.dataType, field.values[i], field.values[j]);
      assert ListsTwice(field, field.values[i], field.values[j]);
    } else {
      CodeErrorHolds(spec, fields[1..]);
    }
  }

  lemma LinkErrorHolds(spec: Spec, i: nat)
    requires i < |spec.fields| && LinkProblem(spec.fields, i).Some?
    ensures DefinitionErrorHolds(spec, LinkProblem(spec.fields, i).value)
  {
    var fields, field := spec.fields, spec.fields[i];
    var tag := field.lengthTag.value;
    assert field in fields && GivesLength(field, field.name, tag);
    var index := FieldIndex(fields, tag);
    if index.Some? {
      var l := fields[index.value];
      assert l in fields && l.tag == tag;
      var earlier := EarlierLink(fields, i, tag);
      if earlier.Some? { assert GivesLength(fields[earlier.value], fields[earlier.value].name, l.tag); }
    }
  }

  lemma {:induction false} LengthTagErrorHolds(spec: Spec, i: nat)
    requires LengthTagProblem(spec.fields, i).Some?
    ensures DefinitionErrorHolds(spec, LengthTagProblem(spec.fields, i).value)
    decreases |spec.fields| - i
  {
    hide LinkProblem, DefinitionErrorHolds;
    if LinkProblem(spec.fields, i).Some? { LinkErrorHolds(spec, i); } else { LengthTagErrorHolds(spec, i + 1); }
  }

  lemma RepeatedTagHolds(spec: Spec)
    requires RepeatedTag(spec.fields).Some?
    ensures DefinitionErrorHolds(spec, DuplicateTag(RepeatedTag(spec.fields).value))
  {
    var (i, j) := FirstRepeat(FieldTags(spec.fields)).value;
  }

  lemma OtherErrorsHold(spec: Spec)
    ensures RepeatedName(spec.components).Some? ==> DefinitionErrorHolds(spec, DuplicateComponent(RepeatedName(spec.components).value))
    ensures MsgTypeProblem(spec.messages).Some? ==> DefinitionErrorHolds(spec, MsgTypeProblem(spec.messages).value)
  {
    if FirstRepeat(MsgTypes(spec.messages)).Some? {
      var (i, j) := FirstRepeat(MsgTypes(spec.messages)).value;
      var msgType := spec.messages[j].msgType;
      assert Declares(spec.messages[i], msgType, spec.messages[i].name) && Declares(spec.messages[j], msgType, spec.messages[j].name);
    }
  }

  lemma ProblemHolds(spec: Spec)
    requires SpecProblem(spec).Some?
    ensures DefinitionErrorHolds(spec, SpecProblem(spec).value)
  {
    hide DefinitionErrorHolds, IntValueProblem, CodeProblem, MsgTypeProblem, RepeatedTag, LengthTagProblem, RepeatedName;
    if IntValueProblem(spec.fields).Some? { IntValueErrorHolds(spec, spec.fields); }
    if CodeProblem(spec.fields).Some? { CodeErrorHolds(spec, spec.fields); }
    if RepeatedTag(spec.fields).Some? { RepeatedTagHolds(spec); }
    if LengthTagProblem(spec.fields, 0).Some? { LengthTagErrorHolds(spec, 0); }
    OtherErrorsHold(spec);
  }

  /** Whatever error a spec is refused with is true of it. */
  lemma ErrorsHold(spec: Spec)
    requires InlineSpec(spec).Err?
    ensures DefinitionErrorHolds(spec, InlineSpec(spec).error) || MemberErrorHolds(spec, InlineSpec(spec).error)
  {
    hide DefinitionErrorHolds, MemberErrorHolds, SpecProblem, CheckComponents, InlineList, InlineMessages, PlacesOf, UsedPlacesEach, WellBuilt, Cycle;
    var error := InlineSpec(spec).error;
    if error.CircularComponent? {
      var cycle := CircularComponentIsOnACycle(spec, error.component);
      CircularHolds(spec, error.component, cycle);
    } else if SpecProblem(spec).Some? {
      ProblemHolds(spec);
    } else if CheckComponents(spec, 0).Some? {
      ComponentsErrorHolds(spec, 0);
    } else {
      var header := InlineList(spec, {}, spec.header, InHeader, false);
      var trailer := InlineList(spec, {}, spec.trailer, InTrailer, false);
      SectionsAt(spec);
      if header.Err? {
        ListErrorHolds(spec, {}, spec.header, InHeader, false);
      } else if trailer.Err? {
        ListErrorHolds(spec, {}, spec.trailer, InTrailer, false);
      } else {
        ListPlaces(spec, {}, spec.header, InHeader, false, InHeader);
        ListPlaces(spec, {}, spec.trailer, InTrailer, false, InTrailer);
        MessagesErrorHolds(spec, spec.messages, header.value, trailer.value);
      }
    }
  }

  lemma CircularHolds(spec: Spec, name: string, cycle: seq<nat>)
    requires Cycle(spec, cycle) && spec.components[cycle[0]].name == name
    ensures MemberErrorHolds(spec, CircularComponent(name))
  {
  }

  lemma SectionsAt(spec: Spec)
    ensures ListAt(spec, InHeader, spec.header) && ListAt(spec, InTrailer, spec.trailer)
  {
  }
}
