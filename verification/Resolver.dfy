/**
 * Resolving a spec with each component expanded once: finished expansions are kept, and the
 * components being expanded are a stack. It gives what direct inlining gives, errors included.
 */
module Resolver {
  import opened Wrappers
  import opened Sequences
  import opened Tags
  import opened Dictionary
  import opened Resolution
  import opened SpecChecks

  function ToSet(s: seq<nat>): (r: set<nat>)
    ensures forall i :: i in r <==> i in s
  {
    set i | i in s
  }

  /** Every component `member` refers to, through groups too, is defined and in `done`. */
  predicate RefersOnlyTo(spec: Spec, member: Member, done: set<nat>) {
    match member
    case FieldRef(_, _) => true
    case ComponentRef(name, _) =>
      var child := ComponentIndex(spec.components, name);
      child.Some? && child.value in done
    case GroupDecl(_, _, members) => EachRefersOnlyTo(spec, members, done)
  }

  predicate EachRefersOnlyTo(spec: Spec, members: seq<Member>, done: set<nat>) {
    members == [] || (RefersOnlyTo(spec, members[0], done) && EachRefersOnlyTo(spec, members[1..], done))
  }

  lemma {:induction false} MoreDone(spec: Spec, member: Member, done: set<nat>, more: set<nat>)
    requires done <= more && RefersOnlyTo(spec, member, done)
    ensures RefersOnlyTo(spec, member, more)
    decreases member
  {
    if member.GroupDecl? { MoreDoneEach(spec, member.members, done, more); }
  }

  lemma {:induction false} MoreDoneEach(spec: Spec, members: seq<Member>, done: set<nat>, more: set<nat>)
    requires done <= more && EachRefersOnlyTo(spec, members, done)
    ensures EachRefersOnlyTo(spec, members, more)
    decreases members
  {
    if members != [] {
      MoreDone(spec, members[0], done, more);
      MoreDoneEach(spec, members[1..], done, more);
    }
  }

  lemma {:induction false} OneMoreRefersOnlyTo(spec: Spec, members: seq<Member>, member: Member, done: set<nat>)
    requires EachRefersOnlyTo(spec, members, done) && RefersOnlyTo(spec, member, done)
    ensures EachRefersOnlyTo(spec, members + [member], done)
  {
    if members == [] {
      assert members + [member] == [member];
    } else {
      OneMoreRefersOnlyTo(spec, members[1..], member, done);
      assert (members + [member])[1..] == members[1..] + [member];
    }
  }

  /** Components in the order they finished: each refers only to those before it. */
  predicate FinishedInOrder(spec: Spec, order: seq<nat>) {
    && Distinct(order)
    && forall k :: 0 <= k < |order| ==>
         order[k] < |spec.components| && EachRefersOnlyTo(spec, spec.components[order[k]].members, ToSet(order[..k]))
  }

  lemma OneMoreFinished(spec: Spec, order: seq<nat>, index: nat)
    requires FinishedInOrder(spec, order) && index < |spec.components| && index !in order
    requires EachRefersOnlyTo(spec, spec.components[index].members, ToSet(order))
    ensures FinishedInOrder(spec, order + [index])
  {
    var more := order + [index];
    forall k | 0 <= k < |more|
      ensures more[k] < |spec.components| && EachRefersOnlyTo(spec, spec.components[more[k]].members, ToSet(more[..k]))
    {
      if k < |order| {
        assert more[..k] == order[..k];
      } else {
        assert more[..k] == order;
      }
    }
  }

  /** What is being expanded makes no difference to members that refer only to finished components. */
  lemma {:induction false} ContextFreeOnceFinished(
    spec: Spec, order: seq<nat>, k: nat, a: set<nat>, b: set<nat>, member: Member, context: MemberContext, first: bool)
    requires FinishedInOrder(spec, order) && k <= |order|
    requires RefersOnlyTo(spec, member, ToSet(order[..k])) && a !! ToSet(order[..k]) && b !! ToSet(order[..k])
    ensures Inline(spec, a, member, context, first) == Inline(spec, b, member, context, first)
    decreases k, member, 0
  {
    match member
    case FieldRef(_, _) =>
    case ComponentRef(name, isRequired) =>
      var child := ComponentIndex(spec.components, name).value;
      var j :| 0 <= j < k && order[j] == child;
      FinishedComponentIsContextFree(spec, order, j, a + {child}, b + {child});
    case GroupDecl(countTag, _, members) =>
      var countIndex := FieldIndexIn(spec, countTag, context);
      if countIndex.Ok? {
        EachContextFreeOnceFinished(spec, order, k, a, b, members, InGroup(spec.fields[countIndex.value].name, context), true);
      }
  }

  lemma {:induction false} EachContextFreeOnceFinished(
    spec: Spec, order: seq<nat>, k: nat, a: set<nat>, b: set<nat>, members: seq<Member>, context: MemberContext, first: bool)
    requires FinishedInOrder(spec, order) && k <= |order|
    requires EachRefersOnlyTo(spec, members, ToSet(order[..k])) && a !! ToSet(order[..k]) && b !! ToSet(order[..k])
    ensures InlineEach(spec, a, members, context, first) == InlineEach(spec, b, members, context, first)
    decreases k, members, 1
  {
    if members != [] {
      ContextFreeOnceFinished(spec, order, k, a, b, members[0], context, first);
      EachContextFreeOnceFinished(spec, order, k, a, b, members[1..], context, false);
    }
  }

  /** A finished component expands the same inside any components not finished before it. */
  lemma {:induction false} FinishedComponentIsContextFree(spec: Spec, order: seq<nat>, j: nat, a: set<nat>, b: set<nat>)
    requires FinishedInOrder(spec, order) && j < |order|
    requires a !! ToSet(order[..j]) && b !! ToSet(order[..j])
    ensures InlineComponent(spec, a, order[j]) == InlineComponent(spec, b, order[j])
    decreases j, spec.components[order[j]].members, 2
  {
    var component := spec.components[order[j]];
    EachContextFreeOnceFinished(spec, order, j, a, b, component.members, InComponent(component.name), false);
  }

  /** Records each tag in a map in place of `seen`, or the first tag already there. */
  method InsertTags(members: seq<ResolvedMember>, context: MemberContext, fields: seq<FieldDef>, before: map<Tag, MemberContext>)
    returns (r: Result<map<Tag, MemberContext>, Error>)
    requires WellBuilt(members, fields)
    ensures r == InsertUniqueTags(members, context, fields, before)
    decreases members
  {
    var seen := before;
    for i := 0 to |members|
      invariant WellBuilt(members[i..], fields)
      invariant InsertUniqueTags(members[i..], context, fields, seen) == InsertUniqueTags(members, context, fields, before)
    {
      var member := members[i];
      assert members[i..][0] == member && members[i..][1..] == members[i + 1..];
      assert member in members[i..];
      var tag := fields[FirstField(member)].tag;
      if tag in seen {
        return Err(DuplicateField(tag, seen[tag], context));
      }
      seen := seen[tag := context];
      if member.Group? {
        var nested := InsertTags(member.members, InGroup(fields[member.countIndex].name, context), fields, seen);
        if nested.Err? {
          return nested;
        }
        seen := nested.value;
      }
    }
    return Ok(seen);
  }

  /** `resolved` and then what `rest` gives. */
  function Followed(resolved: seq<ResolvedMember>, rest: Result<seq<ResolvedMember>, Error>): (r: Result<seq<ResolvedMember>, Error>) {
    match rest
    case Ok(more) => Ok(resolved + more)
    case Err(error) => Err(error)
  }

  lemma FollowedInTurn(spec: Spec, active: set<nat>, resolved: seq<ResolvedMember>, members: seq<Member>, context: MemberContext, first: bool)
    requires members != []
    ensures Followed(resolved, InlineEach(spec, active, members, context, first)) ==
            match Inline(spec, active, members[0], context, first)
            case Err(error) => Err(error)
            case Ok(next) => Followed(resolved + next, InlineEach(spec, active, members[1..], context, false))
  {
    match Inline(spec, active, members[0], context, first)
    case Err(_) =>
    case Ok(next) =>
      match InlineEach(spec, active, members[1..], context, false)
      case Err(_) =>
      case Ok(rest) => assert resolved + (next + rest) == resolved + next + rest;
  }

  lemma NothingInlined(spec: Spec, active: set<nat>, context: MemberContext, first: bool)
    ensures InlineEach(spec, active, [], context, first) == Ok([])
  {
  }

  lemma FollowedFromNothing(rest: Result<seq<ResolvedMember>, Error>)
    ensures Followed([], rest) == rest
  {
    if rest.Ok? { assert [] + rest.value == rest.value; }
  }

  /** The expansions kept are those of the finished components, none of them on the stack. */
  ghost predicate Kept(spec: Spec, expansions: seq<Option<seq<ResolvedMember>>>, stack: seq<nat>, order: seq<nat>) {
    && |expansions| == |spec.components|
    && FinishedInOrder(spec, order)
    && (forall i :: 0 <= i < |expansions| ==> (expansions[i].Some? <==> i in order))
    && (forall i :: i in order ==> InlineComponent(spec, {i}, i) == Ok(expansions[i].value))
    && ToSet(stack) !! ToSet(order)
  }

  /** Keeping the expansion of the component on top of the stack, once it is finished. */
  lemma KeepOneMore(
    spec: Spec, expansions: seq<Option<seq<ResolvedMember>>>, stack: seq<nat>, order: seq<nat>, index: nat, members: seq<ResolvedMember>)
    requires index < |spec.components| && index !in stack
    requires Kept(spec, expansions, stack + [index], order)
    requires EachRefersOnlyTo(spec, spec.components[index].members, ToSet(order))
    requires InlineComponent(spec, ToSet(stack) + {index}, index) == Ok(members)
    ensures Kept(spec, expansions[index := Some(members)], stack, order + [index])
  {
    assert index in stack + [index];
    assert forall i :: i in stack ==> i in stack + [index];
    OneMoreFinished(spec, order, index);
    var more := order + [index];
    assert more[..|order|] == order && more[|order|] == index;
    FinishedComponentIsContextFree(spec, more, |order|, {index}, ToSet(stack) + {index});
    hide InlineComponent, FinishedInOrder, EachRefersOnlyTo;
    forall i | i in more ensures InlineComponent(spec, {i}, i) == Ok(expansions[index := Some(members)][i].value) {
    }
  }

  class Resolver {
    const spec: Spec
    const fieldsByTag: map<Tag, nat>
    const componentsByName: map<string, nat>
    var expansions: seq<Option<seq<ResolvedMember>>>
    var stack: seq<nat>
    /** The components expanded so far, in the order they finished. */
    ghost var order: seq<nat>

    ghost predicate Valid()
      reads this
    {
      && Indexes(fieldsByTag, FieldTags(spec.fields)) && Indexes(componentsByName, ComponentNames(spec.components))
      && Kept(spec, expansions, stack, order)
    }

    constructor (spec: Spec, fieldsByTag: map<Tag, nat>, componentsByName: map<string, nat>)
      requires Indexes(fieldsByTag, FieldTags(spec.fields)) && Indexes(componentsByName, ComponentNames(spec.components))
      ensures Valid() && this.spec == spec && stack == [] && order == []
    {
      this.spec := spec;
      this.fieldsByTag := fieldsByTag;
      this.componentsByName := componentsByName;
      expansions := seq(|spec.components|, _ => None);
      stack := [];
      order := [];
    }

    /** Expands a component unless it already is, or fails if it is being expanded. */
    method ExpandComponent(index: nat) returns (problem: Option<Error>)
      requires Valid() && index < |spec.components|
      modifies this`expansions, this`stack, this`order
      ensures index in old(stack) ==> problem == Some(CircularComponent(spec.components[index].name))
      ensures index !in old(stack) ==>
                problem == match InlineComponent(spec, old(ToSet(stack)) + {index}, index)
                           case Ok(_) => None
                           case Err(error) => Some(error)
      ensures problem.None? ==> Valid() && stack == old(stack) && old(order) <= order && index in order
      decreases Idle(spec, ToSet(stack)), 0
    {
      if expansions[index].Some? {
        FinishedAnywhere(index);
        return None;
      }
      if index in stack {
        return Some(CircularComponent(spec.components[index].name));
      }
      var component := spec.components[index];
      ghost var around := ToSet(stack);
      stack := stack + [index];
      assert ToSet(stack) == around + {index};
      assert index in Idle(spec, around) && index !in Idle(spec, ToSet(stack));
      var resolved := ResolveMembers(component.members, InComponent(component.name), false);
      if resolved.Err? {
        return Some(resolved.error);
      }
      var members := NameSoleGroup(component, resolved.value);
      KeepOneMore(spec, expansions, old(stack), order, index, members);
      stack := stack[..|stack| - 1];
      expansions := expansions[index := Some(members)];
      order := order + [index];
      return None;
    }

    /** A finished component's expansion is what inlining it here would give. */
    lemma FinishedAnywhere(index: nat)
      requires Valid() && index in order
      ensures index !in stack
      ensures InlineComponent(spec, ToSet(stack) + {index}, index) == Ok(expansions[index].value)
    {
      var j :| 0 <= j < |order| && order[j] == index;
      FinishedComponentIsContextFree(spec, order, j, ToSet(stack) + {index}, {index});
    }

    /** Resolves one member list, expanding component references in place. */
    method ResolveMembers(members: seq<Member>, context: MemberContext, isInstance: bool) returns (r: Result<seq<ResolvedMember>, Error>)
      requires Valid()
      modifies this`expansions, this`stack, this`order
      ensures r == InlineList(spec, old(ToSet(stack)), members, context, isInstance)
      ensures r.Ok? ==> Valid() && stack == old(stack) && old(order) <= order && EachRefersOnlyTo(spec, members, ToSet(order))
      decreases Idle(spec, ToSet(stack)), 1, members, 1
    {
      hide Inline, InlineEach, FinishList, WellBuilt, RefersOnlyTo, FinishedInOrder, Idle;
      ghost var active := ToSet(stack);
      var resolved: seq<ResolvedMember> := [];
      FollowedFromNothing(InlineEach(spec, active, members, context, isInstance));
      assert members[0..] == members;
      NothingInlined(spec, active, context, isInstance && |members| == 0);
      for position := 0 to |members|
        invariant Valid() && stack == old(stack) && old(order) <= order
        invariant EachRefersOnlyTo(spec, members[..position], ToSet(order))
        invariant InlineEach(spec, active, members, context, isInstance)
               == Followed(resolved, InlineEach(spec, active, members[position..], context, isInstance && position == 0))
      {
        ghost var done := ToSet(order);
        hide EachRefersOnlyTo;
        FollowedInTurn(spec, active, resolved, members[position..], context, isInstance && position == 0);
        var next := ResolveMember(members[position], context, isInstance && position == 0);
        assert members[position..][0] == members[position] && members[position..][1..] == members[position + 1..];
        if next.Err? {
          return Err(next.error);
        }
        assert done <= ToSet(order);
        MoreDoneEach(spec, members[..position], done, ToSet(order));
        OneMoreRefersOnlyTo(spec, members[..position], members[position], ToSet(order));
        assert members[..position] + [members[position]] == members[..position + 1];
        resolved := resolved + next.value;
      }
      assert members[..|members|] == members;
      assert resolved + [] == resolved;
      r := FinishList(spec, resolved, context, isInstance);
    }

    /** What one member adds to the list it stands in. */
    method ResolveMember(member: Member, context: MemberContext, first: bool) returns (r: Result<seq<ResolvedMember>, Error>)
      requires Valid()
      modifies this`expansions, this`stack, this`order
      ensures r == Inline(spec, old(ToSet(stack)), member, context, first)
      ensures r.Ok? ==> Valid() && stack == old(stack) && old(order) <= order && RefersOnlyTo(spec, member, ToSet(order))
      decreases Idle(spec, ToSet(stack)), 1, member, 0
    {
      match member {
        case FieldRef(tag, isRequired) =>
          var field := ResolveFieldRef(spec, tag, isRequired, context);
          return match field case Ok(f) => Ok([f]) case Err(error) => Err(error);
        case ComponentRef(name, isRequired) =>
          if name !in componentsByName {
            return Err(UnknownComponent(name, context));
          }
          var child := componentsByName[name];
          var problem := ExpandComponent(child);
          if problem.Some? {
            return Err(problem.value);
          }
          FinishedAnywhere(child);
          return Ok(Spliced(expansions[child].value, isRequired || first));
        case GroupDecl(countTag, isRequired, members) =>
          var countIndex := FieldIndexIn(spec, countTag, context);
          if countIndex.Err? {
            return Err(countIndex.error);
          }
          var instance := InGroup(spec.fields[countIndex.value].name, context);
          var resolved := ResolveMembers(members, instance, true);
          if resolved.Err? {
            return Err(resolved.error);
          }
          if resolved.value == [] {
            return Err(EmptyGroup(instance));
          }
          return Ok([Group(countIndex.value, FirstField(resolved.value[0]), isRequired, context, None, resolved.value)]);
      }
    }
  }

  /** Resolves a message and checks that header, message and trailer share no tag. */
  method ResolveMessage(resolver: Resolver, message: Message, header: seq<ResolvedMember>, trailer: seq<ResolvedMember>)
    returns (r: Result<seq<ResolvedMember>, Error>)
    requires resolver.Valid() && resolver.stack == []
    requires WellBuilt(header, resolver.spec.fields) && WellBuilt(trailer, resolver.spec.fields)
    modifies resolver`expansions, resolver`stack, resolver`order
    ensures r == InlineMessage(resolver.spec, message, header, trailer)
    ensures r.Ok? ==> resolver.Valid() && resolver.stack == []
  {
    var fields, context := resolver.spec.fields, InMessage(message.name);
    assert ToSet([]) == {};
    var members := resolver.ResolveMembers(message.members, context, false);
    if members.Err? { return members; }
    var seen := InsertTags(header, InHeader, fields, map[]);
    if seen.Err? { return Err(seen.error); }
    seen := InsertTags(members.value, context, fields, seen.value);
    if seen.Err? { return Err(seen.error); }
    seen := InsertTags(trailer, InTrailer, fields, seen.value);
    if seen.Err? { return Err(seen.error); }
    return members;
  }

  function FollowedMessages(resolved: seq<seq<ResolvedMember>>, rest: Result<seq<seq<ResolvedMember>>, Error>)
    : (r: Result<seq<seq<ResolvedMember>>, Error>)
  {
    match rest
    case Ok(more) => Ok(resolved + more)
    case Err(error) => Err(error)
  }

  lemma MessagesInTurn(spec: Spec, resolved: seq<seq<ResolvedMember>>, messages: seq<Message>, header: seq<ResolvedMember>, trailer: seq<ResolvedMember>)
    requires WellBuilt(header, spec.fields) && WellBuilt(trailer, spec.fields) && messages != []
    ensures FollowedMessages(resolved, InlineMessages(spec, messages, header, trailer)) ==
            match InlineMessage(spec, messages[0], header, trailer)
            case Err(error) => Err(error)
            case Ok(next) => FollowedMessages(resolved + [next], InlineMessages(spec, messages[1..], header, trailer))
  {
    match InlineMessage(spec, messages[0], header, trailer)
    case Err(_) =>
    case Ok(next) =>
      match InlineMessages(spec, messages[1..], header, trailer)
      case Err(_) =>
      case Ok(rest) => assert resolved + ([next] + rest) == resolved + [next] + rest;
  }

  method ResolveMessages(resolver: Resolver, header: seq<ResolvedMember>, trailer: seq<ResolvedMember>)
    returns (r: Result<seq<seq<ResolvedMember>>, Error>)
    requires resolver.Valid() && resolver.stack == []
    requires WellBuilt(header, resolver.spec.fields) && WellBuilt(trailer, resolver.spec.fields)
    modifies resolver`expansions, resolver`stack, resolver`order
    ensures r == InlineMessages(resolver.spec, resolver.spec.messages, header, trailer)
  {
    var spec := resolver.spec;
    var messages: seq<seq<ResolvedMember>> := [];
    assert spec.messages[0..] == spec.messages;
    assert FollowedMessages([], InlineMessages(spec, spec.messages, header, trailer)) == InlineMessages(spec, spec.messages, header, trailer) by {
      var all := InlineMessages(spec, spec.messages, header, trailer);
      if all.Ok? { assert [] + all.value == all.value; }
    }
    for i := 0 to |spec.messages|
      invariant resolver.Valid() && resolver.stack == []
      invariant InlineMessages(spec, spec.messages, header, trailer)
             == FollowedMessages(messages, InlineMessages(spec, spec.messages[i..], header, trailer))
    {
      MessagesInTurn(spec, messages, spec.messages[i..], header, trailer);
      assert spec.messages[i..][1..] == spec.messages[i + 1..];
      var next := ResolveMessage(resolver, spec.messages[i], header, trailer);
      if next.Err? { return Err(next.error); }
      messages := messages + [next.value];
    }
    assert messages + [] == messages;
    return Ok(messages);
  }

  /** Expands every component, or gives the first error met. */
  method ExpandComponents(resolver: Resolver) returns (problem: Option<Error>)
    requires resolver.Valid() && resolver.stack == []
    modifies resolver`expansions, resolver`stack, resolver`order
    ensures problem == CheckComponents(resolver.spec, 0)
    ensures problem.None? ==> resolver.Valid() && resolver.stack == []
  {
    for index := 0 to |resolver.spec.components|
      invariant resolver.Valid() && resolver.stack == []
      invariant CheckComponents(resolver.spec, 0) == CheckComponents(resolver.spec, index)
    {
      assert ToSet([]) + {index} == {index};
      problem := resolver.ExpandComponent(index);
      if problem.Some? { return; }
    }
    problem := None;
  }

  /** Resolves a spec into a dictionary: what direct inlining throughout resolves it to. */
  method Resolve(spec: Spec) returns (r: Result<Resolved, Error>)
    ensures r == InlineSpec(spec)
  {
    var indexes := CheckSpec(spec);
    if indexes.Err? { return Err(indexes.error); }
    var (fieldsByTag, componentsByName) := indexes.value;
    var resolver := new Resolver(spec, fieldsByTag, componentsByName);
    var problem := ExpandComponents(resolver);
    if problem.Some? { return Err(problem.value); }
    assert ToSet([]) == {};
    var header := resolver.ResolveMembers(spec.header, InHeader, false);
    if header.Err? { return Err(header.error); }
    var trailer := resolver.ResolveMembers(spec.trailer, InTrailer, false);
    if trailer.Err? { return Err(trailer.error); }
    var messages := ResolveMessages(resolver, header.value, trailer.value);
    if messages.Err? { return Err(messages.error); }
    return Ok(Resolved(header.value, messages.value, trailer.value));
  }
}
