/** What a resolved dictionary guarantees: no cycles, flags along paths, and tags used once. */
module ResolutionLaws {
  import opened Wrappers
  import opened Sequences
  import opened Tags
  import opened Dictionary
  import opened Resolution
  import opened SpecChecks

  /** `member` refers to the component `child`, itself or in a group. */
  predicate RefersTo(spec: Spec, member: Member, child: nat) {
    match member
    case FieldRef(_, _) => false
    case ComponentRef(name, _) => ComponentIndex(spec.components, name) == Some(child)
    case GroupDecl(_, _, members) => SomeRefersTo(spec, members, child)
  }

  predicate SomeRefersTo(spec: Spec, members: seq<Member>, child: nat) {
    members != [] && (RefersTo(spec, members[0], child) || SomeRefersTo(spec, members[1..], child))
  }

  /** Components each referring to the next. */
  ghost predicate Chain(spec: Spec, path: seq<nat>) {
    && (forall i :: 0 <= i < |path| ==> path[i] < |spec.components|)
    && (forall i :: 0 < i < |path| ==> SomeRefersTo(spec, spec.components[path[i - 1]].members, path[i]))
  }

  ghost predicate Cycle(spec: Spec, path: seq<nat>) {
    |path| >= 2 && Chain(spec, path) && path[0] == path[|path| - 1]
  }

  /** A member that inlines has every component it refers to inlined, none of them around it. */
  lemma {:induction false} InliningDescends(spec: Spec, active: set<nat>, member: Member, context: MemberContext, first: bool, child: nat)
    requires Inline(spec, active, member, context, first).Ok? && RefersTo(spec, member, child)
    ensures child < |spec.components| && child !in active && InlineComponent(spec, active + {child}, child).Ok?
    decreases member, 0
  {
    match member
    case FieldRef(_, _) =>
    case ComponentRef(name, _) =>
    case GroupDecl(countTag, _, members) =>
      var countIndex := FieldIndexIn(spec, countTag, context);
      InliningEachDescends(spec, active, members, InGroup(spec.fields[countIndex.value].name, context), true, child);
  }

  lemma {:induction false} InliningEachDescends(spec: Spec, active: set<nat>, members: seq<Member>, context: MemberContext, first: bool, child: nat)
    requires InlineEach(spec, active, members, context, first).Ok? && SomeRefersTo(spec, members, child)
    ensures child < |spec.components| && child !in active && InlineComponent(spec, active + {child}, child).Ok?
    decreases members, 1
  {
    if RefersTo(spec, members[0], child) {
      InliningDescends(spec, active, members[0], context, first, child);
    } else {
      InliningEachDescends(spec, active, members[1..], context, false, child);
    }
  }

  /** A chain from a component that inlines never comes back to one around it. */
  lemma {:induction false} ChainsLeaveForGood(spec: Spec, active: set<nat>, path: seq<nat>)
    requires path != [] && Chain(spec, path) && InlineComponent(spec, active + {path[0]}, path[0]).Ok?
    ensures forall i :: 0 < i < |path| ==> path[i] !in active + {path[0]}
    decreases |path|
  {
    if |path| > 1 {
      var component := spec.components[path[0]];
      InliningEachDescends(spec, active + {path[0]}, component.members, InComponent(component.name), false, path[1]);
      ChainsLeaveForGood(spec, active + {path[0]}, path[1..]);
      forall i | 0 < i < |path| ensures path[i] !in active + {path[0]} {
        if i > 1 { assert path[i] == path[1..][i - 1]; }
      }
    }
  }

  lemma {:induction false} CheckedComponents(spec: Spec, from: nat, index: nat)
    requires CheckComponents(spec, from) == None && from <= index < |spec.components|
    ensures InlineComponent(spec, {index}, index).Ok?
    decreases index - from
  {
    if from < index { CheckedComponents(spec, from + 1, index); }
  }

  /** A spec that resolves has no cycle of components, through groups or not. */
  lemma ResolvedComponentsAreAcyclic(spec: Spec, path: seq<nat>)
    requires InlineSpec(spec).Ok?
    ensures !Cycle(spec, path)
  {
    if Cycle(spec, path) {
      CheckedComponents(spec, 0, path[0]);
      assert {} + {path[0]} == {path[0]};
      ChainsLeaveForGood(spec, {}, path);
    }
  }

  /** Where a circular reference is reported from: a component around it, or one further in. */
  lemma {:induction false} CircularBelow(spec: Spec, active: set<nat>, member: Member, context: MemberContext, first: bool, name: string)
    returns (child: nat)
    requires Inline(spec, active, member, context, first) == Err(CircularComponent(name))
    ensures child < |spec.components| && RefersTo(spec, member, child)
    ensures if child in active then spec.components[child].name == name
            else InlineComponent(spec, active + {child}, child) == Err(CircularComponent(name))
    decreases member, 0
  {
    match member
    case ComponentRef(reference, _) =>
      child := ComponentIndex(spec.components, reference).value;
    case GroupDecl(countTag, _, members) =>
      var countIndex := FieldIndexIn(spec, countTag, context);
      child := CircularBelowEach(spec, active, members, InGroup(spec.fields[countIndex.value].name, context), true, name);
  }

  lemma NoCircularity(spec: Spec, inlined: seq<ResolvedMember>, context: MemberContext, isInstance: bool, name: string)
    requires WellBuilt(inlined, spec.fields)
    ensures FinishList(spec, inlined, context, isInstance) != Err(CircularComponent(name))
  {
    assert inlined != [] ==> inlined[0] in inlined && MemberWellBuilt(inlined[0], spec.fields);
    var members := if isInstance then RequireFirst(inlined) else inlined;
    OnlyDuplicatesAreReported(members, context, spec.fields, map[]);
  }

  lemma {:induction false} OnlyDuplicatesAreReported(members: seq<ResolvedMember>, context: MemberContext, fields: seq<FieldDef>, seen: map<Tag, MemberContext>)
    requires WellBuilt(members, fields)
    ensures InsertUniqueTags(members, context, fields, seen).Err? ==> InsertUniqueTags(members, context, fields, seen).error.DuplicateField?
    decreases members
  {
    if members != [] {
      var member := members[0];
      assert member in members && MemberWellBuilt(member, fields);
      var tag := fields[FirstField(member)].tag;
      if tag !in seen {
        var seen' := seen[tag := context];
        if member.Group? {
          var instance := InGroup(fields[member.countIndex].name, context);
          OnlyDuplicatesAreReported(member.members, instance, fields, seen');
          var nested := InsertUniqueTags(member.members, instance, fields, seen');
          if nested.Ok? {
            OnlyDuplicatesAreReported(members[1..], context, fields, nested.value);
          }
        } else {
          OnlyDuplicatesAreReported(members[1..], context, fields, seen');
        }
      }
    }
  }

  lemma {:induction false} CircularBelowEach(spec: Spec, active: set<nat>, members: seq<Member>, context: MemberContext, isInstance: bool, name: string)
    returns (child: nat)
    requires InlineList(spec, active, members, context, isInstance) == Err(CircularComponent(name))
    ensures child < |spec.components| && SomeRefersTo(spec, members, child)
    ensures if child in active then spec.components[child].name == name
            else InlineComponent(spec, active + {child}, child) == Err(CircularComponent(name))
    decreases members, 2
  {
    var inlined := InlineEach(spec, active, members, context, isInstance);
    if inlined.Ok? {
      NoCircularity(spec, inlined.value, context, isInstance, name);
    }
    child := CircularInEach(spec, active, members, context, isInstance, name);
  }

  lemma {:induction false} CircularInEach(spec: Spec, active: set<nat>, members: seq<Member>, context: MemberContext, first: bool, name: string)
    returns (child: nat)
    requires InlineEach(spec, active, members, context, first) == Err(CircularComponent(name))
    ensures child < |spec.components| && SomeRefersTo(spec, members, child)
    ensures if child in active then spec.components[child].name == name
            else InlineComponent(spec, active + {child}, child) == Err(CircularComponent(name))
    decreases members, 1
  {
    if Inline(spec, active, members[0], context, first).Err? {
      child := CircularBelow(spec, active, members[0], context, first, name);
    } else {
      child := CircularInEach(spec, active, members[1..], context, false, name);
    }
  }

  /** The chain from a component down to the circular reference it reports. */
  lemma {:induction false} ChainToCircular(spec: Spec, active: set<nat>, index: nat, name: string) returns (path: seq<nat>)
    requires index < |spec.components| && index !in active
    requires InlineComponent(spec, active + {index}, index) == Err(CircularComponent(name))
    ensures |path| >= 2 && Chain(spec, path) && path[0] == index
    ensures spec.components[path[|path| - 1]].name == name
    ensures path[|path| - 1] in active || path[|path| - 1] in path[..|path| - 1]
    decreases Idle(spec, active)
  {
    var component := spec.components[index];
    var child := CircularBelowEach(spec, active + {index}, component.members, InComponent(component.name), false, name);
    if child in active + {index} {
      path := [index, child];
    } else {
      assert index in Idle(spec, active) && index !in Idle(spec, active + {index});
      var rest := ChainToCircular(spec, active + {index}, child, name);
      path := [index] + rest;
      var last := path[|path| - 1];
      assert last == rest[|rest| - 1];
      assert path[..|path| - 1] == [index] + rest[..|rest| - 1];
    }
  }

  /** A component reported as circular is on a cycle. */
  lemma CircularComponentIsOnACycle(spec: Spec, name: string) returns (cycle: seq<nat>)
    requires InlineSpec(spec) == Err(CircularComponent(name))
    ensures Cycle(spec, cycle) && spec.components[cycle[0]].name == name
  {
    var index := FirstCircular(spec, name);
    assert {} + {index} == {index};
    var path := ChainToCircular(spec, {}, index, name);
    var last := |path| - 1;
    var i :| 0 <= i < last && path[i] == path[last];
    cycle := path[i..];
  }

  /** A circular reference is reported by expanding some component on its own. */
  lemma FirstCircular(spec: Spec, name: string) returns (index: nat)
    requires InlineSpec(spec) == Err(CircularComponent(name))
    ensures index < |spec.components| && InlineComponent(spec, {index}, index) == Err(CircularComponent(name))
  {
    if CheckComponents(spec, 0).Some? {
      index := CheckStopsAt(spec, 0, name);
    } else {
      index := CircularOutsideComponents(spec, name);
      assert {} + {index} == {index};
    }
  }

  lemma {:induction false} CheckStopsAt(spec: Spec, from: nat, name: string) returns (index: nat)
    requires CheckComponents(spec, from) == Some(CircularComponent(name))
    ensures index < |spec.components| && InlineComponent(spec, {index}, index) == Err(CircularComponent(name))
    decreases |spec.components| - from
  {
    if InlineComponent(spec, {from}, from).Err? { index := from; } else { index := CheckStopsAt(spec, from + 1, name); }
  }

  lemma CircularOutsideComponents(spec: Spec, name: string) returns (child: nat)
    requires InlineSpec(spec) == Err(CircularComponent(name)) && CheckComponents(spec, 0) == None
    ensures child < |spec.components| && InlineComponent(spec, {} + {child}, child) == Err(CircularComponent(name))
  {
    var header := InlineList(spec, {}, spec.header, InHeader, false);
    if header.Err? {
      child := CircularBelowEach(spec, {}, spec.header, InHeader, false, name);
    } else {
      var trailer := InlineList(spec, {}, spec.trailer, InTrailer, false);
      if trailer.Err? {
        child := CircularBelowEach(spec, {}, spec.trailer, InTrailer, false, name);
      } else {
        child := CircularInMessages(spec, spec.messages, header.value, trailer.value, name);
      }
    }
  }

  lemma {:induction false} CircularInMessages(spec: Spec, messages: seq<Message>, header: seq<ResolvedMember>, trailer: seq<ResolvedMember>, name: string)
    returns (child: nat)
    requires WellBuilt(header, spec.fields) && WellBuilt(trailer, spec.fields)
    requires InlineMessages(spec, messages, header, trailer) == Err(CircularComponent(name))
    ensures child < |spec.components| && InlineComponent(spec, {} + {child}, child) == Err(CircularComponent(name))
    decreases |messages|
  {
    var message := messages[0];
    if InlineMessage(spec, message, header, trailer).Ok? {
      child := CircularInMessages(spec, messages[1..], header, trailer, name);
    } else {
      var context := InMessage(message.name);
      var members := InlineList(spec, {}, message.members, context, false);
      if members.Ok? {
        OnlyDuplicatesAreReported(header, InHeader, spec.fields, map[]);
        var seen := InsertUniqueTags(header, InHeader, spec.fields, map[]).value;
        OnlyDuplicatesAreReported(members.value, context, spec.fields, seen);
        var seen' := InsertUniqueTags(members.value, context, spec.fields, seen).value;
        OnlyDuplicatesAreReported(trailer, InTrailer, spec.fields, seen');
      }
      child := CircularBelowEach(spec, {}, message.members, context, false, name);
    }
  }

  /** A tag, whether it is required, and the flags of a group's own instances. */
  datatype Flag = Flag(tag: Tag, isRequired: bool, inner: seq<Flag>)

  /** The flags of a resolved list, at every depth. */
  function FlagsOf(members: seq<ResolvedMember>, fields: seq<FieldDef>): (r: seq<Flag>)
    requires WellBuilt(members, fields)
    ensures |r| == |members|
    decreases members
  {
    if members == [] then []
    else
      assert members[0] in members && MemberWellBuilt(members[0], fields);
      [FlagOf(members[0], fields)] + FlagsOf(members[1..], fields)
  }

  function FlagOf(member: ResolvedMember, fields: seq<FieldDef>): (r: Flag)
    requires MemberWellBuilt(member, fields)
    decreases member
  {
    Flag(fields[FirstField(member)].tag, member.isRequired, if member.Group? then FlagsOf(member.members, fields) else [])
  }

  lemma {:induction false} FlagAt(members: seq<ResolvedMember>, fields: seq<FieldDef>, i: nat)
    requires WellBuilt(members, fields) && i < |members|
    ensures MemberWellBuilt(members[i], fields) && FlagsOf(members, fields)[i] == FlagOf(members[i], fields)
    decreases |members|
  {
    assert members[i] in members;
    if i > 0 { FlagAt(members[1..], fields, i - 1); }
  }

  /**
   * The tags a member brings, each required if everything on the path to it is: the references
   * around it (`outer`), and its own declaration. A reference in first position of an instance
   * counts as required. What a group's instances hold does not depend on what is around the group.
   */
  function PathFlags(spec: Spec, active: set<nat>, member: Member, first: bool, outer: bool): (r: seq<Flag>)
    decreases Idle(spec, active), member, 0
  {
    match member
    case FieldRef(tag, isRequired) => [Flag(tag, outer && isRequired, [])]
    case GroupDecl(countTag, isRequired, members) => [Flag(countTag, outer && isRequired, InstanceFlags(spec, active, members))]
    case ComponentRef(name, isRequired) =>
      match ComponentIndex(spec.components, name)
      case None => []
      case Some(child) =>
        if child in active then []
        else
          assert child in Idle(spec, active) && child !in Idle(spec, active + {child});
          PathFlagsEach(spec, active + {child}, spec.components[child].members, false, outer && (isRequired || first))
  }

  /** The flags of a group's instances: along the paths, and the first one true. */
  function InstanceFlags(spec: Spec, active: set<nat>, members: seq<Member>): (r: seq<Flag>)
    decreases Idle(spec, active), members, 2
  {
    FirstRequired(PathFlagsEach(spec, active, members, true, true))
  }

  function FirstRequired(flags: seq<Flag>): seq<Flag> {
    if flags == [] then [] else flags[0 := flags[0].(isRequired := true)]
  }

  function PathFlagsEach(spec: Spec, active: set<nat>, members: seq<Member>, first: bool, outer: bool): (r: seq<Flag>)
    decreases Idle(spec, active), members, 1
  {
    if members == [] then []
    else PathFlags(spec, active, members[0], first, outer) + PathFlagsEach(spec, active, members[1..], false, outer)
  }

  function Weakened(flags: seq<Flag>, outer: bool): (r: seq<Flag>)
    ensures |r| == |flags|
  {
    seq(|flags|, i requires 0 <= i < |flags| => flags[i].(isRequired := outer && flags[i].isRequired))
  }

  lemma FlagsOfSpliced(expansion: seq<ResolvedMember>, isRequired: bool, fields: seq<FieldDef>)
    requires WellBuilt(expansion, fields)
    ensures WellBuilt(Spliced(expansion, isRequired), fields)
    ensures FlagsOf(Spliced(expansion, isRequired), fields) == Weakened(FlagsOf(expansion, fields), isRequired)
  {
    SplicedWellBuilt(expansion, isRequired, fields);
    forall i | 0 <= i < |expansion|
      ensures FlagsOf(Spliced(expansion, isRequired), fields)[i] == Weakened(FlagsOf(expansion, fields), isRequired)[i]
    {
      FlagAt(expansion, fields, i);
      FlagAt(Spliced(expansion, isRequired), fields, i);
    }
  }

  lemma {:induction false} FlagsOfJoined(a: seq<ResolvedMember>, b: seq<ResolvedMember>, fields: seq<FieldDef>)
    requires WellBuilt(a, fields) && WellBuilt(b, fields)
    ensures WellBuilt(a + b, fields) && FlagsOf(a + b, fields) == FlagsOf(a, fields) + FlagsOf(b, fields)
    decreases |a|
  {
    forall m | m in a + b ensures MemberWellBuilt(m, fields) {}
    if a == [] {
      assert a + b == b;
    } else {
      assert (a + b)[1..] == a[1..] + b;
      FlagsOfJoined(a[1..], b, fields);
    }
  }

  lemma WeakenedJoined(a: seq<Flag>, b: seq<Flag>, outer: bool)
    ensures Weakened(a + b, outer) == Weakened(a, outer) + Weakened(b, outer)
  {
  }

  lemma WeakenedTwice(flags: seq<Flag>, a: bool, b: bool)
    ensures Weakened(Weakened(flags, a), b) == Weakened(flags, b && a)
  {
  }

  lemma WeakenedByNothing(flags: seq<Flag>)
    ensures Weakened(flags, true) == flags
  {
  }

  lemma FlagsOfSoleGroup(component: Component, members: seq<ResolvedMember>, fields: seq<FieldDef>)
    requires WellBuilt(members, fields)
    ensures WellBuilt(NameSoleGroup(component, members), fields)
    ensures FlagsOf(NameSoleGroup(component, members), fields) == FlagsOf(members, fields)
  {
    assert members != [] ==> members[0] in members && MemberWellBuilt(members[0], fields);
  }

  lemma FlagsOfInstance(members: seq<ResolvedMember>, fields: seq<FieldDef>)
    requires WellBuilt(members, fields)
    ensures WellBuilt(RequireFirst(members), fields)
    ensures FlagsOf(RequireFirst(members), fields) == FirstRequired(FlagsOf(members, fields))
  {
    if members != [] {
      assert members[0] in members && MemberWellBuilt(members[0], fields);
      forall m | m in RequireFirst(members) ensures MemberWellBuilt(m, fields) {
        assert m == Require(members[0]) || m in members;
      }
      assert RequireFirst(members)[1..] == members[1..];
    }
  }

  /** Flags in a resolved list, weakened by what is around it, are the conjunctions along the paths. */
  lemma {:induction false} FlagsAlongPaths(spec: Spec, active: set<nat>, member: Member, context: MemberContext, first: bool, outer: bool)
    requires Inline(spec, active, member, context, first).Ok?
    ensures Weakened(FlagsOf(Inline(spec, active, member, context, first).value, spec.fields), outer)
         == PathFlags(spec, active, member, first, outer)
    decreases Idle(spec, active), member, 0
  {
    match member
    case FieldRef(_, _) => OneFlag(Inline(spec, active, member, context, first).value, spec.fields, outer);
    case GroupDecl(countTag, _, members) =>
      GroupFlags(spec, active, member, context, first);
      OneFlag(Inline(spec, active, member, context, first).value, spec.fields, outer);
    case ComponentRef(name, isRequired) =>
      var child := ComponentIndex(spec.components, name).value;
      var inside, required := active + {child}, isRequired || first;
      hide InlineComponent, FlagsOf, Weakened;
      assert child in Idle(spec, active) && child !in Idle(spec, inside);
      ComponentFlags(spec, inside, child, outer && required);
      var expansion := InlineComponent(spec, inside, child).value;
      FlagsOfSpliced(expansion, required, spec.fields);
      WeakenedTwice(FlagsOf(expansion, spec.fields), required, outer);
  }

  /** And so are the flags of a component's members. */
  lemma {:induction false} ComponentFlags(spec: Spec, active: set<nat>, index: nat, outer: bool)
    requires index < |spec.components| && InlineComponent(spec, active, index).Ok?
    ensures Weakened(FlagsOf(InlineComponent(spec, active, index).value, spec.fields), outer)
         == PathFlagsEach(spec, active, spec.components[index].members, false, outer)
    decreases Idle(spec, active), spec.components[index].members, 3
  {
    hide FlagsOf, Weakened, PathFlagsEach, InlineEach;
    var component := spec.components[index];
    var inner := InComponent(component.name);
    assert InlineList(spec, active, component.members, inner, false).Ok?;
    FlagsAlongPathsEach(spec, active, component.members, inner, false, outer);
    FlagsOfSoleGroup(component, InlineEach(spec, active, component.members, inner, false).value, spec.fields);
  }

  lemma {:induction false} FlagsAlongPathsEach(spec: Spec, active: set<nat>, members: seq<Member>, context: MemberContext, first: bool, outer: bool)
    requires InlineEach(spec, active, members, context, first).Ok?
    ensures Weakened(FlagsOf(InlineEach(spec, active, members, context, first).value, spec.fields), outer)
         == PathFlagsEach(spec, active, members, first, outer)
    decreases Idle(spec, active), members, 1
  {
    if members != [] {
      FlagsAlongPaths(spec, active, members[0], context, first, outer);
      FlagsAlongPathsEach(spec, active, members[1..], context, false, outer);
      var head, rest := Inline(spec, active, members[0], context, first).value, InlineEach(spec, active, members[1..], context, false).value;
      FlagsOfJoined(head, rest, spec.fields);
      WeakenedJoined(FlagsOf(head, spec.fields), FlagsOf(rest, spec.fields), outer);
    }
  }

  lemma OneFlag(members: seq<ResolvedMember>, fields: seq<FieldDef>, outer: bool)
    requires WellBuilt(members, fields) && |members| == 1
    ensures MemberWellBuilt(members[0], fields)
    ensures var flag := FlagOf(members[0], fields);
            Weakened(FlagsOf(members, fields), outer) == [flag.(isRequired := outer && flag.isRequired)]
  {
    assert members[0] in members;
    assert members[1..] == [];
  }

  lemma {:induction false} GroupFlags(spec: Spec, active: set<nat>, member: Member, context: MemberContext, first: bool)
    requires member.GroupDecl? && Inline(spec, active, member, context, first).Ok?
    ensures var r := Inline(spec, active, member, context, first).value;
            && |r| == 1 && MemberWellBuilt(r[0], spec.fields)
            && FlagOf(r[0], spec.fields) == Flag(member.countTag, member.isRequired, InstanceFlags(spec, active, member.members))
    decreases Idle(spec, active), member.members, 3
  {
    var r := Inline(spec, active, member, context, first).value;
    assert r[0] in r;
    var instance := InGroup(spec.fields[FieldIndexIn(spec, member.countTag, context).value].name, context);
    ListFlags(spec, active, member.members, instance, true);
  }

  /**
   * The flags of a whole list, at every depth: conjunctions along the paths, and in each group's
   * instances the first one true.
   */
  lemma {:induction false} ListFlags(spec: Spec, active: set<nat>, members: seq<Member>, context: MemberContext, isInstance: bool)
    requires InlineList(spec, active, members, context, isInstance).Ok?
    ensures FlagsOf(InlineList(spec, active, members, context, isInstance).value, spec.fields)
         == if isInstance then InstanceFlags(spec, active, members) else PathFlagsEach(spec, active, members, false, true)
    decreases Idle(spec, active), members, 2
  {
    FlagsAlongPathsEach(spec, active, members, context, isInstance, true);
    var list := InlineEach(spec, active, members, context, isInstance).value;
    WeakenedByNothing(FlagsOf(list, spec.fields));
    FlagsOfInstance(list, spec.fields);
  }

  /** Every flag of a resolved dictionary, at every depth of header, messages and trailer. */
  lemma ResolvedFlags(spec: Spec, i: nat)
    requires InlineSpec(spec).Ok? && i < |spec.messages|
    ensures var resolved, fields := InlineSpec(spec).value, spec.fields;
            && |resolved.messages| == |spec.messages|
            && WellBuilt(resolved.header, fields) && WellBuilt(resolved.messages[i], fields) && WellBuilt(resolved.trailer, fields)
            && FlagsOf(resolved.header, fields) == PathFlagsEach(spec, {}, spec.header, false, true)
            && FlagsOf(resolved.messages[i], fields) == PathFlagsEach(spec, {}, spec.messages[i].members, false, true)
            && FlagsOf(resolved.trailer, fields) == PathFlagsEach(spec, {}, spec.trailer, false, true)
  {
    hide InlineList, FlagsOf, PathFlagsEach, SpecProblem, CheckComponents, InsertUniqueTags, WellBuilt, InlineMessages;
    var resolved := InlineSpec(spec).value;
    EachMessageResolves(spec, spec.messages, resolved.header, resolved.trailer, i);
    ListFlags(spec, {}, spec.header, InHeader, false);
    ListFlags(spec, {}, spec.messages[i].members, InMessage(spec.messages[i].name), false);
    ListFlags(spec, {}, spec.trailer, InTrailer, false);
  }

  /** Every tag in `members` at any depth, group count tags included, in order. */
  function TagsOf(members: seq<ResolvedMember>, fields: seq<FieldDef>): (r: seq<Tag>)
    requires WellBuilt(members, fields)
    decreases members
  {
    if members == [] then []
    else
      assert members[0] in members && MemberWellBuilt(members[0], fields);
      [fields[FirstField(members[0])].tag]
      + (if members[0].Group? then TagsOf(members[0].members, fields) else [])
      + TagsOf(members[1..], fields)
  }

  function SetOf(tags: seq<Tag>): set<Tag> {
    set t | t in tags
  }

  predicate Apart(tags: seq<Tag>, seen: set<Tag>) {
    forall i :: 0 <= i < |tags| ==> tags[i] !in seen
  }

  lemma DistinctJoined(a: seq<Tag>, b: seq<Tag>)
    ensures Distinct(a + b) <==> Distinct(a) && Distinct(b) && Apart(b, SetOf(a))
  {
    var c := a + b;
    if Distinct(c) {
      forall i, j | 0 <= i < j < |a| ensures a[i] != a[j] { assert c[i] != c[j]; }
      forall i, j | 0 <= i < j < |b| ensures b[i] != b[j] { assert c[|a| + i] != c[|a| + j]; }
      forall i, j | 0 <= i < |a| && 0 <= j < |b| ensures a[i] != b[j] { assert c[i] != c[|a| + j]; }
    }
    if Distinct(a) && Distinct(b) && Apart(b, SetOf(a)) {
      forall i, j | 0 <= i < j < |c| ensures c[i] != c[j] {
        if i < |a| <= j { assert c[i] in a; }
      }
    }
  }

  lemma ApartJoined(a: seq<Tag>, b: seq<Tag>, seen: set<Tag>)
    ensures Apart(a + b, seen) <==> Apart(a, seen) && Apart(b, seen)
  {
    assert forall i :: 0 <= i < |a| ==> (a + b)[i] == a[i];
    assert forall i :: 0 <= i < |b| ==> (a + b)[|a| + i] == b[i];
  }

  /** A tag, the tags inside it and the tags after it are new and distinct exactly when each part is in turn. */
  lemma DistinctInTurn(tag: Tag, inner: seq<Tag>, later: seq<Tag>, seen: set<Tag>)
    ensures Distinct([tag] + inner + later) && Apart([tag] + inner + later, seen) <==>
            && tag !in seen
            && Distinct(inner) && Apart(inner, seen + {tag})
            && Distinct(later) && Apart(later, seen + {tag} + SetOf(inner))
    ensures SetOf([tag] + inner + later) == {tag} + SetOf(inner) + SetOf(later)
  {
    DistinctJoined([tag] + inner, later);
    DistinctJoined([tag], inner);
    ApartJoined([tag] + inner, later, seen);
    ApartJoined([tag], inner, seen);
    assert SetOf([tag]) == {tag};
    assert SetOf([tag] + inner) == {tag} + SetOf(inner);
  }

  /** The tags are all recorded exactly when none repeats and none was seen before. */
  lemma {:induction false} InsertingChecksDistinctness(members: seq<ResolvedMember>, context: MemberContext, fields: seq<FieldDef>, seen: map<Tag, MemberContext>)
    requires WellBuilt(members, fields)
    ensures var r, tags := InsertUniqueTags(members, context, fields, seen), TagsOf(members, fields);
            && (r.Ok? <==> Distinct(tags) && Apart(tags, seen.Keys))
            && (r.Ok? ==> r.value.Keys == seen.Keys + SetOf(tags))
    decreases members
  {
    hide Distinct, Apart, SetOf, InsertUniqueTags, TagsOf, WellBuilt, MemberWellBuilt, InsertFirst;
    if members == [] {
      NothingToInsert(context, fields, seen);
    } else {
      FirstIsWellBuilt(members, fields);
      InsertInTurn(members, context, fields, seen);
      var member, rest := members[0], members[1..];
      var tag := fields[FirstField(member)].tag;
      var inner := if member.Group? then TagsOf(member.members, fields) else [];
      DistinctInTurn(tag, inner, TagsOf(rest, fields), seen.Keys);
      var first := InsertFirst(member, context, fields, seen);
      if tag !in seen && member.Group? {
        InsertingChecksDistinctness(member.members, InGroup(fields[member.countIndex].name, context), fields, seen[tag := context]);
      }
      InsertFirstChecks(member, context, fields, seen);
      if first.Ok? { InsertingChecksDistinctness(rest, context, fields, first.value); }
    }
  }

  /** Recording the first member's tag, and those inside it. */
  function InsertFirst(member: ResolvedMember, context: MemberContext, fields: seq<FieldDef>, seen: map<Tag, MemberContext>)
    : (r: Result<map<Tag, MemberContext>, Error>)
    requires MemberWellBuilt(member, fields)
  {
    var tag := fields[FirstField(member)].tag;
    if tag in seen then Err(DuplicateField(tag, seen[tag], context))
    else if member.Group? then
      InsertUniqueTags(member.members, InGroup(fields[member.countIndex].name, context), fields, seen[tag := context])
    else Ok(seen[tag := context])
  }

  lemma FirstIsWellBuilt(members: seq<ResolvedMember>, fields: seq<FieldDef>)
    requires members != [] && WellBuilt(members, fields)
    ensures MemberWellBuilt(members[0], fields) && WellBuilt(members[1..], fields) && FirstField(members[0]) < |fields|
    ensures members[0].Group? ==> WellBuilt(members[0].members, fields)
  {
    assert members[0] in members;
  }

  lemma NothingToInsert(context: MemberContext, fields: seq<FieldDef>, seen: map<Tag, MemberContext>)
    ensures WellBuilt([], fields) && InsertUniqueTags([], context, fields, seen) == Ok(seen) && TagsOf([], fields) == []
    ensures Distinct<Tag>([]) && Apart([], seen.Keys) && SetOf([]) == {}
  {
    NothingIsDistinct(seen.Keys);
  }

  /** A list's tags are recorded in turn: its first member's, and then the rest's. */
  lemma InsertInTurn(members: seq<ResolvedMember>, context: MemberContext, fields: seq<FieldDef>, seen: map<Tag, MemberContext>)
    requires members != [] && WellBuilt(members, fields)
    requires MemberWellBuilt(members[0], fields) && WellBuilt(members[1..], fields)
    ensures InsertUniqueTags(members, context, fields, seen) ==
            match InsertFirst(members[0], context, fields, seen)
            case Err(error) => Err(error)
            case Ok(seen') => InsertUniqueTags(members[1..], context, fields, seen')
    ensures TagsOf(members, fields)
         == [fields[FirstField(members[0])].tag]
            + (if members[0].Group? then TagsOf(members[0].members, fields) else []) + TagsOf(members[1..], fields)
  {
    hide WellBuilt;
  }

  lemma InsertFirstChecks(member: ResolvedMember, context: MemberContext, fields: seq<FieldDef>, seen: map<Tag, MemberContext>)
    requires MemberWellBuilt(member, fields)
    requires var tag := fields[FirstField(member)].tag;
             tag !in seen && member.Group? ==>
               var r, tags := InsertUniqueTags(member.members, InGroup(fields[member.countIndex].name, context), fields, seen[tag := context]),
                              TagsOf(member.members, fields);
               && (r.Ok? <==> Distinct(tags) && Apart(tags, seen[tag := context].Keys))
               && (r.Ok? ==> r.value.Keys == seen[tag := context].Keys + SetOf(tags))
    ensures var tag, r := fields[FirstField(member)].tag, InsertFirst(member, context, fields, seen);
            var inner := if member.Group? then TagsOf(member.members, fields) else [];
            && (r.Ok? <==> tag !in seen && Distinct(inner) && Apart(inner, seen.Keys + {tag}))
            && (r.Ok? ==> r.value.Keys == seen.Keys + {tag} + SetOf(inner))
  {
    hide Distinct, Apart, SetOf, InsertUniqueTags, TagsOf;
    var tag := fields[FirstField(member)].tag;
    assert seen[tag := context].Keys == seen.Keys + {tag};
    NothingIsDistinct(seen.Keys + {tag});
  }

  lemma NothingIsDistinct(seen: set<Tag>)
    ensures Distinct<Tag>([]) && Apart([], seen) && SetOf([]) == {}
  {
  }

  /** A resolved list uses no tag twice, at any depth. */
  lemma ListTagsAreDistinct(spec: Spec, active: set<nat>, members: seq<Member>, context: MemberContext, isInstance: bool)
    requires InlineList(spec, active, members, context, isInstance).Ok?
    ensures Distinct(TagsOf(InlineList(spec, active, members, context, isInstance).value, spec.fields))
  {
    var list := InlineList(spec, active, members, context, isInstance).value;
    InsertingChecksDistinctness(list, context, spec.fields, map[]);
  }

  /** A message resolves exactly when its members do and header, message and trailer use no tag twice. */
  lemma MessageTagsAreDistinct(spec: Spec, message: Message, header: seq<ResolvedMember>, trailer: seq<ResolvedMember>)
    requires WellBuilt(header, spec.fields) && WellBuilt(trailer, spec.fields)
    ensures var members := InlineList(spec, {}, message.members, InMessage(message.name), false);
            && (InlineMessage(spec, message, header, trailer).Ok? <==>
                  && members.Ok?
                  && Distinct(TagsOf(header, spec.fields) + TagsOf(members.value, spec.fields) + TagsOf(trailer, spec.fields)))
            && (InlineMessage(spec, message, header, trailer).Ok? ==> InlineMessage(spec, message, header, trailer) == members)
  {
    var context, fields := InMessage(message.name), spec.fields;
    var list := InlineList(spec, {}, message.members, context, false);
    if list.Ok? {
      var h, m, t := TagsOf(header, fields), TagsOf(list.value, fields), TagsOf(trailer, fields);
      DistinctJoined(h + m, t);
      DistinctJoined(h, m);
      assert SetOf(h + m) == SetOf(h) + SetOf(m);
      InsertingChecksDistinctness(header, InHeader, fields, map[]);
      var seen := InsertUniqueTags(header, InHeader, fields, map[]);
      if seen.Ok? {
        InsertingChecksDistinctness(list.value, context, fields, seen.value);
        var seen' := InsertUniqueTags(list.value, context, fields, seen.value);
        if seen'.Ok? {
          InsertingChecksDistinctness(trailer, InTrailer, fields, seen'.value);
        }
      }
    }
  }

  lemma {:induction false} EachMessageResolves(spec: Spec, messages: seq<Message>, header: seq<ResolvedMember>, trailer: seq<ResolvedMember>, i: nat)
    requires WellBuilt(header, spec.fields) && WellBuilt(trailer, spec.fields)
    requires InlineMessages(spec, messages, header, trailer).Ok? && i < |messages|
    ensures |InlineMessages(spec, messages, header, trailer).value| == |messages|
    ensures InlineMessage(spec, messages[i], header, trailer) == Ok(InlineMessages(spec, messages, header, trailer).value[i])
    decreases i
  {
    MessageCount(spec, messages, header, trailer);
    if i > 0 {
      EachMessageResolves(spec, messages[1..], header, trailer, i - 1);
    }
  }

  lemma {:induction false} MessageCount(spec: Spec, messages: seq<Message>, header: seq<ResolvedMember>, trailer: seq<ResolvedMember>)
    requires WellBuilt(header, spec.fields) && WellBuilt(trailer, spec.fields)
    requires InlineMessages(spec, messages, header, trailer).Ok?
    ensures |InlineMessages(spec, messages, header, trailer).value| == |messages|
    decreases |messages|
  {
    if messages != [] { MessageCount(spec, messages[1..], header, trailer); }
  }

  lemma {:induction false} TagsOfJoined(a: seq<ResolvedMember>, b: seq<ResolvedMember>, fields: seq<FieldDef>)
    requires WellBuilt(a, fields) && WellBuilt(b, fields)
    ensures WellBuilt(a + b, fields) && TagsOf(a + b, fields) == TagsOf(a, fields) + TagsOf(b, fields)
    decreases |a|
  {
    forall m | m in a + b ensures MemberWellBuilt(m, fields) {}
    if a == [] {
      assert a + b == b;
    } else {
      assert (a + b)[1..] == a[1..] + b;
      TagsOfJoined(a[1..], b, fields);
    }
  }
}
