/** What a spec's definitions must meet before anything in it is resolved. */
module SpecChecks {
  import opened Wrappers
  import opened Bytes
  import opened Sequences
  import opened Tags
  import opened Dictionary

  /** `str::parse::<i64>`: an optional sign and at least one digit, within range. */
  function ParseI64(s: bytes): (r: Option<i64>) {
    var digits := if s != [] && s[0] in {MINUS, PLUS} then s[1..] else s;
    if digits == [] || !AllDigits(digits) then None
    else
      var n: int := DigitsValue(digits);
      var signed := if s[0] == MINUS then -n else n;
      if I64_MIN <= signed <= I64_MAX then Some(signed) else None
  }

  /** The text writes `n` in an i64's range: digits, after a sign or none. */
  ghost predicate WritesI64(s: bytes, n: int) {
    I64_MIN <= n <= I64_MAX && exists digits, size: nat :: Writes(digits, size) && SignedAs(s, n, digits, size)
  }

  predicate SignedAs(s: bytes, n: int, digits: bytes, size: nat) {
    ((s == digits || s == [PLUS] + digits) && n == size) || (s == [MINUS] + digits && n + size == 0)
  }

  /** Parsing gives exactly the number the text writes. */
  lemma ParseI64Is(s: bytes, n: int)
    ensures ParseI64(s) == Some(n) <==> WritesI64(s, n)
  {
    hide DigitsValue;
    if ParseI64(s) == Some(n) {
      var digits := if s[0] in {MINUS, PLUS} then s[1..] else s;
      assert s[0] in {MINUS, PLUS} ==> s == [s[0]] + digits;
      assert Writes(digits, DigitsValue(digits)) && SignedAs(s, n, digits, DigitsValue(digits));
    }
    if WritesI64(s, n) {
      var digits, size: nat :| Writes(digits, size) && SignedAs(s, n, digits, size);
      assert IsDigit(digits[0]);
      assert s != digits ==> s[1..] == digits;
    }
  }

  function IntText(n: int): (s: bytes) {
    if n < 0 then [MINUS] + Decimal(-n) else Decimal(n)
  }

  lemma TextParses(n: int)
    requires I64_MIN <= n <= I64_MAX
    ensures ParseI64(IntText(n)) == Some(n)
  {
    if n < 0 {
      DecimalRoundTrip(-n);
      assert IntText(n)[1..] == Decimal(-n);
    } else {
      DecimalRoundTrip(n);
      assert IsDigit(Decimal(n)[0]);
    }
  }

  /** A FIX integer: digits after an optional minus, within range. */
  predicate IsInteger(s: bytes) {
    var digits := if StartsWith(s, [MINUS]) then s[1..] else s;
    digits != [] && AllDigits(digits) && ParseI64(s).Some?
  }

  /** A FIX integer is digits, after a minus sign or none, that write a number in an i64's range. */
  lemma IsIntegerExactly(s: bytes)
    ensures IsInteger(s) <==> exists n :: WritesI64(s, n) && !StartsWith(s, [PLUS])
  {
    hide DigitsValue;
    if IsInteger(s) { ParseI64Is(s, ParseI64(s).value); }
    forall n | WritesI64(s, n) && !StartsWith(s, [PLUS]) ensures IsInteger(s) {
      ParseI64Is(s, n);
      var digits, size: nat :| Writes(digits, size) && SignedAs(s, n, digits, size);
      assert IsDigit(digits[0]);
      assert s == [MINUS] + digits ==> s[..1] == [MINUS] && s[1..] == digits;
    }
  }

  /** A code in the form every code for its value shares. */
  function CanonicalCode(dataType: DataType, code: bytes): (r: bytes) {
    match ParseI64(code)
    case Some(number) => if IsIntBased(dataType) then IntText(number) else code
    case None => code
  }

  /** Codes for the same value: equal, or on an int-based field writing the same number. */
  predicate SameCode(dataType: DataType, a: bytes, b: bytes) {
    a == b || (IsIntBased(dataType) && ParseI64(a).Some? && ParseI64(a) == ParseI64(b))
  }

  lemma CanonicalCodesAgree(dataType: DataType, a: bytes, b: bytes)
    ensures CanonicalCode(dataType, a) == CanonicalCode(dataType, b) <==> SameCode(dataType, a, b)
  {
    hide ParseI64, IntText;
    if ParseI64(a).Some? { TextParses(ParseI64(a).value); }
    if ParseI64(b).Some? { TextParses(ParseI64(b).value); }
  }

  function NonInteger(values: seq<bytes>): (r: Option<bytes>)
    ensures r.Some? ==> r.value in values && !IsInteger(r.value)
    ensures r.None? ==> forall v :: v in values ==> IsInteger(v)
  {
    if values == [] then None
    else if !IsInteger(values[0]) then Some(values[0])
    else NonInteger(values[1..])
  }

  /** The first value, field by field, that an int-based field lists and that is no integer. */
  function IntValueProblem(fields: seq<FieldDef>): (r: Option<Error>)
    ensures r.Some? ==> r.value.NonIntegerValue?
    ensures r.None? <==> forall f :: f in fields && IsIntBased(f.dataType) ==> NonInteger(f.values).None?
  {
    if fields == [] then None
    else
      match if IsIntBased(fields[0].dataType) then NonInteger(fields[0].values) else None
      case Some(value) => Some(NonIntegerValue(fields[0].name, value))
      case None => IntValueProblem(fields[1..])
  }

  method CheckIntValues(fields: seq<FieldDef>) returns (problem: Option<Error>)
    ensures problem == IntValueProblem(fields)
  {
    for i := 0 to |fields|
      invariant IntValueProblem(fields) == IntValueProblem(fields[i..])
    {
      assert fields[i..][1..] == fields[i + 1..];
      if IsIntBased(fields[i].dataType) {
        var value := NonInteger(fields[i].values);
        if value.Some? { return Some(NonIntegerValue(fields[i].name, value.value)); }
      }
    }
    return None;
  }

  /** The codes `field` lists, each in its canonical form. */
  function Codes(field: FieldDef): (r: seq<bytes>)
    ensures |r| == |field.values|
    ensures forall i :: 0 <= i < |r| ==> r[i] == CanonicalCode(field.dataType, field.values[i])
  {
    seq(|field.values|, i requires 0 <= i < |field.values| => CanonicalCode(field.dataType, field.values[i]))
  }

  /** The first two values, field by field, that a field lists under one code. */
  function CodeProblem(fields: seq<FieldDef>): (r: Option<Error>)
    ensures r.Some? ==> r.value.RepeatedCode?
    ensures r.None? <==> forall f :: f in fields ==> FirstRepeat(Codes(f)).None?
  {
    if fields == [] then None
    else
      match FirstRepeat(Codes(fields[0]))
      case Some((i, j)) => Some(RepeatedCode(fields[0].name, fields[0].values[i], fields[0].values[j]))
      case None => CodeProblem(fields[1..])
  }

  method CheckUniqueCodes(fields: seq<FieldDef>) returns (problem: Option<Error>)
    ensures problem == CodeProblem(fields)
  {
    for i := 0 to |fields|
      invariant CodeProblem(fields) == CodeProblem(fields[i..])
    {
      assert fields[i..][1..] == fields[i + 1..];
      var _, repeat := IndexEach(Codes(fields[i]));
      if repeat.Some? {
        var (first, second) := repeat.value;
        return Some(RepeatedCode(fields[i].name, fields[i].values[first], fields[i].values[second]));
      }
    }
    return None;
  }

  function MsgTypes(messages: seq<Message>): (r: seq<string>)
    ensures |r| == |messages| && forall i :: 0 <= i < |r| ==> r[i] == messages[i].msgType
  {
    seq(|messages|, i requires 0 <= i < |messages| => messages[i].msgType)
  }

  /** The first two messages that declare the same MsgType. */
  function MsgTypeProblem(messages: seq<Message>): (r: Option<Error>) {
    match FirstRepeat(MsgTypes(messages))
    case Some((i, j)) => Some(DuplicateMsgType(messages[j].msgType, messages[i].name, messages[j].name))
    case None => None
  }

  method CheckUniqueMsgTypes(messages: seq<Message>) returns (problem: Option<Error>)
    ensures problem == MsgTypeProblem(messages)
  {
    var _, repeat := IndexEach(MsgTypes(messages));
    if repeat.None? { return None; }
    var (first, second) := repeat.value;
    return Some(DuplicateMsgType(messages[second].msgType, messages[first].name, messages[second].name));
  }

  function FieldTags(fields: seq<FieldDef>): (r: seq<Tag>)
    ensures |r| == |fields| && forall i :: 0 <= i < |r| ==> r[i] == fields[i].tag
  {
    seq(|fields|, i requires 0 <= i < |fields| => fields[i].tag)
  }

  /** The index of the field defined with `tag`. */
  function FieldIndex(fields: seq<FieldDef>, tag: Tag): (r: Option<nat>)
    ensures r.Some? ==> r.value < |fields| && fields[r.value].tag == tag
    ensures r.None? ==> forall i :: 0 <= i < |fields| ==> fields[i].tag != tag
  {
    IndexOf(FieldTags(fields), tag)
  }

  function ComponentNames(components: seq<Component>): (r: seq<string>)
    ensures |r| == |components| && forall i :: 0 <= i < |r| ==> r[i] == components[i].name
  {
    seq(|components|, i requires 0 <= i < |components| => components[i].name)
  }

  function ComponentIndex(components: seq<Component>, name: string): (r: Option<nat>)
    ensures r.Some? ==> r.value < |components| && components[r.value].name == name
    ensures r.None? ==> forall i :: 0 <= i < |components| ==> components[i].name != name
  {
    IndexOf(ComponentNames(components), name)
  }

  /** The field before `i` that gives the same length tag. */
  function EarlierLink(fields: seq<FieldDef>, i: nat, tag: Tag): (r: Option<nat>)
    requires i <= |fields|
    ensures r.Some? ==> r.value < i && fields[r.value].lengthTag == Some(tag)
    ensures r.None? ==> forall j :: 0 <= j < i ==> fields[j].lengthTag != Some(tag)
  {
    if i == 0 then None
    else if fields[i - 1].lengthTag == Some(tag) then Some(i - 1)
    else EarlierLink(fields, i - 1, tag)
  }

  /** What is wrong with the length tag of field `i`: only a data field takes one, from a LENGTH field of its own. */
  function LinkProblem(fields: seq<FieldDef>, i: nat): (r: Option<Error>)
    requires i < |fields|
  {
    var field := fields[i];
    match field.lengthTag
    case None => None
    case Some(tag) =>
      if !HasLengthField(field.dataType) then Some(UnexpectedLengthTag(field.name, tag))
      else
        match FieldIndex(fields, tag)
        case None => Some(UnknownLengthTag(field.name, tag))
        case Some(k) =>
          if !fields[k].dataType.Length? then Some(NonLengthField(field.name, fields[k].name))
          else
            match EarlierLink(fields, i, tag)
            case None => None
            case Some(j) => Some(SharedLengthField(fields[k].name, fields[j].name, field.name))
  }

  /** The first problem with a length tag from field `i` on. */
  function LengthTagProblem(fields: seq<FieldDef>, i: nat): (r: Option<Error>)
    ensures r.Some? ==> !r.value.CircularComponent?
    ensures r.None? <==> forall j :: i <= j < |fields| ==> LinkProblem(fields, j).None?
    decreases |fields| - i
  {
    if i >= |fields| then None
    else if LinkProblem(fields, i).Some? then LinkProblem(fields, i)
    else LengthTagProblem(fields, i + 1)
  }

  method CheckLengthTags(fields: seq<FieldDef>, fieldsByTag: map<Tag, nat>) returns (problem: Option<Error>)
    requires Indexes(fieldsByTag, FieldTags(fields))
    ensures problem == LengthTagProblem(fields, 0)
  {
    var byLengthTag: map<Tag, string> := map[];
    for i := 0 to |fields|
      invariant LengthTagProblem(fields, 0) == LengthTagProblem(fields, i)
      invariant forall t :: t in byLengthTag <==> EarlierLink(fields, i, t).Some?
      invariant forall t :: t in byLengthTag ==> byLengthTag[t] == fields[EarlierLink(fields, i, t).value].name
    {
      var field := fields[i];
      if field.lengthTag.Some? {
        var tag := field.lengthTag.value;
        assert FieldIndex(fields, tag) == if tag in fieldsByTag then Some(fieldsByTag[tag]) else None;
        if !HasLengthField(field.dataType) { return Some(UnexpectedLengthTag(field.name, tag)); }
        if tag !in fieldsByTag { return Some(UnknownLengthTag(field.name, tag)); }
        var lengthField := fields[fieldsByTag[tag]];
        if !lengthField.dataType.Length? { return Some(NonLengthField(field.name, lengthField.name)); }
        if tag in byLengthTag { return Some(SharedLengthField(lengthField.name, byLengthTag[tag], field.name)); }
        byLengthTag := byLengthTag[tag := field.name];
      }
    }
    return None;
  }

  /** The first tag, in order, that an earlier field has. */
  function RepeatedTag(fields: seq<FieldDef>): (r: Option<Tag>) {
    match FirstRepeat(FieldTags(fields))
    case Some((_, j)) => Some(fields[j].tag)
    case None => None
  }

  function RepeatedName(components: seq<Component>): (r: Option<string>) {
    match FirstRepeat(ComponentNames(components))
    case Some((_, j)) => Some(components[j].name)
    case None => None
  }

  method IndexFields(fields: seq<FieldDef>) returns (r: Result<map<Tag, nat>, Error>)
    ensures RepeatedTag(fields).Some? ==> r == Err(DuplicateTag(RepeatedTag(fields).value))
    ensures RepeatedTag(fields).None? ==> r.Ok? && Indexes(r.value, FieldTags(fields))
  {
    var byTag, repeat := IndexEach(FieldTags(fields));
    return if repeat.Some? then Err(DuplicateTag(fields[repeat.value.1].tag)) else Ok(byTag);
  }

  method IndexComponents(components: seq<Component>) returns (r: Result<map<string, nat>, Error>)
    ensures RepeatedName(components).Some? ==> r == Err(DuplicateComponent(RepeatedName(components).value))
    ensures RepeatedName(components).None? ==> r.Ok? && Indexes(r.value, ComponentNames(components))
  {
    var byName, repeat := IndexEach(ComponentNames(components));
    return if repeat.Some? then Err(DuplicateComponent(components[repeat.value.1].name)) else Ok(byName);
  }

  /** The first problem with a spec's definitions, in the order they are checked. */
  function SpecProblem(spec: Spec): (r: Option<Error>)
    ensures r.Some? ==> !r.value.CircularComponent?
  {
    if IntValueProblem(spec.fields).Some? then IntValueProblem(spec.fields)
    else if CodeProblem(spec.fields).Some? then CodeProblem(spec.fields)
    else if MsgTypeProblem(spec.messages).Some? then MsgTypeProblem(spec.messages)
    else if RepeatedTag(spec.fields).Some? then Some(DuplicateTag(RepeatedTag(spec.fields).value))
    else if LengthTagProblem(spec.fields, 0).Some? then LengthTagProblem(spec.fields, 0)
    else if RepeatedName(spec.components).Some? then Some(DuplicateComponent(RepeatedName(spec.components).value))
    else None
  }

  /** Checks a spec's definitions and indexes its fields and components. */
  method CheckSpec(spec: Spec) returns (r: Result<(map<Tag, nat>, map<string, nat>), Error>)
    ensures SpecProblem(spec).Some? ==> r == Err(SpecProblem(spec).value)
    ensures SpecProblem(spec).None? ==>
              r.Ok? && Indexes(r.value.0, FieldTags(spec.fields)) && Indexes(r.value.1, ComponentNames(spec.components))
  {
    var problem := CheckIntValues(spec.fields);
    if problem.Some? { return Err(problem.value); }
    problem := CheckUniqueCodes(spec.fields);
    if problem.Some? { return Err(problem.value); }
    problem := CheckUniqueMsgTypes(spec.messages);
    if problem.Some? { return Err(problem.value); }
    var fieldsByTag := IndexFields(spec.fields);
    if fieldsByTag.Err? { return Err(fieldsByTag.error); }
    problem := CheckLengthTags(spec.fields, fieldsByTag.value);
    if problem.Some? { return Err(problem.value); }
    var componentsByName := IndexComponents(spec.components);
    if componentsByName.Err? { return Err(componentsByName.error); }
    return Ok((fieldsByTag.value, componentsByName.value));
  }

  /** Every value an int-based field lists is an integer. */
  predicate IntValuesAreIntegers(fields: seq<FieldDef>) {
    forall f, v :: f in fields && IsIntBased(f.dataType) && v in f.values ==> IsInteger(v)
  }

  /** No field lists one value twice, however it is written. */
  predicate ValuesDiffer(fields: seq<FieldDef>) {
    forall f, i, j :: f in fields && 0 <= i < j < |f.values| ==> !SameCode(f.dataType, f.values[i], f.values[j])
  }

  /** Only data fields give a length tag, that of a LENGTH field that no other gives. */
  predicate LengthsAreOwn(fields: seq<FieldDef>) {
    && (forall f :: f in fields && f.lengthTag.Some? ==>
          HasLengthField(f.dataType) && exists l :: l in fields && l.tag == f.lengthTag.value && l.dataType.Length?)
    && forall i, j :: 0 <= i < j < |fields| && fields[i].lengthTag.Some? ==> fields[i].lengthTag != fields[j].lengthTag
  }

  lemma CodesDistinct(field: FieldDef)
    ensures Distinct(Codes(field)) <==>
            forall i, j :: 0 <= i < j < |field.values| ==> !SameCode(field.dataType, field.values[i], field.values[j])
  {
    hide CanonicalCode, SameCode;
    forall i, j | 0 <= i < j < |field.values|
      ensures Codes(field)[i] == Codes(field)[j] <==> SameCode(field.dataType, field.values[i], field.values[j])
    {
      CanonicalCodesAgree(field.dataType, field.values[i], field.values[j]);
    }
  }

  lemma NoCodeProblem(fields: seq<FieldDef>)
    ensures CodeProblem(fields).None? <==> ValuesDiffer(fields)
  {
    hide SameCode, Codes, FirstRepeat, Distinct;
    forall f | f in fields
      ensures FirstRepeat(Codes(f)).None? <==>
              forall i, j :: 0 <= i < j < |f.values| ==> !SameCode(f.dataType, f.values[i], f.values[j])
    {
      CodesDistinct(f);
      RepeatedIffNotDistinct(Codes(f));
    }
  }

  lemma NoIntValueProblem(fields: seq<FieldDef>)
    ensures IntValueProblem(fields).None? <==> IntValuesAreIntegers(fields)
  {
    hide IsInteger;
  }

  lemma OnlyFieldWith(fields: seq<FieldDef>, i: nat)
    requires Distinct(FieldTags(fields)) && i < |fields|
    ensures FieldIndex(fields, fields[i].tag) == Some(i)
  {
    var k := FieldIndex(fields, fields[i].tag).value;
    assert FieldTags(fields)[k] == FieldTags(fields)[i];
  }

  lemma NoLinkProblem(fields: seq<FieldDef>, i: nat)
    requires Distinct(FieldTags(fields)) && i < |fields| && fields[i].lengthTag.Some?
    ensures LinkProblem(fields, i).None? <==>
            && HasLengthField(fields[i].dataType)
            && (exists l :: l in fields && l.tag == fields[i].lengthTag.value && l.dataType.Length?)
            && forall j :: 0 <= j < i ==> fields[j].lengthTag != fields[i].lengthTag
  {
    var tag := fields[i].lengthTag.value;
    if l :| l in fields && l.tag == tag && l.dataType.Length? {
      var k :| 0 <= k < |fields| && fields[k] == l;
      OnlyFieldWith(fields, k);
    }
  }

  lemma NoLengthTagProblem(fields: seq<FieldDef>)
    requires Distinct(FieldTags(fields))
    ensures LengthTagProblem(fields, 0).None? <==> LengthsAreOwn(fields)
  {
    hide LinkProblem, Distinct, HasLengthField;
    forall i | 0 <= i < |fields| && fields[i].lengthTag.Some?
      ensures LinkProblem(fields, i).None? <==>
              && HasLengthField(fields[i].dataType)
              && (exists l :: l in fields && l.tag == fields[i].lengthTag.value && l.dataType.Length?)
              && forall j :: 0 <= j < i ==> fields[j].lengthTag != fields[i].lengthTag
    {
      NoLinkProblem(fields, i);
    }
    forall i | 0 <= i < |fields| && fields[i].lengthTag.None? ensures LinkProblem(fields, i).None? {
      NoLinkWithoutTag(fields, i);
    }
  }

  lemma NoLinkWithoutTag(fields: seq<FieldDef>, i: nat)
    requires i < |fields| && fields[i].lengthTag.None?
    ensures LinkProblem(fields, i).None?
  {
  }

  /** A spec passes the checks exactly when its definitions are consistent. */
  lemma ChecksPassExactly(spec: Spec)
    ensures SpecProblem(spec).None? <==>
            && IntValuesAreIntegers(spec.fields) && ValuesDiffer(spec.fields)
            && Distinct(MsgTypes(spec.messages)) && Distinct(FieldTags(spec.fields))
            && LengthsAreOwn(spec.fields) && Distinct(ComponentNames(spec.components))
  {
    hide IntValueProblem, CodeProblem, LengthTagProblem, IntValuesAreIntegers, ValuesDiffer, LengthsAreOwn, Distinct, FirstRepeat;
    NoIntValueProblem(spec.fields);
    NoCodeProblem(spec.fields);
    RepeatedIffNotDistinct(MsgTypes(spec.messages));
    RepeatedIffNotDistinct(FieldTags(spec.fields));
    RepeatedIffNotDistinct(ComponentNames(spec.components));
    if Distinct(FieldTags(spec.fields)) { NoLengthTagProblem(spec.fields); }
  }

  /** The definitions' rules, in the order they are checked. */
  predicate KeepsRule(spec: Spec, rule: nat) {
    match rule
    case 0 => IntValuesAreIntegers(spec.fields)
    case 1 => ValuesDiffer(spec.fields)
    case 2 => Distinct(MsgTypes(spec.messages))
    case 3 => Distinct(FieldTags(spec.fields))
    case 4 => LengthsAreOwn(spec.fields)
    case 5 => Distinct(ComponentNames(spec.components))
    case _ => true
  }

  /** The rule an error about definitions finds broken. */
  function RuleOf(error: Error): (rule: nat) {
    match error
    case NonIntegerValue(_, _) => 0
    case RepeatedCode(_, _, _) => 1
    case DuplicateMsgType(_, _, _) => 2
    case DuplicateTag(_) => 3
    case UnexpectedLengthTag(_, _) => 4
    case UnknownLengthTag(_, _) => 4
    case NonLengthField(_, _) => 4
    case SharedLengthField(_, _, _) => 4
    case DuplicateComponent(_) => 5
    case _ => 6
  }

  lemma {:induction false} LengthTagErrors(fields: seq<FieldDef>, i: nat)
    ensures var problem := LengthTagProblem(fields, i); problem.Some? ==> RuleOf(problem.value) == 4
    decreases |fields| - i
  {
    if i < |fields| { LengthTagErrors(fields, i + 1); }
  }

  /** The error reported is of the first rule that is broken. */
  lemma FirstBrokenRule(spec: Spec)
    requires SpecProblem(spec).Some?
    ensures var rule := RuleOf(SpecProblem(spec).value);
            !KeepsRule(spec, rule) && forall earlier: nat :: earlier < rule ==> KeepsRule(spec, earlier)
  {
    hide IntValueProblem, CodeProblem, LengthTagProblem, IntValuesAreIntegers, ValuesDiffer, LengthsAreOwn, Distinct, FirstRepeat;
    NoIntValueProblem(spec.fields);
    NoCodeProblem(spec.fields);
    RepeatedIffNotDistinct(MsgTypes(spec.messages));
    RepeatedIffNotDistinct(FieldTags(spec.fields));
    RepeatedIffNotDistinct(ComponentNames(spec.components));
    LengthTagErrors(spec.fields, 0);
    if Distinct(FieldTags(spec.fields)) { NoLengthTagProblem(spec.fields); }
  }
}
