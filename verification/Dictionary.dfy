/** Data dictionaries: a spec as declared, and the members it resolves to. */
module Dictionary {
  import opened Bytes
  import opened Wrappers
  import opened Tags

  /** The types that matter here by name; `Other` is every type with no part in resolving. */
  datatype DataType =
    | Int | Length | NumInGroup | SeqNum | TagNum | DayOfMonth
    | Data | XmlData
    | Other(name: string)

  predicate IsIntBased(dataType: DataType) {
    match dataType
    case Int | Length | NumInGroup | SeqNum | TagNum | DayOfMonth => true
    case _ => false
  }

  /** Whether a field of this type takes its length from another field. */
  predicate HasLengthField(dataType: DataType) {
    dataType.Data? || dataType.XmlData?
  }

  /** A field definition. `values` are the codes it lists. */
  datatype FieldDef = FieldDef(name: string, tag: Tag, dataType: DataType, lengthTag: Option<Tag>, values: seq<bytes>)

  /** A member of a message, component or group instance, as declared. */
  datatype Member =
    | FieldRef(tag: Tag, isRequired: bool)
    | ComponentRef(name: string, isRequired: bool)
    | GroupDecl(countTag: Tag, isRequired: bool, members: seq<Member>)

  datatype Component = Component(name: string, members: seq<Member>)

  datatype Message = Message(name: string, msgType: string, members: seq<Member>)

  datatype Spec = Spec(
    header: seq<Member>,
    messages: seq<Message>,
    trailer: seq<Member>,
    fields: seq<FieldDef>,
    components: seq<Component>)

  /** The place a member appears in. */
  datatype MemberContext =
    | InMessage(message: string)
    | InComponent(component: string)
    | InHeader
    | InTrailer
    | InGroup(name: string, parent: MemberContext)

  /** A member as indices into the spec's fields, components expanded. */
  datatype ResolvedMember =
    | Field(fieldIndex: nat, isRequired: bool)
    | Group(
        countIndex: nat,
        delimiterIndex: nat,
        isRequired: bool,
        declaredIn: MemberContext,
        component: Option<string>,
        members: seq<ResolvedMember>)

  datatype Error =
    | DuplicateTag(tag: Tag)
    | NonIntegerValue(field: string, value: bytes)
    | RepeatedCode(field: string, first: bytes, second: bytes)
    | DuplicateComponent(component: string)
    | DuplicateMsgType(msgType: string, firstMessage: string, secondMessage: string)
    | UnexpectedLengthTag(field: string, tag: Tag)
    | UnknownLengthTag(field: string, tag: Tag)
    | NonLengthField(field: string, lengthField: string)
    | SharedLengthField(lengthField: string, firstField: string, secondField: string)
    | MissingLengthTag(field: string, context: MemberContext)
    | DuplicateField(tag: Tag, firstContext: MemberContext, secondContext: MemberContext)
    | UnknownField(tag: Tag, context: MemberContext)
    | UnknownComponent(component: string, context: MemberContext)
    | CircularComponent(component: string)
    | EmptyGroup(context: MemberContext)

  /** A resolved dictionary. Messages hold their own members, without header and trailer. */
  datatype Resolved = Resolved(header: seq<ResolvedMember>, messages: seq<seq<ResolvedMember>>, trailer: seq<ResolvedMember>)

  /** The field a member starts with on the wire, or a group's count field. */
  function FirstField(member: ResolvedMember): nat {
    match member
    case Field(fieldIndex, _) => fieldIndex
    case Group(countIndex, _, _, _, _, _) => countIndex
  }
}
