/** The statements of an `.api` file, what is built from them, and the errors they can cause. */
module ApiStatements {
  import ApiTypes

  datatype Flag = ManualPrint | ManualEndian | DontTrace | AutoEndian | AutoReply | IndexReply

  datatype Service = Service(caller: string, reply: string, events: seq<string>, stream: bool)

  /** `crc` is what the message's hasher has absorbed. */
  datatype Message = Message(name: string, fields: seq<ApiTypes.Field>, flags: seq<Flag>, crc: string)

  /** An import holds the statements of the file it names. */
  datatype Statement =
    | Define(name: string, fields: seq<ApiTypes.Field>, flags: seq<Flag>)
    | TypedefBlock(name: string, fields: seq<ApiTypes.Field>)
    | Typedef(field: ApiTypes.Field)
    | Enum(name: string, width: string, block: seq<ApiTypes.EnumStatement>)
    | EnumFlag(name: string, width: string, block: seq<ApiTypes.EnumStatement>)
    | Union(name: string, fields: seq<ApiTypes.Field>)
    | Import(file: string, contents: seq<Statement>)
    | OptionStatement(option: string)
    | Services(services: seq<Service>)

  datatype Error =
    | TypeResolution(ty: string)
    | TypeRedefinition(ty: string)
    | MissingReplyMessageForMessage(message: string, reply: string)
    | ServiceRefersUndefinedMessage(message: string)
    | ServiceRefersUndefinedMessageReply(reply: string)
    | ServiceRefersUndefinedEvent(event: string, message: string)
    | ServiceCallerUsedAsReply(message: string)
    | MissingCallerMessageForReply(message: string, reply: string)
    | ExplicitGetServiceRequiredDetails(get: string, message: string)
    | MissingDetailsMessageForDump(details: string, message: string)
    | MissingDumpGetForDetailsMessage(get: string, dump: string, message: string)
    | VlaFieldNotLast(field: string, ty: string)
    | VlaFieldUnion(field: string, ty: string)
    | ArrayVariableNotFound(field: string, variable: string)
    | StringNotArray(field: string)

  datatype Result<+T> = Ok(value: T) | Err(error: Error)
}
