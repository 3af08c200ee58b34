/** The statement processing of the parser: a table of types and a list of messages grow, statement
    by statement, or the whole run is given up. */
module ApiParsing {
  import opened Optional
  import opened ApiTypes
  import opened ApiStatements
  import opened ApiCrc
  import opened ApiValidation
  import opened ApiServices

  datatype Parsed = Parsed(table: Table, messages: seq<Message>, services: seq<Service>,
                           imports: seq<string>, options: seq<string>)

  ghost predicate Sound(table: Table) {
    UniqueNames(table) && Grounded(table)
  }

  /** `Statement::crc_data`. */
  function StatementCrc(s: Statement): Option<string> {
    match s
    case Define(_, fields, _) => Some(FieldsCrc(fields))
    case TypedefBlock(_, fields) => Some(FieldsCrc(fields))
    case Typedef(_) => Some("[]")
    case Enum(_, _, block) => Some(EnumCrc(block))
    case EnumFlag(_, _, block) => Some(EnumCrc(block))
    case Union(_, fields) => Some(FieldsCrc(fields))
    case OptionStatement(option) => Some(option)
    case Import(_, _) => None
    case Services(_) => None
  }

  function FileCrc(ss: seq<Statement>): string {
    if ss == [] then ""
    else
      FileCrc(ss[..|ss| - 1]) +
      match StatementCrc(ss[|ss| - 1])
      case Some(data) => data
      case None => ""
  }

  const CONTEXT: Field := Field("u32", "context", None)
  const RETVAL: Field := Field("i32", "retval", None)
  const INDEX: Field := Field("u32", "index", None)

  /** `Message::generated_reply`. */
  function GeneratedReply(m: Message): Option<Message> {
    if AutoReply in m.flags || IndexReply in m.flags then
      var fields := [MSG_ID, CONTEXT, RETVAL] + if AutoReply in m.flags then [] else [INDEX];
      Some(Message(m.name + REPLY, fields, [], FieldsCrc(fields[1..])))
    else None
  }

  /** A defined message and the reply generated for it. */
  function NewMessages(name: string, fields: seq<Field>, flags: seq<Flag>, crc: string): seq<Message> {
    var m := Message(name, [MSG_ID] + fields, flags, crc);
    [m] + match GeneratedReply(m) case None => [] case Some(reply) => [reply]
  }

  lemma RegisterSound(table: Table, e: TypeEntry)
    requires Sound(table) && Find(table, e.name).None?
    requires forall f :: f in FieldsOf(e.details) ==> Refers(table, f, |table|)
    ensures Sound(table + [e])
  {
    RegisterGrounded(table, e);
  }

  function Register(p: Parsed, e: TypeEntry): (r: Result<Parsed>)
    requires Sound(p.table) && forall f :: f in FieldsOf(e.details) ==> Refers(p.table, f, |p.table|)
    ensures r.Ok? ==> Sound(r.value.table)
  {
    if Find(p.table, e.name).Some? then Err(TypeRedefinition(e.name))
    else
      RegisterSound(p.table, e);
      Ok(p.(table := p.table + [e]))
  }

  function RegisterFields(p: Parsed, name: string, fields: seq<Field>, isUnion: bool): (r: Result<Parsed>)
    requires Sound(p.table)
    ensures r.Ok? ==> Sound(r.value.table)
  {
    if FirstError(p.table, name, fields, isUnion, 0).Some? then Err(FirstError(p.table, name, fields, isUnion, 0).value)
    else if FirstUnresolved(p.table, fields).Some? then Err(TypeResolution(FirstUnresolved(p.table, fields).value))
    else
      var crc := FieldsCrc(fields) + ReferencedCrc(p.table, fields);
      Register(p, TypeEntry(name, crc, if isUnion then UnionType(fields) else BlockType(fields)))
  }

  function DefineMessage(p: Parsed, name: string, fields: seq<Field>, flags: seq<Flag>, imported: bool): (r: Result<Parsed>)
    requires Sound(p.table)
    ensures r.Ok? ==> r.value.table == p.table
  {
    if FirstError(p.table, name, fields, false, 0).Some? then Err(FirstError(p.table, name, fields, false, 0).value)
    else if imported then Ok(p)
    else if FirstUnresolved(p.table, fields).Some? then Err(TypeResolution(FirstUnresolved(p.table, fields).value))
    else
      var crc := FieldsCrc(fields) + ReferencedCrc(p.table, fields);
      Ok(p.(messages := p.messages + NewMessages(name, fields, flags, crc)))
  }

  function RegisterAlias(p: Parsed, field: Field): (r: Result<Parsed>)
    requires Sound(p.table)
    ensures r.Ok? ==> Sound(r.value.table)
  {
    if NamesCount(field) then Err(ArrayVariableNotFound(field.name, field.size.value.count.value))
    else Register(p, TypeEntry(field.name, "[]", AliasType(field.ty, field.size)))
  }

  /** One iteration of `ApiParser::process_statements`. */
  function Step(p: Parsed, s: Statement, imported: bool): (r: Result<Parsed>)
    requires Sound(p.table)
    ensures r.Ok? ==> Sound(r.value.table)
  {
    match s
    case Define(name, fields, flags) => DefineMessage(p, name, fields, flags, imported)
    case TypedefBlock(name, fields) => RegisterFields(p, name, fields, false)
    case Typedef(field) => RegisterAlias(p, field)
    case Enum(name, width, block) => Register(p, TypeEntry(name, EnumCrc(block), EnumType(width, Variants(block, 0))))
    case EnumFlag(name, width, block) => Register(p, TypeEntry(name, EnumCrc(block), EnumFlagType(width, Variants(block, 0))))
    case Union(name, fields) => RegisterFields(p, name, fields, true)
    case Import(file, _) => Ok(if imported then p else p.(imports := p.imports + [file]))
    case OptionStatement(option) => Ok(if imported then p else p.(options := p.options + [option]))
    case Services(services) => Ok(if imported then p else p.(services := p.services + services))
  }

  function Run(p: Parsed, ss: seq<Statement>, imported: bool): (r: Result<Parsed>)
    requires Sound(p.table)
    ensures r.Ok? ==> Sound(r.value.table)
  {
    if ss == [] then Ok(p)
    else
      match Run(p, ss[..|ss| - 1], imported)
      case Err(e) => Err(e)
      case Ok(q) => Step(q, ss[|ss| - 1], imported)
  }

  /** `ApiParser::do_imports`: the imports of an imported file come before its own statements. */
  function Imports(p: Parsed, ss: seq<Statement>): (r: Result<Parsed>)
    requires Sound(p.table)
    ensures r.Ok? ==> Sound(r.value.table)
    decreases ss
  {
    if ss == [] then Ok(p)
    else
      match Imports(p, ss[..|ss| - 1])
      case Err(e) => Err(e)
      case Ok(q) =>
        match ss[|ss| - 1]
        case Import(_, contents) =>
          (match Imports(q, contents)
           case Err(e) => Err(e)
           case Ok(r) => Run(r, contents, true))
        case _ => Ok(q)
  }

  const NOTHING: Parsed := Parsed([], [], [], [], [])

  /** A whole file: what it imports, then its statements. */
  function Parse(ss: seq<Statement>): (r: Result<Parsed>)
    ensures r.Ok? ==> Sound(r.value.table)
  {
    match Imports(NOTHING, ss)
    case Err(e) => Err(e)
    case Ok(p) => Run(p, ss, false)
  }

  function MessageNames(messages: seq<Message>): seq<string> {
    seq(|messages|, i requires 0 <= i < |messages| => messages[i].name)
  }

  lemma {:induction false} ErrorStays(p: Parsed, ss: seq<Statement>, imported: bool, i: nat)
    requires Sound(p.table) && i <= |ss| && Run(p, ss[..i], imported).Err?
    ensures Run(p, ss, imported) == Run(p, ss[..i], imported)
    decreases |ss|
  {
    if i < |ss| {
      assert ss[..|ss| - 1][..i] == ss[..i];
      ErrorStays(p, ss[..|ss| - 1], imported, i);
    } else {
      assert ss[..i] == ss;
    }
  }

  lemma {:induction false} ImportErrorStays(p: Parsed, ss: seq<Statement>, i: nat)
    requires Sound(p.table) && i <= |ss| && Imports(p, ss[..i]).Err?
    ensures Imports(p, ss) == Imports(p, ss[..i])
    decreases |ss|
  {
    if i < |ss| {
      assert ss[..|ss| - 1][..i] == ss[..i];
      ImportErrorStays(p, ss[..|ss| - 1], i);
    } else {
      assert ss[..i] == ss;
    }
  }

  class ApiParser {
    var table: Table
    var messages: seq<Message>
    var services: seq<Service>
    var imports: seq<string>
    var options: seq<string>
    var fileCrc: string

    ghost function State(): Parsed
      reads this
    {
      Parsed(table, messages, services, imports, options)
    }

    constructor ()
      ensures State() == NOTHING && fileCrc == ""
    {
      table, messages, services, imports, options, fileCrc := [], [], [], [], [], "";
    }

    method Insert(name: string, crc: string, details: TypeDetails) returns (error: Option<Error>)
      requires Sound(table) && forall f :: f in FieldsOf(details) ==> Refers(table, f, |table|)
      modifies `table
      ensures match Register(old(State()), TypeEntry(name, crc, details))
              case Ok(p) => error.None? && State() == p
              case Err(e) => error == Some(e)
    {
      if Find(table, name).Some? {
        return Some(TypeRedefinition(name));
      }
      table := table + [TypeEntry(name, crc, details)];
      return None;
    }

    method Block(name: string, fields: seq<Field>, isUnion: bool) returns (error: Option<Error>)
      requires Sound(table)
      modifies `table
      ensures match RegisterFields(old(State()), name, fields, isUnion)
              case Ok(p) => error.None? && State() == p
              case Err(e) => error == Some(e)
    {
      hide FirstError, Accepted, FieldsCrc, ReferencedCrc;
      PassesIffAccepted(table, name, fields, isUnion);
      var verdict := ValidateVla(table, name, fields, isUnion);
      if verdict.Err? {
        return Some(verdict.error);
      }
      var crc := CrcForFields(table, fields);
      if crc.Err? {
        return Some(crc.error);
      }
      error := Insert(name, crc.value, if isUnion then UnionType(fields) else BlockType(fields));
    }

    method AddDefine(name: string, fields: seq<Field>, flags: seq<Flag>, imported: bool) returns (error: Option<Error>)
      requires Sound(table)
      modifies `messages
      ensures match DefineMessage(old(State()), name, fields, flags, imported)
              case Ok(p) => error.None? && State() == p
              case Err(e) => error == Some(e)
    {
      hide FirstError, Accepted, FieldsCrc, ReferencedCrc;
      PassesIffAccepted(table, name, fields, false);
      var verdict := ValidateVla(table, name, fields, false);
      if verdict.Err? {
        return Some(verdict.error);
      }
      if !imported {
        var crc := CrcForFields(table, fields);
        if crc.Err? {
          return Some(crc.error);
        }
        var define := Message(name, [MSG_ID] + fields, flags, crc.value);
        var reply := GeneratedReply(define);
        messages := messages + [define];
        if reply.Some? {
          messages := messages + [reply.value];
        }
      }
      error := None;
    }

    method One(s: Statement, imported: bool) returns (error: Option<Error>)
      requires Sound(table)
      modifies this
      ensures fileCrc == old(fileCrc)
      ensures match Step(old(State()), s, imported)
              case Ok(p) => error.None? && State() == p
              case Err(e) => error == Some(e)
    {
      error := None;
      match s
      case Define(name, fields, flags) => error := AddDefine(name, fields, flags, imported);
      case TypedefBlock(name, fields) => error := Block(name, fields, false);
      case Union(name, fields) => error := Block(name, fields, true);
      case Typedef(field) =>
        if NamesCount(field) {
          return Some(ArrayVariableNotFound(field.name, field.size.value.count.value));
        }
        error := Insert(field.name, "[]", AliasType(field.ty, field.size));
      case Enum(name, width, block) =>
        var crc := CrcDataForEnum(block);
        var variants := VariantsFromBlock(block);
        error := Insert(name, crc, EnumType(width, variants));
      case EnumFlag(name, width, block) =>
        var crc := CrcDataForEnum(block);
        var variants := VariantsFromBlock(block);
        error := Insert(name, crc, EnumFlagType(width, variants));
      case Import(file, _) => if !imported { imports := imports + [file]; }
      case OptionStatement(option) => if !imported { options := options + [option]; }
      case Services(more) => if !imported { services := services + more; }
    }

    /** `ApiParser::process_statements`. */
    method ProcessStatements(ss: seq<Statement>, imported: bool) returns (r: Result<string>)
      requires Sound(table)
      modifies this
      ensures fileCrc == old(fileCrc)
      ensures match Run(old(State()), ss, imported)
              case Ok(p) => r == Ok(FileCrc(ss)) && State() == p
              case Err(e) => r == Err(e)
    {
      hide Step, StatementCrc, Sound;
      var crc := "";
      var i := 0;
      while i < |ss|
        invariant 0 <= i <= |ss| && Sound(table) && fileCrc == old(fileCrc)
        invariant Run(old(State()), ss[..i], imported) == Ok(State())
        invariant crc == FileCrc(ss[..i])
      {
        assert ss[..i + 1][..i] == ss[..i];
        var data := StatementCrc(ss[i]);
        if data.Some? {
          crc := crc + data.value;
        }
        var error := One(ss[i], imported);
        if error.Some? {
          ErrorStays(old(State()), ss, imported, i + 1);
          return Err(error.value);
        }
        i := i + 1;
      }
      assert ss[..i] == ss;
      r := Ok(crc);
    }

    /** `ApiParser::do_imports`. */
    method DoImports(ss: seq<Statement>) returns (error: Option<Error>)
      requires Sound(table)
      modifies this
      decreases ss
      ensures fileCrc == old(fileCrc)
      ensures match Imports(old(State()), ss)
              case Ok(p) => error.None? && State() == p
              case Err(e) => error == Some(e)
    {
      hide Run, Sound, FileCrc;
      var i := 0;
      while i < |ss|
        invariant 0 <= i <= |ss| && Sound(table) && fileCrc == old(fileCrc)
        invariant Imports(old(State()), ss[..i]) == Ok(State())
      {
        assert ss[..i + 1][..i] == ss[..i];
        if ss[i].Import? {
          error := DoImports(ss[i].contents);
          if error.Some? {
            ImportErrorStays(old(State()), ss, i + 1);
            return;
          }
          var crc := ProcessStatements(ss[i].contents, true);
          if crc.Err? {
            ImportErrorStays(old(State()), ss, i + 1);
            return Some(crc.error);
          }
        }
        i := i + 1;
      }
      assert ss[..i] == ss;
      error := None;
    }

    /** `ApiParser::process`: the order in which the hash map yields the services shows in the
        error only. */
    method Process(crc: string) returns (r: Result<()>)
      modifies `services, `fileCrc
      ensures r.Ok? <==> Accepts(MessageNames(messages), old(services))
      ensures r.Ok? ==> services == Outcome(MessageNames(messages), old(services)) && fileCrc == crc
      ensures r.Err? ==> services == old(services) && fileCrc == old(fileCrc)
    {
      hide Decide, AllDefined, EventsOf, Inferred;
      var names := MessageNames(messages);
      var seen := CheckServices(Names(names), services);
      if seen.Err? {
        return Err(seen.error);
      }
      var all := InferServices(names, Names(names), services, seen.value);
      if all.Err? {
        return Err(all.error);
      }
      services, fileCrc := all.value, crc;
      r := Ok(());
    }

    /** `ApiParser::new`. */
    static method New(ss: seq<Statement>) returns (parser: ApiParser, r: Result<()>)
      ensures fresh(parser)
      ensures r.Ok? <==> match Parse(ss)
                         case Ok(p) => Accepts(MessageNames(p.messages), p.services)
                         case Err(_) => false
      ensures r.Ok? ==>
        var p := Parse(ss).value;
        && parser.fileCrc == FileCrc(ss)
        && parser.State() == p.(services := Outcome(MessageNames(p.messages), p.services))
    {
      hide Run, Imports, FileCrc, Accepts, Outcome;
      parser := new ApiParser();
      var error := parser.DoImports(ss);
      if error.Some? {
        return parser, Err(error.value);
      }
      var crc := parser.ProcessStatements(ss, false);
      if crc.Err? {
        return parser, Err(crc.error);
      }
      r := parser.Process(crc.value);
    }
  }
}
