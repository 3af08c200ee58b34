/** What an accepted file gives, and which files are accepted, told statement by statement. */
module ApiResults {
  import opened Optional
  import opened ApiTypes
  import opened ApiStatements
  import ApiVla
  import opened ApiCrc
  import opened ApiValidation
  import opened ApiParsing
  import ApiCompatibility

  // ---- the order of the statements ---------------------------------------------------------------------

  datatype Placed = Placed(s: Statement, imported: bool)

  function Marked(ss: seq<Statement>, imported: bool): seq<Placed> {
    seq(|ss|, i requires 0 <= i < |ss| => Placed(ss[i], imported))
  }

  /** The statements of the imported files, each after those of the files it imports itself. */
  function Imported(ss: seq<Statement>): seq<Placed>
    decreases ss
  {
    if ss == [] then []
    else
      Imported(ss[..|ss| - 1]) +
      match ss[|ss| - 1]
      case Import(_, contents) => Imported(contents) + Marked(contents, true)
      case _ => []
  }

  /** What is imported comes first, then the statements of the file itself. */
  function Order(ss: seq<Statement>): seq<Placed> {
    Imported(ss) + Marked(ss, false)
  }

  // ---- what one statement gives --------------------------------------------------------------------------

  datatype Shape = Shape(name: string, fields: seq<Field>, flags: seq<Flag>)

  /** A defined message has the message number in front. The reply generated for it has a context and a
      return value, and an index when only that is asked for. */
  function MessagesOf(s: Statement): seq<Shape> {
    match s
    case Define(name, fields, flags) =>
      var id := Field("u16", "_vl_msg_id", None);
      var context, retval := Field("u32", "context", None), Field("i32", "retval", None);
      [Shape(name, [id] + fields, flags)] +
      (if AutoReply in flags then [Shape(name + "_reply", [id, context, retval], [])]
       else if IndexReply in flags then [Shape(name + "_reply", [id, context, retval, Field("u32", "index", None)], [])]
       else [])
    case _ => []
  }

  /** The type a statement declares. The checksum of a type with fields is left out: it covers the tree
      below the type. */
  function TypesOf(s: Statement): Table {
    match s
    case TypedefBlock(name, fields) => [TypeEntry(name, "", BlockType(fields))]
    case Union(name, fields) => [TypeEntry(name, "", UnionType(fields))]
    case Typedef(f) => [TypeEntry(f.name, "[]", AliasType(f.ty, f.size))]
    case Enum(name, width, block) => [TypeEntry(name, EnumCrc(block), EnumType(width, Variants(block, 0)))]
    case EnumFlag(name, width, block) => [TypeEntry(name, EnumCrc(block), EnumFlagType(width, Variants(block, 0)))]
    case _ => []
  }

  function MessagesIn(ss: seq<Statement>): seq<Shape> {
    if ss == [] then [] else MessagesIn(ss[..|ss| - 1]) + MessagesOf(ss[|ss| - 1])
  }

  function ServicesIn(ss: seq<Statement>): seq<Service> {
    if ss == [] then []
    else ServicesIn(ss[..|ss| - 1]) + match ss[|ss| - 1] case Services(more) => more case _ => []
  }

  function ImportsIn(ss: seq<Statement>): seq<string> {
    if ss == [] then []
    else ImportsIn(ss[..|ss| - 1]) + match ss[|ss| - 1] case Import(file, _) => [file] case _ => []
  }

  function OptionsIn(ss: seq<Statement>): seq<string> {
    if ss == [] then []
    else OptionsIn(ss[..|ss| - 1]) + match ss[|ss| - 1] case OptionStatement(option) => [option] case _ => []
  }

  function TypesIn(order: seq<Placed>): Table {
    if order == [] then [] else TypesIn(order[..|order| - 1]) + TypesOf(order[|order| - 1].s)
  }

  // ---- which statement is accepted after which --------------------------------------------------------------

  predicate Declares(t: Table, name: string) {
    exists i :: 0 <= i < |t| && t[i].name == name
  }

  /** Every type with the declared-type prefix and suffix is the name of a declared type. */
  ghost predicate AllDeclared(t: Table, fields: seq<Field>) {
    forall f, name :: f in fields && f.ty == "vl_api_" + name + "_t" ==> Declares(t, name)
  }

  /** `t` holds the types declared before. Their own fields refer to earlier ones, as they were accepted
      in their turn. Fields of an imported message are not resolved. */
  ghost predicate Fits(t: Table, x: Placed) {
    Grounded(t) &&
    match x.s
    case Define(_, fields, _) => Accepted(t, fields, false) && (x.imported || AllDeclared(t, fields))
    case TypedefBlock(name, fields) => !Declares(t, name) && Accepted(t, fields, false) && AllDeclared(t, fields)
    case Union(name, fields) => !Declares(t, name) && Accepted(t, fields, true) && AllDeclared(t, fields)
    case Typedef(f) => !Declares(t, f.name) && !(f.size.Some? && f.size.value.Variable? && f.size.value.count.Some?)
    case Enum(name, _, _) => !Declares(t, name)
    case EnumFlag(name, _, _) => !Declares(t, name)
    case _ => true
  }

  // ---- the parser's state, without the checksums of types with fields ------------------------------------------

  function BareEntry(e: TypeEntry): TypeEntry {
    if e.details.BlockType? || e.details.UnionType? then e.(crc := "") else e
  }

  function Bare(table: Table): (t: Table)
    ensures |t| == |table| && forall i :: 0 <= i < |t| ==> t[i] == BareEntry(table[i])
  {
    seq(|table|, i requires 0 <= i < |table| => BareEntry(table[i]))
  }

  function Shapes(messages: seq<Message>): (r: seq<Shape>)
    ensures |r| == |messages|
    ensures forall i :: 0 <= i < |r| ==> r[i] == Shape(messages[i].name, messages[i].fields, messages[i].flags)
  {
    seq(|messages|, i requires 0 <= i < |messages| => Shape(messages[i].name, messages[i].fields, messages[i].flags))
  }

  lemma BareResembles(table: Table)
    ensures ApiCompatibility.Resembles(table, Bare(table)) && ApiCompatibility.Resembles(Bare(table), table)
  {
  }

  lemma BareGrounded(table: Table)
    requires Grounded(table)
    ensures Grounded(Bare(table))
  {
    BareResembles(table);
    forall i, f | 0 <= i < |table| && f in FieldsOf(Bare(table)[i].details) ensures Refers(Bare(table), f, i) {
      assert f in FieldsOf(table[i].details) && Refers(table, f, i);
      if ApiName(f.ty).Some? {
        ApiCompatibility.FindAlike(table, Bare(table), ApiName(f.ty).value);
      }
    }
  }

  lemma DeclaresIff(table: Table, name: string)
    ensures Find(table, name).None? <==> !Declares(Bare(table), name)
  {
    if Find(table, name).Some? {
      assert Bare(table)[Find(table, name).value].name == name;
    }
  }

  lemma ResolvedIff(table: Table, fields: seq<Field>)
    ensures FirstUnresolved(table, fields).None? <==> AllDeclared(Bare(table), fields)
  {
    if FirstUnresolved(table, fields).None? {
      forall f, name | f in fields && f.ty == "vl_api_" + name + "_t" ensures Declares(Bare(table), name) {
        NameMeans(f.ty, name);
        assert Refers(table, f, |table|);
        DeclaresIff(table, name);
      }
    } else {
      var f :| f in fields && !Refers(table, f, |table|);
      var name := ApiName(f.ty).value;
      NameMeans(f.ty, name);
      DeclaresIff(table, name);
      assert !Declares(Bare(table), name);
    }
  }

  lemma AcceptedIff(table: Table, name: string, fields: seq<Field>, isUnion: bool)
    requires Grounded(table)
    ensures Grounded(Bare(table))
    ensures FirstError(table, name, fields, isUnion, 0).None? <==> Accepted(Bare(table), fields, isUnion)
  {
    hide FirstError, Accepted;
    BareGrounded(table);
    BareResembles(table);
    ApiCompatibility.FirstErrorAlike(table, Bare(table), name, fields, isUnion, 0);
    PassesIffAccepted(Bare(table), name, fields, isUnion);
  }

  // ---- one statement -----------------------------------------------------------------------------------------------

  /** A statement is accepted exactly when it fits the types declared before. */
  lemma StepOkIff(p: Parsed, x: Placed)
    requires Sound(p.table)
    ensures Step(p, x.s, x.imported).Ok? <==> Fits(Bare(p.table), x)
  {
    hide FirstError, Accepted, FirstUnresolved, AllDeclared, FieldsCrc, ReferencedCrc, EnumCrc, Variants, Declares, Bare;
    BareGrounded(p.table);
    match x.s
    case Define(name, fields, _) =>
      AcceptedIff(p.table, name, fields, false);
      ResolvedIff(p.table, fields);
    case TypedefBlock(name, fields) =>
      AcceptedIff(p.table, name, fields, false);
      ResolvedIff(p.table, fields);
      DeclaresIff(p.table, name);
    case Union(name, fields) =>
      AcceptedIff(p.table, name, fields, true);
      ResolvedIff(p.table, fields);
      DeclaresIff(p.table, name);
    case Typedef(f) => DeclaresIff(p.table, f.name);
    case Enum(name, _, _) => DeclaresIff(p.table, name);
    case EnumFlag(name, _, _) => DeclaresIff(p.table, name);
    case _ =>
  }

  // ---- errors ----------------------------------------------------------------------------------------------------------

  function NameOf(s: Statement): string {
    match s
    case Define(name, _, _) => name
    case TypedefBlock(name, _) => name
    case Union(name, _) => name
    case Enum(name, _, _) => name
    case EnumFlag(name, _, _) => name
    case Typedef(f) => f.name
    case _ => ""
  }

  /** The fields of a statement, the field that an alias is written as among them. */
  function FieldsIn(s: Statement): seq<Field> {
    match s
    case Define(_, fields, _) => fields
    case TypedefBlock(_, fields) => fields
    case Union(_, fields) => fields
    case Typedef(f) => [f]
    case _ => []
  }

  /** What an error about a statement says is so. */
  ghost predicate Explains(t: Table, s: Statement, e: Error) {
    var fields := FieldsIn(s);
    Grounded(t) &&
    match e
    case TypeRedefinition(ty) => ty == NameOf(s) && TypesOf(s) != [] && Declares(t, ty)
    case TypeResolution(ty) => !Declares(t, ty) && exists f :: f in fields && f.ty == "vl_api_" + ty + "_t"
    case StringNotArray(name) => exists f :: f in fields && f.name == name && f.ty == "string" && f.size.None?
    case VlaFieldUnion(name, ty) =>
      ty == NameOf(s) && s.Union? && exists f :: f in fields && f.name == name && ApiVla.FieldVla(t, f, fields).Some?
    case VlaFieldNotLast(name, ty) =>
      ty == NameOf(s) &&
      exists i :: 0 <= i < |fields| - 1 && fields[i].name == name && ApiVla.FieldVla(t, fields[i], fields).Some?
    case ArrayVariableNotFound(name, count) =>
      && (forall g :: g in fields && !s.Typedef? ==> g.name != count)
      && exists f :: f in fields && f.name == name && f.size == Some(Variable(Some(count)))
    case _ => false
  }

  lemma {:induction false} FirstErrorAt(t: Table, name: string, fields: seq<Field>, isUnion: bool, i: nat) returns (k: nat)
    requires Grounded(t) && i <= |fields| && FirstError(t, name, fields, isUnion, i).Some?
    ensures i <= k < |fields| && FieldError(t, name, fields, isUnion, k) == FirstError(t, name, fields, isUnion, i)
    decreases |fields| - i
  {
    hide FieldError;
    k := i;
    if FieldError(t, name, fields, isUnion, i).None? {
      k := FirstErrorAt(t, name, fields, isUnion, i + 1);
    }
  }

  lemma FirstErrorExplains(t: Table, s: Statement)
    requires Grounded(t) && (s.Define? || s.TypedefBlock? || s.Union?)
    requires FirstError(t, NameOf(s), FieldsIn(s), s.Union?, 0).Some?
    ensures Explains(t, s, FirstError(t, NameOf(s), FieldsIn(s), s.Union?, 0).value)
  {
    hide FirstError, ApiVla.FieldVla, Grounded;
    var fields := FieldsIn(s);
    var k := FirstErrorAt(t, NameOf(s), fields, s.Union?, 0);
    assert fields[k] in fields;
  }

  lemma {:induction false} UnresolvedAt(t: Table, fields: seq<Field>)
    requires FirstUnresolved(t, fields).Some?
    ensures exists f :: f in fields && ApiName(f.ty) == FirstUnresolved(t, fields) && Resolve(t, f).None?
    decreases |fields|
  {
    var init, last := fields[..|fields| - 1], fields[|fields| - 1];
    assert last in fields;
    if FirstUnresolved(t, init).Some? {
      UnresolvedAt(t, init);
    }
  }

  lemma UnresolvedExplains(table: Table, s: Statement)
    requires Grounded(table) && (s.Define? || s.TypedefBlock? || s.Union?)
    requires FirstUnresolved(table, FieldsIn(s)).Some?
    ensures Explains(Bare(table), s, TypeResolution(FirstUnresolved(table, FieldsIn(s)).value))
  {
    hide Bare, FirstUnresolved, Declares;
    BareGrounded(table);
    UnresolvedAt(table, FieldsIn(s));
    var name := FirstUnresolved(table, FieldsIn(s)).value;
    var f :| f in FieldsIn(s) && ApiName(f.ty) == Some(name) && Resolve(table, f).None?;
    NameMeans(f.ty, name);
    DeclaresIff(table, name);
  }

  lemma FieldsExplain(table: Table, s: Statement)
    requires Grounded(table) && (s.Define? || s.TypedefBlock? || s.Union?)
    ensures FirstError(table, NameOf(s), FieldsIn(s), s.Union?, 0).Some? ==>
      Explains(Bare(table), s, FirstError(table, NameOf(s), FieldsIn(s), s.Union?, 0).value)
  {
    hide FirstError, Explains;
    BareGrounded(table);
    BareResembles(table);
    ApiCompatibility.FirstErrorAlike(table, Bare(table), NameOf(s), FieldsIn(s), s.Union?, 0);
    if FirstError(Bare(table), NameOf(s), FieldsIn(s), s.Union?, 0).Some? {
      FirstErrorExplains(Bare(table), s);
    }
  }

  lemma RedefinitionExplains(table: Table, s: Statement)
    requires Grounded(table) && TypesOf(s) != [] && Find(table, NameOf(s)).Some?
    ensures Explains(Bare(table), s, TypeRedefinition(NameOf(s)))
  {
    hide Find, Bare, Declares;
    BareGrounded(table);
    DeclaresIff(table, NameOf(s));
  }

  lemma CountedAliasExplains(table: Table, s: Statement)
    requires Grounded(table) && s.Typedef? && NamesCount(s.field)
    ensures Explains(Bare(table), s, ArrayVariableNotFound(s.field.name, s.field.size.value.count.value))
  {
    hide Bare;
    BareGrounded(table);
    assert s.field in FieldsIn(s);
  }

  /** The error of a refused statement is true of it. */
  lemma StepErrorTells(p: Parsed, x: Placed)
    requires Sound(p.table) && Step(p, x.s, x.imported).Err?
    ensures Explains(Bare(p.table), x.s, Step(p, x.s, x.imported).error)
  {
    hide FirstError, FirstUnresolved, FieldsCrc, ReferencedCrc, EnumCrc, Variants, Explains, Bare, Grounded;
    var s := x.s;
    if s.Define? || s.TypedefBlock? || s.Union? {
      FieldsExplain(p.table, s);
      if FirstUnresolved(p.table, FieldsIn(s)).Some? {
        UnresolvedExplains(p.table, s);
      }
    }
    if s.Typedef? && NamesCount(s.field) {
      CountedAliasExplains(p.table, s);
    } else if TypesOf(s) != [] && Find(p.table, NameOf(s)).Some? {
      RedefinitionExplains(p.table, s);
    }
  }

  /** `q` has what `p` has, and the given messages, services, imports and options. */
  predicate Adds(p: Parsed, q: Parsed, messages: seq<Shape>, services: seq<Service>, imports: seq<string>, options: seq<string>) {
    && Shapes(q.messages) == Shapes(p.messages) + messages
    && q.services == p.services + services
    && q.imports == p.imports + imports
    && q.options == p.options + options
  }

  lemma BareAppended(table: Table, e: TypeEntry)
    ensures Bare(table + [e]) == Bare(table) + [BareEntry(e)]
  {
  }

  /** A statement adds the type it declares, and nothing else to the types. */
  lemma StepTypes(p: Parsed, x: Placed)
    requires Sound(p.table) && Step(p, x.s, x.imported).Ok?
    ensures Bare(Step(p, x.s, x.imported).value.table) == Bare(p.table) + TypesOf(x.s)
  {
    hide FirstError, FirstUnresolved, FieldsCrc, ReferencedCrc, EnumCrc, Variants, Bare, NewMessages;
    var q := Step(p, x.s, x.imported).value;
    if TypesOf(x.s) == [] {
      assert q.table == p.table;
    } else {
      BareAppended(p.table, q.table[|p.table|]);
    }
  }

  lemma ShapesAppended(messages: seq<Message>, more: seq<Message>)
    ensures Shapes(messages + more) == Shapes(messages) + Shapes(more)
  {
  }

  lemma NewShapes(name: string, fields: seq<Field>, flags: seq<Flag>, crc: string)
    ensures Shapes(NewMessages(name, fields, flags, crc)) == MessagesOf(Define(name, fields, flags))
  {
    hide FieldsCrc;
    assert [MSG_ID, CONTEXT, RETVAL] + [] == [MSG_ID, CONTEXT, RETVAL];
    assert [MSG_ID, CONTEXT, RETVAL] + [INDEX] == [MSG_ID, CONTEXT, RETVAL, INDEX];
    var r, s := Shapes(NewMessages(name, fields, flags, crc)), MessagesOf(Define(name, fields, flags));
    assert |r| == |s| && r[0] == s[0];
    assert |r| == 2 ==> r[1] == s[1];
  }

  /** A statement of the file itself adds its messages, services, import and option; one of an imported
      file adds nothing of this. */
  lemma StepAdds(p: Parsed, x: Placed)
    requires Sound(p.table) && Step(p, x.s, x.imported).Ok?
    ensures var q := Step(p, x.s, x.imported).value;
      if x.imported then Adds(p, q, [], [], [], [])
      else Adds(p, q, MessagesOf(x.s), ServicesIn([x.s]), ImportsIn([x.s]), OptionsIn([x.s]))
  {
    hide FirstError, FirstUnresolved, FieldsCrc, ReferencedCrc, EnumCrc, Variants, NewMessages, Shapes;
    var q := Step(p, x.s, x.imported).value;
    assert [x.s][..0] == [];
    if x.s.Define? && !x.imported {
      var crc := FieldsCrc(x.s.fields) + ReferencedCrc(p.table, x.s.fields);
      NewShapes(x.s.name, x.s.fields, x.s.flags, crc);
      ShapesAppended(p.messages, NewMessages(x.s.name, x.s.fields, x.s.flags, crc));
    }
  }

  // ---- a whole run --------------------------------------------------------------------------------------------------

  /** The statements one after the other, until one is refused. */
  function Process(p: Parsed, order: seq<Placed>): (r: Result<Parsed>)
    requires Sound(p.table)
    ensures r.Ok? ==> Sound(r.value.table)
  {
    if order == [] then Ok(p)
    else
      match Process(p, order[..|order| - 1])
      case Err(e) => Err(e)
      case Ok(q) => Step(q, order[|order| - 1].s, order[|order| - 1].imported)
  }

  lemma {:induction false} ProcessJoins(p: Parsed, a: seq<Placed>, b: seq<Placed>)
    requires Sound(p.table)
    ensures Process(p, a + b) == match Process(p, a) case Err(e) => Err(e) case Ok(q) => Process(q, b)
    decreases |b|
  {
    hide Step, Sound;
    if b == [] {
      assert a + b == a;
    } else {
      assert (a + b)[..|a + b| - 1] == a + b[..|b| - 1];
      ProcessJoins(p, a, b[..|b| - 1]);
    }
  }

  lemma {:induction false} RunInOrder(p: Parsed, ss: seq<Statement>, imported: bool)
    requires Sound(p.table)
    ensures Run(p, ss, imported) == Process(p, Marked(ss, imported))
    decreases |ss|
  {
    hide Step, Sound;
    if ss != [] {
      assert Marked(ss, imported)[..|ss| - 1] == Marked(ss[..|ss| - 1], imported);
      RunInOrder(p, ss[..|ss| - 1], imported);
    }
  }

  lemma NothingToDo(p: Parsed)
    requires Sound(p.table)
    ensures Process(p, []) == Ok(p)
  {
  }

  lemma {:induction false} ImportsInOrder(p: Parsed, ss: seq<Statement>)
    requires Sound(p.table)
    ensures Imports(p, ss) == Process(p, Imported(ss))
    decreases ss
  {
    hide Run, Process, Sound;
    if ss != [] {
      var init, last := ss[..|ss| - 1], ss[|ss| - 1];
      ImportsInOrder(p, init);
      if last.Import? {
        ProcessJoins(p, Imported(init), Imported(last.contents) + Marked(last.contents, true));
        if Imports(p, init).Ok? {
          var q := Imports(p, init).value;
          ImportsInOrder(q, last.contents);
          ProcessJoins(q, Imported(last.contents), Marked(last.contents, true));
          if Imports(q, last.contents).Ok? {
            RunInOrder(Imports(q, last.contents).value, last.contents, true);
          }
        }
      } else {
        assert Imported(ss) == Imported(init);
      }
    } else {
      NothingToDo(p);
    }
  }

  lemma NothingSound()
    ensures Sound(NOTHING.table)
  {
  }

  /** Parsing processes the statements in that order. */
  lemma ParseInOrder(ss: seq<Statement>)
    ensures Parse(ss) == Process(NOTHING, Order(ss))
  {
    hide Run, Imports, Process, Imported, Marked;
    assert Sound(NOTHING.table);
    ImportsInOrder(NOTHING, ss);
    ProcessJoins(NOTHING, Imported(ss), Marked(ss, false));
    if Imports(NOTHING, ss).Ok? {
      RunInOrder(Imports(NOTHING, ss).value, ss, false);
    }
  }

  // ---- acceptance ----------------------------------------------------------------------------------------------------

  ghost predicate AllFit(order: seq<Placed>) {
    forall k :: 0 <= k < |order| ==> Fits(TypesIn(order[..k]), order[k])
  }

  lemma AllFitLast(order: seq<Placed>)
    requires order != []
    ensures AllFit(order) <==> AllFit(order[..|order| - 1]) && Fits(TypesIn(order[..|order| - 1]), order[|order| - 1])
  {
    hide Fits;
    var init := order[..|order| - 1];
    forall k | 0 <= k < |init| ensures init[..k] == order[..k] && init[k] == order[k] {
    }
    if AllFit(init) && Fits(TypesIn(init), order[|order| - 1]) {
      forall k | 0 <= k < |order| ensures Fits(TypesIn(order[..k]), order[k]) {
        if k < |init| {
          assert Fits(TypesIn(init[..k]), init[k]);
        }
      }
    }
  }

  lemma {:induction false} ProcessFits(order: seq<Placed>)
    ensures Process(NOTHING, order).Ok? <==> AllFit(order)
    ensures Process(NOTHING, order).Ok? ==> Bare(Process(NOTHING, order).value.table) == TypesIn(order)
    decreases |order|
  {
    hide Step, Sound, Fits, TypesOf, Bare;
    NothingSound();
    if order == [] {
      assert Bare(NOTHING.table) == [];
    } else {
      var init, last := order[..|order| - 1], order[|order| - 1];
      ProcessFits(init);
      AllFitLast(order);
      if Process(NOTHING, init).Ok? {
        var q := Process(NOTHING, init).value;
        StepOkIff(q, last);
        if Step(q, last.s, last.imported).Ok? {
          StepTypes(q, last);
        }
      }
    }
  }

  /** A file is accepted exactly when each of its statements, those of imported files first, fits the types
      declared before it. */
  lemma ParseOkIff(ss: seq<Statement>)
    ensures Parse(ss).Ok? <==>
      forall k :: 0 <= k < |Order(ss)| ==> Fits(TypesIn(Order(ss)[..k]), Order(ss)[k])
  {
    hide Process, Fits, Parse, Order, TypesIn;
    ParseInOrder(ss);
    ProcessFits(Order(ss));
  }

  lemma {:induction false} ProcessFails(order: seq<Placed>) returns (k: nat)
    requires Process(NOTHING, order).Err?
    ensures k < |order| && AllFit(order[..k]) && !Fits(TypesIn(order[..k]), order[k])
    ensures Explains(TypesIn(order[..k]), order[k].s, Process(NOTHING, order).error)
    decreases |order|
  {
    hide Step, Sound, Fits, TypesOf, Bare, Explains, AllFit, TypesIn;
    NothingSound();
    NothingToDo(NOTHING);
    var n := |order| - 1;
    var init, last := order[..n], order[n];
    if Process(NOTHING, init).Err? {
      k := ProcessFails(init);
      assert init[..k] == order[..k] && init[k] == order[k];
    } else {
      k := n;
      ProcessFits(init);
      StepOkIff(Process(NOTHING, init).value, last);
      StepErrorTells(Process(NOTHING, init).value, last);
    }
  }

  /** The error of a refused file is about the first statement that does not fit, and true of it. */
  lemma ParseErrorTells(ss: seq<Statement>)
    requires Parse(ss).Err?
    ensures exists k ::
      && 0 <= k < |Order(ss)|
      && AllFit(Order(ss)[..k])
      && !Fits(TypesIn(Order(ss)[..k]), Order(ss)[k])
      && Explains(TypesIn(Order(ss)[..k]), Order(ss)[k].s, Parse(ss).error)
  {
    hide Process, Parse, Order, TypesIn, AllFit, Fits, Explains;
    ParseInOrder(ss);
    var k := ProcessFails(Order(ss));
  }

  /** An accepted file registers the type of every type statement of its imports and its own, in this
      order, under its name and with its details, and no other. */
  lemma ParsedTypes(ss: seq<Statement>)
    requires Parse(ss).Ok?
    ensures Bare(Parse(ss).value.table) == TypesIn(Order(ss))
  {
    hide Process, Parse, Order, TypesIn, Bare;
    ParseInOrder(ss);
    ProcessFits(Order(ss));
  }

  // ---- messages, services, imports and options -------------------------------------------------------------------------

  lemma AddsNothing(p: Parsed)
    ensures Adds(p, p, [], [], [], [])
  {
  }

  lemma {:induction false} ImportedAdds(p: Parsed, order: seq<Placed>)
    requires Sound(p.table) && Process(p, order).Ok? && forall x :: x in order ==> x.imported
    ensures Adds(p, Process(p, order).value, [], [], [], [])
    decreases |order|
  {
    hide Step, Sound, Shapes;
    if order == [] {
      AddsNothing(p);
    } else {
      ImportedAdds(p, order[..|order| - 1]);
      assert order[|order| - 1] in order;
      StepAdds(Process(p, order[..|order| - 1]).value, order[|order| - 1]);
    }
  }

  lemma AddsBoth(p: Parsed, q: Parsed, r: Parsed, m: seq<Shape>, n: seq<Shape>, s: seq<Service>, t: seq<Service>,
                 i: seq<string>, j: seq<string>, o: seq<string>, u: seq<string>)
    requires Adds(p, q, m, s, i, o) && Adds(q, r, n, t, j, u)
    ensures Adds(p, r, m + n, s + t, i + j, o + u)
  {
    hide Shapes;
  }

  lemma GivenLast(ss: seq<Statement>)
    requires ss != []
    ensures var init, last := ss[..|ss| - 1], ss[|ss| - 1];
      && MessagesIn(ss) == MessagesIn(init) + MessagesOf(last)
      && ServicesIn(ss) == ServicesIn(init) + ServicesIn([last])
      && ImportsIn(ss) == ImportsIn(init) + ImportsIn([last])
      && OptionsIn(ss) == OptionsIn(init) + OptionsIn([last])
  {
    hide MessagesOf;
    assert [ss[|ss| - 1]][..0] == [];
  }

  lemma NothingGiven()
    ensures MessagesIn([]) == [] && ServicesIn([]) == [] && ImportsIn([]) == [] && OptionsIn([]) == []
  {
  }

  lemma {:induction false} OwnAdds(p: Parsed, ss: seq<Statement>)
    requires Sound(p.table) && Run(p, ss, false).Ok?
    ensures Adds(p, Run(p, ss, false).value, MessagesIn(ss), ServicesIn(ss), ImportsIn(ss), OptionsIn(ss))
    decreases |ss|
  {
    hide Step, Sound, MessagesOf, Adds, MessagesIn, ServicesIn, ImportsIn, OptionsIn;
    if ss == [] {
      AddsNothing(p);
      NothingGiven();
    } else {
      var init, last := ss[..|ss| - 1], ss[|ss| - 1];
      var q := Run(p, init, false).value;
      OwnAdds(p, init);
      StepAdds(q, Placed(last, false));
      AddsBoth(p, q, Step(q, last, false).value, MessagesIn(init), MessagesOf(last), ServicesIn(init), ServicesIn([last]),
               ImportsIn(init), ImportsIn([last]), OptionsIn(init), OptionsIn([last]));
      GivenLast(ss);
    }
  }

  lemma {:induction false} ImportedMarked(ss: seq<Statement>)
    ensures forall x :: x in Imported(ss) ==> x.imported
    decreases ss
  {
    if ss != [] {
      ImportedMarked(ss[..|ss| - 1]);
      if ss[|ss| - 1].Import? {
        ImportedMarked(ss[|ss| - 1].contents);
      }
    }
  }

  /** The messages of an accepted file are those its own `define` statements give, in their order, and its
      services, imports and options are those of its own statements. */
  lemma ParsedContents(ss: seq<Statement>)
    requires Parse(ss).Ok?
    ensures var p := Parse(ss).value;
      && Shapes(p.messages) == MessagesIn(ss)
      && p.services == ServicesIn(ss)
      && p.imports == ImportsIn(ss)
      && p.options == OptionsIn(ss)
  {
    hide Run, Imports, Process, Imported, Sound, MessagesIn, ServicesIn, ImportsIn, OptionsIn;
    NothingSound();
    ImportsInOrder(NOTHING, ss);
    ImportedMarked(ss);
    ImportedAdds(NOTHING, Imported(ss));
    OwnAdds(Imports(NOTHING, ss).value, ss);
  }
}
