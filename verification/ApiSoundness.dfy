/** What holds of everything a successful parse leaves behind. */
module ApiSoundness {
  import opened Optional
  import opened ApiTypes
  import opened ApiStatements
  import opened ApiVla
  import opened ApiCrc
  import opened ApiValidation
  import opened ApiParsing

  ghost predicate EntryAccepted(table: Table, d: TypeDetails)
    requires Grounded(table)
  {
    d.BlockType? || d.UnionType? ==> Accepted(table, d.fields, d.UnionType?)
  }

  /** A message starts with its number, is acceptable, and its checksum covers its own fields and
      the trees of the types they refer to. */
  ghost predicate MessageSound(table: Table, m: Message)
    requires Grounded(table)
  {
    && |m.fields| > 0 && m.fields[0] == MSG_ID
    && (forall f :: f in m.fields[1..] ==> Refers(table, f, |table|))
    && Accepted(table, m.fields, false)
    && m.crc == FieldsCrc(m.fields[1..]) + TreesOf(table, m.fields[1..], |table|)
  }

  ghost predicate Valid(p: Parsed) {
    && Sound(p.table)
    && CrcFaithful(p.table)
    && (forall i :: 0 <= i < |p.table| ==> EntryAccepted(p.table, p.table[i].details))
    && (forall m :: m in p.messages ==> MessageSound(p.table, m))
  }

  // ---- registering a type -------------------------------------------------------------------------------

  lemma EntryStays(table: Table, e: TypeEntry, d: TypeDetails)
    requires Sound(table) && Sound(table + [e]) && EntryAccepted(table, d)
    requires forall f :: f in FieldsOf(d) ==> Refers(table, f, |table|)
    ensures EntryAccepted(table + [e], d)
  {
    hide Accepted, Refers;
    if d.BlockType? || d.UnionType? {
      AcceptedStable(table, [e], d.fields, d.UnionType?);
    }
  }

  lemma {:induction false} TreesWiden(table: Table, fields: seq<Field>, limit: nat)
    requires Grounded(table) && limit <= |table|
    requires forall f :: f in fields ==> Refers(table, f, limit)
    ensures forall f :: f in fields ==> Refers(table, f, |table|)
    ensures TreesOf(table, fields, |table|) == TreesOf(table, fields, limit)
    decreases |fields|
  {
    if fields != [] {
      TreesWiden(table, fields[..|fields| - 1], limit);
    }
  }

  lemma MessageStays(table: Table, e: TypeEntry, m: Message)
    requires Sound(table) && Sound(table + [e]) && MessageSound(table, m)
    ensures MessageSound(table + [e], m)
  {
    hide Accepted, TreesOf, FieldsCrc;
    var t, fields := table + [e], m.fields[1..];
    TreesStable(table, [e], fields, |table|);
    TreesWiden(t, fields, |table|);
    forall f | f in m.fields ensures Refers(table, f, |table|) {
      assert m.fields == [MSG_ID] + fields;
    }
    AcceptedStable(table, [e], m.fields, false);
    forall f | f in fields ensures Refers(t, f, |t|) {
      RefersStable(table, [e], f, |table|);
    }
  }

  lemma RegisterValid(p: Parsed, e: TypeEntry)
    requires Valid(p) && Find(p.table, e.name).None? && EntryAccepted(p.table, e.details)
    requires forall f :: f in FieldsOf(e.details) ==> Refers(p.table, f, |p.table|)
    requires e.details.BlockType? || e.details.UnionType? ==>
      e.crc == FieldsCrc(FieldsOf(e.details)) + ReferencedCrc(p.table, FieldsOf(e.details))
    ensures Valid(p.(table := p.table + [e]))
  {
    hide EntryAccepted, MessageSound, FieldsCrc, ReferencedCrc, CrcFaithful;
    var t := p.table + [e];
    RegisterSound(p.table, e);
    RegisterFaithful(p.table, e);
    forall i | 0 <= i < |t| ensures EntryAccepted(t, t[i].details) {
      forall f | i < |p.table| && f in FieldsOf(p.table[i].details) ensures Refers(p.table, f, |p.table|) {
        assert Refers(p.table, f, i);
      }
      EntryStays(p.table, e, t[i].details);
    }
    forall m | m in p.messages ensures MessageSound(t, m) {
      MessageStays(p.table, e, m);
    }
  }

  // ---- defining a message ---------------------------------------------------------------------------------

  lemma DefinedSound(table: Table, name: string, fields: seq<Field>, flags: seq<Flag>)
    requires Sound(table) && CrcFaithful(table) && Accepted(table, fields, false)
    requires forall f :: f in fields ==> Refers(table, f, |table|)
    ensures MessageSound(table, Message(name, [MSG_ID] + fields, flags, FieldsCrc(fields) + ReferencedCrc(table, fields)))
  {
    hide Accepted, Refers, FieldsCrc, ReferencedCrc, TreesOf, CrcFaithful, Grounded;
    assert ([MSG_ID] + fields)[1..] == fields;
    ImplicitFieldAccepted(table, fields);
    TreesAreReferenced(table, fields, |table|);
  }

  /** Fields without arrays and references are acceptable and refer to nothing. */
  lemma {:induction false} PlainFields(table: Table, fields: seq<Field>)
    requires Grounded(table)
    requires forall f :: f in fields ==> f.size.None? && |f.ty| < 6
    ensures Accepted(table, fields, false)
    ensures forall f :: f in fields ==> Refers(table, f, |table|)
    ensures TreesOf(table, fields, |table|) == ""
    decreases |fields|
  {
    assert forall f :: f in fields ==> f.ty != "string";
    forall f | f in fields ensures Refers(table, f, |table|) && FieldVla(table, f, fields).None? {
      PlainFieldHasNoVla(table, f, fields);
    }
    if fields != [] {
      PlainFields(table, fields[..|fields| - 1]);
    }
  }

  lemma ReplySound(table: Table, m: Message)
    requires Sound(table) && GeneratedReply(m).Some?
    ensures MessageSound(table, GeneratedReply(m).value)
  {
    hide Accepted, Refers, TreesOf, Grounded, FieldsCrc;
    var fields := GeneratedReply(m).value.fields;
    assert forall f :: f in fields ==> f.size.None? && |f.ty| < 6;
    PlainFields(table, fields);
    PlainFields(table, fields[1..]);
  }

  // ---- every run --------------------------------------------------------------------------------------------

  lemma FieldsValid(p: Parsed, name: string, fields: seq<Field>, isUnion: bool)
    requires Valid(p) && RegisterFields(p, name, fields, isUnion).Ok?
    ensures Valid(RegisterFields(p, name, fields, isUnion).value)
  {
    hide Accepted, FirstError, FieldsCrc, ReferencedCrc, CrcFaithful, MessageSound;
    PassesIffAccepted(p.table, name, fields, isUnion);
    var crc := FieldsCrc(fields) + ReferencedCrc(p.table, fields);
    RegisterValid(p, TypeEntry(name, crc, if isUnion then UnionType(fields) else BlockType(fields)));
  }

  lemma DefineValid(p: Parsed, name: string, fields: seq<Field>, flags: seq<Flag>, imported: bool)
    requires Valid(p) && DefineMessage(p, name, fields, flags, imported).Ok?
    ensures Valid(DefineMessage(p, name, fields, flags, imported).value)
  {
    hide Accepted, FirstError, FieldsCrc, ReferencedCrc, CrcFaithful, MessageSound, GeneratedReply;
    PassesIffAccepted(p.table, name, fields, false);
    if !imported {
      var m := Message(name, [MSG_ID] + fields, flags, FieldsCrc(fields) + ReferencedCrc(p.table, fields));
      DefinedSound(p.table, name, fields, flags);
      if GeneratedReply(m).Some? {
        ReplySound(p.table, m);
      }
    }
  }

  lemma StepValid(p: Parsed, s: Statement, imported: bool)
    requires Valid(p) && Step(p, s, imported).Ok?
    ensures Valid(Step(p, s, imported).value)
  {
    hide Accepted, FirstError, FieldsCrc, ReferencedCrc, EnumCrc, Variants, CrcFaithful, MessageSound;
    match s
    case Define(name, fields, flags) => DefineValid(p, name, fields, flags, imported);
    case TypedefBlock(name, fields) => FieldsValid(p, name, fields, false);
    case Union(name, fields) => FieldsValid(p, name, fields, true);
    case Typedef(field) => RegisterValid(p, TypeEntry(field.name, "[]", AliasType(field.ty, field.size)));
    case Enum(name, width, block) => RegisterValid(p, TypeEntry(name, EnumCrc(block), EnumType(width, Variants(block, 0))));
    case EnumFlag(name, width, block) =>
      RegisterValid(p, TypeEntry(name, EnumCrc(block), EnumFlagType(width, Variants(block, 0))));
    case _ =>
  }

  lemma ValidIsSound(p: Parsed)
    requires Valid(p)
    ensures Sound(p.table)
  {
  }

  lemma {:induction false} RunValid(p: Parsed, ss: seq<Statement>, imported: bool)
    requires Valid(p) && Run(p, ss, imported).Ok?
    ensures Valid(Run(p, ss, imported).value)
    decreases |ss|
  {
    hide Step, Valid;
    ValidIsSound(p);
    if ss != [] {
      RunValid(p, ss[..|ss| - 1], imported);
      StepValid(Run(p, ss[..|ss| - 1], imported).value, ss[|ss| - 1], imported);
    }
  }

  lemma {:induction false} ImportsValid(p: Parsed, ss: seq<Statement>)
    requires Valid(p) && Imports(p, ss).Ok?
    ensures Valid(Imports(p, ss).value)
    decreases ss
  {
    hide Run, CrcFaithful, EntryAccepted, MessageSound;
    if ss != [] {
      ImportsValid(p, ss[..|ss| - 1]);
      var q := Imports(p, ss[..|ss| - 1]).value;
      if ss[|ss| - 1].Import? {
        var contents := ss[|ss| - 1].contents;
        ImportsValid(q, contents);
        RunValid(Imports(q, contents).value, contents, true);
      }
    }
  }

  lemma ParseValid(ss: seq<Statement>)
    requires Parse(ss).Ok?
    ensures Valid(Parse(ss).value)
  {
    hide Run, Imports;
    assert Valid(NOTHING);
    ImportsValid(NOTHING, ss);
    RunValid(Imports(NOTHING, ss).value, ss, false);
  }

  /** In every message of an accepted file no field but the last is of variable length, and the
      count of the last one is exactly where its descriptor leads. */
  lemma MessagesWellShaped(ss: seq<Statement>, m: Message)
    requires Parse(ss).Ok? && m in Parse(ss).value.messages
    ensures var table := Parse(ss).value.table;
      && m.fields != []
      && (forall i :: 0 <= i < |m.fields| - 1 ==> FieldVla(table, m.fields[i], m.fields).None?)
      && forall d :: FieldVla(table, m.fields[|m.fields| - 1], m.fields) == Some(d) <==> LeadsTo(table, m.fields, d)
  {
    hide Parse, FieldVla, LeadsTo, CrcFaithful, EntryAccepted;
    ParseValid(ss);
    var table := Parse(ss).value.table;
    assert MessageSound(table, m);
    forall d ensures FieldVla(table, m.fields[|m.fields| - 1], m.fields) == Some(d) <==> LeadsTo(table, m.fields, d) {
      DescriptorResolves(table, m.fields, d);
    }
  }

  /** The same of the declared types; a union has no field of variable length at all. */
  lemma TypesWellShaped(ss: seq<Statement>, i: nat)
    requires Parse(ss).Ok? && i < |Parse(ss).value.table|
    ensures var table := Parse(ss).value.table;
      var fields := FieldsOf(table[i].details);
      && (forall j :: 0 <= j < |fields| - 1 ==> FieldVla(table, fields[j], fields).None?)
      && (table[i].details.UnionType? ==> forall f :: f in fields ==> FieldVla(table, f, fields).None?)
      && (fields != [] ==>
            forall d :: FieldVla(table, fields[|fields| - 1], fields) == Some(d) <==> LeadsTo(table, fields, d))
  {
    hide Parse, FieldVla, LeadsTo, CrcFaithful, MessageSound;
    ParseValid(ss);
    var table := Parse(ss).value.table;
    var fields := FieldsOf(table[i].details);
    assert EntryAccepted(table, table[i].details);
    forall d | fields != []
      ensures FieldVla(table, fields[|fields| - 1], fields) == Some(d) <==> LeadsTo(table, fields, d)
    {
      DescriptorResolves(table, fields, d);
    }
  }

  /** The checksum of a message covers its own fields, then the tree of each type referred to. */
  lemma MessageCrcCoversTree(ss: seq<Statement>, m: Message)
    requires Parse(ss).Ok? && m in Parse(ss).value.messages
    ensures var table := Parse(ss).value.table;
      && m.fields != []
      && (forall f :: f in m.fields[1..] ==> Refers(table, f, |table|))
      && m.crc == FieldsCrc(m.fields[1..]) + TreesOf(table, m.fields[1..], |table|)
  {
    hide Parse, FieldsCrc, TreesOf, Refers;
    ParseValid(ss);
    assert MessageSound(Parse(ss).value.table, m);
  }
}
