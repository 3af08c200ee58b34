/** Appending backwards-compatible variants to enums, in the file itself or in anything it imports,
    is invisible: the same files are accepted, with the same messages, checksums and services. */
module ApiCompatibility {
  import opened Optional
  import opened ApiTypes
  import opened ApiStatements
  import ApiVla
  import opened ApiCrc
  import opened ApiValidation
  import ApiServices
  import opened ApiParsing

  predicate BlockExtends(block: seq<EnumStatement>, longer: seq<EnumStatement>) {
    block <= longer && forall v :: v in longer[|block|..] ==> Compatible(v)
  }

  ghost predicate Extends(a: Statement, b: Statement)
    decreases a
  {
    match a
    case Enum(name, width, block) => b.Enum? && b.name == name && b.width == width && BlockExtends(block, b.block)
    case EnumFlag(name, width, block) => b.EnumFlag? && b.name == name && b.width == width && BlockExtends(block, b.block)
    case Import(file, contents) =>
      && b.Import? && b.file == file && |b.contents| == |contents|
      && forall i :: 0 <= i < |contents| ==> Extends(contents[i], b.contents[i])
    case _ => a == b
  }

  ghost predicate FileExtends(a: seq<Statement>, b: seq<Statement>) {
    |a| == |b| && forall i :: 0 <= i < |a| ==> Extends(a[i], b[i])
  }

  /** Entries that differ in nothing but their checksum and the variants of an enum. */
  predicate EntryResembles(a: TypeEntry, b: TypeEntry) {
    && a.name == b.name
    && match a.details
       case EnumType(_, _) => b.details.EnumType?
       case EnumFlagType(_, _) => b.details.EnumFlagType?
       case _ => a.details == b.details
  }

  ghost predicate Resembles(t: Table, u: Table) {
    |t| == |u| && forall i :: 0 <= i < |t| ==> EntryResembles(t[i], u[i])
  }

  /** Entries that differ in nothing but the variants of an enum. */
  predicate EntryAlike(a: TypeEntry, b: TypeEntry) {
    EntryResembles(a, b) && a.crc == b.crc
  }

  ghost predicate TableAlike(t: Table, u: Table) {
    |t| == |u| && forall i :: 0 <= i < |t| ==> EntryAlike(t[i], u[i])
  }

  ghost predicate Alike(p: Parsed, q: Parsed) {
    && TableAlike(p.table, q.table)
    && p.messages == q.messages && p.services == q.services && p.imports == q.imports && p.options == q.options
  }

  ghost predicate SameOutcome(r: Result<Parsed>, s: Result<Parsed>) {
    match r
    case Ok(p) => s.Ok? && Alike(p, s.value)
    case Err(e) => s == Err(e)
  }

  lemma ExtendedCrc(block: seq<EnumStatement>, longer: seq<EnumStatement>)
    requires BlockExtends(block, longer)
    ensures EnumCrc(longer) == EnumCrc(block)
  {
    hide EnumCrc;
    assert longer == block + longer[|block|..];
    AppendedCompatibleIff(block, longer[|block|..]);
  }

  // ---- nothing the parser looks at differs -----------------------------------------------------------------

  lemma {:induction false} FindAlike(t: Table, u: Table, name: string)
    requires Resembles(t, u)
    ensures Find(t, name) == Find(u, name)
    decreases |t|
  {
    if t != [] {
      FindAlike(t[..|t| - 1], u[..|u| - 1], name);
    }
  }

  lemma {:induction false} FieldVlaAlike(t: Table, u: Table, f: Field, others: seq<Field>)
    requires Grounded(t) && Grounded(u) && Resembles(t, u)
    ensures ApiVla.FieldVla(t, f, others) == ApiVla.FieldVla(u, f, others)
    decreases ApiVla.Rank(t, f), 1
  {
    if ApiName(f.ty).Some? {
      FindAlike(t, u, ApiName(f.ty).value);
    }
    if Resolve(t, f).Some? {
      EntryVlaAlike(t, u, Resolve(t, f).value);
    }
  }

  lemma {:induction false} EntryVlaAlike(t: Table, u: Table, i: nat)
    requires Grounded(t) && Grounded(u) && Resembles(t, u) && i < |t|
    ensures ApiVla.EntryVla(t, i) == ApiVla.EntryVla(u, i)
    decreases i + 1, 0
  {
    assert EntryResembles(t[i], u[i]);
    var fields := FieldsOf(t[i].details);
    if t[i].details.BlockType? && fields != [] {
      assert fields[|fields| - 1] in fields;
      FieldVlaAlike(t, u, fields[|fields| - 1], fields);
    }
  }

  lemma {:induction false} FirstErrorAlike(t: Table, u: Table, name: string, fields: seq<Field>, isUnion: bool, i: nat)
    requires Grounded(t) && Grounded(u) && Resembles(t, u) && i <= |fields|
    ensures FirstError(t, name, fields, isUnion, i) == FirstError(u, name, fields, isUnion, i)
    decreases |fields| - i
  {
    hide ApiVla.FieldVla, Grounded, Resembles;
    if i < |fields| {
      FieldVlaAlike(t, u, fields[i], fields);
      FirstErrorAlike(t, u, name, fields, isUnion, i + 1);
    }
  }

  lemma {:induction false} ReferencesAlike(t: Table, u: Table, fields: seq<Field>)
    requires TableAlike(t, u)
    ensures FirstUnresolved(t, fields) == FirstUnresolved(u, fields)
    ensures ReferencedCrc(t, fields) == ReferencedCrc(u, fields)
  {
    if fields != [] {
      var last := fields[|fields| - 1];
      ReferencesAlike(t, u, fields[..|fields| - 1]);
      if ApiName(last.ty).Some? {
        FindAlike(t, u, ApiName(last.ty).value);
      }
      if Resolve(t, last).Some? {
        assert EntryAlike(t[Resolve(t, last).value], u[Resolve(t, last).value]);
      }
    }
  }

  // ---- so every step goes the same way -----------------------------------------------------------------------

  lemma RegisterAlike(p: Parsed, q: Parsed, a: TypeEntry, b: TypeEntry)
    requires Sound(p.table) && Sound(q.table) && Alike(p, q) && EntryAlike(a, b)
    requires forall f :: f in FieldsOf(a.details) ==> Refers(p.table, f, |p.table|)
    requires forall f :: f in FieldsOf(b.details) ==> Refers(q.table, f, |q.table|)
    ensures SameOutcome(Register(p, a), Register(q, b))
  {
    FindAlike(p.table, q.table, a.name);
  }

  lemma FieldsAlike(p: Parsed, q: Parsed, name: string, fields: seq<Field>, isUnion: bool)
    requires Sound(p.table) && Sound(q.table) && Alike(p, q)
    ensures SameOutcome(RegisterFields(p, name, fields, isUnion), RegisterFields(q, name, fields, isUnion))
  {
    hide FirstError, FieldsCrc, ReferencedCrc, FirstUnresolved;
    FirstErrorAlike(p.table, q.table, name, fields, isUnion, 0);
    ReferencesAlike(p.table, q.table, fields);
    if FirstUnresolved(p.table, fields).None? {
      var crc := FieldsCrc(fields) + ReferencedCrc(p.table, fields);
      var e := TypeEntry(name, crc, if isUnion then UnionType(fields) else BlockType(fields));
      RegisterAlike(p, q, e, e);
    }
  }

  lemma DefineAlike(p: Parsed, q: Parsed, name: string, fields: seq<Field>, flags: seq<Flag>, imported: bool)
    requires Sound(p.table) && Sound(q.table) && Alike(p, q)
    ensures SameOutcome(DefineMessage(p, name, fields, flags, imported), DefineMessage(q, name, fields, flags, imported))
  {
    hide FirstError, FieldsCrc, ReferencedCrc, FirstUnresolved, NewMessages;
    FirstErrorAlike(p.table, q.table, name, fields, false, 0);
    ReferencesAlike(p.table, q.table, fields);
  }

  lemma StepAlike(p: Parsed, q: Parsed, a: Statement, b: Statement, imported: bool)
    requires Sound(p.table) && Sound(q.table) && Alike(p, q) && Extends(a, b)
    ensures SameOutcome(Step(p, a, imported), Step(q, b, imported))
  {
    hide EnumCrc, Variants, RegisterFields, DefineMessage, Register, Sound, BlockExtends, TableAlike;
    match a
    case Define(name, fields, flags) => DefineAlike(p, q, name, fields, flags, imported);
    case TypedefBlock(name, fields) => FieldsAlike(p, q, name, fields, false);
    case Union(name, fields) => FieldsAlike(p, q, name, fields, true);
    case Typedef(field) =>
      var e := TypeEntry(field.name, "[]", AliasType(field.ty, field.size));
      RegisterAlike(p, q, e, e);
    case Enum(name, width, block) =>
      ExtendedCrc(block, b.block);
      RegisterAlike(p, q, TypeEntry(name, EnumCrc(block), EnumType(width, Variants(block, 0))),
                    TypeEntry(name, EnumCrc(b.block), EnumType(width, Variants(b.block, 0))));
    case EnumFlag(name, width, block) =>
      ExtendedCrc(block, b.block);
      RegisterAlike(p, q, TypeEntry(name, EnumCrc(block), EnumFlagType(width, Variants(block, 0))),
                    TypeEntry(name, EnumCrc(b.block), EnumFlagType(width, Variants(b.block, 0))));
    case _ =>
  }

  lemma {:induction false} RunAlike(p: Parsed, q: Parsed, a: seq<Statement>, b: seq<Statement>, imported: bool)
    requires Sound(p.table) && Sound(q.table) && Alike(p, q) && FileExtends(a, b)
    ensures SameOutcome(Run(p, a, imported), Run(q, b, imported))
    decreases |a|
  {
    hide Step, Sound, Alike, Extends;
    if a != [] {
      RunAlike(p, q, a[..|a| - 1], b[..|b| - 1], imported);
      var r := Run(p, a[..|a| - 1], imported);
      if r.Ok? {
        StepAlike(r.value, Run(q, b[..|b| - 1], imported).value, a[|a| - 1], b[|b| - 1], imported);
      }
    }
  }

  lemma {:induction false} ImportsAlike(p: Parsed, q: Parsed, a: seq<Statement>, b: seq<Statement>)
    requires Sound(p.table) && Sound(q.table) && Alike(p, q) && FileExtends(a, b)
    ensures SameOutcome(Imports(p, a), Imports(q, b))
    decreases a
  {
    hide Run, Sound, Alike;
    if a != [] {
      ImportsAlike(p, q, a[..|a| - 1], b[..|b| - 1]);
      var r := Imports(p, a[..|a| - 1]);
      var last := a[|a| - 1];
      assert Extends(last, b[|b| - 1]);
      if r.Ok? && last.Import? {
        var s := Imports(q, b[..|b| - 1]);
        ImportsAlike(r.value, s.value, last.contents, b[|b| - 1].contents);
        if Imports(r.value, last.contents).Ok? {
          RunAlike(Imports(r.value, last.contents).value, Imports(s.value, b[|b| - 1].contents).value,
                   last.contents, b[|b| - 1].contents, true);
        }
      }
    }
  }

  lemma {:induction false} FileCrcAlike(a: seq<Statement>, b: seq<Statement>)
    requires FileExtends(a, b)
    ensures FileCrc(a) == FileCrc(b)
    decreases |a|
  {
    hide EnumCrc, FieldsCrc, BlockExtends;
    if a != [] {
      FileCrcAlike(a[..|a| - 1], b[..|b| - 1]);
      var x, y := a[|a| - 1], b[|b| - 1];
      assert Extends(x, y);
      if x.Enum? || x.EnumFlag? {
        ExtendedCrc(x.block, y.block);
      }
    }
  }

  /** Both files are rejected with one error, or both are accepted with the same messages, each
      with the same checksum, the same file checksum and the same services. */
  lemma CompatibleVariantsKeepCrcs(a: seq<Statement>, b: seq<Statement>)
    requires FileExtends(a, b)
    ensures FileCrc(a) == FileCrc(b)
    ensures Parse(a).Err? ==> Parse(b) == Parse(a)
    ensures Parse(a).Ok? ==> Parse(b).Ok?
    ensures Parse(a).Ok? ==>
      var p, q := Parse(a).value, Parse(b).value;
      && p.messages == q.messages
      && ApiServices.Accepts(MessageNames(p.messages), p.services) == ApiServices.Accepts(MessageNames(q.messages), q.services)
      && ApiServices.Outcome(MessageNames(p.messages), p.services) == ApiServices.Outcome(MessageNames(q.messages), q.services)
  {
    hide Run, Imports, FileExtends, FileCrc;
    FileCrcAlike(a, b);
    ImportsAlike(NOTHING, NOTHING, a, b);
    if Imports(NOTHING, a).Ok? {
      RunAlike(Imports(NOTHING, a).value, Imports(NOTHING, b).value, a, b, false);
    }
  }
}
