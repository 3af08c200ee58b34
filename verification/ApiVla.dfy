/** Which fields are of variable length, and where their count is found. */
module ApiVla {
  import opened Optional
  import opened ApiTypes

  /** The path runs from the outermost field to the innermost. */
  datatype CountDescriptor = CountField(path: seq<string>, ty: string) | CountString(path: seq<string>)

  function Under(name: string, d: CountDescriptor): CountDescriptor {
    match d
    case CountField(path, ty) => CountField([name] + path, ty)
    case CountString(path) => CountString([name] + path)
  }

  predicate IsString(ty: string, size: Option<FieldSize>) {
    size == Some(Variable(None)) && ty == "string"
  }

  function FindField(fields: seq<Field>, name: string): (r: Option<Field>)
    ensures r.Some? <==> exists f :: f in fields && f.name == name
    ensures r.Some? ==> r.value in fields && r.value.name == name
  {
    if fields == [] then None
    else if fields[0].name == name then Some(fields[0])
    else FindField(fields[1..], name)
  }

  /** The count field a field names, if that field exists. */
  function Counter(f: Field, others: seq<Field>): Option<Field> {
    if f.size.Some? && f.size.value.Variable? && f.size.value.count.Some? then
      FindField(others, f.size.value.count.value)
    else None
  }

  /** Registration positions measure the recursion. */
  function Rank(table: Table, f: Field): nat {
    var r := Resolve(table, f);
    if r.Some? then r.value + 1 else 0
  }

  /** `Field::vla`. */
  function FieldVla(table: Table, f: Field, others: seq<Field>): Option<CountDescriptor>
    requires Grounded(table)
    decreases Rank(table, f), 1
  {
    if IsString(f.ty, f.size) then Some(CountString([f.name]))
    else if Counter(f, others).Some? then
      var c := Counter(f, others).value;
      Some(CountField([c.name], c.ty))
    else
      match Resolve(table, f)
      case None => None
      case Some(i) =>
        match EntryVla(table, i)
        case None => None
        case Some(d) => Some(Under(f.name, d))
  }

  /** `TypeEntry::vla`. */
  function EntryVla(table: Table, i: nat): Option<CountDescriptor>
    requires Grounded(table) && i < |table|
    decreases i + 1, 0
  {
    match table[i].details
    case BlockType(fields) =>
      if fields == [] then None
      else
        assert fields[|fields| - 1] in FieldsOf(table[i].details);
        FieldVla(table, fields[|fields| - 1], fields)
    case AliasType(ty, size) => if IsString(ty, size) then Some(CountString([])) else None
    case _ => None
  }

  /** A field is of variable length exactly when it is a string without a length, or names a count that
      is there, or is of a declared type of variable length, and that is a type whose last field is, or
      an alias of a string without a length. */
  lemma VerdictMeans(table: Table, f: Field, others: seq<Field>)
    requires Grounded(table) && UniqueNames(table)
    ensures FieldVla(table, f, others).Some? <==>
      || (f.ty == "string" && f.size == Some(Variable(None)))
      || (f.size.Some? && f.size.value.Variable? && f.size.value.count.Some?
          && exists g :: g in others && g.name == f.size.value.count.value)
      || exists i :: 0 <= i < |table| && f.ty == "vl_api_" + table[i].name + "_t" && EntryVla(table, i).Some?
    ensures forall i :: 0 <= i < |table| ==>
      (EntryVla(table, i).Some? <==>
       match table[i].details
       case BlockType(fields) => fields != [] && FieldVla(table, fields[|fields| - 1], fields).Some?
       case AliasType(ty, size) => ty == "string" && size == Some(Variable(None))
       case _ => false)
  {
    hide FindField;
    if ApiName(f.ty).Some? {
      NameMeans(f.ty, ApiName(f.ty).value);
    }
    forall i | 0 <= i < |table| && f.ty == "vl_api_" + table[i].name + "_t" ensures Resolve(table, f) == Some(i) {
      NameMeans(f.ty, table[i].name);
      FindAt(table, i);
    }
  }

  // ---- verdicts never change ---------------------------------------------------------------------

  /** A field whose reference resolves keeps its verdict as later types are registered. */
  lemma {:induction false} FieldVlaStable(table: Table, more: Table, f: Field, others: seq<Field>)
    requires Grounded(table) && Grounded(table + more) && UniqueNames(table + more)
    requires Refers(table, f, |table|)
    ensures FieldVla(table + more, f, others) == FieldVla(table, f, others)
    decreases Rank(table, f), 1
  {
    if Resolve(table, f).Some? {
      ResolveStable(table, more, f);
      EntryVlaStable(table, more, Resolve(table, f).value);
    }
  }

  lemma {:induction false} EntryVlaStable(table: Table, more: Table, i: nat)
    requires Grounded(table) && Grounded(table + more) && UniqueNames(table + more)
    requires i < |table|
    ensures EntryVla(table + more, i) == EntryVla(table, i)
    decreases i + 1, 0
  {
    assert (table + more)[i] == table[i];
    var fields := FieldsOf(table[i].details);
    if table[i].details.BlockType? && fields != [] {
      var last := fields[|fields| - 1];
      assert last in fields;
      FieldVlaStable(table, more, last, fields);
    }
  }

  // ---- where the path leads -------------------------------------------------------------------------

  /** `path` leads from `fields`, last field by last field, to a count field of type `ty` that
      the innermost last field names as its length. */
  predicate CountPath(table: Table, fields: seq<Field>, path: seq<string>, ty: string)
    decreases |path|
  {
    && fields != []
    && var last := fields[|fields| - 1];
       !IsString(last.ty, last.size) &&
       match Counter(last, fields)
       case Some(c) => path == [c.name] && ty == c.ty
       case None =>
         && |path| >= 2 && path[0] == last.name
         && Resolve(table, last).Some?
         && table[Resolve(table, last).value].details.BlockType?
         && CountPath(table, table[Resolve(table, last).value].details.fields, path[1..], ty)
  }

  /** `path` leads, last field by last field, to a variable string. */
  predicate StringPath(table: Table, fields: seq<Field>, path: seq<string>)
    decreases |path|
  {
    && fields != []
    && var last := fields[|fields| - 1];
       && |path| >= 1 && path[0] == last.name
       && if IsString(last.ty, last.size) then |path| == 1
          else
            && Counter(last, fields).None?
            && Resolve(table, last).Some?
            && match table[Resolve(table, last).value].details
               case BlockType(inner) => StringPath(table, inner, path[1..])
               case AliasType(ty, size) => IsString(ty, size) && |path| == 1
               case _ => false
  }

  predicate LeadsTo(table: Table, fields: seq<Field>, d: CountDescriptor) {
    match d
    case CountField(path, ty) => CountPath(table, fields, path, ty)
    case CountString(path) => StringPath(table, fields, path)
  }

  /** A descriptor without its outermost name. */
  function Rest(d: CountDescriptor): CountDescriptor
    requires d.path != []
  {
    if d.CountField? then CountField(d.path[1..], d.ty) else CountString(d.path[1..])
  }

  predicate EntryLeadsTo(table: Table, i: nat, d: CountDescriptor)
    requires i < |table|
  {
    match table[i].details
    case BlockType(fields) => LeadsTo(table, fields, d)
    case AliasType(ty, size) => IsString(ty, size) && d == CountString([])
    case _ => false
  }

  lemma NowhereToLead(table: Table, d: CountDescriptor)
    ensures !LeadsTo(table, [], d)
  {
  }

  lemma {:induction false} EntryResolves(table: Table, i: nat, d: CountDescriptor)
    requires Grounded(table) && i < |table|
    ensures EntryVla(table, i) == Some(d) <==> EntryLeadsTo(table, i, d)
    decreases i + 1, 0
  {
    hide FieldVla, CountPath, StringPath;
    match table[i].details
    case BlockType(fields) =>
      if fields == [] {
        NowhereToLead(table, d);
      } else {
        assert fields[|fields| - 1] in FieldsOf(table[i].details);
        DescriptorResolves(table, fields, d);
      }
    case _ =>
  }

  /** Below a field that is of variable length by its type alone, the path goes on in that type. */
  lemma LeadsInto(table: Table, fields: seq<Field>, d: CountDescriptor)
    requires fields != []
    requires var last := fields[|fields| - 1];
      !IsString(last.ty, last.size) && Counter(last, fields).None? && Resolve(table, last).Some?
    ensures var last := fields[|fields| - 1];
      LeadsTo(table, fields, d) <==>
        d.path != [] && d.path[0] == last.name && EntryLeadsTo(table, Resolve(table, last).value, Rest(d))
  {
    hide FindField, Resolve;
  }

  lemma LeadsHere(table: Table, fields: seq<Field>, d: CountDescriptor)
    requires fields != []
    requires var last := fields[|fields| - 1];
      IsString(last.ty, last.size) || Counter(last, fields).Some? || Resolve(table, last).None?
    ensures var last := fields[|fields| - 1];
      && (IsString(last.ty, last.size) ==> (LeadsTo(table, fields, d) <==> d == CountString([last.name])))
      && (!IsString(last.ty, last.size) ==>
            (LeadsTo(table, fields, d) <==>
             match Counter(last, fields)
             case None => false
             case Some(c) => d == CountField([c.name], c.ty)))
  {
    hide FindField, Resolve;
    var last := fields[|fields| - 1];
    assert |d.path| == 1 && d.path[0] == last.name <==> d.path == [last.name];
  }

  lemma UnderInverts(name: string, inner: CountDescriptor, d: CountDescriptor)
    ensures Under(name, inner) == d <==> d.path != [] && d.path[0] == name && inner == Rest(d)
  {
    if d.path != [] { assert [d.path[0]] + d.path[1..] == d.path; }
    assert ([name] + inner.path)[1..] == inner.path;
  }

  /** The descriptor of a last field is exactly the one whose path resolves step by step to an
      existing count field of the recorded type, or to a variable string. */
  lemma {:induction false} DescriptorResolves(table: Table, fields: seq<Field>, d: CountDescriptor)
    requires Grounded(table) && fields != []
    ensures FieldVla(table, fields[|fields| - 1], fields) == Some(d) <==> LeadsTo(table, fields, d)
    decreases Rank(table, fields[|fields| - 1]), 1
  {
    hide LeadsTo, EntryVla, EntryLeadsTo, FindField, Resolve, Grounded;
    var last := fields[|fields| - 1];
    if IsString(last.ty, last.size) || Counter(last, fields).Some? || Resolve(table, last).None? {
      LeadsHere(table, fields, d);
    } else {
      var i := Resolve(table, last).value;
      LeadsInto(table, fields, d);
      if d.path != [] {
        EntryResolves(table, i, Rest(d));
      }
      if EntryVla(table, i).Some? {
        UnderInverts(last.name, EntryVla(table, i).value, d);
      }
    }
  }
}
