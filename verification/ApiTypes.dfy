/** The declarations of an `.api` file and the table of types they build. */
module ApiTypes {
  import opened Optional

  datatype FieldSize = Variable(count: Option<string>) | Fixed(length: nat)

  datatype Field = Field(ty: string, name: string, size: Option<FieldSize>)

  datatype EnumStatement = Variant(id: string, value: Option<nat>, options: seq<string>)

  datatype EnumVariant = EnumVariant(id: string, value: nat)

  datatype TypeDetails =
    | BlockType(fields: seq<Field>)
    | AliasType(ty: string, size: Option<FieldSize>)
    | UnionType(fields: seq<Field>)
    | EnumType(width: string, variants: seq<EnumVariant>)
    | EnumFlagType(width: string, variants: seq<EnumVariant>)

  /** `crc` is what the type's hasher has absorbed. */
  datatype TypeEntry = TypeEntry(name: string, crc: string, details: TypeDetails)

  /** The global types in the order of their registration. */
  type Table = seq<TypeEntry>

  const VL_API_PREFIX: string := "vl_api_"
  const VL_API_SUFFIX: string := "_t"

  function StripPrefix(s: string, p: string): (r: Option<string>)
    ensures r.Some? <==> p <= s
    ensures r.Some? ==> s == p + r.value
  {
    if p <= s then Some(s[|p|..]) else None
  }

  function StripSuffix(s: string, p: string): (r: Option<string>)
    ensures r.Some? ==> s == r.value + p
    ensures r.Some? <==> |p| <= |s| && s[|s| - |p|..] == p
  {
    if |p| <= |s| && s[|s| - |p|..] == p then Some(s[..|s| - |p|]) else None
  }

  lemma StripSuffixOf(s: string, p: string)
    ensures StripSuffix(s + p, p) == Some(s)
  {
    assert (s + p)[|s|..] == p && (s + p)[..|s|] == s;
  }

  /** The name of the declared type a field refers to, if its type is not a built-in one. */
  function ApiName(ty: string): Option<string> {
    match StripPrefix(ty, VL_API_PREFIX)
    case None => None
    case Some(rest) => StripSuffix(rest, VL_API_SUFFIX)
  }

  /** A declared type is written `vl_api_<name>_t`. */
  lemma NameMeans(ty: string, name: string)
    ensures ApiName(ty) == Some(name) <==> ty == "vl_api_" + name + "_t"
  {
    StripSuffixOf(name, VL_API_SUFFIX);
    var rest := name + VL_API_SUFFIX;
    assert "vl_api_" + name + "_t" == VL_API_PREFIX + rest;
    assert (VL_API_PREFIX + rest)[|VL_API_PREFIX|..] == rest;
    if ApiName(ty) == Some(name) {
      assert ty == VL_API_PREFIX + StripPrefix(ty, VL_API_PREFIX).value;
    }
  }

  /** The registration position of a type. */
  function Find(table: Table, name: string): (r: Option<nat>)
    ensures r.Some? ==> r.value < |table| && table[r.value].name == name
    ensures r.None? ==> forall i :: 0 <= i < |table| ==> table[i].name != name
  {
    if table == [] then None
    else if table[|table| - 1].name == name then Some(|table| - 1)
    else Find(table[..|table| - 1], name)
  }

  ghost predicate UniqueNames(table: Table) {
    forall i, j :: 0 <= i < j < |table| ==> table[i].name != table[j].name
  }

  function Resolve(table: Table, f: Field): (r: Option<nat>)
    ensures r.Some? ==> r.value < |table|
  {
    match ApiName(f.ty)
    case None => None
    case Some(name) => Find(table, name)
  }

  /** A reference to a declared type that is registered before position `limit`. */
  predicate Refers(table: Table, f: Field, limit: nat) {
    ApiName(f.ty).Some? ==> Resolve(table, f).Some? && Resolve(table, f).value < limit
  }

  function FieldsOf(d: TypeDetails): seq<Field> {
    match d
    case BlockType(fields) => fields
    case UnionType(fields) => fields
    case _ => []
  }

  /** Types with fields refer to types registered before them only. */
  ghost predicate Grounded(table: Table) {
    forall i, f :: 0 <= i < |table| && f in FieldsOf(table[i].details) ==> Refers(table, f, i)
  }

  lemma {:induction false} FindAt(table: Table, i: nat)
    requires UniqueNames(table) && i < |table|
    ensures Find(table, table[i].name) == Some(i)
    decreases |table|
  {
    if i < |table| - 1 {
      assert table[i].name != table[|table| - 1].name;
      FindAt(table[..|table| - 1], i);
    }
  }

  /** Registering further types moves no registered name. */
  lemma FindStable(table: Table, more: Table, name: string)
    requires UniqueNames(table + more) && Find(table, name).Some?
    ensures Find(table + more, name) == Find(table, name)
  {
    var i := Find(table, name).value;
    assert (table + more)[i] == table[i];
    FindAt(table + more, i);
  }

  lemma ResolveStable(table: Table, more: Table, f: Field)
    requires UniqueNames(table + more) && Resolve(table, f).Some?
    ensures Resolve(table + more, f) == Resolve(table, f)
  {
    FindStable(table, more, ApiName(f.ty).value);
  }

  lemma RefersStable(table: Table, more: Table, f: Field, limit: nat)
    requires UniqueNames(table + more) && Refers(table, f, limit)
    ensures Refers(table + more, f, limit)
  {
    if ApiName(f.ty).Some? { ResolveStable(table, more, f); }
  }

  /** Registering one more type whose references all resolve keeps the table grounded. */
  lemma RegisterGrounded(table: Table, e: TypeEntry)
    requires UniqueNames(table + [e]) && Grounded(table)
    requires forall f :: f in FieldsOf(e.details) ==> Refers(table, f, |table|)
    ensures Grounded(table + [e])
  {
    var t := table + [e];
    forall i, f | 0 <= i < |t| && f in FieldsOf(t[i].details) ensures Refers(t, f, i) {
      RefersStable(table, [e], f, if i < |table| then i else |table|);
    }
  }
}
