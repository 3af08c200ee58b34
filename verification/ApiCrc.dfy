/** The text that a declaration's checksum covers, and the checksum data of a type tree. A
    hasher is the string it has absorbed; combining two hashers appends. */
module ApiCrc {
  import opened MachineArithmetic
  import opened Optional
  import opened ApiTypes

  const BACKWARDS_COMPATIBLE: string := "backwards_compatible"

  function Decimal(n: nat): string {
    if n < 10 then [['0', '1', '2', '3', '4', '5', '6', '7', '8', '9'][n]]
    else Decimal(n / 10) + Decimal(n % 10)
  }

  function Join(parts: seq<string>): string {
    if parts == [] then ""
    else if |parts| == 1 then parts[0]
    else parts[0] + ", " + Join(parts[1..])
  }

  function Listed(parts: seq<string>): string {
    "[" + Join(parts) + "]"
  }

  /** `Field::crc_data`. */
  function FieldCrc(f: Field): string {
    match f.size
    case None => "['" + f.ty + "', '" + f.name + "']"
    case Some(Fixed(n)) => "['" + f.ty + "', '" + f.name + "', " + Decimal(n) + ", None]"
    case Some(Variable(None)) => "['" + f.ty + "', '" + f.name + "', 0, None]"
    case Some(Variable(Some(c))) => "['" + f.ty + "', '" + f.name + "', 0, '" + c + "']"
  }

  function FieldItems(fields: seq<Field>): seq<string> {
    seq(|fields|, i requires 0 <= i < |fields| => FieldCrc(fields[i]))
  }

  function FieldsCrc(fields: seq<Field>): string {
    Listed(FieldItems(fields))
  }

  // ---- enum numbering -----------------------------------------------------------------------------

  predicate Compatible(v: EnumStatement) {
    BACKWARDS_COMPATIBLE in v.options
  }

  function ValueOf(v: EnumStatement, next: nat): nat {
    if v.value.Some? then v.value.value else next
  }

  function Item(id: string, value: nat): string {
    "['" + id + "', " + Decimal(value) + "]"
  }

  function Item1(v: EnumStatement, value: nat): seq<string> {
    if Compatible(v) then [] else [Item(v.id, value)]
  }

  /** The enum items the checksum covers, numbering from `next`. */
  function EnumItems(vs: seq<EnumStatement>, next: nat): seq<string> {
    if vs == [] then []
    else Item1(vs[0], ValueOf(vs[0], next)) + EnumItems(vs[1..], (ValueOf(vs[0], next) + 1) % U32)
  }

  function EnumCrc(vs: seq<EnumStatement>): string {
    Listed(EnumItems(vs, 0))
  }

  /** `enum_variants_from_block_statements`. */
  function Variants(vs: seq<EnumStatement>, next: nat): (r: seq<EnumVariant>)
    ensures |r| == |vs|
  {
    if vs == [] then []
    else [EnumVariant(vs[0].id, ValueOf(vs[0], next))] + Variants(vs[1..], (ValueOf(vs[0], next) + 1) % U32)
  }

  function NextAfter(vs: seq<EnumStatement>, next: nat): nat {
    if vs == [] then next else NextAfter(vs[1..], (ValueOf(vs[0], next) + 1) % U32)
  }

  lemma {:induction false} NextStep(vs: seq<EnumStatement>, i: nat, next: nat)
    requires i < |vs|
    ensures NextAfter(vs[..i + 1], next) == (ValueOf(vs[i], NextAfter(vs[..i], next)) + 1) % U32
  {
    if i > 0 {
      assert vs[..i + 1][1..] == vs[1..][..i] && vs[..i][1..] == vs[1..][..i - 1];
      NextStep(vs[1..], i - 1, (ValueOf(vs[0], next) + 1) % U32);
    }
  }

  lemma {:induction false} ItemsStep(vs: seq<EnumStatement>, i: nat, next: nat)
    requires i < |vs|
    ensures EnumItems(vs[..i + 1], next)
         == EnumItems(vs[..i], next) + Item1(vs[i], ValueOf(vs[i], NextAfter(vs[..i], next)))
  {
    hide Item1;
    if i == 0 {
      assert vs[..1][1..] == [] && vs[..0] == [];
    } else {
      var n := (ValueOf(vs[0], next) + 1) % U32;
      assert vs[..i + 1][1..] == vs[1..][..i] && vs[..i][1..] == vs[1..][..i - 1];
      ItemsStep(vs[1..], i - 1, n);
    }
  }

  lemma {:induction false} VariantsStep(vs: seq<EnumStatement>, i: nat, next: nat)
    requires i < |vs|
    ensures Variants(vs[..i + 1], next)
         == Variants(vs[..i], next) + [EnumVariant(vs[i].id, ValueOf(vs[i], NextAfter(vs[..i], next)))]
  {
    if i == 0 {
      assert vs[..1][1..] == [] && vs[..0] == [];
    } else {
      var n := (ValueOf(vs[0], next) + 1) % U32;
      assert vs[..i + 1][1..] == vs[1..][..i] && vs[..i][1..] == vs[1..][..i - 1];
      VariantsStep(vs[1..], i - 1, n);
    }
  }

  lemma {:induction false} VariantAt(vs: seq<EnumStatement>, next: nat, i: nat)
    requires i < |vs|
    ensures Variants(vs, next)[i].id == vs[i].id
    ensures Variants(vs, next)[i].value ==
      if vs[i].value.Some? then vs[i].value.value
      else if i == 0 then next
      else (Variants(vs, next)[i - 1].value + 1) % 0x1_0000_0000
  {
    if i > 0 {
      VariantAt(vs[1..], (ValueOf(vs[0], next) + 1) % U32, i - 1);
    }
  }

  /** A given value is kept. A variant without one is numbered after its predecessor, in 32 bits, and
      the first one is 0. */
  lemma VariantsByIndex(vs: seq<EnumStatement>, i: nat)
    requires i < |vs|
    ensures Variants(vs, 0)[i].id == vs[i].id
    ensures vs[i].value.Some? ==> Variants(vs, 0)[i].value == vs[i].value.value
    ensures vs[i].value.None? && i == 0 ==> Variants(vs, 0)[i].value == 0
    ensures vs[i].value.None? && i > 0 ==> Variants(vs, 0)[i].value == (Variants(vs, 0)[i - 1].value + 1) % 0x1_0000_0000
  {
    hide Variants;
    VariantAt(vs, 0, i);
  }

  method CrcDataForEnum(vs: seq<EnumStatement>) returns (data: string)
    ensures data == EnumCrc(vs)
  {
    hide Item, Join;
    var nextValue := 0;
    var items := [];
    var i := 0;
    while i < |vs|
      invariant 0 <= i <= |vs|
      invariant items == EnumItems(vs[..i], 0) && nextValue == NextAfter(vs[..i], 0)
    {
      NextStep(vs, i, 0);
      ItemsStep(vs, i, 0);
      var value := if vs[i].value.Some? then vs[i].value.value else nextValue;
      nextValue := (value + 1) % U32;
      if BACKWARDS_COMPATIBLE !in vs[i].options {
        items := items + [Item(vs[i].id, value)];
      }
      i := i + 1;
    }
    assert vs[..i] == vs;
    data := Listed(items);
  }

  method VariantsFromBlock(vs: seq<EnumStatement>) returns (variants: seq<EnumVariant>)
    ensures variants == Variants(vs, 0)
  {
    var nextValue := 0;
    variants := [];
    var i := 0;
    while i < |vs|
      invariant 0 <= i <= |vs|
      invariant variants == Variants(vs[..i], 0) && nextValue == NextAfter(vs[..i], 0)
    {
      NextStep(vs, i, 0);
      VariantsStep(vs, i, 0);
      var value := if vs[i].value.Some? then vs[i].value.value else nextValue;
      nextValue := (value + 1) % U32;
      variants := variants + [EnumVariant(vs[i].id, value)];
      i := i + 1;
    }
    assert vs[..i] == vs;
  }

  /** The items of those variants that are not marked backwards compatible. */
  function ItemsOf(vs: seq<EnumStatement>, variants: seq<EnumVariant>): seq<string>
    requires |vs| == |variants|
  {
    if vs == [] then []
    else (if Compatible(vs[0]) then [] else [Item(variants[0].id, variants[0].value)]) + ItemsOf(vs[1..], variants[1..])
  }

  /** The checksum numbers its items as the generated constants are numbered. */
  lemma {:induction false} NumberingAgrees(vs: seq<EnumStatement>, next: nat)
    ensures EnumItems(vs, next) == ItemsOf(vs, Variants(vs, next))
  {
    if vs != [] {
      var n := (ValueOf(vs[0], next) + 1) % U32;
      NumberingAgrees(vs[1..], n);
      assert Variants(vs, next)[1..] == Variants(vs[1..], n);
    }
  }

  lemma {:induction false} ItemsSplit(vs: seq<EnumStatement>, more: seq<EnumStatement>, next: nat)
    ensures EnumItems(vs + more, next) == EnumItems(vs, next) + EnumItems(more, NextAfter(vs, next))
  {
    hide Item1;
    if vs == [] {
      assert vs + more == more;
    } else {
      assert (vs + more)[1..] == vs[1..] + more;
      ItemsSplit(vs[1..], more, (ValueOf(vs[0], next) + 1) % U32);
    }
  }

  lemma {:induction false} ItemsCovered(vs: seq<EnumStatement>, next: nat)
    ensures EnumItems(vs, next) == [] <==> forall v :: v in vs ==> Compatible(v)
    ensures forall s :: s in EnumItems(vs, next) ==> s != ""
  {
    hide Compatible;
    if vs != [] {
      ItemsCovered(vs[1..], (ValueOf(vs[0], next) + 1) % U32);
      assert vs == [vs[0]] + vs[1..];
    }
  }

  lemma {:induction false} JoinGrows(a: seq<string>, b: seq<string>)
    requires b != [] && forall s :: s in b ==> s != ""
    ensures |Join(a + b)| > |Join(a)|
  {
    if a == [] {
      assert a + b == b && b[0] in b;
    } else {
      assert (a + b)[1..] == a[1..] + b;
      JoinGrows(a[1..], b);
    }
  }

  /** Variants appended at the end leave the checksum data unchanged exactly when each of them is
      marked backwards compatible. */
  lemma AppendedCompatibleIff(vs: seq<EnumStatement>, more: seq<EnumStatement>)
    ensures EnumCrc(vs + more) == EnumCrc(vs) <==> forall v :: v in more ==> Compatible(v)
  {
    hide Compatible, EnumItems, Join;
    var old', added := EnumItems(vs, 0), EnumItems(more, NextAfter(vs, 0));
    ItemsSplit(vs, more, 0);
    ItemsCovered(more, NextAfter(vs, 0));
    if added == [] {
      assert old' + added == old';
    } else {
      JoinGrows(old', added);
    }
  }

  // ---- the type tree --------------------------------------------------------------------------------

  /** What the referenced types of `fields` have absorbed, in field order. */
  function ReferencedCrc(table: Table, fields: seq<Field>): string {
    if fields == [] then ""
    else
      ReferencedCrc(table, fields[..|fields| - 1]) +
      var r := Resolve(table, fields[|fields| - 1]);
      if r.Some? then table[r.value].crc else ""
  }

  /** The same by recursion over the type tree, without looking at any stored checksum of a type
      that has fields. */
  function TreeBytes(table: Table, i: nat): string
    requires Grounded(table) && i < |table|
    decreases i + 1, 0, 0
  {
    match table[i].details
    case BlockType(fields) => FieldsCrc(fields) + TreesOf(table, fields, i)
    case UnionType(fields) => FieldsCrc(fields) + TreesOf(table, fields, i)
    case _ => table[i].crc
  }

  function TreesOf(table: Table, fields: seq<Field>, limit: nat): string
    requires Grounded(table) && limit <= |table| && forall f :: f in fields ==> Refers(table, f, limit)
    decreases limit, 1, |fields|
  {
    if fields == [] then ""
    else
      var last := fields[|fields| - 1];
      assert last in fields && Refers(table, last, limit);
      TreesOf(table, fields[..|fields| - 1], limit) +
      var r := Resolve(table, last);
      if r.Some? then TreeBytes(table, r.value) else ""
  }

  /** Every stored checksum covers the whole tree below its type. */
  ghost predicate CrcFaithful(table: Table)
    requires Grounded(table)
  {
    forall i :: 0 <= i < |table| ==> table[i].crc == TreeBytes(table, i)
  }

  lemma {:induction false} TreesAreReferenced(table: Table, fields: seq<Field>, limit: nat)
    requires Grounded(table) && CrcFaithful(table)
    requires limit <= |table| && forall f :: f in fields ==> Refers(table, f, limit)
    ensures ReferencedCrc(table, fields) == TreesOf(table, fields, limit)
    decreases |fields|
  {
    if fields != [] {
      assert fields[|fields| - 1] in fields;
      TreesAreReferenced(table, fields[..|fields| - 1], limit);
    }
  }

  lemma {:induction false} TreesStable(table: Table, more: Table, fields: seq<Field>, limit: nat)
    requires Grounded(table) && Grounded(table + more) && UniqueNames(table + more)
    requires limit <= |table| && forall f :: f in fields ==> Refers(table, f, limit)
    ensures forall f :: f in fields ==> Refers(table + more, f, limit)
    ensures TreesOf(table + more, fields, limit) == TreesOf(table, fields, limit)
    decreases limit, 1, |fields|
  {
    forall f | f in fields ensures Refers(table + more, f, limit) { RefersStable(table, more, f, limit); }
    if fields != [] {
      var last := fields[|fields| - 1];
      assert last in fields;
      TreesStable(table, more, fields[..|fields| - 1], limit);
      if Resolve(table, last).Some? {
        ResolveStable(table, more, last);
        TreeStable(table, more, Resolve(table, last).value);
      } else {
        assert ApiName(last.ty).None?;
      }
    }
  }

  lemma {:induction false} TreeStable(table: Table, more: Table, i: nat)
    requires Grounded(table) && Grounded(table + more) && UniqueNames(table + more) && i < |table|
    ensures TreeBytes(table + more, i) == TreeBytes(table, i)
    decreases i + 1, 0, 0
  {
    assert (table + more)[i] == table[i];
    match table[i].details
    case BlockType(fields) => TreesStable(table, more, fields, i);
    case UnionType(fields) => TreesStable(table, more, fields, i);
    case _ =>
  }

  lemma LastFaithful(table: Table, e: TypeEntry)
    requires Grounded(table) && Grounded(table + [e]) && UniqueNames(table + [e]) && CrcFaithful(table)
    requires forall f :: f in FieldsOf(e.details) ==> Refers(table, f, |table|)
    requires e.details.BlockType? || e.details.UnionType? ==>
      e.crc == FieldsCrc(FieldsOf(e.details)) + ReferencedCrc(table, FieldsOf(e.details))
    ensures e.crc == TreeBytes(table + [e], |table|)
  {
    hide FieldsCrc, ReferencedCrc, TreesOf, Grounded, UniqueNames, CrcFaithful, Refers;
    assert (table + [e])[|table|] == e;
    var fields := FieldsOf(e.details);
    TreesAreReferenced(table, fields, |table|);
    TreesStable(table, [e], fields, |table|);
  }

  /** Registering a type with the checksum the parser computes keeps the table faithful. */
  lemma RegisterFaithful(table: Table, e: TypeEntry)
    requires Grounded(table) && Grounded(table + [e]) && UniqueNames(table + [e]) && CrcFaithful(table)
    requires forall f :: f in FieldsOf(e.details) ==> Refers(table, f, |table|)
    requires e.details.BlockType? || e.details.UnionType? ==>
      e.crc == FieldsCrc(FieldsOf(e.details)) + ReferencedCrc(table, FieldsOf(e.details))
    ensures CrcFaithful(table + [e])
  {
    hide FieldsCrc, ReferencedCrc, TreesOf, TreeBytes, Grounded, UniqueNames, Refers;
    var t := table + [e];
    forall i | 0 <= i < |t| ensures t[i].crc == TreeBytes(t, i) {
      if i < |table| {
        TreeStable(table, [e], i);
      } else {
        LastFaithful(table, e);
      }
    }
  }
}
