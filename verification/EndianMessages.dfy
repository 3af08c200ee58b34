/** The generated code of accepted files: which declarations it serves, and how messages are sized. */
module EndianMessages {
  import opened MachineArithmetic
  import opened Optional
  import opened ApiTypes
  import ApiStatements
  import opened ApiVla
  import ApiCrc
  import opened ApiValidation
  import ApiParsing
  import ApiSoundness
  import opened EndianSwap
  import opened EndianMeaning
  import EndianLaws
  import EndianReading
  import EndianRoundTrip

  // ---- what the parser accepts is laid out as the generated code needs it -----------------------------------

  predicate KnownType(ty: string) {
    IsPlain(ty) || IsInt(ty) || ty == "string" || ApiName(ty).Some?
  }

  /** Every type of a field has a swap, and no alias hides a type of variable length. */
  ghost predicate Supported(w: World) {
    forall i {:trigger w.table[i]} :: 0 <= i < |w.table| ==>
      match w.table[i].details
      case BlockType(fields) => forall f :: f in fields ==> KnownType(f.ty)
      case AliasType(ty, size) => IsString(ty, size) || FlatField(w, i, Field(ty, TUPLE, size))
      case _ => true
  }

  ghost predicate BlocksAccepted(table: Table)
    requires Grounded(table)
  {
    forall i {:trigger table[i]} :: 0 <= i < |table| && table[i].details.BlockType? ==>
      Accepted(table, table[i].details.fields, false)
  }

  /** A field of an acceptable declaration is of variable length, to the parser, exactly when some
      array of variable length lies below it. */
  lemma {:induction false} FieldVlaIsFlatness(w: World, limit: nat, fields: seq<Field>, j: nat)
    requires Grounded(w.table) && BlocksAccepted(w.table) && Supported(w)
    requires limit <= |w.table| && j < |fields| && Refers(w.table, fields[j], limit) && KnownType(fields[j].ty)
    requires Accepted(w.table, fields, false)
    ensures FieldVla(w.table, fields[j], fields).None? <==> FlatField(w, limit, fields[j])
    decreases limit, 0
  {
    hide BlocksAccepted, Supported, FlatEntry, EntryVla, Grounded;
    var f := fields[j];
    if NamesCount(f) {
      var g :| g in fields && g.name == f.size.value.count.value;
      assert FindField(fields, f.size.value.count.value).Some?;
    }
    assert IsInt(f.ty) || IsPlain(f.ty) || f.ty == "string" ==> |f.ty| < |VL_API_PREFIX|;
    if Resolve(w.table, f).Some? {
      EntryVlaIsFlatness(w, Resolve(w.table, f).value);
    }
  }

  lemma StringIsNotFlat(w: World, limit: nat, ty: string, size: Option<FieldSize>)
    requires limit <= |w.table| && IsString(ty, size)
    ensures !FlatField(w, limit, Field(ty, TUPLE, size))
  {
  }

  lemma {:induction false} EntryVlaIsFlatness(w: World, i: nat)
    requires Grounded(w.table) && BlocksAccepted(w.table) && Supported(w) && i < |w.table|
    ensures EntryVla(w.table, i).None? <==> FlatEntry(w, i)
    decreases i, 1
  {
    hide FieldVla, FlatField;
    var d := w.table[i].details;
    match d
    case BlockType(fields) =>
      forall j | 0 <= j < |fields| ensures FieldVla(w.table, fields[j], fields).None? <==> FlatField(w, i, fields[j]) {
        assert fields[j] in FieldsOf(d);
        FieldVlaIsFlatness(w, i, fields, j);
      }
      assert forall j :: 0 <= j < |fields| - 1 ==> FieldVla(w.table, fields[j], fields).None?;
      if EntryVla(w.table, i).None? {
        forall f | f in fields ensures FlatField(w, i, f) {
          var j :| 0 <= j < |fields| && fields[j] == f;
        }
      } else {
        assert fields[|fields| - 1] in fields;
      }
    case AliasType(ty, size) =>
      if IsString(ty, size) { StringIsNotFlat(w, i, ty, size); }
    case _ =>
  }

  lemma AcceptedLaidOut(w: World, fields: seq<Field>)
    requires Grounded(w.table) && BlocksAccepted(w.table) && Supported(w)
    requires Accepted(w.table, fields, false)
    requires forall f :: f in fields ==> Refers(w.table, f, |w.table|) && KnownType(f.ty)
    requires forall j, k :: 0 <= j < k < |fields| ==> fields[j].name != fields[k].name
    ensures LaidOut(w, |w.table|, fields)
  {
    hide FieldVla, FlatField, Supported, BlocksAccepted, Refers;
    forall j | 0 <= j < |fields| - 1 ensures FlatField(w, |w.table|, fields[j]) {
      FieldVlaIsFlatness(w, |w.table|, fields, j);
    }
  }

  lemma MessageNumberRefers(table: Table)
    ensures Refers(table, MSG_ID, |table|)
  {
  }

  /** For every message of an accepted file whose types have swaps: swapping one way and back is
      the identity on every message that holds what its fields declare, and what is read out of the
      swapped message in its new order is what was read out of the message before.

      One accepted shape is no such message: a last field that is an array, of fixed or counted length,
      of a declared type that itself ends in something of variable length (`EntryVlaIsFlatness`: to the
      parser, a type with a count descriptor). The generated code takes its elements to lie one struct size
      apart, so the tail of each would lie over the next, and they are not separate values. */
  lemma MessageSwapUndone(ss: seq<ApiStatements.Statement>, m: ApiStatements.Message, w: World, toNet: bool, v: Value)
    requires ApiParsing.Parse(ss).Ok? && m in ApiParsing.Parse(ss).value.messages && w.table == ApiParsing.Parse(ss).value.table && Supported(w)
    requires forall f :: f in m.fields ==> KnownType(f.ty)
    requires forall j, k :: 0 <= j < k < |m.fields| ==> m.fields[j].name != m.fields[k].name
    requires v.Struct? && |v.members| == |m.fields|
    requires forall j {:trigger m.fields[j]} :: 0 <= j < |m.fields| ==>
      && CountFits(m.fields, m.fields[j], v.members)
      && FitsField(w, |w.table|, m.fields[j], v.members[j], Live(w, m.fields, m.fields[j], v.members, toNet), toNet)
    ensures var r := SwapMembers(w, |w.table|, Fields(m.fields), toNet, v);
      && r == Some(FlipMembers(w, |w.table|, m.fields, toNet, v))
      && SwapMembers(w, |w.table|, Fields(m.fields), !toNet, r.value) == Some(v)
      && EndianReading.ReadStruct(w, |w.table|, m.fields, !toNet, r.value)
         == EndianReading.ReadStruct(w, |w.table|, m.fields, toNet, v)
  {
    hide EndianReading.ReadStruct, ApiParsing.Parse, Accepted, FlatField, Supported, CountFits, FitsField, Live, ApiCrc.CrcFaithful, ApiCrc.TreesOf, ApiCrc.FieldsCrc, Refers,
         SwapMembers, FlipMembers;
    ApiSoundness.ParseValid(ss);
    assert ApiSoundness.MessageSound(w.table, m);
    assert BlocksAccepted(w.table) by {
      forall i | 0 <= i < |w.table| && w.table[i].details.BlockType?
        ensures Accepted(w.table, w.table[i].details.fields, false)
      {
        assert ApiSoundness.EntryAccepted(w.table, w.table[i].details);
      }
    }
    forall f | f in m.fields ensures Refers(w.table, f, |w.table|) {
      assert m.fields == [MSG_ID] + m.fields[1..];
      MessageNumberRefers(w.table);
    }
    AcceptedLaidOut(w, m.fields);
    EndianRoundTrip.SwapUndone(w, m.fields, toNet, v);
    EndianReading.SwappedMessageReads(w, m.fields, toNet, v);
  }

  // ---- which code refers to members that exist -----------------------------------------------------------------

  predicate PlacesExist(decl: seq<Field>, s: Stmt) {
    match s
    case NoOp => true
    case ToBe(place, from) => At(decl, place).Some? && At(decl, from).Some?
    case ToBeCounted(place, count, _) => At(decl, place).Some? && At(decl, count).Some?
    case SwapCounted(place, count, _) => At(decl, place).Some? && At(decl, count).Some?
    case ToBeEach(place, _) => At(decl, place).Some?
    case SwapEach(place, _) => At(decl, place).Some?
    case SwapCall(place) => At(decl, place).Some?
  }

  lemma {:induction false} NamedFieldIsAt(fields: seq<Field>, name: string)
    ensures At(fields, name).Some? <==> exists f :: f in fields && f.name == name
  {
    if fields != [] {
      NamedFieldIsAt(fields[1..], name);
      assert fields == [fields[0]] + fields[1..];
    }
  }

  lemma StatementResolves(fields: seq<Field>, f: Field)
    requires f in fields && EmitField(f, f.name, fields).Code?
    ensures PlacesExist(fields, EmitField(f, f.name, fields).code)
  {
    hide At;
    NamedFieldIsAt(fields, f.name);
    if NamesCount(f) {
      NamedFieldIsAt(fields, f.size.value.count.value);
    }
  }

  /** The code of a struct names members of the struct only. */
  lemma {:induction false} StructCodeResolves(fields: seq<Field>, n: nat)
    requires n <= |fields| && Emit(Fields(fields), n).Code?
    ensures forall s :: s in Emit(Fields(fields), n).code ==> PlacesExist(fields, s)
  {
    hide PlacesExist, EmitField;
    if n > 0 {
      StructCodeResolves(fields, n - 1);
      StatementResolves(fields, fields[n - 1]);
    }
  }

  /** The code of an alias names members of its tuple struct only, unless it is declared as a plain
      number: then the right-hand side of the assignment uses the name of the alias as a member. */
  lemma AliasCodeResolvesIff(f: Field)
    requires !NamesCount(f) && f.name != "0" && EmitAll(Alias(f)).Code?
    ensures Declared(Alias(f)) == [Field(f.ty, "0", f.size)]
    ensures (forall s :: s in EmitAll(Alias(f)).code ==> PlacesExist(Declared(Alias(f)), s))
            <==> !(IsInt(f.ty) && f.size.None?)
  {
    var decl := Declared(Alias(f));
    assert Emit(Alias(f), 0) == Code([]);
    assert EmitField(FieldList(Alias(f))[0], PlaceOf(Alias(f), f), FieldList(Alias(f))).Code?;
    var s := EmitField(f, TUPLE, [f]).code;
    EndianLaws.EmitAppended(Alias(f), 0, s);
    assert EmitAll(Alias(f)) == Code([] + [s]);
    assert At(decl, TUPLE) == Some(0);
    assert decl[1..] == [] && At(decl[1..], f.name).None?;
    assert At(decl, f.name).None?;
    assert s in EmitAll(Alias(f)).code && forall t :: t in EmitAll(Alias(f)).code ==> t == s;
    assert PlacesExist(decl, s) <==> !(IsInt(f.ty) && f.size.None?);
  }

  // ---- how much memory a message takes ---------------------------------------------------------------------------

  /** `calc_size` of a message in network order: `size` and `elem` are the sizes of the struct and of
      the element type. */
  function CalcSize(w: World, fields: seq<Field>, vals: seq<Value>, size: nat, elem: nat): Generated<nat>
    requires |vals| == |fields| && fields != [] && NamesCount(fields[|fields| - 1])
  {
    match At(fields, fields[|fields| - 1].size.value.count.value)
    case None => Unimplemented("")
    case Some(k) =>
      if !vals[k].Scalar? then Unimplemented(fields[k].name)
      else if fields[k].ty == "u8" then Code((size + NumberOf(w.little, vals[k].bytes) * elem) % U64)
      else if IsInt(fields[k].ty) then
        Code((size + CountValue(w.little, fields[k].ty, BigEndian(w.little, vals[k].bytes)) * elem) % U64)
      else Unimplemented(fields[k].name)
  }

  /** What `new_message` allocates for `count` elements: the arithmetic is that of `u32`. */
  function NewSize(count: nat, size: nat, elem: nat): nat {
    (size % U32 + (count % U32) * (elem % U32) % U32) % U32
  }

  lemma Spread(p: nat, m: nat, x: nat, b: nat)
    ensures (p * m + x) * b == (p * b) * m + x * b
  {
  }

  lemma ModProduct(a: nat, b: nat, m: nat)
    requires m > 0
    ensures (a % m) * (b % m) % m == a * b % m
  {
    var p, q, x, y := a / m, b / m, a % m, b % m;
    Spread(p, m, x, b);
    Spread(q, m, y, x);
    assert a * b == x * y + (p * b + q * x) * m;
    ModCongruent(x * y, p * b + q * x, m);
  }

  lemma NewSizeIsTruncated(count: nat, size: nat, elem: nat)
    ensures NewSize(count, size, elem) == (size + count * elem) % U32
  {
    ModProduct(count, elem, U32);
    var product := count * elem;
    ModOfSum(size, product % U32, U32);
    ModOfSum(product, size, U32);
  }

  lemma SingleByteCount(little: bool, ty: string, bytes: seq<byte>)
    requires ty == "u8" ==> |bytes| == 1
    ensures ty == "u8" ==> CountValue(little, ty, BigEndian(little, bytes)) == NumberOf(little, bytes)
  {
    EndianLaws.BigEndianTwice(little, bytes);
  }

  /** The count that `calc_size` reads from a swapped message. */
  lemma CalcSizeReadsCount(w: World, fields: seq<Field>, v: Value, size: nat, elem: nat)
    requires FitsMembers(w, |w.table|, fields, true, v)
    requires fields != [] && NamesCount(fields[|fields| - 1])
    ensures CalcSize(w, fields, FlipMembers(w, |w.table|, fields, true, v).members, size, elem)
         == Code((size + Live(w, fields, fields[|fields| - 1], v.members, true) * elem) % U64)
  {
    hide FitsField, FlipField, BigEndian, NumberOf, CountValue, LaidOut;
    var last := fields[|fields| - 1];
    EndianRoundTrip.LiveKept(w, |w.table|, fields, true, v, |fields| - 1);
    var r := FlipMembers(w, |w.table|, fields, true, v).members;
    assert CountFits(fields, last, r);
    var k := At(fields, last.size.value.count.value).value;
    SingleByteCount(w.little, fields[k].ty, r[k].bytes);
  }

  lemma TruncatedTwice(n: nat)
    ensures n % U64 % U32 == n % U32
    ensures n % U32 == n % U64 <==> n % U64 < U32
  {
    var k := n / U64;
    assert n == k * U64 + n % U64 && U64 == U32 * U32;
    assert n % U64 == n % U64 / U32 * U32 + n % U64 % U32;
    ModCongruent(n % U64, k * U32, U32);
  }

  lemma TruncationShows(count: nat, size: nat, elem: nat)
    ensures NewSize(count, size, elem) == (size + count * elem) % U64 <==> (size + count * elem) % U64 < U32
  {
    hide NewSize;
    NewSizeIsTruncated(count, size, elem);
    TruncatedTwice(size + count * elem);
  }

  /** What `calc_size` says of a message that was swapped to network order is what `new_message`
      allocated for its count, exactly when that size fits 32 bits. */
  lemma SizesAgree(w: World, fields: seq<Field>, v: Value, size: nat, elem: nat)
    requires FitsMembers(w, |w.table|, fields, true, v)
    requires fields != [] && NamesCount(fields[|fields| - 1])
    ensures var count := Live(w, fields, fields[|fields| - 1], v.members, true);
      var r := SwapMembers(w, |w.table|, Fields(fields), true, v);
      && r.Some? && r.value.Struct? && |r.value.members| == |fields|
      && CalcSize(w, fields, r.value.members, size, elem) == Code((size + count * elem) % U64)
      && (NewSize(count, size, elem) == (size + count * elem) % U64 <==> (size + count * elem) % U64 < U32)
  {
    hide SwapMembers, FitsField, FlipField, CalcSize, NewSize, Live, LaidOut, CountFits;
    EndianRoundTrip.SwapUndone(w, fields, true, v);
    CalcSizeReadsCount(w, fields, v, size, elem);
    TruncationShows(Live(w, fields, fields[|fields| - 1], v.members, true), size, elem);
  }

  /** `calc_size` of a message in network order that ends with a variable string. */
  function CalcStringSize(w: World, last: Value, size: nat): nat
    requires last.Str?
  {
    (size + NumberOf(w.little, BigEndian(w.little, last.length))) % U64
  }

  /** The same for a message that ends with a variable string, whose length `new_message` is given. */
  lemma StringSizesAgree(w: World, fields: seq<Field>, v: Value, size: nat)
    requires FitsMembers(w, |w.table|, fields, true, v)
    requires fields != [] && IsString(fields[|fields| - 1].ty, fields[|fields| - 1].size)
    ensures v.members[|fields| - 1].Str?
    ensures var length := NumberOf(w.little, v.members[|fields| - 1].length);
      var r := SwapMembers(w, |w.table|, Fields(fields), true, v);
      && r.Some? && r.value.Struct? && |r.value.members| == |fields|
      && r.value.members[|fields| - 1].Str?
      && CalcStringSize(w, r.value.members[|fields| - 1], size) == (size + length) % U64
      && (NewSize(length, size, 1) == (size + length) % U64 <==> (size + length) % U64 < U32)
  {
    hide SwapMembers, BigEndian, NumberOf, Live, NewSize;
    var last := |fields| - 1;
    EndianRoundTrip.SwapUndone(w, fields, true, v);
    assert FitsField(w, |w.table|, fields[last], v.members[last], Live(w, fields, fields[last], v.members, true), true);
    EndianLaws.BigEndianTwice(w.little, v.members[last].length);
    var length := NumberOf(w.little, v.members[last].length);
    TruncationShows(length, size, 1);
  }
}
