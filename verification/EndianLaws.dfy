/** The generated code does what swapping means, in both directions, and undoes itself. */
module EndianLaws {
  import opened Optional
  import opened ApiTypes
  import ApiVla
  import opened ApiValidation
  import opened EndianSwap
  import opened EndianMeaning

  // ---- names and counts ------------------------------------------------------------------------------------

  lemma {:induction false} AtDistinct(fields: seq<Field>, n: nat)
    requires n < |fields| && forall j, k :: 0 <= j < k < |fields| ==> fields[j].name != fields[k].name
    ensures At(fields, fields[n].name) == Some(n)
  {
    if n > 0 {
      assert fields[0].name != fields[n].name;
      AtDistinct(fields[1..], n - 1);
    }
  }

  lemma {:induction false} FoundAt(fields: seq<Field>, name: string)
    ensures ApiVla.FindField(fields, name) ==
            match At(fields, name) case None => None case Some(k) => Some(fields[k])
  {
    if fields != [] && fields[0].name != name {
      FoundAt(fields[1..], name);
    }
  }

  lemma {:induction false} ReversedTwice<T>(s: seq<T>)
    ensures Reversed(Reversed(s)) == s
  {
  }

  lemma BigEndianTwice(little: bool, bytes: seq<byte>)
    ensures BigEndian(little, BigEndian(little, bytes)) == bytes
    ensures |bytes| == 1 ==> BigEndian(little, bytes) == bytes
  {
    ReversedTwice(bytes);
  }

  // ---- one statement -----------------------------------------------------------------------------------------

  /** The members after the first `n` statements. */
  function Partial(w: World, limit: nat, fields: seq<Field>, host: bool, vals: seq<Value>, n: nat): (r: seq<Value>)
    requires limit <= |w.table| && |vals| == |fields|
    ensures |r| == |fields|
  {
    seq(|fields|, j requires 0 <= j < |fields| =>
      if j < n then FlipField(w, limit, fields[j], vals[j], Live(w, fields, fields[j], vals, host), host) else vals[j])
  }

  /** Where the count of a counted array is: before the array, which comes last. */
  lemma CountComesBefore(w: World, limit: nat, fields: seq<Field>, host: bool, vals: seq<Value>, n: nat)
    requires limit <= |w.table| && FitsMembers(w, limit, fields, host, Struct(vals))
    requires n < |fields| && NamesCount(fields[n])
    ensures CountFits(fields, fields[n], vals)
    ensures At(fields, fields[n].size.value.count.value).value < n == |fields| - 1
  {
    hide FitsField, Live, At;
    assert CountFits(fields, fields[n], vals);
    assert forall j :: 0 <= j < |fields| - 1 ==> FlatField(w, limit, fields[j]) && !NamesCount(fields[j]);
  }

  /** Once swapped, a count is read as its host value in either direction. */
  lemma SwappedCount(w: World, limit: nat, f: Field, v: Value, live: nat, host: bool)
    requires limit <= |w.table| && f.size.None? && (f.ty == "u8" || IsInt(f.ty)) && v.Scalar? && |v.bytes| == Width(f.ty)
    ensures ReadCount(w.little, f.ty, host, FlipField(w, limit, f, v, live, host))
         == Some(CountValue(w.little, f.ty, if host then v.bytes else BigEndian(w.little, v.bytes)))
  {
    hide CountValue, BigEndian;
    BigEndianTwice(w.little, v.bytes);
  }

  /** The count is read as its host value, whichever way the message is swapped: its field comes
      before the counted array and has been swapped already. */
  lemma CountIsHostValue(w: World, limit: nat, fields: seq<Field>, host: bool, vals: seq<Value>, n: nat)
    requires limit <= |w.table| && FitsMembers(w, limit, fields, host, Struct(vals))
    requires n < |fields| && NamesCount(fields[n])
    ensures var c := ApiVla.FindField(fields, fields[n].size.value.count.value);
      && c.Some?
      && CountIn(w, fields, c.value.name, c.value.ty, host, Partial(w, limit, fields, host, vals, n))
         == Some(Live(w, fields, fields[n], vals, host))
  {
    CountComesBefore(w, limit, fields, host, vals, n);
    hide FitsMembers, CountValue, FlipField, ReadCount, At, ApiVla.FindField;
    var f := fields[n];
    FoundAt(fields, f.size.value.count.value);
    var k := At(fields, f.size.value.count.value).value;
    SwappedCount(w, limit, fields[k], vals[k], Live(w, fields, fields[k], vals, host), host);
  }

  lemma ToBeFirstAll(little: bool, elems: seq<Value>, n: nat)
    requires n <= |elems| && forall j :: 0 <= j < n ==> elems[j].Scalar?
    ensures ToBeFirst(little, elems, n).Some?
    ensures var r := ToBeFirst(little, elems, n).value;
      |r| == |elems| && forall j :: 0 <= j < |elems| ==>
        r[j] == if j < n then Scalar(BigEndian(little, elems[j].bytes)) else elems[j]
  {
  }

  lemma IntField(w: World, limit: nat, fields: seq<Field>, place: string, host: bool, f: Field, v: Value, live: nat,
                 state: seq<Value>, p: nat, name: string, ty: string)
    requires limit <= |w.table| && |state| == |fields| && p < |state| && state[p] == v
    requires IsInt(f.ty) && FitsField(w, limit, f, v, live, host) && At(fields, place) == Some(p)
    requires NamesCount(f) ==> CountIn(w, fields, name, ty, host, state) == Some(live)
    ensures f.size.None? ==>
      Exec(w, limit, fields, ToBe(place, place), host, state) == Some(state[p := FlipField(w, limit, f, v, live, host)])
    ensures f.size.Some? && f.size.value.Fixed? ==>
      Exec(w, limit, fields, ToBeEach(place, f.size.value.length), host, state)
      == Some(state[p := FlipField(w, limit, f, v, live, host)])
    ensures NamesCount(f) ==>
      Exec(w, limit, fields, ToBeCounted(place, name, ty), host, state)
      == Some(state[p := FlipField(w, limit, f, v, live, host)])
  {
    hide CountIn, BigEndian, At;
    if f.size.Some? && f.size.value.Fixed? {
      ToBeFirstAll(w.little, v.elems, f.size.value.length);
      assert FlipField(w, limit, f, v, live, host) == Array(ToBeFirst(w.little, v.elems, f.size.value.length).value);
    } else if NamesCount(f) {
      ToBeFirstAll(w.little, v.elems, live);
      assert FlipField(w, limit, f, v, live, host) == Array(ToBeFirst(w.little, v.elems, live).value);
    }
  }

  function FlippedFirst(w: World, i: nat, host: bool, elems: seq<Value>, n: nat): (r: seq<Value>)
    requires i < |w.table|
    ensures |r| == |elems|
  {
    seq(|elems|, j requires 0 <= j < |elems| => if j < n then FlipEntry(w, i, host, elems[j]) else elems[j])
  }

  lemma {:induction false} SwapFirstLaw(w: World, i: nat, host: bool, elems: seq<Value>, n: nat)
    requires i < |w.table| && n <= |elems| && forall j :: 0 <= j < n ==> FitsEntry(w, i, host, elems[j])
    ensures SwapFirst(w, i, host, elems, n) == Some(FlippedFirst(w, i, host, elems, n))
    decreases i, 4, n
  {
    hide FitsEntry, FlipEntry, SwapEntry;
    if n == 0 {
      assert FlippedFirst(w, i, host, elems, 0) == elems;
    } else {
      SwapFirstLaw(w, i, host, elems, n - 1);
      SwapEntryLaw(w, i, host, elems[n - 1]);
      assert FlippedFirst(w, i, host, elems, n - 1)[n - 1 := FlipEntry(w, i, host, elems[n - 1])]
          == FlippedFirst(w, i, host, elems, n);
    }
  }

  lemma {:induction false} DeclaredField(w: World, limit: nat, fields: seq<Field>, place: string, host: bool, f: Field,
                                         v: Value, live: nat, state: seq<Value>, p: nat, name: string, ty: string)
    requires limit <= |w.table| && |state| == |fields| && p < |state| && state[p] == v
    requires !IsInt(f.ty) && !IsPlain(f.ty) && f.ty != "string" && FitsField(w, limit, f, v, live, host)
    requires At(fields, place) == Some(p) && fields[p].ty == f.ty && fields[p].size == f.size
    requires NamesCount(f) ==> CountIn(w, fields, name, ty, host, state) == Some(live)
    ensures f.size.None? ==>
      Exec(w, limit, fields, SwapCall(place), host, state) == Some(state[p := FlipField(w, limit, f, v, live, host)])
    ensures f.size.Some? && f.size.value.Fixed? ==>
      Exec(w, limit, fields, SwapEach(place, f.size.value.length), host, state)
      == Some(state[p := FlipField(w, limit, f, v, live, host)])
    ensures NamesCount(f) ==>
      Exec(w, limit, fields, SwapCounted(place, name, ty), host, state)
      == Some(state[p := FlipField(w, limit, f, v, live, host)])
    decreases limit, 0
  {
    hide CountIn, At, FitsEntry, FlipEntry, FlatEntry, SwapEntry;
    var i := Resolve(w.table, f).value;
    assert Resolve(w.table, fields[p]) == Resolve(w.table, f);
    if f.size.None? {
      SwapEntryLaw(w, i, host, v);
    } else if f.size.value.Fixed? {
      SwapFirstLaw(w, i, host, v.elems, f.size.value.length);
      assert FlipField(w, limit, f, v, live, host) == Array(FlippedFirst(w, i, host, v.elems, f.size.value.length));
    } else if NamesCount(f) {
      SwapFirstLaw(w, i, host, v.elems, live);
      assert FlipField(w, limit, f, v, live, host) == Array(FlippedFirst(w, i, host, v.elems, live));
    }
  }

  predicate Emittable(input: Input) {
    input.Alias? ==> !(IsInt(input.field.ty) && input.field.size.None?) && !NamesCount(input.field)
  }

  lemma NeverWithoutCount(w: World, limit: nat, f: Field, v: Value, live: nat, host: bool)
    requires limit <= |w.table| && FitsField(w, limit, f, v, live, host)
    ensures f.size == Some(Variable(None)) ==> IsPlain(f.ty) || f.ty == "string"
  {
  }

  lemma SimpleField(w: World, limit: nat, fields: seq<Field>, place: string, host: bool, f: Field, v: Value, live: nat,
                    state: seq<Value>, p: nat)
    requires limit <= |w.table| && |state| == |fields| && p < |state| && state[p] == v
    requires FitsField(w, limit, f, v, live, host) && At(fields, place) == Some(p) && fields[p] == f
    ensures IsPlain(f.ty) ==>
      Exec(w, limit, fields, NoOp, host, state) == Some(state[p := FlipField(w, limit, f, v, live, host)])
    ensures f.ty == "string" ==>
      Exec(w, limit, fields, SwapCall(place), host, state) == Some(state[p := FlipField(w, limit, f, v, live, host)])
  {
    hide At;
    assert state[p := v] == state;
  }

  /** The statement of a field converts that field and nothing else. */
  lemma {:induction false} StatementLaw(w: World, limit: nat, input: Input, host: bool, vals: seq<Value>, n: nat)
    requires limit <= |w.table| && Emittable(input)
    requires FitsMembers(w, limit, Declared(input), host, Struct(vals)) && n < |vals|
    ensures var fields := Declared(input);
      var f := FieldList(input)[n];
      var s := EmitField(f, PlaceOf(input, f), FieldList(input));
      && s.Code?
      && Exec(w, limit, fields, s.code, host, Partial(w, limit, fields, host, vals, n))
         == Some(Partial(w, limit, fields, host, vals, n + 1))
    decreases limit, 1
  {
    hide Exec, FlipField, FitsField, CountIn, Live, FlatField;
    var fields, f := Declared(input), FieldList(input)[n];
    var g, place := fields[n], PlaceOf(input, f);
    var live := Live(w, fields, g, vals, host);
    var state := Partial(w, limit, fields, host, vals, n);
    assert FitsField(w, limit, g, vals[n], live, host);
    AtDistinct(fields, n);
    assert state[n := FlipField(w, limit, g, vals[n], live, host)] == Partial(w, limit, fields, host, vals, n + 1);
    var name, ty := "", "";
    if NamesCount(g) {
      CountIsHostValue(w, limit, fields, host, vals, n);
      var c := ApiVla.FindField(fields, g.size.value.count.value).value;
      name, ty := c.name, c.ty;
    }
    NeverWithoutCount(w, limit, g, vals[n], live, host);
    if IsPlain(g.ty) || g.ty == "string" {
      SimpleField(w, limit, fields, place, host, g, vals[n], live, state, n);
    } else if IsInt(g.ty) {
      IntField(w, limit, fields, place, host, g, vals[n], live, state, n, name, ty);
    } else {
      DeclaredField(w, limit, fields, place, host, g, vals[n], live, state, n, name, ty);
    }
  }

  // ---- whole values ------------------------------------------------------------------------------------------

  lemma RunNothing(w: World, limit: nat, input: Input, host: bool, vals: seq<Value>)
    requires limit <= |w.table| && |vals| == |Declared(input)|
    ensures Emit(input, 0) == Code([])
    ensures Run(w, limit, Declared(input), [], host, vals) == Some(Partial(w, limit, Declared(input), host, vals, 0))
  {
    hide FlipField, Live;
    assert Partial(w, limit, Declared(input), host, vals, 0) == vals;
  }

  lemma RunAppended(w: World, limit: nat, decl: seq<Field>, code: seq<Stmt>, s: Stmt, toNet: bool, state: seq<Value>)
    requires limit <= |w.table| && |state| == |decl|
    ensures Run(w, limit, decl, code + [s], toNet, state) ==
            match Run(w, limit, decl, code, toNet, state)
            case None => None
            case Some(mid) => Exec(w, limit, decl, s, toNet, mid)
  {
    hide Exec;
    assert (code + [s])[..|code|] == code;
  }

  lemma EmitAppended(input: Input, n: nat, s: Stmt)
    requires n < |FieldList(input)| && Emit(input, n).Code?
    requires var f := FieldList(input)[n]; EmitField(f, PlaceOf(input, f), FieldList(input)) == Code(s)
    ensures Emit(input, n + 1) == Code(Emit(input, n).code + [s])
  {
    hide EmitField;
  }

  /** The first `n` statements convert the first `n` members. */
  lemma {:induction false} RunLaw(w: World, limit: nat, input: Input, host: bool, vals: seq<Value>, n: nat)
    requires limit <= |w.table| && Emittable(input) && |vals| == |Declared(input)| == |FieldList(input)| && n <= |vals|
    requires FitsMembers(w, limit, Declared(input), host, Struct(vals))
    ensures Emit(input, n).Code?
    ensures Run(w, limit, Declared(input), Emit(input, n).code, host, vals)
         == Some(Partial(w, limit, Declared(input), host, vals, n))
    decreases limit, 2, n
  {
    hide *;
    if n == 0 {
      RunNothing(w, limit, input, host, vals);
    } else {
      RunLaw(w, limit, input, host, vals, n - 1);
      StatementLaw(w, limit, input, host, vals, n - 1);
      var f := FieldList(input)[n - 1];
      var s := EmitField(f, PlaceOf(input, f), FieldList(input)).code;
      EmitAppended(input, n - 1, s);
      RunAppended(w, limit, Declared(input), Emit(input, n - 1).code, s, host, vals);
    }
  }

  lemma {:induction false} SwapMembersLaw(w: World, limit: nat, input: Input, host: bool, v: Value)
    requires limit <= |w.table| && Emittable(input) && FitsMembers(w, limit, Declared(input), host, v)
    ensures SwapMembers(w, limit, input, host, v) == Some(FlipMembers(w, limit, Declared(input), host, v))
    decreases limit, 3
  {
    hide Run, FlipField, Live, LaidOut, CountFits, FitsField;
    RunLaw(w, limit, input, host, v.members, |v.members|);
    assert Partial(w, limit, Declared(input), host, v.members, |v.members|)
        == FlipMembers(w, limit, Declared(input), host, v).members;
  }

  lemma AliasNeverCounted(w: World, limit: nat, f: Field, host: bool, v: Value)
    requires limit <= |w.table| && FitsMembers(w, limit, [f], host, v)
    ensures !NamesCount(f)
  {
    assert CountFits([f], [f][0], v.members);
  }

  lemma {:induction false} SwapEntryLaw(w: World, i: nat, host: bool, v: Value)
    requires i < |w.table| && FitsEntry(w, i, host, v)
    ensures SwapEntry(w, i, host, v) == Some(FlipEntry(w, i, host, v))
    decreases i, 4, 0
  {
    hide SwapMembers, FlipMembers, EmitAll;
    var e := w.table[i];
    if e.name !in w.manual {
      match e.details
      case AliasType(ty, size) =>
        var f := Field(ty, TUPLE, size);
        AliasNeverCounted(w, i, f, host, v);
        SwapMembersLaw(w, i, Alias(Field(ty, e.name, size)), host, v);
      case BlockType(fields) => SwapMembersLaw(w, i, Fields(fields), host, v);
      case _ =>
    }
  }
}
