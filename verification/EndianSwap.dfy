/** The byte-swapping code that is generated for messages and declared types, and what running it
    does to a message in memory. */
module EndianSwap {
  import MachineArithmetic
  import opened Optional
  import opened ApiTypes
  import ApiVla
  import ApiValidation

  type byte = x: int | 0 <= x < 256

  /** A scalar is given by its bytes in memory order. A counted array may own more elements than
      its count says. A struct holds its members in the order of their declaration. */
  datatype Value =
    | Scalar(bytes: seq<byte>)
    | Str(length: seq<byte>, text: seq<byte>)
    | Array(elems: seq<Value>)
    | Struct(members: seq<Value>)

  // ---- the generated statements ------------------------------------------------------------------------

  datatype Stmt =
    | NoOp
    | ToBe(place: string, from: string)
    | ToBeEach(place: string, n: nat)
    | ToBeCounted(place: string, count: string, countTy: string)
    | SwapCall(place: string)
    | SwapEach(place: string, n: nat)
    | SwapCounted(place: string, count: string, countTy: string)

  datatype Generated<+T> = Code(code: T) | Unimplemented(what: string)

  /** The fields of a struct, or the field that an alias is declared as. */
  datatype Input = Fields(fields: seq<Field>) | Alias(field: Field)

  const TUPLE: string := "0"

  function FieldList(input: Input): seq<Field> {
    match input
    case Fields(fields) => fields
    case Alias(field) => [field]
  }

  function PlaceOf(input: Input, f: Field): string {
    if input.Alias? then TUPLE else f.name
  }

  /** The members that the generated type has. */
  function Declared(input: Input): seq<Field> {
    match input
    case Fields(fields) => fields
    case Alias(field) => [field.(name := TUPLE)]
  }

  predicate IsInt(ty: string) {
    ty in ["u16", "u32", "u64", "i16", "i32", "i64"]
  }

  predicate IsPlain(ty: string) {
    ty == "u8" || ty == "bool" || ty == "f64"
  }

  function EmitCounted(f: Field, place: string, fields: seq<Field>): Generated<Stmt>
    requires ApiValidation.NamesCount(f)
  {
    var name := f.size.value.count.value;
    match ApiVla.FindField(fields, name)
    case None => Unimplemented(name)
    case Some(c) => Code(if IsInt(f.ty) then ToBeCounted(place, c.name, c.ty) else SwapCounted(place, c.name, c.ty))
  }

  /** The statement for one field. */
  function EmitField(f: Field, place: string, fields: seq<Field>): Generated<Stmt> {
    if IsPlain(f.ty) then Code(NoOp)
    else if f.ty == "string" then Code(SwapCall(place))
    else
      match f.size
      case Some(Fixed(n)) => Code(if IsInt(f.ty) then ToBeEach(place, n) else SwapEach(place, n))
      case Some(Variable(Some(_))) => EmitCounted(f, place, fields)
      case Some(Variable(None)) => Unimplemented(place)
      case None => Code(if IsInt(f.ty) then ToBe(place, f.name) else SwapCall(place))
  }

  function Emit(input: Input, n: nat): Generated<seq<Stmt>>
    requires n <= |FieldList(input)|
  {
    if n == 0 then Code([])
    else
      match Emit(input, n - 1)
      case Unimplemented(what) => Unimplemented(what)
      case Code(code) =>
        var f := FieldList(input)[n - 1];
        match EmitField(f, PlaceOf(input, f), FieldList(input))
        case Unimplemented(what) => Unimplemented(what)
        case Code(s) => Code(code + [s])
  }

  function EmitAll(input: Input): Generated<seq<Stmt>> {
    Emit(input, |FieldList(input)|)
  }

  lemma {:induction false} RefusalStays(input: Input, i: nat)
    requires i <= |FieldList(input)| && Emit(input, i).Unimplemented?
    ensures EmitAll(input) == Emit(input, i)
    decreases |FieldList(input)| - i
  {
    if i < |FieldList(input)| {
      RefusalStays(input, i + 1);
    }
  }

  /** `ApiGenContext::generate_endian_swap`. */
  method GenerateEndianSwap(input: Input) returns (r: Generated<seq<Stmt>>)
    ensures r == EmitAll(input)
  {
    var fields := FieldList(input);
    var code := [];
    var i := 0;
    while i < |fields|
      invariant 0 <= i <= |fields|
      invariant Emit(input, i) == Code(code)
    {
      var f := fields[i];
      var place := if input.Fields? then f.name else TUPLE;
      if f.ty == "u8" || f.ty == "bool" || f.ty == "f64" {
        code := code + [NoOp];
      } else if f.ty == "string" {
        code := code + [SwapCall(place)];
      } else if ApiValidation.NamesCount(f) {
        var c := ApiVla.FindField(fields, f.size.value.count.value);
        if c.None? {
          RefusalStays(input, i + 1);
          return Unimplemented(f.size.value.count.value);
        }
        code := code + [if IsInt(f.ty) then ToBeCounted(place, c.value.name, c.value.ty)
                        else SwapCounted(place, c.value.name, c.value.ty)];
      } else if f.size == Some(Variable(None)) {
        RefusalStays(input, i + 1);
        return Unimplemented(place);
      } else if f.size.Some? {
        var n := f.size.value.length;
        code := code + [if IsInt(f.ty) then ToBeEach(place, n) else SwapEach(place, n)];
      } else {
        code := code + [if IsInt(f.ty) then ToBe(place, f.name) else SwapCall(place)];
      }
      i := i + 1;
    }
    r := Code(code);
  }

  // ---- running them --------------------------------------------------------------------------------------

  /** The table of types, the types whose swap is written by hand (`manual_endian`), those swaps,
      and what they expect of a value in host or in network order. */
  datatype Unit = Unit(table: Table, little: bool, manual: set<string>, custom: (string, bool, Value) -> Value,
                       fits: (string, bool, Value) -> bool)

  /** A hand-written swap undoes itself in the other direction. */
  ghost predicate HandWrittenUndo(u: Unit) {
    forall name, host, v {:trigger u.custom(name, host, v)} :: u.fits(name, host, v) ==>
      u.fits(name, !host, u.custom(name, host, v)) && u.custom(name, !host, u.custom(name, host, v)) == v
  }

  type World = u: Unit | HandWrittenUndo(u)
    ghost witness Unit([], true, {}, (name: string, host: bool, v: Value) => v, (name: string, host: bool, v: Value) => true)

  function Reversed<T>(s: seq<T>): (r: seq<T>)
    ensures |r| == |s|
    ensures forall i :: 0 <= i < |s| ==> r[i] == s[|s| - 1 - i]
  {
    if s == [] then [] else Reversed(s[1..]) + [s[0]]
  }

  /** `to_be` and `from_be` on memory: the same bytes on a big-endian host, reversed on a
      little-endian one. */
  function BigEndian(little: bool, bytes: seq<byte>): (r: seq<byte>)
    ensures |r| == |bytes|
  {
    if little then Reversed(bytes) else bytes
  }

  /** The number that bytes in host order stand for. */
  function NumberOf(little: bool, bytes: seq<byte>): nat {
    if bytes == [] then 0
    else if little then bytes[0] + 256 * NumberOf(little, bytes[1..])
    else 256 * NumberOf(little, bytes[..|bytes| - 1]) + bytes[|bytes| - 1]
  }

  function Width(ty: string): nat {
    if ty == "u8" then 1
    else if ty == "u16" || ty == "i16" then 2
    else if ty == "u32" || ty == "i32" then 4
    else 8
  }

  function TopHalf(ty: string): (nat, nat) {
    if ty == "i16" then (0x8000, 0x1_0000)
    else if ty == "i32" then (0x8000_0000, MachineArithmetic.U32)
    else (0x8000_0000_0000_0000, MachineArithmetic.U64)
  }

  /** `count as usize`: a negative count is sign-extended. */
  function CountValue(little: bool, ty: string, bytes: seq<byte>): nat {
    var n := NumberOf(little, bytes);
    var (half, all) := TopHalf(ty);
    if ty in ["i16", "i32", "i64"] && half <= n < all then n + (MachineArithmetic.U64 - all) else n
  }

  /** The first member of that name. */
  function At(fields: seq<Field>, name: string): (r: Option<nat>)
    ensures r.Some? ==> r.value < |fields| && fields[r.value].name == name
  {
    if fields == [] then None
    else if fields[0].name == name then Some(0)
    else match At(fields[1..], name) case None => None case Some(i) => Some(i + 1)
  }

  function ToBeFirst(little: bool, elems: seq<Value>, n: nat): Option<seq<Value>> {
    if n <= |elems| && forall i :: 0 <= i < n ==> elems[i].Scalar? then
      Some(seq(|elems|, i requires 0 <= i < |elems| =>
        if i < n && elems[i].Scalar? then Scalar(BigEndian(little, elems[i].bytes)) else elems[i]))
    else None
  }

  /** The count as the generated code reads it: converted from network order when swapping to
      network order, and as it stands otherwise. */
  function ReadCount(little: bool, ty: string, toNet: bool, v: Value): Option<nat> {
    if v.Scalar? then Some(CountValue(little, ty, if toNet then BigEndian(little, v.bytes) else v.bytes)) else None
  }

  function SwapNumber(w: World, width: string, v: Value): Option<Value> {
    if width == "u8" then Some(v)
    else if IsInt(width) && v.Scalar? then Some(Scalar(BigEndian(w.little, v.bytes)))
    else None
  }

  /** `EndianSwap::endian_swap` of the declared type at position `i`. There is no result where the
      generated code would not compile or would leave the memory of the value. */
  function SwapEntry(w: World, i: nat, toNet: bool, v: Value): Option<Value>
    requires i < |w.table|
    decreases i, 3, 0
  {
    var e := w.table[i];
    if e.name in w.manual || e.details.UnionType? then Some(w.custom(e.name, toNet, v))
    else
      match e.details
      case EnumType(width, _) => SwapNumber(w, width, v)
      case EnumFlagType(width, _) => SwapNumber(w, width, v)
      case AliasType(ty, size) => SwapMembers(w, i, Alias(Field(ty, e.name, size)), toNet, v)
      case BlockType(fields) => SwapMembers(w, i, Fields(fields), toNet, v)
      case UnionType(_) => None
  }

  function SwapMembers(w: World, limit: nat, input: Input, toNet: bool, v: Value): Option<Value>
    requires limit <= |w.table|
    decreases limit, 2, 0
  {
    var code := EmitAll(input);
    if code.Code? && v.Struct? && |v.members| == |Declared(input)| then
      match Run(w, limit, Declared(input), code.code, toNet, v.members)
      case None => None
      case Some(members) => Some(Struct(members))
    else None
  }

  function Run(w: World, limit: nat, decl: seq<Field>, code: seq<Stmt>, toNet: bool, state: seq<Value>): (r: Option<seq<Value>>)
    requires limit <= |w.table| && |state| == |decl|
    ensures r.Some? ==> |r.value| == |decl|
    decreases limit, 1, |code|
  {
    if code == [] then Some(state)
    else
      match Run(w, limit, decl, code[..|code| - 1], toNet, state)
      case None => None
      case Some(mid) => Exec(w, limit, decl, code[|code| - 1], toNet, mid)
  }

  function InArray(elems: Option<seq<Value>>): Option<Value> {
    match elems
    case None => None
    case Some(es) => Some(Array(es))
  }

  function CountIn(w: World, decl: seq<Field>, count: string, ty: string, toNet: bool, state: seq<Value>): Option<nat>
    requires |state| == |decl|
  {
    match At(decl, count)
    case None => None
    case Some(k) => ReadCount(w.little, ty, toNet, state[k])
  }

  function Exec(w: World, limit: nat, decl: seq<Field>, s: Stmt, toNet: bool, state: seq<Value>): (r: Option<seq<Value>>)
    requires limit <= |w.table| && |state| == |decl|
    ensures r.Some? ==> |r.value| == |decl|
    decreases limit, 0, 1
  {
    if s.NoOp? then Some(state)
    else if At(decl, s.place).None? then None
    else
      var p := At(decl, s.place).value;
      var v := state[p];
      var result :=
        match s
        case ToBe(_, from) =>
          if At(decl, from).Some? && state[At(decl, from).value].Scalar? then
            Some(Scalar(BigEndian(w.little, state[At(decl, from).value].bytes)))
          else None
        case ToBeEach(_, n) => if v.Array? then InArray(ToBeFirst(w.little, v.elems, n)) else None
        case ToBeCounted(_, count, ty) =>
          (match CountIn(w, decl, count, ty, toNet, state)
           case None => None
           case Some(n) => if v.Array? then InArray(ToBeFirst(w.little, v.elems, n)) else None)
        case SwapCall(_) => SwapField(w, limit, decl[p], toNet, v)
        case SwapEach(_, n) => if v.Array? then SwapElems(w, limit, decl[p], toNet, v.elems, n) else None
        case SwapCounted(_, count, ty) =>
          (match CountIn(w, decl, count, ty, toNet, state)
           case None => None
           case Some(n) => if v.Array? then SwapElems(w, limit, decl[p], toNet, v.elems, n) else None);
      match result
      case None => None
      case Some(x) => Some(state[p := x])
  }

  /** `ApiString` swaps its length, `ApiFixedString` nothing. */
  function SwapString(little: bool, size: Option<FieldSize>, v: Value): Option<Value> {
    match size
    case Some(Fixed(_)) => Some(v)
    case Some(Variable(None)) => if v.Str? then Some(Str(BigEndian(little, v.length), v.text)) else None
    case _ => None
  }

  /** The implementation that the type of a member selects. */
  function SwapField(w: World, limit: nat, f: Field, toNet: bool, v: Value): Option<Value>
    requires limit <= |w.table|
    decreases limit, 0, 0
  {
    if f.ty == "string" then SwapString(w.little, f.size, v)
    else
      match Resolve(w.table, f)
      case None => None
      case Some(i) => if i < limit then SwapEntry(w, i, toNet, v) else None
  }

  function SwapElems(w: World, limit: nat, f: Field, toNet: bool, elems: seq<Value>, n: nat): Option<Value>
    requires limit <= |w.table|
    decreases limit, 0, 0
  {
    match Resolve(w.table, f)
    case None => None
    case Some(i) => if i < limit then InArray(SwapFirst(w, i, toNet, elems, n)) else None
  }

  function SwapFirst(w: World, i: nat, toNet: bool, elems: seq<Value>, n: nat): (r: Option<seq<Value>>)
    requires i < |w.table|
    ensures r.Some? ==> |r.value| == |elems|
    decreases i, 4, n
  {
    if n == 0 then Some(elems)
    else if n > |elems| then None
    else
      match SwapFirst(w, i, toNet, elems, n - 1)
      case None => None
      case Some(es) =>
        match SwapEntry(w, i, toNet, es[n - 1])
        case None => None
        case Some(x) => Some(es[n - 1 := x])
  }
}
