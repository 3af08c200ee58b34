/** What swapping means, independently of the generated code: every number of more than one byte in
    the live part of a value is converted, in either direction. */
module EndianMeaning {
  import opened Optional
  import opened ApiTypes
  import ApiValidation
  import opened EndianSwap

  function Convert(w: World, v: Value): Value {
    if v.Scalar? then Scalar(BigEndian(w.little, v.bytes)) else v
  }

  /** The host value of the count of a counted array, whichever order the message is in. */
  function Live(w: World, fields: seq<Field>, f: Field, vals: seq<Value>, host: bool): nat
    requires |vals| == |fields|
  {
    if ApiValidation.NamesCount(f) && At(fields, f.size.value.count.value).Some? then
      var k := At(fields, f.size.value.count.value).value;
      if vals[k].Scalar? then
        CountValue(w.little, fields[k].ty, if host then vals[k].bytes else BigEndian(w.little, vals[k].bytes))
      else 0
    else 0
  }

  function FlipEntry(w: World, i: nat, host: bool, v: Value): Value
    requires i < |w.table|
    decreases i, 2
  {
    var e := w.table[i];
    if e.name in w.manual || e.details.UnionType? then w.custom(e.name, host, v)
    else
      match e.details
      case EnumType(width, _) => if width == "u8" then v else Convert(w, v)
      case EnumFlagType(width, _) => if width == "u8" then v else Convert(w, v)
      case AliasType(ty, size) => FlipMembers(w, i, [Field(ty, TUPLE, size)], host, v)
      case BlockType(fields) => FlipMembers(w, i, fields, host, v)
      case UnionType(_) => v
  }

  function FlipMembers(w: World, limit: nat, fields: seq<Field>, host: bool, v: Value): Value
    requires limit <= |w.table|
    decreases limit, 1
  {
    if v.Struct? && |v.members| == |fields| then
      Struct(seq(|fields|, j requires 0 <= j < |fields| =>
        FlipField(w, limit, fields[j], v.members[j], Live(w, fields, fields[j], v.members, host), host)))
    else v
  }

  function FlipField(w: World, limit: nat, f: Field, v: Value, live: nat, host: bool): Value
    requires limit <= |w.table|
    decreases limit, 0
  {
    if IsPlain(f.ty) then v
    else if f.ty == "string" then
      if v.Str? && f.size == Some(Variable(None)) then Str(BigEndian(w.little, v.length), v.text) else v
    else if IsInt(f.ty) then
      if f.size.None? then Convert(w, v)
      else if v.Array? then
        Array(seq(|v.elems|, j requires 0 <= j < |v.elems| =>
          if f.size.value.Fixed? || j < live then Convert(w, v.elems[j]) else v.elems[j]))
      else v
    else
      match Resolve(w.table, f)
      case None => v
      case Some(i) =>
        if i >= limit then v
        else if f.size.None? then FlipEntry(w, i, host, v)
        else if v.Array? then
          Array(seq(|v.elems|, j requires 0 <= j < |v.elems| =>
            if f.size.value.Fixed? || j < live then FlipEntry(w, i, host, v.elems[j]) else v.elems[j]))
        else v
  }

  // ---- values that fit their type ------------------------------------------------------------------------

  /** No array of variable length anywhere below. */
  predicate FlatEntry(w: World, i: nat)
    requires i < |w.table|
    decreases i, 1
  {
    match w.table[i].details
    case BlockType(fields) => forall f :: f in fields ==> FlatField(w, i, f)
    case AliasType(ty, size) => FlatField(w, i, Field(ty, TUPLE, size))
    case _ => true
  }

  predicate FlatField(w: World, limit: nat, f: Field)
    requires limit <= |w.table|
    decreases limit, 0
  {
    && !ApiValidation.NamesCount(f)
    && (f.ty == "string" ==> f.size.Some? && f.size.value.Fixed?)
    && (IsPlain(f.ty) || f.ty == "string" || IsInt(f.ty)
        || (Resolve(w.table, f).Some? && Resolve(w.table, f).value < limit && FlatEntry(w, Resolve(w.table, f).value)))
  }

  predicate FitsNumber(width: string, v: Value) {
    width == "u8" || (IsInt(width) && v.Scalar?)
  }

  /** A value of the declared type at `i`, in host or in network order. */
  predicate FitsEntry(w: World, i: nat, host: bool, v: Value)
    requires i < |w.table|
    decreases i, 2
  {
    var e := w.table[i];
    if e.name in w.manual || e.details.UnionType? then w.fits(e.name, host, v)
    else
      match e.details
      case EnumType(width, _) => FitsNumber(width, v)
      case EnumFlagType(width, _) => FitsNumber(width, v)
      case AliasType(ty, size) =>
        !(IsInt(ty) && size.None?) && FitsMembers(w, i, [Field(ty, TUPLE, size)], host, v)
      case BlockType(fields) => FitsMembers(w, i, fields, host, v)
      case UnionType(_) => true
  }

  /** Distinct names, and nothing of variable length before the last field. */
  predicate LaidOut(w: World, limit: nat, fields: seq<Field>)
    requires limit <= |w.table|
    decreases limit, 0, 1
  {
    && (forall j, k :: 0 <= j < k < |fields| ==> fields[j].name != fields[k].name)
    && forall j :: 0 <= j < |fields| - 1 ==> FlatField(w, limit, fields[j])
  }

  /** A count is an unsized number of its width. */
  predicate CountFits(fields: seq<Field>, f: Field, vals: seq<Value>)
    requires |vals| == |fields|
  {
    ApiValidation.NamesCount(f) ==>
      match At(fields, f.size.value.count.value)
      case None => false
      case Some(k) =>
        && fields[k].size.None? && (fields[k].ty == "u8" || IsInt(fields[k].ty))
        && vals[k].Scalar? && |vals[k].bytes| == Width(fields[k].ty)
  }

  predicate FitsMembers(w: World, limit: nat, fields: seq<Field>, host: bool, v: Value)
    requires limit <= |w.table|
    decreases limit, 1
  {
    && v.Struct? && |v.members| == |fields|
    && LaidOut(w, limit, fields)
    && forall j {:trigger fields[j]} :: 0 <= j < |fields| ==>
      && CountFits(fields, fields[j], v.members)
      && FitsField(w, limit, fields[j], v.members[j], Live(w, fields, fields[j], v.members, host), host)
  }

  /** The elements of an array are separate values, so their type is flat. */
  predicate FitsField(w: World, limit: nat, f: Field, v: Value, live: nat, host: bool)
    requires limit <= |w.table|
    decreases limit, 0
  {
    if IsPlain(f.ty) then true
    else if f.ty == "string" then
      f.size.Some? && (f.size.value.Fixed? || (f.size == Some(Variable(None)) && v.Str?))
    else if IsInt(f.ty) then
      match f.size
      case None => v.Scalar?
      case Some(Fixed(n)) => v.Array? && |v.elems| == n && forall e :: e in v.elems ==> e.Scalar?
      case Some(Variable(None)) => false
      case Some(Variable(Some(_))) => v.Array? && live <= |v.elems| && forall j :: 0 <= j < live ==> v.elems[j].Scalar?
    else
      match Resolve(w.table, f)
      case None => false
      case Some(i) =>
        && i < limit
        && match f.size
           case None => FitsEntry(w, i, host, v)
           case Some(Fixed(n)) =>
             v.Array? && |v.elems| == n && FlatEntry(w, i) && forall e :: e in v.elems ==> FitsEntry(w, i, host, e)
           case Some(Variable(None)) => false
           case Some(Variable(Some(_))) =>
             && v.Array? && live <= |v.elems| && FlatEntry(w, i)
             && forall j :: 0 <= j < live ==> FitsEntry(w, i, host, v.elems[j])
  }
}
