/** What a reader gets out of a message: in host order numbers are read as the host reads them, in
    network order most significant byte first. Swapping changes the order and nothing that is read. */
module EndianReading {
  import opened Optional
  import opened ApiTypes
  import ApiValidation
  import opened EndianSwap
  import opened EndianMeaning
  import EndianLaws
  import EndianRoundTrip

  // ---- bytes -------------------------------------------------------------------------------------------

  /** Read most significant byte first, a number is its leading bytes times a power of 256, plus the
      number of its last bytes. */
  lemma {:induction false} BigEndianDigits(bytes: seq<byte>, last: byte)
    ensures NumberOf(false, []) == 0
    ensures NumberOf(false, bytes + [last]) == 256 * NumberOf(false, bytes) + last
  {
    assert (bytes + [last])[..|bytes|] == bytes;
  }

  /** A little-endian host reads the same number from the bytes in the opposite order. */
  lemma {:induction false} LittleIsReversed(bytes: seq<byte>)
    ensures NumberOf(true, bytes) == NumberOf(false, Reversed(bytes))
  {
    if bytes != [] {
      LittleIsReversed(bytes[1..]);
      BigEndianDigits(Reversed(bytes[1..]), bytes[0]);
    }
  }

  /** What `to_be` leaves, read most significant byte first, is the number the host had. */
  lemma ConvertedReads(little: bool, bytes: seq<byte>)
    ensures NumberOf(false, BigEndian(little, bytes)) == NumberOf(little, bytes)
    ensures NumberOf(little, BigEndian(little, bytes)) == NumberOf(false, bytes)
  {
    if little {
      LittleIsReversed(bytes);
      LittleIsReversed(Reversed(bytes));
      EndianLaws.ReversedTwice(bytes);
    }
  }

  // ---- counts ------------------------------------------------------------------------------------------

  function Power(n: nat): nat {
    if n == 0 then 1 else 256 * Power(n - 1)
  }

  lemma {:induction false} ByteBound(little: bool, bytes: seq<byte>)
    ensures NumberOf(little, bytes) < Power(|bytes|)
  {
    if bytes != [] {
      if little {
        ByteBound(little, bytes[1..]);
      } else {
        ByteBound(little, bytes[..|bytes| - 1]);
      }
    }
  }

  lemma {:induction false} NumberBound(little: bool, bytes: seq<byte>)
    ensures |bytes| == 1 ==> NumberOf(little, bytes) < 0x100
    ensures |bytes| == 2 ==> NumberOf(little, bytes) < 0x1_0000
    ensures |bytes| == 4 ==> NumberOf(little, bytes) < 0x1_0000_0000
    ensures |bytes| == 8 ==> NumberOf(little, bytes) < 0x1_0000_0000_0000_0000
  {
    ByteBound(little, bytes);
    assert Power(1) == 0x100 && Power(2) == 0x1_0000;
    assert Power(4) == 0x1_0000_0000;
    assert Power(6) == 0x1_0000_0000_0000;
    assert Power(8) == 0x1_0000_0000_0000_0000;
  }

  /** An unsigned count is the number itself; a negative one becomes its sign-extension to 64 bits. */
  lemma CountMeans(little: bool, ty: string, bytes: seq<byte>)
    requires ty in ["u8", "u16", "u32", "u64", "i16", "i32", "i64"]
    requires |bytes| == Width(ty)
    ensures var n := NumberOf(little, bytes);
      CountValue(little, ty, bytes) ==
        if ty == "i16" && n >= 0x8000 then 0x1_0000_0000_0000_0000 - (0x1_0000 - n)
        else if ty == "i32" && n >= 0x8000_0000 then 0x1_0000_0000_0000_0000 - (0x1_0000_0000 - n)
        else n
  {
    NumberBound(little, bytes);
  }

  lemma WidthMeans()
    ensures Width("u8") == 1 && Width("u16") == 2 && Width("i16") == 2
    ensures Width("u32") == 4 && Width("i32") == 4 && Width("u64") == 8 && Width("i64") == 8
  {
  }

  // ---- reading a message -------------------------------------------------------------------------------

  /** A number with the number of its bytes, or something that has no byte order. */
  datatype Item = Number(value: nat, width: nat) | Plain(v: Value)

  function ReadNumber(w: World, host: bool, v: Value): Item {
    if v.Scalar? then Number(NumberOf(w.little && host, v.bytes), |v.bytes|) else Plain(v)
  }

  function ReadNumbers(w: World, host: bool, elems: seq<Value>, n: nat): seq<Item>
    requires n <= |elems|
  {
    if n == 0 then [] else ReadNumbers(w, host, elems, n - 1) + [ReadNumber(w, host, elems[n - 1])]
  }

  function ReadEntry(w: World, i: nat, host: bool, v: Value): seq<Item>
    requires i < |w.table|
    decreases i, 3, 0
  {
    var e := w.table[i];
    if e.name in w.manual || e.details.UnionType? then []
    else
      match e.details
      case EnumType(width, _) => if width == "u8" then [Plain(v)] else [ReadNumber(w, host, v)]
      case EnumFlagType(width, _) => if width == "u8" then [Plain(v)] else [ReadNumber(w, host, v)]
      case AliasType(ty, size) => ReadStruct(w, i, [Field(ty, TUPLE, size)], host, v)
      case BlockType(fields) => ReadStruct(w, i, fields, host, v)
      case UnionType(_) => []
  }

  function ReadStruct(w: World, limit: nat, fields: seq<Field>, host: bool, v: Value): seq<Item>
    requires limit <= |w.table|
    decreases limit, 2, 0
  {
    if v.Struct? && |v.members| == |fields| then ReadMembers(w, limit, fields, v.members, host, |fields|) else [Plain(v)]
  }

  function ReadMembers(w: World, limit: nat, fields: seq<Field>, vals: seq<Value>, host: bool, n: nat): seq<Item>
    requires limit <= |w.table| && |vals| == |fields| && n <= |fields|
    decreases limit, 1, n
  {
    if n == 0 then []
    else
      var f := fields[n - 1];
      ReadMembers(w, limit, fields, vals, host, n - 1)
      + ReadField(w, limit, f, vals[n - 1], Live(w, fields, f, vals, host), host)
  }

  function ReadEntries(w: World, i: nat, host: bool, elems: seq<Value>, n: nat): seq<Item>
    requires i < |w.table| && n <= |elems|
    decreases i, 4, n
  {
    if n == 0 then [] else ReadEntries(w, i, host, elems, n - 1) + ReadEntry(w, i, host, elems[n - 1])
  }

  /** The elements that are not read, as they stand. */
  function Rest(elems: seq<Value>, n: nat): seq<Item> {
    [Plain(Array(if n <= |elems| then elems[n..] else []))]
  }

  function ReadField(w: World, limit: nat, f: Field, v: Value, live: nat, host: bool): seq<Item>
    requires limit <= |w.table|
    decreases limit, 0, 0
  {
    if f.ty in ["u8", "bool", "f64"] then [Plain(v)]
    else if f.ty == "string" then
      if v.Str? && f.size == Some(Variable(None)) then
        [ReadNumber(w, host, Scalar(v.length)), Plain(Str([], v.text))]
      else [Plain(v)]
    else
      var n := if v.Array? then if (f.size.Some? && f.size.value.Fixed?) || live > |v.elems| then |v.elems| else live else 0;
      if f.ty in ["u16", "u32", "u64", "i16", "i32", "i64"] then
        if f.size.None? then [ReadNumber(w, host, v)]
        else if v.Array? then ReadNumbers(w, host, v.elems, n) + Rest(v.elems, n)
        else [Plain(v)]
      else
        match Resolve(w.table, f)
        case None => [Plain(v)]
        case Some(i) =>
          if i >= limit then [Plain(v)]
          else if f.size.None? then ReadEntry(w, i, host, v)
          else if v.Array? then ReadEntries(w, i, host, v.elems, n) + Rest(v.elems, n)
          else [Plain(v)]
  }

  // ---- swapping changes nothing that is read -----------------------------------------------------------

  lemma ConvertReads(w: World, host: bool, v: Value)
    ensures ReadNumber(w, !host, Convert(w, v)) == ReadNumber(w, host, v)
  {
    if v.Scalar? {
      ConvertedReads(w.little, v.bytes);
    }
  }

  lemma {:induction false} NumbersRead(w: World, host: bool, elems: seq<Value>, flipped: seq<Value>, n: nat)
    requires n <= |elems| == |flipped| && forall j :: 0 <= j < n ==> flipped[j] == Convert(w, elems[j])
    ensures ReadNumbers(w, !host, flipped, n) == ReadNumbers(w, host, elems, n)
  {
    hide ReadNumber, Convert;
    if n > 0 {
      NumbersRead(w, host, elems, flipped, n - 1);
      ConvertReads(w, host, elems[n - 1]);
    }
  }

  lemma {:induction false} EntriesRead(w: World, i: nat, host: bool, elems: seq<Value>, flipped: seq<Value>, n: nat)
    requires i < |w.table| && n <= |elems| == |flipped|
    requires forall j :: 0 <= j < n ==> FitsEntry(w, i, host, elems[j]) && flipped[j] == FlipEntry(w, i, host, elems[j])
    ensures ReadEntries(w, i, !host, flipped, n) == ReadEntries(w, i, host, elems, n)
    decreases i, 5, n
  {
    hide FitsEntry, FlipEntry, ReadEntry;
    if n > 0 {
      EntriesRead(w, i, host, elems, flipped, n - 1);
      EntryReads(w, i, host, elems[n - 1]);
    }
  }

  lemma NumberFieldReads(w: World, limit: nat, f: Field, v: Value, live: nat, host: bool)
    requires limit <= |w.table| && f.ty in ["u16", "u32", "u64", "i16", "i32", "i64"]
    requires FitsField(w, limit, f, v, live, host)
    ensures ReadField(w, limit, f, FlipField(w, limit, f, v, live, host), live, !host) == ReadField(w, limit, f, v, live, host)
  {
    hide Convert, ReadNumber;
    var r := FlipField(w, limit, f, v, live, host);
    if f.size.None? {
      ConvertReads(w, host, v);
    } else {
      var n := if f.size.value.Fixed? then |v.elems| else live;
      NumbersRead(w, host, v.elems, r.elems, n);
      assert r.elems[n..] == v.elems[n..];
    }
  }

  lemma {:induction false} DeclaredFieldReads(w: World, limit: nat, f: Field, v: Value, live: nat, host: bool)
    requires limit <= |w.table| && !IsInt(f.ty) && !IsPlain(f.ty) && f.ty != "string"
    requires FitsField(w, limit, f, v, live, host)
    ensures ReadField(w, limit, f, FlipField(w, limit, f, v, live, host), live, !host) == ReadField(w, limit, f, v, live, host)
    decreases limit, 0, 0
  {
    hide FitsEntry, FlipEntry, ReadEntry, FlatEntry;
    var i := Resolve(w.table, f).value;
    var r := FlipField(w, limit, f, v, live, host);
    if f.size.None? {
      EntryReads(w, i, host, v);
    } else {
      var n := if f.size.value.Fixed? then |v.elems| else live;
      EntriesRead(w, i, host, v.elems, r.elems, n);
      assert r.elems[n..] == v.elems[n..];
    }
  }

  lemma StringFieldReads(w: World, limit: nat, f: Field, v: Value, live: nat, host: bool)
    requires limit <= |w.table| && f.ty == "string"
    ensures ReadField(w, limit, f, FlipField(w, limit, f, v, live, host), live, !host) == ReadField(w, limit, f, v, live, host)
  {
    hide BigEndian, NumberOf;
    if v.Str? {
      ConvertReads(w, host, Scalar(v.length));
    }
  }

  lemma {:induction false} FieldReads(w: World, limit: nat, f: Field, v: Value, live: nat, host: bool)
    requires limit <= |w.table| && FitsField(w, limit, f, v, live, host)
    ensures ReadField(w, limit, f, FlipField(w, limit, f, v, live, host), live, !host) == ReadField(w, limit, f, v, live, host)
    decreases limit, 1, 0
  {
    if f.ty == "string" {
      StringFieldReads(w, limit, f, v, live, host);
    } else if IsInt(f.ty) {
      NumberFieldReads(w, limit, f, v, live, host);
    } else if !IsPlain(f.ty) {
      DeclaredFieldReads(w, limit, f, v, live, host);
    }
  }

  lemma {:induction false} MembersRead(w: World, limit: nat, fields: seq<Field>, host: bool, v: Value, n: nat)
    requires limit <= |w.table| && FitsMembers(w, limit, fields, host, v) && n <= |fields|
    ensures var r := FlipMembers(w, limit, fields, host, v);
      && r.Struct? && |r.members| == |fields|
      && ReadMembers(w, limit, fields, r.members, !host, n) == ReadMembers(w, limit, fields, v.members, host, n)
    decreases limit, 2, n
  {
    hide FitsField, FlipField, ReadField, Live, CountFits, LaidOut;
    if n > 0 {
      var f, live := fields[n - 1], Live(w, fields, fields[n - 1], v.members, host);
      MembersRead(w, limit, fields, host, v, n - 1);
      EndianRoundTrip.LiveKept(w, limit, fields, host, v, n - 1);
      assert FitsField(w, limit, f, v.members[n - 1], live, host);
      FieldReads(w, limit, f, v.members[n - 1], live, host);
    }
  }

  lemma {:induction false} EntryReads(w: World, i: nat, host: bool, v: Value)
    requires i < |w.table| && FitsEntry(w, i, host, v)
    ensures ReadEntry(w, i, !host, FlipEntry(w, i, host, v)) == ReadEntry(w, i, host, v)
    decreases i, 4, 0
  {
    hide FitsMembers, FlipMembers, ReadMembers, Convert, ReadNumber;
    var e := w.table[i];
    if e.name !in w.manual {
      match e.details
      case AliasType(ty, size) => StructReads(w, i, [Field(ty, TUPLE, size)], host, v);
      case BlockType(fields) => StructReads(w, i, fields, host, v);
      case EnumType(_, _) => ConvertReads(w, host, v);
      case EnumFlagType(_, _) => ConvertReads(w, host, v);
      case UnionType(_) =>
    }
  }

  lemma {:induction false} StructReads(w: World, limit: nat, fields: seq<Field>, host: bool, v: Value)
    requires limit <= |w.table| && FitsMembers(w, limit, fields, host, v)
    ensures ReadStruct(w, limit, fields, !host, FlipMembers(w, limit, fields, host, v)) == ReadStruct(w, limit, fields, host, v)
    decreases limit, 3, 0
  {
    hide FitsField, FlipField, ReadMembers, Live, CountFits, LaidOut;
    MembersRead(w, limit, fields, host, v, |fields|);
  }

  /** What the emitted code leaves of a message reads as the message read before it: a swap to network
      order turns host numbers into the same numbers most significant byte first, and a swap to host
      order turns those back. */
  lemma SwappedMessageReads(w: World, fields: seq<Field>, toNet: bool, v: Value)
    requires FitsMembers(w, |w.table|, fields, toNet, v)
    ensures var r := SwapMembers(w, |w.table|, Fields(fields), toNet, v);
      r.Some? && ReadStruct(w, |w.table|, fields, !toNet, r.value) == ReadStruct(w, |w.table|, fields, toNet, v)
  {
    hide SwapMembers, FitsMembers, FlipMembers, ReadStruct;
    EndianRoundTrip.SwapUndone(w, fields, toNet, v);
    StructReads(w, |w.table|, fields, toNet, v);
  }

  // ---- which values fit --------------------------------------------------------------------------------

  /** A field of a number type holds a number, as many as its length says, or at least as many as its
      count says. */
  lemma NumberFieldFits(w: World, limit: nat, f: Field, v: Value, live: nat, host: bool)
    requires limit <= |w.table| && f.ty in ["u16", "u32", "u64", "i16", "i32", "i64"]
    ensures f.size.None? ==> (FitsField(w, limit, f, v, live, host) <==> v.Scalar?)
    ensures f.size.Some? && f.size.value.Fixed? ==>
      (FitsField(w, limit, f, v, live, host) <==>
       v.Array? && |v.elems| == f.size.value.length && forall e :: e in v.elems ==> e.Scalar?)
    ensures f.size.Some? && f.size.value.Variable? && f.size.value.count.Some? ==>
      (FitsField(w, limit, f, v, live, host) <==>
       v.Array? && live <= |v.elems| && forall j :: 0 <= j < live ==> v.elems[j].Scalar?)
  {
  }

  lemma OtherFieldFits(w: World, limit: nat, f: Field, v: Value, live: nat, host: bool)
    requires limit <= |w.table|
    ensures f.ty in ["u8", "bool", "f64"] ==> FitsField(w, limit, f, v, live, host)
    ensures f.ty == "string" && f.size == Some(Variable(None)) ==> (FitsField(w, limit, f, v, live, host) <==> v.Str?)
    ensures f.ty == "string" && f.size.Some? && f.size.value.Fixed? ==> FitsField(w, limit, f, v, live, host)
  {
  }

  lemma {:induction false} FirstAt(fields: seq<Field>, name: string)
    ensures At(fields, name).Some? ==> forall j :: 0 <= j < At(fields, name).value ==> fields[j].name != name
  {
    if fields != [] {
      FirstAt(fields[1..], name);
    }
  }

  /** The count of a counted array is read from the first member of its name, as host or network order
      has it. */
  lemma LiveMeans(w: World, fields: seq<Field>, f: Field, vals: seq<Value>, host: bool)
    requires |vals| == |fields| && ApiValidation.NamesCount(f) && CountFits(fields, f, vals)
    ensures exists k ::
      && 0 <= k < |fields| && fields[k].name == f.size.value.count.value
      && (forall j :: 0 <= j < k ==> fields[j].name != f.size.value.count.value)
      && vals[k].Scalar?
      && Live(w, fields, f, vals, host) ==
         CountValue(w.little && host, fields[k].ty, vals[k].bytes)
  {
    var k := At(fields, f.size.value.count.value).value;
    FirstAt(fields, f.size.value.count.value);
    ConvertedReads(w.little, vals[k].bytes);
  }
}
