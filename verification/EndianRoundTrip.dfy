/** Swapping to network order and back is the identity, and so is the other way round. */
module EndianRoundTrip {
  import opened Optional
  import opened ApiTypes
  import ApiValidation
  import opened EndianSwap
  import opened EndianMeaning
  import EndianLaws

  lemma FlippedCount(w: World, limit: nat, f: Field, v: Value, live: nat, host: bool)
    requires limit <= |w.table| && f.size.None? && (f.ty == "u8" || IsInt(f.ty)) && v.Scalar? && |v.bytes| == Width(f.ty)
    ensures var r := FlipField(w, limit, f, v, live, host);
      && r.Scalar? && |r.bytes| == |v.bytes|
      && (if !host then r.bytes else BigEndian(w.little, r.bytes))
         == (if host then v.bytes else BigEndian(w.little, v.bytes))
  {
    hide BigEndian;
    EndianLaws.BigEndianTwice(w.little, v.bytes);
  }

  /** A swapped message has the same host count. */
  lemma LiveKept(w: World, limit: nat, fields: seq<Field>, host: bool, v: Value, n: nat)
    requires limit <= |w.table| && FitsMembers(w, limit, fields, host, v) && n < |fields|
    ensures var r := FlipMembers(w, limit, fields, host, v).members;
      && |r| == |fields|
      && CountFits(fields, fields[n], r)
      && Live(w, fields, fields[n], r, !host) == Live(w, fields, fields[n], v.members, host)
  {
    hide FitsField, FlipField, CountValue, LaidOut, At;
    assert CountFits(fields, fields[n], v.members);
    if ApiValidation.NamesCount(fields[n]) {
      var k := At(fields, fields[n].size.value.count.value).value;
      FlippedCount(w, limit, fields[k], v.members[k], Live(w, fields, fields[k], v.members, host), host);
    }
  }

  lemma ConvertTwice(w: World, v: Value)
    ensures Convert(w, Convert(w, v)) == v
    ensures Convert(w, v).Scalar? == v.Scalar?
  {
    if v.Scalar? {
      EndianLaws.BigEndianTwice(w.little, v.bytes);
    }
  }

  lemma IntBack(w: World, limit: nat, f: Field, v: Value, live: nat, host: bool)
    requires limit <= |w.table| && IsInt(f.ty) && FitsField(w, limit, f, v, live, host)
    ensures FitsField(w, limit, f, FlipField(w, limit, f, v, live, host), live, !host)
    ensures FlipField(w, limit, f, FlipField(w, limit, f, v, live, host), live, !host) == v
  {
    hide Convert;
    var r := FlipField(w, limit, f, v, live, host);
    if f.size.None? {
      ConvertTwice(w, v);
    } else {
      forall j | 0 <= j < |v.elems|
        ensures Convert(w, Convert(w, v.elems[j])) == v.elems[j]
        ensures Convert(w, v.elems[j]).Scalar? == v.elems[j].Scalar?
      {
        ConvertTwice(w, v.elems[j]);
      }
      assert FlipField(w, limit, f, r, live, !host).elems == v.elems;
    }
  }

  lemma {:induction false} DeclaredBack(w: World, limit: nat, f: Field, v: Value, live: nat, host: bool)
    requires limit <= |w.table| && !IsInt(f.ty) && !IsPlain(f.ty) && f.ty != "string" && FitsField(w, limit, f, v, live, host)
    ensures FitsField(w, limit, f, FlipField(w, limit, f, v, live, host), live, !host)
    ensures FlipField(w, limit, f, FlipField(w, limit, f, v, live, host), live, !host) == v
    decreases limit, 0
  {
    hide FitsEntry, FlipEntry, FlatEntry;
    var i := Resolve(w.table, f).value;
    var r := FlipField(w, limit, f, v, live, host);
    if f.size.None? {
      EntryBack(w, i, host, v);
    } else {
      forall j | 0 <= j < |v.elems| && (f.size.value.Fixed? || j < live)
        ensures FitsEntry(w, i, !host, r.elems[j])
        ensures FlipEntry(w, i, !host, r.elems[j]) == v.elems[j]
      {
        EntryBack(w, i, host, v.elems[j]);
      }
      assert FlipField(w, limit, f, r, live, !host).elems == v.elems;
    }
  }

  lemma {:induction false} FieldBack(w: World, limit: nat, f: Field, v: Value, live: nat, host: bool)
    requires limit <= |w.table| && FitsField(w, limit, f, v, live, host)
    ensures FitsField(w, limit, f, FlipField(w, limit, f, v, live, host), live, !host)
    ensures FlipField(w, limit, f, FlipField(w, limit, f, v, live, host), live, !host) == v
    decreases limit, 1
  {
    if IsPlain(f.ty) {
    } else if f.ty == "string" {
      if v.Str? {
        EndianLaws.BigEndianTwice(w.little, v.length);
      }
    } else if IsInt(f.ty) {
      IntBack(w, limit, f, v, live, host);
    } else {
      DeclaredBack(w, limit, f, v, live, host);
    }
  }

  lemma {:induction false} MembersBack(w: World, limit: nat, fields: seq<Field>, host: bool, v: Value)
    requires limit <= |w.table| && FitsMembers(w, limit, fields, host, v)
    ensures FitsMembers(w, limit, fields, !host, FlipMembers(w, limit, fields, host, v))
    ensures FlipMembers(w, limit, fields, !host, FlipMembers(w, limit, fields, host, v)) == v
    decreases limit, 2
  {
    hide FitsField, FlipField, Live, CountFits, LaidOut;
    var r := FlipMembers(w, limit, fields, host, v);
    forall j | 0 <= j < |fields|
      ensures CountFits(fields, fields[j], r.members)
      ensures FitsField(w, limit, fields[j], r.members[j], Live(w, fields, fields[j], r.members, !host), !host)
      ensures FlipField(w, limit, fields[j], r.members[j], Live(w, fields, fields[j], r.members, !host), !host) == v.members[j]
    {
      LiveKept(w, limit, fields, host, v, j);
      FieldBack(w, limit, fields[j], v.members[j], Live(w, fields, fields[j], v.members, host), host);
    }
    assert FlipMembers(w, limit, fields, !host, r).members == v.members;
  }

  lemma {:induction false} EntryBack(w: World, i: nat, host: bool, v: Value)
    requires i < |w.table| && FitsEntry(w, i, host, v)
    ensures FitsEntry(w, i, !host, FlipEntry(w, i, host, v))
    ensures FlipEntry(w, i, !host, FlipEntry(w, i, host, v)) == v
    decreases i, 3
  {
    hide FitsMembers, FlipMembers, Convert;
    var e := w.table[i];
    if e.name !in w.manual {
      match e.details
      case AliasType(ty, size) => MembersBack(w, i, [Field(ty, TUPLE, size)], host, v);
      case BlockType(fields) => MembersBack(w, i, fields, host, v);
      case EnumType(_, _) => ConvertTwice(w, v);
      case EnumFlagType(_, _) => ConvertTwice(w, v);
      case UnionType(_) =>
    }
  }

  /** The generated code of a message or block converts every live number exactly once, and running
      it in the opposite direction restores the message. */
  lemma SwapUndone(w: World, fields: seq<Field>, toNet: bool, v: Value)
    requires FitsMembers(w, |w.table|, fields, toNet, v)
    ensures var r := SwapMembers(w, |w.table|, Fields(fields), toNet, v);
      && r == Some(FlipMembers(w, |w.table|, fields, toNet, v))
      && FitsMembers(w, |w.table|, fields, !toNet, r.value)
      && SwapMembers(w, |w.table|, Fields(fields), !toNet, r.value) == Some(v)
  {
    hide SwapMembers, FitsMembers, FlipMembers;
    EndianLaws.SwapMembersLaw(w, |w.table|, Fields(fields), toNet, v);
    MembersBack(w, |w.table|, fields, toNet, v);
    EndianLaws.SwapMembersLaw(w, |w.table|, Fields(fields), !toNet, FlipMembers(w, |w.table|, fields, toNet, v));
  }
}
