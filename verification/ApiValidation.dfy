/** Which declarations the parser accepts: arrays of variable length only at the end, and every
    reference and array count declared. */
module ApiValidation {
  import opened Optional
  import opened ApiTypes
  import opened ApiStatements
  import opened ApiVla
  import ApiCrc

  predicate NamesCount(f: Field) {
    f.size.Some? && f.size.value.Variable? && f.size.value.count.Some?
  }

  /** The first complaint of `ApiParser::validate_vla` about field `i`. */
  function FieldError(table: Table, name: string, fields: seq<Field>, isUnion: bool, i: nat): Option<Error>
    requires Grounded(table) && i < |fields|
  {
    var f := fields[i];
    var vla := FieldVla(table, f, fields).Some?;
    if f.ty == "string" && f.size.None? then Some(StringNotArray(f.name))
    else if vla && isUnion then Some(VlaFieldUnion(f.name, name))
    else if vla && i != |fields| - 1 then Some(VlaFieldNotLast(f.name, name))
    else if NamesCount(f) && FindField(fields, f.size.value.count.value).None? then
      Some(ArrayVariableNotFound(f.name, f.size.value.count.value))
    else None
  }

  function FirstError(table: Table, name: string, fields: seq<Field>, isUnion: bool, i: nat): Option<Error>
    requires Grounded(table) && i <= |fields|
    decreases |fields| - i
  {
    if i == |fields| then None
    else if FieldError(table, name, fields, isUnion, i).Some? then FieldError(table, name, fields, isUnion, i)
    else FirstError(table, name, fields, isUnion, i + 1)
  }

  /** A string is an array, a named count exists, and only the last field of a block and no field
      of a union is of variable length. */
  ghost predicate Accepted(table: Table, fields: seq<Field>, isUnion: bool)
    requires Grounded(table)
  {
    forall i :: 0 <= i < |fields| ==>
      && !(fields[i].ty == "string" && fields[i].size.None?)
      && (NamesCount(fields[i]) ==> exists f :: f in fields && f.name == fields[i].size.value.count.value)
      && (FieldVla(table, fields[i], fields).Some? ==> !isUnion && i == |fields| - 1)
  }

  lemma {:induction false} NoErrorAccepts(table: Table, name: string, fields: seq<Field>, isUnion: bool, i: nat)
    requires Grounded(table) && i <= |fields|
    ensures FirstError(table, name, fields, isUnion, i).None? <==>
            forall j :: i <= j < |fields| ==> FieldError(table, name, fields, isUnion, j).None?
    decreases |fields| - i
  {
    if i < |fields| {
      NoErrorAccepts(table, name, fields, isUnion, i + 1);
    }
  }

  /** A declaration passes validation exactly when it is acceptable. */
  lemma PassesIffAccepted(table: Table, name: string, fields: seq<Field>, isUnion: bool)
    requires Grounded(table)
    ensures FirstError(table, name, fields, isUnion, 0).None? <==> Accepted(table, fields, isUnion)
  {
    NoErrorAccepts(table, name, fields, isUnion, 0);
    hide FieldVla;
    forall i | 0 <= i < |fields|
      ensures FieldError(table, name, fields, isUnion, i).None? <==>
              && !(fields[i].ty == "string" && fields[i].size.None?)
              && (NamesCount(fields[i]) ==> exists f :: f in fields && f.name == fields[i].size.value.count.value)
              && (FieldVla(table, fields[i], fields).Some? ==> !isUnion && i == |fields| - 1)
    {
    }
  }

  /** `ApiParser::validate_vla`. */
  method ValidateVla(table: Table, name: string, fields: seq<Field>, isUnion: bool) returns (r: Result<bool>)
    requires Grounded(table)
    ensures r.Ok? <==> Accepted(table, fields, isUnion)
    ensures r.Ok? ==> r.value == (fields != [] && FieldVla(table, fields[|fields| - 1], fields).Some?)
    ensures r.Err? ==> FirstError(table, name, fields, isUnion, 0) == Some(r.error)
  {
    hide FieldVla, Accepted, Grounded;
    PassesIffAccepted(table, name, fields, isUnion);
    var vla := false;
    var i := 0;
    while i < |fields|
      invariant 0 <= i <= |fields|
      invariant FirstError(table, name, fields, isUnion, 0) == FirstError(table, name, fields, isUnion, i)
      invariant vla == (i > 0 && FieldVla(table, fields[i - 1], fields).Some?)
    {
      var f := fields[i];
      if f.ty == "string" && f.size.None? {
        return Err(StringNotArray(f.name));
      }
      vla := FieldVla(table, f, fields).Some?;
      if vla && isUnion {
        return Err(VlaFieldUnion(f.name, name));
      }
      if vla && i != |fields| - 1 {
        return Err(VlaFieldNotLast(f.name, name));
      }
      if NamesCount(f) && FindField(fields, f.size.value.count.value).None? {
        return Err(ArrayVariableNotFound(f.name, f.size.value.count.value));
      }
      i := i + 1;
    }
    r := Ok(vla);
  }

  // ---- references -------------------------------------------------------------------------------------

  /** The first field of an undeclared type. */
  function FirstUnresolved(table: Table, fields: seq<Field>): (r: Option<string>)
    ensures r.None? <==> forall f :: f in fields ==> Refers(table, f, |table|)
  {
    if fields == [] then None
    else
      var init, last := fields[..|fields| - 1], fields[|fields| - 1];
      assert fields == init + [last];
      var r := FirstUnresolved(table, init);
      if r.Some? then r
      else if ApiName(last.ty).Some? && Resolve(table, last).None? then
        assert last in fields && !Refers(table, last, |table|);
        ApiName(last.ty)
      else None
  }

  lemma {:induction false} UnresolvedStays(table: Table, fields: seq<Field>, i: nat)
    requires i <= |fields| && FirstUnresolved(table, fields[..i]).Some?
    ensures FirstUnresolved(table, fields) == FirstUnresolved(table, fields[..i])
    decreases |fields|
  {
    if i < |fields| {
      assert fields[..|fields| - 1][..i] == fields[..i];
      UnresolvedStays(table, fields[..|fields| - 1], i);
    } else {
      assert fields[..i] == fields;
    }
  }

  /** `ApiParser::crc_for_fields`. */
  method CrcForFields(table: Table, fields: seq<Field>) returns (r: Result<string>)
    ensures r == match FirstUnresolved(table, fields)
                 case None => Ok(ApiCrc.FieldsCrc(fields) + ApiCrc.ReferencedCrc(table, fields))
                 case Some(ty) => Err(TypeResolution(ty))
  {
    hide ApiCrc.FieldsCrc;
    var crc := ApiCrc.FieldsCrc(fields);
    var i := 0;
    while i < |fields|
      invariant 0 <= i <= |fields|
      invariant FirstUnresolved(table, fields[..i]).None?
      invariant crc == ApiCrc.FieldsCrc(fields) + ApiCrc.ReferencedCrc(table, fields[..i])
    {
      assert fields[..i + 1][..i] == fields[..i];
      var name := ApiName(fields[i].ty);
      if name.Some? {
        var at := Find(table, name.value);
        if at.None? {
          UnresolvedStays(table, fields, i + 1);
          return Err(TypeResolution(name.value));
        }
        crc := crc + table[at.value].crc;
      }
      i := i + 1;
    }
    assert fields[..i] == fields;
    r := Ok(crc);
  }

  // ---- acceptance lasts ---------------------------------------------------------------------------------

  /** What was accepted, with its references resolved, stays accepted as later types are registered. */
  lemma AcceptedStable(table: Table, more: Table, fields: seq<Field>, isUnion: bool)
    requires Grounded(table) && Grounded(table + more) && UniqueNames(table + more)
    requires forall f :: f in fields ==> Refers(table, f, |table|)
    ensures Accepted(table + more, fields, isUnion) == Accepted(table, fields, isUnion)
  {
    hide FieldVla, Grounded, UniqueNames, Refers;
    forall i | 0 <= i < |fields|
      ensures FieldVla(table + more, fields[i], fields) == FieldVla(table, fields[i], fields)
    {
      FieldVlaStable(table, more, fields[i], fields);
    }
  }

  const MSG_ID: Field := Field("u16", "_vl_msg_id", None)

  /** The verdict on a field does not depend on the message number put in front, once its named
      count is declared. */
  lemma ImplicitFieldKeepsVerdict(table: Table, f: Field, fields: seq<Field>)
    requires Grounded(table)
    requires NamesCount(f) ==> FindField(fields, f.size.value.count.value).Some?
    ensures FieldVla(table, f, [MSG_ID] + fields).Some? == FieldVla(table, f, fields).Some?
  {
    assert ([MSG_ID] + fields)[1..] == fields;
  }

  lemma PlainFieldHasNoVla(table: Table, f: Field, others: seq<Field>)
    requires Grounded(table) && f.size.None? && |f.ty| < |VL_API_PREFIX|
    ensures FieldVla(table, f, others).None?
  {
  }

  lemma ImplicitFieldAccepted(table: Table, fields: seq<Field>)
    requires Grounded(table) && Accepted(table, fields, false)
    ensures Accepted(table, [MSG_ID] + fields, false)
  {
    hide FieldVla, Grounded;
    var all := [MSG_ID] + fields;
    forall i | 0 <= i < |all|
      ensures && !(all[i].ty == "string" && all[i].size.None?)
              && (NamesCount(all[i]) ==> exists f :: f in all && f.name == all[i].size.value.count.value)
              && (FieldVla(table, all[i], all).Some? ==> i == |all| - 1)
    {
      if i == 0 {
        PlainFieldHasNoVla(table, MSG_ID, all);
      } else {
        assert all[i] == fields[i - 1];
        ImplicitFieldKeepsVerdict(table, fields[i - 1], fields);
      }
    }
  }
}
