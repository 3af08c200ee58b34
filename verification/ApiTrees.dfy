/** Which type trees the checksum of a message tells apart. */
module ApiTrees {
  import opened Optional
  import opened ApiTypes
  import opened ApiStatements
  import opened ApiCrc
  import opened ApiChecksums
  import ApiParsing
  import ApiSoundness
  import ApiResults

  predicate HasFields(d: TypeDetails) {
    d.BlockType? || d.UnionType?
  }

  /** The text of a type without fields lists variants, those of an alias being none. */
  ghost predicate LeafText(crc: string) {
    exists vs :: PlainVariants(vs) && crc == Listed(VariantItems(vs))
  }

  ghost predicate PlainTable(t: Table) {
    forall i :: 0 <= i < |t| ==>
      if HasFields(t[i].details) then PlainFields(FieldsOf(t[i].details)) else LeafText(t[i].crc)
  }

  // ---- what is told apart ------------------------------------------------------------------------------

  /** Types that no checksum tells apart: their fields have the same texts, and so on for the types their
      fields refer to. A union looks like a struct, and an alias like any other alias. */
  ghost predicate LooksSame(t: Table, i: nat, u: Table, j: nat)
    requires Grounded(t) && Grounded(u) && i < |t| && j < |u|
    decreases i + 1, 0, 0
  {
    var d, e := t[i].details, u[j].details;
    if HasFields(d) && HasFields(e) then SameFields(d.fields, e.fields) && TypesLookSame(t, d.fields, i, u, e.fields, j)
    else if HasFields(d) then d.fields == [] && u[j].crc == "[]"
    else if HasFields(e) then e.fields == [] && t[i].crc == "[]"
    else t[i].crc == u[j].crc
  }

  /** The types that the fields of two lists refer to, pair by pair. */
  ghost predicate TypesLookSame(t: Table, fs: seq<Field>, limit: nat, u: Table, gs: seq<Field>, limit': nat)
    requires Grounded(t) && Grounded(u) && limit <= |t| && limit' <= |u|
    requires forall f :: f in fs ==> Refers(t, f, limit)
    requires forall g :: g in gs ==> Refers(u, g, limit')
    decreases limit, 1, |fs|
  {
    if fs == [] || gs == [] then fs == gs
    else
      var f, g := fs[|fs| - 1], gs[|gs| - 1];
      assert f in fs && g in gs && Refers(t, f, limit) && Refers(u, g, limit');
      && TypesLookSame(t, fs[..|fs| - 1], limit, u, gs[..|gs| - 1], limit')
      && Resolve(t, f).Some? == Resolve(u, g).Some?
      && (Resolve(t, f).Some? ==> LooksSame(t, Resolve(t, f).value, u, Resolve(u, g).value))
  }

  // ---- fields and variants ---------------------------------------------------------------------------------

  lemma MixedOnce(f: Field, v: EnumVariant, x: string, y: string)
    requires PlainField(f) && Identifier(v.id)
    ensures FieldCrc(f) + x != Item(v.id, v.value) + y
  {
    hide FieldCrc, Item, SizeText;
    FieldText(f, x);
    VariantText(v, y);
    DecimalReads(v.value);
    var r, s := "'" + f.name + "'" + SizeText(f.size, x), Decimal(v.value) + [']'] + y;
    assert FieldCrc(f) + x == "[" + ("'" + f.ty + "'" + (", " + r));
    Leads("[", "'" + f.ty + "'" + (", " + r), "'" + v.id + "'" + (", " + s));
    QuotedOnce(f.ty, v.id, ", " + r, ", " + s);
    Leads(", ", r, s);
    assert r[0] == '\'' && s[0] != '\'';
  }

  lemma MixedItem(f: Field, v: EnumVariant)
    requires PlainField(f) && Identifier(v.id)
    ensures FieldCrc(f) != "" && FieldCrc(f)[0] == '[' && Item(v.id, v.value) != "" && Item(v.id, v.value)[0] == '['
    ensures !(FieldCrc(f) <= Item(v.id, v.value)) && !(Item(v.id, v.value) <= FieldCrc(f))
  {
    hide FieldCrc, Item;
    FieldItem(f, f);
    VariantItem(v, v);
    var s, t := FieldCrc(f), Item(v.id, v.value);
    assert s + "" == s && t + "" == t;
    if s <= t {
      assert s + t[|s|..] == t;
      MixedOnce(f, v, t[|s|..], "");
    }
    if t <= s {
      assert t + s[|t|..] == s;
      MixedOnce(f, v, "", s[|t|..]);
    }
  }

  lemma MixedItemsEnd(fs: seq<Field>, vs: seq<EnumVariant>)
    requires PlainFields(fs) && PlainVariants(vs)
    ensures EndByThemselves(FieldItems(fs), VariantItems(vs))
    ensures FieldItems(fs) == VariantItems(vs) <==> fs == [] && vs == []
  {
    hide FieldCrc, Item, PlainField, Identifier;
    FieldItemsEnd(fs, fs);
    VariantItemsEnd(vs, vs);
    forall i, j | 0 <= i < |fs| && 0 <= j < |vs|
      ensures !(FieldCrc(fs[i]) <= Item(vs[j].id, vs[j].value)) && !(Item(vs[j].id, vs[j].value) <= FieldCrc(fs[i]))
    {
      MixedItem(fs[i], vs[j]);
    }
    if fs != [] && vs != [] {
      assert FieldItems(fs)[0] != VariantItems(vs)[0];
    }
    assert |FieldItems(fs)| == |fs| && |VariantItems(vs)| == |vs|;
  }

  lemma EmptyText(vs: seq<EnumVariant>)
    requires PlainVariants(vs)
    ensures Listed(VariantItems(vs)) == "[]" <==> vs == []
  {
    hide Listed, Item, EndByThemselves;
    VariantItemsEnd(vs, []);
    assert VariantItems([]) == [];
    ListedOnce(VariantItems(vs), [], "", "");
    assert Listed([]) == "[]" by { ListedText([], ""); assert Listed([]) + "" == Listed([]); }
    assert Listed(VariantItems(vs)) + "" == Listed(VariantItems(vs)) && Listed([]) + "" == Listed([]);
  }

  lemma LeafOnce(a: string, b: string, x: string, y: string)
    requires LeafText(a) && LeafText(b)
    ensures a + x == b + y <==> a == b && x == y
  {
    hide Listed, VariantItems, PlainVariants;
    var vs :| PlainVariants(vs) && a == Listed(VariantItems(vs));
    var ws :| PlainVariants(ws) && b == Listed(VariantItems(ws));
    VariantItemsEnd(vs, ws);
    ListedOnce(VariantItems(vs), VariantItems(ws), x, y);
  }

  lemma MixedTextOnce(fs: seq<Field>, b: string, x: string, y: string)
    requires PlainFields(fs) && LeafText(b)
    ensures FieldsCrc(fs) + x == b + y <==> fs == [] && b == "[]" && x == y
  {
    hide Listed, VariantItems, FieldItems, PlainVariants, PlainFields;
    var ws :| PlainVariants(ws) && b == Listed(VariantItems(ws));
    MixedItemsEnd(fs, ws);
    ListedOnce(FieldItems(fs), VariantItems(ws), x, y);
    EmptyText(ws);
  }

  // ---- whole trees ---------------------------------------------------------------------------------------------

  lemma JoinedOnce(a: string, s: string, x: string)
    ensures a + s + x == a + (s + x)
  {
  }

  lemma SameReferences(t: Table, f: Field, limit: nat, u: Table, g: Field, limit': nat)
    requires Refers(t, f, limit) && Refers(u, g, limit') && f.ty == g.ty
    ensures Resolve(t, f).Some? == Resolve(u, g).Some?
  {
  }

  lemma TypesMatch(f: Field, g: Field)
    requires SameField(f, g)
    ensures f.ty == g.ty
  {
  }

  lemma RefersBelow(t: Table, f: Field, limit: nat)
    requires Refers(t, f, limit) && Resolve(t, f).Some?
    ensures Resolve(t, f).value < limit
  {
  }

  lemma {:induction false} TreesOnce(t: Table, fs: seq<Field>, limit: nat, u: Table, gs: seq<Field>, limit': nat,
                                     x: string, y: string)
    requires Grounded(t) && Grounded(u) && PlainTable(t) && PlainTable(u) && limit <= |t| && limit' <= |u|
    requires forall f :: f in fs ==> Refers(t, f, limit)
    requires forall g :: g in gs ==> Refers(u, g, limit')
    requires SameFields(fs, gs)
    ensures TreesOf(t, fs, limit) + x == TreesOf(u, gs, limit') + y <==> TypesLookSame(t, fs, limit, u, gs, limit') && x == y
    decreases limit, 1, |fs|
  {
    hide TreeBytes, LooksSame, Grounded, PlainTable, SameField, Refers, Resolve;
    if fs == [] {
      assert "" + x == x && "" + y == y;
    } else {
      var n := |fs| - 1;
      var f, g := fs[n], gs[n];
      assert f in fs && g in gs;
      var a, b := TreesOf(t, fs[..n], limit), TreesOf(u, gs[..n], limit');
      TypesMatch(f, g);
      SameReferences(t, f, limit, u, g, limit');
      var r := if Resolve(t, f).Some? then TreeBytes(t, Resolve(t, f).value) else "";
      var s := if Resolve(u, g).Some? then TreeBytes(u, Resolve(u, g).value) else "";
      JoinedOnce(a, r, x);
      JoinedOnce(b, s, y);
      TreesOnce(t, fs[..n], limit, u, gs[..n], limit', r + x, s + y);
      if Resolve(t, f).Some? {
        RefersBelow(t, f, limit);
        TreeOnce(t, Resolve(t, f).value, u, Resolve(u, g).value, x, y);
      } else {
        assert "" + x == x && "" + y == y;
      }
    }
  }

  lemma NoTrees(t: Table, limit: nat)
    requires Grounded(t) && limit <= |t|
    ensures TreesOf(t, [], limit) == ""
  {
  }

  /** The text of a type tree ends by itself, and gives the tree. */
  lemma {:induction false} TreeOnce(t: Table, i: nat, u: Table, j: nat, x: string, y: string)
    requires Grounded(t) && Grounded(u) && PlainTable(t) && PlainTable(u) && i < |t| && j < |u|
    ensures TreeBytes(t, i) + x == TreeBytes(u, j) + y <==> LooksSame(t, i, u, j) && x == y
    decreases i + 1, 0, 0
  {
    hide FieldsCrc, TreesOf, TypesLookSame, PlainFields, LeafText, SameFields;
    var d, e := t[i].details, u[j].details;
    if HasFields(d) && HasFields(e) {
      var a, b := TreesOf(t, d.fields, i), TreesOf(u, e.fields, j);
      JoinedOnce(FieldsCrc(d.fields), a, x);
      JoinedOnce(FieldsCrc(e.fields), b, y);
      FieldsOnce(d.fields, e.fields, a + x, b + y);
      if SameFields(d.fields, e.fields) {
        TreesOnce(t, d.fields, i, u, e.fields, j, x, y);
      }
    } else if HasFields(d) {
      JoinedOnce(FieldsCrc(d.fields), TreesOf(t, d.fields, i), x);
      MixedTextOnce(d.fields, u[j].crc, TreesOf(t, d.fields, i) + x, y);
      NoTrees(t, i);
      assert "" + x == x;
    } else if HasFields(e) {
      JoinedOnce(FieldsCrc(e.fields), TreesOf(u, e.fields, j), y);
      MixedTextOnce(e.fields, t[i].crc, TreesOf(u, e.fields, j) + y, x);
      NoTrees(u, j);
      assert "" + y == y;
    } else {
      LeafOnce(t[i].crc, u[j].crc, x, y);
    }
  }

  // ---- accepted files --------------------------------------------------------------------------------------------

  predicate PlainStatement(s: Statement) {
    match s
    case Define(_, fields, _) => PlainFields(fields)
    case TypedefBlock(_, fields) => PlainFields(fields)
    case Union(_, fields) => PlainFields(fields)
    case Enum(_, _, block) => forall v :: v in block ==> Identifier(v.id)
    case EnumFlag(_, _, block) => forall v :: v in block ==> Identifier(v.id)
    case _ => true
  }

  /** Every type and name in the file and in what it imports is an identifier. */
  predicate PlainFile(ss: seq<Statement>) {
    forall x :: x in ApiResults.Order(ss) ==> PlainStatement(x.s)
  }

  lemma AliasText()
    ensures LeafText("[]")
  {
    hide Listed;
    assert PlainVariants([]);
    EmptyText([]);
  }

  lemma EnumLeaf(block: seq<EnumStatement>)
    requires forall v :: v in block ==> Identifier(v.id)
    ensures LeafText(EnumCrc(block))
  {
    hide EnumCrc, Covered, VariantItems, PlainVariants;
    EnumText(block);
  }

  lemma TypePlain(s: Statement)
    requires PlainStatement(s)
    ensures PlainTable(ApiResults.TypesOf(s))
  {
    hide EnumCrc, LeafText, Covered;
    AliasText();
    if s.Enum? || s.EnumFlag? {
      EnumLeaf(s.block);
    }
  }

  lemma {:induction false} TypesPlain(order: seq<ApiResults.Placed>)
    requires forall x :: x in order ==> PlainStatement(x.s)
    ensures PlainTable(ApiResults.TypesIn(order))
    decreases |order|
  {
    hide PlainStatement, LeafText, PlainFields, ApiResults.TypesOf;
    if order != [] {
      TypesPlain(order[..|order| - 1]);
      assert order[|order| - 1] in order;
      TypePlain(order[|order| - 1].s);
    }
  }

  lemma ParsedPlain(ss: seq<Statement>)
    requires ApiParsing.Parse(ss).Ok? && PlainFile(ss)
    ensures PlainTable(ApiParsing.Parse(ss).value.table)
  {
    hide ApiParsing.Parse, ApiResults.Order, ApiResults.TypesIn, LeafText, PlainFields, PlainStatement;
    var table := ApiParsing.Parse(ss).value.table;
    ApiResults.ParsedTypes(ss);
    TypesPlain(ApiResults.Order(ss));
    forall i | 0 <= i < |table|
      ensures if HasFields(table[i].details) then PlainFields(FieldsOf(table[i].details)) else LeafText(table[i].crc)
    {
      assert ApiResults.Bare(table)[i] == ApiResults.BareEntry(table[i]);
    }
  }

  lemma GeneratedFieldsPlain()
    ensures PlainField(Field("u16", "_vl_msg_id", None)) && PlainField(Field("u32", "context", None))
    ensures PlainField(Field("i32", "retval", None)) && PlainField(Field("u32", "index", None))
  {
  }

  lemma StatementMessagesPlain(s: Statement)
    requires PlainStatement(s)
    ensures forall m :: m in ApiResults.MessagesOf(s) ==> PlainFields(m.fields)
  {
    hide PlainField;
    GeneratedFieldsPlain();
  }

  lemma {:induction false} MessagesPlain(ss: seq<Statement>)
    requires forall s :: s in ss ==> PlainStatement(s)
    ensures forall m :: m in ApiResults.MessagesIn(ss) ==> PlainFields(m.fields)
    decreases |ss|
  {
    hide PlainStatement, PlainFields, ApiResults.MessagesOf;
    if ss != [] {
      assert ss[|ss| - 1] in ss;
      MessagesPlain(ss[..|ss| - 1]);
      StatementMessagesPlain(ss[|ss| - 1]);
    }
  }

  lemma MessagePlain(ss: seq<Statement>, m: Message)
    requires ApiParsing.Parse(ss).Ok? && PlainFile(ss) && m in ApiParsing.Parse(ss).value.messages
    ensures PlainFields(m.fields)
  {
    hide ApiParsing.Parse, ApiResults.Imported, ApiResults.MessagesIn, PlainFields, PlainStatement;
    forall s | s in ss ensures PlainStatement(s) {
      var i :| 0 <= i < |ss| && ss[i] == s;
      assert ApiResults.Marked(ss, false)[i] == ApiResults.Placed(s, false);
      assert ApiResults.Placed(s, false) in ApiResults.Order(ss);
    }
    ApiResults.ParsedContents(ss);
    MessagesPlain(ss);
    var messages := ApiParsing.Parse(ss).value.messages;
    var i :| 0 <= i < |messages| && messages[i] == m;
    assert ApiResults.Shapes(messages)[i] in ApiResults.MessagesIn(ss);
  }

  /** Two messages, of any two accepted files, have the same checksum data exactly when their fields have
      the same texts and the types these refer to look the same. */
  lemma MessageCrcIff(ss: seq<Statement>, m: Message, ss': seq<Statement>, m': Message)
    requires ApiParsing.Parse(ss).Ok? && PlainFile(ss) && m in ApiParsing.Parse(ss).value.messages
    requires ApiParsing.Parse(ss').Ok? && PlainFile(ss') && m' in ApiParsing.Parse(ss').value.messages
    ensures var t, u := ApiParsing.Parse(ss).value.table, ApiParsing.Parse(ss').value.table;
      && m.fields != [] && (forall f :: f in m.fields[1..] ==> Refers(t, f, |t|))
      && m'.fields != [] && (forall g :: g in m'.fields[1..] ==> Refers(u, g, |u|))
      && (m.crc == m'.crc <==>
            && SameFields(m.fields[1..], m'.fields[1..])
            && TypesLookSame(t, m.fields[1..], |t|, u, m'.fields[1..], |u|))
  {
    hide ApiParsing.Parse, PlainFile, PlainTable, TreesOf, TypesLookSame, FieldsCrc, SameFields, Refers, PlainField;
    var t, u := ApiParsing.Parse(ss).value.table, ApiParsing.Parse(ss').value.table;
    ApiSoundness.MessageCrcCoversTree(ss, m);
    ApiSoundness.MessageCrcCoversTree(ss', m');
    ParsedPlain(ss);
    ParsedPlain(ss');
    MessagePlain(ss, m);
    MessagePlain(ss', m');
    var fs, gs := m.fields[1..], m'.fields[1..];
    var a, b := TreesOf(t, fs, |t|), TreesOf(u, gs, |u|);
    FieldsOnce(fs, gs, a, b);
    if SameFields(fs, gs) {
      TreesOnce(t, fs, |t|, u, gs, |u|, "", "");
      assert a + "" == a && b + "" == b;
    }
  }
}
