/** What a checksum text says: which declarations it tells apart, and which it does not. Names are
    identifiers, so no quote stands inside one. */
module ApiChecksums {
  import opened Optional
  import opened ApiTypes
  import ApiStatements
  import opened ApiCrc
  import ApiParsing
  import ApiSoundness

  predicate Identifier(s: string) {
    '\'' !in s
  }

  // ---- numbers ---------------------------------------------------------------------------------------

  predicate Digits(s: string) {
    forall i :: 0 <= i < |s| ==> '0' <= s[i] <= '9'
  }

  /** The number that decimal digits stand for. */
  function NumberRead(s: string): nat
    requires Digits(s)
  {
    if s == "" then 0 else 10 * NumberRead(s[..|s| - 1]) + (s[|s| - 1] as int - '0' as int)
  }

  lemma {:induction false} DecimalReads(n: nat)
    ensures Digits(Decimal(n)) && NumberRead(Decimal(n)) == n
  {
    if n >= 10 {
      DecimalReads(n / 10);
      DecimalReads(n % 10);
      var d := Decimal(n % 10);
      assert |d| == 1;
      assert (Decimal(n / 10) + d)[..|Decimal(n / 10)|] == Decimal(n / 10);
      assert d[..0] == "";
    }
  }

  // ---- delimited text ----------------------------------------------------------------------------------

  lemma StopAfter(a: string, stop: char, x: string)
    requires stop !in a
    ensures var s := a + [stop] + x;
      s[|a|] == stop && (forall i :: 0 <= i < |a| ==> s[i] != stop) && s[..|a|] == a && s[|a| + 1..] == x
  {
  }

  /** Text up to the first `stop` is read in one way. */
  lemma StopsOnce(a: string, b: string, stop: char, x: string, y: string)
    requires stop !in a && stop !in b && a + [stop] + x == b + [stop] + y
    ensures a == b && x == y
  {
    StopAfter(a, stop, x);
    StopAfter(b, stop, y);
    assert |a| == |b|;
  }

  lemma Leads(head: string, x: string, y: string)
    ensures head + x == head + y <==> x == y
  {
    assert (head + x)[|head|..] == x && (head + y)[|head|..] == y;
  }

  lemma QuotedOnce(a: string, b: string, x: string, y: string)
    requires Identifier(a) && Identifier(b)
    ensures "'" + a + "'" + x == "'" + b + "'" + y <==> a == b && x == y
  {
    assert "'" + a + "'" + x == "'" + (a + ['\''] + x);
    assert "'" + b + "'" + y == "'" + (b + ['\''] + y);
    Leads("'", a + ['\''] + x, b + ['\''] + y);
    if a + ['\''] + x == b + ['\''] + y {
      StopsOnce(a, b, '\'', x, y);
    }
  }

  lemma NumberOnce(m: nat, n: nat, stop: char, x: string, y: string)
    requires !('0' <= stop <= '9')
    ensures Decimal(m) + [stop] + x == Decimal(n) + [stop] + y <==> m == n && x == y
  {
    DecimalReads(m);
    DecimalReads(n);
    if Decimal(m) + [stop] + x == Decimal(n) + [stop] + y {
      StopsOnce(Decimal(m), Decimal(n), stop, x, y);
    }
  }

  // ---- one field -----------------------------------------------------------------------------------------

  /** The number of a size: a variable size counts as 0. */
  function NumberOf(size: Option<FieldSize>): nat {
    match size
    case Some(Fixed(n)) => n
    case _ => 0
  }

  function CountOf(size: Option<FieldSize>): Option<string> {
    match size
    case Some(Variable(count)) => count
    case _ => None
  }

  /** What the text of a field says of its size. It does not tell `[0]` from `[]`. */
  predicate SameSize(a: Option<FieldSize>, b: Option<FieldSize>) {
    a.Some? == b.Some? && NumberOf(a) == NumberOf(b) && CountOf(a) == CountOf(b)
  }

  predicate SameField(f: Field, g: Field) {
    f.ty == g.ty && f.name == g.name && SameSize(f.size, g.size)
  }

  predicate PlainSize(size: Option<FieldSize>) {
    CountOf(size).Some? ==> Identifier(CountOf(size).value)
  }

  predicate PlainField(f: Field) {
    Identifier(f.ty) && Identifier(f.name) && PlainSize(f.size)
  }

  function CountText(count: Option<string>): string {
    match count
    case None => "None"
    case Some(c) => "'" + c + "'"
  }

  lemma CountOnce(a: Option<string>, b: Option<string>, x: string, y: string)
    requires a.Some? ==> Identifier(a.value)
    requires b.Some? ==> Identifier(b.value)
    ensures CountText(a) + x == CountText(b) + y <==> a == b && x == y
  {
    if a.None? && b.None? {
      Leads("None", x, y);
    } else if a.Some? && b.Some? {
      QuotedOnce(a.value, b.value, x, y);
    } else {
      assert (CountText(a) + x)[0] == CountText(a)[0] && (CountText(b) + y)[0] == CountText(b)[0];
    }
  }

  /** What stands behind the name of a field. */
  function SizeText(size: Option<FieldSize>, x: string): string {
    if size.None? then "]" + x
    else ", " + (Decimal(NumberOf(size)) + [','] + (" " + (CountText(CountOf(size)) + ("]" + x))))
  }

  lemma SizeOnce(a: Option<FieldSize>, b: Option<FieldSize>, x: string, y: string)
    requires PlainSize(a) && PlainSize(b)
    ensures SizeText(a, x) == SizeText(b, y) <==> SameSize(a, b) && x == y
  {
    hide Decimal, CountText;
    if a.Some? && b.Some? {
      var r, s := CountText(CountOf(a)) + ("]" + x), CountText(CountOf(b)) + ("]" + y);
      Leads(", ", Decimal(NumberOf(a)) + [','] + (" " + r), Decimal(NumberOf(b)) + [','] + (" " + s));
      NumberOnce(NumberOf(a), NumberOf(b), ',', " " + r, " " + s);
      Leads(" ", r, s);
      CountOnce(CountOf(a), CountOf(b), "]" + x, "]" + y);
      Leads("]", x, y);
    } else if a.None? && b.None? {
      Leads("]", x, y);
    } else {
      assert SizeText(a, x)[0] != SizeText(b, y)[0];
    }
  }

  lemma SizeJoined(number: string, count: string, x: string)
    ensures "', " + number + ", " + count + "]" + x == "'" + (", " + (number + [','] + (" " + (count + ("]" + x)))))
  {
  }

  lemma NameJoined(ty: string, name: string, x: string)
    ensures "['" + ty + "', '" + name + ("'" + x) == "['" + ty + "'" + (", '" + name + "'" + x)
  {
  }

  lemma SizedText(f: Field, number: string, count: string, x: string)
    ensures "['" + f.ty + "', '" + f.name + "', " + number + ", " + count + "]" + x
         == "['" + f.ty + "'" + (", '" + f.name + "'" + (", " + (number + [','] + (" " + (count + ("]" + x))))))
  {
    var head, rest := "['" + f.ty + "', '" + f.name, ", " + (number + [','] + (" " + (count + ("]" + x))));
    SizeJoined(number, count, x);
    NameJoined(f.ty, f.name, rest);
    assert head + "', " + number + ", " + count + "]" + x == head + ("', " + number + ", " + count + "]" + x);
  }

  lemma SizedCrc(f: Field)
    requires f.size.Some?
    ensures FieldCrc(f) == "['" + f.ty + "', '" + f.name + "', " + Decimal(NumberOf(f.size)) + ", " + CountText(CountOf(f.size)) + "]"
  {
    var head := "['" + f.ty + "', '" + f.name;
    assert Decimal(0) == "0";
    match f.size.value
    case Fixed(n) => assert head + "', " + Decimal(n) + ", None]" == head + "', " + Decimal(n) + ", " + "None" + "]";
    case Variable(None) => assert head + "', 0, None]" == head + "', " + "0" + ", " + "None" + "]";
    case Variable(Some(c)) => assert head + "', 0, '" + c + "']" == head + "', " + "0" + ", " + ("'" + c + "'") + "]";
  }

  lemma FieldText(f: Field, x: string)
    ensures FieldCrc(f) + x == "['" + f.ty + "'" + (", '" + f.name + "'" + SizeText(f.size, x))
  {
    hide Decimal, CountText;
    if f.size.Some? {
      SizedCrc(f);
      SizedText(f, Decimal(NumberOf(f.size)), CountText(CountOf(f.size)), x);
    } else {
      NameJoined(f.ty, f.name, "]" + x);
      assert FieldCrc(f) + x == "['" + f.ty + "', '" + f.name + ("'" + ("]" + x));
    }
  }

  /** The text of a field ends by itself, and gives its type, its name and its size. */
  lemma FieldOnce(f: Field, g: Field, x: string, y: string)
    requires PlainField(f) && PlainField(g)
    ensures FieldCrc(f) + x == FieldCrc(g) + y <==> SameField(f, g) && x == y
  {
    hide FieldCrc, SizeText, SameSize;
    FieldText(f, x);
    FieldText(g, y);
    var r, s := "'" + f.name + "'" + SizeText(f.size, x), "'" + g.name + "'" + SizeText(g.size, y);
    assert FieldCrc(f) + x == "[" + ("'" + f.ty + "'" + (", " + r));
    assert FieldCrc(g) + y == "[" + ("'" + g.ty + "'" + (", " + s));
    Leads("[", "'" + f.ty + "'" + (", " + r), "'" + g.ty + "'" + (", " + s));
    QuotedOnce(f.ty, g.ty, ", " + r, ", " + s);
    Leads(", ", r, s);
    QuotedOnce(f.name, g.name, SizeText(f.size, x), SizeText(g.size, y));
    SizeOnce(f.size, g.size, x, y);
  }

  // ---- lists -----------------------------------------------------------------------------------------------

  /** The text of a list and what follows it, item by item. */
  function ItemsText(items: seq<string>, x: string): string {
    if items == [] then "]" + x
    else items[0] + if |items| == 1 then "]" + x else ", " + ItemsText(items[1..], x)
  }

  lemma {:induction false} ListedText(items: seq<string>, x: string)
    ensures Join(items) + "]" + x == ItemsText(items, x)
    ensures Listed(items) + x == "[" + ItemsText(items, x)
  {
    if |items| > 1 {
      ListedText(items[1..], x);
      assert Join(items) + "]" + x == items[0] + (", " + (Join(items[1..]) + "]" + x));
    } else if |items| == 1 {
      assert Join(items) + "]" + x == items[0] + ("]" + x);
    } else {
      assert Join(items) + "]" + x == "]" + x;
    }
    assert Listed(items) + x == "[" + (Join(items) + "]" + x);
  }

  /** No item of one list begins another item of the other. */
  predicate EndByThemselves(a: seq<string>, b: seq<string>) {
    && (forall i :: 0 <= i < |a| ==> a[i] != "" && a[i][0] == '[')
    && (forall j :: 0 <= j < |b| ==> b[j] != "" && b[j][0] == '[')
    && forall i, j :: 0 <= i < |a| && 0 <= j < |b| && (a[i] <= b[j] || b[j] <= a[i]) ==> a[i] == b[j]
  }

  lemma SplitsOnce(s: string, t: string, x: string, y: string)
    requires s <= t || t <= s ==> s == t
    ensures s + x == t + y <==> s == t && x == y
  {
    if s + x == t + y {
      assert (s + x)[..|s|] == s && (t + y)[..|t|] == t;
      assert (s + x)[|s|..] == x && (t + y)[|t|..] == y;
      assert |s| <= |t| ==> s == t[..|s|];
      assert |t| <= |s| ==> t == s[..|t|];
    }
  }

  lemma {:induction false} ItemsOnce(a: seq<string>, b: seq<string>, x: string, y: string)
    requires EndByThemselves(a, b)
    ensures ItemsText(a, x) == ItemsText(b, y) <==> a == b && x == y
  {
    Leads("]", x, y);
    if a != [] && b != [] {
      var r := if |a| == 1 then "]" + x else ", " + ItemsText(a[1..], x);
      var s := if |b| == 1 then "]" + y else ", " + ItemsText(b[1..], y);
      SplitsOnce(a[0], b[0], r, s);
      assert a == [a[0]] + a[1..] && b == [b[0]] + b[1..];
      if |a| > 1 && |b| > 1 {
        Leads(", ", ItemsText(a[1..], x), ItemsText(b[1..], y));
        ItemsOnce(a[1..], b[1..], x, y);
      } else if |a| != |b| {
        assert r[0] != s[0];
      }
    } else if a != [] {
      assert ItemsText(a, x)[0] == '[' && ItemsText(b, y)[0] == ']';
    } else if b != [] {
      assert ItemsText(a, x)[0] == ']' && ItemsText(b, y)[0] == '[';
    }
  }

  lemma ListedOnce(a: seq<string>, b: seq<string>, x: string, y: string)
    requires EndByThemselves(a, b)
    ensures Listed(a) + x == Listed(b) + y <==> a == b && x == y
  {
    hide Listed;
    ListedText(a, x);
    ListedText(b, y);
    Leads("[", ItemsText(a, x), ItemsText(b, y));
    ItemsOnce(a, b, x, y);
  }

  // ---- field lists -------------------------------------------------------------------------------------------

  predicate PlainFields(fields: seq<Field>) {
    forall f :: f in fields ==> PlainField(f)
  }

  predicate SameFields(a: seq<Field>, b: seq<Field>) {
    |a| == |b| && forall i :: 0 <= i < |a| ==> SameField(a[i], b[i])
  }

  lemma FieldItem(f: Field, g: Field)
    requires PlainField(f) && PlainField(g)
    ensures FieldCrc(f) != "" && FieldCrc(f)[0] == '['
    ensures FieldCrc(f) <= FieldCrc(g) || FieldCrc(g) <= FieldCrc(f) ==> FieldCrc(f) == FieldCrc(g)
    ensures FieldCrc(f) == FieldCrc(g) <==> SameField(f, g)
  {
    FieldText(f, "");
    hide FieldCrc, SameField, SizeText;
    var s, t := FieldCrc(f), FieldCrc(g);
    assert s + "" == s && t + "" == t;
    FieldOnce(f, g, "", "");
    if s <= t {
      assert s + t[|s|..] == t;
      FieldOnce(f, g, t[|s|..], "");
    }
    if t <= s {
      assert t + s[|t|..] == s;
      FieldOnce(f, g, "", s[|t|..]);
    }
  }

  lemma FieldItemsEnd(a: seq<Field>, b: seq<Field>)
    requires PlainFields(a) && PlainFields(b)
    ensures EndByThemselves(FieldItems(a), FieldItems(b))
    ensures FieldItems(a) == FieldItems(b) <==> SameFields(a, b)
  {
    hide FieldCrc, SameField, PlainField;
    forall i | 0 <= i < |a| ensures FieldCrc(a[i]) != "" && FieldCrc(a[i])[0] == '[' {
      FieldItem(a[i], a[i]);
    }
    forall j | 0 <= j < |b| ensures FieldCrc(b[j]) != "" && FieldCrc(b[j])[0] == '[' {
      FieldItem(b[j], b[j]);
    }
    forall i, j | 0 <= i < |a| && 0 <= j < |b|
      ensures FieldCrc(a[i]) <= FieldCrc(b[j]) || FieldCrc(b[j]) <= FieldCrc(a[i]) ==> FieldCrc(a[i]) == FieldCrc(b[j])
      ensures FieldCrc(a[i]) == FieldCrc(b[j]) <==> SameField(a[i], b[j])
    {
      FieldItem(a[i], b[j]);
    }
    if FieldItems(a) == FieldItems(b) {
      assert |a| == |FieldItems(a)| == |b|;
      forall i | 0 <= i < |a| ensures SameField(a[i], b[i]) {
        assert FieldItems(a)[i] == FieldItems(b)[i];
      }
    }
  }

  lemma FieldsOnce(a: seq<Field>, b: seq<Field>, x: string, y: string)
    requires PlainFields(a) && PlainFields(b)
    ensures FieldsCrc(a) + x == FieldsCrc(b) + y <==> SameFields(a, b) && x == y
  {
    hide FieldItems, Listed, SameFields, PlainFields, EndByThemselves;
    FieldItemsEnd(a, b);
    ListedOnce(FieldItems(a), FieldItems(b), x, y);
  }

  /** Two field lists have one checksum text exactly when they agree field by field on the type, the
      name, the presence of a size, its number and its count. */
  lemma FieldsCrcIff(a: seq<Field>, b: seq<Field>)
    requires PlainFields(a) && PlainFields(b)
    ensures FieldsCrc(a) == FieldsCrc(b) <==> SameFields(a, b)
  {
    hide FieldsCrc, SameFields, PlainFields;
    FieldsOnce(a, b, "", "");
    assert FieldsCrc(a) + "" == FieldsCrc(a) && FieldsCrc(b) + "" == FieldsCrc(b);
  }

  // ---- enums ---------------------------------------------------------------------------------------------------

  /** The variants that are not marked backwards compatible, with their values. */
  function Covered(vs: seq<EnumStatement>, variants: seq<EnumVariant>): seq<EnumVariant>
    requires |vs| == |variants|
  {
    if vs == [] then []
    else (if "backwards_compatible" in vs[0].options then [] else [variants[0]]) + Covered(vs[1..], variants[1..])
  }

  predicate PlainVariants(vs: seq<EnumVariant>) {
    forall v :: v in vs ==> Identifier(v.id)
  }

  function VariantItems(vs: seq<EnumVariant>): seq<string> {
    seq(|vs|, i requires 0 <= i < |vs| => Item(vs[i].id, vs[i].value))
  }

  lemma {:induction false} CoveredItems(vs: seq<EnumStatement>, variants: seq<EnumVariant>)
    requires |vs| == |variants|
    ensures ItemsOf(vs, variants) == VariantItems(Covered(vs, variants))
  {
    hide Item;
    if vs != [] {
      CoveredItems(vs[1..], variants[1..]);
    }
  }

  lemma {:induction false} CoveredPlain(vs: seq<EnumStatement>, variants: seq<EnumVariant>)
    requires |vs| == |variants| && forall i :: 0 <= i < |vs| ==> variants[i].id == vs[i].id
    requires forall v :: v in vs ==> Identifier(v.id)
    ensures PlainVariants(Covered(vs, variants))
  {
    if vs != [] {
      assert vs[0] in vs;
      CoveredPlain(vs[1..], variants[1..]);
    }
  }

  /** The text of an enum lists its covered variants. */
  lemma EnumText(vs: seq<EnumStatement>)
    requires forall v :: v in vs ==> Identifier(v.id)
    ensures PlainVariants(Covered(vs, Variants(vs, 0)))
    ensures EnumCrc(vs) == Listed(VariantItems(Covered(vs, Variants(vs, 0))))
  {
    hide Listed, ItemsOf, VariantItems, PlainVariants, EnumItems;
    NumberingAgrees(vs, 0);
    CoveredItems(vs, Variants(vs, 0));
    forall i | 0 <= i < |vs| ensures Variants(vs, 0)[i].id == vs[i].id {
      VariantsByIndex(vs, i);
    }
    CoveredPlain(vs, Variants(vs, 0));
  }

  lemma VariantText(v: EnumVariant, x: string)
    ensures Item(v.id, v.value) + x == "[" + ("'" + v.id + "'" + (", " + (Decimal(v.value) + [']'] + x)))
  {
    hide Decimal;
  }

  lemma VariantOnce(v: EnumVariant, w: EnumVariant, x: string, y: string)
    requires Identifier(v.id) && Identifier(w.id)
    ensures Item(v.id, v.value) + x == Item(w.id, w.value) + y <==> v == w && x == y
  {
    hide Item, Decimal;
    VariantText(v, x);
    VariantText(w, y);
    var r, s := Decimal(v.value) + [']'] + x, Decimal(w.value) + [']'] + y;
    Leads("[", "'" + v.id + "'" + (", " + r), "'" + w.id + "'" + (", " + s));
    QuotedOnce(v.id, w.id, ", " + r, ", " + s);
    Leads(", ", r, s);
    NumberOnce(v.value, w.value, ']', x, y);
  }

  lemma VariantItem(v: EnumVariant, w: EnumVariant)
    requires Identifier(v.id) && Identifier(w.id)
    ensures Item(v.id, v.value) != "" && Item(v.id, v.value)[0] == '['
    ensures Item(v.id, v.value) <= Item(w.id, w.value) || Item(w.id, w.value) <= Item(v.id, v.value) ==>
      Item(v.id, v.value) == Item(w.id, w.value)
    ensures Item(v.id, v.value) == Item(w.id, w.value) <==> v == w
  {
    VariantText(v, "");
    hide Item;
    var s, t := Item(v.id, v.value), Item(w.id, w.value);
    assert s + "" == s && t + "" == t;
    VariantOnce(v, w, "", "");
    if s <= t {
      assert s + t[|s|..] == t;
      VariantOnce(v, w, t[|s|..], "");
    }
    if t <= s {
      assert t + s[|t|..] == s;
      VariantOnce(v, w, "", s[|t|..]);
    }
  }

  lemma VariantItemsEnd(a: seq<EnumVariant>, b: seq<EnumVariant>)
    requires PlainVariants(a) && PlainVariants(b)
    ensures EndByThemselves(VariantItems(a), VariantItems(b))
    ensures VariantItems(a) == VariantItems(b) <==> a == b
  {
    hide Item, Identifier;
    forall i | 0 <= i < |a| ensures Item(a[i].id, a[i].value) != "" && Item(a[i].id, a[i].value)[0] == '[' {
      VariantItem(a[i], a[i]);
    }
    forall j | 0 <= j < |b| ensures Item(b[j].id, b[j].value) != "" && Item(b[j].id, b[j].value)[0] == '[' {
      VariantItem(b[j], b[j]);
    }
    forall i, j | 0 <= i < |a| && 0 <= j < |b|
      ensures Item(a[i].id, a[i].value) <= Item(b[j].id, b[j].value) || Item(b[j].id, b[j].value) <= Item(a[i].id, a[i].value) ==>
        Item(a[i].id, a[i].value) == Item(b[j].id, b[j].value)
      ensures Item(a[i].id, a[i].value) == Item(b[j].id, b[j].value) <==> a[i] == b[j]
    {
      VariantItem(a[i], b[j]);
    }
    if VariantItems(a) == VariantItems(b) {
      assert |a| == |VariantItems(a)| == |b|;
      forall i | 0 <= i < |a| ensures a[i] == b[i] {
        assert VariantItems(a)[i] == VariantItems(b)[i];
      }
    }
  }

  /** Two enums have one checksum text exactly when their variants, without those marked backwards
      compatible, have the same names and values in the same order. */
  lemma EnumCrcIff(a: seq<EnumStatement>, b: seq<EnumStatement>)
    requires forall v :: v in a || v in b ==> Identifier(v.id)
    ensures EnumCrc(a) == EnumCrc(b) <==> Covered(a, Variants(a, 0)) == Covered(b, Variants(b, 0))
  {
    hide EnumCrc, Listed, VariantItems, PlainVariants, Covered, EndByThemselves;
    EnumText(a);
    EnumText(b);
    var c, d := Covered(a, Variants(a, 0)), Covered(b, Variants(b, 0));
    VariantItemsEnd(c, d);
    ListedOnce(VariantItems(c), VariantItems(d), "", "");
    assert EnumCrc(a) + "" == EnumCrc(a) && EnumCrc(b) + "" == EnumCrc(b);
  }

  // ---- files ---------------------------------------------------------------------------------------------------

  /** The checksum text of a file joins those of its statements. Imports and services leave none. */
  lemma {:induction false} FileCrcJoins(a: seq<ApiStatements.Statement>, b: seq<ApiStatements.Statement>)
    ensures ApiParsing.FileCrc(a + b) == ApiParsing.FileCrc(a) + ApiParsing.FileCrc(b)
    decreases |b|
  {
    hide ApiParsing.StatementCrc;
    if b == [] {
      assert a + b == a;
    } else {
      assert (a + b)[..|a + b| - 1] == a + b[..|b| - 1];
      FileCrcJoins(a, b[..|b| - 1]);
    }
  }

  lemma FileCrcOfOne(s: ApiStatements.Statement)
    ensures ApiParsing.FileCrc([s]) ==
      match s
      case Define(_, fields, _) => FieldsCrc(fields)
      case TypedefBlock(_, fields) => FieldsCrc(fields)
      case Union(_, fields) => FieldsCrc(fields)
      case Typedef(_) => "[]"
      case Enum(_, _, block) => EnumCrc(block)
      case EnumFlag(_, _, block) => EnumCrc(block)
      case OptionStatement(option) => option
      case Import(_, _) => ""
      case Services(_) => ""
  {
    assert [s][..0] == [];
  }
}
