/** Schemas that the strict rewrite can only narrow: whatever the rewritten one accepts, the original accepts. */
module SchemaNarrowing {
  import opened Options
  import opened JsonValues
  import opened StrictSchema
  import opened SchemaMeaning

  // ----- Where the rewrite can only narrow

  /** No keyword that turns a narrower part into a wider whole, wherever a schema stands, and none that is not
      given a meaning here. */
  ghost predicate Positive(d: Dialect, node: Json)
    decreases node, 1
  {
    match node
    case Arr(items) => forall i :: 0 <= i < |items| ==> Positive(d, items[i])
    case Obj(fields) =>
      && At(fields, Not).None? && At(fields, OneOf).None?
      && (At(fields, Contains).Some? ==> At(fields, MaxContains).None?)
      && forall i :: 0 <= i < |fields| ==>
           && !Unread(KeywordOf(fields[i].key)) && PositiveAt(d, KeywordOf(fields[i].key), fields[i].value)
           && (KeywordOf(fields[i].key) == If ==> Steady(d, fields, fields[i].value))
    case _ => true
  }

  /** An "if" that decides about a "then" must not be narrowed by rewritten definitions. */
  ghost predicate Steady(d: Dialect, fields: seq<Field>, condition: Json) {
    At(fields, Then).Some? ==> Unmoved(d, condition)
  }

  /** Parts that are schemas and that the walk does not look into. */
  predicate Beside(k: Keyword) {
    k == AdditionalProperties || k == PropertyNames || k == Then || k == Else
  }

  ghost predicate PositiveAt(d: Dialect, k: Keyword, v: Json)
    decreases v, 2
  {
    if (HoldsTable(k) || k == DependentSchemas) && v.Obj? then TablePositive(d, v.fields)
    else if k == If then Unmoved(d, v) || Positive(d, v)
    else if Beside(k) || HoldsSchema(k) || (HoldsList(k) && v.Arr?) then Positive(d, v)
    else true
  }

  ghost predicate TablePositive(d: Dialect, table: seq<Field>)
    decreases table, 0
  {
    forall i :: 0 <= i < |table| ==> assert table[i].value < table[i]; Positive(d, table[i].value)
  }

  /** Nothing is required that is not declared, at every node the walk closes. */
  ghost predicate Declared(node: Json)
    decreases node, 1
  {
    match node
    case Arr(items) => forall i :: 0 <= i < |items| ==> Declared(items[i])
    case Obj(fields) =>
      && (Closing(fields) ==> AllNamed(ItemsAt(fields, Required), TableAt(fields, Properties)))
      && forall i :: 0 <= i < |fields| ==> DeclaredAt(KeywordOf(fields[i].key), fields[i].value)
    case _ => true
  }

  ghost predicate DeclaredAt(k: Keyword, v: Json)
    decreases v, 2
  {
    if HoldsTable(k) && v.Obj? then TableDeclared(v.fields)
    else if HoldsSchema(k) || (HoldsList(k) && v.Arr?) then Declared(v)
    else true
  }

  ghost predicate TableDeclared(table: seq<Field>)
    decreases table, 0
  {
    forall i :: 0 <= i < |table| ==> assert table[i].value < table[i]; Declared(table[i].value)
  }

  ghost predicate Monotone(d: Dialect, node: Json) {
    Parsed(node) && Positive(d, node) && Declared(node)
  }

  ghost predicate MonotoneDefinitions(d: Dialect) {
    forall r :: r in d.definitions ==> Monotone(d, d.definitions[r])
  }

  // ----- What one keyword reads of its siblings is the same before and after

  /** A part the walk reaches is rewritten; a part it does not reach only sees rewritten definitions. */
  function Maybe(walked: bool, s: Json): Json {
    if walked then Strictify(s) else s
  }

  function MaybeAt(walked: bool, k: Keyword, v: Json): Json {
    if walked then StrictifyAt(k, v) else v
  }

  function MaybeTable(walked: bool, table: seq<Field>): (r: seq<Field>)
    ensures |r| == |table|
    ensures forall i :: 0 <= i < |r| ==> r[i] == Field(table[i].key, Maybe(walked, table[i].value))
  {
    if walked then StrictifyTable(table) else table
  }

  function MaybeItems(walked: bool, items: seq<Json>): (r: seq<Json>)
    ensures |r| == |items|
    ensures forall i :: 0 <= i < |r| ==> r[i] == Maybe(walked, items[i])
  {
    if walked then StrictifyItems(items) else items
  }

  function AtMaybe(walked: bool, fields: seq<Field>, k: Keyword): Option<Json> {
    match At(fields, k) case None => None case Some(v) => Some(MaybeAt(walked, k, v))
  }

  /** All that narrowing needs to know of a node r that stands for the node of the given fields. */
  ghost predicate StandsFor(walked: bool, fields: seq<Field>, r: seq<Field>) {
    && |fields| <= |r|
    && (forall k :: k != AdditionalProperties && k != Required ==> At(r, k) == AtMaybe(walked, fields, k))
    && (forall i :: 0 <= i < |fields| ==>
          && r[i].key == fields[i].key
          && Rewritten(walked, fields, KeywordOf(fields[i].key), fields[i].value, r[i].value))
  }

  /** w stands for the value v of keyword k. */
  ghost predicate Rewritten(walked: bool, fields: seq<Field>, k: Keyword, v: Json, w: Json) {
    if walked && Closing(fields) && k == AdditionalProperties then w == Bool(false)
    else if walked && Closing(fields) && k == Required then w == Arr(Names(TableAt(fields, Properties)))
    else w == MaybeAt(walked, k, v)
  }

  lemma RewriteStandsFor(walked: bool, fields: seq<Field>)
    requires Distinct(fields)
    ensures StandsFor(walked, fields, if walked then Strictify(Obj(fields)).fields else fields)
  {
    if walked {
      var r := Strictify(Obj(fields)).fields;
      forall k | k != AdditionalProperties && k != Required
        ensures At(r, k) == AtMaybe(walked, fields, k)
      {
        AtRewritten(fields, k);
      }
      RewriteNotShorter(fields);
      forall i | 0 <= i < |fields|
        ensures r[i].key == fields[i].key
        ensures Rewritten(walked, fields, KeywordOf(fields[i].key), fields[i].value, r[i].value)
      {
        RewrittenIndex(fields, i);
      }
    }
  }

  lemma RewriteNotShorter(fields: seq<Field>)
    ensures |fields| <= |Strictify(Obj(fields)).fields|
  {
    var w := StrictifyFields(fields);
    if Closing(fields) {
      assert |w| <= |CloseWith(w, At(fields, Properties).value.fields)|;
    }
  }

  lemma TableKept(walked: bool, fields: seq<Field>, r: seq<Field>, k: Keyword)
    requires StandsFor(walked, fields, r) && (k == Properties || k == PatternProperties)
    ensures TableAt(r, k) == MaybeTable(walked, TableAt(fields, k))
  {
    hide Strictify, StrictifyTable, At, Rewritten;
    assert At(r, k) == AtMaybe(walked, fields, k);
  }

  lemma MaybeArr(walked: bool, k: Keyword, v: Json)
    requires HoldsList(k) || HoldsSchema(k)
    ensures if v.Arr? then MaybeAt(walked, k, v) == Arr(MaybeItems(walked, v.items)) else !MaybeAt(walked, k, v).Arr?
  {
    hide Strictify, StrictifyItems, StrictifyTable, StrictifyAt;
    if walked && (HoldsSchema(k) || v.Arr?) {
      WalkedIs(k, v);
      StrictifyArr(v);
    } else {
      NotWalkedIs(walked, k, v);
    }
  }

  lemma WalkedIs(k: Keyword, v: Json)
    requires HoldsSchema(k) || (HoldsList(k) && v.Arr?)
    ensures StrictifyAt(k, v) == Strictify(v)
  {
    hide Strictify, StrictifyTable;
  }

  lemma NotWalkedIs(walked: bool, k: Keyword, v: Json)
    requires HoldsList(k) || HoldsSchema(k)
    requires !walked || (!HoldsSchema(k) && !v.Arr?)
    ensures MaybeAt(walked, k, v) == v
  {
    hide Strictify, StrictifyTable;
  }

  lemma StrictifyArr(v: Json)
    ensures if v.Arr? then Strictify(v) == Arr(StrictifyItems(v.items)) else !Strictify(v).Arr?
  {
  }

  lemma ItemsKept(walked: bool, fields: seq<Field>, r: seq<Field>, k: Keyword)
    requires StandsFor(walked, fields, r) && (k == PrefixItems || k == Items)
    ensures |ItemsAt(r, k)| == |ItemsAt(fields, k)|
    ensures k == Items ==> (Positional(r) <==> Positional(fields))
  {
    assert At(r, k) == AtMaybe(walked, fields, k);
    if At(fields, k).Some? {
      MaybeArr(walked, k, At(fields, k).value);
    }
  }

  lemma AdditionalKept(d: Dialect, walked: bool, fields: seq<Field>, r: seq<Field>, key: Text)
    requires StandsFor(walked, fields, r)
    ensures Additional(d, fields, key) <==> Additional(StrictDialect(d), r, key)
  {
    TableKept(walked, fields, r, Properties);
    TableKept(walked, fields, r, PatternProperties);
    NamedKept(walked, TableAt(fields, Properties), key);
    MatchedKept(d, walked, TableAt(fields, PatternProperties), key);
  }

  lemma NamedKept(walked: bool, table: seq<Field>, key: Text)
    ensures Named(table, key) <==> Named(MaybeTable(walked, table), key)
  {
    var r := MaybeTable(walked, table);
    if i :| 0 <= i < |table| && table[i].key == key {
      assert r[i].key == key;
    }
  }

  lemma MatchedKept(d: Dialect, walked: bool, table: seq<Field>, key: Text)
    ensures Matched(d, table, key) <==> Matched(StrictDialect(d), MaybeTable(walked, table), key)
  {
    var r := MaybeTable(walked, table);
    assert forall i :: 0 <= i < |table| ==> r[i].key == table[i].key;
  }

  /** What the keywords of a node read of their siblings. */
  ghost predicate SiblingsAgree(d: Dialect, fields: seq<Field>, r: seq<Field>) {
    && |ItemsAt(r, PrefixItems)| == |ItemsAt(fields, PrefixItems)|
    && |ItemsAt(r, Items)| == |ItemsAt(fields, Items)|
    && (Positional(r) <==> Positional(fields))
    && At(r, MinContains) == At(fields, MinContains)
    && At(r, MaxContains) == At(fields, MaxContains)
    && forall key :: Additional(d, fields, key) <==> Additional(StrictDialect(d), r, key)
  }

  lemma SiblingsDoAgree(d: Dialect, walked: bool, fields: seq<Field>, r: seq<Field>)
    requires StandsFor(walked, fields, r)
    ensures SiblingsAgree(d, fields, r)
  {
    ItemsKept(walked, fields, r, PrefixItems);
    ItemsKept(walked, fields, r, Items);
    BoundKept(walked, fields, r, MinContains);
    BoundKept(walked, fields, r, MaxContains);
    forall key
      ensures Additional(d, fields, key) <==> Additional(StrictDialect(d), r, key)
    {
      AdditionalKept(d, walked, fields, r, key);
    }
  }

  lemma BoundKept(walked: bool, fields: seq<Field>, r: seq<Field>, k: Keyword)
    requires At(r, k) == AtMaybe(walked, fields, k) && (k == MinContains || k == MaxContains)
    ensures At(r, k) == At(fields, k)
  {
  }

  // ----- Narrowing

  ghost predicate CanNarrow(d: Dialect, walked: bool, s: Json) {
    Parsed(s) && Positive(d, s) && (walked ==> Declared(s)) && MonotoneDefinitions(d)
  }

  ghost predicate AllCanNarrow(d: Dialect, walked: bool, schemas: seq<Json>) {
    forall j :: 0 <= j < |schemas| ==> CanNarrow(d, walked, schemas[j])
  }

  ghost predicate TableCanNarrow(d: Dialect, walked: bool, table: seq<Field>) {
    forall j :: 0 <= j < |table| ==> CanNarrow(d, walked, table[j].value)
  }

  ghost predicate ValueCanNarrow(d: Dialect, walked: bool, k: Keyword, v: Json) {
    && (HoldsTable(k) && v.Obj? ==> TableCanNarrow(d, walked, v.fields))
    && (HoldsSchema(k) || (HoldsList(k) && v.Arr?) ==>
          CanNarrow(d, walked, v) && (v.Arr? ==> AllCanNarrow(d, walked, v.items)))
    && (k == DependentSchemas && v.Obj? ==> TableCanNarrow(d, false, v.fields))
    && (Beside(k) ==> CanNarrow(d, false, v))
    && (k == If ==> Unmoved(d, v) || CanNarrow(d, false, v))
  }

  ghost predicate Narrowable(d: Dialect, walked: bool, fields: seq<Field>, k: Keyword, v: Json) {
    && k != Not && k != OneOf && !Unread(k)
    && (k == If ==> Steady(d, fields, v))
    && (k == Contains ==> At(fields, MaxContains).None?)
    && (k == Required && walked && Closing(fields) && v.Arr? ==> AllNamed(v.items, TableAt(fields, Properties)))
    && ValueCanNarrow(d, walked, k, v)
  }

  lemma PartsCanNarrow(d: Dialect, walked: bool, fields: seq<Field>, i: nat)
    requires CanNarrow(d, walked, Obj(fields)) && i < |fields|
    ensures Narrowable(d, walked, fields, KeywordOf(fields[i].key), fields[i].value)
  {
    hide MonotoneDefinitions, AllNamed, ValueCanNarrow, Steady;
    var k, v := KeywordOf(fields[i].key), fields[i].value;
    if k != Plain {
      AtIndex(fields, i);
    }
    assert Parsed(v) && PositiveAt(d, k, v) && (walked ==> DeclaredAt(k, v));
    ValueParts(d, walked, k, v);
  }

  lemma ValueParts(d: Dialect, walked: bool, k: Keyword, v: Json)
    requires MonotoneDefinitions(d) && Parsed(v) && PositiveAt(d, k, v) && (walked ==> DeclaredAt(k, v))
    ensures ValueCanNarrow(d, walked, k, v)
  {
    hide MonotoneDefinitions, TablePositive, TableDeclared, TableCanNarrow, Positive, Declared, Parsed, AllCanNarrow;
    if v.Arr? && (HoldsSchema(k) || HoldsList(k)) {
      ListParts(d, walked, v.items);
    }
    if HoldsTable(k) && v.Obj? {
      TableParts(d, walked, v.fields);
    }
    if k == DependentSchemas && v.Obj? {
      TableParts(d, false, v.fields);
    }
  }

  lemma ListParts(d: Dialect, walked: bool, items: seq<Json>)
    requires CanNarrow(d, walked, Arr(items))
    ensures AllCanNarrow(d, walked, items)
  {
    hide MonotoneDefinitions;
  }

  lemma TableParts(d: Dialect, walked: bool, table: seq<Field>)
    requires MonotoneDefinitions(d)
    requires Parsed(Obj(table)) && TablePositive(d, table) && (walked ==> TableDeclared(table))
    ensures TableCanNarrow(d, walked, table)
  {
  }

  /** The rewritten schema accepts no instance the original refuses. */
  lemma {:induction false} Narrow(d: Dialect, walked: bool, s: Json, x: Json, depth: nat)
    requires CanNarrow(d, walked, s)
    requires Accepts(StrictDialect(d), Maybe(walked, s), x, depth)
    ensures Accepts(d, s, x, depth)
    decreases depth, s, 1
  {
    match s
    case Obj(fields) =>
      RewriteStandsFor(walked, fields);
      var r := if walked then Strictify(s).fields else fields;
      NarrowNode(d, walked, fields, r, x, depth);
    case _ =>
  }

  lemma {:induction false} NarrowNode(d: Dialect, walked: bool, fields: seq<Field>, r: seq<Field>, x: Json, depth: nat)
    requires CanNarrow(d, walked, Obj(fields)) && StandsFor(walked, fields, r)
    requires Accepts(StrictDialect(d), Obj(r), x, depth)
    ensures Accepts(d, Obj(fields), x, depth)
    decreases depth, fields, 2
  {
    SiblingsDoAgree(d, walked, fields, r);
    forall i | 0 <= i < |fields|
      ensures AcceptsField(d, fields, fields[i], x, depth)
    {
      assert AcceptsField(StrictDialect(d), r, r[i], x, depth);
      PartsCanNarrow(d, walked, fields, i);
      NarrowField(d, walked, fields, r, fields[i], r[i], x, depth);
    }
    NarrowChoice(d, walked, fields, r, x, depth);
  }

  lemma {:induction false} NarrowChoice(d: Dialect, walked: bool, fields: seq<Field>, r: seq<Field>, x: Json,
                                        depth: nat)
    requires CanNarrow(d, walked, Obj(fields)) && StandsFor(walked, fields, r)
    requires AcceptsChoice(StrictDialect(d), r, x, depth)
    ensures AcceptsChoice(d, fields, x, depth)
    decreases depth, fields, 1
  {
    hide CanNarrow, Accepts, StandsFor, StrictDialect, Unmoved;
    var e := StrictDialect(d);
    forall i, j | 0 <= i < |fields| && 0 <= j < |fields| && KeywordOf(fields[i].key) == If
                  && Chosen(KeywordOf(fields[j].key), Accepts(d, fields[i].value, x, depth))
      ensures Accepts(d, fields[j].value, x, depth)
    {
      PartsCanNarrow(d, walked, fields, i);
      PartsCanNarrow(d, walked, fields, j);
      PartStays(walked, fields, r, i);
      PartStays(walked, fields, r, j);
      assert fields[i].value < fields[i] && fields[j].value < fields[j];
      var condition, part := fields[i].value, fields[j].value;
      if Unmoved(d, condition) {
        UnmovedSame(d, condition, x, depth);
      } else if Accepts(e, condition, x, depth) {
        Narrow(d, false, condition, x, depth);
      }
      if At(fields, Then).None? {
        assert KeywordOf(fields[j].key) != Then;
      }
      assert Chosen(KeywordOf(fields[j].key), Accepts(e, condition, x, depth));
      assert Accepts(e, r[j].value, x, depth);
      Narrow(d, false, part, x, depth);
    }
  }

  /** The three parts of a choice are not walked. */
  lemma PartStays(walked: bool, fields: seq<Field>, r: seq<Field>, i: nat)
    requires StandsFor(walked, fields, r) && i < |fields| && KeywordOf(fields[i].key) in {If, Then, Else}
    ensures i < |r| && r[i] == fields[i]
  {
    UnwalkedKey(KeywordOf(fields[i].key), fields[i].value);
    assert Rewritten(walked, fields, KeywordOf(fields[i].key), fields[i].value, r[i].value);
  }

  lemma PlainStays(walked: bool, fields: seq<Field>, v: Json, w: Json)
    requires Rewritten(walked, fields, Plain, v, w)
    ensures w == v
  {
  }


  lemma {:induction false} NarrowField(d: Dialect, walked: bool, fields: seq<Field>, r: seq<Field>,
                                       f: Field, g: Field, x: Json, depth: nat)
    requires MonotoneDefinitions(d) && SiblingsAgree(d, fields, r)
    requires Narrowable(d, walked, fields, KeywordOf(f.key), f.value) && !Unread(KeywordOf(f.key))
    requires g.key == f.key && Rewritten(walked, fields, KeywordOf(f.key), f.value, g.value)
    requires AcceptsField(StrictDialect(d), r, g, x, depth)
    ensures AcceptsField(d, fields, f, x, depth)
    decreases depth, f, 0
  {
    hide Narrowable, SiblingsAgree, Rewritten, AcceptsKeyword, MonotoneDefinitions;
    if KeywordOf(f.key) == Plain {
      PlainStays(walked, fields, f.value, g.value);
    } else {
      NarrowKeyword(d, walked, fields, r, KeywordOf(f.key), f.value, g.value, x, depth);
    }
  }

  lemma {:induction false} NarrowKeyword(d: Dialect, walked: bool, fields: seq<Field>, r: seq<Field>,
                                         k: Keyword, v: Json, w: Json, x: Json, depth: nat)
    requires MonotoneDefinitions(d) && SiblingsAgree(d, fields, r)
    requires Narrowable(d, walked, fields, k, v) && Rewritten(walked, fields, k, v, w)
    requires AcceptsKeyword(StrictDialect(d), r, k, w, x, depth)
    ensures AcceptsKeyword(d, fields, k, v, x, depth)
    decreases depth, v, 5
  {
    hide Accepts, AcceptsObject, AcceptsArray, AcceptsAny, MonotoneDefinitions, CanNarrow, TableCanNarrow, AllCanNarrow;
    if ForObjects(k) {
      if x.Obj? {
        NarrowObject(d, walked, fields, r, k, v, w, x.fields, depth);
      }
    } else if ForArrays(k) {
      if x.Arr? {
        NarrowArray(d, walked, fields, r, k, v, x.items, depth);
      }
    } else {
      NarrowAny(d, walked, k, v, x, depth);
    }
  }

  lemma {:induction false} NarrowObject(d: Dialect, walked: bool, fields: seq<Field>, r: seq<Field>,
                                        k: Keyword, v: Json, w: Json, members: seq<Field>, depth: nat)
    requires SiblingsAgree(d, fields, r) && ForObjects(k)
    requires Narrowable(d, walked, fields, k, v) && Rewritten(walked, fields, k, v, w)
    requires AcceptsObject(StrictDialect(d), r, k, w, members, depth)
    ensures AcceptsObject(d, fields, k, v, members, depth)
    decreases depth, v, 4
  {
    hide Accepts, AcceptsAdditional, AcceptsNames, AcceptsProperties, AcceptsPatterns, SiblingsAgree, CanNarrow,
         TableCanNarrow, AllCanNarrow, Steady, Strictify;
    if k == AdditionalProperties {
      NarrowAdditional(d, fields, r, v, w, members, depth);
    } else if k == PropertyNames {
      UnwalkedKey(k, v);
      NarrowNames(d, v, members, depth);
    } else if k == Required {
      if v.Arr? && walked && Closing(fields) {
        NamesCarry(v.items, TableAt(fields, Properties), members);
      }
    } else if v.Obj? {
      if k == Properties {
        NarrowProperties(d, walked, v.fields, members, depth);
      } else {
        NarrowPatterns(d, walked, v.fields, members, depth);
      }
    }
  }

  lemma {:induction false} NarrowArray(d: Dialect, walked: bool, fields: seq<Field>, r: seq<Field>,
                                       k: Keyword, v: Json, items: seq<Json>, depth: nat)
    requires SiblingsAgree(d, fields, r) && ValueCanNarrow(d, walked, k, v) && ForArrays(k)
    requires k == Contains ==> At(fields, MaxContains).None?
    requires AcceptsArray(StrictDialect(d), r, k, MaybeAt(walked, k, v), items, depth)
    ensures AcceptsArray(d, fields, k, v, items, depth)
    decreases depth, v, 4
  {
    hide Accepts, AcceptsRest, AcceptsPositions, AcceptsContains, CanNarrow;
    MaybeArr(walked, k, v);
    if k == Contains {
      NarrowContains(d, walked, fields, r, v, items, depth);
    } else if k == AdditionalItems {
      if Positional(fields) {
        NarrowRest(d, walked, v, items, |ItemsAt(fields, Items)|, depth);
      }
    } else if v.Arr? {
      NarrowPositions(d, walked, v.items, items, depth);
    } else if k == Items {
      NarrowRest(d, walked, v, items, |ItemsAt(fields, PrefixItems)|, depth);
    }
  }

  lemma {:induction false} NarrowAny(d: Dialect, walked: bool, k: Keyword, v: Json, x: Json, depth: nat)
    requires MonotoneDefinitions(d) && ValueCanNarrow(d, walked, k, v) && k != Not && k != OneOf
    requires AcceptsAny(StrictDialect(d), k, MaybeAt(walked, k, v), x, depth)
    ensures AcceptsAny(d, k, v, x, depth)
    decreases depth, v, 4
  {
    hide Accepts, Votes, AcceptsDependent, CanNarrow, TableCanNarrow, AllCanNarrow, MonotoneDefinitions;
    if (k == AllOf || k == AnyOf) && v.Arr? {
      MaybeArr(walked, k, v);
      NarrowVotes(d, walked, v.items, x, depth);
    } else if k == DependentSchemas && v.Obj? && x.Obj? {
      UnwalkedKey(k, v);
      NarrowDependent(d, v.fields, x.fields, depth);
    } else if k == Reference {
      NarrowReference(d, v, x, depth);
    }
  }

  lemma {:induction false} NarrowReference(d: Dialect, v: Json, x: Json, depth: nat)
    requires MonotoneDefinitions(d) && v.Str? && v.text in d.definitions && depth > 0
    requires Accepts(StrictDialect(d), StrictDialect(d).definitions[v.text], x, depth - 1)
    ensures Accepts(d, d.definitions[v.text], x, depth - 1)
    decreases depth, v, 3
  {
    hide Accepts, Positive, Declared, Parsed, Strictify;
    assert Monotone(d, d.definitions[v.text]);
    Narrow(d, true, d.definitions[v.text], x, depth - 1);
  }

  lemma {:induction false} NarrowNames(d: Dialect, v: Json, members: seq<Field>, depth: nat)
    requires CanNarrow(d, false, v) && AcceptsNames(StrictDialect(d), v, members, depth)
    ensures AcceptsNames(d, v, members, depth)
    decreases depth, v, 3
  {
    forall j | 0 <= j < |members|
      ensures Accepts(d, v, Str(members[j].key), depth)
    {
      Narrow(d, false, v, Str(members[j].key), depth);
    }
  }

  lemma {:induction false} NarrowDependent(d: Dialect, table: seq<Field>, members: seq<Field>, depth: nat)
    requires TableCanNarrow(d, false, table) && AcceptsDependent(StrictDialect(d), table, members, depth)
    ensures AcceptsDependent(d, table, members, depth)
    decreases depth, table, 0
  {
    forall j | 0 <= j < |table| && Named(members, table[j].key)
      ensures Accepts(d, table[j].value, Obj(members), depth)
    {
      assert table[j].value < table[j];
      Narrow(d, false, table[j].value, Obj(members), depth);
    }
  }

  lemma {:induction false} NarrowProperties(d: Dialect, walked: bool, props: seq<Field>, members: seq<Field>,
                                            depth: nat)
    requires TableCanNarrow(d, walked, props)
    requires AcceptsProperties(StrictDialect(d), MaybeTable(walked, props), members, depth)
    ensures AcceptsProperties(d, props, members, depth)
    decreases depth, props, 0
  {
    var r := MaybeTable(walked, props);
    forall j, k | 0 <= j < |props| && 0 <= k < |members| && props[j].key == members[k].key
      ensures Accepts(d, props[j].value, members[k].value, depth)
    {
      assert r[j].key == members[k].key;
      assert props[j].value < props[j];
      Narrow(d, walked, props[j].value, members[k].value, depth);
    }
  }

  lemma {:induction false} NarrowPatterns(d: Dialect, walked: bool, patterns: seq<Field>, members: seq<Field>,
                                          depth: nat)
    requires TableCanNarrow(d, walked, patterns)
    requires AcceptsPatterns(StrictDialect(d), MaybeTable(walked, patterns), members, depth)
    ensures AcceptsPatterns(d, patterns, members, depth)
    decreases depth, patterns, 0
  {
    var r := MaybeTable(walked, patterns);
    forall j, k | 0 <= j < |patterns| && 0 <= k < |members| && d.matches(patterns[j].key, members[k].key)
      ensures Accepts(d, patterns[j].value, members[k].value, depth)
    {
      assert StrictDialect(d).matches(r[j].key, members[k].key);
      assert patterns[j].value < patterns[j];
      Narrow(d, walked, patterns[j].value, members[k].value, depth);
    }
  }

  lemma {:induction false} NarrowPositions(d: Dialect, walked: bool, schemas: seq<Json>, items: seq<Json>, depth: nat)
    requires AllCanNarrow(d, walked, schemas)
    requires AcceptsPositions(StrictDialect(d), MaybeItems(walked, schemas), items, depth)
    ensures AcceptsPositions(d, schemas, items, depth)
    decreases depth, schemas, 0
  {
    var r := MaybeItems(walked, schemas);
    forall j | 0 <= j < |schemas| && j < |items|
      ensures Accepts(d, schemas[j], items[j], depth)
    {
      assert r[j] == Maybe(walked, schemas[j]);
      Narrow(d, walked, schemas[j], items[j], depth);
    }
  }

  lemma {:induction false} NarrowMatching(d: Dialect, walked: bool, s: Json, items: seq<Json>, depth: nat)
    requires CanNarrow(d, walked, s)
    ensures Matching(StrictDialect(d), Maybe(walked, s), items, depth) <= Matching(d, s, items, depth)
    decreases depth, s, 2, |items|
  {
    if items != [] {
      if Accepts(StrictDialect(d), Maybe(walked, s), items[0], depth) {
        Narrow(d, walked, s, items[0], depth);
      }
      NarrowMatching(d, walked, s, items[1..], depth);
    }
  }

  lemma {:induction false} NarrowVotes(d: Dialect, walked: bool, schemas: seq<Json>, x: Json, depth: nat)
    requires AllCanNarrow(d, walked, schemas)
    ensures Votes(StrictDialect(d), MaybeItems(walked, schemas), x, depth) <= Votes(d, schemas, x, depth)
    decreases depth, schemas, 0
  {
    if schemas != [] {
      var r := MaybeItems(walked, schemas);
      assert r[1..] == MaybeItems(walked, schemas[1..]);
      assert r[0] == Maybe(walked, schemas[0]);
      if Accepts(StrictDialect(d), r[0], x, depth) {
        Narrow(d, walked, schemas[0], x, depth);
      }
      NarrowVotes(d, walked, schemas[1..], x, depth);
    }
  }

  lemma {:induction false} NarrowRest(d: Dialect, walked: bool, s: Json, items: seq<Json>, from: nat, depth: nat)
    requires CanNarrow(d, walked, s)
    requires AcceptsRest(StrictDialect(d), Maybe(walked, s), items, from, depth)
    ensures AcceptsRest(d, s, items, from, depth)
    decreases depth, s, 3
  {
    forall j | from <= j < |items|
      ensures Accepts(d, s, items[j], depth)
    {
      Narrow(d, walked, s, items[j], depth);
    }
  }

  lemma {:induction false} NarrowContains(d: Dialect, walked: bool, fields: seq<Field>, r: seq<Field>, v: Json,
                                          items: seq<Json>, depth: nat)
    requires SiblingsAgree(d, fields, r) && CanNarrow(d, walked, v) && At(fields, MaxContains).None?
    requires AcceptsContains(StrictDialect(d), r, Maybe(walked, v), items, depth)
    ensures AcceptsContains(d, fields, v, items, depth)
    decreases depth, v, 3
  {
    NarrowMatching(d, walked, v, items, depth);
  }

  lemma {:induction false} NarrowAdditional(d: Dialect, fields: seq<Field>, r: seq<Field>, v: Json, w: Json,
                                            members: seq<Field>, depth: nat)
    requires SiblingsAgree(d, fields, r) && CanNarrow(d, false, v)
    requires w == v || w == Bool(false)
    requires AcceptsAdditional(StrictDialect(d), r, w, members, depth)
    ensures AcceptsAdditional(d, fields, v, members, depth)
    decreases depth, v, 3
  {
    forall j | 0 <= j < |members| && Additional(d, fields, members[j].key)
      ensures Accepts(d, v, members[j].value, depth)
    {
      assert Accepts(StrictDialect(d), w, members[j].value, depth);
      Narrow(d, false, v, members[j].value, depth);
    }
  }

  lemma NamesCarry(names: seq<Json>, props: seq<Field>, members: seq<Field>)
    requires AllNamed(names, props) && AllNamed(Names(props), members)
    ensures AllNamed(names, members)
  {
    forall j | 0 <= j < |names| && names[j].Str?
      ensures Named(members, names[j].text)
    {
      var k :| 0 <= k < |props| && props[k].key == names[j].text;
      assert Names(props)[k] == Str(props[k].key);
    }
  }

  /** For every schema without "not", "oneOf" and "maxContains" that requires only what it declares, and in which
      an "if" with a "then" refers only to definitions that the rewrite leaves as they are: whatever the
      rewritten schema accepts, under the rewritten definitions, the original accepts. */
  lemma RewriteNarrows(d: Dialect, s: Json, x: Json, depth: nat)
    requires Monotone(d, s) && MonotoneDefinitions(d)
    ensures Accepts(StrictDialect(d), Strictify(s), x, depth) ==> Accepts(d, s, x, depth)
  {
    if Accepts(StrictDialect(d), Strictify(s), x, depth) {
      Narrow(d, true, s, x, depth);
    }
  }
}
