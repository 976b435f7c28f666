/** Schemas that the strict rewrite widens, and exactly where it does. */
module SchemaWidening {
  import opened Options
  import opened JsonValues
  import opened StrictSchema
  import opened SchemaMeaning
  import opened SchemaNarrowing

  // ----- Each excluded keyword does widen

  /** The rewrite lets x in where the original kept it out. */
  ghost predicate Widens(d: Dialect, s: Json, x: Json, depth: nat) {
    Accepts(StrictDialect(d), Strictify(s), x, depth) && !Accepts(d, s, x, depth)
  }

  ghost predicate Narrows(d: Dialect, s: Json, x: Json, depth: nat) {
    Accepts(d, s, x, depth) && !Accepts(StrictDialect(d), Strictify(s), x, depth)
  }

  lemma OneKeyword(d: Dialect, k: Keyword, v: Json, x: Json, depth: nat)
    requires k != Plain && !Unread(k)
    ensures var node := [Field(Word(k), v)];
            Accepts(d, Obj(node), x, depth) <==> AcceptsKeyword(d, node, k, v, x, depth)
  {
    var node := [Field(Word(k), v)];
    assert node[0] == Field(Word(k), v);
    if AcceptsKeyword(d, node, k, v, x, depth) {
      assert AcceptsField(d, node, node[0], x, depth);
    }
    if Accepts(d, Obj(node), x, depth) {
      assert AcceptsField(d, node, node[0], x, depth);
    }
  }

  lemma RewriteOneKeyword(k: Keyword, v: Json)
    requires k != Properties
    ensures Strictify(Obj([Field(Word(k), v)])) == Obj([Field(Word(k), StrictifyAt(k, v))])
  {
    var node := [Field(Word(k), v)];
    assert StrictifyFields(node) == [Field(Word(k), StrictifyAt(k, v))];
  }

  lemma NotMeans(d: Dialect, s: Json, x: Json, depth: nat)
    ensures Accepts(d, Obj([Field(Word(Not), s)]), x, depth) <==> !Accepts(d, s, x, depth)
  {
    hide Accepts;
    OneKeyword(d, Not, s, x, depth);
  }

  lemma OneOfMeans(d: Dialect, s: Json, x: Json, depth: nat)
    ensures Accepts(d, Obj([Field(Word(OneOf), Arr([Bool(true), s]))]), x, depth) <==> !Accepts(d, s, x, depth)
  {
    hide Accepts, Votes;
    OneKeyword(d, OneOf, Arr([Bool(true), s]), x, depth);
    VotesOfTwo(d, s, x, depth);
  }

  lemma RewriteChoice(s: Json)
    ensures StrictifyAt(OneOf, Arr([Bool(true), s])) == Arr([Bool(true), Strictify(s)])
  {
    assert StrictifyItems([Bool(true), s]) == [Bool(true), Strictify(s)];
  }


  /** Under "not" the rewrite widens exactly where it narrowed the schema inside. */
  lemma NotWidensExactly(d: Dialect, s: Json, x: Json, depth: nat)
    ensures Widens(d, Obj([Field(Word(Not), s)]), x, depth) <==> Narrows(d, s, x, depth)
  {
    hide Accepts, Strictify, StrictifyAt, StrictDialect;
    NotMeans(d, s, x, depth);
    RewriteOneKeyword(Not, s);
    SchemaKey(Not, s);
    NotMeans(StrictDialect(d), Strictify(s), x, depth);
  }

  lemma ReferenceMeans(d: Dialect, r: Text, x: Json, depth: nat)
    requires r in d.definitions
    ensures Accepts(d, Obj([Field(Word(Reference), Str(r))]), x, depth + 1) <==> Accepts(d, d.definitions[r], x, depth)
  {
    hide Accepts;
    OneKeyword(d, Reference, Str(r), x, depth + 1);
    assert AcceptsKeyword(d, [Field(Word(Reference), Str(r))], Reference, Str(r), x, depth + 1)
      <==> AcceptsAny(d, Reference, Str(r), x, depth + 1);
  }

  /** The three keywords of a choice refuse nothing each by itself. */
  lemma ChoiceFieldAccepts(d: Dialect, fields: seq<Field>, k: Keyword, v: Json, x: Json, depth: nat)
    requires k == If || k == Then || k == Else
    ensures AcceptsField(d, fields, Field(Word(k), v), x, depth)
  {
    assert AcceptsAny(d, k, v, x, depth) && !ForObjects(k) && !ForArrays(k);
    assert AcceptsKeyword(d, fields, k, v, x, depth);
  }

  lemma FalseRefuses(d: Dialect, x: Json, depth: nat)
    ensures !Accepts(d, Bool(false), x, depth)
  {
  }

  lemma ChoiceOfTwo(d: Dialect, condition: Json, x: Json, depth: nat)
    ensures AcceptsChoice(d, [Field(Word(If), condition), Field(Word(Then), Bool(false))], x, depth)
       <==> !Accepts(d, condition, x, depth)
  {
    hide AcceptsField, Accepts;
    var node := [Field(Word(If), condition), Field(Word(Then), Bool(false))];
    FalseRefuses(d, x, depth);
    if Accepts(d, condition, x, depth) {
      assert Chosen(KeywordOf(node[1].key), Accepts(d, node[0].value, x, depth));
    }
  }

  /** "if" with "then": false refuses what the condition accepts. */
  lemma IfMeans(d: Dialect, condition: Json, x: Json, depth: nat)
    ensures Accepts(d, Obj([Field(Word(If), condition), Field(Word(Then), Bool(false))]), x, depth)
       <==> !Accepts(d, condition, x, depth)
  {
    hide AcceptsField, AcceptsChoice;
    var node := [Field(Word(If), condition), Field(Word(Then), Bool(false))];
    ChoiceFieldAccepts(d, node, If, condition, x, depth);
    ChoiceFieldAccepts(d, node, Then, Bool(false), x, depth);
    ChoiceOfTwo(d, condition, x, depth);
    assert Accepts(d, Obj(node), x, depth) <==> AcceptsChoice(d, node, x, depth);
  }

  lemma RewriteOfIf(condition: Json)
    ensures var node := Obj([Field(Word(If), condition), Field(Word(Then), Bool(false))]); Strictify(node) == node
  {
    hide Strictify, StrictifyAt, At;
    var node := [Field(Word(If), condition), Field(Word(Then), Bool(false))];
    UnwalkedKey(If, condition);
    UnwalkedKey(Then, Bool(false));
    TwoFields(If, condition, Then, Bool(false), Properties);
    OnlyWalked(node, node);
  }

  /** An "if" is not walked, the definition it refers to is: with "then": false the rewrite widens exactly where it
      narrowed the definition. */
  lemma IfWidensExactly(d: Dialect, r: Text, x: Json, depth: nat)
    requires r in d.definitions
    ensures var node := Obj([Field(Word(If), Obj([Field(Word(Reference), Str(r))])), Field(Word(Then), Bool(false))]);
            Widens(d, node, x, depth + 1) <==> Narrows(d, d.definitions[r], x, depth)
  {
    hide Accepts, Strictify;
    var condition := Obj([Field(Word(Reference), Str(r))]);
    RewriteOfIf(condition);
    IfMeans(d, condition, x, depth + 1);
    IfMeans(StrictDialect(d), condition, x, depth + 1);
    ReferenceMeans(d, r, x, depth);
    ReferenceMeans(StrictDialect(d), r, x, depth);
  }

  /** A choice between a schema and "true" under "oneOf" widens exactly where the schema narrowed. */
  lemma OneOfWidensExactly(d: Dialect, s: Json, x: Json, depth: nat)
    ensures Widens(d, Obj([Field(Word(OneOf), Arr([Bool(true), s]))]), x, depth) <==> Narrows(d, s, x, depth)
  {
    hide Accepts, Strictify, StrictifyAt, StrictDialect;
    OneOfMeans(d, s, x, depth);
    RewriteOneKeyword(OneOf, Arr([Bool(true), s]));
    RewriteChoice(s);
    OneOfMeans(StrictDialect(d), Strictify(s), x, depth);
  }

  lemma VotesOfTwo(d: Dialect, s: Json, x: Json, depth: nat)
    ensures Votes(d, [Bool(true), s], x, depth) == if Accepts(d, s, x, depth) then 2 else 1
  {
    assert [Bool(true), s][1..] == [s];
    assert [s][1..] == [];
  }

  function NoneContained(s: Json): seq<Field> {
    [Field(Word(MinContains), Num(0.0)), Field(Word(MaxContains), Num(0.0)), Field(Word(Contains), s)]
  }

  /** "contains" with "maxContains" 0 on a one-item array widens exactly where the schema narrowed. */
  lemma MaxContainsWidensExactly(d: Dialect, s: Json, x: Json, depth: nat)
    ensures var node := NoneContained(s);
            Widens(d, Obj(node), Arr([x]), depth) <==> Narrows(d, s, x, depth)
  {
    hide Accepts, Strictify, At;
    var node := NoneContained(s);
    var r := NoneContained(Strictify(s));
    RewriteOfThree(s);
    BoundsOfThree(s);
    BoundsOfThree(Strictify(s));
    ContainsAtMostNone(d, node, s, x, depth);
    ContainsAtMostNone(StrictDialect(d), r, Strictify(s), x, depth);
  }

  /** A node that declares no properties is only walked. */
  lemma OnlyWalked(fields: seq<Field>, walked: seq<Field>)
    requires At(fields, Properties).None? && |walked| == |fields|
    requires forall i :: 0 <= i < |fields| ==>
      walked[i] == Field(fields[i].key, StrictifyAt(KeywordOf(fields[i].key), fields[i].value))
    ensures Strictify(Obj(fields)) == Obj(walked)
  {
    hide StrictifyAt, At;
    assert StrictifyFields(fields) == walked;
  }

  lemma WordIs(k: Keyword)
    ensures KeywordOf(Word(k)) == k
  {
  }

  lemma RewriteOfThree(s: Json)
    ensures Strictify(Obj(NoneContained(s)))
         == Obj(NoneContained(Strictify(s)))
  {
    hide StrictifyAt, Strictify, At, KeywordOf;
    BoundsOfThree(s);
    WordIs(MinContains);
    WordIs(MaxContains);
    WordIs(Contains);
    UnwalkedKey(MinContains, Num(0.0));
    UnwalkedKey(MaxContains, Num(0.0));
    SchemaKey(Contains, s);
    OnlyWalked(NoneContained(s),
               NoneContained(Strictify(s)));
  }

  lemma BoundsOfThree(s: Json)
    ensures var node := NoneContained(s);
            && At(node, MinContains) == Some(Num(0.0)) && At(node, MaxContains) == Some(Num(0.0))
            && At(node, Properties) == None
  {
  }

  lemma ContainsAtMostNone(d: Dialect, node: seq<Field>, s: Json, x: Json, depth: nat)
    requires At(node, MinContains) == Some(Num(0.0)) && At(node, MaxContains) == Some(Num(0.0))
    requires node == NoneContained(s)
    ensures Accepts(d, Obj(node), Arr([x]), depth) <==> !Accepts(d, s, x, depth)
  {
    hide AcceptsField, At, Matching;
    ContainsNone(d, node, s, x, depth);
    BoundsAcceptAll(d, node, x, depth);
    FieldOfContains(d, node, s, Arr([x]), depth);
    AcceptsThree(d, node, Arr([x]), depth);
  }

  lemma FieldOfContains(d: Dialect, node: seq<Field>, s: Json, x: Json, depth: nat)
    ensures AcceptsField(d, node, Field(Word(Contains), s), x, depth)
       <==> AcceptsKeyword(d, node, Contains, s, x, depth)
  {
    hide AcceptsKeyword;
  }

  lemma AcceptsThree(d: Dialect, node: seq<Field>, x: Json, depth: nat)
    requires |node| == 3 && forall i :: 0 <= i < 3 ==> KeywordOf(node[i].key) != If
    ensures Accepts(d, Obj(node), x, depth)
       <==> && AcceptsField(d, node, node[0], x, depth) && AcceptsField(d, node, node[1], x, depth)
            && AcceptsField(d, node, node[2], x, depth)
  {
    hide AcceptsField;
  }

  lemma BoundsAcceptAll(d: Dialect, node: seq<Field>, x: Json, depth: nat)
    requires |node| == 3 && node[0].key == Word(MinContains) && node[1].key == Word(MaxContains)
    ensures AcceptsField(d, node, node[0], Arr([x]), depth) && AcceptsField(d, node, node[1], Arr([x]), depth)
  {
  }

  lemma ContainsNone(d: Dialect, node: seq<Field>, s: Json, x: Json, depth: nat)
    requires At(node, MinContains) == Some(Num(0.0)) && At(node, MaxContains) == Some(Num(0.0))
    ensures AcceptsKeyword(d, node, Contains, s, Arr([x]), depth) <==> !Accepts(d, s, x, depth)
  {
    hide Accepts, At;
    assert [x][1..] == [];
    assert Matching(d, s, [x], depth) == if Accepts(d, s, x, depth) then 1 else 0;
    assert AcceptsContains(d, node, s, [x], depth) <==> !Accepts(d, s, x, depth);
  }

  /** Nodes do narrow: declaring no property at all and closing shuts out every non-empty object. */
  lemma ClosingNarrows(d: Dialect, members: seq<Field>, depth: nat)
    requires members != []
    ensures Narrows(d, Obj([Field(Word(Properties), Obj([]))]), Obj(members), depth)
  {
    OneKeyword(d, Properties, Obj([]), Obj(members), depth);
    assert AcceptsObject(d, [Field(Word(Properties), Obj([]))], Properties, Obj([]), members, depth);
    RewriteEmpty();
    ClosedEmptyRefuses(StrictDialect(d), members, depth);
  }

  function ClosedEmpty(): seq<Field> {
    [Field(Word(Properties), Obj([])), Field(Word(AdditionalProperties), Bool(false)), Field(Word(Required), Arr([]))]
  }

  lemma EmptyTable()
    ensures StrictifyFields([Field(Word(Properties), Obj([]))]) == [Field(Word(Properties), Obj([]))]
    ensures Names([]) == []
  {
    assert StrictifyTable([]) == [];
  }

  lemma OneField(k: Keyword, v: Json, m: Keyword)
    ensures At([Field(Word(k), v)], m) == if m == k then Some(v) else None
  {
  }

  lemma TwoFields(k: Keyword, v: Json, l: Keyword, w: Json, m: Keyword)
    ensures At([Field(Word(k), v), Field(Word(l), w)], m)
         == if m == k then Some(v) else if m == l then Some(w) else None
  {
  }

  lemma RewriteEmpty()
    ensures Strictify(Obj([Field(Word(Properties), Obj([]))])) == Obj(ClosedEmpty())
  {
    hide StrictifyFields, At, Put, Names;
    var node := [Field(Word(Properties), Obj([]))];
    EmptyTable();
    OneField(Properties, Obj([]), Properties);
    OneField(Properties, Obj([]), AdditionalProperties);
    TwoFields(Properties, Obj([]), AdditionalProperties, Bool(false), Required);
    assert node + [Field(Word(AdditionalProperties), Bool(false))]
         == [node[0], Field(Word(AdditionalProperties), Bool(false))];
    PutNew(node, AdditionalProperties, Bool(false));
    PutNew([node[0], Field(Word(AdditionalProperties), Bool(false))], Required, Arr([]));
  }

  lemma PutNew(fields: seq<Field>, k: Keyword, v: Json)
    requires At(fields, k).None?
    ensures Put(fields, Word(k), v) == fields + [Field(Word(k), v)]
  {
  }

  lemma ClosedEmptyRefuses(d: Dialect, members: seq<Field>, depth: nat)
    requires members != []
    ensures !Accepts(d, Obj(ClosedEmpty()), Obj(members), depth)
  {
    var r := ClosedEmpty();
    EmptyHasOnlyAdditional(d, members[0].key);
    assert !Accepts(d, Bool(false), members[0].value, depth);
    assert !AcceptsAdditional(d, r, Bool(false), members, depth);
    assert !AcceptsObject(d, r, AdditionalProperties, Bool(false), members, depth);
    assert !AcceptsField(d, r, r[1], Obj(members), depth);
  }

  lemma EmptyHasOnlyAdditional(d: Dialect, key: Text)
    ensures Additional(d, ClosedEmpty(), key)
  {
    var r := ClosedEmpty();
    assert At(r, Properties) == Some(Obj([]));
    assert At(r, PatternProperties) == None;
  }

  ghost predicate FreeTable(props: seq<Field>) {
    Distinct(props) && forall i :: 0 <= i < |props| ==> props[i].value == Bool(true)
  }

  lemma FreeTableParts(d: Dialect, props: seq<Field>)
    requires FreeTable(props)
    ensures Parsed(Obj(props)) && PositiveAt(d, Properties, Obj(props)) && DeclaredAt(Properties, Obj(props))
  {
    assert TablePositive(d, props) && TableDeclared(props);
  }

  lemma NamesParts(d: Dialect, names: seq<Json>)
    requires forall j :: 0 <= j < |names| ==> Parsed(names[j])
    ensures Parsed(Arr(names)) && PositiveAt(d, Required, Arr(names)) && DeclaredAt(Required, Arr(names))
  {
  }

  lemma TwoPartsMonotone(d: Dialect, v: Json, w: Json)
    requires Parsed(v) && PositiveAt(d, Properties, v) && DeclaredAt(Properties, v)
    requires Parsed(w) && PositiveAt(d, Required, w) && DeclaredAt(Required, w)
    requires v.Obj? && w.Arr? && AllNamed(w.items, v.fields)
    ensures Monotone(d, Obj([Field(Word(Properties), v), Field(Word(Required), w)]))
  {
    hide PositiveAt, DeclaredAt, At, AllNamed;
    var node := [Field(Word(Properties), v), Field(Word(Required), w)];
    TwoFields(Properties, v, Required, w, Not);
    TwoFields(Properties, v, Required, w, OneOf);
    TwoFields(Properties, v, Required, w, Contains);
    TwoFields(Properties, v, Required, w, Required);
    TwoFields(Properties, v, Required, w, Properties);
    assert forall i :: 0 <= i < |node| ==> node[i] == node[0] || node[i] == node[1];
  }

  lemma FreePropertiesMonotone(d: Dialect, props: seq<Field>, names: seq<Json>)
    requires FreeTable(props) && AllNamed(names, props) && forall j :: 0 <= j < |names| ==> Parsed(names[j])
    ensures Monotone(d, Obj([Field(Word(Properties), Obj(props)), Field(Word(Required), Arr(names))]))
  {
    hide Monotone, PositiveAt, DeclaredAt, AllNamed, FreeTable;
    FreeTableParts(d, props);
    NamesParts(d, names);
    TwoPartsMonotone(d, Obj(props), Arr(names));
  }

  lemma FreeFieldsStay(props: seq<Field>, names: seq<Json>)
    requires FreeTable(props)
    ensures var node := [Field(Word(Properties), Obj(props)), Field(Word(Required), Arr(names))];
            StrictifyFields(node) == node
  {
    assert StrictifyTable(props) == props;
  }

  lemma PutSecond(f: Field, g: Field, h: Field, key: Text, v: Json)
    requires KeywordOf(f.key) != KeywordOf(key) && KeywordOf(g.key) == KeywordOf(key)
    ensures Put([f, g, h], key, v) == [f, Field(g.key, v), h]
  {
    assert [f, g, h][1..] == [g, h] && [g, h][1..] == [h];
    assert Put([g, h], key, v) == [Field(g.key, v), h];
  }

  lemma RewriteFree(props: seq<Field>, names: seq<Json>)
    requires FreeTable(props)
    ensures Strictify(Obj([Field(Word(Properties), Obj(props)), Field(Word(Required), Arr(names))]))
         == Obj([Field(Word(Properties), Obj(props)), Field(Word(Required), Arr(Names(props))),
                 Field(Word(AdditionalProperties), Bool(false))])
  {
    hide StrictifyFields, At, Put, Names, FreeTable;
    var f, g := Field(Word(Properties), Obj(props)), Field(Word(Required), Arr(names));
    var h := Field(Word(AdditionalProperties), Bool(false));
    FreeFieldsStay(props, names);
    TwoFields(Properties, Obj(props), Required, Arr(names), Properties);
    TwoFields(Properties, Obj(props), Required, Arr(names), AdditionalProperties);
    PutNew([f, g], AdditionalProperties, Bool(false));
    assert [f, g] + [h] == [f, g, h];
    PutSecond(f, g, h, Word(Required), Arr(Names(props)));
  }

  lemma FreeAccepted(d: Dialect, r: seq<Field>, props: seq<Field>, members: seq<Field>, depth: nat)
    requires FreeTable(props)
    ensures AcceptsField(d, r, Field(Word(Properties), Obj(props)), Obj(members), depth)
  {
    assert AcceptsProperties(d, props, members, depth);
  }

  lemma SameKeysNamed(a: seq<Field>, b: seq<Field>)
    requires |a| == |b| && forall i :: 0 <= i < |a| ==> a[i].key == b[i].key
    ensures forall i :: 0 <= i < |a| ==> Named(b, a[i].key)
  {
    forall i | 0 <= i < |a|
      ensures Named(b, a[i].key)
    {
      assert b[i].key == a[i].key;
    }
  }

  lemma NamesAccepted(d: Dialect, r: seq<Field>, props: seq<Field>, members: seq<Field>, depth: nat)
    requires |members| == |props| && forall i :: 0 <= i < |props| ==> members[i].key == props[i].key
    ensures AcceptsField(d, r, Field(Word(Required), Arr(Names(props))), Obj(members), depth)
  {
    SameKeysNamed(props, members);
    assert AllNamed(Names(props), members);
  }

  lemma NoOthers(d: Dialect, r: seq<Field>, props: seq<Field>, members: seq<Field>, depth: nat)
    requires |members| == |props| && forall i :: 0 <= i < |props| ==> members[i].key == props[i].key
    requires TableAt(r, Properties) == props
    ensures AcceptsField(d, r, Field(Word(AdditionalProperties), Bool(false)), Obj(members), depth)
  {
    hide Named, Matched;
    SameKeysNamed(members, props);
    assert AcceptsAdditional(d, r, Bool(false), members, depth);
    assert AcceptsObject(d, r, AdditionalProperties, Bool(false), members, depth);
  }

  lemma FirstTable(props: seq<Field>, rest: seq<Field>)
    ensures TableAt([Field(Word(Properties), Obj(props))] + rest, Properties) == props
  {
  }

  lemma DeclaredOnlyAccepted(d: Dialect, props: seq<Field>, names: seq<Json>, members: seq<Field>, depth: nat)
    requires FreeTable(props)
    requires |members| == |props| && forall i :: 0 <= i < |props| ==> members[i].key == props[i].key
    ensures var node := [Field(Word(Properties), Obj(props)), Field(Word(Required), Arr(names))];
            Accepts(d, Strictify(Obj(node)), Obj(members), depth)
  {
    hide Strictify, Accepts, AcceptsField, TableAt, FreeTable, Names;
    RewriteFree(props, names);
    var f, g := Field(Word(Properties), Obj(props)), Field(Word(Required), Arr(Names(props)));
    var h := Field(Word(AdditionalProperties), Bool(false));
    var r := [f, g, h];
    FirstTable(props, [g, h]);
    assert [f] + [g, h] == r;
    FreeAccepted(d, r, props, members, depth);
    NamesAccepted(d, r, props, members, depth);
    NoOthers(d, r, props, members, depth);
    AcceptsThree(d, r, Obj(members), depth);
  }

  /** What "required" must say for closing to narrow: with every declared property free, the rewrite
      never widens exactly when each required name is declared. */
  lemma RequiredMustBeDeclared(d: Dialect, props: seq<Field>, names: seq<Json>, depth: nat)
    requires FreeTable(props) && MonotoneDefinitions(d) && forall j :: 0 <= j < |names| ==> Parsed(names[j])
    ensures var node := [Field(Word(Properties), Obj(props)), Field(Word(Required), Arr(names))];
            (forall x :: !Widens(d, Obj(node), x, depth)) <==> AllNamed(names, props)
  {
    hide Accepts, Strictify, FreeTable, Monotone;
    var node := [Field(Word(Properties), Obj(props)), Field(Word(Required), Arr(names))];
    if AllNamed(names, props) {
      FreePropertiesMonotone(d, props, names);
      forall x
        ensures !Widens(d, Obj(node), x, depth)
      {
        RewriteNarrows(d, Obj(node), x, depth);
      }
    } else {
      UndeclaredWidens(d, props, names, depth);
    }
  }

  /** An object with just the declared properties is let in, though the original asks for one more. */
  lemma UndeclaredWidens(d: Dialect, props: seq<Field>, names: seq<Json>, depth: nat)
    requires FreeTable(props) && !AllNamed(names, props)
    ensures var node := [Field(Word(Properties), Obj(props)), Field(Word(Required), Arr(names))];
            exists x :: Widens(d, Obj(node), x, depth)
  {
    hide Strictify, FreeTable;
    var node := [Field(Word(Properties), Obj(props)), Field(Word(Required), Arr(names))];
    var members := seq(|props|, i requires 0 <= i < |props| => Field(props[i].key, Null));
    DeclaredOnlyAccepted(StrictDialect(d), props, names, members, depth);
    var j :| 0 <= j < |names| && names[j].Str? && !Named(props, names[j].text);
    assert !Named(members, names[j].text);
    assert !AcceptsObject(d, node, Required, Arr(names), members, depth);
    assert !AcceptsField(d, node, node[1], Obj(members), depth);
    assert Widens(d, Obj(node), Obj(members), depth);
  }
}
