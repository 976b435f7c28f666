/** Which instances a schema accepts, and how the strict rewrite changes that.

    Accepts follows JSON Schema Core 2020-12 (sections 10.2 and 10.3) and Validation 2020-12
    (section 6.5.3); the positional form of "items" with "additionalItems" is that of the earlier
    drafts.  The rewrite looks into some of the parts that are schemas; those it does not look into, as
    "if", "then", "else" and "additionalProperties", see rewritten definitions all the same.  Keywords
    without schemas inside are one abstract predicate of keyword, value and instance; references name an
    entry of a table of definitions and are followed at most "depth" times along any path. */
module SchemaMeaning {
  import opened Options
  import opened JsonValues
  import opened StrictSchema

  datatype Dialect = Dialect(
    leaf: (Text, Json, Json) -> bool,
    matches: (Text, Text) -> bool,
    definitions: map<Text, Json>)

  function ItemsAt(fields: seq<Field>, k: Keyword): seq<Json> {
    match At(fields, k) case Some(Arr(items)) => items case _ => []
  }

  function TableAt(fields: seq<Field>, k: Keyword): seq<Field> {
    match At(fields, k) case Some(Obj(table)) => table case _ => []
  }

  function BoundAt(fields: seq<Field>, k: Keyword, default: real): real {
    match At(fields, k) case Some(Num(n)) => n case _ => default
  }

  ghost predicate Named(table: seq<Field>, key: Text) {
    exists i :: 0 <= i < |table| && table[i].key == key
  }

  ghost predicate Matched(d: Dialect, patterns: seq<Field>, key: Text) {
    exists i :: 0 <= i < |patterns| && d.matches(patterns[i].key, key)
  }

  /** A property that neither "properties" nor "patternProperties" speaks of. */
  ghost predicate Additional(d: Dialect, fields: seq<Field>, key: Text) {
    !Named(TableAt(fields, Properties), key) && !Matched(d, TableAt(fields, PatternProperties), key)
  }

  ghost predicate Accepts(d: Dialect, s: Json, x: Json, depth: nat)
    decreases depth, s, 1
  {
    match s
    case Bool(b) => b
    case Obj(fields) =>
      && (forall i :: 0 <= i < |fields| ==> AcceptsField(d, fields, fields[i], x, depth))
      && AcceptsChoice(d, fields, x, depth)
    case _ => false
  }

  /** "then" counts where "if" accepts, "else" where it does not; "if" itself refuses nothing. */
  ghost predicate AcceptsChoice(d: Dialect, fields: seq<Field>, x: Json, depth: nat)
    decreases depth, fields, 0
  {
    forall i, j :: 0 <= i < |fields| && 0 <= j < |fields| && KeywordOf(fields[i].key) == If
                   && Chosen(KeywordOf(fields[j].key),
                             assert fields[i].value < fields[i]; Accepts(d, fields[i].value, x, depth)) ==>
                     assert fields[j].value < fields[j]; Accepts(d, fields[j].value, x, depth)
  }

  predicate Chosen(k: Keyword, holds: bool) {
    k == if holds then Then else Else
  }

  /** Keywords that read what other keywords have evaluated, or that this model does not give a meaning to. */
  predicate Unread(k: Keyword) {
    k == UnevaluatedProperties || k == UnevaluatedItems || k == Dependencies || k == DynamicReference
  }

  ghost predicate AcceptsField(d: Dialect, fields: seq<Field>, f: Field, x: Json, depth: nat)
    decreases depth, f, 0
  {
    if KeywordOf(f.key) == Plain || Unread(KeywordOf(f.key)) then d.leaf(f.key, f.value, x)
    else AcceptsKeyword(d, fields, KeywordOf(f.key), f.value, x, depth)
  }

  predicate ForObjects(k: Keyword) {
    k == Properties || k == PatternProperties || k == AdditionalProperties || k == Required || k == PropertyNames
  }

  predicate ForArrays(k: Keyword) {
    k == Items || k == AdditionalItems || k == PrefixItems || k == Contains
  }

  /** One keyword of a schema, in the presence of its siblings. */
  ghost predicate AcceptsKeyword(d: Dialect, fields: seq<Field>, k: Keyword, v: Json, x: Json, depth: nat)
    decreases depth, v, 5
  {
    if ForObjects(k) then x.Obj? ==> AcceptsObject(d, fields, k, v, x.fields, depth)
    else if ForArrays(k) then x.Arr? ==> AcceptsArray(d, fields, k, v, x.items, depth)
    else AcceptsAny(d, k, v, x, depth)
  }

  ghost predicate AcceptsObject(d: Dialect, fields: seq<Field>, k: Keyword, v: Json, members: seq<Field>, depth: nat)
    decreases depth, v, 4
  {
    match k
    case Properties => v.Obj? ==> AcceptsProperties(d, v.fields, members, depth)
    case PatternProperties => v.Obj? ==> AcceptsPatterns(d, v.fields, members, depth)
    case AdditionalProperties => AcceptsAdditional(d, fields, v, members, depth)
    case Required => v.Arr? ==> AllNamed(v.items, members)
    case PropertyNames => AcceptsNames(d, v, members, depth)
    case _ => true
  }

  ghost predicate AcceptsArray(d: Dialect, fields: seq<Field>, k: Keyword, v: Json, items: seq<Json>, depth: nat)
    decreases depth, v, 4
  {
    match k
    case PrefixItems => v.Arr? ==> AcceptsPositions(d, v.items, items, depth)
    case Items =>
      if v.Arr? then AcceptsPositions(d, v.items, items, depth)
      else AcceptsRest(d, v, items, |ItemsAt(fields, PrefixItems)|, depth)
    case AdditionalItems => Positional(fields) ==> AcceptsRest(d, v, items, |ItemsAt(fields, Items)|, depth)
    case Contains => AcceptsContains(d, fields, v, items, depth)
    case _ => true
  }

  ghost predicate AcceptsAny(d: Dialect, k: Keyword, v: Json, x: Json, depth: nat)
    decreases depth, v, 4
  {
    match k
    case Not => !Accepts(d, v, x, depth)
    case AllOf => v.Arr? ==> Votes(d, v.items, x, depth) == |v.items|
    case AnyOf => v.Arr? ==> Votes(d, v.items, x, depth) >= 1
    case OneOf => v.Arr? ==> Votes(d, v.items, x, depth) == 1
    case DependentSchemas => v.Obj? && x.Obj? ==> AcceptsDependent(d, v.fields, x.fields, depth)
    case Reference => v.Str? && v.text in d.definitions && depth > 0 && Accepts(d, d.definitions[v.text], x, depth - 1)
    case _ => true
  }

  predicate Positional(fields: seq<Field>) {
    At(fields, Items).Some? && At(fields, Items).value.Arr?
  }

  ghost predicate AcceptsAdditional(d: Dialect, fields: seq<Field>, v: Json, members: seq<Field>, depth: nat)
    decreases depth, v, 3
  {
    forall j :: 0 <= j < |members| && Additional(d, fields, members[j].key) ==> Accepts(d, v, members[j].value, depth)
  }

  ghost predicate AcceptsNames(d: Dialect, v: Json, members: seq<Field>, depth: nat)
    decreases depth, v, 3
  {
    forall j :: 0 <= j < |members| ==> Accepts(d, v, Str(members[j].key), depth)
  }

  ghost predicate AcceptsRest(d: Dialect, v: Json, items: seq<Json>, from: nat, depth: nat)
    decreases depth, v, 3
  {
    forall j :: from <= j < |items| ==> Accepts(d, v, items[j], depth)
  }

  ghost predicate AcceptsContains(d: Dialect, fields: seq<Field>, v: Json, items: seq<Json>, depth: nat)
    decreases depth, v, 3
  {
    var n := Matching(d, v, items, depth) as real;
    BoundAt(fields, MinContains, 1.0) <= n <= BoundAt(fields, MaxContains, |items| as real)
  }

  ghost predicate AllNamed(names: seq<Json>, members: seq<Field>) {
    forall j :: 0 <= j < |names| && names[j].Str? ==> Named(members, names[j].text)
  }

  ghost predicate AcceptsProperties(d: Dialect, props: seq<Field>, members: seq<Field>, depth: nat)
    decreases depth, props, 0
  {
    forall j, k :: 0 <= j < |props| && 0 <= k < |members| && props[j].key == members[k].key ==>
      assert props[j].value < props[j]; Accepts(d, props[j].value, members[k].value, depth)
  }

  ghost predicate AcceptsPatterns(d: Dialect, patterns: seq<Field>, members: seq<Field>, depth: nat)
    decreases depth, patterns, 0
  {
    forall j, k :: 0 <= j < |patterns| && 0 <= k < |members| && d.matches(patterns[j].key, members[k].key) ==>
      assert patterns[j].value < patterns[j]; Accepts(d, patterns[j].value, members[k].value, depth)
  }

  ghost predicate AcceptsDependent(d: Dialect, table: seq<Field>, members: seq<Field>, depth: nat)
    decreases depth, table, 0
  {
    forall j :: 0 <= j < |table| && Named(members, table[j].key) ==>
      assert table[j].value < table[j]; Accepts(d, table[j].value, Obj(members), depth)
  }

  ghost predicate AcceptsPositions(d: Dialect, schemas: seq<Json>, items: seq<Json>, depth: nat)
    decreases depth, schemas, 0
  {
    forall j :: 0 <= j < |schemas| && j < |items| ==> Accepts(d, schemas[j], items[j], depth)
  }

  /** How many items a schema accepts. */
  ghost function Matching(d: Dialect, s: Json, items: seq<Json>, depth: nat): (n: nat)
    ensures n <= |items|
    decreases depth, s, 2, |items|
  {
    if items == [] then 0
    else (if Accepts(d, s, items[0], depth) then 1 else 0) + Matching(d, s, items[1..], depth)
  }

  /** How many schemas accept an instance. */
  ghost function Votes(d: Dialect, schemas: seq<Json>, x: Json, depth: nat): (n: nat)
    ensures n <= |schemas|
    decreases depth, schemas, 0
  {
    if schemas == [] then 0
    else (if Accepts(d, schemas[0], x, depth) then 1 else 0) + Votes(d, schemas[1..], x, depth)
  }

  /** The document with its definitions rewritten too. */
  function StrictDialect(d: Dialect): Dialect {
    d.(definitions := map r | r in d.definitions :: Strictify(d.definitions[r]))
  }

  /** Every reference inside is to one of the names. */
  ghost predicate RefersOnlyTo(v: Json, names: set<Text>) {
    match v
    case Arr(items) => forall i :: 0 <= i < |items| ==> RefersOnlyTo(items[i], names)
    case Obj(fields) =>
      forall i :: 0 <= i < |fields| ==>
        && (KeywordOf(fields[i].key) == Reference && fields[i].value.Str? ==> fields[i].value.text in names)
        && RefersOnlyTo(fields[i].value, names)
    case _ => true
  }

  /** Definitions that are the same to both, and refer to one another only. */
  ghost predicate SameThere(d: Dialect, e: Dialect, names: set<Text>) {
    forall r :: r in names ==>
      && (r in d.definitions <==> r in e.definitions)
      && (r in d.definitions ==> d.definitions[r] == e.definitions[r] && RefersOnlyTo(d.definitions[r], names))
  }

  /** Definitions that the rewrite leaves as they are, and that refer to one another only. */
  ghost predicate Settled(d: Dialect, names: set<Text>) {
    forall r :: r in names && r in d.definitions ==>
      Strictify(d.definitions[r]) == d.definitions[r] && RefersOnlyTo(d.definitions[r], names)
  }

  /** Rewriting the definitions cannot matter to it. */
  ghost predicate Unmoved(d: Dialect, v: Json) {
    exists names: set<Text> :: Settled(d, names) && RefersOnlyTo(v, names)
  }

  // ----- Only the definitions that are referred to matter

  ghost predicate SameOn(d: Dialect, e: Dialect, s: Json, depth: nat) {
    forall x :: Accepts(d, s, x, depth) <==> Accepts(e, s, x, depth)
  }

  /** A value and what it holds one level down mean the same to both. */
  ghost predicate SameParts(d: Dialect, e: Dialect, v: Json, depth: nat) {
    && SameOn(d, e, v, depth)
    && (v.Arr? ==> forall i :: 0 <= i < |v.items| ==> SameOn(d, e, v.items[i], depth))
    && (v.Obj? ==> forall i :: 0 <= i < |v.fields| ==> SameOn(d, e, v.fields[i].value, depth))
  }

  ghost predicate SameReference(d: Dialect, e: Dialect, v: Json, depth: nat) {
    forall x :: AcceptsAny(d, Reference, v, x, depth) <==> AcceptsAny(e, Reference, v, x, depth)
  }

  ghost predicate SameValue(d: Dialect, e: Dialect, f: Field, depth: nat) {
    SameParts(d, e, f.value, depth) && (KeywordOf(f.key) == Reference ==> SameReference(d, e, f.value, depth))
  }

  ghost predicate SameReading(d: Dialect, e: Dialect) {
    d.leaf == e.leaf && d.matches == e.matches
  }

  lemma {:induction false} SameVotes(d: Dialect, e: Dialect, schemas: seq<Json>, x: Json, depth: nat)
    requires forall i :: 0 <= i < |schemas| ==> SameOn(d, e, schemas[i], depth)
    ensures Votes(d, schemas, x, depth) == Votes(e, schemas, x, depth)
    decreases |schemas|
  {
    hide Accepts;
    if schemas != [] {
      assert SameOn(d, e, schemas[0], depth);
      SameVotes(d, e, schemas[1..], x, depth);
    }
  }

  lemma {:induction false} SameMatching(d: Dialect, e: Dialect, s: Json, items: seq<Json>, depth: nat)
    requires SameOn(d, e, s, depth)
    ensures Matching(d, s, items, depth) == Matching(e, s, items, depth)
    decreases |items|
  {
    hide Accepts;
    if items != [] {
      SameMatching(d, e, s, items[1..], depth);
    }
  }

  lemma SameTables(d: Dialect, e: Dialect, table: seq<Field>, members: seq<Field>, depth: nat)
    requires SameReading(d, e) && forall i :: 0 <= i < |table| ==> SameOn(d, e, table[i].value, depth)
    ensures AcceptsProperties(d, table, members, depth) <==> AcceptsProperties(e, table, members, depth)
    ensures AcceptsPatterns(d, table, members, depth) <==> AcceptsPatterns(e, table, members, depth)
    ensures AcceptsDependent(d, table, members, depth) <==> AcceptsDependent(e, table, members, depth)
  {
    forall i, x | 0 <= i < |table|
      ensures Accepts(d, table[i].value, x, depth) <==> Accepts(e, table[i].value, x, depth)
    {
      assert SameOn(d, e, table[i].value, depth);
    }
  }

  lemma SamePositions(d: Dialect, e: Dialect, schemas: seq<Json>, items: seq<Json>, depth: nat)
    requires forall i :: 0 <= i < |schemas| ==> SameOn(d, e, schemas[i], depth)
    ensures AcceptsPositions(d, schemas, items, depth) <==> AcceptsPositions(e, schemas, items, depth)
  {
    forall i, x | 0 <= i < |schemas|
      ensures Accepts(d, schemas[i], x, depth) <==> Accepts(e, schemas[i], x, depth)
    {
      assert SameOn(d, e, schemas[i], depth);
    }
  }

  lemma SameEverywhere(d: Dialect, e: Dialect, fields: seq<Field>, v: Json, members: seq<Field>, items: seq<Json>,
                       depth: nat)
    requires SameReading(d, e) && SameOn(d, e, v, depth)
    ensures AcceptsAdditional(d, fields, v, members, depth) <==> AcceptsAdditional(e, fields, v, members, depth)
    ensures AcceptsNames(d, v, members, depth) <==> AcceptsNames(e, v, members, depth)
    ensures forall from: nat :: AcceptsRest(d, v, items, from, depth) <==> AcceptsRest(e, v, items, from, depth)
    ensures AcceptsContains(d, fields, v, items, depth) <==> AcceptsContains(e, fields, v, items, depth)
  {
    SameMatching(d, e, v, items, depth);
    assert forall key :: Additional(d, fields, key) <==> Additional(e, fields, key);
  }

  lemma SameObject(d: Dialect, e: Dialect, fields: seq<Field>, k: Keyword, v: Json, members: seq<Field>, depth: nat)
    requires SameReading(d, e) && SameParts(d, e, v, depth)
    ensures AcceptsObject(d, fields, k, v, members, depth) <==> AcceptsObject(e, fields, k, v, members, depth)
  {
    hide Accepts, AcceptsProperties, AcceptsPatterns, AcceptsAdditional, AcceptsNames, SameOn;
    SameEverywhere(d, e, fields, v, members, [], depth);
    if v.Obj? {
      SameTables(d, e, v.fields, members, depth);
    }
  }

  lemma SameArray(d: Dialect, e: Dialect, fields: seq<Field>, k: Keyword, v: Json, items: seq<Json>, depth: nat)
    requires SameReading(d, e) && SameParts(d, e, v, depth)
    ensures AcceptsArray(d, fields, k, v, items, depth) <==> AcceptsArray(e, fields, k, v, items, depth)
  {
    hide Accepts, AcceptsPositions, AcceptsRest, AcceptsContains, SameOn;
    SameEverywhere(d, e, fields, v, [], items, depth);
    if v.Arr? {
      SamePositions(d, e, v.items, items, depth);
    }
  }

  lemma SameAny(d: Dialect, e: Dialect, k: Keyword, v: Json, x: Json, depth: nat)
    requires SameReading(d, e) && SameParts(d, e, v, depth) && (k == Reference ==> SameReference(d, e, v, depth))
    ensures AcceptsAny(d, k, v, x, depth) <==> AcceptsAny(e, k, v, x, depth)
  {
    hide Votes, AcceptsDependent, Accepts;
    assert Accepts(d, v, x, depth) <==> Accepts(e, v, x, depth);
    if v.Arr? {
      SameVotes(d, e, v.items, x, depth);
    }
    if v.Obj? && x.Obj? {
      SameTables(d, e, v.fields, x.fields, depth);
    }
  }

  lemma SameField(d: Dialect, e: Dialect, fields: seq<Field>, f: Field, x: Json, depth: nat)
    requires SameReading(d, e) && SameValue(d, e, f, depth)
    ensures AcceptsField(d, fields, f, x, depth) <==> AcceptsField(e, fields, f, x, depth)
  {
    hide AcceptsObject, AcceptsArray, AcceptsAny, SameParts;
    var k, v := KeywordOf(f.key), f.value;
    if x.Obj? {
      SameObject(d, e, fields, k, v, x.fields, depth);
    }
    if x.Arr? {
      SameArray(d, e, fields, k, v, x.items, depth);
    }
    SameAny(d, e, k, v, x, depth);
  }

  lemma SameNode(d: Dialect, e: Dialect, fields: seq<Field>, x: Json, depth: nat)
    requires SameReading(d, e)
    requires forall i :: 0 <= i < |fields| ==> SameValue(d, e, fields[i], depth)
    ensures Accepts(d, Obj(fields), x, depth) <==> Accepts(e, Obj(fields), x, depth)
  {
    hide AcceptsField, SameParts;
    forall i | 0 <= i < |fields|
      ensures AcceptsField(d, fields, fields[i], x, depth) <==> AcceptsField(e, fields, fields[i], x, depth)
      ensures Accepts(d, fields[i].value, x, depth) <==> Accepts(e, fields[i].value, x, depth)
    {
      SameField(d, e, fields, fields[i], x, depth);
      ItselfSame(d, e, fields[i].value, x, depth);
    }
  }

  lemma ItselfSame(d: Dialect, e: Dialect, v: Json, x: Json, depth: nat)
    requires SameParts(d, e, v, depth)
    ensures Accepts(d, v, x, depth) <==> Accepts(e, v, x, depth)
  {
    hide Accepts;
  }

  /** A schema that refers only to definitions that are the same to both accepts the same to both. */
  lemma {:induction false} Same(d: Dialect, e: Dialect, names: set<Text>, s: Json, depth: nat)
    requires SameReading(d, e) && SameThere(d, e, names) && RefersOnlyTo(s, names)
    ensures SameParts(d, e, s, depth)
    decreases depth, s
  {
    hide Accepts, SameParts, SameThere;
    match s
    case Arr(items) =>
      forall i | 0 <= i < |items|
        ensures SameOn(d, e, items[i], depth)
      {
        Same(d, e, names, items[i], depth);
        PartsHoldItself(d, e, items[i], depth);
      }
      PartsOfArr(d, e, items, depth);
    case Obj(fields) =>
      forall i | 0 <= i < |fields|
        ensures SameValue(d, e, fields[i], depth)
      {
        Same(d, e, names, fields[i].value, depth);
        var v := fields[i].value;
        if KeywordOf(fields[i].key) == Reference {
          if v.Str? && depth > 0 && v.text in d.definitions {
            NamedSame(d, e, names, v.text);
            Same(d, e, names, d.definitions[v.text], depth - 1);
            PartsHoldItself(d, e, d.definitions[v.text], depth - 1);
          }
          ReferenceSame(d, e, names, v, depth);
        }
      }
      PartsOfObj(d, e, fields, depth);
    case _ => PartsOfLeaf(d, e, s, depth);
  }

  lemma NamedSame(d: Dialect, e: Dialect, names: set<Text>, r: Text)
    requires SameThere(d, e, names) && r in names && r in d.definitions
    ensures RefersOnlyTo(d.definitions[r], names)
  {
  }

  lemma ReferenceSame(d: Dialect, e: Dialect, names: set<Text>, v: Json, depth: nat)
    requires SameThere(d, e, names) && (v.Str? ==> v.text in names)
    requires v.Str? && depth > 0 && v.text in d.definitions ==> SameOn(d, e, d.definitions[v.text], depth - 1)
    ensures SameReference(d, e, v, depth)
  {
    forall x
      ensures AcceptsAny(d, Reference, v, x, depth) <==> AcceptsAny(e, Reference, v, x, depth)
    {
      if v.Str? && depth > 0 && v.text in d.definitions {
        assert Accepts(d, d.definitions[v.text], x, depth - 1) <==> Accepts(e, e.definitions[v.text], x, depth - 1);
      }
    }
  }

  lemma PartsHoldItself(d: Dialect, e: Dialect, v: Json, depth: nat)
    requires SameParts(d, e, v, depth)
    ensures SameOn(d, e, v, depth)
  {
  }

  lemma PartsOfArr(d: Dialect, e: Dialect, items: seq<Json>, depth: nat)
    requires forall i :: 0 <= i < |items| ==> SameOn(d, e, items[i], depth)
    ensures SameParts(d, e, Arr(items), depth)
  {
  }

  lemma PartsOfLeaf(d: Dialect, e: Dialect, s: Json, depth: nat)
    requires !s.Arr? && !s.Obj?
    ensures SameParts(d, e, s, depth)
  {
  }

  lemma PartsOfObj(d: Dialect, e: Dialect, fields: seq<Field>, depth: nat)
    requires SameReading(d, e)
    requires forall i :: 0 <= i < |fields| ==> SameValue(d, e, fields[i], depth)
    ensures SameParts(d, e, Obj(fields), depth)
  {
    hide Accepts;
    forall x
      ensures Accepts(d, Obj(fields), x, depth) <==> Accepts(e, Obj(fields), x, depth)
    {
      SameNode(d, e, fields, x, depth);
    }
  }

  /** What refers only to settled definitions accepts the same before and after. */
  lemma UnmovedSame(d: Dialect, s: Json, x: Json, depth: nat)
    requires Unmoved(d, s)
    ensures Accepts(d, s, x, depth) <==> Accepts(StrictDialect(d), s, x, depth)
  {
    hide Accepts, Strictify;
    var names: set<Text> :| Settled(d, names) && RefersOnlyTo(s, names);
    Same(d, StrictDialect(d), names, s, depth);
  }
}
