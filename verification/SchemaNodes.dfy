/** The schema rewrite as the proxy does it: dictionaries changed in place while the walk goes down. */
module SchemaNodes {
  import opened Options
  import opened JsonValues
  import opened StrictSchema

  /** A value in memory.  Only dictionaries are changed, so only they are objects. */
  datatype Ref = Leaf(v: Json) | List(items: seq<Ref>) | Dict(d: Node)

  predicate Scalar(v: Json) { v.Null? || v.Bool? || v.Num? || v.Str? }

  /** The dictionaries in and below a value. */
  ghost function Foot(r: Ref): set<Node> {
    match r
    case Leaf(_) => {}
    case List(items) => set i, n | 0 <= i < |items| && n in Foot(items[i]) :: n
    case Dict(d) => d.repr
  }

  lemma FootOfItem(items: seq<Ref>, i: nat)
    requires i < |items|
    ensures Foot(items[i]) <= Foot(List(items))
  {
  }

  ghost predicate Apart(refs: seq<Ref>) {
    forall i, j :: 0 <= i < j < |refs| ==> Foot(refs[i]) !! Foot(refs[j])
  }

  /** A tree: what a parser builds. */
  ghost predicate Valid(r: Ref)
    reads Foot(r)
    decreases Foot(r), 1, r
  {
    match r
    case Leaf(v) => Scalar(v)
    case List(items) => Apart(items) && forall i :: 0 <= i < |items| ==> (FootOfItem(items, i); Valid(items[i]))
    case Dict(d) => d in d.repr && d.Good()
  }

  class Node {
    ghost const repr: set<Node>
    var keys: seq<Text>
    var vals: seq<Ref>

    ghost predicate Good()
      requires this in repr
      reads this, repr
      decreases repr, 0
    {
      && |keys| == |vals| && (forall i, j :: 0 <= i < j < |keys| ==> keys[i] != keys[j])
      && Apart(vals)
      && forall i :: 0 <= i < |vals| ==> Foot(vals[i]) <= repr - {this} && Valid(vals[i])
    }
  }

  ghost function Value(r: Ref): Json
    requires Valid(r)
    reads Foot(r)
    decreases Foot(r), 1, r
  {
    match r
    case Leaf(v) => v
    case List(items) =>
      Arr(seq(|items|, i requires 0 <= i < |items| && Foot(items[i]) <= Foot(r) && Valid(items[i]) reads Foot(r) =>
        Value(items[i])))
    case Dict(d) => Obj(Fields(d))
  }

  ghost function Fields(d: Node): (fields: seq<Field>)
    requires d in d.repr && d.Good()
    reads d, d.repr
    ensures |fields| == |d.keys|
    decreases d.repr, 0
  {
    seq(|d.keys|,
      i requires 0 <= i < |d.keys| == |d.vals| && Foot(d.vals[i]) < d.repr && Valid(d.vals[i]) reads d, d.repr =>
      Field(d.keys[i], Value(d.vals[i])))
  }

  /** What the values are now. */
  lemma Snapshot(refs: seq<Ref>) returns (was: seq<Json>)
    requires forall i :: 0 <= i < |refs| ==> Valid(refs[i])
    ensures |was| == |refs| && forall i :: 0 <= i < |refs| ==> was[i] == Value(refs[i])
  {
    was := [];
    for i := 0 to |refs|
      invariant |was| == i && forall j :: 0 <= j < i ==> was[j] == Value(refs[j])
    {
      was := was + [Value(refs[i])];
    }
  }

  // ----- The walk

  method Walk(r: Ref)
    requires Valid(r)
    modifies Foot(r)
    ensures Valid(r) && Value(r) == Strictify(old(Value(r))) && AllClosed(Value(r))
    decreases Foot(r), r, 5
  {
    hide AllClosed;
    ValueParsed(r);
    RewriteCloses(Value(r));
    match r
    case Leaf(v) =>
    case List(items) =>
      WalkItems(items);
    case Dict(d) =>
      Rewrite(d);
  }

  /** No dictionary in memory has a key twice. */
  lemma {:induction false} ValueParsed(r: Ref)
    requires Valid(r)
    ensures Parsed(Value(r))
    decreases Foot(r), 1, r
  {
    match r
    case Leaf(v) =>
    case List(items) =>
      forall i | 0 <= i < |items|
        ensures Parsed(Value(items[i]))
      {
        FootOfItem(items, i);
        ValueParsed(items[i]);
      }
    case Dict(d) =>
      forall i | 0 <= i < |d.vals|
        ensures Parsed(Value(d.vals[i]))
      {
        ValueParsed(d.vals[i]);
      }
  }

  lemma FootExists(r: Ref)
    ensures allocated(Foot(r))
  {
    match r
    case Leaf(_) =>
    case List(items) =>
      forall i | 0 <= i < |items|
        ensures allocated(Foot(items[i]))
      {
        FootExists(items[i]);
      }
    case Dict(d) =>
  }

  /** Every element in turn; they share no dictionary, so walking one leaves the others alone. */
  method WalkItems(items: seq<Ref>)
    requires Apart(items) && forall i :: 0 <= i < |items| ==> Valid(items[i])
    modifies Foot(List(items))
    ensures forall i :: 0 <= i < |items| ==> Valid(items[i]) && Value(items[i]) == Strictify(old(Value(items[i])))
    decreases Foot(List(items)), List(items), 0
  {
    hide Valid, Value, Foot, Strictify;
    ghost var was := Snapshot(items);
    for i := 0 to |items|
      invariant forall j :: 0 <= j < |items| ==> Valid(items[j])
      invariant forall j :: 0 <= j < |items| ==> Value(items[j]) == if j < i then Strictify(was[j]) else was[j]
    {
      FootOfItem(items, i);
      forall j | 0 <= j < |items|
        ensures allocated(Foot(items[j]))
      {
        FootExists(items[j]);
      }
      label L:
      Walk(items[i]);
      forall j | 0 <= j < |items| && j != i
        ensures Valid(items[j]) && Value(items[j]) == old@L(Value(items[j]))
      {
        assert Foot(items[j]) !! Foot(items[i]);
        assert Valid(items[j]);
      }
    }
  }

  // ----- Keys

  function FindKey(keys: seq<Text>, k: Keyword): (r: Option<nat>)
    ensures r.Some? ==> r.value < |keys| && KeywordOf(keys[r.value]) == k && forall i :: 0 <= i < r.value ==>
      KeywordOf(keys[i]) != k
    ensures r.None? ==> forall i :: 0 <= i < |keys| ==> KeywordOf(keys[i]) != k
  {
    if keys == [] then None
    else if KeywordOf(keys[0]) == k then Some(0)
    else
      var r := FindKey(keys[1..], k);
      if r.None? then None else Some(r.value + 1)
  }

  ghost function KeysOf(fields: seq<Field>): seq<Text> {
    seq(|fields|, i requires 0 <= i < |fields| => fields[i].key)
  }

  lemma {:induction false} FindIsAt(fields: seq<Field>, k: Keyword)
    ensures At(fields, k) == match FindKey(KeysOf(fields), k) case None => None case Some(i) => Some(fields[i].value)
  {
    if fields != [] && KeywordOf(fields[0].key) != k {
      FindIsAt(fields[1..], k);
      assert KeysOf(fields)[1..] == KeysOf(fields[1..]);
    }
  }

  /** Assignment to the first field with a key's keyword, or to a new one at the end. */
  ghost function SetAt(fields: seq<Field>, p: Option<nat>, key: Text, value: Json): seq<Field>
    requires p.Some? ==> p.value < |fields|
  {
    if p.None? then fields + [Field(key, value)] else fields[p.value := Field(fields[p.value].key, value)]
  }

  lemma SetBehind(f: Field, rest: seq<Field>, p: Option<nat>, key: Text, value: Json)
    requires p.Some? ==> p.value < |rest|
    ensures SetAt([f] + rest, if p.None? then None else Some(p.value + 1), key, value)
         == [f] + SetAt(rest, p, key, value)
  {
  }

  lemma {:induction false} FindIsPut(fields: seq<Field>, key: Text, value: Json)
    ensures Put(fields, key, value) == SetAt(fields, FindKey(KeysOf(fields), KeywordOf(key)), key, value)
  {
    if fields != [] && KeywordOf(fields[0].key) != KeywordOf(key) {
      hide SetAt;
      FindIsPut(fields[1..], key, value);
      assert KeysOf(fields)[1..] == KeysOf(fields[1..]) && fields == [fields[0]] + fields[1..];
      SetBehind(fields[0], fields[1..], FindKey(KeysOf(fields[1..]), KeywordOf(key)), key, value);
    }
  }

  // ----- One node

  /** The value of the field with a certain keyword, walked. */
  function WalkKey(fields: seq<Field>, k: Keyword): seq<Field> {
    seq(|fields|, i requires 0 <= i < |fields| =>
      if KeywordOf(fields[i].key) == k then Field(fields[i].key, StrictifyAt(k, fields[i].value)) else fields[i])
  }

  method WalkTable(d: Node)
    requires d in d.repr && d.Good()
    modifies d.repr
    ensures d.Good() && d.keys == old(d.keys) && d.vals == old(d.vals) && Fields(d) == StrictifyTable(old(Fields(d)))
    decreases d.repr, Dict(d), 1
  {
    assert Foot(List(d.vals)) < d.repr;
    WalkItems(d.vals);
  }

  method WalkAt(k: Keyword, r: Ref)
    requires Valid(r)
    modifies Foot(r)
    ensures Valid(r) && Value(r) == StrictifyAt(k, old(Value(r)))
    decreases Foot(r), r, 6
  {
    if HoldsTable(k) {
      if r.Dict? {
        WalkTable(r.d);
      }
    } else if HoldsSchema(k) || (HoldsList(k) && r.List?) {
      Walk(r);
    }
  }

  method WalkKeyword(d: Node, k: Keyword)
    requires d in d.repr && d.Good() && k != Plain
    modifies d.repr
    ensures d.Good() && Fields(d) == WalkKey(old(Fields(d)), k)
    decreases d.repr, Dict(d), 2
  {
    hide Valid, Value, StrictifyAt;
    var p := FindKey(d.keys, k);
    if p.Some? {
      var i := p.value;
      forall j | 0 <= j < |d.vals|
        ensures allocated(Foot(d.vals[j]))
      {
        FootExists(d.vals[j]);
      }
      WalkAt(k, d.vals[i]);
    }
  }

  /** After is before with the fields of some keywords walked. */
  ghost predicate Walked(before: seq<Field>, after: seq<Field>, done: set<Keyword>) {
    |after| == |before| && forall i :: 0 <= i < |before| ==> after[i] == WalkedField(before[i], done)
  }

  ghost function WalkedField(f: Field, done: set<Keyword>): Field {
    if KeywordOf(f.key) in done then Field(f.key, StrictifyAt(KeywordOf(f.key), f.value)) else f
  }

  lemma WalkedMore(before: seq<Field>, after: seq<Field>, done: set<Keyword>, k: Keyword)
    requires Walked(before, after, done) && k !in done
    ensures Walked(before, WalkKey(after, k), done + {k})
  {
  }

  ghost function Elements(ks: seq<Keyword>): set<Keyword> { set k | k in ks }

  ghost predicate Fresh(ks: seq<Keyword>, done: set<Keyword>) {
    && (forall k :: k in ks ==> k != Plain && k !in done)
    && forall i, j :: 0 <= i < j < |ks| ==> ks[i] != ks[j]
  }

  /** The keywords of a list, one after the other. */
  method WalkKeywords(d: Node, ks: seq<Keyword>, ghost before: seq<Field>, ghost done: set<Keyword>)
    requires d in d.repr && d.Good() && Walked(before, Fields(d), done)
    requires Fresh(ks, done)
    modifies d.repr
    ensures d.Good() && Walked(before, Fields(d), done + Elements(ks))
    decreases d.repr, Dict(d), 3
  {
    hide Walked;
    assert done + Elements(ks[..0]) == done;
    for i := 0 to |ks|
      invariant d.Good() && Walked(before, Fields(d), done + Elements(ks[..i]))
    {
      WalkedMore(before, Fields(d), done + Elements(ks[..i]), ks[i]);
      WalkKeyword(d, ks[i]);
      assert ks[..i + 1] == ks[..i] + [ks[i]];
      assert done + Elements(ks[..i]) + {ks[i]} == done + Elements(ks[..i + 1]);
    }
    assert ks[..|ks|] == ks;
  }

  /** Assignment to a key of a dictionary, of a value that holds no dictionary. */
  method Assign(d: Node, key: Text, r: Ref)
    requires d in d.repr && d.Good() && KeywordOf(key) != Plain && Valid(r) && Foot(r) == {}
    modifies d
    ensures d.Good() && Fields(d) == Put(old(Fields(d)), key, old(Value(r)))
  {
    hide Valid, Value, Put, At, FindKey, Foot;
    ghost var was, v := Fields(d), Value(r);
    assert KeysOf(was) == d.keys;
    FindIsPut(was, key, v);
    var p := FindKey(d.keys, KeywordOf(key));
    FindMeaning(d.keys, KeywordOf(key), key);
    if p.Some? {
      d.vals := d.vals[p.value := r];
    } else {
      d.keys := d.keys + [key];
      d.vals := d.vals + [r];
    }
  }

  lemma FindMeaning(keys: seq<Text>, k: Keyword, key: Text)
    requires k == KeywordOf(key)
    ensures FindKey(keys, k).Some? ==> FindKey(keys, k).value < |keys|
    ensures FindKey(keys, k).None? ==> key !in keys
  {
  }

  lemma WalkedHead(f: Field, rest: seq<Field>)
    ensures StrictifyFields([f] + rest)
         == [Field(f.key, StrictifyAt(KeywordOf(f.key), f.value))] + StrictifyFields(rest)
  {
    hide StrictifyAt;
  }

  lemma {:induction false} PutWalked(fields: seq<Field>, key: Text, value: Json)
    requires StrictifyAt(KeywordOf(key), value) == value
    ensures StrictifyFields(Put(fields, key, value)) == Put(StrictifyFields(fields), key, value)
  {
    hide StrictifyFields, StrictifyAt;
    NoFields();
    if fields == [] {
      WalkedHead(Field(key, value), []);
      assert [Field(key, value)] + [] == [Field(key, value)];
    } else {
      var f, rest := fields[0], fields[1..];
      assert fields == [f] + rest;
      WalkedHead(f, rest);
      assert StrictifyFields(fields)[1..] == StrictifyFields(rest);
      if KeywordOf(f.key) == KeywordOf(key) {
        WalkedHead(Field(f.key, value), rest);
      } else {
        PutWalked(rest, key, value);
        WalkedHead(f, Put(rest, key, value));
      }
    }
  }

  lemma NoFields()
    ensures StrictifyFields([]) == []
  {
  }

  lemma AddedStay(names: seq<Json>)
    ensures StrictifyAt(AdditionalProperties, Bool(false)) == Bool(false)
    ensures StrictifyAt(Required, Arr(names)) == Arr(names)
  {
  }

  /** What closing a node adds is not walked, so it may come before the walk or after. */
  lemma CloseFirst(fields: seq<Field>)
    ensures StrictifyFields(Close(fields, fields)) == Close(fields, StrictifyFields(fields))
  {
    hide StrictifyFields, StrictifyAt, Put, At, Names;
    if Closing(fields) {
      var props := At(fields, Properties).value.fields;
      AddedStay(Names(props));
      PutWalked(fields, Word(AdditionalProperties), Bool(false));
      PutWalked(Put(fields, Word(AdditionalProperties), Bool(false)), Word(Required), Arr(Names(props)));
    }
  }

  lemma AllWalked(before: seq<Field>, after: seq<Field>, done: set<Keyword>)
    requires Walked(before, after, done)
    requires forall k :: HoldsSchema(k) || HoldsList(k) || HoldsTable(k) ==> k in done
    ensures after == StrictifyFields(before)
  {
  }

  const SINGLES: seq<Keyword> := [Items, AdditionalItems, Contains, Not]
  const LISTS: seq<Keyword> := [AnyOf, OneOf, AllOf, PrefixItems]
  const TABLES: seq<Keyword> := [Defs, Definitions, PatternProperties]

  ghost function Walkable(): set<Keyword> {
    {Properties} + Elements(SINGLES) + Elements(LISTS) + Elements(TABLES)
  }

  lemma SinglesFresh()
    ensures Fresh(SINGLES, {Properties}) && Elements(SINGLES) == {Items, AdditionalItems, Contains, Not}
  {
    assert Items in SINGLES && AdditionalItems in SINGLES && Contains in SINGLES && Not in SINGLES;
  }

  lemma ListsFresh()
    ensures Fresh(LISTS, {Properties, Items, AdditionalItems, Contains, Not})
    ensures Elements(LISTS) == {AnyOf, OneOf, AllOf, PrefixItems}
  {
    assert AnyOf in LISTS && OneOf in LISTS && AllOf in LISTS && PrefixItems in LISTS;
  }

  lemma TablesFresh()
    ensures Fresh(TABLES, {Properties, Items, AdditionalItems, Contains, Not, AnyOf, OneOf, AllOf, PrefixItems})
  {
    assert |TABLES| == 3;
  }

  lemma TablesElements()
    ensures Elements(TABLES) == {Defs, Definitions, PatternProperties}
  {
    assert Defs in TABLES && Definitions in TABLES && PatternProperties in TABLES;
  }

  /** The keywords that are walked are those of the lists. */
  lemma KeywordLists()
    ensures Fresh(SINGLES, {Properties})
    ensures Fresh(LISTS, {Properties} + Elements(SINGLES))
    ensures Fresh(TABLES, {Properties} + Elements(SINGLES) + Elements(LISTS))
    ensures forall k :: HoldsSchema(k) || HoldsList(k) || HoldsTable(k) ==> k in Walkable()
  {
    hide Fresh, Elements;
    SinglesFresh();
    ListsFresh();
    TablesFresh();
    TablesElements();
    assert {Properties} + Elements(SINGLES) == {Properties, Items, AdditionalItems, Contains, Not};
    assert {Properties, Items, AdditionalItems, Contains, Not} + Elements(LISTS)
        == {Properties, Items, AdditionalItems, Contains, Not, AnyOf, OneOf, AllOf, PrefixItems};
  }

  lemma WalkedOne(fields: seq<Field>)
    ensures Walked(fields, WalkKey(fields, Properties), {Properties})
  {
    WalkedMore(fields, fields, {}, Properties);
    assert {} + {Properties} == {Properties};
  }

  lemma ValueKind(r: Ref)
    requires Valid(r)
    ensures Value(r).Obj? <==> r.Dict?
    ensures r.Dict? ==> Names(Value(r).fields) == StringsOf(r.d.keys)
  {
  }

  lemma KeysOfFields(d: Node)
    requires d in d.repr && d.Good()
    ensures KeysOf(Fields(d)) == d.keys && |d.vals| == |d.keys|
    ensures forall i :: 0 <= i < |d.keys| ==> Valid(d.vals[i]) && Fields(d)[i].value == Value(d.vals[i])
  {
  }

  lemma ClosingIs(fields: seq<Field>)
    ensures Close(fields, fields)
         == match At(fields, Properties)
            case Some(Obj(props)) =>
              Put(Put(fields, Word(AdditionalProperties), Bool(false)), Word(Required), Arr(Names(props)))
            case _ => fields
  {
  }

  /** A declared "properties" dictionary closes its node. */
  method CloseNode(d: Node)
    requires d in d.repr && d.Good()
    modifies d
    ensures d.Good() && Fields(d) == Close(old(Fields(d)), old(Fields(d)))
  {
    hide *;
    ghost var was := Fields(d);
    KeysOfFields(d);
    FindIsAt(was, Properties);
    WordKeywords();
    FindMeaning(d.keys, Properties, Word(Properties));
    ClosingIs(was);
    var p := FindKey(d.keys, Properties);
    if p.Some? {
      ValueKind(d.vals[p.value]);
      if d.vals[p.value].Dict? {
        var keys := d.vals[p.value].d.keys;
        NamesHoldNothing(keys);
        FalseHoldsNothing();
        Assign(d, Word(AdditionalProperties), Leaf(Bool(false)));
        Assign(d, Word(Required), List(NamesOf(keys)));
      }
    }
  }

  lemma FalseHoldsNothing()
    ensures Foot(Leaf(Bool(false))) == {} && Valid(Leaf(Bool(false))) && Value(Leaf(Bool(false))) == Bool(false)
  {
  }

  lemma WordKeywords()
    ensures forall k :: KeywordOf(Word(k)) == k
  {
  }

  function StringsOf(keys: seq<Text>): seq<Json> {
    seq(|keys|, i requires 0 <= i < |keys| => Str(keys[i]))
  }

  function NamesOf(keys: seq<Text>): seq<Ref> {
    seq(|keys|, i requires 0 <= i < |keys| => Leaf(Str(keys[i])))
  }

  lemma NamesHoldNothing(keys: seq<Text>)
    ensures Foot(List(NamesOf(keys))) == {} && Valid(List(NamesOf(keys)))
    ensures Value(List(NamesOf(keys))) == Arr(StringsOf(keys))
  {
  }

  /** Closes the dictionary when it declares properties, and walks what is below it. */
  method Rewrite(d: Node)
    requires d in d.repr && d.Good()
    modifies d.repr
    ensures d.Good() && Fields(d) == Close(old(Fields(d)), StrictifyFields(old(Fields(d))))
    decreases d.repr, Dict(d), 4
  {
    hide *;
    ghost var was := Fields(d);
    CloseNode(d);
    ghost var closed := Fields(d);
    KeywordLists();
    CloseFirst(was);
    WalkedOne(closed);
    WalkKeyword(d, Properties);
    WalkKeywords(d, SINGLES, closed, {Properties});
    WalkKeywords(d, LISTS, closed, {Properties} + Elements(SINGLES));
    WalkKeywords(d, TABLES, closed, {Properties} + Elements(SINGLES) + Elements(LISTS));
    WalkableIs();
    AllWalked(closed, Fields(d), Walkable());
  }

  lemma WalkableIs()
    ensures Walkable() == {Properties} + Elements(SINGLES) + Elements(LISTS) + Elements(TABLES)
  {
  }
}
