/** The schema rewrite of the strict proxy: it closes every node that declares properties. */
module StrictSchema {
  import opened Options
  import opened JsonValues

  // ----- What the walk descends into

  predicate HoldsSchema(k: Keyword) {
    k == Items || k == AdditionalItems || k == Contains || k == Not
  }

  predicate HoldsList(k: Keyword) {
    k == AnyOf || k == OneOf || k == AllOf || k == PrefixItems
  }

  predicate HoldsTable(k: Keyword) {
    k == Properties || k == Defs || k == Definitions || k == PatternProperties
  }

  // ----- Reading and setting a keyword of a node

  function At(fields: seq<Field>, k: Keyword): (v: Option<Json>)
    ensures v.Some? ==> exists i :: 0 <= i < |fields| && KeywordOf(fields[i].key) == k && fields[i].value == v.value
    ensures v.None? ==> forall i :: 0 <= i < |fields| ==> KeywordOf(fields[i].key) != k
  {
    if fields == [] then None
    else if KeywordOf(fields[0].key) == k then Some(fields[0].value)
    else At(fields[1..], k)
  }

  lemma {:induction false} AtIndex(fields: seq<Field>, i: nat)
    requires i < |fields| && Distinct(fields) && KeywordOf(fields[i].key) != Plain
    ensures At(fields, KeywordOf(fields[i].key)) == Some(fields[i].value)
  {
    if i > 0 {
      if KeywordOf(fields[0].key) == KeywordOf(fields[i].key) {
        assert false;
      }
      AtIndex(fields[1..], i - 1);
    }
  }

  /** Assignment to a key: in place when the key is there, at the end when it is not. */
  function Put(fields: seq<Field>, key: Text, value: Json): (r: seq<Field>)
    ensures |r| == if At(fields, KeywordOf(key)).Some? then |fields| else |fields| + 1
    ensures forall i :: 0 <= i < |fields| ==> r[i].key == fields[i].key
    ensures At(fields, KeywordOf(key)).None? ==> r == fields + [Field(key, value)]
  {
    if fields == [] then [Field(key, value)]
    else if KeywordOf(fields[0].key) == KeywordOf(key) then [Field(fields[0].key, value)] + fields[1..]
    else [fields[0]] + Put(fields[1..], key, value)
  }

  lemma {:induction false} PutIndex(fields: seq<Field>, key: Text, value: Json, i: nat)
    requires i < |fields| && Distinct(fields) && KeywordOf(key) != Plain
    ensures Put(fields, key, value)[i]
         == if KeywordOf(fields[i].key) == KeywordOf(key) then Field(fields[i].key, value) else fields[i]
  {
    if i > 0 {
      if KeywordOf(fields[0].key) != KeywordOf(key) {
        PutIndex(fields[1..], key, value, i - 1);
      } else if KeywordOf(fields[i].key) == KeywordOf(key) {
        assert false;
      }
    }
  }

  lemma PutDistinct(fields: seq<Field>, key: Text, value: Json)
    requires Distinct(fields) && KeywordOf(key) != Plain
    ensures Distinct(Put(fields, key, value))
  {
    var r := Put(fields, key, value);
    forall i, j | 0 <= i < j < |r|
      ensures r[i].key != r[j].key
    {
      if j == |fields| {
        assert KeywordOf(fields[i].key) != KeywordOf(key);
      }
    }
  }

  lemma {:induction false} AtPut(fields: seq<Field>, key: Text, value: Json, k: Keyword)
    ensures At(Put(fields, key, value), k) == if k == KeywordOf(key) then Some(value) else At(fields, k)
  {
    if fields != [] && KeywordOf(fields[0].key) != KeywordOf(key) {
      AtPut(fields[1..], key, value, k);
    }
  }

  lemma {:induction false} PutSame(fields: seq<Field>, key: Text)
    requires At(fields, KeywordOf(key)).Some?
    ensures Put(fields, key, At(fields, KeywordOf(key)).value) == fields
  {
    if KeywordOf(fields[0].key) != KeywordOf(key) {
      PutSame(fields[1..], key);
    }
  }

  // ----- The rewrite

  function Names(props: seq<Field>): seq<Json> {
    seq(|props|, i requires 0 <= i < |props| => Str(props[i].key))
  }

  function CloseWith(walked: seq<Field>, props: seq<Field>): seq<Field> {
    Put(Put(walked, Word(AdditionalProperties), Bool(false)), Word(Required), Arr(Names(props)))
  }

  ghost predicate Closing(fields: seq<Field>) {
    At(fields, Properties).Some? && At(fields, Properties).value.Obj?
  }

  /** A declared "properties" dictionary closes its node: nothing else allowed, everything required. */
  function Close(original: seq<Field>, walked: seq<Field>): seq<Field> {
    match At(original, Properties)
    case Some(Obj(props)) => CloseWith(walked, props)
    case _ => walked
  }

  function Strictify(node: Json): Json
    decreases node, 1
  {
    match node
    case Arr(items) => Arr(StrictifyItems(items))
    case Obj(fields) => Obj(Close(fields, StrictifyFields(fields)))
    case _ => node
  }

  function StrictifyItems(items: seq<Json>): seq<Json>
    decreases items, 0
  {
    seq(|items|, i requires 0 <= i < |items| => Strictify(items[i]))
  }

  /** The fields of a node, each walked if its key says so. */
  function StrictifyFields(fields: seq<Field>): seq<Field>
    decreases fields, 0
  {
    seq(|fields|, i requires 0 <= i < |fields| =>
      assert fields[i].value < fields[i]; Field(fields[i].key, StrictifyAt(KeywordOf(fields[i].key), fields[i].value)))
  }

  /** The values of a table of schemas, each walked. */
  function StrictifyTable(table: seq<Field>): seq<Field>
    decreases table, 0
  {
    seq(|table|, i requires 0 <= i < |table| =>
      assert table[i].value < table[i]; Field(table[i].key, Strictify(table[i].value)))
  }

  function StrictifyAt(k: Keyword, v: Json): Json
    decreases v, 2
  {
    if HoldsTable(k) && v.Obj? then Obj(StrictifyTable(v.fields))
    else if HoldsSchema(k) || (HoldsList(k) && v.Arr?) then Strictify(v)
    else v
  }

  lemma SchemaKey(k: Keyword, s: Json)
    requires HoldsSchema(k)
    ensures StrictifyAt(k, s) == Strictify(s)
  {
    hide Strictify, StrictifyTable;
  }

  lemma UnwalkedKey(k: Keyword, v: Json)
    requires !HoldsSchema(k) && !HoldsList(k) && !HoldsTable(k)
    ensures StrictifyAt(k, v) == v
  {
    hide Strictify, StrictifyTable;
  }

  // ----- What stands where after the rewrite of one node

  lemma CloseWithIndex(w: seq<Field>, props: seq<Field>, i: nat)
    requires Distinct(w) && i < |CloseWith(w, props)|
    ensures |w| <= |CloseWith(w, props)| && Distinct(CloseWith(w, props))
    ensures var f := CloseWith(w, props)[i];
            var k := KeywordOf(f.key);
            && (k == AdditionalProperties ==> f.value == Bool(false))
            && (k == Required ==> f.value == Arr(Names(props)))
            && (k != AdditionalProperties && k != Required ==> i < |w| && f == w[i])
            && (i < |w| ==> f.key == w[i].key)
  {
    var p := Put(w, Word(AdditionalProperties), Bool(false));
    PutDistinct(w, Word(AdditionalProperties), Bool(false));
    PutDistinct(p, Word(Required), Arr(Names(props)));
    if i < |p| {
      PutIndex(p, Word(Required), Arr(Names(props)), i);
    }
    if i < |w| {
      PutIndex(w, Word(AdditionalProperties), Bool(false), i);
    }
  }

  lemma CloseWithAt(w: seq<Field>, props: seq<Field>, k: Keyword)
    ensures At(CloseWith(w, props), k)
         == if k == AdditionalProperties then Some(Bool(false))
            else if k == Required then Some(Arr(Names(props)))
            else At(w, k)
  {
    AtPut(w, Word(AdditionalProperties), Bool(false), k);
    AtPut(Put(w, Word(AdditionalProperties), Bool(false)), Word(Required), Arr(Names(props)), k);
  }

  lemma {:induction false} AtStrictified(fields: seq<Field>, k: Keyword)
    ensures At(StrictifyFields(fields), k)
         == match At(fields, k) case None => None case Some(v) => Some(StrictifyAt(k, v))
  {
    if fields != [] && KeywordOf(fields[0].key) != k {
      AtStrictified(fields[1..], k);
      assert StrictifyFields(fields)[1..] == StrictifyFields(fields[1..]);
    }
  }

  /** The value of each keyword of a rewritten node. */
  lemma AtRewritten(fields: seq<Field>, k: Keyword)
    ensures At(Strictify(Obj(fields)).fields, k)
         == if Closing(fields) && k == AdditionalProperties then Some(Bool(false))
            else if Closing(fields) && k == Required then Some(Arr(Names(At(fields, Properties).value.fields)))
            else match At(fields, k) case None => None case Some(v) => Some(StrictifyAt(k, v))
  {
    AtStrictified(fields, k);
    if Closing(fields) {
      CloseWithAt(StrictifyFields(fields), At(fields, Properties).value.fields, k);
    }
  }

  /** The field at each place of a rewritten node. */
  lemma RewrittenIndex(fields: seq<Field>, i: nat)
    requires Distinct(fields) && i < |Strictify(Obj(fields)).fields|
    ensures var r := Strictify(Obj(fields)).fields;
            var k := KeywordOf(r[i].key);
            && |fields| <= |r| && Distinct(r)
            && (Closing(fields) && k == AdditionalProperties ==> r[i].value == Bool(false))
            && (Closing(fields) && k == Required ==> r[i].value == Arr(Names(At(fields, Properties).value.fields)))
            && (!Closing(fields) || (k != AdditionalProperties && k != Required) ==>
                  i < |fields| && r[i].value == StrictifyAt(k, fields[i].value))
            && (i < |fields| ==> r[i].key == fields[i].key)
  {
    hide StrictifyAt, CloseWith;
    var w := StrictifyFields(fields);
    assert Distinct(w);
    if Closing(fields) {
      CloseWithIndex(w, At(fields, Properties).value.fields, i);
    }
  }

  // ----- Every walked node ends closed; the rewrite changes nothing exactly when all are

  /** A list of exactly the names of the properties, in their order. */
  ghost predicate RequiresExactly(required: Option<Json>, props: seq<Field>) {
    && required.Some? && required.value.Arr? && |required.value.items| == |props|
    && forall i :: 0 <= i < |props| ==> required.value.items[i] == Str(props[i].key)
  }

  /** An object that declares properties allows no other and requires every one of them. */
  ghost predicate Closed(fields: seq<Field>) {
    Closing(fields) ==>
      && At(fields, AdditionalProperties) == Some(Bool(false))
      && RequiresExactly(At(fields, Required), At(fields, Properties).value.fields)
  }

  /** Every node a schema reaches through the keywords of AllClosedAt is closed. */
  ghost predicate AllClosed(node: Json)
    decreases node, 1
  {
    match node
    case Arr(items) => forall i :: 0 <= i < |items| ==> AllClosed(items[i])
    case Obj(fields) =>
      Closed(fields) && forall i :: 0 <= i < |fields| ==> AllClosedAt(KeywordOf(fields[i].key), fields[i].value)
    case _ => true
  }

  /** What has to be closed under a keyword: of a table its values, of a schema or a list of schemas itself. */
  ghost predicate AllClosedAt(k: Keyword, v: Json)
    decreases v, 2
  {
    match k
    case Properties | Defs | Definitions | PatternProperties => v.Obj? ==> TableClosed(v.fields)
    case Items | AdditionalItems | Contains | Not => AllClosed(v)
    case AnyOf | OneOf | AllOf | PrefixItems => v.Arr? ==> AllClosed(v)
    case _ => true
  }

  ghost predicate TableClosed(table: seq<Field>)
    decreases table, 0
  {
    forall i :: 0 <= i < |table| ==> assert table[i].value < table[i]; AllClosed(table[i].value)
  }

  lemma RewrittenParsed(fields: seq<Field>)
    requires Distinct(fields)
    requires forall i :: 0 <= i < |fields| ==> Parsed(StrictifyAt(KeywordOf(fields[i].key), fields[i].value))
    ensures Parsed(Strictify(Obj(fields)))
  {
    hide Strictify, StrictifyAt;
    StaysObject(fields);
    var r := Strictify(Obj(fields)).fields;
    if |r| > 0 {
      RewrittenIndex(fields, 0);
    }
    forall i | 0 <= i < |r|
      ensures Parsed(r[i].value)
    {
      RewrittenIndex(fields, i);
    }
  }

  lemma StaysObject(fields: seq<Field>)
    ensures Strictify(Obj(fields)).Obj?
  {
  }

  lemma {:induction false} StrictifyParsed(node: Json)
    requires Parsed(node)
    ensures Parsed(Strictify(node))
    decreases node, 1
  {
    match node
    case Arr(items) =>
      forall i | 0 <= i < |items|
        ensures Parsed(Strictify(items[i]))
      {
        StrictifyParsed(items[i]);
      }
    case Obj(fields) =>
      forall i | 0 <= i < |fields|
        ensures Parsed(StrictifyAt(KeywordOf(fields[i].key), fields[i].value))
      {
        StrictifyAtParsed(KeywordOf(fields[i].key), fields[i].value);
      }
      RewrittenParsed(fields);
    case _ =>
  }

  lemma {:induction false} StrictifyAtParsed(k: Keyword, v: Json)
    requires Parsed(v)
    ensures Parsed(StrictifyAt(k, v))
    decreases v, 2
  {
    if v.Obj? {
      var table := v.fields;
      forall i | 0 <= i < |table|
        ensures Parsed(Strictify(table[i].value))
      {
        StrictifyParsed(table[i].value);
      }
    }
    StrictifyParsed(v);
  }

  /** Every node the walk reaches, in the rewritten schema, is closed with all its properties required. */
  lemma {:induction false} RewriteCloses(node: Json)
    requires Parsed(node)
    ensures AllClosed(Strictify(node))
    decreases node, 1
  {
    match node
    case Arr(items) =>
      forall i | 0 <= i < |items|
        ensures AllClosed(Strictify(items[i]))
      {
        RewriteCloses(items[i]);
      }
    case Obj(fields) =>
      forall i | 0 <= i < |fields|
        ensures AllClosedAt(KeywordOf(fields[i].key), StrictifyAt(KeywordOf(fields[i].key), fields[i].value))
      {
        RewriteClosesAt(KeywordOf(fields[i].key), fields[i].value);
      }
      ClosedNode(fields);
    case _ =>
  }

  /** A rewritten node is closed when its walked fields are. */
  lemma ClosedNode(fields: seq<Field>)
    requires Distinct(fields)
    requires forall i :: 0 <= i < |fields| ==>
               AllClosedAt(KeywordOf(fields[i].key), StrictifyAt(KeywordOf(fields[i].key), fields[i].value))
    ensures AllClosed(Strictify(Obj(fields)))
  {
    hide Strictify, StrictifyAt, AllClosedAt, Closed;
    StaysObject(fields);
    var r := Strictify(Obj(fields)).fields;
    RewriteClosesNode(fields);
    forall i | 0 <= i < |r|
      ensures AllClosedAt(KeywordOf(r[i].key), r[i].value)
    {
      RewrittenIndex(fields, i);
      ClosingValues(KeywordOf(r[i].key), r[i].value);
    }
  }

  lemma ClosingValues(k: Keyword, v: Json)
    ensures k == AdditionalProperties || k == Required ==> AllClosedAt(k, v)
  {
    hide AllClosed, TableClosed;
  }

  lemma RewriteClosesNode(fields: seq<Field>)
    ensures Closed(Strictify(Obj(fields)).fields)
  {
    AtRewritten(fields, Properties);
    if Closing(fields) {
      var props := At(fields, Properties).value.fields;
      SameNames(props);
      AtRewritten(fields, AdditionalProperties);
      AtRewritten(fields, Required);
    }
  }

  lemma SameNames(props: seq<Field>)
    ensures Names(StrictifyTable(props)) == Names(props)
  {
  }

  lemma {:induction false} RewriteClosesAt(k: Keyword, v: Json)
    requires Parsed(v)
    ensures AllClosedAt(k, StrictifyAt(k, v))
    decreases v, 2
  {
    if v.Obj? {
      var table := v.fields;
      forall i | 0 <= i < |table|
        ensures AllClosed(Strictify(table[i].value))
      {
        RewriteCloses(table[i].value);
      }
    }
    RewriteCloses(v);
  }

  lemma RequiredNames(required: Option<Json>, props: seq<Field>)
    requires RequiresExactly(required, props)
    ensures required == Some(Arr(Names(props)))
  {
    assert required.value.items == Names(props);
  }

  lemma ClosedNodeIsFixed(fields: seq<Field>)
    requires Closed(fields) && StrictifyFields(fields) == fields
    ensures Strictify(Obj(fields)) == Obj(fields)
  {
    hide StrictifyFields, At, Put;
    if Closing(fields) {
      RequiredNames(At(fields, Required), At(fields, Properties).value.fields);
      PutSame(fields, Word(AdditionalProperties));
      PutSame(fields, Word(Required));
    }
  }

  lemma {:induction false} ClosedIsFixed(node: Json)
    requires Parsed(node) && AllClosed(node)
    ensures Strictify(node) == node
    decreases node, 1
  {
    match node
    case Arr(items) =>
      forall i | 0 <= i < |items|
        ensures Strictify(items[i]) == items[i]
      {
        ClosedIsFixed(items[i]);
      }
    case Obj(fields) =>
      forall i | 0 <= i < |fields|
        ensures StrictifyAt(KeywordOf(fields[i].key), fields[i].value) == fields[i].value
      {
        ClosedAtIsFixed(KeywordOf(fields[i].key), fields[i].value);
      }
      assert StrictifyFields(fields) == fields;
      ClosedNodeIsFixed(fields);
    case _ =>
  }

  lemma {:induction false} ClosedAtIsFixed(k: Keyword, v: Json)
    requires Parsed(v) && AllClosedAt(k, v)
    ensures StrictifyAt(k, v) == v
    decreases v, 2
  {
    hide AllClosed, AllClosedAt, Strictify, StrictifyTable, TableClosed;
    ClosedParts(k, v);
    if HoldsTable(k) && v.Obj? {
      TableIsFixed(v.fields);
    } else if HoldsSchema(k) || (HoldsList(k) && v.Arr?) {
      ClosedIsFixed(v);
    }
  }

  lemma ClosedParts(k: Keyword, v: Json)
    requires AllClosedAt(k, v)
    ensures HoldsTable(k) && v.Obj? ==> TableClosed(v.fields)
    ensures HoldsSchema(k) || (HoldsList(k) && v.Arr?) ==> AllClosed(v)
  {
    hide AllClosed, TableClosed;
  }

  lemma {:induction false} TableIsFixed(table: seq<Field>)
    requires TableClosed(table) && forall i :: 0 <= i < |table| ==> Parsed(table[i].value)
    ensures StrictifyTable(table) == table
    decreases table, 0
  {
    hide AllClosed, Strictify;
    forall i | 0 <= i < |table|
      ensures Strictify(table[i].value) == table[i].value
    {
      assert table[i].value < table[i];
      ClosedIsFixed(table[i].value);
    }
  }

  /** The rewrite changes nothing exactly on the schemas that are closed everywhere it looks. */
  lemma FixedIffClosed(node: Json)
    requires Parsed(node)
    ensures Strictify(node) == node <==> AllClosed(node)
  {
    RewriteCloses(node);
    if AllClosed(node) {
      ClosedIsFixed(node);
    }
  }

  lemma RewriteIdempotent(node: Json)
    requires Parsed(node)
    ensures Strictify(Strictify(node)) == Strictify(node)
  {
    StrictifyParsed(node);
    RewriteCloses(node);
    ClosedIsFixed(Strictify(node));
  }

  // ----- The parts of a rewritten node

  ghost predicate TableKey(k: Keyword) { k == Defs || k == Definitions || k == PatternProperties || k == Properties }

  ghost predicate SchemaKeyword(k: Keyword) { k == Items || k == AdditionalItems || k == Contains || k == Not }

  ghost predicate ListKey(k: Keyword) { k == AnyOf || k == OneOf || k == AllOf || k == PrefixItems }

  /** Same keys, each with its value rewritten and closed. */
  ghost predicate ClosedTable(before: seq<Field>, after: seq<Field>) {
    && |after| == |before|
    && forall i :: 0 <= i < |before| ==>
         after[i] == Field(before[i].key, Strictify(before[i].value)) && AllClosed(after[i].value)
  }

  /** Each schema of a list rewritten and closed. */
  ghost predicate ClosedList(before: seq<Json>, after: seq<Json>) {
    && |after| == |before|
    && forall i :: 0 <= i < |before| ==> after[i] == Strictify(before[i]) && AllClosed(after[i])
  }

  /** What a part that is there before becomes. */
  ghost predicate RewrittenPart(k: Keyword, v: Json, w: Json) {
    && (TableKey(k) && v.Obj? ==> w.Obj? && ClosedTable(v.fields, w.fields))
    && (SchemaKeyword(k) ==> w == Strictify(v) && AllClosed(w))
    && (ListKey(k) && v.Arr? ==> w.Arr? && ClosedList(v.items, w.items))
    && (!TableKey(k) && !SchemaKeyword(k) && !ListKey(k) ==> w == v)
  }

  lemma PartRewritten(k: Keyword, v: Json)
    requires Parsed(v)
    ensures RewrittenPart(k, v, StrictifyAt(k, v))
  {
    hide AllClosed, Strictify;
    if v.Obj? {
      forall i | 0 <= i < |v.fields|
        ensures AllClosed(Strictify(v.fields[i].value))
      {
        RewriteCloses(v.fields[i].value);
      }
    }
    ListRewritten(v);
    RewriteCloses(v);
  }

  lemma ListRewritten(v: Json)
    requires Parsed(v)
    ensures v.Arr? ==> Strictify(v).Arr? && ClosedList(v.items, Strictify(v).items)
  {
    hide AllClosed;
    if v.Arr? {
      forall i | 0 <= i < |v.items|
        ensures AllClosed(Strictify(v.items[i]))
      {
        RewriteCloses(v.items[i]);
      }
    }
  }

  /** Each of the four tables, the four schemas and the four lists of schemas that a node has is there after the
      rewrite, with every object in it closed; what stands under any other keyword stays, except for the two
      keywords that close a node. */
  lemma RewrittenParts(fields: seq<Field>, k: Keyword)
    requires Parsed(Obj(fields))
    requires At(fields, k).Some? && k != AdditionalProperties && k != Required
    ensures At(Strictify(Obj(fields)).fields, k).Some?
    ensures RewrittenPart(k, At(fields, k).value, At(Strictify(Obj(fields)).fields, k).value)
  {
    hide AllClosed, Strictify, StrictifyAt, RewrittenPart, Closing;
    AtRewritten(fields, k);
    PartRewritten(k, At(fields, k).value);
  }
}
