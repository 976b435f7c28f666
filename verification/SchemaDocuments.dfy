/** A schema document with its own definitions: what a reference stands for is read from "$defs" and
    "definitions" of the document itself, before the rewrite and after it. */
module SchemaDocuments {
  import opened Options
  import opened JsonValues
  import opened StrictSchema
  import opened SchemaMeaning
  import opened SchemaNarrowing

  /** Where a reference points: to a name under one of the two tables of definitions. */
  datatype Place = Place(k: Keyword, name: Text)

  ghost predicate Places(places: map<Text, Place>) {
    forall r :: r in places ==> places[r].k == Defs || places[r].k == Definitions
  }

  function Entry(table: seq<Field>, name: Text): (v: Option<Json>)
    ensures v.Some? ==> exists i :: 0 <= i < |table| && table[i].key == name && table[i].value == v.value
    ensures v.None? ==> forall i :: 0 <= i < |table| ==> table[i].key != name
  {
    if table == [] then None
    else if table[0].key == name then Some(table[0].value)
    else Entry(table[1..], name)
  }

  function Lookup(doc: seq<Field>, p: Place): Option<Json> {
    match At(doc, p.k) case Some(Obj(table)) => Entry(table, p.name) case _ => None
  }

  /** What the references of a document stand for; one that points to nothing has no schema. */
  function DefinitionsOf(doc: seq<Field>, places: map<Text, Place>): map<Text, Json> {
    map r | r in places && Lookup(doc, places[r]).Some? :: Lookup(doc, places[r]).value
  }

  /** How the references of a document are read. */
  function DialectOf(doc: seq<Field>, places: map<Text, Place>, leaf: (Text, Json, Json) -> bool,
                     matches: (Text, Text) -> bool): Dialect {
    Dialect(leaf, matches, DefinitionsOf(doc, places))
  }

  lemma {:induction false} EntryRewritten(table: seq<Field>, after: seq<Field>, name: Text)
    requires ClosedTable(table, after)
    ensures Entry(after, name) == match Entry(table, name) case None => None case Some(v) => Some(Strictify(v))
  {
    hide Strictify, AllClosed;
    if table != [] && table[0].key != name {
      EntryRewritten(table[1..], after[1..], name);
    }
  }

  lemma LookupRewritten(doc: seq<Field>, p: Place)
    requires Parsed(Obj(doc)) && (p.k == Defs || p.k == Definitions)
    ensures Lookup(Strictify(Obj(doc)).fields, p)
         == match Lookup(doc, p) case None => None case Some(v) => Some(Strictify(v))
  {
    hide Strictify, StrictifyAt, AllClosed, ClosedTable, Entry;
    StaysObject(doc);
    AtRewritten(doc, p.k);
    if At(doc, p.k).Some? {
      RewrittenParts(doc, p.k);
      var v := At(doc, p.k).value;
      if v.Obj? {
        EntryRewritten(v.fields, At(Strictify(Obj(doc)).fields, p.k).value.fields, p.name);
      } else {
        NoTable(p.k, v);
      }
    }
  }

  lemma NoTable(k: Keyword, v: Json)
    requires (k == Defs || k == Definitions) && !v.Obj?
    ensures StrictifyAt(k, v) == v
  {
  }

  /** The definitions that a rewritten document holds are the document's, each rewritten. */
  lemma DefinitionsRewritten(doc: seq<Field>, places: map<Text, Place>, leaf: (Text, Json, Json) -> bool,
                             matches: (Text, Text) -> bool)
    requires Parsed(Obj(doc)) && Places(places)
    ensures StrictDialect(DialectOf(doc, places, leaf, matches))
         == DialectOf(Strictify(Obj(doc)).fields, places, leaf, matches)
  {
    hide Strictify, Lookup;
    StaysObject(doc);
    forall r | r in places
      ensures Lookup(Strictify(Obj(doc)).fields, places[r])
           == match Lookup(doc, places[r]) case None => None case Some(v) => Some(Strictify(v))
    {
      LookupRewritten(doc, places[r]);
    }
    var after := DefinitionsOf(Strictify(Obj(doc)).fields, places);
    assert StrictDialect(DialectOf(doc, places, leaf, matches)).definitions == after;
  }

  /** For a whole document: what the rewritten document accepts, its references read from itself, the original
      accepts. */
  lemma DocumentNarrows(doc: seq<Field>, places: map<Text, Place>, leaf: (Text, Json, Json) -> bool,
                        matches: (Text, Text) -> bool, x: Json, depth: nat)
    requires Places(places) && Monotone(DialectOf(doc, places, leaf, matches), Obj(doc))
    requires MonotoneDefinitions(DialectOf(doc, places, leaf, matches))
    ensures var r := Strictify(Obj(doc));
            Accepts(DialectOf(r.fields, places, leaf, matches), r, x, depth) ==>
              Accepts(DialectOf(doc, places, leaf, matches), Obj(doc), x, depth)
  {
    hide Accepts, Strictify, DialectOf, MonotoneDefinitions;
    var d := DialectOf(doc, places, leaf, matches);
    assert Parsed(Obj(doc));
    DefinitionsRewritten(doc, places, leaf, matches);
    RewriteNarrows(d, Obj(doc), x, depth);
  }
}
