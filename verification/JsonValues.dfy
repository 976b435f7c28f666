/** JSON values as a parser leaves them: dictionaries keep the order in which keys were first set. */
module JsonValues {
  import opened Options

  /** The words a schema gives a meaning to, as they are spelled in JSON except for their capitals;
      Reference is "$ref", Defs is "$defs" and DynamicReference is "$dynamicRef". */
  datatype Keyword =
    | Properties | Required | AdditionalProperties | PatternProperties
    | Items | AdditionalItems | PrefixItems | Contains | MinContains | MaxContains
    | Not | AnyOf | OneOf | AllOf | Reference | Defs | Definitions
    | If | Then | Else | DependentSchemas | PropertyNames
    | UnevaluatedProperties | UnevaluatedItems | Dependencies | DynamicReference | Plain

  /** A JSON string: one of those words, or any other. */
  datatype Text = Word(k: Keyword) | Other(s: string)

  function KeywordOf(t: Text): Keyword {
    if t.Word? then t.k else Plain
  }

  datatype Field = Field(key: Text, value: Json)

  datatype Json =
    | Null
    | Bool(b: bool)
    | Num(n: real)
    | Str(text: Text)
    | Arr(items: seq<Json>)
    | Obj(fields: seq<Field>)

  ghost predicate Distinct(fields: seq<Field>) {
    forall i, j :: 0 <= i < j < |fields| ==> fields[i].key != fields[j].key
  }

  /** What a parser returns: no dictionary, at any depth, has a key twice. */
  ghost predicate Parsed(v: Json) {
    match v
    case Arr(items) => forall i :: 0 <= i < |items| ==> Parsed(items[i])
    case Obj(fields) => Distinct(fields) && forall i :: 0 <= i < |fields| ==> Parsed(fields[i].value)
    case _ => true
  }
}
