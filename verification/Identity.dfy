/** The identity of a sidecar: nested dictionaries compared key by key, and the two gates that compare
    them, the cheap preflight and the restore inside the engine. */
module Identity {
  import opened Options

  datatype Value = Leaf(text: string) | Dict(entries: map<string, Value>)

  type Entries = map<string, Value>

  /** What a missing key reads as. */
  function Missing(): Value { Leaf("<missing>") }

  function Get(m: Entries, k: string): Value {
    if k in m then m[k] else Missing()
  }

  /** No difference is reported at this place or below it. */
  ghost predicate Agree(a: Value, b: Value)
    decreases a
  {
    if a.Dict? && b.Dict? then
      forall k :: k in a.entries || k in b.entries ==>
        if k in a.entries then Agree(a.entries[k], Get(b.entries, k)) else b.entries[k] == Missing()
    else a == b
  }

  ghost predicate AgreeAt(a: Entries, b: Entries, k: string)
    requires k in a || k in b
  {
    if k in a then Agree(a[k], Get(b, k)) else b[k] == Missing()
  }

  datatype Mismatch = Mismatch(path: seq<string>, expected: Value, found: Value)

  /** A difference under one key: both are dictionaries and it is below them, or the two values differ here. */
  ghost predicate FoundAt(a: Value, b: Value, path: seq<string>, k: string, d: Mismatch)
    requires a.Dict? && b.Dict?
    decreases a, 1
  {
    var x, y := Get(a.entries, k), Get(b.entries, k);
    if k in a.entries && x.Dict? && y.Dict? then Found(a.entries[k], y, path + [k], d)
    else x != y && d == Mismatch(path + [k], x, y)
  }

  /** A difference somewhere below a path. */
  ghost predicate Found(a: Value, b: Value, path: seq<string>, d: Mismatch)
    requires a.Dict? && b.Dict?
    decreases a, 2
  {
    exists k :: k in a.entries.Keys + b.entries.Keys && FoundAt(a, b, path, k, d)
  }

  /** The list of differences, each with its path and both values; it is empty exactly when no key, at any depth,
      differs. */
  method Diff(expected: Value, found: Value, path: seq<string>) returns (out: seq<Mismatch>)
    requires expected.Dict? && found.Dict?
    ensures out == [] <==> Agree(expected, found)
    ensures forall d :: d in out <==> Found(expected, found, path, d)
    decreases expected
  {
    out := [];
    var a, b := expected.entries, found.entries;
    var keys := a.Keys + b.Keys;
    while keys != {}
      invariant keys <= a.Keys + b.Keys
      invariant out == [] <==> forall k :: k in a.Keys + b.Keys && k !in keys ==> AgreeAt(a, b, k)
      invariant forall d :: d in out <==>
                  exists k :: k in a.Keys + b.Keys && k !in keys && FoundAt(expected, found, path, k, d)
      decreases keys
    {
      hide Found;
      var k :| k in keys;
      ghost var before := out;
      var x, y := Get(a, k), Get(b, k);
      if x.Dict? && y.Dict? {
        assert k in a && a[k] < expected;
        var inner := Diff(x, y, path + [k]);
        out := out + inner;
      } else if x != y {
        out := out + [Mismatch(path + [k], x, y)];
      }
      assert forall d :: d in out <==> d in before || FoundAt(expected, found, path, k, d);
      keys := keys - {k};
    }
    assert forall k :: k in a || k in b ==> (k in a.Keys + b.Keys);
  }

  // ----- What identical means

  /** Without the keys whose value is the text that a missing key reads as. */
  ghost function Strip(v: Value): Value
    decreases v
  {
    if v.Dict? then Dict(map k | k in v.entries && v.entries[k] != Missing() :: Strip(v.entries[k])) else v
  }

  /** No difference is found exactly when the two are equal, but for keys that hold the text that a
      missing key reads as. */
  lemma {:induction false} AgreeIffEqualStripped(a: Value, b: Value)
    ensures Agree(a, b) <==> Strip(a) == Strip(b)
    decreases a
  {
    if a.Dict? && b.Dict? {
      var s, t := Strip(a).entries, Strip(b).entries;
      forall k | k in a.entries || k in b.entries
        ensures AgreeAt(a.entries, b.entries, k) <==> (k in s <==> k in t) && (k in s ==> k in t && s[k] == t[k])
      {
        if k in a.entries {
          AgreeIffEqualStripped(a.entries[k], Get(b.entries, k));
          StripMissing(a.entries[k]);
        }
      }
      if Agree(a, b) {
        forall k
          ensures (k in s <==> k in t) && (k in s ==> s[k] == t[k])
        {
          if k in a.entries || k in b.entries {
            assert AgreeAt(a.entries, b.entries, k);
          }
        }
        assert s == t;
      } else {
        var k :| (k in a.entries || k in b.entries) && !AgreeAt(a.entries, b.entries, k);
        assert s != t;
      }
    }
  }

  lemma AgreeWithItself(v: Value)
    ensures Agree(v, v)
  {
    AgreeIffEqualStripped(v, v);
  }

  lemma StripMissing(v: Value)
    ensures Strip(v) == Missing() <==> v == Missing()
  {
  }

  ghost predicate NoSentinel(v: Value)
    decreases v
  {
    v.Dict? ==> forall k :: k in v.entries ==> v.entries[k] != Missing() && NoSentinel(v.entries[k])
  }

  lemma {:induction false} StripNothing(v: Value)
    requires NoSentinel(v)
    ensures Strip(v) == v
    decreases v
  {
    if v.Dict? {
      forall k | k in v.entries
        ensures Strip(v.entries[k]) == v.entries[k]
      {
        StripNothing(v.entries[k]);
      }
      assert Strip(v).entries == v.entries;
    }
  }

  /** Where no value is that text, no difference means equality. */
  lemma AgreeIffEqual(a: Value, b: Value)
    requires NoSentinel(a) && NoSentinel(b)
    ensures Agree(a, b) <==> a == b
  {
    AgreeIffEqualStripped(a, b);
    StripNothing(a);
    StripNothing(b);
  }

  // ----- The two gates

  /** What the engine adds to the identity of the files. */
  function EngineIdentity(files: Entries, engine: Entries): Value {
    Dict(files["engine" := Dict(engine)])
  }

  /** The restore's check agrees exactly when the preflight's does and the engine part does too. */
  lemma GatesAgree(saved: Entries, files: Entries, engine: Entries)
    requires "engine" !in files
    ensures Agree(Dict(saved), EngineIdentity(files, engine))
       <==> Agree(Dict(saved - {"engine"}), Dict(files)) && "engine" in saved && Agree(saved["engine"], Dict(engine))
  {
    var e := "engine";
    var now := files[e := Dict(engine)];
    var rest := saved - {e};
    assert forall k :: k != e ==> (k in now <==> k in files) && (k in rest <==> k in saved);
    assert forall k :: k != e && k in saved ==> rest[k] == saved[k] && Get(now, k) == Get(files, k);
    if Agree(Dict(saved), Dict(now)) {
      assert AgreeAt(saved, now, e);
      forall k | k in rest || k in files
        ensures AgreeAt(rest, files, k)
      {
        assert AgreeAt(saved, now, k);
      }
    }
    if Agree(Dict(rest), Dict(files)) && e in saved && Agree(saved[e], Dict(engine)) {
      forall k | k in saved || k in now
        ensures AgreeAt(saved, now, k)
      {
        if k != e {
          assert AgreeAt(rest, files, k);
        }
      }
    }
  }
}
