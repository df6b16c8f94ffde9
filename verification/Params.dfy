/** Step parameters: YAML value trees, their deep merge, interpolation and run-ID prefixing. */
module Params {
  import opened Text
  import opened Interpolation

  datatype Value =
    | Scalar(text: string)          // a string
    | Opaque(id: int)               // a number, boolean, null, date ...
    | List(items: seq<Value>)
    | Table(entries: map<string, Value>)

  type Entries = map<string, Value>

  // ---- deepMerge -----------------------------------------------------------

  function MergeValue(base: Value, over: Value): Value
    decreases over, 1
  {
    if base.Table? && over.Table? then Table(Merge(base.entries, over.entries)) else over
  }

  function Merge(base: Entries, over: Entries): Entries
    decreases Table(over), 0
  {
    map k | k in base.Keys + over.Keys ::
      if k !in over then base[k]
      else if k !in base then over[k]
      else MergeValue(base[k], over[k])
  }

  /** What a path of keys leads to: nothing, a table, or a value that is not a table. */
  datatype Place = Nowhere | AtTable | AtValue(value: Value)

  function At(m: Entries, path: seq<string>): Place
    decreases |path|
  {
    if path == [] then AtTable
    else if path[0] !in m then Nowhere
    else
      match m[path[0]]
      case Table(inner) => At(inner, path[1..])
      case v => if |path| == 1 then AtValue(v) else Nowhere
  }

  /** Some table along the path lacks the next key, and no other value comes before it. */
  predicate Missing(m: Entries, path: seq<string>)
    decreases |path|
  {
    if path == [] then false
    else if path[0] !in m then true
    else m[path[0]].Table? && Missing(m[path[0]].entries, path[1..])
  }

  /** The merged tree, path by path: the override decides every path it does not leave open, the base the others. */
  lemma {:induction false} MergeAt(base: Entries, over: Entries, path: seq<string>)
    ensures At(Merge(base, over), path) == if Missing(over, path) then At(base, path) else At(over, path)
    decreases |path|
  {
    if path != [] && path[0] in base && path[0] in over && base[path[0]].Table? && over[path[0]].Table? {
      MergeAt(base[path[0]].entries, over[path[0]].entries, path[1..]);
    } else if path != [] && path[0] in over && over[path[0]].Table? {
      NotMissingOrNowhere(over[path[0]].entries, path[1..]);
    }
  }

  lemma {:induction false} NotMissingOrNowhere(m: Entries, path: seq<string>)
    ensures Missing(m, path) ==> At(m, path) == Nowhere
    decreases |path|
  {
    if path != [] && path[0] in m && m[path[0]].Table? {
      NotMissingOrNowhere(m[path[0]].entries, path[1..]);
    }
  }

  /** Every value of the override is in the result at its path. */
  lemma OverrideWins(base: Entries, over: Entries, path: seq<string>)
    requires At(over, path).AtValue?
    ensures At(Merge(base, over), path) == At(over, path)
  {
    MergeAt(base, over, path);
    NotMissingOrNowhere(over, path);
  }

  lemma StepAt(m: Entries, k: string, path: seq<string>)
    requires k in m
    ensures m[k].Table? ==> At(m, [k] + path) == At(m[k].entries, path)
  {
    assert ([k] + path)[1..] == path;
  }

  lemma KeyAt(m: Entries, k: string)
    ensures At(m, [k]) == if k !in m then Nowhere else if m[k].Table? then AtTable else AtValue(m[k])
  {
    if k in m {
      StepAt(m, k, []);
    }
  }

  /** Trees that agree along every path are equal, so MergeAt pins the merge down. */
  lemma {:induction false} Extensional(a: Entries, b: Entries)
    requires forall path :: At(a, path) == At(b, path)
    ensures a == b
    decreases Table(a)
  {
    forall k: string
      ensures (k in a <==> k in b) && (k in a ==> a[k] == b[k])
    {
      KeyAt(a, k);
      KeyAt(b, k);
      if k in a && a[k].Table? {
        forall path ensures At(a[k].entries, path) == At(b[k].entries, path) {
          StepAt(a, k, path);
          StepAt(b, k, path);
        }
        Extensional(a[k].entries, b[k].entries);
      }
    }
  }

  /** The merge is the only tree with the paths MergeAt describes. */
  lemma MergeUnique(base: Entries, over: Entries, t: Entries)
    requires forall path :: At(t, path) == if Missing(over, path) then At(base, path) else At(over, path)
    ensures t == Merge(base, over)
  {
    forall path ensures At(t, path) == At(Merge(base, over), path) {
      MergeAt(base, over, path);
    }
    Extensional(t, Merge(base, over));
  }

  // ---- Algebra of the merge ------------------------------------------------

  lemma MergeIdentity(m: Entries)
    ensures Merge(m, map[]) == m && Merge(map[], m) == m
  {
  }

  lemma {:induction false} MergeIdempotent(m: Entries)
    ensures Merge(m, m) == m
    decreases Table(m)
  {
    forall k | k in m ensures Merge(m, m)[k] == m[k] {
      if m[k].Table? {
        MergeIdempotent(m[k].entries);
      }
    }
  }

  /** Every table path of `small` is present in `big`, at a value or at a table covering what lies below. */
  predicate Covers(big: Entries, small: Entries)
    decreases Table(small)
  {
    forall k | k in small ::
      k in big && (small[k].Table? && big[k].Table? ==> Covers(big[k].entries, small[k].entries))
  }

  /** A base adds nothing exactly when the override covers it. */
  lemma {:induction false} MergeAbsorbsIff(base: Entries, over: Entries)
    ensures Merge(base, over) == over <==> Covers(over, base)
    decreases Table(base)
  {
    forall k | k in base && k in over && base[k].Table? && over[k].Table?
      ensures Merge(base[k].entries, over[k].entries) == over[k].entries <==> Covers(over[k].entries, base[k].entries)
    {
      MergeAbsorbsIff(base[k].entries, over[k].entries);
    }
    if Merge(base, over) == over {
      forall k | k in base ensures k in over {
        assert k in Merge(base, over);
      }
      forall k | k in base && base[k].Table? && over[k].Table?
        ensures Covers(over[k].entries, base[k].entries)
      {
        assert Merge(base, over)[k] == MergeValue(base[k], over[k]);
      }
    }
    if Covers(over, base) {
      assert Merge(base, over).Keys == over.Keys;
    }
  }

  /** Wherever a table, another value and a table meet along one path, the last table covers the first. */
  predicate Associable(a: Entries, b: Entries, c: Entries)
    decreases Table(a), 1
  {
    forall k | k in a :: AssociableAt(a, b, c, k)
  }

  predicate AssociableAt(a: Entries, b: Entries, c: Entries, k: string)
    decreases Table(a), 0
  {
    k in a && k in b && k in c && a[k].Table? && c[k].Table? ==>
      if b[k].Table? then Associable(a[k].entries, b[k].entries, c[k].entries)
      else Covers(c[k].entries, a[k].entries)
  }

  lemma {:induction false} MergeAssociativeAt(a: Entries, b: Entries, c: Entries, k: string)
    requires k in a.Keys + b.Keys + c.Keys
    ensures k in Merge(Merge(a, b), c) && k in Merge(a, Merge(b, c))
    ensures Merge(Merge(a, b), c)[k] == Merge(a, Merge(b, c))[k] <==> AssociableAt(a, b, c, k)
    decreases Table(a), 0
  {
    if k in a && k in b && k in c && a[k].Table? && c[k].Table? {
      if b[k].Table? {
        MergeAssociativeIff(a[k].entries, b[k].entries, c[k].entries);
      } else {
        MergeAbsorbsIff(a[k].entries, c[k].entries);
      }
    }
  }

  /** Layered overrides may be merged in either order exactly when they are associable. */
  lemma {:induction false} MergeAssociativeIff(a: Entries, b: Entries, c: Entries)
    ensures Merge(Merge(a, b), c) == Merge(a, Merge(b, c)) <==> Associable(a, b, c)
    decreases Table(a), 1
  {
    var l, r := Merge(Merge(a, b), c), Merge(a, Merge(b, c));
    var keys := a.Keys + b.Keys + c.Keys;
    assert l.Keys == keys == r.Keys;
    forall k | k in keys ensures l[k] == r[k] <==> AssociableAt(a, b, c, k) {
      MergeAssociativeAt(a, b, c, k);
    }
  }

  /** The recursive loops of the program; neither input changes because both are values. */
  method DeepMerge(base: Entries, over: Entries) returns (merged: Entries)
    ensures merged == Merge(base, over)
    decreases Table(over)
  {
    merged := base;
    var todo := over.Keys;
    while todo != {}
      invariant todo <= over.Keys
      invariant merged.Keys == base.Keys + (over.Keys - todo)
      invariant forall k | k in base && (k !in over || k in todo) :: merged[k] == base[k]
      invariant forall k | k in over && k !in todo :: merged[k] == Merge(base, over)[k]
      decreases todo
    {
      var k :| k in todo;
      todo := todo - {k};
      var ov := over[k];
      if k in merged {
        var bv := merged[k];
        if bv.Table? && ov.Table? {
          var inner := DeepMerge(bv.entries, ov.entries);
          merged := merged[k := Table(inner)];
          continue;
        }
      }
      merged := merged[k := ov];
    }
  }

  // ---- interpolateParams and injectRunIDPrefix ------------------------------

  /** Strings, and strings directly inside lists, are interpolated; everything deeper is left alone. */
  function InterpolateItem(v: Value, env: Env): Value {
    if v.Scalar? then Scalar(Interpolate(v.text, env)) else v
  }

  function InterpolateValue(v: Value, env: Env): Value {
    match v
    case List(items) => List(seq(|items|, i requires 0 <= i < |items| => InterpolateItem(items[i], env)))
    case _ => InterpolateItem(v, env)
  }

  method InterpolateList(items: seq<Value>, env: Env) returns (replaced: seq<Value>)
    ensures replaced == seq(|items|, i requires 0 <= i < |items| => InterpolateItem(items[i], env))
  {
    replaced := [];
    for i := 0 to |items|
      invariant |replaced| == i
      invariant forall j | 0 <= j < i :: replaced[j] == InterpolateItem(items[j], env)
    {
      replaced := replaced + [if items[i].Scalar? then Scalar(Interpolate(items[i].text, env)) else items[i]];
    }
  }

  method InterpolateParams(params: Entries, env: Env) returns (out: Entries)
    ensures out == map k | k in params :: InterpolateValue(params[k], env)
  {
    out := map[];
    var todo := params.Keys;
    while todo != {}
      invariant todo <= params.Keys && out.Keys == params.Keys - todo
      invariant forall k | k in out :: out[k] == InterpolateValue(params[k], env)
      decreases todo
    {
      var k :| k in todo;
      todo := todo - {k};
      var v := params[k];
      if v.Scalar? {
        v := Scalar(Interpolate(v.text, env));
      } else if v.List? {
        var replaced := InterpolateList(v.items, env);
        v := List(replaced);
      }
      out := out[k := v];
    }
  }

  function Prefixed(v: Value, prefix: string): Value {
    if v.Scalar? && !HasPrefix(v.text, "${") then Scalar(prefix + "-" + v.text) else v
  }

  function Inject(op: string, params: Entries, prefix: string): Entries {
    if !HasPrefix(op, "create_") then params
    else map k | k in params :: if k == "name" || k == "id" then Prefixed(params[k], prefix) else params[k]
  }

  method InjectRunIDPrefix(op: string, params: Entries, prefix: string) returns (out: Entries)
    ensures out == Inject(op, params, prefix)
  {
    if !HasPrefix(op, "create_") {
      return params;
    }
    out := params;
    var keys := ["name", "id"];
    assert keys[0] != keys[1] by { assert |keys[0]| != |keys[1]|; }
    for i := 0 to 2
      invariant out.Keys == params.Keys
      invariant forall k | k in params ::
        out[k] == if k in keys[..i] then Prefixed(params[k], prefix) else params[k]
    {
      var key := keys[i];
      if key in out {
        match out[key]
        case Scalar(s) =>
          if !HasPrefix(s, "${") {
            out := out[key := Scalar(prefix + "-" + s)];
          }
        case _ =>
      }
    }
  }

  /** What a step is executed with: the override merged in, references resolved, identities prefixed. */
  function Prepare(op: string, base: Entries, over: Option<Entries>, env: Env, prefix: string): Entries {
    var merged := match over case None => base case Some(o) => Merge(base, o);
    Inject(op, map k | k in merged :: InterpolateValue(merged[k], env), prefix)
  }

  /** The prefix is added after interpolation, so a reference as a name escapes it exactly when it stays
      unresolved or resolves to text that starts like a reference again. */
  lemma ReferenceEscapesPrefixIff(op: string, base: Entries, env: Env, prefix: string, key: string, step: string, field: string)
    requires HasPrefix(op, "create_") && (key == "name" || key == "id")
    requires IsWord(step) && IsWord(field)
    requires key in base && base[key] == Scalar(Token(step, field))
    ensures var known := step in env && field in env[step];
            Prepare(op, base, None, env, prefix)[key]
              == if !known then Scalar(Token(step, field))
                 else if HasPrefix(env[step][field], "${") then Scalar(env[step][field])
                 else Scalar(prefix + "-" + env[step][field])
  {
    TokenAlone(step, field, env);
    TokenShape(step, field, 0);
    TokenShape(step, field, 1);
    assert Token(step, field)[..2] == "${";
  }

  /** How far interpolation reaches into a value: strings, and strings directly inside a list. */
  lemma InterpolationReach(v: Value, env: Env)
    ensures v.Scalar? ==> InterpolateValue(v, env) == Scalar(Interpolate(v.text, env))
    ensures v.Opaque? || v.Table? ==> InterpolateValue(v, env) == v
    ensures v.List? ==>
              var r := InterpolateValue(v, env);
              && r.List? && |r.items| == |v.items|
              && (forall i | 0 <= i < |v.items| ::
                    r.items[i] == if v.items[i].Scalar? then Scalar(Interpolate(v.items[i].text, env)) else v.items[i])
  {
  }

  /** What is at a key before interpolation: the override's value, else the base's; two tables are merged. */
  function Overridden(base: Entries, over: Option<Entries>, k: string): Value
    requires k in base || (over.Some? && k in over.value)
  {
    if over.None? || k !in over.value then base[k]
    else if k in base && base[k].Table? && over.value[k].Table? then Table(Merge(base[k].entries, over.value[k].entries))
    else over.value[k]
  }

  lemma MergedAt(base: Entries, over: Entries, k: string)
    ensures k in Merge(base, over) <==> k in base || k in over
    ensures k in base || k in over ==> Merge(base, over)[k] == Overridden(base, Some(over), k)
  {
  }

  lemma InjectAt(op: string, params: Entries, prefix: string, k: string)
    requires k in params
    ensures k in Inject(op, params, prefix)
    ensures var w := params[k];
            Inject(op, params, prefix)[k]
            == if HasPrefix(op, "create_") && (k == "name" || k == "id") && w.Scalar? && !HasPrefix(w.text, "${")
               then Scalar(prefix + "-" + w.text) else w
  {
  }

  /** What a step is executed with, key by key: the override decides, the references are resolved, and the identities of
      a create are prefixed unless they still start like a reference. */
  lemma PrepareMeaning(op: string, base: Entries, over: Option<Entries>, env: Env, prefix: string, k: string)
    ensures k in Prepare(op, base, over, env, prefix) <==> k in base || (over.Some? && k in over.value)
    ensures k in base || (over.Some? && k in over.value) ==>
              var w := InterpolateValue(Overridden(base, over, k), env);
              Prepare(op, base, over, env, prefix)[k]
              == if HasPrefix(op, "create_") && (k == "name" || k == "id") && w.Scalar? && !HasPrefix(w.text, "${")
                 then Scalar(prefix + "-" + w.text) else w
  {
    var merged := match over case None => base case Some(o) => Merge(base, o);
    if over.Some? {
      MergedAt(base, over.value, k);
    }
    if k in merged {
      InjectAt(op, map j | j in merged :: InterpolateValue(merged[j], env), prefix, k);
    }
  }

  /** Other operations never see the prefix, and a create only in its name and id. */
  lemma PrefixOnlyOnIdentities(op: string, params: Entries, prefix: string, k: string)
    requires k in params
    ensures k in Inject(op, params, prefix)
    ensures Inject(op, params, prefix)[k] != params[k] ==>
              HasPrefix(op, "create_") && (k == "name" || k == "id") && params[k].Scalar?
    ensures HasPrefix(op, "create_") && k in {"name", "id"} && params[k].Scalar? && !HasPrefix(params[k].text, "${") ==>
              Inject(op, params, prefix)[k] == Scalar(prefix + "-" + params[k].text)
  {
  }
}
