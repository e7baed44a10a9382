/** JSON values as the manifest holds them in memory, and `deep_merge`
    (elodie/manifest.py), the recursive merge every manifest update goes
    through. */
module Json {

  datatype Json =
    | JNull
    | JBool(b: bool)
    | JNum(n: int)
    | JStr(s: string)
    | JArr(items: seq<Json>)
    | JObj(fields: map<string, Json>)

  /** `d.get(k, {})`. */
  function Get(f: map<string, Json>, k: string): (r: Json)
    ensures k in f ==> r == f[k]
    ensures k !in f ==> r == JObj(map[])
  {
    if k in f then f[k] else JObj(map[])
  }

  /** The part of `u` whose keys are in `s`. */
  function Restrict(u: map<string, Json>, s: set<string>): (r: map<string, Json>)
    ensures r.Keys == u.Keys * s
    ensures forall k :: k in r ==> r[k] == u[k]
  {
    map k | k in u && k in s :: u[k]
  }

  /** `deep_merge(d, u)` stated key by key: a `None` target becomes `u`; a
      mapping target gets every key of `u`, merged recursively where the
      incoming value is a mapping and replaced otherwise, and keeps its other
      keys; any other target is replaced by `u` unless `u` is empty. */
  function DeepMerge(d: Json, u: map<string, Json>): (r: Json)
    ensures d.JObj? ==> r.JObj?
    decreases JObj(u), 0
  {
    match d
    case JNull => JObj(u)
    case JObj(f) =>
      JObj(map k | k in f.Keys + u.Keys :: if k in u then MergeValue(Get(f, k), u[k]) else f[k])
    case _ => if |u| == 0 then d else JObj(u)
  }

  /** The rules of `deep_merge`, key by key. A `None` target becomes the
      incoming mapping. A mapping target ends up with the keys of both, keeps
      the values of keys only it has, takes every incoming non-mapping value
      as it is, and merges an incoming mapping into its own value under the
      same key (an empty mapping standing in for a missing one). Any other
      target becomes the incoming mapping, unless that is empty. */
  lemma DeepMergeRules(d: Json, u: map<string, Json>)
    ensures d.JNull? ==> DeepMerge(d, u) == JObj(u)
    ensures d.JObj? ==> DeepMerge(d, u).fields.Keys == d.fields.Keys + u.Keys
    ensures d.JObj? ==> forall k :: k in d.fields && k !in u ==>
      DeepMerge(d, u).fields[k] == d.fields[k]
    ensures d.JObj? ==> forall k :: k in u && u[k].JObj? ==>
      DeepMerge(d, u).fields[k] == DeepMerge(Get(d.fields, k), u[k].fields)
    ensures !d.JNull? && !d.JObj? && |u| == 0 ==> DeepMerge(d, u) == d
    ensures !d.JNull? && !d.JObj? && |u| > 0 ==> DeepMerge(d, u) == JObj(u)
    ensures forall k :: k in u && !u[k].JObj? ==>
      k in DeepMerge(d, u).fields && DeepMerge(d, u).fields[k] == u[k]
  {
  }

  /** One key of a merge into a mapping. */
  lemma MergeAt(f: map<string, Json>, u: map<string, Json>, k: string)
    ensures DeepMerge(JObj(f), u).fields.Keys == f.Keys + u.Keys
    ensures k in u ==> DeepMerge(JObj(f), u).fields[k] == MergeValue(Get(f, k), u[k])
    ensures k in f && k !in u ==> DeepMerge(JObj(f), u).fields[k] == f[k]
  {
  }

  /** What one incoming value `v` does to the existing value `prior` under
      its key: a mapping merges into it, anything else replaces it. */
  function MergeValue(prior: Json, v: Json): (r: Json)
    ensures !v.JObj? ==> r == v
    decreases v, 1
  {
    if v.JObj? then DeepMerge(prior, v.fields) else v
  }

  /** `deep_merge({}, u)` rebuilds `u`. */
  lemma {:induction false} MergeIntoEmpty(u: map<string, Json>)
    ensures DeepMerge(JObj(map[]), u) == JObj(u)
    decreases JObj(u)
  {
    forall k | k in u
      ensures MergeValue(Get(map[], k), u[k]) == u[k]
    {
      if u[k].JObj? {
        MergeIntoEmpty(u[k].fields);
      }
    }
  }

  /** Merging a mapping into itself changes nothing. */
  lemma {:induction false} MergeIntoSelf(u: map<string, Json>)
    ensures DeepMerge(JObj(u), u) == JObj(u)
    decreases JObj(u)
  {
    forall k | k in u
      ensures MergeValue(Get(u, k), u[k]) == u[k]
    {
      if u[k].JObj? {
        MergeIntoSelf(u[k].fields);
      }
    }
  }

  /** Merging the same partial record twice gives what merging it once
      gives. */
  lemma {:induction false} MergeIdempotent(d: Json, u: map<string, Json>)
    ensures DeepMerge(DeepMerge(d, u), u) == DeepMerge(d, u)
    decreases JObj(u), 1
  {
    match d
    case JNull =>
      MergeIntoSelf(u);
    case JObj(f) =>
      MergeIdempotentObject(f, u);
    case _ =>
      if |u| > 0 {
        MergeIntoSelf(u);
      }
  }

  /** The mapping case of `MergeIdempotent`, key by key. */
  lemma {:induction false} MergeIdempotentObject(f: map<string, Json>, u: map<string, Json>)
    ensures DeepMerge(DeepMerge(JObj(f), u), u) == DeepMerge(JObj(f), u)
    decreases JObj(u), 0
  {
    var g := DeepMerge(JObj(f), u).fields;
    var h := DeepMerge(JObj(g), u).fields;
    assert h.Keys == g.Keys;
    forall k | k in g
      ensures h[k] == g[k]
    {
      if k in u {
        MergeAt(f, u, k);
        MergeAt(g, u, k);
        if u[k].JObj? {
          MergeIdempotent(Get(f, k), u[k].fields);
        }
      }
    }
    assert h == g;
  }

  // -----------------------------------------------------------------------
  // The loop as written

  /** One iteration of the `for k, v in u.items()` loop: a mapping target
      gets key `k` merged in place; any other target is replaced by `{k: v}`
      and is a mapping from then on. The recursive `deep_merge` call is
      taken as `DeepMerge` here; `MergeLoopNested` below runs the loop at
      every depth. */
  function LoopStep(d: Json, k: string, v: Json): Json
  {
    match d
    case JObj(f) => JObj(f[k := MergeValue(Get(f, k), v)])
    case _ => JObj(map[k := v])
  }

  /** The loop of `deep_merge` visiting the keys of `u` in the order
      `order` (Python visits them in insertion order, which the model does
      not track). */
  function MergeLoop(d: Json, u: map<string, Json>, order: seq<string>): Json
    requires forall i :: 0 <= i < |order| ==> order[i] in u
    decreases |order|
  {
    if |order| == 0 then d
    else MergeLoop(LoopStep(d, order[0], u[order[0]]), u, order[1..])
  }

  /** `deep_merge(d, u)` as written: the `None` check, then the loop. */
  function DeepMergeAsWritten(d: Json, u: map<string, Json>, order: seq<string>): Json
    requires forall i :: 0 <= i < |order| ==> order[i] in u
  {
    if d.JNull? then JObj(u) else MergeLoop(d, u, order)
  }

  predicate Enumerates(order: seq<string>, u: map<string, Json>) {
    && (forall i :: 0 <= i < |order| ==> order[i] in u)
    && (forall k :: k in u ==> k in order)
    && (forall i, j :: 0 <= i < j < |order| ==> order[i] != order[j])
  }

  lemma LoopStepExtendsObject(f: map<string, Json>, u: map<string, Json>, s: set<string>, k: string)
    requires k in u && k !in s
    ensures LoopStep(DeepMerge(JObj(f), Restrict(u, s)), k, u[k]) == DeepMerge(JObj(f), Restrict(u, s + {k}))
  {
    var before := Restrict(u, s);
    var after := Restrict(u, s + {k});
    var g := DeepMerge(JObj(f), before).fields;
    var lhs := g[k := MergeValue(Get(g, k), u[k])];
    var rhs := DeepMerge(JObj(f), after).fields;
    assert g.Keys == f.Keys + before.Keys;
    assert rhs.Keys == f.Keys + after.Keys;
    assert lhs.Keys == rhs.Keys;
    forall x | x in lhs
      ensures lhs[x] == rhs[x]
    {
      if x == k {
        assert Get(g, k) == Get(f, k);
      } else if x in after {
        assert g[x] == MergeValue(Get(f, x), u[x]);
      } else {
        assert g[x] == f[x];
      }
    }
    assert lhs == rhs;
  }

  lemma LoopStepExtendsScalar(d: Json, u: map<string, Json>, s: set<string>, k: string)
    requires !d.JNull? && !d.JObj?
    requires k in u && k !in s
    ensures LoopStep(DeepMerge(d, Restrict(u, s)), k, u[k]) == DeepMerge(d, Restrict(u, s + {k}))
  {
    var before := Restrict(u, s);
    var after := Restrict(u, s + {k});
    if |before| == 0 {
      assert after == map[k := u[k]];
    } else {
      assert DeepMerge(d, before) == JObj(before);
      assert Get(before, k) == JObj(map[]);
      if u[k].JObj? {
        MergeIntoEmpty(u[k].fields);
      }
      assert before[k := MergeValue(Get(before, k), u[k])] == after;
    }
  }

  lemma LoopStepExtends(d: Json, u: map<string, Json>, s: set<string>, k: string)
    requires !d.JNull?
    requires k in u && k !in s
    ensures LoopStep(DeepMerge(d, Restrict(u, s)), k, u[k]) == DeepMerge(d, Restrict(u, s + {k}))
  {
    if d.JObj? {
      LoopStepExtendsObject(d.fields, u, s, k);
    } else {
      LoopStepExtendsScalar(d, u, s, k);
    }
  }

  function Elems(keys: seq<string>): set<string> {
    set x | x in keys
  }

  lemma ElemsCons(s: set<string>, rest: seq<string>)
    requires |rest| > 0
    ensures s + {rest[0]} + Elems(rest[1..]) == s + Elems(rest)
  {
    assert rest == [rest[0]] + rest[1..];
  }

  /** The keys after the first are still unvisited once the first is. */
  lemma TailFresh(u: map<string, Json>, s: set<string>, rest: seq<string>)
    requires |rest| > 0
    requires forall i :: 0 <= i < |rest| ==> rest[i] in u && rest[i] !in s
    requires forall i, j :: 0 <= i < j < |rest| ==> rest[i] != rest[j]
    ensures forall i :: 0 <= i < |rest| - 1 ==> rest[1..][i] in u && rest[1..][i] !in s + {rest[0]}
    ensures forall i, j :: 0 <= i < j < |rest| - 1 ==> rest[1..][i] != rest[1..][j]
  {
    forall i | 0 <= i < |rest| - 1
      ensures rest[1..][i] in u && rest[1..][i] !in s + {rest[0]}
    {
      assert rest[1..][i] == rest[i + 1];
    }
  }

  lemma {:induction false} MergeLoopFrom(d: Json, u: map<string, Json>, s: set<string>, rest: seq<string>)
    requires !d.JNull?
    requires forall i :: 0 <= i < |rest| ==> rest[i] in u && rest[i] !in s
    requires forall i, j :: 0 <= i < j < |rest| ==> rest[i] != rest[j]
    ensures MergeLoop(DeepMerge(d, Restrict(u, s)), u, rest)
         == DeepMerge(d, Restrict(u, s + Elems(rest)))
    decreases |rest|
  {
    var start := DeepMerge(d, Restrict(u, s));
    if |rest| == 0 {
      assert Elems(rest) == {};
      assert s + {} == s;
    } else {
      var k := rest[0];
      var tail := rest[1..];
      assert MergeLoop(start, u, rest) == MergeLoop(LoopStep(start, k, u[k]), u, tail);
      LoopStepExtends(d, u, s, k);
      TailFresh(u, s, rest);
      MergeLoopFrom(d, u, s + {k}, tail);
      ElemsCons(s, rest);
    }
  }

  /** Whatever order the loop visits the keys in, `deep_merge` computes
      `DeepMerge`. */
  lemma LoopAgreesWithDeepMerge(d: Json, u: map<string, Json>, order: seq<string>)
    requires Enumerates(order, u)
    ensures DeepMergeAsWritten(d, u, order) == DeepMerge(d, u)
  {
    if !d.JNull? {
      MergeNothing(d, u);
      MergeLoopFrom(d, u, {}, order);
      RestrictToAll(u, order);
    }
  }

  /** Merging the empty part of `u` into a non-`None` target changes
      nothing. */
  lemma MergeNothing(d: Json, u: map<string, Json>)
    requires !d.JNull?
    ensures DeepMerge(d, Restrict(u, {})) == d
  {
    assert Restrict(u, {}) == map[];
    if d.JObj? {
      assert DeepMerge(d, map[]).fields == d.fields;
    }
  }

  lemma RestrictToAll(u: map<string, Json>, order: seq<string>)
    requires Enumerates(order, u)
    ensures Restrict(u, {} + Elems(order)) == u
  {
    assert {} + Elems(order) == Elems(order);
    assert Restrict(u, Elems(order)).Keys == u.Keys;
  }

  // -----------------------------------------------------------------------
  // The loop as written, at every depth

  /** Python visits the keys of every mapping in some order (its insertion
      order); `ord(m)` stands for the order the keys of `m` are visited in. */
  ghost predicate VisitsAll(ord: map<string, Json> -> seq<string>) {
    forall m: map<string, Json> :: Enumerates(ord(m), m)
  }

  /** `deep_merge(d, u)` as written, its recursive calls included. */
  function DeepMergeNested(d: Json, u: map<string, Json>, ord: map<string, Json> -> seq<string>): Json
    requires VisitsAll(ord)
    decreases JObj(u), 1, 0
  {
    if d.JNull? then JObj(u) else MergeLoopNested(d, u, ord(u), ord)
  }

  /** The `for k, v in u.items()` loop, visiting the keys in `order`. */
  function MergeLoopNested(d: Json, u: map<string, Json>, order: seq<string>,
                           ord: map<string, Json> -> seq<string>): Json
    requires VisitsAll(ord)
    requires forall i :: 0 <= i < |order| ==> order[i] in u
    decreases JObj(u), 0, |order|
  {
    if |order| == 0 then d
    else MergeLoopNested(LoopStepNested(d, order[0], u[order[0]], ord), u, order[1..], ord)
  }

  /** One iteration, with the recursive `deep_merge(d.get(k, {}), v)`. */
  function LoopStepNested(d: Json, k: string, v: Json, ord: map<string, Json> -> seq<string>): Json
    requires VisitsAll(ord)
    decreases v, 2, 0
  {
    match d
    case JObj(f) => JObj(f[k := if v.JObj? then DeepMergeNested(Get(f, k), v.fields, ord) else v])
    case _ => JObj(map[k := v])
  }

  /** Whatever order the keys of each mapping are visited in, `deep_merge`
      as written, down to its innermost recursive call, computes
      `DeepMerge`. */
  lemma {:induction false} NestedAgreesWithDeepMerge(d: Json, u: map<string, Json>,
                                                     ord: map<string, Json> -> seq<string>)
    requires VisitsAll(ord)
    ensures DeepMergeNested(d, u, ord) == DeepMerge(d, u)
    decreases JObj(u), 1, 0
  {
    if !d.JNull? {
      assert Enumerates(ord(u), u);
      NestedLoopAgrees(d, u, ord(u), ord);
      LoopAgreesWithDeepMerge(d, u, ord(u));
    }
  }

  lemma {:induction false} NestedLoopAgrees(d: Json, u: map<string, Json>, order: seq<string>,
                                            ord: map<string, Json> -> seq<string>)
    requires VisitsAll(ord)
    requires forall i :: 0 <= i < |order| ==> order[i] in u
    ensures MergeLoopNested(d, u, order, ord) == MergeLoop(d, u, order)
    decreases JObj(u), 0, |order|
  {
    if |order| > 0 {
      var k := order[0];
      NestedStepAgrees(d, k, u[k], ord);
      NestedLoopAgrees(LoopStep(d, k, u[k]), u, order[1..], ord);
    }
  }

  lemma {:induction false} NestedStepAgrees(d: Json, k: string, v: Json,
                                            ord: map<string, Json> -> seq<string>)
    requires VisitsAll(ord)
    ensures LoopStepNested(d, k, v, ord) == LoopStep(d, k, v)
    decreases v, 2, 0
  {
    if d.JObj? && v.JObj? {
      NestedAgreesWithDeepMerge(Get(d.fields, k), v.fields, ord);
    }
  }
}
