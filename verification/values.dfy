/** Deep merge of chart values: `mergeMaps` and `MergeFileValues` of
    backend/helm_client/install.go.

    `Merge` is the meaning of the merge on plain trees; `MergeMaps` is the loop over
    mutable Go maps, proved to compute it in every iteration order.
 */
module Values {
  import opened Options

  // A parsed YAML document: a scalar (or list), or a nested map.
  datatype Value = Scalar(text: string) | Obj(fields: map<string, Value>)

  const Empty: Value := Obj(map[])

  // Right-biased deep merge: `b` wins, except that two maps at the same key are merged.
  function Merge(a: Value, b: Value): (r: Value)
    requires a.Obj? && b.Obj?
    ensures r.Obj? && r.fields.Keys == a.fields.Keys + b.fields.Keys
    decreases b
  {
    Obj(map k | k in a.fields.Keys + b.fields.Keys ::
      if k !in b.fields then a.fields[k]
      else if b.fields[k].Obj? && k in a.fields && a.fields[k].Obj? then Merge(a.fields[k], b.fields[k])
      else b.fields[k])
  }

  // ---------- Units and idempotence ----------

  lemma {:induction false} EmptyIsIdentity(a: Value)
    requires a.Obj?
    ensures Merge(Empty, a) == a
    ensures Merge(a, Empty) == a
  {
    assert Merge(Empty, a).fields == a.fields;
    assert Merge(a, Empty).fields == a.fields;
  }

  lemma {:induction false} MergeSelf(a: Value)
    requires a.Obj?
    ensures Merge(a, a) == a
  {
    forall k | k in a.fields ensures Merge(a, a).fields[k] == a.fields[k] {
      if a.fields[k].Obj? { MergeSelf(a.fields[k]); }
    }
    assert Merge(a, a).fields == a.fields;
  }

  // ---------- Absorption: when does a map add nothing under another one? ----------

  // Every key of `a` is in `c`, and wherever both hold maps this is so again.
  ghost predicate Absorbed(a: Value, c: Value)
    requires a.Obj? && c.Obj?
    decreases c
  {
    forall k | k in a.fields ::
      && k in c.fields
      && (a.fields[k].Obj? && c.fields[k].Obj? ==> Absorbed(a.fields[k], c.fields[k]))
  }

  lemma {:induction false} AbsorbedIff(a: Value, c: Value)
    requires a.Obj? && c.Obj?
    ensures Merge(a, c) == c <==> Absorbed(a, c)
    decreases c
  {
    var m := Merge(a, c);
    forall k | k in a.fields && k in c.fields && a.fields[k].Obj? && c.fields[k].Obj?
      ensures Merge(a.fields[k], c.fields[k]) == c.fields[k] <==> Absorbed(a.fields[k], c.fields[k])
    {
      AbsorbedIff(a.fields[k], c.fields[k]);
    }
    if Absorbed(a, c) {
      assert m.fields == c.fields;
    }
    if m == c {
      forall k | k in a.fields
        ensures k in c.fields
        ensures a.fields[k].Obj? && c.fields[k].Obj? ==> Absorbed(a.fields[k], c.fields[k])
      {
        assert k in m.fields && m.fields[k] == c.fields[k];
      }
    }
  }

  // ---------- Associativity ----------

  // `b` has no non-map value at a path where both `a` and `c` hold maps.
  ghost predicate NoScalarBetweenMaps(a: Value, b: Value, c: Value)
    requires a.Obj? && b.Obj? && c.Obj?
    decreases b
  {
    forall k | k in a.fields && k in b.fields && k in c.fields && a.fields[k].Obj? && c.fields[k].Obj? ::
      b.fields[k].Obj? && NoScalarBetweenMaps(a.fields[k], b.fields[k], c.fields[k])
  }

  // The exact condition: where such a non-map value does sit, `a`'s map must add nothing to `c`'s.
  ghost predicate Regroupable(a: Value, b: Value, c: Value)
    requires a.Obj? && b.Obj? && c.Obj?
    decreases b
  {
    forall k | k in a.fields && k in b.fields && k in c.fields && a.fields[k].Obj? && c.fields[k].Obj? ::
      if b.fields[k].Obj? then Regroupable(a.fields[k], b.fields[k], c.fields[k])
      else Absorbed(a.fields[k], c.fields[k])
  }

  // One key of the associativity law.
  lemma {:induction false} AssociativeAt(a: Value, b: Value, c: Value, k: string)
    requires a.Obj? && b.Obj? && c.Obj?
    requires k in a.fields.Keys + b.fields.Keys + c.fields.Keys
    ensures
      var l := Merge(Merge(a, b), c).fields[k];
      var r := Merge(a, Merge(b, c)).fields[k];
      if k in a.fields && k in b.fields && k in c.fields && a.fields[k].Obj? && c.fields[k].Obj? then
        l == r <==> (if b.fields[k].Obj? then Regroupable(a.fields[k], b.fields[k], c.fields[k])
                     else Absorbed(a.fields[k], c.fields[k]))
      else
        l == r
    decreases b, 0
  {
    if k in a.fields && k in b.fields && k in c.fields && a.fields[k].Obj? && c.fields[k].Obj? {
      if b.fields[k].Obj? {
        MergeAssociativeIff(a.fields[k], b.fields[k], c.fields[k]);
      } else {
        AbsorbedIff(a.fields[k], c.fields[k]);
      }
    }
  }

  lemma {:induction false} MergeAssociativeIff(a: Value, b: Value, c: Value)
    requires a.Obj? && b.Obj? && c.Obj?
    ensures Merge(Merge(a, b), c) == Merge(a, Merge(b, c)) <==> Regroupable(a, b, c)
    decreases b, 1
  {
    var l, r := Merge(Merge(a, b), c), Merge(a, Merge(b, c));
    forall k | k in l.fields
      ensures
        if k in a.fields && k in b.fields && k in c.fields && a.fields[k].Obj? && c.fields[k].Obj? then
          l.fields[k] == r.fields[k] <==>
          (if b.fields[k].Obj? then Regroupable(a.fields[k], b.fields[k], c.fields[k])
           else Absorbed(a.fields[k], c.fields[k]))
        else l.fields[k] == r.fields[k]
    {
      AssociativeAt(a, b, c, k);
    }
    if Regroupable(a, b, c) {
      assert l.fields == r.fields;
    }
  }

  lemma {:induction false} NoScalarIsRegroupable(a: Value, b: Value, c: Value)
    requires a.Obj? && b.Obj? && c.Obj? && NoScalarBetweenMaps(a, b, c)
    ensures Regroupable(a, b, c)
    decreases b
  {
    forall k | k in a.fields && k in b.fields && k in c.fields && a.fields[k].Obj? && c.fields[k].Obj?
      ensures b.fields[k].Obj? && Regroupable(a.fields[k], b.fields[k], c.fields[k])
    {
      NoScalarIsRegroupable(a.fields[k], b.fields[k], c.fields[k]);
    }
  }

  lemma {:induction false} MergeAssociative(a: Value, b: Value, c: Value)
    requires a.Obj? && b.Obj? && c.Obj? && NoScalarBetweenMaps(a, b, c)
    ensures Merge(Merge(a, b), c) == Merge(a, Merge(b, c))
  {
    NoScalarIsRegroupable(a, b, c);
    MergeAssociativeIff(a, b, c);
  }

  // Without the condition associativity fails: {x:{p:v}}, {x:v}, {x:{}}.
  lemma MergeNotAssociative()
    ensures
      var v := Scalar("v");
      var a, b, c := Obj(map["x" := Obj(map["p" := v])]), Obj(map["x" := v]), Obj(map["x" := Empty]);
      Merge(Merge(a, b), c) != Merge(a, Merge(b, c))
  {
    var v := Scalar("v");
    var a, b, c := Obj(map["x" := Obj(map["p" := v])]), Obj(map["x" := v]), Obj(map["x" := Empty]);
    assert "p" in a.fields["x"].fields && "p" !in c.fields["x"].fields;
    assert !Absorbed(a.fields["x"], c.fields["x"]);
    assert "x" in a.fields && "x" in b.fields && "x" in c.fields;
    MergeAssociativeIff(a, b, c);
  }

  // ---------- The path law ----------

  // The value at a key path, if any.
  function Lookup(v: Value, path: seq<string>): Option<Value>
    decreases |path|
  {
    if path == [] then Some(v)
    else if v.Obj? && path[0] in v.fields then Lookup(v.fields[path[0]], path[1..])
    else None
  }

  // `v` has a non-map value at some proper prefix of the path.
  ghost predicate ScalarAbove(v: Value, path: seq<string>)
  {
    exists n | 0 <= n < |path| :: Lookup(v, path[..n]).Some? && Lookup(v, path[..n]).value.Scalar?
  }

  lemma ScalarAboveStep(v: Value, path: seq<string>)
    requires v.Obj? && path != [] && path[0] in v.fields
    ensures ScalarAbove(v, path) <==> ScalarAbove(v.fields[path[0]], path[1..])
  {
    var w, p := v.fields[path[0]], path[1..];
    forall n | 0 <= n < |p| ensures Lookup(v, path[..n + 1]) == Lookup(w, p[..n]) {
      assert path[..n + 1][1..] == p[..n];
    }
    if n :| 0 <= n < |path| && Lookup(v, path[..n]).Some? && Lookup(v, path[..n]).value.Scalar? {
      assert n > 0;
      assert Lookup(v, path[..(n - 1) + 1]) == Lookup(w, p[..n - 1]);
    }
  }

  // What the merge holds at every key path, in terms of what `a` and `b` hold there.
  lemma {:induction false} PathLaw(a: Value, b: Value, path: seq<string>)
    requires a.Obj? && b.Obj?
    ensures
      var la, lb, lm := Lookup(a, path), Lookup(b, path), Lookup(Merge(a, b), path);
      && (lb.Some? && lb.value.Scalar? ==> lm == lb)
      && (lb.Some? && lb.value.Obj? && la.Some? && la.value.Obj? ==> lm == Some(Merge(la.value, lb.value)))
      && (lb.Some? && lb.value.Obj? && !(la.Some? && la.value.Obj?) ==> lm == lb)
      && (lb.None? && !ScalarAbove(b, path) ==> lm == la)
      && (lb.None? && ScalarAbove(b, path) ==> lm == None)
    decreases |path|
  {
    if path != [] {
      var k, rest := path[0], path[1..];
      if k in b.fields {
        ScalarAboveStep(b, path);
        if b.fields[k].Obj? {
          if k in a.fields && a.fields[k].Obj? {
            PathLaw(a.fields[k], b.fields[k], rest);
          }
        } else if rest != [] {
          assert rest[..0] == [];
        }
      } else {
        assert forall n | 0 < n < |path| :: path[..n][0] == k && Lookup(b, path[..n]) == None;
        assert path[..0] == [];
      }
    }
  }

  // ---------- The loop over mutable maps ----------

  // What a Go map[string]interface{} holds at a key: a scalar, or a reference to another map.
  datatype Item = Leaf(text: string) | Ref(node: GoMap)

  class GoMap {
    var items: map<string, Item>
    constructor (items: map<string, Item>)
      ensures this.items == items
    {
      this.items := items;
    }
  }

  // `item` denotes the tree `v`, using only maps in `heap`. Submaps may be shared.
  ghost predicate Denotes(item: Item, v: Value, heap: set<GoMap>)
    reads heap
    decreases v
  {
    match v
    case Scalar(text) => item == Leaf(text)
    case Obj(fields) =>
      && item.Ref? && item.node in heap
      && item.node.items.Keys == fields.Keys
      && forall k | k in fields :: Denotes(item.node.items[k], fields[k], heap)
  }

  lemma {:induction false} DenotesInLarger(item: Item, v: Value, heap: set<GoMap>, larger: set<GoMap>)
    requires Denotes(item, v, heap) && heap <= larger
    ensures Denotes(item, v, larger)
    decreases v
  {
    if v.Obj? {
      forall k | k in v.fields ensures Denotes(item.node.items[k], v.fields[k], larger) {
        DenotesInLarger(item.node.items[k], v.fields[k], heap, larger);
      }
    }
  }

  // Entry by entry, `items` denotes `fields`.
  ghost predicate DenotesAll(items: map<string, Item>, fields: map<string, Value>, heap: set<GoMap>)
    reads heap
  {
    && items.Keys == fields.Keys
    && forall k | k in fields :: Denotes(items[k], fields[k], heap)
  }

  lemma DenotesAfterWrite(items: map<string, Item>, fields: map<string, Value>, heap: set<GoMap>,
                          k: string, item: Item, v: Value, larger: set<GoMap>)
    requires DenotesAll(items, fields, heap) && heap <= larger
    requires Denotes(item, v, larger)
    ensures DenotesAll(items[k := item], fields[k := v], larger)
  {
    forall j | j in fields ensures Denotes(items[j], fields[j], larger) {
      DenotesInLarger(items[j], fields[j], heap, larger);
    }
  }

  lemma DenotesWhole(node: GoMap, v: Value, heap: set<GoMap>)
    requires v.Obj? && DenotesAll(node.items, v.fields, heap)
    ensures Denotes(Ref(node), v, heap + {node})
  {
    forall k | k in v.fields ensures Denotes(node.items[k], v.fields[k], heap + {node}) {
      DenotesInLarger(node.items[k], v.fields[k], heap, heap + {node});
    }
  }

  // What `out` denotes while the keys `todo` of `b` are still to be visited.
  ghost function Partial(a: Value, b: Value, todo: set<string>): map<string, Value>
    requires a.Obj? && b.Obj?
  {
    map k | k in a.fields.Keys + (b.fields.Keys - todo) ::
      if k in todo then a.fields[k] else Merge(a, b).fields[k]
  }

  lemma PartialStep(a: Value, b: Value, todo: set<string>, k: string)
    requires a.Obj? && b.Obj? && k in todo && todo <= b.fields.Keys
    ensures Partial(a, b, todo - {k}) == Partial(a, b, todo)[k := Merge(a, b).fields[k]]
    ensures Merge(a, b).fields[k] ==
            if k in a.fields && a.fields[k].Obj? && b.fields[k].Obj? then Merge(a.fields[k], b.fields[k])
            else b.fields[k]
    ensures k in Partial(a, b, todo) <==> k in a.fields
    ensures k in a.fields ==> Partial(a, b, todo)[k] == a.fields[k]
  {
  }

  lemma PartialEnds(a: Value, b: Value)
    requires a.Obj? && b.Obj?
    ensures Partial(a, b, b.fields.Keys) == a.fields
    ensures Partial(a, b, {}) == Merge(a, b).fields
  {
  }

  // The keys of `b` are visited in an arbitrary order, as Go's `range` over a map does, and every
  // order gives the same tree. There is no `modifies` clause: no map that existed before the call
  // is written, although submaps are shared into the result.
  method MergeMaps(a: GoMap, b: GoMap, ghost va: Value, ghost vb: Value, ghost heap: set<GoMap>)
    returns (out: GoMap, ghost heap': set<GoMap>)
    requires va.Obj? && vb.Obj?
    requires Denotes(Ref(a), va, heap) && Denotes(Ref(b), vb, heap)
    ensures fresh(out) && heap <= heap' && fresh(heap' - heap)
    ensures Denotes(Ref(out), Merge(va, vb), heap')
    decreases vb, 1
  {
    out := new GoMap(a.items);
    heap' := heap;
    var todo := b.items.Keys;
    PartialEnds(va, vb);
    assert DenotesAll(out.items, va.fields, heap);
    while todo != {}
      invariant fresh(out) && out !in heap'
      invariant heap <= heap' && fresh(heap' - heap)
      invariant todo <= vb.fields.Keys
      invariant DenotesAll(out.items, Partial(va, vb, todo), heap')
      decreases todo
    {
      var k :| k in todo;
      DenotesInLarger(b.items[k], vb.fields[k], heap, heap');
      heap' := MergeKey(out, k, b.items[k], va, vb, todo, heap');
      todo := todo - {k};
    }
    DenotesWhole(out, Merge(va, vb), heap');
    heap' := heap' + {out};
  }

  // The body of the second loop: visit key `k` of `b`, which holds `v`.
  method MergeKey(out: GoMap, k: string, v: Item, ghost va: Value, ghost vb: Value,
                  ghost todo: set<string>, ghost heap: set<GoMap>)
    returns (ghost heap': set<GoMap>)
    requires va.Obj? && vb.Obj? && k in todo && todo <= vb.fields.Keys
    requires out !in heap && DenotesAll(out.items, Partial(va, vb, todo), heap)
    requires Denotes(v, vb.fields[k], heap)
    modifies out
    ensures heap <= heap' && fresh(heap' - heap) && out !in heap'
    ensures DenotesAll(out.items, Partial(va, vb, todo - {k}), heap')
    decreases vb, 0
  {
    ghost var partial, merged := Partial(va, vb, todo), Merge(va, vb).fields[k];
    PartialStep(va, vb, todo, k);
    var item := v;
    heap' := heap;
    if v.Ref? && k in out.items && out.items[k].Ref? {
      var node;
      node, heap' := MergeMaps(out.items[k].node, v.node, va.fields[k], vb.fields[k], heap);
      item := Ref(node);
    }
    DenotesAfterWrite(out.items, partial, heap, k, item, merged, heap');
    out.items := out.items[k := item];
  }

  // MergeFileValues: `parsed` is the outcome of parsing a non-empty value file; None is a parse error.
  method MergeFileValues(valueFile: string, parsed: Option<GoMap>, ghost doc: Value, ghost heap: set<GoMap>)
    returns (res: Option<GoMap>, ghost heap': set<GoMap>)
    requires doc.Obj?
    requires parsed.Some? ==> Denotes(Ref(parsed.value), doc, heap)
    ensures res.None? <==> valueFile != "" && parsed.None?
    ensures res.Some? ==> Denotes(Ref(res.value), if valueFile == "" then Empty else doc, heap')
  {
    var base := new GoMap(map[]);
    heap' := heap + {base};
    if valueFile != "" {
      if parsed.None? { return None, heap'; }
      DenotesInLarger(Ref(parsed.value), doc, heap, heap');
      EmptyIsIdentity(doc);
      base, heap' := MergeMaps(base, parsed.value, Empty, doc, heap');
    }
    res := Some(base);
  }
}
