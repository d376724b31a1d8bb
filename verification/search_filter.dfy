/** `applyConstraint` of backend/helm_client/search_repo.go: a filter that writes its output
    into the front of the very array it is reading. */
module SearchFilter {
  import opened Options
  import opened Sequences

  // The version library is kept abstract: how a version parses, and which versions a constraint admits.
  // A constraint that does not parse itself is `None`.
  datatype Semver<!V> = Semver(parse: string -> Option<V>, constraint: Option<V -> bool>)

  datatype Found = Found(name: string, version: string)

  // The version parses and satisfies the constraint.
  predicate Admits<V>(lib: Semver<V>, r: Found)
    requires lib.constraint.Some?
  {
    lib.parse(r.version).Some? && lib.constraint.value(lib.parse(r.version).value)
  }

  // The admitted elements, in order.
  function Filter<V>(lib: Semver<V>, s: seq<Found>): (kept: seq<Found>)
    requires lib.constraint.Some?
    ensures |kept| <= |s|
  {
    if s == [] then []
    else
      var front := Filter(lib, s[..|s| - 1]);
      if Admits(lib, s[|s| - 1]) then front + [s[|s| - 1]] else front
  }

  // The same, in the words of the library: an unparsable version is out, any other as the constraint says.
  function Admitted<V>(lib: Semver<V>): Found -> bool
    requires lib.constraint.Some?
  {
    (r: Found) => match lib.parse(r.version)
      case None => false
      case Some(v) => lib.constraint.value(v)
  }

  // `Filter` is the order-preserving selection: it reads `s` at an increasing list of positions that
  // are exactly those of the admitted elements.
  lemma {:induction false} FilterSelects<V>(lib: Semver<V>, s: seq<Found>) returns (positions: seq<nat>)
    requires lib.constraint.Some?
    ensures Picks(s, Admitted(lib), positions, Filter(lib, s))
  {
    if s == [] { return []; }
    var n := |s| - 1;
    var front := FilterSelects(lib, s[..n]);
    if Admitted(lib)(s[n]) {
      PicksKept(s, Admitted(lib), front, Filter(lib, s[..n]));
      return front + [n];
    } else {
      PicksSkipped(s, Admitted(lib), front, Filter(lib, s[..n]));
      return front;
    }
  }

  // `res[..len]` is the slice passed in; the result is the slice `res[..kept]` of the same array.
  // Nothing at or after position `kept` is ever written, so no element is overwritten before it is read.
  method ApplyConstraint<V>(lib: Semver<V>, res: array<Found>) returns (ok: bool, kept: nat)
    modifies res
    ensures ok <==> lib.constraint.Some?
    ensures !ok ==> kept == res.Length && res[..] == old(res[..])
    ensures ok ==> kept <= res.Length && res[..kept] == Filter(lib, old(res[..]))
    ensures ok ==> res[kept..] == old(res[kept..])
  {
    if lib.constraint.None? { return false, res.Length; }
    kept := 0;
    for i := 0 to res.Length
      invariant kept <= i
      invariant res[..kept] == Filter(lib, old(res[..i]))
      invariant forall k | kept <= k < res.Length :: res[k] == old(res[k])
    {
      var r := res[i];
      assert r == old(res[i]);
      assert old(res[..i + 1])[..i] == old(res[..i]);
      var v := lib.parse(r.version);
      if v.None? { continue; }
      if lib.constraint.value(v.value) {
        res[kept] := r;
        kept := kept + 1;
        assert res[..kept] == Filter(lib, old(res[..i])) + [r];
      }
    }
    ok := true;
    assert old(res[..res.Length]) == old(res[..]);
  }
}
