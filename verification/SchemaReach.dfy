/**
 * Does an error response resolve to the shared error envelope?  (scripts/api-spec-check.ts,
 * schemaReachesApiError.)  A depth-first search over schemas that may refer to each other in
 * cycles, which stops at the first hit and shares one set of seen names between all branches.
 */
module SchemaReach {
  import opened Common
  import opened Json

  const TARGET := "ApiError"

  function Members(node: Json): (members: seq<Json>)
    ensures forall member :: member in members ==> member < node
  {
    Elements(node, "allOf") + Elements(node, "oneOf") + Elements(node, "anyOf")
  }

  predicate IsUnder(node: Json, key: string, member: Json) {
    node.Obj? && key in node.fields && node.fields[key].Arr? && member in node.fields[key].items
  }

  lemma MembersExactly(node: Json, member: Json)
    ensures member in Members(node) <==>
              IsUnder(node, "allOf", member) || IsUnder(node, "oneOf", member) || IsUnder(node, "anyOf", member)
  {
    ElementsExactly(node, "allOf", member);
    ElementsExactly(node, "oneOf", member);
    ElementsExactly(node, "anyOf", member);
    hide Elements;
  }

  /** One step from a node: through its `$ref` when it has one, else into a member of a composition. */
  ghost predicate Edge(schemas: map<string, Json>, a: Json, b: Json) {
    match RefName(a)
    case Some(name) => name in schemas && b == schemas[name]
    case None => IsUnder(a, "allOf", b) || IsUnder(a, "oneOf", b) || IsUnder(a, "anyOf", b)
  }

  /** A chain of steps from `node` to a reference to the envelope. */
  ghost predicate Chain(schemas: map<string, Json>, node: Json, path: seq<Json>) {
    && |path| > 0 && path[0] == node && RefName(path[|path| - 1]) == Some("ApiError")
    && forall i :: 0 < i < |path| ==> Edge(schemas, path[i - 1], path[i])
  }

  ghost predicate Reaches(schemas: map<string, Json>, node: Json) {
    exists path :: Chain(schemas, node, path)
  }

  lemma ReachesThrough(schemas: map<string, Json>, node: Json, next: Json)
    requires Edge(schemas, node, next) && Reaches(schemas, next)
    ensures Reaches(schemas, node)
  {
    var path :| Chain(schemas, next, path);
    assert Chain(schemas, node, [node] + path);
  }

  /** Without leaving the node, every reference leads to a seen name other than the target. */
  ghost predicate Quiet(node: Json, seen: set<string>)
    decreases node
  {
    match RefName(node)
    case Some(name) => name != TARGET && name in seen
    case None => forall member :: member in Members(node) ==> Quiet(member, seen)
  }

  ghost predicate AllQuiet(schemas: map<string, Json>, names: set<string>, seen: set<string>) {
    forall name :: name in names && name in schemas ==> Quiet(schemas[name], seen)
  }

  lemma {:induction false} QuietGrows(node: Json, s: set<string>, t: set<string>)
    requires s <= t && Quiet(node, s)
    ensures Quiet(node, t)
    decreases node
  {
    if RefName(node).None? {
      forall member | member in Members(node) { QuietGrows(member, s, t); }
    }
  }

  lemma AllQuietGrows(schemas: map<string, Json>, names: set<string>, s: set<string>, t: set<string>)
    requires s <= t && AllQuiet(schemas, names, s)
    ensures AllQuiet(schemas, names, t)
  {
    forall name | name in names && name in schemas { QuietGrows(schemas[name], s, t); }
  }

  /** A quiet node in a quiet set of names starts no chain. */
  lemma {:induction false} QuietNeverReaches(schemas: map<string, Json>, node: Json, seen: set<string>, path: seq<Json>)
    requires Quiet(node, seen) && AllQuiet(schemas, seen, seen)
    ensures !Chain(schemas, node, path)
    decreases |path|
  {
    if Chain(schemas, node, path) && |path| > 1 {
      assert Edge(schemas, path[0], path[1]);
      assert Chain(schemas, path[1], path[1..]);
      QuietNeverReaches(schemas, path[1], seen, path[1..]);
    }
  }

  class NameSet {
    var elems: set<string>

    constructor ()
      ensures elems == {}
    {
      elems := {};
    }
  }

  method Search(node: Json, schemas: map<string, Json>, seen: NameSet) returns (found: bool)
    modifies seen
    ensures old(seen.elems) <= seen.elems
    ensures found ==> Reaches(schemas, node)
    ensures !found ==> Quiet(node, seen.elems) && AllQuiet(schemas, seen.elems - old(seen.elems), seen.elems)
    decreases schemas.Keys - seen.elems, node
  {
    hide Reaches, AllQuiet;
    var name := RefName(node);
    if name.Some? {
      if name.value == TARGET {
        assert Chain(schemas, node, [node]);
        ChainReaches(schemas, node, [node]);
        return true;
      }
      if name.value in seen.elems {
        NoneIsQuiet(schemas, seen.elems);
        return false;
      }
      ghost var before := seen.elems;
      seen.elems := seen.elems + {name.value};
      if name.value !in schemas {
        MissingIsQuiet(schemas, name.value, seen.elems);
        assert seen.elems - before == {name.value};
        return false;
      }
      found := Search(schemas[name.value], schemas, seen);
      if found {
        ReachesThrough(schemas, node, schemas[name.value]);
      } else {
        OneMoreQuiet(schemas, name.value, seen.elems - (before + {name.value}), seen.elems);
        assert seen.elems - before == seen.elems - (before + {name.value}) + {name.value};
      }
      return;
    }
    var members := Members(node);
    NoneIsQuiet(schemas, seen.elems);
    for i := 0 to |members|
      invariant old(seen.elems) <= seen.elems
      invariant forall k :: 0 <= k < i ==> Quiet(members[k], seen.elems)
      invariant AllQuiet(schemas, seen.elems - old(seen.elems), seen.elems)
    {
      ghost var before := seen.elems;
      found := Search(members[i], schemas, seen);
      if found {
        MembersExactly(node, members[i]);
        ReachesThrough(schemas, node, members[i]);
        return;
      }
      forall k | 0 <= k < i { QuietGrows(members[k], before, seen.elems); }
      AllQuietGrows(schemas, before - old(seen.elems), before, seen.elems);
      QuietUnion(schemas, before - old(seen.elems), seen.elems - before, seen.elems);
      assert seen.elems - old(seen.elems) == (before - old(seen.elems)) + (seen.elems - before);
    }
    return false;
  }

  lemma ChainReaches(schemas: map<string, Json>, node: Json, path: seq<Json>)
    requires Chain(schemas, node, path)
    ensures Reaches(schemas, node)
  {}

  lemma NoneIsQuiet(schemas: map<string, Json>, seen: set<string>)
    ensures AllQuiet(schemas, seen - seen, seen)
  {}

  lemma MissingIsQuiet(schemas: map<string, Json>, name: string, seen: set<string>)
    requires name !in schemas
    ensures AllQuiet(schemas, {name}, seen)
  {}

  lemma OneMoreQuiet(schemas: map<string, Json>, name: string, names: set<string>, seen: set<string>)
    requires AllQuiet(schemas, names, seen) && name in schemas && Quiet(schemas[name], seen)
    ensures AllQuiet(schemas, names + {name}, seen)
  {}

  lemma QuietUnion(schemas: map<string, Json>, a: set<string>, b: set<string>, seen: set<string>)
    requires AllQuiet(schemas, a, seen) && AllQuiet(schemas, b, seen)
    ensures AllQuiet(schemas, a + b, seen)
  {}

  /** The top-level call: true exactly when a chain leads to the envelope. */
  method SchemaReachesApiError(node: Json, schemas: map<string, Json>) returns (found: bool)
    ensures found <==> Reaches(schemas, node)
  {
    var seen := new NameSet();
    found := Search(node, schemas, seen);
    if !found {
      assert seen.elems - {} == seen.elems;
      forall path ensures !Chain(schemas, node, path) {
        QuietNeverReaches(schemas, node, seen.elems, path);
      }
    }
  }
}
