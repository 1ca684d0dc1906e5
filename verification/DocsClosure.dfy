/**
 * Schema links of the generated API reference (scripts/api-docs-generate.ts): which schema
 * names a type label links to, which names get an appendix heading, and whether the two agree.
 */
module DocsClosure {
  import opened Common
  import opened Json

  type Schemas = map<string, Json>

  /** Schemas documented in their own section, never in the appendix. */
  const ENVELOPE := {"ApiSuccess", "ApiError", "ApiMeta", "ErrorDetail", "ErrorCode"}

  // -------------------------------------------------------------- the closure

  /** The nodes `visit` descends into when a node carries no schema reference. */
  ghost predicate Child(node: Json, child: Json) {
    || child in Elements(node, "allOf") || child in Elements(node, "oneOf") || child in Elements(node, "anyOf")
    || Get(Some(node), "items") == Some(child)
    || (exists k :: k in Entries(node, "properties") && Entries(node, "properties")[k] == child)
  }

  /** The same, field by field. */
  lemma ChildExactly(node: Json, child: Json)
    ensures Child(node, child) <==>
              && node.Obj?
              && (|| ("allOf" in node.fields && node.fields["allOf"].Arr? && child in node.fields["allOf"].items)
                  || ("oneOf" in node.fields && node.fields["oneOf"].Arr? && child in node.fields["oneOf"].items)
                  || ("anyOf" in node.fields && node.fields["anyOf"].Arr? && child in node.fields["anyOf"].items)
                  || ("items" in node.fields && child == node.fields["items"])
                  || ("properties" in node.fields && node.fields["properties"].Obj?
                      && child in node.fields["properties"].fields.Values))
  {
    ElementsExactly(node, "allOf", child);
    ElementsExactly(node, "oneOf", child);
    ElementsExactly(node, "anyOf", child);
    if k :| k in Entries(node, "properties") && Entries(node, "properties")[k] == child {
      assert node.fields["properties"].fields[k] == child;
    }
    if node.Obj? && "properties" in node.fields && node.fields["properties"].Obj? {
      assert Entries(node, "properties") == node.fields["properties"].fields;
    }
    hide Elements;
  }

  lemma ChildIsSmaller(node: Json, child: Json)
    requires Child(node, child)
    ensures child < node
  {}

  /** Every schema the node mentions where `visit` looks is an envelope or in `names`. */
  ghost predicate Covered(node: Json, names: set<string>)
    decreases node
  {
    match RefName(node)
    case Some(name) => name in ENVELOPE || name in names
    case None => forall child :: Child(node, child) ==> (ChildIsSmaller(node, child); Covered(child, names))
  }

  ghost predicate AllCovered(schemas: Schemas, which: set<string>, names: set<string>) {
    forall name :: name in which && name in schemas ==> Covered(schemas[name], names)
  }

  /** Closed under the edges `visit` follows. */
  ghost predicate Closed(schemas: Schemas, names: set<string>) {
    AllCovered(schemas, names, names)
  }

  lemma {:induction false} CoveredGrows(node: Json, s: set<string>, t: set<string>)
    requires s <= t && Covered(node, s)
    ensures Covered(node, t)
    decreases node
  {
    if RefName(node).None? {
      forall child | Child(node, child) ensures Covered(child, t) {
        ChildIsSmaller(node, child);
        CoveredGrows(child, s, t);
      }
    }
  }

  /** What visiting did to the set: the names it added are covered. */
  ghost predicate Visited(schemas: Schemas, before: set<string>, after: set<string>) {
    before <= after && AllCovered(schemas, after - before, after)
  }

  /** Nothing was added that some closed set covering the node could do without. */
  ghost predicate Needed(schemas: Schemas, before: set<string>, node: Json, after: set<string>) {
    forall s :: Closed(schemas, s) && before <= s && Covered(node, s) ==> after <= s
  }

  lemma NothingVisited(schemas: Schemas, names: set<string>, node: Json)
    ensures Visited(schemas, names, names) && Needed(schemas, names, node, names)
  {}

  lemma VisitedThen(schemas: Schemas, a: set<string>, b: set<string>, c: set<string>)
    requires Visited(schemas, a, b) && Visited(schemas, b, c)
    ensures Visited(schemas, a, c) && a <= b <= c
  {
    forall name | name in c - a && name in schemas ensures Covered(schemas[name], c) {
      if name in b { CoveredGrows(schemas[name], b, c); }
    }
  }

  lemma NeededThen(schemas: Schemas, a: set<string>, node: Json, b: set<string>, child: Json, c: set<string>)
    requires Needed(schemas, a, node, b) && Needed(schemas, b, child, c) && RefName(node).None? && Child(node, child)
    ensures Needed(schemas, a, node, c)
  {
    forall s | Closed(schemas, s) && a <= s && Covered(node, s) ensures c <= s {}
  }

  lemma NameVisited(schemas: Schemas, node: Json, start: set<string>, after: set<string>)
    requires RefName(node).Some? && RefName(node).value !in ENVELOPE
    requires var name := RefName(node).value;
             && Visited(schemas, start + {name}, after)
             && (name in schemas ==>
                   Covered(schemas[name], after) && Needed(schemas, start + {name}, schemas[name], after))
             && (name !in schemas ==> after == start + {name})
    ensures Visited(schemas, start, after) && Needed(schemas, start, node, after) && RefName(node).value in after
  {
    var name := RefName(node).value;
    forall s | Closed(schemas, s) && start <= s && Covered(node, s) ensures after <= s {
      assert start + {name} <= s;
    }
  }

  class NameSet {
    var elems: set<string>

    constructor (names: set<string>)
      ensures elems == names
    {
      elems := names;
    }
  }

  method Visit(node: Json, schemas: Schemas, reachable: NameSet)
    modifies reachable
    ensures Visited(schemas, old(reachable.elems), reachable.elems) && Covered(node, reachable.elems)
    ensures Needed(schemas, old(reachable.elems), node, reachable.elems)
    decreases schemas.Keys - reachable.elems, node, 0
  {
    hide AllCovered, Needed, Visited;
    ghost var start := reachable.elems;
    NothingVisited(schemas, start, node);
    var name := RefName(node);
    if name.Some? {
      if name.value !in ENVELOPE && name.value !in reachable.elems {
        reachable.elems := reachable.elems + {name.value};
        NothingVisited(schemas, reachable.elems, node);
        if name.value in schemas {
          Visit(schemas[name.value], schemas, reachable);
        }
        NameVisited(schemas, node, start, reachable.elems);
      }
      return;
    }
    var members := Elements(node, "allOf") + Elements(node, "oneOf") + Elements(node, "anyOf");
    for i := 0 to |members|
      invariant start <= reachable.elems && Visited(schemas, start, reachable.elems)
          && Needed(schemas, start, node, reachable.elems)
      invariant forall k :: 0 <= k < i ==> Covered(members[k], reachable.elems)
    {
      VisitChild(node, members[i], schemas, reachable, start, members[..i]);
    }
    var items := Get(Some(node), "items");
    if items.Some? {
      VisitChild(node, items.value, schemas, reachable, start, members);
    }
    ghost var earlier := members + if items.Some? then [items.value] else [];
    var properties := Entries(node, "properties");
    var keys := properties.Keys;
    while keys != {}
      invariant keys <= properties.Keys
      invariant start <= reachable.elems && Visited(schemas, start, reachable.elems)
          && Needed(schemas, start, node, reachable.elems)
      invariant forall child :: child in earlier ==> Covered(child, reachable.elems)
      invariant (forall child :: child in members ==> child in earlier) && (items.Some? ==> items.value in earlier)
      invariant forall k :: k in properties && k !in keys ==> properties[k] in earlier
      decreases keys
    {
      HasElement(keys);
      var key :| key in keys;
      keys := keys - {key};
      VisitChild(node, properties[key], schemas, reachable, start, earlier);
      earlier := earlier + [properties[key]];
    }
    ChildrenCovered(node, earlier, reachable.elems);
  }

  /** One descent of the walk; what was covered before stays covered. */
  method VisitChild(node: Json, child: Json, schemas: Schemas, reachable: NameSet, ghost start: set<string>,
      ghost earlier: seq<Json>)
    requires RefName(node).None? && Child(node, child)
    requires Visited(schemas, start, reachable.elems) && Needed(schemas, start, node, reachable.elems)
    requires forall e :: e in earlier ==> Covered(e, reachable.elems)
    modifies reachable
    ensures old(reachable.elems) <= reachable.elems
    ensures Visited(schemas, start, reachable.elems) && Needed(schemas, start, node, reachable.elems)
    ensures Covered(child, reachable.elems) && forall e :: e in earlier ==> Covered(e, reachable.elems)
    decreases schemas.Keys - reachable.elems, child, 1
  {
    hide Needed, AllCovered;
    ghost var before := reachable.elems;
    Visit(child, schemas, reachable);
    VisitedThen(schemas, start, before, reachable.elems);
    NeededThen(schemas, start, node, before, child, reachable.elems);
    forall e | e in earlier { CoveredGrows(e, before, reachable.elems); }
  }

  lemma ChildrenCovered(node: Json, children: seq<Json>, names: set<string>)
    requires RefName(node).None? && forall child :: child in children ==> Covered(child, names)
    requires forall child :: Child(node, child) ==> child in children
    ensures Covered(node, names)
  {}

  /** Turns a set of schema names into the least closed set that holds them. */
  method ExpandReachableClosure(schemas: Schemas, reachable: NameSet)
    modifies reachable
    ensures old(reachable.elems) <= reachable.elems && Closed(schemas, reachable.elems)
    ensures forall s :: Closed(schemas, s) && old(reachable.elems) <= s ==> reachable.elems <= s
  {
    ghost var start := reachable.elems;
    var left := reachable.elems;
    ghost var done: set<string> := {};
    while left != {}
      invariant left !! done && left + done == start
      invariant start <= reachable.elems
      invariant AllCovered(schemas, reachable.elems - left, reachable.elems)
      invariant forall s :: Closed(schemas, s) && start <= s ==> reachable.elems <= s
      decreases left
    {
      HasElement(left);
      var name :| name in left;
      ghost var before := reachable.elems;
      if name in schemas {
        Visit(schemas[name], schemas, reachable);
        ExpandedOne(schemas, start, left, name, before, reachable.elems);
      }
      left, done := left - {name}, done + {name};
    }
    assert reachable.elems - {} == reachable.elems;
  }

  lemma ExpandedOne(schemas: Schemas, start: set<string>, left: set<string>, name: string, before: set<string>,
      after: set<string>)
    requires name in left && left <= start <= before && name in schemas
    requires Visited(schemas, before, after) && Covered(schemas[name], after)
        && Needed(schemas, before, schemas[name], after)
    requires AllCovered(schemas, before - left, before)
    requires forall s :: Closed(schemas, s) && start <= s ==> before <= s
    ensures AllCovered(schemas, after - (left - {name}), after)
    ensures forall s :: Closed(schemas, s) && start <= s ==> after <= s
  {
    forall n | n in after - (left - {name}) && n in schemas ensures Covered(schemas[n], after) {
      if n in before - left { CoveredGrows(schemas[n], before, after); }
    }
  }

  // ------------------------------------------------------------------- links

  function DataOf(member: Json): Option<Json> {
    Get(Get(Some(member), "properties"), "data")
  }

  function FirstWithRef(members: seq<Json>): (r: Option<Json>)
    ensures r.Some? ==> r.value in members
  {
    if members == [] then None
    else if Get(Some(members[0]), "$ref").Some? && Get(Some(members[0]), "$ref").value.Str? then Some(members[0])
    else FirstWithRef(members[1..])
  }

  function FirstWithData(members: seq<Json>): (r: Option<Json>)
    ensures r.Some? ==> r.value in members && DataOf(r.value).Some?
  {
    if members == [] then None
    else if DataOf(members[0]).Some? then Some(members[0])
    else FirstWithData(members[1..])
  }

  /** The parts of a node whose labels its own label is made of. */
  function Parts(node: Json): (parts: seq<Json>)
    ensures forall part :: part in parts ==> part < node
  {
    var allOf := Elements(node, "allOf");
    if Get(Some(node), "allOf").Some? && Get(Some(node), "allOf").value.Arr? then
      if FirstWithRef(allOf).Some? && FirstWithData(allOf).Some?
      then [FirstWithRef(allOf).value, DataOf(FirstWithData(allOf).value).value]
      else allOf
    else if Elements(node, "oneOf") != [] then Elements(node, "oneOf")
    else if Get(Some(node), "type") == Some(Str("array")) && Get(Some(node), "items").Some?
      then [Get(Some(node), "items").value]
    else []
  }

  /** The appendix headings the label of a node links to; labels are cut off below depth 6. */
  function Links(node: Json, depth: nat): set<string>
    decreases node
  {
    if depth > 6 then {} else
    match RefName(node)
    case Some(name) => if name in ENVELOPE then {} else {name}
    case None => var below := depth + 1; set part, name | part in Parts(node) && name in Links(part, below) :: name
  }

  // ---------------------------------------------- which names a label links to

  predicate IsReference(m: Json) {
    m.Obj? && "$ref" in m.fields && m.fields["$ref"].Str?
  }

  predicate HasData(m: Json) {
    m.Obj? && "properties" in m.fields && m.fields["properties"].Obj? && "data" in m.fields["properties"].fields
  }

  predicate FirstReferenceAt(ms: seq<Json>, i: nat) {
    i < |ms| && IsReference(ms[i]) && forall j :: 0 <= j < i ==> !IsReference(ms[j])
  }

  predicate FirstDataAt(ms: seq<Json>, i: nat) {
    i < |ms| && HasData(ms[i]) && forall j :: 0 <= j < i ==> !HasData(ms[j])
  }

  /**
   * The label of a node without a name is made of the label of this part.  Of `allOf`: the first
   * reference and the first `data` property where there are both, otherwise all members.
   * Without it, of `oneOf`: all alternatives.  Without that, of an array: its items.
   */
  ghost predicate LabelStep(node: Json, part: Json) {
    && node.Obj? && RefName(node).None?
    && if "allOf" in node.fields && node.fields["allOf"].Arr? then
         var ms := node.fields["allOf"].items;
         if (exists i: nat :: FirstReferenceAt(ms, i)) && (exists i: nat :: FirstDataAt(ms, i)) then
           || (exists i: nat :: FirstReferenceAt(ms, i) && part == ms[i])
           || (exists i: nat :: FirstDataAt(ms, i) && part == ms[i].fields["properties"].fields["data"])
         else part in ms
       else if "oneOf" in node.fields && node.fields["oneOf"].Arr? && node.fields["oneOf"].items != [] then
         part in node.fields["oneOf"].items
       else
         && "type" in node.fields && node.fields["type"] == Str("array")
         && "items" in node.fields && part == node.fields["items"]
  }

  lemma {:induction false} FirstReferenceFound(ms: seq<Json>)
    ensures FirstWithRef(ms).None? <==> forall i :: 0 <= i < |ms| ==> !IsReference(ms[i])
    ensures FirstWithRef(ms).Some? ==> exists i: nat :: FirstReferenceAt(ms, i) && FirstWithRef(ms) == Some(ms[i])
    decreases |ms|
  {
    if ms != [] {
      var rest := ms[1..];
      FirstReferenceFound(rest);
      assert forall i :: 0 < i < |ms| ==> ms[i] == rest[i - 1];
      if IsReference(ms[0]) {
        assert FirstReferenceAt(ms, 0);
      } else if i: nat :| FirstReferenceAt(rest, i) && FirstWithRef(rest) == Some(rest[i]) {
        assert FirstReferenceAt(ms, i + 1);
      }
    }
  }

  lemma {:induction false} FirstDataFound(ms: seq<Json>)
    ensures FirstWithData(ms).None? <==> forall i :: 0 <= i < |ms| ==> !HasData(ms[i])
    ensures FirstWithData(ms).Some? ==> exists i: nat :: FirstDataAt(ms, i) && FirstWithData(ms) == Some(ms[i])
    decreases |ms|
  {
    if ms != [] {
      var rest := ms[1..];
      FirstDataFound(rest);
      assert forall i :: 0 < i < |ms| ==> ms[i] == rest[i - 1];
      if HasData(ms[0]) {
        assert FirstDataAt(ms, 0);
      } else if i: nat :| FirstDataAt(rest, i) && FirstWithData(rest) == Some(rest[i]) {
        assert FirstDataAt(ms, i + 1);
      }
    }
  }

  lemma PartsExactly(node: Json, part: Json)
    requires RefName(node).None?
    ensures part in Parts(node) <==> LabelStep(node, part)
  {
    if node.Obj? && "allOf" in node.fields && node.fields["allOf"].Arr? {
      var ms := node.fields["allOf"].items;
      FirstReferenceFound(ms);
      FirstDataFound(ms);
      assert forall i: nat, j: nat :: FirstReferenceAt(ms, i) && FirstReferenceAt(ms, j) ==> i == j;
      assert forall i: nat, j: nat :: FirstDataAt(ms, i) && FirstDataAt(ms, j) ==> i == j;
      hide FirstWithRef, FirstWithData;
    }
  }

  /** Part by part, from the node to a reference with the name, which is not one of the envelopes. */
  ghost predicate LabelChain(node: Json, chain: seq<Json>, name: string) {
    && chain != [] && chain[0] == node
    && (forall i :: 0 <= i < |chain| - 1 ==> LabelStep(chain[i], chain[i + 1]))
    && RefName(chain[|chain| - 1]) == Some(name)
    && name !in {"ApiSuccess", "ApiError", "ApiMeta", "ErrorDetail", "ErrorCode"}
  }

  /** At most so many nodes long. */
  ghost predicate Linked(node: Json, length: int, name: string) {
    exists chain :: |chain| <= length && LabelChain(node, chain, name)
  }

  lemma StepLinks(node: Json, part: Json, length: int, name: string)
    requires LabelStep(node, part) && Linked(part, length, name)
    ensures Linked(node, length + 1, name)
  {
    var rest :| |rest| <= length && LabelChain(part, rest, name);
    assert LabelChain(node, [node] + rest, name);
  }

  lemma LinkedBy(node: Json, length: int, name: string) returns (part: Json)
    requires Linked(node, length, name) && RefName(node).None?
    ensures LabelStep(node, part) && Linked(part, length - 1, name)
  {
    var chain :| |chain| <= length && LabelChain(node, chain, name);
    part := chain[1];
    assert LabelStep(chain[0], part);
    assert LabelChain(part, chain[1..], name);
  }

  lemma NamedIsLinked(node: Json, length: int, name: string)
    requires RefName(node).Some?
    ensures Linked(node, length, name) <==>
              length >= 1 && RefName(node) == Some(name)
                && name !in {"ApiSuccess", "ApiError", "ApiMeta", "ErrorDetail", "ErrorCode"}
  {
    if chain :| |chain| <= length && LabelChain(node, chain, name) {
      if |chain| > 1 {
        assert LabelStep(chain[0], chain[1]);
        NamedHasNoStep(node, chain[1]);
      }
    }
    if length >= 1 && RefName(node) == Some(name)
      && name !in {"ApiSuccess", "ApiError", "ApiMeta", "ErrorDetail", "ErrorCode"} {
      assert LabelChain(node, [node], name);
    }
  }

  lemma NothingIsLinked(node: Json, length: int, name: string)
    requires length <= 0
    ensures !Linked(node, length, name)
  {}

  lemma LinksOfParts(node: Json, depth: nat, name: string)
    requires RefName(node).None? && depth <= 6
    ensures name in Links(node, depth) <==> exists part :: part in Parts(node) && name in Links(part, depth + 1)
  {
    hide Parts;
  }

  /** A label at a depth links to exactly the names that so many steps lead to; from the top, at most six. */
  lemma {:induction false} LinksExactly(node: Json, depth: nat, name: string)
    ensures name in Links(node, depth) <==> Linked(node, 7 - depth, name)
    decreases node
  {
    hide LabelStep, Parts, Linked, RefName;
    if depth > 6 {
      NothingIsLinked(node, 7 - depth, name);
    } else if RefName(node).Some? {
      NamedIsLinked(node, 7 - depth, name);
    } else {
      LinksOfParts(node, depth, name);
      if part :| part in Parts(node) && name in Links(part, depth + 1) {
        PartsExactly(node, part);
        LinksExactly(part, depth + 1, name);
        StepLinks(node, part, 7 - (depth + 1), name);
      }
      if Linked(node, 7 - depth, name) {
        var part := LinkedBy(node, 7 - depth, name);
        PartsExactly(node, part);
        LinksExactly(part, depth + 1, name);
      }
    }
  }

  lemma NamedHasNoStep(node: Json, part: Json)
    requires RefName(node).Some?
    ensures !LabelStep(node, part)
  {}

  /** The links of several labels together. */
  function LinksOfAll(nodes: seq<Json>, depth: nat): set<string> {
    if nodes == [] then {} else LinksOfAll(nodes[..|nodes| - 1], depth) + Links(nodes[|nodes| - 1], depth)
  }

  lemma {:induction false} LinksOfAllAt(nodes: seq<Json>, depth: nat)
    ensures forall name :: name in LinksOfAll(nodes, depth) <==>
        exists node :: node in nodes && name in Links(node, depth)
  {
    if nodes != [] {
      var rest, last := nodes[..|nodes| - 1], nodes[|nodes| - 1];
      LinksOfAllAt(rest, depth);
      assert LinksOfAll(nodes, depth) == LinksOfAll(rest, depth) + Links(last, depth);
      assert last in nodes && forall node :: node in nodes <==> node in rest || node == last;
      hide Links, LinksOfAll;
    }
  }

  /** Renders one label; every schema it links to is added to `reachable`. */
  method SchemaSummary(node: Json, reachable: NameSet, depth: nat)
    modifies reachable
    ensures reachable.elems == old(reachable.elems) + Links(node, depth)
    decreases node
  {
    if depth > 6 {
      return;
    }
    var name := RefName(node);
    if name.Some? {
      if name.value !in ENVELOPE {
        reachable.elems := reachable.elems + {name.value};
      }
      return;
    }
    var parts := Parts(node);
    for i := 0 to |parts|
      invariant reachable.elems == old(reachable.elems) + LinksOfAll(parts[..i], depth + 1)
    {
      SchemaSummary(parts[i], reachable, depth + 1);
      assert parts[..i + 1][..i] == parts[..i];
    }
    assert parts[..|parts|] == parts;
    LinksOfAllAt(parts, depth + 1);
    assert LinksOfAll(parts, depth + 1) == Links(node, depth);
  }

  // --------------------------------------------------- headings for the links

  /** `visit` passes a part of a label by: it is neither a child nor a child of a reference-free child. */
  ghost predicate OutOfSight(node: Json, part: Json) {
    !Child(node, part) && forall m :: Child(node, m) && RefName(m).None? ==> !Child(m, part)
  }

  /** The links of a label that lie below such a part. */
  ghost function LinksBeside(node: Json, depth: nat): set<string>
    decreases node
  {
    if depth > 6 || RefName(node).Some? then {} else
    var below := depth + 1;
    (set part, name | part in Parts(node) && OutOfSight(node, part) && name in Links(part, below) :: name) +
    (set part, name | part in Parts(node) && !OutOfSight(node, part) && name in LinksBeside(part, below) :: name)
  }

  lemma {:induction false} LinksOfCovered(node: Json, depth: nat, names: set<string>)
    requires Covered(node, names)
    ensures LinksBeside(node, depth) <= Links(node, depth) <= names + LinksBeside(node, depth)
    decreases node
  {
    if depth <= 6 && RefName(node).None? {
      forall part | part in Parts(node)
        ensures !OutOfSight(node, part) ==>
            LinksBeside(part, depth + 1) <= Links(part, depth + 1) <= names + LinksBeside(part, depth + 1)
      {
        if !OutOfSight(node, part) {
          InSightIsCovered(node, part, names);
          LinksOfCovered(part, depth + 1, names);
        }
      }
    }
  }

  lemma InSightIsCovered(node: Json, part: Json, names: set<string>)
    requires Covered(node, names) && RefName(node).None? && !OutOfSight(node, part)
    ensures Covered(part, names)
  {
    if !Child(node, part) {
      var m :| Child(node, m) && RefName(m).None? && Child(m, part);
      assert Covered(m, names);
    }
  }

  /** The properties an appendix table lists; an enum is listed by its values instead. */
  function Rows(schemas: Schemas, name: string): map<string, Json> {
    if name !in schemas || (Get(Some(schemas[name]), "enum").Some? && Get(Some(schemas[name]), "enum").value.Arr?)
      then map[]
    else Entries(schemas[name], "properties")
  }

  function TableLinks(schemas: Schemas, name: string): set<string> {
    set key, link | key in Rows(schemas, name) && link in Links(Rows(schemas, name)[key], 0) :: link
  }

  /** The links of a table that stand beside a `$ref`: all of them when the schema itself is one. */
  ghost function TableLinksBeside(schemas: Schemas, name: string): set<string> {
    if name in schemas && RefName(schemas[name]).Some? then TableLinks(schemas, name) else
    set key, link | key in Rows(schemas, name) && link in LinksBeside(Rows(schemas, name)[key], 0) :: link
  }

  lemma TableLinksSplit(schemas: Schemas, name: string, headings: set<string>)
    requires Closed(schemas, headings) && name in headings
    ensures TableLinksBeside(schemas, name) <= TableLinks(schemas, name) <= headings + TableLinksBeside(schemas, name)
  {
    if name in schemas && RefName(schemas[name]).None? {
      forall key | key in Rows(schemas, name)
        ensures var row := Rows(schemas, name)[key];
                LinksBeside(row, 0) <= Links(row, 0) <= headings + LinksBeside(row, 0)
      {
        assert Child(schemas[name], Rows(schemas, name)[key]);
        LinksOfCovered(Rows(schemas, name)[key], 0, headings);
      }
    }
  }

  /** A schema the node mentions where `visit` looks, envelopes aside. */
  ghost predicate Sees(node: Json, name: string)
    decreases node
  {
    match RefName(node)
    case Some(n) => n == name && n !in ENVELOPE
    case None => exists child :: Child(node, child) && (ChildIsSmaller(node, child); Sees(child, name))
  }

  lemma {:induction false} CoveredExactly(node: Json, names: set<string>)
    ensures Covered(node, names) <==> forall name :: Sees(node, name) ==> name in names
    decreases node
  {
    if RefName(node).None? {
      forall child | Child(node, child)
        ensures Covered(child, names) <==> forall name :: Sees(child, name) ==> name in names {
        ChildIsSmaller(node, child);
        CoveredExactly(child, names);
      }
      if forall name :: Sees(node, name) ==> name in names {
        forall child, name | Child(node, child) && Sees(child, name) ensures name in names { assert Sees(node, name); }
      }
    } else {
      assert RefName(node).value !in ENVELOPE ==> Sees(node, RefName(node).value);
    }
  }

  ghost predicate Edge(schemas: Schemas, a: string, b: string) {
    a in schemas && Sees(schemas[a], b)
  }

  /** From a schema some label links to, mention by mention. */
  ghost predicate Path(labels: seq<Json>, schemas: Schemas, path: seq<string>) {
    && path != [] && path[0] in LinksOfAll(labels, 0)
    && forall i :: 0 <= i < |path| - 1 ==> Edge(schemas, path[i], path[i + 1])
  }

  /** The schema is reached from the labels of the operations. */
  ghost predicate Reached(labels: seq<Json>, schemas: Schemas, name: string) {
    exists path :: Path(labels, schemas, path) && path[|path| - 1] == name
  }

  lemma ReachedThrough(labels: seq<Json>, schemas: Schemas, a: string, b: string)
    requires Reached(labels, schemas, a) && Edge(schemas, a, b)
    ensures Reached(labels, schemas, b)
  {
    var path :| Path(labels, schemas, path) && path[|path| - 1] == a;
    assert Path(labels, schemas, path + [b]);
    assert (path + [b])[|path + [b]| - 1] == b;
  }

  lemma LinkIsReached(labels: seq<Json>, schemas: Schemas, name: string)
    requires name in LinksOfAll(labels, 0)
    ensures Reached(labels, schemas, name)
  {
    assert Path(labels, schemas, [name]) && [name][|[name]| - 1] == name;
  }

  lemma {:induction false} PathStaysInside(labels: seq<Json>, schemas: Schemas, path: seq<string>, names: set<string>)
    requires Path(labels, schemas, path) && LinksOfAll(labels, 0) <= names && Closed(schemas, names)
    ensures path[|path| - 1] in names
    decreases |path|
  {
    if |path| > 1 {
      var front := path[..|path| - 1];
      PathStaysInside(labels, schemas, front, names);
      var a := front[|front| - 1];
      assert Edge(schemas, path[|path| - 2], path[|path| - 1]);
      CoveredExactly(schemas[a], names);
    }
  }

  /** What the code turns a document into: the least closed set with the labels' links. */
  ghost predicate AreHeadings(labels: seq<Json>, schemas: Schemas, headings: set<string>) {
    && LinksOfAll(labels, 0) <= headings && Closed(schemas, headings)
    && forall s :: Closed(schemas, s) && LinksOfAll(labels, 0) <= s ==> headings <= s
  }

  /** The headings are the schemas reached. */
  lemma HeadingsAreReached(labels: seq<Json>, schemas: Schemas, headings: set<string>)
    requires AreHeadings(labels, schemas, headings)
    ensures forall name :: name in headings <==> Reached(labels, schemas, name)
  {
    hide Covered, Sees, LinksOfAll;
    var reached := set name | name in headings && Reached(labels, schemas, name);
    forall name | name in reached && name in schemas ensures Covered(schemas[name], reached) {
      CoveredExactly(schemas[name], headings);
      CoveredExactly(schemas[name], reached);
      forall b | Sees(schemas[name], b) ensures b in reached {
        assert Edge(schemas, name, b);
        ReachedThrough(labels, schemas, name, b);
      }
    }
    forall name | name in LinksOfAll(labels, 0) ensures name in reached { LinkIsReached(labels, schemas, name); }
    assert Closed(schemas, reached) && headings <= reached;
    forall name | Reached(labels, schemas, name) ensures name in headings {
      var path :| Path(labels, schemas, path) && path[|path| - 1] == name;
      PathStaysInside(labels, schemas, path, headings);
    }
  }

  /**
   * Every link in every appendix table has a heading exactly when, in the document, what a
   * reached schema's table links to beside a `$ref` is reached from the labels some other way:
   * the closure returns at a reference and does not look at its siblings.
   */
  lemma TablesLinkToHeadings(labels: seq<Json>, schemas: Schemas, headings: set<string>)
    requires AreHeadings(labels, schemas, headings)
    ensures (forall name :: name in headings ==> TableLinks(schemas, name) <= headings) <==>
            (forall name, link :: Reached(labels, schemas, name) && link in TableLinksBeside(schemas, name) ==>
               Reached(labels, schemas, link))
  {
    hide TableLinks, TableLinksBeside, Reached;
    HeadingsAreReached(labels, schemas, headings);
    forall name | name in headings
      ensures TableLinksBeside(schemas, name) <= TableLinks(schemas, name) <= headings + TableLinksBeside(schemas, name)
    {
      TableLinksSplit(schemas, name, headings);
    }
  }

  /** No node puts properties beside a `$ref`. */
  ghost predicate Tidy(node: Json)
    decreases node
  {
    && (RefName(node).Some? ==> Entries(node, "properties") == map[])
    && forall child :: Child(node, child) ==> (ChildIsSmaller(node, child); Tidy(child))
  }

  lemma {:induction false} TidyHidesNothing(node: Json, depth: nat)
    requires Tidy(node)
    ensures LinksBeside(node, depth) == {}
    decreases node
  {
    if depth <= 6 && RefName(node).None? {
      forall part | part in Parts(node) ensures !OutOfSight(node, part) && LinksBeside(part, depth + 1) == {} {
        TidyPart(node, part);
        TidyHidesNothing(part, depth + 1);
      }
    }
  }

  lemma TidyPart(node: Json, part: Json)
    requires Tidy(node) && part in Parts(node)
    ensures Tidy(part) && !OutOfSight(node, part)
  {
    if !Child(node, part) {
      var d := FirstWithData(Elements(node, "allOf")).value;
      assert Child(node, d) && Tidy(d) && part == DataOf(d).value;
      assert "data" in Entries(d, "properties") && Entries(d, "properties")["data"] == part;
      assert Child(d, part);
    }
  }

  /** For documents that never do, no appendix table has a dangling link. */
  lemma TidyTablesNeverDangle(schemas: Schemas, headings: set<string>, name: string)
    requires Closed(schemas, headings) && name in headings
    requires forall n :: n in schemas ==> Tidy(schemas[n])
    ensures TableLinks(schemas, name) <= headings
  {
    TableLinksSplit(schemas, name, headings);
    if name in schemas {
      forall key | key in Rows(schemas, name) ensures LinksBeside(Rows(schemas, name)[key], 0) == {} {
        assert Child(schemas[name], Rows(schemas, name)[key]);
        TidyHidesNothing(Rows(schemas, name)[key], 0);
      }
    }
  }

  const REF_C := Obj(map["$ref" := Str("#/C")])

  const REF_A := Obj(map["$ref" := Str("#/A")])

  /** A is a reference to B and still declares a property, which refers to C. */
  const SIBLINGS: Schemas := map["A" := Obj(map["$ref" := Str("#/B"), "properties" := Obj(map["p" := REF_C])])]

  lemma SiblingNames()
    ensures RefName(REF_A) == Some("A") && RefName(REF_C) == Some("C") && RefName(SIBLINGS["A"]) == Some("B")
  {
    assert LastSegment("#/A") == "A" && LastSegment("#/B") == "B" && LastSegment("#/C") == "C" by {
      assert "#/A"[..2] == "#/" && "#/B"[..2] == "#/" && "#/C"[..2] == "#/";
    }
  }

  /** An operation answers with A: whatever headings the code makes, A's table links to C, which has none. */
  lemma SiblingOfRefDangles(headings: set<string>)
    requires AreHeadings([REF_A], SIBLINGS, headings)
    ensures "A" in headings && "C" in TableLinks(SIBLINGS, "A") && "C" !in headings
  {
    SiblingNames();
    LinksOfAllAt([REF_A], 0);
    assert REF_A in [REF_A] && "A" in Links(REF_A, 0);
    assert LinksOfAll([REF_A], 0) <= {"A"};
    assert Covered(SIBLINGS["A"], {"A", "B"});
    assert Closed(SIBLINGS, {"A", "B"});
    assert "p" in Rows(SIBLINGS, "A") && Rows(SIBLINGS, "A")["p"] == REF_C;
    assert "C" in Links(Rows(SIBLINGS, "A")["p"], 0);
  }

  // ------------------------------------------------------------ the whole page

  /**
   * Whatever a label of an operation links to has a heading: a reference, the items of an
   * array, an alternative, a member.
   */
  lemma LinkedSchemaHasHeading(labels: seq<Json>, schemas: Schemas, headings: set<string>, node: Json,
      chain: seq<Json>, name: string)
    requires AreHeadings(labels, schemas, headings) && node in labels
    requires |chain| <= 7 && LabelChain(node, chain, name)
    ensures name in headings
  {
    LinksExactly(node, 0, name);
    LinksOfAllAt(labels, 0);
  }

  /** The links of an appendix table are those of its property labels; a schema with an enum has no such table. */
  lemma TableLinksExactly(schemas: Schemas, name: string, link: string)
    ensures link in TableLinks(schemas, name) <==>
              && name in schemas && schemas[name].Obj?
              && !("enum" in schemas[name].fields && schemas[name].fields["enum"].Arr?)
              && "properties" in schemas[name].fields && schemas[name].fields["properties"].Obj?
              && exists key, chain ::
                   && key in schemas[name].fields["properties"].fields && |chain| <= 7
                   && LabelChain(schemas[name].fields["properties"].fields[key], chain, link)
  {
    hide Links;
    forall key | key in Rows(schemas, name) { LinksExactly(Rows(schemas, name)[key], 0, link); }
  }

  /** Renders the labels of all operations, then closes: the headings the appendix will have. */
  method AppendixHeadings(labels: seq<Json>, schemas: Schemas) returns (headings: set<string>)
    ensures AreHeadings(labels, schemas, headings)
  {
    var reachable := new NameSet({});
    for i := 0 to |labels|
      invariant reachable.elems == LinksOfAll(labels[..i], 0)
    {
      SchemaSummary(labels[i], reachable, 0);
      assert labels[..i + 1][..i] == labels[..i];
    }
    assert labels[..|labels|] == labels;
    ExpandReachableClosure(schemas, reachable);
    headings := reachable.elems;
  }
}
