/**
 * Synthesised examples (scripts/api-docs-generate.ts, exampleValue): on which schema
 * documents the recursion ends.  References go one level deeper, so cycles of references end
 * at the depth limit; merging an `allOf` stays on its level, and that is where it can run on.
 */
module ExampleValues {
  import opened Common
  import opened Json

  type Schemas = map<string, Json>

  /** The value of a string, number, boolean or untyped node; wording and formats live there. */
  type Leaf = (Json, Option<string>) -> Json

  function AsRecord(j: Json): map<string, Json> {
    if j.Obj? then j.fields else map[]
  }

  /** `schemas[name]`; what is undefined reads like an empty object. */
  function Lookup(schemas: Schemas, name: string): Json {
    if name in schemas then schemas[name] else Obj(map[])
  }

  // ---------------------------------------------------------------- the merge

  function Resolve(schemas: Schemas, member: Json): map<string, Json> {
    match RefName(member)
    case Some(name) => AsRecord(Lookup(schemas, name))
    case None => AsRecord(member)
  }

  function MergedFields(schemas: Schemas, members: seq<Json>): map<string, Json> {
    if members == [] then map[] else
      MergedFields(schemas, members[..|members| - 1]) + Resolve(schemas, members[|members| - 1])
  }

  function MergedProperties(schemas: Schemas, members: seq<Json>): map<string, Json> {
    if members == [] then map[] else
      MergedProperties(schemas, members[..|members| - 1]) +
      Entries(Obj(Resolve(schemas, members[|members| - 1])), "properties")
  }

  function Merged(schemas: Schemas, members: seq<Json>): Json {
    Obj(MergedFields(schemas, members)["properties" := Obj(MergedProperties(schemas, members))])
  }

  // ------------------------------------------------------------- the recursion

  /** What one call does: answer, or go on with one node, the items of an array, or the properties. */
  datatype Move =
    | Done(value: Json)
    | Again(node: Json, depth: nat, seen: set<string>)
    | Items(item: Json)
    | Properties(props: map<string, Json>)

  function Truthy(j: Json): bool {
    match j
    case Null => false
    case Bool(flag) => flag
    case Num(number) => number != 0.0
    case NaN => false
    case Str(text) => text != ""
    case _ => true
  }

  function FirstNotNull(types: seq<Json>): Option<Json> {
    if types == [] then None else if types[0] != Str("null") then Some(types[0]) else FirstNotNull(types[1..])
  }

  function TypeOf(node: Json): Option<Json> {
    match Get(Some(node), "type")
    case Some(Arr(types)) =>
      (match FirstNotNull(types)
       case Some(t) => if t != Null then Some(t) else Some(types[0])
       case None => if types == [] then None else Some(types[0]))
    case t => t
  }

  /** The members of the `allOf` a call on the node merges, if it merges one. */
  function Merges(node: Json): Option<seq<Json>> {
    if RefName(node).None? && Get(Some(node), "allOf").Some? && Get(Some(node), "allOf").value.Arr?
    then Some(Elements(node, "allOf"))
    else None
  }

  function MoveOf(node: Json, schemas: Schemas, leaf: Leaf, hint: Option<string>, depth: nat, seen: set<string>): Move {
    if depth > 6 then Done(Null)
    else if RefName(node).Some? then
      var name := RefName(node).value;
      if name in seen then Done(Str("(circular: " + name + ")"))
      else Again(Lookup(schemas, name), depth + 1, seen + {name})
    else if Merges(node).Some? then Again(Merged(schemas, Merges(node).value), depth, seen)
    else if Elements(node, "oneOf") != [] then Again(Elements(node, "oneOf")[0], depth + 1, seen)
    else if Elements(node, "anyOf") != [] then Again(Elements(node, "anyOf")[0], depth + 1, seen)
    else if Get(Some(node), "const").Some? then Done(Get(Some(node), "const").value)
    else if Elements(node, "enum") != [] then Done(Elements(node, "enum")[0])
    else if Get(Some(node), "example").Some? then Done(Get(Some(node), "example").value)
    else if TypeOf(node) == Some(Str("array")) then
      if depth >= 4 then Done(Arr([])) else
      match Get(Some(node), "items") case Some(item) => Items(item) case None => Items(Obj(map[]))
    else if TypeOf(node) == Some(Str("object"))
      || (Get(Some(node), "properties").Some? && Truthy(Get(Some(node), "properties").value)) then
      var props := Entries(node, "properties");
      if props == map[] then Done(if depth == 0 then Obj(map[]) else Str("(operation-specific payload)"))
      else Properties(props)
    else Done(leaf(node, hint))
  }

  /** The call with at most `budget` calls nested in one another: None when that is not enough. */
  function ExampleValue(budget: nat, node: Json, schemas: Schemas, leaf: Leaf, hint: Option<string>, depth: nat,
      seen: set<string>): Option<Json> {
    if budget == 0 then None else
    match MoveOf(node, schemas, leaf, hint, depth, seen)
    case Done(value) => Some(value)
    case Again(next, d, s) => ExampleValue(budget - 1, next, schemas, leaf, hint, d, s)
    case Items(item) =>
      (match ExampleValue(budget - 1, item, schemas, leaf, hint, depth + 1, seen)
       case Some(v) => Some(Arr([v]))
       case None => None)
    case Properties(props) =>
      var out := map key | key in props ::
        ExampleValue(budget - 1, props[key], schemas, leaf, Some(key), depth + 1, seen);
      if exists key :: key in out && out[key].None? then None
      else Some(Obj(map key | key in out :: if out[key].Some? then out[key].value else Null))
  }

  ghost predicate Returns(node: Json, schemas: Schemas, leaf: Leaf, hint: Option<string>, depth: nat,
      seen: set<string>) {
    exists budget: nat :: ExampleValue(budget, node, schemas, leaf, hint, depth, seen).Some?
  }

  // --------------------------------------------------------- chains of merges

  /** The `allOf` that merging these members leads to next, on the same level. */
  function Next(schemas: Schemas, members: seq<Json>): Option<seq<Json>> {
    Merges(Merged(schemas, members))
  }

  /** The chain of merges ends after exactly n more. */
  ghost predicate EndsAfter(schemas: Schemas, members: seq<Json>, n: nat)
    decreases n
  {
    match Next(schemas, members)
    case None => n == 0
    case Some(next) => n > 0 && EndsAfter(schemas, next, n - 1)
  }

  ghost predicate Ends(schemas: Schemas, members: seq<Json>) {
    exists n: nat :: EndsAfter(schemas, members, n)
  }

  lemma {:induction false} LengthIsUnique(schemas: Schemas, members: seq<Json>, m: nat, n: nat)
    requires EndsAfter(schemas, members, m) && EndsAfter(schemas, members, n)
    ensures m == n
    decreases m
  {
    if m > 0 { LengthIsUnique(schemas, Next(schemas, members).value, m - 1, n - 1); }
  }

  ghost function Length(schemas: Schemas, members: seq<Json>): (n: nat)
    requires Ends(schemas, members)
    ensures EndsAfter(schemas, members, n)
  {
    var n: nat :| EndsAfter(schemas, members, n);
    n
  }

  lemma LengthStep(schemas: Schemas, members: seq<Json>)
    requires Next(schemas, members).Some?
    ensures Ends(schemas, members) <==> Ends(schemas, Next(schemas, members).value)
    ensures Ends(schemas, members) ==> Length(schemas, members) == 1 + Length(schemas, Next(schemas, members).value)
  {
    var next := Next(schemas, members).value;
    if Ends(schemas, members) {
      assert EndsAfter(schemas, next, Length(schemas, members) - 1);
      LengthIsUnique(schemas, next, Length(schemas, members) - 1, Length(schemas, next));
    }
    if Ends(schemas, next) {
      assert EndsAfter(schemas, members, Length(schemas, next) + 1);
    }
  }

  /** The member whose `allOf` survives the merge: the last one that has the key. */
  function Source(schemas: Schemas, members: seq<Json>): Option<Json> {
    if members == [] then None
    else if "allOf" in Resolve(schemas, members[|members| - 1]) then Some(members[|members| - 1])
    else Source(schemas, members[..|members| - 1])
  }

  lemma {:induction false} SourceWins(schemas: Schemas, members: seq<Json>)
    ensures Source(schemas, members).Some? <==> "allOf" in MergedFields(schemas, members)
    ensures Source(schemas, members).Some? ==>
              && Source(schemas, members).value in members
              && "allOf" in Resolve(schemas, Source(schemas, members).value)
              && MergedFields(schemas, members)["allOf"] == Resolve(schemas, Source(schemas, members).value)["allOf"]
  {
    if members != [] { SourceWins(schemas, members[..|members| - 1]); }
  }

  lemma NextIsOfSource(schemas: Schemas, members: seq<Json>)
    requires Next(schemas, members).Some?
    ensures Source(schemas, members).Some? && Source(schemas, members).value in members
    ensures var source := Source(schemas, members).value;
            "allOf" in Resolve(schemas, source)
              && Resolve(schemas, source)["allOf"] == Arr(Next(schemas, members).value)
  {
    SourceWins(schemas, members);
  }

  /** The named schema the chain comes to first, if it comes to one: the others lie inside it. */
  function Target(schemas: Schemas, members: seq<Json>): Option<string>
    decreases Arr(members)
  {
    if Next(schemas, members).None? then None else
    NextIsOfSource(schemas, members);
    var source := Source(schemas, members).value;
    if RefName(source).Some? then RefName(source) else Target(schemas, Next(schemas, members).value)
  }

  function AllOfNamed(schemas: Schemas, name: string): seq<Json> {
    Elements(Lookup(schemas, name), "allOf")
  }

  lemma {:induction false} TargetIsNamed(schemas: Schemas, members: seq<Json>)
    requires Target(schemas, members).Some?
    ensures Target(schemas, members).value in schemas
    ensures Ends(schemas, members) <==> Ends(schemas, AllOfNamed(schemas, Target(schemas, members).value))
    ensures Ends(schemas, members) ==>
        Length(schemas, members) > Length(schemas, AllOfNamed(schemas, Target(schemas, members).value))
    decreases Arr(members)
  {
    NextIsOfSource(schemas, members);
    LengthStep(schemas, members);
    if RefName(Source(schemas, members).value).None? {
      TargetIsNamed(schemas, Next(schemas, members).value);
    }
  }

  /** Ranks of the schema names that fall along the chains: the names are not in a circle. */
  ghost predicate Falls(schemas: Schemas, rank: map<string, nat>) {
    && rank.Keys == schemas.Keys
    && forall name :: name in schemas ==>
         match Target(schemas, AllOfNamed(schemas, name))
         case None => true
         case Some(target) => target in schemas && rank[target] < rank[name]
  }

  function Above(rank: map<string, nat>, target: Option<string>): nat {
    if target.Some? && target.value in rank then rank[target.value] + 1 else 0
  }

  lemma {:induction false} FallingChainsEnd(schemas: Schemas, rank: map<string, nat>, members: seq<Json>)
    requires Falls(schemas, rank)
    ensures Ends(schemas, members)
    decreases Above(rank, Target(schemas, members)), Arr(members)
  {
    if Next(schemas, members).None? {
      assert EndsAfter(schemas, members, 0);
    } else {
      NextIsOfSource(schemas, members);
      LengthStep(schemas, members);
      if RefName(Source(schemas, members).value).Some? {
        TargetIsNamed(schemas, members);
      }
      FallingChainsEnd(schemas, rank, Next(schemas, members).value);
    }
  }

  /** All chains end exactly when the names are not in a circle. */
  lemma ChainsEndExactlyWhenRanked(schemas: Schemas)
    ensures (forall members :: Ends(schemas, members)) <==> exists rank :: Falls(schemas, rank)
  {
    if exists rank :: Falls(schemas, rank) {
      var rank :| Falls(schemas, rank);
      forall members ensures Ends(schemas, members) { FallingChainsEnd(schemas, rank, members); }
    }
    if forall members :: Ends(schemas, members) {
      var rank := map name | name in schemas :: Length(schemas, AllOfNamed(schemas, name));
      forall name | name in schemas && Target(schemas, AllOfNamed(schemas, name)).Some?
        ensures var target := Target(schemas, AllOfNamed(schemas, name)).value;
                target in schemas && rank[target] < rank[name]
      {
        TargetIsNamed(schemas, AllOfNamed(schemas, name));
      }
      assert Falls(schemas, rank);
    }
  }

  // -------------------------------------------------------------- termination

  ghost function MergesLeft(schemas: Schemas, node: Json): nat
    requires forall members :: Ends(schemas, members)
  {
    if Merges(node).None? then 0 else 1 + Length(schemas, Merges(node).value)
  }

  function LevelsLeft(depth: nat): nat {
    if depth > 6 then 0 else 7 - depth
  }

  /** Every nested call is on a deeper level, or on the same level with fewer merges left. */
  lemma MoveGoesDown(node: Json, schemas: Schemas, leaf: Leaf, hint: Option<string>, depth: nat, seen: set<string>)
    requires forall members :: Ends(schemas, members)
    ensures match MoveOf(node, schemas, leaf, hint, depth, seen)
            case Done(_) => true
            case Again(next, d, _) =>
              || LevelsLeft(d) < LevelsLeft(depth)
              || (d == depth && MergesLeft(schemas, next) < MergesLeft(schemas, node))
            case _ => LevelsLeft(depth + 1) < LevelsLeft(depth)
  {
    if Merges(node).Some? && Next(schemas, Merges(node).value).Some? {
      LengthStep(schemas, Merges(node).value);
    }
    hide RefName, TypeOf, Truthy, Merged, Ends;
  }

  lemma {:induction false} CallReturns(node: Json, schemas: Schemas, leaf: Leaf, hint: Option<string>, depth: nat,
      seen: set<string>) returns (enough: nat)
    requires forall members :: Ends(schemas, members)
    ensures forall budget: nat :: budget >= enough ==>
        ExampleValue(budget, node, schemas, leaf, hint, depth, seen).Some?
    decreases LevelsLeft(depth), 1, MergesLeft(schemas, node)
  {
    MoveGoesDown(node, schemas, leaf, hint, depth, seen);
    hide MoveOf, MergesLeft, LevelsLeft, Ends;
    var inner := 0;
    match MoveOf(node, schemas, leaf, hint, depth, seen) {
      case Done(_) =>
      case Again(next, d, s) =>
        inner := CallReturns(next, schemas, leaf, hint, d, s);
      case Items(item) =>
        inner := CallReturns(item, schemas, leaf, hint, depth + 1, seen);
      case Properties(props) =>
        inner := PropertiesReturn(props, props.Keys, schemas, leaf, depth + 1, seen);
    }
    enough := inner + 1;
  }

  lemma {:induction false} PropertiesReturn(props: map<string, Json>, keys: set<string>, schemas: Schemas, leaf: Leaf,
      depth: nat, seen: set<string>) returns (enough: nat)
    requires (forall members :: Ends(schemas, members)) && keys <= props.Keys
    ensures forall key, budget: nat :: key in keys && budget >= enough ==>
              ExampleValue(budget, props[key], schemas, leaf, Some(key), depth, seen).Some?
    decreases LevelsLeft(depth), 2, keys
  {
    hide ExampleValue;
    enough := 0;
    if keys != {} {
      HasElement(keys);
      var key :| key in keys;
      var others := PropertiesReturn(props, keys - {key}, schemas, leaf, depth, seen);
      var own := CallReturns(props[key], schemas, leaf, Some(key), depth, seen);
      enough := if own > others then own else others;
    }
  }

  /** A merge chain that runs on uses up every budget. */
  lemma {:induction false} EndlessMerging(budget: nat, node: Json, schemas: Schemas, leaf: Leaf, hint: Option<string>,
      depth: nat, seen: set<string>)
    requires depth <= 6 && Merges(node).Some? && !Ends(schemas, Merges(node).value)
    ensures ExampleValue(budget, node, schemas, leaf, hint, depth, seen).None?
    decreases budget
  {
    hide Merged, RefName, Ends;
    if budget > 0 {
      var members := Merges(node).value;
      NoNextEnds(schemas, members);
      LengthStep(schemas, members);
      EndlessMerging(budget - 1, Merged(schemas, members), schemas, leaf, hint, depth, seen);
    }
  }

  lemma NoNextEnds(schemas: Schemas, members: seq<Json>)
    requires !Ends(schemas, members)
    ensures Next(schemas, members).Some?
  {
    if Next(schemas, members).None? { assert EndsAfter(schemas, members, 0); }
  }

  /**
   * Every call returns, whatever the node, depth and names already seen, exactly when no
   * schema's chain of `allOf`s comes back to itself.  Circles of plain references are harmless.
   */
  lemma EveryCallReturnsExactlyWhenRanked(schemas: Schemas, leaf: Leaf)
    ensures (forall node, hint, depth, seen :: Returns(node, schemas, leaf, hint, depth, seen)) <==>
        exists rank :: Falls(schemas, rank)
  {
    ChainsEndExactlyWhenRanked(schemas);
    if forall members :: Ends(schemas, members) {
      forall node, hint, depth, seen ensures Returns(node, schemas, leaf, hint, depth, seen) {
        var enough := CallReturns(node, schemas, leaf, hint, depth, seen);
        assert ExampleValue(enough, node, schemas, leaf, hint, depth, seen).Some?;
      }
    } else {
      var members :| !Ends(schemas, members);
      var node := Obj(map["allOf" := Arr(members)]);
      assert Merges(node) == Some(members);
      forall budget: nat ensures ExampleValue(budget, node, schemas, leaf, None, 0, {}).None? {
        EndlessMerging(budget, node, schemas, leaf, None, 0, {});
      }
      assert !Returns(node, schemas, leaf, None, 0, {});
    }
  }

  const SELF := Obj(map["$ref" := Str("#/A")])

  /** A schema that merges itself. */
  const CIRCULAR: Schemas := map["A" := Obj(map["allOf" := Arr([SELF])])]

  lemma CircularMerge()
    ensures Merges(CIRCULAR["A"]) == Some([SELF]) && Next(CIRCULAR, [SELF]) == Some([SELF])
  {
    assert LastSegment("#/A") == "A" by {
      assert "#/A"[..2] == "#/";
    }
    assert RefName(SELF) == Some("A");
    assert [SELF][..0] == [];
    assert MergedFields(CIRCULAR, [SELF]) == map[] + CIRCULAR["A"].fields;
  }

  /** No call on it returns: not one of the documentation's own either, at depth 0. */
  lemma CircularAllOfNeverReturns(leaf: Leaf, hint: Option<string>, depth: nat, seen: set<string>)
    requires depth <= 6
    ensures !Returns(CIRCULAR["A"], CIRCULAR, leaf, hint, depth, seen)
  {
    CircularMerge();
    LengthStep(CIRCULAR, [SELF]);
    forall budget: nat ensures ExampleValue(budget, CIRCULAR["A"], CIRCULAR, leaf, hint, depth, seen).None? {
      EndlessMerging(budget, CIRCULAR["A"], CIRCULAR, leaf, hint, depth, seen);
    }
  }

  // ------------------------------------------------------- a sufficient check

  /** A schema named anywhere in the nesting of inline `allOf`s. */
  ghost predicate Mentions(members: seq<Json>, name: string)
    decreases Arr(members)
  {
    exists i :: 0 <= i < |members| && (RefName(members[i]) == Some(name) ||
      (RefName(members[i]).None? && Get(Some(members[i]), "allOf").Some? && Get(Some(members[i]), "allOf").value.Arr? &&
       Mentions(Get(Some(members[i]), "allOf").value.items, name)))
  }

  lemma {:induction false} TargetIsMentioned(schemas: Schemas, members: seq<Json>)
    requires Target(schemas, members).Some?
    ensures Mentions(members, Target(schemas, members).value)
    decreases Arr(members)
  {
    NextIsOfSource(schemas, members);
    var source := Source(schemas, members).value;
    var i :| 0 <= i < |members| && members[i] == source;
    if RefName(source).None? {
      TargetIsMentioned(schemas, Next(schemas, members).value);
    }
  }

  /** If the `allOf` nesting of the named schemas has no circle, every call returns. */
  lemma AcyclicNestingReturns(schemas: Schemas, leaf: Leaf, rank: map<string, nat>, node: Json, hint: Option<string>,
      depth: nat, seen: set<string>)
    requires rank.Keys == schemas.Keys
    requires forall name, other :: name in schemas && other in schemas && Mentions(AllOfNamed(schemas, name), other) ==>
               rank[other] < rank[name]
    ensures Returns(node, schemas, leaf, hint, depth, seen)
  {
    forall name | name in schemas && Target(schemas, AllOfNamed(schemas, name)).Some?
      ensures var target := Target(schemas, AllOfNamed(schemas, name)).value;
              target in schemas && rank[target] < rank[name]
    {
      TargetIsMentioned(schemas, AllOfNamed(schemas, name));
      TargetIsNamed(schemas, AllOfNamed(schemas, name));
    }
    assert Falls(schemas, rank);
    EveryCallReturnsExactlyWhenRanked(schemas, leaf);
  }

  // ------------------------------------------------- what an example shows

  /** The properties a member of an `allOf` brings: of the schema it names, or its own. */
  function PropertiesOf(schemas: Schemas, member: Json): map<string, Json> {
    match RefName(member)
    case Some(name) => if name in schemas then Entries(schemas[name], "properties") else map[]
    case None => Entries(member, "properties")
  }

  ghost predicate LastWithProperty(schemas: Schemas, members: seq<Json>, key: string, i: nat) {
    && i < |members| && key in PropertiesOf(schemas, members[i])
    && forall j :: i < j < |members| ==> key !in PropertiesOf(schemas, members[j])
  }

  lemma ResolvedProperties(schemas: Schemas, member: Json)
    ensures Entries(Obj(Resolve(schemas, member)), "properties") == PropertiesOf(schemas, member)
  {}

  /** A merge has exactly the properties of its members, and of each the one that comes last. */
  ghost predicate SomeHasProperty(schemas: Schemas, members: seq<Json>, key: string) {
    exists i :: 0 <= i < |members| && key in PropertiesOf(schemas, members[i])
  }

  lemma OneMoreMember(schemas: Schemas, members: seq<Json>)
    requires members != []
    ensures MergedProperties(schemas, members) ==
              MergedProperties(schemas, members[..|members| - 1]) + PropertiesOf(schemas, members[|members| - 1])
  {
    ResolvedProperties(schemas, members[|members| - 1]);
  }

  lemma SomeOfMore(schemas: Schemas, members: seq<Json>, key: string)
    requires members != []
    ensures SomeHasProperty(schemas, members, key) <==>
              SomeHasProperty(schemas, members[..|members| - 1], key)
                || key in PropertiesOf(schemas, members[|members| - 1])
  {
    hide PropertiesOf;
    var n := |members| - 1;
    var front := members[..n];
    if i :| 0 <= i < |front| && key in PropertiesOf(schemas, front[i]) {
      assert key in PropertiesOf(schemas, members[i]);
    }
    if i :| 0 <= i < |members| && key in PropertiesOf(schemas, members[i]) && i != n {
      assert key in PropertiesOf(schemas, front[i]);
    }
  }

  lemma {:induction false} MergedPropertiesExactly(schemas: Schemas, members: seq<Json>, key: string)
    ensures key in MergedProperties(schemas, members) <==> SomeHasProperty(schemas, members, key)
    ensures key in MergedProperties(schemas, members) ==>
              exists i: nat :: && LastWithProperty(schemas, members, key, i)
                               && MergedProperties(schemas, members)[key] == PropertiesOf(schemas, members[i])[key]
    decreases |members|
  {
    if members == [] {
      assert MergedProperties(schemas, members) == map[];
    } else {
      var n := |members| - 1;
      var front := members[..n];
      MergedPropertiesExactly(schemas, front, key);
      OneMoreMember(schemas, members);
      SomeOfMore(schemas, members, key);
      hide PropertiesOf, MergedProperties, SomeHasProperty;
      if key in PropertiesOf(schemas, members[n]) {
        assert LastWithProperty(schemas, members, key, n);
      } else if key in MergedProperties(schemas, front) {
        var i: nat :| && LastWithProperty(schemas, front, key, i)
                      && MergedProperties(schemas, front)[key] == PropertiesOf(schemas, front[i])[key];
        StillLast(schemas, members, key, i);
      }
      hide LastWithProperty;
    }
  }

  lemma StillLast(schemas: Schemas, members: seq<Json>, key: string, i: nat)
    requires members != [] && key !in PropertiesOf(schemas, members[|members| - 1])
    requires LastWithProperty(schemas, members[..|members| - 1], key, i)
    ensures i < |members| - 1 && members[..|members| - 1][i] == members[i] && LastWithProperty(schemas, members, key, i)
  {
    hide PropertiesOf;
    var front := members[..|members| - 1];
    assert forall j :: 0 <= j < |front| ==> front[j] == members[j];
  }

  predicate HasItems(node: Json, key: string) {
    node.Obj? && key in node.fields && node.fields[key].Arr? && node.fields[key].items != []
  }

  /** Neither a reference nor a composition: the node itself says what the example is. */
  predicate SpeaksForItself(node: Json) {
    && node.Obj? && RefName(node).None? && !("allOf" in node.fields && node.fields["allOf"].Arr?)
    && !HasItems(node, "oneOf") && !HasItems(node, "anyOf")
  }

  /** And it names no value of its own. */
  predicate NamesNoValue(node: Json) {
    SpeaksForItself(node) && "const" !in node.fields && !HasItems(node, "enum") && "example" !in node.fields
  }

  /** The type is "object", or a list whose first entry other than "null" is that, or is not said at all. */
  predicate ObjectType(node: Json) {
    node.Obj? &&
    ("type" in node.fields ==>
       || node.fields["type"] == Str("object")
       || (&& node.fields["type"].Arr?
           && exists i :: && 0 <= i < |node.fields["type"].items| && node.fields["type"].items[i] == Str("object")
                          && forall j :: 0 <= j < i ==> node.fields["type"].items[j] == Str("null")))
  }

  lemma {:induction false} FirstNotNullAt(types: seq<Json>, i: nat)
    requires i < |types| && types[i] != Str("null") && forall j :: 0 <= j < i ==> types[j] == Str("null")
    ensures FirstNotNull(types) == Some(types[i])
    decreases i
  {
    if i > 0 {
      assert forall j :: 0 < j < |types| ==> types[j] == types[1..][j - 1];
      FirstNotNullAt(types[1..], i - 1);
    }
  }

  /** A reference is followed once; a composition shows its first alternative, `oneOf` before `anyOf`. */
  lemma CompositionShows(budget: nat, node: Json, schemas: Schemas, leaf: Leaf, hint: Option<string>, depth: nat,
      seen: set<string>)
    requires depth <= 6 && node.Obj?
    ensures RefName(node).Some? && RefName(node).value in seen ==>
              ExampleValue(budget + 1, node, schemas, leaf, hint, depth, seen)
                == Some(Str("(circular: " + RefName(node).value + ")"))
    ensures RefName(node).Some? && RefName(node).value !in seen && RefName(node).value in schemas ==>
              ExampleValue(budget + 1, node, schemas, leaf, hint, depth, seen)
                == ExampleValue(budget, schemas[RefName(node).value], schemas, leaf, hint, depth + 1,
                  seen + {RefName(node).value})
    ensures RefName(node).None? && !("allOf" in node.fields && node.fields["allOf"].Arr?) && HasItems(node, "oneOf") ==>
              ExampleValue(budget + 1, node, schemas, leaf, hint, depth, seen)
                == ExampleValue(budget, node.fields["oneOf"].items[0], schemas, leaf, hint, depth + 1, seen)
    ensures RefName(node).None? && !("allOf" in node.fields && node.fields["allOf"].Arr?)
            && !HasItems(node, "oneOf") && HasItems(node, "anyOf") ==>
              ExampleValue(budget + 1, node, schemas, leaf, hint, depth, seen)
                == ExampleValue(budget, node.fields["anyOf"].items[0], schemas, leaf, hint, depth + 1, seen)
  {
    hide RefName, Merged, TypeOf, Truthy;
  }

  /** A node's own value is shown: its constant, else the first of its enumeration, else its example. */
  lemma ValueIsShown(budget: nat, node: Json, schemas: Schemas, leaf: Leaf, hint: Option<string>, depth: nat,
      seen: set<string>)
    requires depth <= 6 && SpeaksForItself(node) && !NamesNoValue(node)
    ensures ExampleValue(budget + 1, node, schemas, leaf, hint, depth, seen) ==
            if "const" in node.fields then Some(node.fields["const"])
            else if HasItems(node, "enum") then Some(node.fields["enum"].items[0])
            else Some(node.fields["example"])
  {
    hide RefName, Merged, TypeOf, Truthy;
  }

  /** An array shows one item, or none where it is nested too deep. */
  lemma ArrayShows(budget: nat, node: Json, schemas: Schemas, leaf: Leaf, hint: Option<string>, depth: nat,
      seen: set<string>)
    requires depth <= 6 && NamesNoValue(node) && "type" in node.fields && node.fields["type"] == Str("array")
    ensures depth >= 4 ==> ExampleValue(budget + 1, node, schemas, leaf, hint, depth, seen) == Some(Arr([]))
    ensures depth < 4 && "items" in node.fields ==>
              ExampleValue(budget + 1, node, schemas, leaf, hint, depth, seen) ==
              match ExampleValue(budget, node.fields["items"], schemas, leaf, hint, depth + 1, seen)
              case Some(v) => Some(Arr([v]))
              case None => None
  {
    hide RefName, Merged, Truthy;
  }

  /** An object shows exactly its properties, each with an example of its own schema. */
  lemma ObjectShows(budget: nat, node: Json, schemas: Schemas, leaf: Leaf, hint: Option<string>, depth: nat,
      seen: set<string>, v: Json)
    requires depth <= 6 && NamesNoValue(node) && ObjectType(node)
    requires "properties" in node.fields && node.fields["properties"].Obj? && node.fields["properties"].fields != map[]
    requires ExampleValue(budget + 1, node, schemas, leaf, hint, depth, seen) == Some(v)
    ensures v.Obj? && v.fields.Keys == node.fields["properties"].fields.Keys
    ensures forall key :: key in v.fields ==>
              ExampleValue(budget, node.fields["properties"].fields[key], schemas, leaf, Some(key), depth + 1, seen)
                == Some(v.fields[key])
  {
    var props := node.fields["properties"].fields;
    MoveToProperties(node, schemas, leaf, hint, depth, seen);
    PropertiesShow(budget, node, schemas, leaf, hint, depth, seen, props, v);
  }

  lemma MoveToProperties(node: Json, schemas: Schemas, leaf: Leaf, hint: Option<string>, depth: nat, seen: set<string>)
    requires depth <= 6 && NamesNoValue(node) && ObjectType(node)
    requires "properties" in node.fields && node.fields["properties"].Obj? && node.fields["properties"].fields != map[]
    ensures MoveOf(node, schemas, leaf, hint, depth, seen) == Properties(node.fields["properties"].fields)
  {
    if "type" in node.fields && node.fields["type"].Arr? {
      var types := node.fields["type"].items;
      var i :| 0 <= i < |types| && types[i] == Str("object") && forall j :: 0 <= j < i ==> types[j] == Str("null");
      FirstNotNullAt(types, i);
    }
    assert Truthy(node.fields["properties"]);
    hide RefName, Merged, Truthy, FirstNotNull;
  }

  lemma PropertiesShow(budget: nat, node: Json, schemas: Schemas, leaf: Leaf, hint: Option<string>, depth: nat,
      seen: set<string>, props: map<string, Json>, v: Json)
    requires MoveOf(node, schemas, leaf, hint, depth, seen) == Properties(props)
    requires ExampleValue(budget + 1, node, schemas, leaf, hint, depth, seen) == Some(v)
    ensures v.Obj? && v.fields.Keys == props.Keys
    ensures forall key :: key in props ==>
              ExampleValue(budget, props[key], schemas, leaf, Some(key), depth + 1, seen) == Some(v.fields[key])
  {
    hide MoveOf;
    var out := map key | key in props :: ExampleValue(budget, props[key], schemas, leaf, Some(key), depth + 1, seen);
    assert !(exists key :: key in out && out[key].None?);
    assert forall key :: key in props ==> out[key].Some?;
  }

  /** The example of a merge has exactly the properties of the merged members, later ones winning. */
  lemma MergeShows(budget: nat, node: Json, members: seq<Json>, schemas: Schemas, leaf: Leaf, hint: Option<string>,
      depth: nat, seen: set<string>, v: Json)
    requires depth <= 6 && RefName(node).None? && node.Obj? && "allOf" in node.fields
        && node.fields["allOf"] == Arr(members)
    requires var m := Merged(schemas, members);
             NamesNoValue(m) && ObjectType(m)
    requires exists key :: SomeHasProperty(schemas, members, key)
    requires ExampleValue(budget + 2, node, schemas, leaf, hint, depth, seen) == Some(v)
    ensures v.Obj? && forall key :: key in v.fields <==> SomeHasProperty(schemas, members, key)
    ensures forall key, i: nat :: LastWithProperty(schemas, members, key, i) ==>
              key in v.fields &&
              ExampleValue(budget, PropertiesOf(schemas, members[i])[key], schemas, leaf, Some(key), depth + 1, seen)
                == Some(v.fields[key])
  {
    var m, props := Merged(schemas, members), MergedProperties(schemas, members);
    MoveToMerge(node, members, schemas, leaf, hint, depth, seen);
    assert m.fields["properties"] == Obj(props);
    forall key
      ensures key in props <==> SomeHasProperty(schemas, members, key)
      ensures forall i: nat :: LastWithProperty(schemas, members, key, i) ==>
                key in props && props[key] == PropertiesOf(schemas, members[i])[key]
    {
      MergedPropertiesExactly(schemas, members, key);
      OnlyLast(schemas, members, key);
    }
    hide MergedProperties, Merged, NamesNoValue, ObjectType, RefName, PropertiesOf, SomeHasProperty, MoveOf,
      LastWithProperty;
    ObjectShows(budget, m, schemas, leaf, hint, depth, seen, v);
  }

  lemma OnlyLast(schemas: Schemas, members: seq<Json>, key: string)
    ensures forall i: nat :: LastWithProperty(schemas, members, key, i) ==> SomeHasProperty(schemas, members, key)
    ensures forall i: nat, j: nat ::
              LastWithProperty(schemas, members, key, i) && LastWithProperty(schemas, members, key, j) ==> i == j
  {}

  lemma MoveToMerge(node: Json, members: seq<Json>, schemas: Schemas, leaf: Leaf, hint: Option<string>, depth: nat,
      seen: set<string>)
    requires depth <= 6 && RefName(node).None? && node.Obj? && "allOf" in node.fields
        && node.fields["allOf"] == Arr(members)
    ensures forall budget: nat ::
              ExampleValue(budget + 1, node, schemas, leaf, hint, depth, seen)
                == ExampleValue(budget, Merged(schemas, members), schemas, leaf, hint, depth, seen)
  {
    hide RefName, Merged, Truthy, TypeOf;
    assert MoveOf(node, schemas, leaf, hint, depth, seen) == Again(Merged(schemas, members), depth, seen);
    hide MoveOf;
  }
}
