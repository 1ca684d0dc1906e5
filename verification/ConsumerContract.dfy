/**
 * The frozen consumer contract (scripts/api-consumer-contract.ts): the slice of an API
 * description that some paths reach through `$ref`, and the additive comparison of two slices.
 */
module ConsumerContract {
  import opened Common
  import opened Json

  type Components = map<string, map<string, Json>>

  /** The two parts of an OpenAPI document the code reads. */
  datatype Document = Document(paths: map<string, Json>, components: Components)

  // ------------------------------------------------------- reference strings

  const PREFIX := "#/components/"

  function IndexOf(s: string, c: char): nat
    ensures IndexOf(s, c) <= |s| && c !in s[..IndexOf(s, c)]
    ensures IndexOf(s, c) < |s| ==> s[IndexOf(s, c)] == c
  {
    if s == [] || s[0] == c then 0 else 1 + IndexOf(s[1..], c)
  }

  predicate HasLineBreak(s: string) {
    '\n' in s || '\r' in s || '\U{2028}' in s || '\U{2029}' in s
  }

  /** The regular expression for a component reference: its group, then everything after the next slash. */
  function ParseRef(ref: string): Option<(string, string)> {
    if !(PREFIX <= ref) then None else
    var rest := ref[|PREFIX|..];
    var slash := IndexOf(rest, '/');
    if slash == 0 || slash + 1 >= |rest| || HasLineBreak(rest[slash + 1..]) then None
    else Some((rest[..slash], rest[slash + 1..]))
  }

  function RefTo(group: string, name: string): string {
    PREFIX + group + "/" + name
  }

  lemma ParsedRefIsPrinted(ref: string)
    requires ParseRef(ref).Some?
    ensures ref == RefTo(ParseRef(ref).value.0, ParseRef(ref).value.1)
  {
    var rest := ref[|PREFIX|..];
    var slash := IndexOf(rest, '/');
    assert rest == rest[..slash] + ['/'] + rest[slash + 1..];
  }

  /** Exactly these texts are component references, and they are read as they are written. */
  lemma WrittenRefIsRead(group: string, name: string)
    requires '/' !in group
    ensures ParseRef("#/components/" + group + "/" + name) ==
            if group != "" && name != "" && '\n' !in name && '\r' !in name && '\U{2028}' !in name && '\U{2029}' !in name
            then Some((group, name)) else None
  {
    var rest := group + "/" + name;
    var ref := "#/components/" + rest;
    assert "#/components/" + group + "/" + name == ref && ref[..|PREFIX|] == PREFIX && ref[|PREFIX|..] == rest;
    FirstSlash(group, name);
    assert rest[..|group|] == group && rest[|group| + 1..] == name;
  }

  lemma {:induction false} FirstSlash(group: string, name: string)
    requires '/' !in group
    ensures IndexOf(group + "/" + name, '/') == |group|
  {
    var s := group + "/" + name;
    if group != "" {
      assert s[1..] == group[1..] + "/" + name;
      FirstSlash(group[1..], name);
    }
  }

  function Find(components: Components, group: string, name: string): Option<Json> {
    if group in components && name in components[group] then Some(components[group][name]) else None
  }

  function Lookup(components: Components, ref: string): Option<Json> {
    match ParseRef(ref)
    case None => None
    case Some((group, name)) => Find(components, group, name)
  }

  // ------------------------------------------------------------ reachability

  /** The component references written inside a value, at any depth. */
  function RefsIn(v: Json): set<string>
    decreases v, 0
  {
    match v
    case Arr(items) => set item, ref | item in items && ref in RefsIn(item) :: ref
    case Obj(fields) => set key, ref | key in fields && ref in RefsAt(key, fields[key]) :: ref
    case _ => {}
  }

  /** The references of one object entry; a `$ref` string counts when it names a component. */
  function RefsAt(key: string, child: Json): set<string>
    decreases child, 1
  {
    RefsIn(child) + if key == "$ref" && child.Str? && ParseRef(child.text).Some? then {child.text} else {}
  }

  /** A part of a value: an item of an array or the value of an object's field. */
  ghost predicate PartOf(v: Json, part: Json) {
    (v.Arr? && part in v.items) || (v.Obj? && exists key :: key in v.fields && v.fields[key] == part)
  }

  /** From part to part, ending at an object whose `$ref` is this text. */
  ghost predicate LeadsToRef(v: Json, chain: seq<Json>, ref: string) {
    && chain != [] && chain[0] == v
    && (forall i :: 0 <= i < |chain| - 1 ==> PartOf(chain[i], chain[i + 1]))
    && var last := chain[|chain| - 1];
    && last.Obj? && "$ref" in last.fields && last.fields["$ref"] == Str(ref)
  }

  ghost predicate Mentions(v: Json, ref: string) {
    exists chain :: LeadsToRef(v, chain, ref)
  }

  lemma PartMentions(v: Json, part: Json, ref: string)
    requires PartOf(v, part) && Mentions(part, ref)
    ensures Mentions(v, ref)
  {
    var chain :| LeadsToRef(part, chain, ref);
    assert LeadsToRef(v, [v] + chain, ref);
  }

  lemma {:induction false} ChainIsCollected(v: Json, chain: seq<Json>, ref: string)
    requires LeadsToRef(v, chain, ref) && ParseRef(ref).Some?
    ensures ref in RefsIn(v)
    decreases |chain|
  {
    if |chain| == 1 {
      assert ref in RefsAt("$ref", v.fields["$ref"]);
    } else {
      assert PartOf(chain[0], chain[1]);
      ChainIsCollected(chain[1], chain[1..], ref);
      if v.Obj? {
        var key :| key in v.fields && v.fields[key] == chain[1];
        assert ref in RefsAt(key, v.fields[key]);
      }
    }
  }

  /** The references of a value are the component references that stand under a `$ref` somewhere in it. */
  lemma {:induction false} RefsAreTheMentioned(v: Json, ref: string)
    ensures ref in RefsIn(v) <==> ParseRef(ref).Some? && Mentions(v, ref)
    decreases v
  {
    if chain :| ParseRef(ref).Some? && LeadsToRef(v, chain, ref) {
      ChainIsCollected(v, chain, ref);
    }
    if ref in RefsIn(v) {
      match v
      case Arr(items) =>
        var item :| item in items && ref in RefsIn(item);
        RefsAreTheMentioned(item, ref);
        PartMentions(v, item, ref);
      case Obj(fields) =>
        var key :| key in fields && ref in RefsAt(key, fields[key]);
        if ref in RefsIn(fields[key]) {
          RefsAreTheMentioned(fields[key], ref);
          PartMentions(v, fields[key], ref);
        } else {
          assert LeadsToRef(v, [v], ref);
        }
    }
  }

  function RefsOf(components: Components, ref: string): set<string> {
    match Lookup(components, ref)
    case None => {}
    case Some(v) => RefsIn(v)
  }

  ghost predicate Closed(components: Components, refs: set<string>) {
    forall ref :: ref in refs ==> RefsOf(components, ref) <= refs
  }

  /** A walk along references: it starts in `from`, and each reference occurs in the component before it. */
  ghost predicate Walk(components: Components, from: set<string>, path: seq<string>) {
    && |path| > 0 && path[0] in from
    && forall i :: 0 < i < |path| ==> path[i] in RefsOf(components, path[i - 1])
  }

  ghost predicate Reaches(components: Components, from: set<string>, ref: string) {
    exists path :: Walk(components, from, path) && path[|path| - 1] == ref
  }

  lemma {:induction false} WalkStaysInside(components: Components, from: set<string>, path: seq<string>, s: set<string>)
    requires Walk(components, from, path) && from <= s && Closed(components, s)
    ensures path[|path| - 1] in s
  {
    if |path| > 1 {
      WalkStaysInside(components, from, path[..|path| - 1], s);
      assert path[|path| - 1] in RefsOf(components, path[|path| - 2]);
    }
  }

  lemma WalkOn(components: Components, from: set<string>, ref: string, next: string)
    requires Reaches(components, from, ref) && next in RefsOf(components, ref)
    ensures Reaches(components, from, next)
  {
    var path :| Walk(components, from, path) && path[|path| - 1] == ref;
    assert Walk(components, from, path + [next]);
    assert (path + [next])[|path|] == next;
  }

  lemma StartIsReached(components: Components, from: set<string>, ref: string)
    requires ref in from
    ensures Reaches(components, from, ref)
  {
    assert Walk(components, from, [ref]);
  }

  /** What a walk over `roots` must have done to the set of seen references. */
  ghost predicate Collected(components: Components, roots: set<string>, before: set<string>, after: set<string>) {
    && before + roots <= after
    && (forall ref :: ref in after && ref !in before ==> RefsOf(components, ref) <= after)
    && (forall s :: Closed(components, s) && before + roots <= s ==> after <= s)
  }

  lemma CollectedThen(components: Components, r1: set<string>, r2: set<string>, a: set<string>, b: set<string>,
      c: set<string>)
    requires Collected(components, r1, a, b) && Collected(components, r2, b, c)
    ensures Collected(components, r1 + r2, a, c) && a <= c
  {}

  /** From a closed start the collected references are exactly the reachable ones. */
  lemma CollectedIsReachable(components: Components, roots: set<string>, before: set<string>, after: set<string>)
    requires Collected(components, roots, before, after) && Closed(components, before)
    ensures Closed(components, after)
    ensures forall ref :: ref in after <==> ref in before || Reaches(components, roots, ref)
  {
    var s := set ref | ref in after && (ref in before || Reaches(components, roots, ref));
    assert Closed(components, s) by {
      forall ref, next | ref in s && next in RefsOf(components, ref) ensures next in s {
        if ref !in before { WalkOn(components, roots, ref, next); }
      }
    }
    forall ref | ref in roots ensures ref in s { StartIsReached(components, roots, ref); }
    forall ref | Reaches(components, roots, ref) ensures ref in after {
      var path :| Walk(components, roots, path) && path[|path| - 1] == ref;
      WalkStaysInside(components, roots, path, after);
    }
  }

  class RefSet {
    var elems: set<string>

    constructor ()
      ensures elems == {}
    {
      elems := {};
    }
  }

  /** Depth first over a value and everything it refers to, with one shared set of seen references. */
  method CollectRefs(value: Json, components: Components, seen: RefSet, ghost universe: set<string>)
    requires RefsIn(value) <= universe && Closed(components, universe)
    modifies seen
    ensures Collected(components, RefsIn(value), old(seen.elems), seen.elems)
    decreases universe - seen.elems, value, 0
  {
    hide RefsOf, Lookup, ParseRef, Collected;
    NothingCollected(components, seen.elems);
    ghost var roots: set<string> := {};
    if value.Arr? {
      for i := 0 to |value.items|
        invariant forall ref :: ref in roots <==> exists k :: 0 <= k < i && ref in RefsIn(value.items[k])
        invariant old(seen.elems) <= seen.elems && Collected(components, roots, old(seen.elems), seen.elems)
      {
        ghost var before := seen.elems;
        CollectRefs(value.items[i], components, seen, universe);
        CollectedThen(components, roots, RefsIn(value.items[i]), old(seen.elems), before, seen.elems);
        roots := roots + RefsIn(value.items[i]);
      }
    } else if value.Obj? {
      var keys := value.fields.Keys;
      while keys != {}
        invariant keys <= value.fields.Keys
        invariant forall ref :: ref in roots <==>
            exists k :: k in value.fields && k !in keys && ref in RefsAt(k, value.fields[k])
        invariant old(seen.elems) <= seen.elems && Collected(components, roots, old(seen.elems), seen.elems)
        decreases keys
      {
        HasElement(keys);
        var key :| key in keys;
        keys := keys - {key};
        var child := value.fields[key];
        ghost var before := seen.elems;
        CollectEntry(key, child, components, seen, universe);
        CollectedThen(components, roots, RefsAt(key, child), old(seen.elems), before, seen.elems);
        roots := roots + RefsAt(key, child);
      }
    }
    assert roots == RefsIn(value);
  }

  /** One entry of an object: a `$ref` string is followed once, anything else is searched. */
  method CollectEntry(key: string, child: Json, components: Components, seen: RefSet, ghost universe: set<string>)
    requires RefsAt(key, child) <= universe && Closed(components, universe)
    modifies seen
    ensures Collected(components, RefsAt(key, child), old(seen.elems), seen.elems)
    decreases universe - seen.elems, child, 1
  {
    if key == "$ref" && child.Str? {
      if ParseRef(child.text).Some? && child.text !in seen.elems {
        seen.elems := seen.elems + {child.text};
        var target := Lookup(components, child.text);
        if target.Some? {
          CollectRefs(target.value, components, seen, universe);
        }
      }
    } else {
      CollectRefs(child, components, seen, universe);
    }
  }

  lemma NothingCollected(components: Components, s: set<string>)
    ensures Collected(components, {}, s, s)
  {}

  // ------------------------------------------------------- the frozen slice

  datatype BuildError = MissingPath(path: string) | MissingGroup(group: string)

  function PathsOf(bundle: Document, paths: set<string>): map<string, Json>
    requires paths <= bundle.paths.Keys
  {
    map p | p in paths :: bundle.paths[p]
  }

  function PathRefs(bundle: Document, paths: set<string>): set<string> {
    set p, ref | p in paths && p in bundle.paths && ref in RefsIn(bundle.paths[p]) :: ref
  }

  /** The component (group, name) is referred to, directly or not, from one of the paths. */
  ghost predicate Needed(bundle: Document, paths: set<string>, group: string, name: string) {
    && ParseRef(RefTo(group, name)) == Some((group, name))
    && Reaches(bundle.components, PathRefs(bundle, paths), RefTo(group, name))
  }

  /** The slice holds the paths and the needed components, each as the bundle has it, and nothing else. */
  ghost predicate IsContract(bundle: Document, paths: set<string>, slice: Document) {
    && paths <= bundle.paths.Keys
    && slice.paths == PathsOf(bundle, paths)
    && forall group, name :: Find(slice.components, group, name) ==
         if Needed(bundle, paths, group, name) then Find(bundle.components, group, name) else None
  }

  /** A slice as it is built in memory, where a component can be present and undefined (None). */
  datatype Slice = Slice(paths: map<string, Json>, components: map<string, map<string, Option<Json>>>)

  function Entry(s: Slice, group: string, name: string): Option<Option<Json>> {
    if group in s.components && name in s.components[group] then Some(s.components[group][name]) else None
  }

  /** What the YAML file of a slice holds: an undefined entry is not written. */
  function Written(s: Slice): Document {
    Document(s.paths, map group | group in s.components ::
                        map name | name in s.components[group] && s.components[group][name].Some? ::
                          s.components[group][name].value)
  }

  /** A document read back from a file. */
  function Read(d: Document): Slice {
    Slice(d.paths, map group | group in d.components ::
                     map name | name in d.components[group] :: Some(d.components[group][name]))
  }

  /** The slice has an entry for every needed component, undefined where the bundle has none. */
  ghost predicate IsBuilt(bundle: Document, paths: set<string>, slice: Slice) {
    && paths <= bundle.paths.Keys
    && slice.paths == PathsOf(bundle, paths)
    && forall group, name :: Entry(slice, group, name) ==
         if Needed(bundle, paths, group, name) then Some(Find(bundle.components, group, name)) else None
  }

  /** Its file is the contract. */
  lemma BuiltIsContract(bundle: Document, paths: set<string>, slice: Slice)
    requires IsBuilt(bundle, paths, slice)
    ensures IsContract(bundle, paths, Written(slice))
  {
    forall group, name
      ensures Find(Written(slice).components, group, name) ==
              if Needed(bundle, paths, group, name) then Find(bundle.components, group, name) else None
    {
      assert Entry(slice, group, name) ==
             if Needed(bundle, paths, group, name) then Some(Find(bundle.components, group, name)) else None;
    }
  }

  function Mentioned(components: Components): set<string> {
    set group, name, ref |
      group in components && name in components[group] && ref in RefsIn(components[group][name]) :: ref
  }

  lemma MentionedIsClosed(components: Components, refs: set<string>)
    ensures Closed(components, refs + Mentioned(components))
  {
    forall ref, next | next in RefsOf(components, ref) ensures next in Mentioned(components) {
      var (group, name) := ParseRef(ref).value;
      assert next in RefsIn(components[group][name]);
    }
  }

  lemma NothingIsClosed(components: Components)
    ensures Closed(components, {})
  {}

  lemma MorePathRefs(bundle: Document, done: set<string>, p: string, paths: set<string>)
    requires p in bundle.paths && p in paths
    ensures PathRefs(bundle, done + {p}) == PathRefs(bundle, done) + RefsIn(bundle.paths[p])
    ensures RefsIn(bundle.paths[p]) <= PathRefs(bundle, paths) && PathRefs(bundle, {}) == {}
    ensures done <= bundle.paths.Keys ==> PathsOf(bundle, done + {p}) == PathsOf(bundle, done)[p := bundle.paths[p]]
  {}

  /** Consumer paths come from the keys of a record, so they are a set here; the order does not matter. */
  method BuildConsumerContract(bundle: Document, paths: set<string>) returns (r: Result<Slice, BuildError>)
    ensures r.Ok? ==> IsBuilt(bundle, paths, r.value)
    ensures r.Err? && r.error.MissingPath? ==> r.error.path in paths && r.error.path !in bundle.paths
    ensures r.Err? && r.error.MissingGroup? ==>
              r.error.group !in bundle.components && exists name :: Needed(bundle, paths, r.error.group, name)
  {
    var slicePaths: map<string, Json> := map[];
    var refs := new RefSet();
    ghost var universe := PathRefs(bundle, paths) + Mentioned(bundle.components);
    MentionedIsClosed(bundle.components, PathRefs(bundle, paths));
    var left := paths;
    ghost var done: set<string> := {};
    NothingCollected(bundle.components, {});
    assert PathRefs(bundle, {}) == {};
    NothingIsClosed(bundle.components);
    assert PathsOf(bundle, {}) == map[];
    hide Collected, Reaches, Closed, PathRefs, PathsOf, Mentioned, IsBuilt, RefsIn;
    while left != {}
      invariant done !! left && done + left == paths && done <= bundle.paths.Keys
      invariant slicePaths == PathsOf(bundle, done)
      invariant Collected(bundle.components, PathRefs(bundle, done), {}, refs.elems)
      decreases left
    {
      HasElement(left);
      var pathKey :| pathKey in left;
      if pathKey !in bundle.paths {
        return Err(MissingPath(pathKey));
      }
      slicePaths := slicePaths[pathKey := bundle.paths[pathKey]];
      ghost var before := refs.elems;
      MorePathRefs(bundle, done, pathKey, paths);
      CollectRefs(bundle.paths[pathKey], bundle.components, refs, universe);
      CollectedThen(bundle.components, PathRefs(bundle, done), RefsIn(bundle.paths[pathKey]), {}, before, refs.elems);
      left, done := left - {pathKey}, done + {pathKey};
    }
    assert done == paths;
    CollectedIsReachable(bundle.components, PathRefs(bundle, paths), {}, refs.elems);
    assert forall ref :: ref in refs.elems <==> Reaches(bundle.components, PathRefs(bundle, paths), ref);
    r := FillComponents(bundle, paths, slicePaths, refs.elems);
  }

  lemma {:induction false} RefsParse(v: Json)
    ensures forall ref :: ref in RefsIn(v) ==> ParseRef(ref).Some?
    decreases v
  {
    match v
    case Arr(items) => forall item | item in items { RefsParse(item); }
    case Obj(fields) => forall key | key in fields { RefsParse(fields[key]); }
    case _ =>
  }

  lemma ReachedRefsParse(bundle: Document, paths: set<string>, ref: string)
    requires Reaches(bundle.components, PathRefs(bundle, paths), ref)
    ensures ParseRef(ref).Some?
  {
    var path :| Walk(bundle.components, PathRefs(bundle, paths), path) && path[|path| - 1] == ref;
    if |path| == 1 {
      forall p | p in paths && p in bundle.paths { RefsParse(bundle.paths[p]); }
    } else {
      var before := Lookup(bundle.components, path[|path| - 2]);
      assert path[|path| - 1] in RefsOf(bundle.components, path[|path| - 2]);
      RefsParse(before.value);
    }
  }

  type Entries = map<string, map<string, Option<Json>>>

  /** The references of a set, with what the bundle has for them. */
  ghost predicate Filled(bundle: Components, refs: set<string>, components: Entries) {
    forall group, name :: Entry(Slice(map[], components), group, name) ==
      if RefTo(group, name) in refs && ParseRef(RefTo(group, name)) == Some((group, name))
      then Some(Find(bundle, group, name)) else None
  }

  function Fill(bundle: Components, components: Entries, group: string, name: string): Entries {
    var entries := if group in components then components[group] else map[];
    components[group := entries[name := Find(bundle, group, name)]]
  }

  lemma FillOne(bundle: Components, refs: set<string>, components: Entries, ref: string, group: string, name: string)
    requires Filled(bundle, refs, components) && ParseRef(ref) == Some((group, name))
    ensures Filled(bundle, refs + {ref}, Fill(bundle, components, group, name))
  {
    hide ParseRef, RefTo;
    ParsedRefIsPrinted(ref);
    var after := Slice(map[], Fill(bundle, components, group, name));
    forall g, n
      ensures Entry(after, g, n) ==
              if RefTo(g, n) in refs + {ref} && ParseRef(RefTo(g, n)) == Some((g, n))
              then Some(Find(bundle, g, n)) else None
    {
      assert Entry(Slice(map[], components), g, n) ==
             if RefTo(g, n) in refs && ParseRef(RefTo(g, n)) == Some((g, n)) then Some(Find(bundle, g, n)) else None;
    }
  }

  lemma FilledIsBuilt(bundle: Document, paths: set<string>, slice: Slice, refs: set<string>)
    requires forall ref :: ref in refs <==> Reaches(bundle.components, PathRefs(bundle, paths), ref)
    requires paths <= bundle.paths.Keys && slice.paths == PathsOf(bundle, paths)
    requires Filled(bundle.components, refs, slice.components)
    ensures IsBuilt(bundle, paths, slice)
  {
    hide Reaches, ParseRef, RefTo;
    forall group, name
      ensures Entry(slice, group, name) ==
              if Needed(bundle, paths, group, name) then Some(Find(bundle.components, group, name)) else None
    {
      assert Entry(slice, group, name) == Entry(Slice(map[], slice.components), group, name);
    }
  }

  /** The second half of the construction: copy every referenced component. */
  method FillComponents(bundle: Document, ghost paths: set<string>, slicePaths: map<string, Json>, refs: set<string>)
    returns (r: Result<Slice, BuildError>)
    requires forall ref :: ref in refs <==> Reaches(bundle.components, PathRefs(bundle, paths), ref)
    requires paths <= bundle.paths.Keys && slicePaths == PathsOf(bundle, paths)
    ensures r.Ok? ==> IsBuilt(bundle, paths, r.value)
    ensures r.Err? ==> r.error.MissingGroup? && r.error.group !in bundle.components
                       && exists name :: Needed(bundle, paths, r.error.group, name)
  {
    hide Reaches, ParseRef, RefTo;
    var components: Entries := map[];
    var left := refs;
    ghost var done: set<string> := {};
    while left != {}
      invariant done !! left && done + left == refs
      invariant Filled(bundle.components, done, components)
      decreases left
    {
      HasElement(left);
      var ref :| ref in left;
      ReachedRefsParse(bundle, paths, ref);
      ParsedRefIsPrinted(ref);
      var (group, name) := ParseRef(ref).value;
      if group !in bundle.components {
        assert Needed(bundle, paths, group, name);
        return Err(MissingGroup(group));
      }
      FillOne(bundle.components, done, components, ref, group, name);
      components := Fill(bundle.components, components, group, name);
      left, done := left - {ref}, done + {ref};
    }
    assert done == refs;
    r := Ok(Slice(slicePaths, components));
    FilledIsBuilt(bundle, paths, r.value, refs);
  }

  // ------------------------------------------- properties of the frozen slice

  /** A value of the slice: the item of a chosen path, or a component in it. */
  ghost predicate InSlice(bundle: Document, paths: set<string>, slice: Slice, v: Json) {
    || (exists p :: p in paths && p in bundle.paths && bundle.paths[p] == v)
    || (exists group, name :: && group in slice.components && name in slice.components[group]
                              && slice.components[group][name] == Some(v))
  }

  /** Whatever a value of the slice mentions, the slice has, and exactly as the bundle has it. */
  lemma SliceHoldsWhatIsMentioned(bundle: Document, paths: set<string>, slice: Slice, v: Json, group: string,
      name: string)
    requires IsBuilt(bundle, paths, slice) && InSlice(bundle, paths, slice, v)
    requires Mentions(v, "#/components/" + group + "/" + name)
    requires '/' !in group && group != "" && name != ""
    requires '\n' !in name && '\r' !in name && '\U{2028}' !in name && '\U{2029}' !in name
    ensures group in slice.components && name in slice.components[group]
    ensures slice.components[group][name] ==
              if group in bundle.components && name in bundle.components[group]
              then Some(bundle.components[group][name]) else None
  {
    var ref := "#/components/" + group + "/" + name;
    WrittenRefIsRead(group, name);
    RefsAreTheMentioned(v, ref);
    ParsedRefIsPrinted(ref);
    hide Mentions, ParseRef, RefTo, RefsIn;
    if p :| p in paths && p in bundle.paths && bundle.paths[p] == v {
      assert ref in PathRefs(bundle, paths);
      StartIsReached(bundle.components, PathRefs(bundle, paths), ref);
    } else {
      var g, n :| g in slice.components && n in slice.components[g] && slice.components[g][n] == Some(v);
      assert Entry(slice, g, n) == Some(Some(v));
      assert Needed(bundle, paths, g, n) && Find(bundle.components, g, n) == Some(v);
      assert ref in RefsOf(bundle.components, RefTo(g, n));
      WalkOn(bundle.components, PathRefs(bundle, paths), RefTo(g, n), ref);
    }
    assert Needed(bundle, paths, group, name);
    assert Entry(slice, group, name) == Some(Find(bundle.components, group, name));
  }

  /** Every reference written in the slice that the bundle resolves is resolved by the slice, to the same value. */
  ghost predicate SelfContained(bundle: Components, slice: Document) {
    && (forall p, ref :: p in slice.paths && ref in RefsIn(slice.paths[p]) ==>
      Lookup(slice.components, ref) == Lookup(bundle, ref))
    && (forall ref, next :: next in RefsOf(slice.components, ref) ==>
      Lookup(slice.components, next) == Lookup(bundle, next))
  }

  lemma NeededByRef(bundle: Document, paths: set<string>, slice: Document, ref: string)
    requires IsContract(bundle, paths, slice)
    ensures Lookup(slice.components, ref) ==
              if Reaches(bundle.components, PathRefs(bundle, paths), ref) then Lookup(bundle.components, ref) else None
  {
    if ParseRef(ref).Some? {
      ParsedRefIsPrinted(ref);
      var (group, name) := ParseRef(ref).value;
      assert Find(slice.components, group, name) ==
        if Needed(bundle, paths, group, name) then Find(bundle.components, group, name) else None;
    }
  }

  lemma SliceIsSelfContained(bundle: Document, paths: set<string>, slice: Document)
    requires IsContract(bundle, paths, slice)
    ensures SelfContained(bundle.components, slice)
  {
    var from := PathRefs(bundle, paths);
    forall p, ref | p in slice.paths && ref in RefsIn(slice.paths[p])
      ensures Lookup(slice.components, ref) == Lookup(bundle.components, ref)
    {
      StartIsReached(bundle.components, from, ref);
      NeededByRef(bundle, paths, slice, ref);
    }
    forall ref, next | next in RefsOf(slice.components, ref)
      ensures Lookup(slice.components, next) == Lookup(bundle.components, next)
    {
      NeededByRef(bundle, paths, slice, ref);
      WalkOn(bundle.components, from, ref, next);
      NeededByRef(bundle, paths, slice, next);
    }
  }

  /** And it is the least such slice: any other with these paths holds every component of this one. */
  lemma SliceIsLeast(bundle: Document, paths: set<string>, slice: Document, other: Document)
    requires IsContract(bundle, paths, slice) && other.paths == slice.paths && SelfContained(bundle.components, other)
    ensures forall group, name :: Find(slice.components, group, name).Some? ==>
              Find(other.components, group, name) == Find(slice.components, group, name)
  {
    forall group, name | Find(slice.components, group, name).Some?
      ensures Find(other.components, group, name) == Find(slice.components, group, name)
    {
      var path :| Walk(bundle.components, PathRefs(bundle, paths), path) && path[|path| - 1] == RefTo(group, name);
      WalkResolves(bundle, paths, other, path);
    }
  }

  lemma {:induction false} WalkResolves(bundle: Document, paths: set<string>, other: Document, path: seq<string>)
    requires paths <= bundle.paths.Keys && other.paths == PathsOf(bundle, paths)
    requires SelfContained(bundle.components, other)
    requires Walk(bundle.components, PathRefs(bundle, paths), path)
    ensures Lookup(other.components, path[|path| - 1]) == Lookup(bundle.components, path[|path| - 1])
  {
    var n := |path| - 1;
    if n == 0 {
      var p :| p in paths && p in bundle.paths && path[0] in RefsIn(bundle.paths[p]);
      assert p in other.paths;
    } else {
      WalkResolves(bundle, paths, other, path[..n]);
      assert path[n] in RefsOf(bundle.components, path[n - 1]);
      assert path[n] in RefsOf(other.components, path[n - 1]);
    }
  }

  /** Slicing a slice changes nothing. */
  lemma SlicingTwiceChangesNothing(bundle: Document, paths: set<string>, slice: Document, again: Document)
    requires IsContract(bundle, paths, slice) && IsContract(slice, paths, again)
    ensures again.paths == slice.paths
    ensures forall group, name :: Find(again.components, group, name) == Find(slice.components, group, name)
  {
    forall group, name ensures Find(again.components, group, name) == Find(slice.components, group, name) {
      if Find(slice.components, group, name).Some? {
        var path :| Walk(bundle.components, PathRefs(bundle, paths), path) && path[|path| - 1] == RefTo(group, name);
        WalkInSlice(bundle, paths, slice, path);
        assert Needed(slice, paths, group, name);
      }
    }
  }

  lemma {:induction false} WalkInSlice(bundle: Document, paths: set<string>, slice: Document, path: seq<string>)
    requires IsContract(bundle, paths, slice) && Walk(bundle.components, PathRefs(bundle, paths), path)
    ensures Walk(slice.components, PathRefs(slice, paths), path)
  {
    assert forall p :: p in paths ==> p in slice.paths && p in bundle.paths && slice.paths[p] == bundle.paths[p];
    assert PathRefs(slice, paths) == PathRefs(bundle, paths);
    SliceIsSelfContained(bundle, paths, slice);
    forall i | 0 < i < |path| ensures path[i] in RefsOf(slice.components, path[i - 1]) {
      assert path[i] in RefsOf(bundle.components, path[i - 1]);
      WalkResolves(bundle, paths, slice, path[..i]);
    }
  }

  // ---------------------------------------------------- additive comparison

  /** `frozen` is fully contained in `current`; arrays compare as sets, and scalars by `===`. */
  predicate IsAdditiveSuperset(frozen: Json, current: Option<Json>) {
    match frozen
    case Arr(items) =>
      current.Some? && current.value.Arr? &&
      forall item | item in items :: exists candidate | candidate in current.value.items ::
        IsAdditiveSuperset(item, Some(candidate))
    case Obj(fields) =>
      current.Some? && current.value.Obj?
        && forall key | key in fields :: IsAdditiveSuperset(fields[key], Get(current, key))
    case NaN => false
    case _ => current == Some(frozen)
  }

  predicate HasNaN(v: Json) {
    match v
    case NaN => true
    case Arr(items) => exists item | item in items :: HasNaN(item)
    case Obj(fields) => exists key | key in fields :: HasNaN(fields[key])
    case _ => false
  }

  /** A value contains itself exactly when no `.nan` is in it. */
  lemma {:induction false} ContainsItself(v: Json)
    ensures !HasNaN(v) ==> IsAdditiveSuperset(v, Some(v))
    decreases v
  {
    match v
    case Arr(items) => forall item | item in items { ContainsItself(item); }
    case Obj(fields) => forall key | key in fields { ContainsItself(fields[key]); }
    case _ =>
  }

  /** Nothing contains a `.nan`. */
  lemma {:induction false} NaNIsNeverContained(v: Json, current: Option<Json>)
    requires HasNaN(v)
    ensures !IsAdditiveSuperset(v, current)
    decreases v
  {
    match v
    case Arr(items) =>
      var item :| item in items && HasNaN(item);
      forall candidate { NaNIsNeverContained(item, Some(candidate)); }
    case Obj(fields) =>
      var key :| key in fields && HasNaN(fields[key]);
      NaNIsNeverContained(fields[key], Get(current, key));
    case _ =>
  }

  lemma ContainmentIsReflexiveWithoutNaN(v: Json)
    ensures IsAdditiveSuperset(v, Some(v)) <==> !HasNaN(v)
  {
    if HasNaN(v) { NaNIsNeverContained(v, Some(v)); } else { ContainsItself(v); }
  }

  lemma {:induction false} ContainmentIsTransitive(a: Json, b: Json, c: Option<Json>)
    requires IsAdditiveSuperset(a, Some(b)) && IsAdditiveSuperset(b, c)
    ensures IsAdditiveSuperset(a, c)
    decreases a
  {
    match a
    case Arr(items) =>
      forall item | item in items
        ensures exists candidate | candidate in c.value.items :: IsAdditiveSuperset(item, Some(candidate))
      {
        var middle :| middle in b.items && IsAdditiveSuperset(item, Some(middle));
        var candidate :| candidate in c.value.items && IsAdditiveSuperset(middle, Some(candidate));
        ContainmentIsTransitive(item, middle, Some(candidate));
      }
    case Obj(fields) =>
      forall key | key in fields ensures IsAdditiveSuperset(fields[key], Get(c, key)) {
        PresentWhenContained(fields[key], Get(Some(b), key));
        ContainmentIsTransitive(fields[key], Get(Some(b), key).value, Get(c, key));
      }
    case _ =>
  }

  lemma PresentWhenContained(frozen: Json, current: Option<Json>)
    requires IsAdditiveSuperset(frozen, current)
    ensures current.Some?
  {}

  /** Containment keeps every reference where it was. */
  lemma {:induction false} ContainmentKeepsRefs(a: Json, b: Json)
    requires IsAdditiveSuperset(a, Some(b))
    ensures RefsIn(a) <= RefsIn(b)
    decreases a
  {
    match a
    case Arr(items) =>
      forall ref | ref in RefsIn(a) ensures ref in RefsIn(b) {
        var item :| item in items && ref in RefsIn(item);
        var candidate :| candidate in b.items && IsAdditiveSuperset(item, Some(candidate));
        ContainmentKeepsRefs(item, candidate);
      }
    case Obj(fields) =>
      forall ref | ref in RefsIn(a) ensures ref in RefsIn(b) {
        var key :| key in fields && ref in RefsAt(key, fields[key]);
        PresentWhenContained(fields[key], Get(Some(b), key));
        ContainmentKeepsRefs(fields[key], b.fields[key]);
        assert ref in RefsAt(key, b.fields[key]);
      }
    case _ =>
  }

  // -------------------------------------------- what containment lets one see

  /** What a reader can ask of a value. */
  datatype Probe =
    | Same(value: Json)
    | IsList
    | IsRecord
    | Field(key: string, probe: Probe)
    | Item(probe: Probe)
    | All(probes: set<Probe>)

  /** A null, boolean, number or string. */
  predicate Scalar(v: Json) {
    v.Null? || v.Bool? || v.Num? || v.Str?
  }

  ghost predicate Holds(p: Probe, v: Json)
    decreases p
  {
    match p
    case Same(value) => Scalar(value) && v == value
    case IsList => v.Arr?
    case IsRecord => v.Obj?
    case Field(key, probe) => v.Obj? && key in v.fields && Holds(probe, v.fields[key])
    case Item(probe) => v.Arr? && exists item :: item in v.items && Holds(probe, item)
    case All(probes) => forall probe :: probe in probes ==> Holds(probe, v)
  }

  lemma {:induction false} ContainmentKeepsProbes(frozen: Json, current: Json, p: Probe)
    requires IsAdditiveSuperset(frozen, Some(current)) && Holds(p, frozen)
    ensures Holds(p, current)
    decreases p
  {
    match p
    case Same(_) =>
    case IsList =>
    case IsRecord =>
    case Field(key, probe) =>
      PresentWhenContained(frozen.fields[key], Get(Some(current), key));
      ContainmentKeepsProbes(frozen.fields[key], current.fields[key], probe);
    case Item(probe) =>
      var item :| item in frozen.items && Holds(probe, item);
      var candidate :| candidate in current.items && IsAdditiveSuperset(item, Some(candidate));
      ContainmentKeepsProbes(item, candidate, probe);
    case All(probes) =>
      forall probe | probe in probes { ContainmentKeepsProbes(frozen, current, probe); }
  }

  /** The probe that asks for everything a value holds. */
  ghost function ProbeOf(v: Json): Probe {
    match v
    case Arr(items) => All({IsList} + set item | item in items :: Item(ProbeOf(item)))
    case Obj(fields) => All({IsRecord} + set key | key in fields :: Field(key, ProbeOf(fields[key])))
    case _ => Same(v)
  }

  lemma {:induction false} ProbeOfContains(frozen: Json, current: Json)
    requires Holds(ProbeOf(frozen), current)
    ensures IsAdditiveSuperset(frozen, Some(current))
    decreases frozen
  {
    match frozen
    case Arr(items) =>
      assert Holds(IsList, current);
      forall item | item in items
        ensures exists candidate | candidate in current.items :: IsAdditiveSuperset(item, Some(candidate))
      {
        assert Holds(Item(ProbeOf(item)), current);
        var candidate :| candidate in current.items && Holds(ProbeOf(item), candidate);
        ProbeOfContains(item, candidate);
      }
    case Obj(fields) =>
      assert Holds(IsRecord, current);
      forall key | key in fields ensures IsAdditiveSuperset(fields[key], Get(Some(current), key)) {
        assert Holds(Field(key, ProbeOf(fields[key])), current);
        ProbeOfContains(fields[key], current.fields[key]);
      }
    case _ =>
  }

  lemma {:induction false} ProbeOfHolds(v: Json)
    requires !HasNaN(v)
    ensures Holds(ProbeOf(v), v)
    decreases v
  {
    match v
    case Arr(items) =>
      assert Holds(IsList, v);
      forall item | item in items ensures Holds(Item(ProbeOf(item)), v) { ProbeOfHolds(item); }
    case Obj(fields) =>
      assert Holds(IsRecord, v);
      forall key | key in fields ensures Holds(Field(key, ProbeOf(fields[key])), v) { ProbeOfHolds(fields[key]); }
    case _ =>
  }

  /** Whatever can be asked of the one and is answered with yes is answered with yes by the other. */
  ghost predicate ShowsAll(frozen: Json, current: Json) {
    forall p :: Holds(p, frozen) ==> Holds(p, current)
  }

  /** Containment is what a reader cannot tell from nothing having been taken away. */
  lemma ContainmentIsWhatCanBeSeen(frozen: Json, current: Json)
    requires !HasNaN(frozen)
    ensures IsAdditiveSuperset(frozen, Some(current)) <==> ShowsAll(frozen, current)
  {
    if IsAdditiveSuperset(frozen, Some(current)) {
      forall p ensures Holds(p, frozen) ==> Holds(p, current) {
        if Holds(p, frozen) { ContainmentKeepsProbes(frozen, current, p); }
      }
      assert ShowsAll(frozen, current);
    }
    if ShowsAll(frozen, current) {
      ProbeOfHolds(frozen);
      ProbeOfContains(frozen, current);
    }
  }

  /** Where a chain of object keys leads. */
  function At(v: Json, path: seq<string>): Option<Json> {
    if path == [] then Some(v)
    else if v.Obj? && path[0] in v.fields then At(v.fields[path[0]], path[1..])
    else None
  }

  /** Every scalar stays where it is with its value, and arrays keep their items. */
  lemma {:induction false} ContainmentKeepsScalars(frozen: Json, current: Json, path: seq<string>)
    requires IsAdditiveSuperset(frozen, Some(current)) && At(frozen, path).Some?
    ensures At(current, path).Some?
    ensures var v, now := At(frozen, path).value, At(current, path).value;
            && (v.Null? || v.Bool? || v.Num? || v.Str? ==> now == v)
            && (v.Obj? ==> now.Obj?)
            && (v.Arr? ==>
                  && now.Arr?
                  && (forall item :: item in v.items && (item.Null? || item.Bool? || item.Num? || item.Str?) ==>
                    item in now.items)
                  && (forall item :: item in v.items ==>
                        exists candidate :: candidate in now.items && IsAdditiveSuperset(item, Some(candidate))))
    decreases |path|
  {
    if path != [] {
      PresentWhenContained(frozen.fields[path[0]], Get(Some(current), path[0]));
      ContainmentKeepsScalars(frozen.fields[path[0]], current.fields[path[0]], path[1..]);
    }
  }

  // --------------------------------------------------------- contract breaks

  datatype Break = PathGone(path: string) | PathChanged(path: string)
                 | ComponentGone(group: string, name: string) | ComponentChanged(group: string, name: string)

  /** What an entry reads as: undefined for a missing one as for an undefined one. */
  function Value(s: Slice, group: string, name: string): Option<Json> {
    if Entry(s, group, name).Some? then Entry(s, group, name).value else None
  }

  /** `isAdditiveSuperset` where the frozen side may be undefined: that is contained in nothing but itself. */
  predicate Contains(frozen: Option<Json>, current: Option<Json>) {
    if frozen.None? then current.None? else IsAdditiveSuperset(frozen.value, current)
  }

  /** What counts as a break of `frozen` by `current`. */
  ghost predicate IsBreak(frozen: Slice, current: Slice, b: Break) {
    match b
    case PathGone(p) => p in frozen.paths && p !in current.paths
    case PathChanged(p) =>
      p in frozen.paths && p in current.paths && !IsAdditiveSuperset(frozen.paths[p], Some(current.paths[p]))
    case ComponentGone(g, n) => Entry(frozen, g, n).Some? && Value(current, g, n).None?
    case ComponentChanged(g, n) =>
      Entry(frozen, g, n).Some? && Value(current, g, n).Some?
        && !Contains(Entry(frozen, g, n).value, Value(current, g, n))
  }

  method FindContractBreaks(frozen: Slice, current: Slice) returns (breaks: seq<Break>)
    ensures forall b :: b in breaks <==> IsBreak(frozen, current, b)
    ensures Distinct(breaks)
  {
    hide IsAdditiveSuperset;
    breaks := [];
    var paths := frozen.paths.Keys;
    while paths != {}
      invariant paths <= frozen.paths.Keys
      invariant forall b :: b in breaks <==>
          IsBreak(frozen, current, b) && (b.PathGone? || b.PathChanged?) && b.path !in paths
      invariant Distinct(breaks)
      decreases paths
    {
      HasElement(paths);
      var p :| p in paths;
      paths := paths - {p};
      if p !in current.paths {
        breaks := breaks + [PathGone(p)];
      } else if !IsAdditiveSuperset(frozen.paths[p], Some(current.paths[p])) {
        breaks := breaks + [PathChanged(p)];
      }
    }
    var groups := frozen.components.Keys;
    while groups != {}
      invariant groups <= frozen.components.Keys
      invariant forall b :: b in breaks <==>
          IsBreak(frozen, current, b) && (b.PathGone? || b.PathChanged? || b.group !in groups)
      invariant Distinct(breaks)
      decreases groups
    {
      HasElement(groups);
      var group :| group in groups;
      groups := groups - {group};
      var names := frozen.components[group].Keys;
      while names != {}
        invariant names <= frozen.components[group].Keys
        invariant forall b :: b in breaks <==>
                    (IsBreak(frozen, current, b) &&
                     (b.PathGone? || b.PathChanged? || (b.group !in groups && (b.group == group ==> b.name !in names))))
        invariant Distinct(breaks)
        decreases names
      {
        HasElement(names);
        var name :| name in names;
        names := names - {name};
        var now := Value(current, group, name);
        if now.None? {
          breaks := breaks + [ComponentGone(group, name)];
        } else if !Contains(frozen.components[group][name], now) {
          breaks := breaks + [ComponentChanged(group, name)];
        }
      }
    }
  }

  /** One scalar that has another value, or none, at its place is a break of its path ... */
  lemma ChangedScalarBreaksPath(frozen: Slice, current: Slice, p: string, path: seq<string>)
    requires p in frozen.paths && p in current.paths && At(frozen.paths[p], path).Some?
    requires Scalar(At(frozen.paths[p], path).value) && At(current.paths[p], path) != At(frozen.paths[p], path)
    ensures IsBreak(frozen, current, PathChanged(p))
  {
    if IsAdditiveSuperset(frozen.paths[p], Some(current.paths[p])) {
      ContainmentKeepsScalars(frozen.paths[p], current.paths[p], path);
    }
  }

  /** ... or of its component. */
  lemma ChangedScalarBreaksComponent(frozen: Slice, current: Slice, group: string, name: string, path: seq<string>)
    requires group in frozen.components && name in frozen.components[group] && frozen.components[group][name].Some?
    requires group in current.components && name in current.components[group] && current.components[group][name].Some?
    requires var v, now := frozen.components[group][name].value, current.components[group][name].value;
             At(v, path).Some? && Scalar(At(v, path).value) && At(now, path) != At(v, path)
    ensures IsBreak(frozen, current, ComponentChanged(group, name))
  {
    var v, now := frozen.components[group][name].value, current.components[group][name].value;
    if IsAdditiveSuperset(v, Some(now)) {
      ContainmentKeepsScalars(v, now, path);
    }
  }

  /** Everything the consumer reaches in `old` is contained in what `newer` has under the same name. */
  ghost predicate GrewAdditively(older: Document, newer: Document, paths: set<string>) {
    && (forall p :: p in paths ==>
      p in older.paths && p in newer.paths && IsAdditiveSuperset(older.paths[p], Some(newer.paths[p])))
    && (forall group, name :: Needed(older, paths, group, name) && Find(older.components, group, name).Some? ==>
          IsAdditiveSuperset(Find(older.components, group, name).value, Find(newer.components, group, name)))
  }

  /** Growth keeps every walk the consumer can take through the old bundle. */
  lemma {:induction false} GrowthKeepsWalks(older: Document, newer: Document, paths: set<string>, path: seq<string>)
    requires GrewAdditively(older, newer, paths) && Walk(older.components, PathRefs(older, paths), path)
    ensures Walk(newer.components, PathRefs(newer, paths), path)
  {
    hide IsAdditiveSuperset, RefsOf, ParseRef;
    if |path| == 1 {
      var p :| p in paths && p in older.paths && path[0] in RefsIn(older.paths[p]);
      ContainmentKeepsRefs(older.paths[p], newer.paths[p]);
    } else {
      var n := |path| - 1;
      var before := path[..n];
      GrowthKeepsWalks(older, newer, paths, before);
      assert before[|before| - 1] == path[n - 1] && path[n] in RefsOf(older.components, path[n - 1]);
      GrowthKeepsStep(older, newer, paths, path[n - 1], path[n]);
    }
  }

  lemma GrowthKeepsStep(older: Document, newer: Document, paths: set<string>, ref: string, next: string)
    requires GrewAdditively(older, newer, paths) && Reaches(older.components, PathRefs(older, paths), ref)
    requires next in RefsOf(older.components, ref)
    ensures next in RefsOf(newer.components, ref)
  {
    hide IsAdditiveSuperset, Reaches;
    ParsedRefIsPrinted(ref);
    var (group, name) := ParseRef(ref).value;
    assert Needed(older, paths, group, name);
    PresentWhenContained(Find(older.components, group, name).value, Find(newer.components, group, name));
    ContainmentKeepsRefs(Find(older.components, group, name).value, Find(newer.components, group, name).value);
  }

  /** Every reference the consumer reaches resolves. */
  ghost predicate NothingDangles(bundle: Document, paths: set<string>) {
    forall group, name :: Needed(bundle, paths, group, name) ==> Find(bundle.components, group, name).Some?
  }

  /**
   * The check is exact: comparing the file of an old slice with a new slice finds no break
   * exactly when everything the consumer reaches in the old bundle grew additively, whatever
   * else the new bundle adds.  Without the file in between, a dangling reference of the old
   * bundle is a break of its own.
   */
  lemma NoBreaksExactlyWhenGrown(older: Document, newer: Document, paths: set<string>, frozen: Slice, current: Slice)
    requires IsBuilt(older, paths, frozen) && IsBuilt(newer, paths, current)
    ensures (forall b :: !IsBreak(Read(Written(frozen)), current, b)) <==> GrewAdditively(older, newer, paths)
    ensures (forall b :: !IsBreak(frozen, current, b)) <==>
        GrewAdditively(older, newer, paths) && NothingDangles(older, paths)
  {
    var file := Read(Written(frozen));
    FileIsAlike(frozen);
    NothingDanglesExactly(older, paths, frozen);
    hide GrewAdditively, IsBuilt, NothingDangles, Alike, AllDefined, Read, Written, IsBreak;
    if GrewAdditively(older, newer, paths) {
      NoBreakWhenGrown(older, newer, paths, frozen, current, file);
      if NothingDangles(older, paths) { NoBreakWhenGrown(older, newer, paths, frozen, current, frozen); }
    }
    if forall b :: !IsBreak(file, current, b) { GrownWhenNoBreak(older, newer, paths, frozen, current, file); }
    if forall b :: !IsBreak(frozen, current, b) {
      GrownWhenNoBreak(older, newer, paths, frozen, current, frozen);
      UndefinedBreaks(frozen, current);
    }
  }

  ghost predicate AllDefined(s: Slice) {
    forall g, n :: Entry(s, g, n).Some? ==> Value(s, g, n).Some?
  }

  lemma FileIsAlike(frozen: Slice)
    ensures Alike(frozen, frozen) && Alike(frozen, Read(Written(frozen))) && AllDefined(Read(Written(frozen)))
  {
    var file := Read(Written(frozen));
    assert forall g, n :: Entry(file, g, n) == if Value(frozen, g, n).Some? then Some(Value(frozen, g, n)) else None;
  }

  lemma NothingDanglesExactly(bundle: Document, paths: set<string>, slice: Slice)
    requires IsBuilt(bundle, paths, slice)
    ensures NothingDangles(bundle, paths) <==> AllDefined(slice)
  {
    hide Needed;
    forall g, n
      ensures Needed(bundle, paths, g, n) ==> Entry(slice, g, n) == Some(Find(bundle.components, g, n))
      ensures Entry(slice, g, n).Some? ==> Needed(bundle, paths, g, n)
    {
      assert Entry(slice, g, n) == if Needed(bundle, paths, g, n) then Some(Find(bundle.components, g, n)) else None;
    }
  }

  lemma UndefinedBreaks(frozen: Slice, current: Slice)
    requires forall b :: !IsBreak(frozen, current, b)
    ensures AllDefined(frozen)
  {
    forall g, n | Entry(frozen, g, n).Some? ensures Value(frozen, g, n).Some? {
      assert !IsBreak(frozen, current, ComponentGone(g, n)) && !IsBreak(frozen, current, ComponentChanged(g, n));
    }
  }

  /** What is compared: the slice or its file, which differ in undefined entries only. */
  ghost predicate Alike(frozen: Slice, compared: Slice) {
    && compared.paths == frozen.paths
    && forall g, n :: Value(compared, g, n) == Value(frozen, g, n)
  }

  lemma NoBreakWhenGrown(older: Document, newer: Document, paths: set<string>, frozen: Slice, current: Slice,
      compared: Slice)
    requires IsBuilt(older, paths, frozen) && IsBuilt(newer, paths, current) && GrewAdditively(older, newer, paths)
    requires Alike(frozen, compared) && AllDefined(compared)
    ensures forall b :: !IsBreak(compared, current, b)
  {
    hide IsAdditiveSuperset, Needed;
    forall b ensures !IsBreak(compared, current, b) {
      if (b.ComponentGone? || b.ComponentChanged?) && Entry(compared, b.group, b.name).Some? {
        assert Value(frozen, b.group, b.name).Some?;
        assert Needed(older, paths, b.group, b.name)
          && Find(older.components, b.group, b.name) == Value(frozen, b.group, b.name);
        NeededGrew(older, newer, paths, b.group, b.name);
        assert Entry(current, b.group, b.name) == Some(Find(newer.components, b.group, b.name));
      }
    }
  }

  lemma GrownWhenNoBreak(older: Document, newer: Document, paths: set<string>, frozen: Slice, current: Slice,
      compared: Slice)
    requires IsBuilt(older, paths, frozen) && IsBuilt(newer, paths, current) && Alike(frozen, compared)
    requires forall b :: !IsBreak(compared, current, b)
    ensures GrewAdditively(older, newer, paths)
  {
    hide IsAdditiveSuperset, Needed;
    forall p | p in paths ensures IsAdditiveSuperset(older.paths[p], Some(newer.paths[p])) {
      assert !IsBreak(compared, current, PathChanged(p));
    }
    forall group, name | Needed(older, paths, group, name) && Find(older.components, group, name).Some?
      ensures IsAdditiveSuperset(Find(older.components, group, name).value, Find(newer.components, group, name))
    {
      assert Entry(frozen, group, name) == Some(Find(older.components, group, name))
        && Value(compared, group, name).Some?;
      assert !IsBreak(compared, current, ComponentGone(group, name))
        && !IsBreak(compared, current, ComponentChanged(group, name));
      assert Entry(current, group, name) ==
             if Needed(newer, paths, group, name) then Some(Find(newer.components, group, name)) else None;
    }
  }

  lemma NeededGrew(older: Document, newer: Document, paths: set<string>, group: string, name: string)
    requires GrewAdditively(older, newer, paths)
    requires Needed(older, paths, group, name) && Find(older.components, group, name).Some?
    ensures Needed(newer, paths, group, name) && Find(newer.components, group, name).Some?
    ensures IsAdditiveSuperset(Find(older.components, group, name).value, Find(newer.components, group, name))
  {
    hide IsAdditiveSuperset;
    var path :| Walk(older.components, PathRefs(older, paths), path) && path[|path| - 1] == RefTo(group, name);
    GrowthKeepsWalks(older, newer, paths, path);
    PresentWhenContained(Find(older.components, group, name).value, Find(newer.components, group, name));
  }
}
