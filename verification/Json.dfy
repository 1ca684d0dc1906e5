/**
 * The values a parsed YAML or JSON document is made of, with the record and `$ref` helpers
 * that several scripts repeat.  `NaN` is YAML's `.nan`, the one value not equal to itself.
 * Object key order never matters to the modelled code, so an object is a map.
 */
module Json {
  import opened Common

  datatype Json =
    | Null
    | Bool(flag: bool)
    | Num(number: real)
    | NaN
    | Str(text: string)
    | Arr(items: seq<Json>)
    | Obj(fields: map<string, Json>)

  /** `record[key]` after `asRecord`: None stands for undefined. */
  function Get(j: Option<Json>, key: string): Option<Json> {
    if j.Some? && j.value.Obj? && key in j.value.fields then Some(j.value.fields[key]) else None
  }

  /** The elements of an array-valued field; anything but an array counts as empty. */
  function Elements(j: Json, key: string): (items: seq<Json>)
    ensures forall item :: item in items ==> item < j
  {
    if j.Obj? && key in j.fields && j.fields[key].Arr? then j.fields[key].items else []
  }

  /** The entries of an object-valued field; anything but an object counts as empty. */
  function Entries(j: Json, key: string): (entries: map<string, Json>)
    ensures forall k :: k in entries ==> entries[k] < j
  {
    if j.Obj? && key in j.fields && j.fields[key].Obj? then j.fields[key].fields else map[]
  }

  /** The text after the last slash: `ref.split("/").pop()`. */
  function LastSegment(s: string): string {
    if s == [] || s[|s| - 1] == '/' then "" else LastSegment(s[..|s| - 1]) + [s[|s| - 1]]
  }

  /** The schema name a node refers to; the code treats an empty name like no name. */
  function RefName(node: Json): Option<string> {
    match Get(Some(node), "$ref")
    case Some(Str(ref)) => if LastSegment(ref) == "" then None else Some(LastSegment(ref))
    case _ => None
  }

  lemma {:induction false} LastSegmentOfFront(front: string, name: string)
    requires '/' !in name
    ensures LastSegment(name) == name && LastSegment(front + "/" + name) == name
    decreases |name|
  {
    var s := front + "/" + name;
    if name != "" {
      var short := name[..|name| - 1];
      assert s[..|s| - 1] == front + "/" + short && name == short + [name[|name| - 1]];
      LastSegmentOfFront(front, short);
    }
  }

  lemma {:induction false} LastSegmentEnds(s: string)
    ensures '/' !in LastSegment(s)
    ensures s == LastSegment(s) || exists front :: s == front + "/" + LastSegment(s)
    decreases |s|
  {
    var n := |s| - 1;
    if s != "" && s[n] == '/' {
      assert s == s[..n] + "/" + "";
    } else if s != "" {
      LastSegmentEnds(s[..n]);
      assert s == s[..n] + [s[n]];
      if front :| s[..n] == front + "/" + LastSegment(s[..n]) {
        assert s == front + "/" + LastSegment(s);
      }
    }
  }

  /** The text after the last slash, or all of a text without one. */
  lemma LastSegmentExactly(s: string, name: string)
    ensures LastSegment(s) == name <==> '/' !in name && (s == name || exists front :: s == front + "/" + name)
  {
    LastSegmentEnds(s);
    if '/' !in name {
      LastSegmentOfFront("", name);
      if front :| s == front + "/" + name { LastSegmentOfFront(front, name); }
    }
  }

  /** A node has a name exactly when its `$ref` is a text that ends in it, behind a slash or as a whole. */
  lemma RefNameExactly(node: Json, name: string)
    ensures RefName(node) == Some(name) <==>
              && node.Obj? && "$ref" in node.fields && node.fields["$ref"].Str?
              && name != "" && '/' !in name
              && var ref := node.fields["$ref"].text;
                 (ref == name || exists front :: ref == front + "/" + name)
  {
    if node.Obj? && "$ref" in node.fields && node.fields["$ref"].Str? {
      LastSegmentExactly(node.fields["$ref"].text, name);
    }
  }

  /** The items of the array that stands under the key. */
  lemma ElementsExactly(j: Json, key: string, item: Json)
    ensures item in Elements(j, key) <==>
              j.Obj? && key in j.fields && j.fields[key].Arr? && item in j.fields[key].items
  {}

  lemma HasElement<T>(s: set<T>)
    requires s != {}
    ensures exists x :: x in s
  {}
}
