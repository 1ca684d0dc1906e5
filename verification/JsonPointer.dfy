/**
 * Resolving `#/...` references (scripts/asyncapi-provisional-check.ts, resolvePointer) against
 * the encoding of RFC 6901, section 4.
 */
module JsonPointer {
  import opened Common
  import opened Json

  /** `text.replace(/~d/g, by)`: left to right, matches never overlap. */
  function ReplaceEscape(s: string, digit: char, to: char): string {
    if |s| >= 2 && s[0] == '~' && s[1] == digit then [to] + ReplaceEscape(s[2..], digit, to)
    else if s == [] then []
    else [s[0]] + ReplaceEscape(s[1..], digit, to)
  }

  /** The code's decoding: every `~1` first, every `~0` after. */
  function Decode(part: string): string {
    ReplaceEscape(ReplaceEscape(part, '1', '/'), '0', '~')
  }

  /** RFC 6901, section 4: `~` is written `~0` and `/` is written `~1`. */
  function Encode(key: string): string {
    if key == [] then [] else
      (if key[0] == '~' then "~0" else if key[0] == '/' then "~1" else [key[0]]) + Encode(key[1..])
  }

  /** `text.split("/")`: one part more than there are slashes. */
  function Split(s: string): seq<string>
    ensures |Split(s)| > 0
  {
    if s == [] then [""]
    else if s[0] == '/' then [""] + Split(s[1..])
    else var rest := Split(s[1..]); [[s[0]] + rest[0]] + rest[1..]
  }

  function Join(parts: seq<string>): string
    requires parts != []
  {
    if |parts| == 1 then parts[0] else parts[0] + "/" + Join(parts[1..])
  }

  function Encoded(keys: seq<string>): seq<string> {
    if keys == [] then [] else [Encode(keys[0])] + Encoded(keys[1..])
  }

  /** The pointer that names the value under these keys. */
  function Pointer(keys: seq<string>): string
    requires keys != []
  {
    "#/" + Join(Encoded(keys))
  }

  /** One key after the other through nested objects; None as soon as a key is missing. */
  function Follow(doc: Json, keys: seq<string>): Option<Json> {
    if keys == [] then Some(doc)
    else match Get(Some(doc), keys[0])
         case None => None
         case Some(child) => Follow(child, keys[1..])
  }

  function Decoded(parts: seq<string>): seq<string> {
    if parts == [] then [] else [Decode(parts[0])] + Decoded(parts[1..])
  }

  method ResolvePointer(doc: Json, ref: string) returns (r: Option<Json>)
    ensures r == if "#/" <= ref then Follow(doc, Decoded(Split(ref[2..]))) else None
  {
    if !("#/" <= ref) {
      return None;
    }
    var node := doc;
    var parts := Split(ref[2..]);
    for i := 0 to |parts|
      invariant Follow(doc, Decoded(parts)) == Follow(node, Decoded(parts[i..]))
    {
      var next := Get(Some(node), Decode(parts[i]));
      assert parts[i..][1..] == parts[i + 1..];
      if next.None? {
        return None;
      }
      node := next.value;
    }
    return Some(node);
  }

  // ------------------------------------------------------------- round trip

  /** After the first pass only the tildes are still escaped. */
  function TildesEscaped(key: string): string {
    if key == [] then [] else (if key[0] == '~' then "~0" else [key[0]]) + TildesEscaped(key[1..])
  }

  lemma {:induction false} FirstPass(key: string)
    ensures ReplaceEscape(Encode(key), '1', '/') == TildesEscaped(key)
  {
    if key != [] {
      FirstPass(key[1..]);
      var rest := Encode(key[1..]);
      if key[0] == '~' {
        assert Encode(key)[1..] == ['0'] + rest && (['0'] + rest)[1..] == rest;
      } else if key[0] == '/' {
        assert Encode(key)[2..] == rest;
      } else {
        assert Encode(key)[1..] == rest;
      }
    }
  }

  lemma {:induction false} SecondPass(key: string)
    ensures ReplaceEscape(TildesEscaped(key), '0', '~') == key
  {
    if key != [] {
      SecondPass(key[1..]);
      var rest := TildesEscaped(key[1..]);
      if key[0] == '~' {
        assert TildesEscaped(key)[2..] == rest;
      } else {
        assert TildesEscaped(key)[1..] == rest;
      }
    }
  }

  lemma DecodeUndoesEncode(key: string)
    ensures Decode(Encode(key)) == key
  {
    FirstPass(key);
    SecondPass(key);
  }

  /** The other order does not: the key `~1` would be read as a slash. */
  lemma OrderOfPassesMatters()
    ensures ReplaceEscape(ReplaceEscape(Encode("~1"), '0', '~'), '1', '/') == "/"
  {
    assert "~1"[1..] == "1" && "1"[1..] == "";
    assert Encode("~1") == "~01";
    assert "~01"[2..] == "1";
    assert ReplaceEscape("~01", '0', '~') == "~1";
    assert "~1"[2..] == "";
  }

  lemma {:induction false} EncodeHasNoSlash(key: string)
    ensures '/' !in Encode(key)
  {
    if key != [] {
      EncodeHasNoSlash(key[1..]);
    }
  }

  lemma {:induction false} SplitPart(part: string, rest: string)
    requires '/' !in part
    ensures Split(part) == [part]
    ensures Split(part + "/" + rest) == [part] + Split(rest)
  {
    if part == [] {
      assert (part + "/" + rest)[1..] == rest;
    } else {
      SplitPart(part[1..], rest);
      assert (part + "/" + rest)[1..] == part[1..] + "/" + rest;
      assert part == [part[0]] + part[1..];
    }
  }

  lemma {:induction false} SplitUndoesJoin(keys: seq<string>)
    requires keys != []
    ensures Encoded(keys) != [] && Split(Join(Encoded(keys))) == Encoded(keys)
  {
    EncodeHasNoSlash(keys[0]);
    if |keys| == 1 {
      SplitPart(Encode(keys[0]), "");
    } else {
      SplitUndoesJoin(keys[1..]);
      SplitPart(Encode(keys[0]), Join(Encoded(keys[1..])));
      assert Encoded(keys)[1..] == Encoded(keys[1..]);
    }
  }

  lemma {:induction false} DecodedUndoesEncoded(keys: seq<string>)
    ensures Decoded(Encoded(keys)) == keys
  {
    if keys != [] {
      DecodeUndoesEncode(keys[0]);
      DecodedUndoesEncoded(keys[1..]);
      assert Encoded(keys)[1..] == Encoded(keys[1..]);
    }
  }

  /** The pointer printed for any keys, slashes and tildes included, is followed key by key. */
  lemma PointerFollowsItsKeys(doc: Json, keys: seq<string>)
    requires keys != []
    ensures "#/" <= Pointer(keys)
    ensures Follow(doc, Decoded(Split(Pointer(keys)[2..]))) == Follow(doc, keys)
  {
    SplitUndoesJoin(keys);
    DecodedUndoesEncoded(keys);
    assert Pointer(keys)[2..] == Join(Encoded(keys));
  }

  /** It resolves to nothing exactly when one of the keys is missing where the ones before it lead. */
  lemma {:induction false} UndefinedExactlyWhenMissing(doc: Json, keys: seq<string>)
    ensures Follow(doc, keys).None? <==>
              exists n :: 0 <= n < |keys| && Follow(doc, keys[..n]).Some? && Get(Follow(doc, keys[..n]), keys[n]).None?
  {
    if keys != [] {
      var child := Get(Some(doc), keys[0]);
      assert Follow(doc, keys[..0]) == Some(doc);
      if child.Some? {
        UndefinedExactlyWhenMissing(child.value, keys[1..]);
        forall n | 0 <= n < |keys| - 1
          ensures Follow(doc, keys[..n + 1]) == Follow(child.value, keys[1..][..n]) && keys[n + 1] == keys[1..][n]
        {
          assert keys[..n + 1][1..] == keys[1..][..n];
        }
        if n :| 0 <= n < |keys| && Follow(doc, keys[..n]).Some? && Get(Follow(doc, keys[..n]), keys[n]).None? {
          assert n > 0 && Follow(doc, keys[..n]) == Follow(child.value, keys[1..][..n - 1]);
        }
        var rest := keys[1..];
        if n :| 0 <= n < |rest| && Follow(child.value, rest[..n]).Some?
                && Get(Follow(child.value, rest[..n]), rest[n]).None? {
          assert Get(Follow(doc, keys[..n + 1]), keys[n + 1]).None?;
        }
      }
    }
  }

  /** The nodes on the way: each is an object that has the next key, and the next node is what stands under it. */
  ghost predicate IsWay(doc: Json, keys: seq<string>, nodes: seq<Json>) {
    && |nodes| == |keys| + 1 && nodes[0] == doc
    && forall i :: 0 <= i < |keys| ==>
      nodes[i].Obj? && keys[i] in nodes[i].fields && nodes[i + 1] == nodes[i].fields[keys[i]]
  }

  ghost predicate LeadsTo(doc: Json, keys: seq<string>, v: Json) {
    exists nodes :: IsWay(doc, keys, nodes) && nodes[|keys|] == v
  }

  lemma WayOn(doc: Json, keys: seq<string>, nodes: seq<Json>)
    requires keys != [] && IsWay(doc, keys, nodes)
    ensures doc.Obj? && keys[0] in doc.fields && IsWay(doc.fields[keys[0]], keys[1..], nodes[1..])
  {
    var rest, after := keys[1..], nodes[1..];
    forall i | 0 <= i < |rest|
      ensures after[i].Obj? && rest[i] in after[i].fields && after[i + 1] == after[i].fields[rest[i]]
    {
      assert nodes[i + 1].Obj? && keys[i + 1] in nodes[i + 1].fields;
    }
  }

  lemma WayBack(doc: Json, keys: seq<string>, nodes: seq<Json>)
    requires keys != [] && doc.Obj? && keys[0] in doc.fields && IsWay(doc.fields[keys[0]], keys[1..], nodes)
    ensures IsWay(doc, keys, [doc] + nodes)
  {
    var rest, all := keys[1..], [doc] + nodes;
    forall i | 0 <= i < |keys|
      ensures all[i].Obj? && keys[i] in all[i].fields && all[i + 1] == all[i].fields[keys[i]]
    {
      if i > 0 { assert all[i] == nodes[i - 1] && keys[i] == rest[i - 1]; }
    }
  }

  lemma LeadsOn(doc: Json, keys: seq<string>, v: Json)
    requires keys != []
    ensures LeadsTo(doc, keys, v) <==> doc.Obj? && keys[0] in doc.fields && LeadsTo(doc.fields[keys[0]], keys[1..], v)
  {
    var rest := keys[1..];
    assert forall nodes: seq<Json> :: IsWay(doc, keys, nodes) ==> |nodes| == |keys| + 1;
    if doc.Obj? && keys[0] in doc.fields {
      assert forall nodes: seq<Json> :: IsWay(doc.fields[keys[0]], rest, nodes) ==> |nodes| == |rest| + 1;
    }
    hide IsWay;
    if LeadsTo(doc, keys, v) {
      var nodes: seq<Json> :| IsWay(doc, keys, nodes) && nodes[|keys|] == v;
      WayOn(doc, keys, nodes);
      assert nodes[1..][|rest|] == v;
    }
    if doc.Obj? && keys[0] in doc.fields && LeadsTo(doc.fields[keys[0]], rest, v) {
      var nodes: seq<Json> :| IsWay(doc.fields[keys[0]], rest, nodes) && nodes[|rest|] == v;
      WayBack(doc, keys, nodes);
      assert ([doc] + nodes)[|keys|] == v;
    }
  }

  /** Following keys leads to where the way through the objects leads. */
  lemma {:induction false} FollowIsTheWay(doc: Json, keys: seq<string>, v: Json)
    ensures Follow(doc, keys) == Some(v) <==> LeadsTo(doc, keys, v)
    decreases |keys|
  {
    if keys == [] {
      assert doc == v ==> IsWay(doc, keys, [doc]);
    } else {
      LeadsOn(doc, keys, v);
      if doc.Obj? && keys[0] in doc.fields { FollowIsTheWay(doc.fields[keys[0]], keys[1..], v); }
      hide LeadsTo;
    }
  }

  /** As the RFC writes keys. */
  lemma EncodedAsWritten()
    ensures Encode("a/b") == "a~1b" && Encode("m~n") == "m~0n" && Decode("~01") == "~1"
  {
    assert "a/b"[1..] == "/b" && "/b"[1..] == "b" && "b"[1..] == "";
    assert Encode("b") == "b" && Encode("/b") == "~1b";
    assert "m~n"[1..] == "~n" && "~n"[1..] == "n" && "n"[1..] == "";
    assert Encode("n") == "n" && Encode("~n") == "~0n";
    DecodeUndoesEncode("~1");
    assert "~1"[1..] == "1" && "1"[1..] == "" && Encode("1") == "1" && Encode("~1") == "~01";
  }
}
