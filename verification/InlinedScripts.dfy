/**
 * Reading the inlined scripts out of a built manifest (scripts/build-inline-script-check.ts,
 * extractInlinedScripts): one character loop over text in which script bodies may hold any
 * brackets, quotes and backslashes, against the JSON printing of RFC 8259.
 */
module InlinedScripts {
  import opened Common

  const KEY := "\"inlinedScripts\":"

  datatype Script = Script(id: string, bytes: nat)

  /** The variables of the loop; `done` is its break. */
  datatype Scan = Scan(depth: int, inString: bool, escaped: bool, pair: seq<string>, current: string,
      scripts: seq<Script>, done: bool)

  const Initial := Scan(0, false, false, [], "", [], false)

  /** The length of a string in UTF-16 units, as the language counts it. */
  function Units(s: string): (n: nat)
    ensures n >= |s|
  {
    if s == "" then 0 else Units(s[..|s| - 1]) + if s[|s| - 1] > '\U{FFFF}' then 2 else 1
  }

  /** The length, and one more for every character beyond U+FFFF. */
  lemma {:induction false} UnitsExactly(s: string)
    ensures Units(s) == |s| + |set i | 0 <= i < |s| && s[i] > '\U{FFFF}'|
    decreases |s|
  {
    var wide := set i | 0 <= i < |s| && s[i] > '\U{FFFF}';
    if s == "" {
      assert wide == {};
    } else {
      var n := |s| - 1;
      var before := set i | 0 <= i < n && s[..n][i] > '\U{FFFF}';
      UnitsExactly(s[..n]);
      assert wide == before + if s[n] > '\U{FFFF}' then {n} else {};
    }
  }

  /** A pair becomes a script when it has an id and a body that is not empty. */
  function ScriptOf(pair: seq<string>): seq<Script> {
    if |pair| >= 2 && |pair[1]| > 0 then [Script(pair[0], Units(pair[1]))] else []
  }

  function Step(s: Scan, ch: char): Scan {
    if s.done then s
    else if s.inString then
      if s.escaped then s.(current := s.current + [ch], escaped := false)
      else if ch == '\\' then s.(current := s.current + [ch], escaped := true)
      else if ch == '"' then s.(inString := false, pair := s.pair + [s.current], current := "")
      else s.(current := s.current + [ch])
    else if ch == '"' then s.(inString := true, current := "")
    else if ch == '[' then s.(depth := s.depth + 1, pair := if s.depth + 1 == 2 then [] else s.pair)
    else if ch == ']' then
      s.(depth := s.depth - 1,
         scripts := s.scripts + if s.depth - 1 == 1 then ScriptOf(s.pair) else [],
         done := s.depth - 1 == 0)
    else s
  }

  function Run(s: Scan, text: string): Scan {
    if text == [] then s else Step(Run(s, text[..|text| - 1]), text[|text| - 1])
  }

  predicate OccursAt(source: string, needle: string, at: nat) {
    at + |needle| <= |source| && source[at..at + |needle|] == needle
  }

  /** `source.indexOf(needle, from)`. */
  method IndexOf(source: string, needle: string, from: nat) returns (at: Option<nat>)
    requires needle != []
    ensures at.Some? ==>
              && from <= at.value && OccursAt(source, needle, at.value)
              && forall p: nat :: from <= p < at.value ==> !OccursAt(source, needle, p)
    ensures at.None? ==> forall p: nat :: from <= p ==> !OccursAt(source, needle, p)
  {
    var i := from;
    while i + |needle| <= |source|
      invariant from <= i && forall p: nat :: from <= p < i ==> !OccursAt(source, needle, p)
    {
      if source[i..i + |needle|] == needle {
        return Some(i);
      }
      i := i + 1;
    }
    return None;
  }

  /** What the scan finds when it starts at the first bracket after the first key. */
  ghost predicate ScansFrom(source: string, start: Option<nat>) {
    match start
    case Some(i) =>
      exists k: nat :: && k <= i < |source| && source[i] == '['
                       && OccursAt(source, KEY, k) && (forall p: nat :: p < k ==> !OccursAt(source, KEY, p))
                       && (forall p :: k <= p < i ==> source[p] != '[')
    case None =>
      forall k: nat :: OccursAt(source, KEY, k) && (forall p: nat :: p < k ==> !OccursAt(source, KEY, p)) ==>
        forall p :: k <= p < |source| ==> source[p] != '['
  }

  method FindStart(source: string) returns (start: Option<nat>)
    ensures ScansFrom(source, start) && (start.Some? ==> start.value < |source|)
  {
    var keyAt := IndexOf(source, KEY, 0);
    if keyAt.None? {
      return None;
    }
    start := IndexOf(source, "[", keyAt.value);
    forall p: nat | p < |source| ensures OccursAt(source, "[", p) <==> source[p] == '[' {}
  }

  lemma RunNothing(s: Scan)
    ensures Run(s, "") == s
  {}

  lemma RunStep(s: Scan, text: string, n: nat)
    requires n < |text|
    ensures Run(s, text[..n + 1]) == Step(Run(s, text[..n]), text[n])
  {
    assert text[..n + 1][..n] == text[..n];
  }

  /** Once the array has closed, the rest of the text changes nothing. */
  lemma RunStopped(s: Scan, text: string, n: nat)
    requires n <= |text| && Run(s, text[..n]).done
    ensures Run(s, text) == Run(s, text[..n])
  {
    assert text == text[..n] + text[n..];
    RunConcat(s, text[..n], text[n..]);
    RunDone(Run(s, text[..n]), text[n..]);
  }

  /** These are the scripts of a source: of the scan from that bracket, or none without a bracket. */
  ghost predicate Extracts(source: string, scripts: seq<Script>) {
    exists start: Option<nat> :: ScansFrom(source, start) && (start.Some? ==> start.value < |source|)
                 && scripts == if start.Some? then Run(Initial, source[start.value..]).scripts else []
  }

  lemma ExtractsFrom(source: string, start: nat, text: string)
    requires ScansFrom(source, Some(start)) && start < |source| && text == source[start..]
    ensures Extracts(source, Run(Initial, text).scripts)
  {}

  lemma ExtractsNothing(source: string)
    requires ScansFrom(source, None)
    ensures Extracts(source, [])
  {}

  method ExtractInlinedScripts(source: string) returns (scripts: seq<Script>)
    ensures Extracts(source, scripts)
  {
    hide Extracts, ScansFrom, Run;
    var open := FindStart(source);
    scripts := [];
    if open.None? {
      ExtractsNothing(source);
      return;
    }
    var depth, inString, escaped := 0, false, false;
    var pair: seq<string>, current := [], "";
    var i := open.value;
    ghost var text, n := source[i..], 0;
    RunNothing(Initial);
    ExtractsFrom(source, i, text);
    while i < |source|
      invariant i == open.value + n <= |source|
      invariant Run(Initial, text[..n]) == Scan(depth, inString, escaped, pair, current, scripts, false)
    {
      var ch := source[i];
      RunStep(Initial, text, n);
      i, n := i + 1, n + 1;
      if inString {
        if escaped {
          current := current + [ch];
          escaped := false;
        } else if ch == '\\' {
          current := current + [ch];
          escaped := true;
        } else if ch == '"' {
          inString := false;
          pair := pair + [current];
          current := "";
        } else {
          current := current + [ch];
        }
        continue;
      }
      if ch == '"' {
        inString := true;
        current := "";
      } else if ch == '[' {
        depth := depth + 1;
        if depth == 2 {
          pair := [];
        }
      } else if ch == ']' {
        depth := depth - 1;
        if depth == 1 {
          if |pair| >= 2 && |pair[1]| > 0 {
            scripts := scripts + [Script(pair[0], Units(pair[1]))];
          }
        }
        if depth == 0 {
          RunStopped(Initial, text, n);
          assert Run(Initial, text).scripts == scripts;
          return;
        }
      }
    }
    assert text[..n] == text;
  }

  // ------------------------------------------------------------- the printer

  function HexValue(c: char): nat {
    if '0' <= c <= '9' then c as int - '0' as int else if 'a' <= c <= 'f' then c as int - 'a' as int + 10 else 0
  }

  /** What a JSON reader makes of the inside of a string, of the escapes the printer uses. */
  function Unescape(t: string): string {
    if t == "" then ""
    else if t[0] != '\\' || |t| == 1 then [t[0]] + Unescape(t[1..])
    else if t[1] == 'u' && |t| >= 6 then
      [(HexValue(t[4]) * 16 + HexValue(t[5])) as char] + Unescape(t[6..])
    else
      [match t[1]
       case 'n' => '\n' case 'r' => '\r' case 't' => '\t' case 'b' => '\U{8}' case 'f' => '\U{C}'
       case c => c] + Unescape(t[2..])
  }

  /** The printed string is read back. */
  lemma {:induction false} PrintedIsReadBack(s: string)
    ensures Unescape(Escape(s)) == s
    decreases |s|
  {
    if s != "" {
      var rest := Escape(s[1..]);
      PrintedIsReadBack(s[1..]);
      var first := Escape(s)[..|Escape(s)| - |rest|];
      assert Escape(s) == first + rest;
      FirstIsReadBack(s[0], first, rest);
      assert s == [s[0]] + s[1..];
    }
  }

  lemma FirstIsReadBack(c: char, first: string, rest: string)
    requires first == match c
       case '"' => "\\\""
       case '\\' => "\\\\"
       case '\n' => "\\n"
       case '\r' => "\\r"
       case '\t' => "\\t"
       case '\U{8}' => "\\b"
       case '\U{C}' => "\\f"
       case c => if c < ' ' then "\\u00" + [Hex(c as int / 16), Hex(c as int % 16)] else [c]
    ensures Unescape(first + rest) == [c] + Unescape(rest)
  {
    var t := first + rest;
    if |first| == 1 {
      assert t[1..] == rest;
    } else if |first| == 2 {
      assert t[2..] == rest;
    } else {
      assert t[6..] == rest;
      HexIsRead(c as int / 16);
      HexIsRead(c as int % 16);
    }
  }

  lemma HexIsRead(n: nat)
    requires n < 16
    ensures HexValue(Hex(n)) == n
  {}

  /** The inside of a JSON string: no bare quote, and every backslash takes the next character with it. */
  predicate Escaped(t: string) {
    t == [] || (if t[0] == '\\' then |t| >= 2 && Escaped(t[2..]) else t[0] != '"' && Escaped(t[1..]))
  }

  function Hex(n: nat): char
    requires n < 16
  {
    "0123456789abcdef"[n]
  }

  /** RFC 8259, section 7, as JSON.stringify prints it; a character here is never half a surrogate pair. */
  function Escape(s: string): string {
    if s == [] then [] else
      (match s[0]
       case '"' => "\\\""
       case '\\' => "\\\\"
       case '\n' => "\\n"
       case '\r' => "\\r"
       case '\t' => "\\t"
       case '\U{8}' => "\\b"
       case '\U{C}' => "\\f"
       case c => if c < ' ' then "\\u00" + [Hex(c as int / 16), Hex(c as int % 16)] else [c])
      + Escape(s[1..])
  }

  function PrintPair(id: string, body: string): string {
    "[\"" + id + "\",\"" + body + "\"]"
  }

  /** The elements of the array, separated by commas. */
  function PrintPairs(pairs: seq<(string, string)>): string {
    if pairs == [] then ""
    else if |pairs| == 1 then PrintPair(pairs[0].0, pairs[0].1)
    else PrintPairs(pairs[..|pairs| - 1]) + "," + PrintPair(pairs[|pairs| - 1].0, pairs[|pairs| - 1].1)
  }

  /** What the gate must report: the pairs with a body, in order. */
  function ScriptsOf(pairs: seq<(string, string)>): seq<Script> {
    if pairs == [] then [] else
      var (id, body) := pairs[|pairs| - 1];
      ScriptsOf(pairs[..|pairs| - 1]) + if |body| > 0 then [Script(id, Units(body))] else []
  }

  lemma {:induction false} EscapedConcat(a: string, b: string)
    requires Escaped(a) && Escaped(b)
    ensures Escaped(a + b)
    decreases |a|
  {
    if a == [] {
      assert a + b == b;
    } else if a[0] == '\\' {
      assert (a + b)[2..] == a[2..] + b;
      EscapedConcat(a[2..], b);
    } else {
      assert (a + b)[1..] == a[1..] + b;
      EscapedConcat(a[1..], b);
    }
  }

  /** Whatever a string holds, its printed form is well escaped, and it is empty only for the empty string. */
  lemma {:induction false} PrintedIsEscaped(s: string)
    ensures Escaped(Escape(s)) && (Escape(s) == "" <==> s == "")
  {
    if s != [] {
      PrintedIsEscaped(s[1..]);
      var first := Escape(s)[..|Escape(s)| - |Escape(s[1..])|];
      assert Escape(s) == first + Escape(s[1..]);
      FirstIsEscaped(s[0], first);
      EscapedConcat(first, Escape(s[1..]));
    }
  }

  lemma FirstIsEscaped(c: char, first: string)
    requires first == match c
       case '"' => "\\\""
       case '\\' => "\\\\"
       case '\n' => "\\n"
       case '\r' => "\\r"
       case '\t' => "\\t"
       case '\U{8}' => "\\b"
       case '\U{C}' => "\\f"
       case c => if c < ' ' then "\\u00" + [Hex(c as int / 16), Hex(c as int % 16)] else [c]
    ensures Escaped(first)
  {
    if |first| == 2 {
      assert first[2..] == [];
    } else if |first| == 6 {
      PlainIsEscaped(first[2..]);
    }
  }

  lemma {:induction false} PlainIsEscaped(t: string)
    requires forall i :: 0 <= i < |t| ==> t[i] != '"' && t[i] != '\\'
    ensures Escaped(t)
  {
    if t != [] {
      PlainIsEscaped(t[1..]);
    }
  }

  // ------------------------------------------------------------ the round trip

  lemma {:induction false} RunConcat(s: Scan, a: string, b: string)
    ensures Run(s, a + b) == Run(Run(s, a), b)
    decreases |b|
  {
    if b == [] {
      assert a + b == a;
    } else {
      assert (a + b)[..|a + b| - 1] == a + b[..|b| - 1];
      RunConcat(s, a, b[..|b| - 1]);
    }
  }

  lemma {:induction false} RunDone(s: Scan, text: string)
    requires s.done
    ensures Run(s, text) == s
    decreases |text|
  {
    if text != [] {
      RunDone(s, text[..|text| - 1]);
    }
  }

  lemma RunOne(s: Scan, ch: char)
    ensures Run(s, [ch]) == Step(s, ch)
  {
    assert Run(s, [ch][..0]) == s;
  }

  lemma {:induction false} RunEscaped(s: Scan, t: string)
    requires Escaped(t) && s.inString && !s.escaped && !s.done
    ensures Run(s, t) == s.(current := s.current + t)
    decreases |t|
  {
    if t == [] {
      assert s.current + t == s.current;
    } else {
      var n := if t[0] == '\\' then 2 else 1;
      var s' := s.(current := s.current + t[..n]);
      assert t == t[..n] + t[n..] && s'.current + t[n..] == s.current + t;
      RunConcat(s, t[..n], t[n..]);
      RunOne(s, t[0]);
      if n == 1 {
        assert t[..1] == [t[0]];
      } else {
        assert t[..2] == [t[0]] + [t[1]] && s.current + [t[0]] + [t[1]] == s.current + t[..2];
        RunConcat(s, [t[0]], [t[1]]);
        RunOne(Step(s, t[0]), t[1]);
      }
      RunEscaped(s', t[n..]);
    }
  }

  /** A printed string adds its text to the pair and leaves the rest alone. */
  lemma RunQuoted(s: Scan, t: string)
    requires Escaped(t) && !s.inString && !s.escaped && !s.done
    ensures Run(s, "\"" + t + "\"") == s.(pair := s.pair + [t], current := "")
  {
    var inside := s.(inString := true, current := "");
    RunConcat(s, "\"" + t, "\"");
    RunConcat(s, "\"", t);
    RunOne(s, '"');
    RunEscaped(inside, t);
    assert "" + t == t;
    RunOne(inside.(current := t), '"');
  }

  lemma RunThen(s: Scan, a: string, t: Scan, b: string, u: Scan)
    requires Run(s, a) == t && Run(t, b) == u
    ensures Run(s, a + b) == u
  {
    RunConcat(s, a, b);
  }

  lemma RunPair(s: Scan, id: string, body: string)
    requires Escaped(id) && Escaped(body) && !s.inString && !s.escaped && !s.done && s.depth == 1
    ensures Run(s, PrintPair(id, body)) ==
        s.(pair := [id, body], current := "", scripts := s.scripts + ScriptOf([id, body]))
  {
    hide Run, Escaped;
    var s1 := s.(depth := 2, pair := []);
    var s2 := s1.(pair := [id], current := "");
    var s3 := s2.(pair := [id, body]);
    var q1, q2 := "\"" + id + "\"", "\"" + body + "\"";
    RunOne(s, '[');
    RunQuoted(s1, id);
    RunOne(s2, ',');
    RunQuoted(s2, body);
    RunOne(s3, ']');
    assert s1.pair + [id] == [id] && s2.pair + [body] == [id, body];
    RunThen(s, "[", s1, q1, s2);
    RunThen(s, "[" + q1, s2, ",", s2);
    RunThen(s, "[" + q1 + ",", s2, q2, s3);
    RunThen(s, "[" + q1 + "," + q2, s3, "]", Step(s3, ']'));
    assert PrintPair(id, body) == "[" + q1 + "," + q2 + "]";
  }

  ghost predicate BetweenPairs(s: Scan) {
    !s.inString && !s.escaped && !s.done && s.depth == 1
  }

  lemma {:induction false} RunPairs(s: Scan, pairs: seq<(string, string)>)
    requires BetweenPairs(s)
    requires forall k :: 0 <= k < |pairs| ==> Escaped(pairs[k].0) && Escaped(pairs[k].1)
    ensures BetweenPairs(Run(s, PrintPairs(pairs))) && Run(s, PrintPairs(pairs)).scripts == s.scripts + ScriptsOf(pairs)
    decreases |pairs|
  {
    hide Escaped, Run, Step, ScriptsOf, ScriptOf;
    if pairs == [] {
      RunNothing(s);
      NoScripts();
    } else {
      var rest := pairs[..|pairs| - 1];
      var (id, body) := pairs[|pairs| - 1];
      ScriptsStep(pairs);
      if |pairs| == 1 {
        RunPair(s, id, body);
        NoScripts();
        assert rest == [];
      } else {
        RunPairs(s, rest);
        var t := Run(s, PrintPairs(rest));
        var u := t.(pair := [id, body], current := "", scripts := t.scripts + ScriptOf([id, body]));
        CommaBetween(t);
        RunThen(s, PrintPairs(rest), t, ",", t);
        RunPair(t, id, body);
        RunThen(s, PrintPairs(rest) + ",", t, PrintPair(id, body), u);
      }
    }
  }

  lemma CommaBetween(t: Scan)
    requires BetweenPairs(t)
    ensures Run(t, ",") == t
  {
    RunOne(t, ',');
  }

  lemma NoScripts()
    ensures ScriptsOf([]) == []
  {}

  lemma ScriptsStep(pairs: seq<(string, string)>)
    requires pairs != []
    ensures var (id, body) := pairs[|pairs| - 1];
            ScriptsOf(pairs) == ScriptsOf(pairs[..|pairs| - 1]) + ScriptOf([id, body])
  {}

  /**
   * Printed with any text before (that does not hold the key) and after, the pairs come back:
   * exactly those with a body, in order, as escaped id and escaped length.
   */
  lemma PrintedPairsComeBack(before: string, pairs: seq<(string, string)>, after: string, source: string,
      start: Option<nat>)
    requires source == before + KEY + ("[" + PrintPairs(pairs) + "]" + after)
    requires forall p: nat :: p < |before| ==> !OccursAt(source, KEY, p)
    requires forall k :: 0 <= k < |pairs| ==> Escaped(pairs[k].0) && Escaped(pairs[k].1)
    requires ScansFrom(source, start)
    ensures start == Some(|before| + |KEY|)
    ensures Run(Initial, source[start.value..]).scripts == ScriptsOf(pairs)
  {
    var text := "[" + PrintPairs(pairs) + "]" + after;
    StartIsFound(before, text, source, start);
    ArrayComesBack(pairs, after);
    hide ScansFrom, Run, PrintPairs, ScriptsOf, OccursAt, Escaped;
    assert source[start.value..] == text;
  }

  /** The array as JSON prints it, and the scripts it stands for. */
  function Encoded(pairs: seq<(string, string)>): (encoded: seq<(string, string)>)
    ensures |encoded| == |pairs|
    ensures forall k :: 0 <= k < |pairs| ==> encoded[k] == (Escape(pairs[k].0), Escape(pairs[k].1))
  {
    if pairs == [] then [] else
    Encoded(pairs[..|pairs| - 1]) + [(Escape(pairs[|pairs| - 1].0), Escape(pairs[|pairs| - 1].1))]
  }

  function WithBody(pairs: seq<(string, string)>): seq<Script> {
    if pairs == [] then [] else
      var (id, body) := pairs[|pairs| - 1];
      WithBody(pairs[..|pairs| - 1]) + if body == "" then [] else [Script(Escape(id), Units(Escape(body)))]
  }

  lemma {:induction false} EncodedScripts(pairs: seq<(string, string)>)
    ensures ScriptsOf(Encoded(pairs)) == WithBody(pairs)
  {
    if pairs != [] {
      var rest := pairs[..|pairs| - 1];
      EncodedScripts(rest);
      PrintedIsEscaped(pairs[|pairs| - 1].1);
      assert Encoded(pairs)[..|pairs| - 1] == Encoded(rest);
    }
  }

  /**
   * Whatever strings the pairs hold (brackets, quotes, backslashes, control characters), of
   * the array that JSON prints for them exactly the pairs with a body are extracted, in order.
   */
  lemma JsonPairsComeBack(before: string, pairs: seq<(string, string)>, after: string, source: string,
      scripts: seq<Script>)
    requires source == before + "\"inlinedScripts\":" + ("[" + PrintPairs(Encoded(pairs)) + "]" + after)
    requires forall p: nat :: p < |before| ==> !OccursAt(source, "\"inlinedScripts\":", p)
    requires Extracts(source, scripts)
    ensures scripts == WithBody(pairs)
  {
    hide Escaped, ScansFrom, Run, PrintPairs, ScriptsOf, WithBody, OccursAt;
    var start: Option<nat> :| ScansFrom(source, start) && (start.Some? ==> start.value < |source|)
      && scripts == if start.Some? then Run(Initial, source[start.value..]).scripts else [];
    forall k | 0 <= k < |pairs| ensures Escaped(Encoded(pairs)[k].0) && Escaped(Encoded(pairs)[k].1) {
      PrintedIsEscaped(pairs[k].0);
      PrintedIsEscaped(pairs[k].1);
    }
    PrintedPairsComeBack(before, Encoded(pairs), after, source, start);
    EncodedScripts(pairs);
  }

  lemma StartIsFound(before: string, text: string, source: string, start: Option<nat>)
    requires source == before + KEY + text && |text| > 0 && text[0] == '['
    requires forall p: nat :: p < |before| ==> !OccursAt(source, KEY, p)
    requires ScansFrom(source, start)
    ensures start == Some(|before| + |KEY|)
  {
    var i := |before| + |KEY|;
    assert OccursAt(source, KEY, |before|) && source[i] == '[';
    assert forall p :: |before| <= p < i ==> source[p] == KEY[p - |before|];
    assert '[' !in KEY;
  }

  lemma ArrayComesBack(pairs: seq<(string, string)>, after: string)
    requires forall k :: 0 <= k < |pairs| ==> Escaped(pairs[k].0) && Escaped(pairs[k].1)
    ensures Run(Initial, "[" + PrintPairs(pairs) + "]" + after).scripts == ScriptsOf(pairs)
  {
    hide Run, Escaped;
    var list, s1 := PrintPairs(pairs), Initial.(depth := 1);
    RunOne(Initial, '[');
    RunPairs(s1, pairs);
    var t := Run(s1, list);
    RunThen(Initial, "[", s1, list, t);
    RunOne(t, ']');
    RunThen(Initial, "[" + list, t, "]", Step(t, ']'));
    RunDone(Step(t, ']'), after);
    RunThen(Initial, "[" + list + "]", Step(t, ']'), after, Step(t, ']'));
  }
}
