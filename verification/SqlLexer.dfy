/**
 * Splitting SQL into statements (scripts/db-function-search-path-check.ts, splitStatements).
 *
 * The lexer is specified on the text still ahead and the statement read so far, and proved to
 * undo a printer of SQL lexemes: comments (nested ones too), string literals with doubled
 * quotes and, after E, backslash escapes, quoted identifiers, and dollar-quoted bodies
 * (PostgreSQL manual, sections 4.1.2 and 4.1.5).
 */
module SqlLexer {
  // ------------------------------------------------------------- characters

  predicate IsLetter(c: char) {
    'a' <= c <= 'z' || 'A' <= c <= 'Z' || c == '_'
  }

  /** The class `\w`. */
  predicate IsWord(c: char) {
    IsLetter(c) || '0' <= c <= '9'
  }

  /** What `trim` removes. */
  predicate IsSpace(c: char) {
    || c == ' ' || '\t' <= c <= '\r' || c == '\U{A0}' || c == '\U{FEFF}' || c == '\U{1680}'
    || '\U{2000}' <= c <= '\U{200A}'
    || c == '\U{2028}' || c == '\U{2029}' || c == '\U{202F}' || c == '\U{205F}' || c == '\U{3000}'
  }

  predicate Blank(s: string) {
    forall i :: 0 <= i < |s| ==> IsSpace(s[i])
  }

  /** The text ends in a word character or a dollar sign. */
  predicate EndsInWord(s: string) {
    s != [] && (IsWord(s[|s| - 1]) || s[|s| - 1] == '$')
  }

  /** The text ends in an E of its own, so a quote now opens an escape string. */
  predicate EndsInE(s: string) {
    s != [] && (s[|s| - 1] == 'e' || s[|s| - 1] == 'E') && !EndsInWord(s[..|s| - 1])
  }

  /** `;`, `(` and `)` replaced by control characters. */
  function Neutral(s: string): string {
    if s == [] then [] else
      [match s[0] case ';' => '\U{1}' case '(' => '\U{2}' case ')' => '\U{3}' case c => c] + Neutral(s[1..])
  }

  // ------------------------------------------- how far one lexeme of s reaches

  predicate StartsWith(s: string, t: string) {
    |t| <= |s| && s[..|t|] == t
  }

  /** Whether two given characters stand at the front. */
  lemma TwoInFront(s: string, a: char, b: char)
    ensures StartsWith(s, [a, b]) <==> |s| >= 2 && s[0] == a && s[1] == b
  {
    assert |s| >= 2 ==> s[..2] == [s[0], s[1]];
  }

  function IndexOf(s: string, t: string): (n: nat)
    ensures n <= |s|
  {
    if s == [] || StartsWith(s, t) then 0 else 1 + IndexOf(s[1..], t)
  }

  /** The rest of a block comment after `depth` openings, its closings included. */
  function CommentLength(s: string, depth: nat): (n: nat)
    ensures n <= |s|
  {
    if s == [] || depth == 0 then 0
    else if StartsWith(s, "/*") then 2 + CommentLength(s[2..], depth + 1)
    else if StartsWith(s, "*/") then 2 + CommentLength(s[2..], depth - 1)
    else 1 + CommentLength(s[1..], depth)
  }

  /** The inside of a string literal, up to its closing quote or the end of the text. */
  function LiteralLength(s: string, escapes: bool): (n: nat)
    ensures n <= |s|
  {
    if s == [] then 0
    else if escapes && s[0] == '\\' then (if |s| == 1 then 1 else 2 + LiteralLength(s[2..], escapes))
    else if s[0] == '\'' then (if |s| > 1 && s[1] == '\'' then 2 + LiteralLength(s[2..], escapes) else 0)
    else 1 + LiteralLength(s[1..], escapes)
  }

  function WordLength(s: string): (n: nat)
    ensures n <= |s|
  {
    if s != [] && IsWord(s[0]) then 1 + WordLength(s[1..]) else 0
  }

  /** The length of a dollar-quote delimiter at the front of s; 0 when there is none. */
  function TagLength(s: string): (n: nat)
    ensures n <= |s|
  {
    if |s| < 2 || s[0] != '$' then 0
    else if s[1] == '$' then 2
    else if !IsLetter(s[1]) then 0
    else
      var n := WordLength(s[1..]);
      if n + 1 < |s| && s[n + 1] == '$' then n + 2 else 0
  }

  function Least(a: nat, b: nat): nat {
    if a < b then a else b
  }

  /** One pass of the loop: how much it reads, what it adds to the statement, and the body it found. */
  datatype Turn = Turn(length: nat, text: string, bodies: seq<string>, ends: bool)

  function OneTurn(s: string, current: string): (t: Turn)
    requires s != []
    ensures 0 < t.length <= |s|
  {
    if StartsWith(s, "--") then Turn(2 + IndexOf(s[2..], "\n"), " ", [], false)
    else if StartsWith(s, "/*") then Turn(2 + CommentLength(s[2..], 1), " ", [], false)
    else if s[0] == '\'' then
      var n := LiteralLength(s[1..], EndsInE(current));
      Turn(Least(n + 2, |s|), "'" + Neutral(s[1..n + 1]) + "'", [], false)
    else if s[0] == '"' then
      var n := Least(IndexOf(s[1..], "\"") + 2, |s|);
      Turn(n, s[..n], [], false)
    else if s[0] == '$' && TagLength(s) > 0 && !EndsInWord(current) then
      var tag := TagLength(s);
      var n := IndexOf(s[tag..], s[..tag]);
      Turn(Least(2 * tag + n, |s|), "$$ $$", [s[tag..tag + n]], false)
    else if s[0] == ';' then Turn(1, "", [], true)
    else Turn(1, [s[0]], [], false)
  }

  function Flushed(current: string): seq<string> {
    if Blank(current) then [] else [current]
  }

  /** The statement a turn completes, and the statement text it goes on with. */
  function Ended(t: Turn, current: string): seq<string> {
    if t.ends then Flushed(current) else []
  }

  function Onward(t: Turn, current: string): string {
    if t.ends then "" else current + t.text
  }

  datatype Split = Split(statements: seq<string>, bodies: seq<string>)

  function Together(statements: seq<string>, bodies: seq<string>, ahead: Split): Split {
    Split(statements + ahead.statements, bodies + ahead.bodies)
  }

  /** What the loop makes of the text ahead when `current` is the statement read so far. */
  function Lex(s: string, current: string): Split
    decreases |s|
  {
    if s == [] then Split(Flushed(current), []) else
    var t := OneTurn(s, current);
    Together(Ended(t, current), t.bodies, Lex(s[t.length..], Onward(t, current)))
  }

  // ----------------------------------------------------------------- the code

  predicate LooksAt(sql: string, index: nat, t: string)
    requires index <= |sql|
  {
    StartsWith(sql[index..], t)
  }

  /** Where the block comment open at `cursor` with `depth` openings ends. */
  function CommentEnd(sql: string, cursor: nat, depth: nat): (end: nat)
    requires cursor <= |sql|
    ensures end <= |sql|
  {
    cursor + CommentLength(sql[cursor..], depth)
  }

  lemma CommentStep(sql: string, cursor: nat, depth: nat)
    requires cursor <= |sql|
    ensures depth == 0 || cursor == |sql| ==> CommentEnd(sql, cursor, depth) == cursor
    ensures depth > 0 && cursor < |sql| && LooksAt(sql, cursor, "/*") ==>
              cursor + 2 <= |sql| && CommentEnd(sql, cursor, depth) == CommentEnd(sql, cursor + 2, depth + 1)
    ensures depth > 0 && cursor < |sql| && !LooksAt(sql, cursor, "/*") && LooksAt(sql, cursor, "*/") ==>
              cursor + 2 <= |sql| && CommentEnd(sql, cursor, depth) == CommentEnd(sql, cursor + 2, depth - 1)
    ensures depth > 0 && cursor < |sql| && !LooksAt(sql, cursor, "/*") && !LooksAt(sql, cursor, "*/") ==>
              CommentEnd(sql, cursor, depth) == CommentEnd(sql, cursor + 1, depth)
  {
    var rest := sql[cursor..];
    assert |rest| >= 1 ==> rest[1..] == sql[cursor + 1..];
    assert |rest| >= 2 ==> rest[2..] == sql[cursor + 2..];
  }

  method SkipComment(sql: string, index: nat) returns (cursor: nat)
    requires index + 2 <= |sql|
    ensures cursor == CommentEnd(sql, index + 2, 1)
  {
    hide LooksAt, CommentEnd;
    var depth := 1;
    cursor := index + 2;
    while depth > 0 && cursor < |sql|
      invariant cursor <= |sql| && CommentEnd(sql, cursor, depth) == CommentEnd(sql, index + 2, 1)
      decreases |sql| - cursor
    {
      CommentStep(sql, cursor, depth);
      if LooksAt(sql, cursor, "/*") {
        depth := depth + 1;
        cursor := cursor + 2;
      } else if LooksAt(sql, cursor, "*/") {
        depth := depth - 1;
        cursor := cursor + 2;
      } else {
        cursor := cursor + 1;
      }
    }
    CommentStep(sql, cursor, depth);
  }

  /** How the inside of a literal goes on from one character. */
  lemma LiteralStep(sql: string, cursor: nat, escapes: bool)
    requires cursor < |sql|
    ensures var n := LiteralLength(sql[cursor..], escapes);
            if escapes && sql[cursor] == '\\' then
              (if cursor + 2 <= |sql| then n == 2 + LiteralLength(sql[cursor + 2..], escapes) else n == 1)
            else if sql[cursor] == '\'' then
              (if cursor + 1 < |sql| && sql[cursor + 1] == '\''
                then n == 2 + LiteralLength(sql[cursor + 2..], escapes) else n == 0)
            else n == 1 + LiteralLength(sql[cursor + 1..], escapes)
  {
    var rest := sql[cursor..];
    assert rest[1..] == sql[cursor + 1..] && (|rest| >= 2 ==> rest[2..] == sql[cursor + 2..]);
  }

  lemma SliceGrows(sql: string, start: nat, cursor: nat, end: nat)
    requires start <= cursor < end <= |sql|
    ensures sql[start..end] == sql[start..cursor] + sql[cursor..end]
    ensures end == cursor + 1 ==> sql[cursor..end] == [sql[cursor]]
  {}

  method ReadLiteral(sql: string, start: nat, escapes: bool) returns (literal: string, cursor: nat)
    requires start <= |sql|
    ensures var n := LiteralLength(sql[start..], escapes);
            literal == sql[start..start + n] && Least(cursor, |sql|) == start + n
  {
    hide LiteralLength;
    cursor, literal := start, "";
    ghost var end := start + LiteralLength(sql[start..], escapes);
    while cursor < |sql|
      invariant start <= cursor && literal == sql[start..Least(cursor, |sql|)]
      invariant if cursor <= |sql| then cursor + LiteralLength(sql[cursor..], escapes) == end else end == |sql|
    {
      LiteralStep(sql, cursor, escapes);
      SliceGrows(sql, start, cursor, cursor + 1);
      SliceGrows(sql, start, cursor, Least(cursor + 2, |sql|));
      if escapes && sql[cursor] == '\\' {
        literal := literal + sql[cursor..Least(cursor + 2, |sql|)];
        cursor := cursor + 2;
        continue;
      }
      if sql[cursor] == '\'' {
        if cursor + 1 < |sql| && sql[cursor + 1] == '\'' {
          assert sql[cursor..cursor + 2] == "''";
          literal := literal + "''";
          cursor := cursor + 2;
          continue;
        }
        break;
      }
      literal := literal + [sql[cursor]];
      cursor := cursor + 1;
    }
  }

  /** The branches of the loop body. */
  method ReadLexeme(sql: string, index: nat, current: string) returns (t: Turn)
    requires index < |sql|
    ensures t == OneTurn(sql[index..], current)
  {
    hide CommentLength, LiteralLength, IndexOf, TagLength, Neutral, EndsInE, EndsInWord;
    var rest := sql[index..];
    if StartsWith(rest, "--") {
      return Turn(2 + IndexOf(rest[2..], "\n"), " ", [], false);
    }
    if StartsWith(rest, "/*") {
      var cursor := SkipComment(sql, index);
      assert rest[2..] == sql[index + 2..];
      return Turn(cursor - index, " ", [], false);
    }
    if rest[0] == '\'' {
      var literal, cursor := ReadLiteral(sql, index + 1, EndsInE(current));
      assert rest[1..] == sql[index + 1..];
      ghost var n := LiteralLength(rest[1..], EndsInE(current));
      assert literal == rest[1..n + 1];
      return Turn(Least(cursor + 1, |sql|) - index, "'" + Neutral(literal) + "'", [], false);
    }
    if rest[0] == '"' {
      var stop := Least(index + 1 + IndexOf(rest[1..], "\"") + 1, |sql|);
      return Turn(stop - index, rest[..stop - index], [], false);
    }
    if rest[0] == '$' && TagLength(rest) > 0 && !EndsInWord(current) {
      var tag := TagLength(rest);
      var close := IndexOf(rest[tag..], rest[..tag]);
      return Turn(Least(tag + close + tag, |rest|), "$$ $$", [rest[tag..tag + close]], false);
    }
    if rest[0] == ';' {
      return Turn(1, "", [], true);
    }
    return Turn(1, [rest[0]], [], false);
  }

  method SplitStatements(sql: string) returns (statements: seq<string>, bodies: seq<string>)
    ensures Split(statements, bodies) == Lex(sql, "")
  {
    hide Lex, OneTurn, Together, Ended, Onward, Flushed;
    statements, bodies := [], [];
    var current, index := "", 0;
    LexStart(sql);
    while index < |sql|
      invariant index <= |sql|
      invariant Lex(sql, "") == Together(statements, bodies, Lex(sql[index..], current))
      decreases |sql| - index
    {
      var t := ReadLexeme(sql, index, current);
      LexTurn(sql, index, current);
      TogetherTwice(statements, bodies, Ended(t, current), t.bodies, Lex(sql[index + t.length..], Onward(t, current)));
      bodies := bodies + t.bodies;
      statements := statements + Ended(t, current);
      current := Onward(t, current);
      index := index + t.length;
    }
    LexEnd(statements, bodies, current);
    assert sql[index..] == "";
    statements := statements + Flushed(current);
  }

  lemma LexStart(sql: string)
    ensures Lex(sql, "") == Together([], [], Lex(sql[0..], ""))
  {
    assert sql[0..] == sql;
  }

  lemma LexEnd(statements: seq<string>, bodies: seq<string>, current: string)
    ensures Together(statements, bodies, Lex("", current)) == Split(statements + Flushed(current), bodies)
  {}

  lemma TogetherTwice(s1: seq<string>, b1: seq<string>, s2: seq<string>, b2: seq<string>, ahead: Split)
    ensures Together(s1, b1, Together(s2, b2, ahead)) == Together(s1 + s2, b1 + b2, ahead)
  {
    assert s1 + (s2 + ahead.statements) == s1 + s2 + ahead.statements;
    assert b1 + (b2 + ahead.bodies) == b1 + b2 + ahead.bodies;
  }

  lemma LexTurn(sql: string, index: nat, current: string)
    requires index < |sql|
    ensures var t := OneTurn(sql[index..], current);
            Lex(sql[index..], current) == Together(Ended(t, current), t.bodies,
              Lex(sql[index + t.length..], Onward(t, current)))
  {
    var t := OneTurn(sql[index..], current);
    assert sql[index..][t.length..] == sql[index + t.length..];
  }

  // -------------------------------------------------------------- the printer

  /** The inside of a block comment: characters and comments nested in it. */
  datatype Comment = NoMore | Of(c: char, rest: Comment) | Nested(inner: Comment, rest: Comment)

  datatype Unit = Raw(c: char) | Doubled | Backslash(c: char)

  datatype Piece =
    | Plain(c: char)
    | LineComment(text: string)
    | BlockComment(comment: Comment)
    | Literal(escapes: bool, units: seq<Unit>)
    | Quoted(text: string)
    | Dollar(tag: string, body: string)

  function PrintComment(c: Comment): string {
    match c
    case NoMore => ""
    case Of(ch, rest) => [ch] + PrintComment(rest)
    case Nested(inner, rest) => "/*" + PrintComment(inner) + "*/" + PrintComment(rest)
  }

  function PrintUnits(units: seq<Unit>): string {
    if units == [] then "" else
      (match units[0] case Raw(c) => [c] case Doubled => "''" case Backslash(c) => ['\\', c]) + PrintUnits(units[1..])
  }

  function Delimiter(tag: string): string {
    "$" + tag + "$"
  }

  function PrintPiece(p: Piece): string {
    match p
    case Plain(c) => [c]
    case LineComment(text) => "--" + text
    case BlockComment(comment) => "/*" + PrintComment(comment) + "*/"
    case Literal(_, units) => "'" + PrintUnits(units) + "'"
    case Quoted(text) => "\"" + text + "\""
    case Dollar(tag, body) => Delimiter(tag) + body + Delimiter(tag)
  }

  function PrintPieces(pieces: seq<Piece>): string {
    if pieces == [] then "" else PrintPiece(pieces[0]) + PrintPieces(pieces[1..])
  }

  /** Statements are separated by semicolons. */
  function PrintGroups(groups: seq<seq<Piece>>): string
    requires groups != []
  {
    if |groups| == 1 then PrintPieces(groups[0]) else PrintPieces(groups[0]) + ";" + PrintGroups(groups[1..])
  }

  // ------------------------------------- what must come out, and from what

  /** What a piece leaves in its statement. */
  function TextOf(p: Piece): string {
    match p
    case Plain(c) => [c]
    case LineComment(_) => " "
    case BlockComment(_) => " "
    case Literal(_, units) => "'" + Neutral(PrintUnits(units)) + "'"
    case Quoted(text) => "\"" + text + "\""
    case Dollar(_, _) => "$$ $$"
  }

  function TextOfAll(pieces: seq<Piece>): string {
    if pieces == [] then "" else TextOf(pieces[0]) + TextOfAll(pieces[1..])
  }

  function BodiesOf(pieces: seq<Piece>): seq<string> {
    if pieces == [] then [] else (if pieces[0].Dollar? then [pieces[0].body] else []) + BodiesOf(pieces[1..])
  }

  function StatementsOf(groups: seq<seq<Piece>>): seq<string> {
    if groups == [] then [] else Flushed(TextOfAll(groups[0])) + StatementsOf(groups[1..])
  }

  function AllBodiesOf(groups: seq<seq<Piece>>): seq<string> {
    if groups == [] then [] else BodiesOf(groups[0]) + AllBodiesOf(groups[1..])
  }

  predicate Front(s: string, c: char) {
    s != [] && s[0] == c
  }

  /** No character pair inside the comment reads as an opening or a closing by accident. */
  predicate CommentReads(c: Comment, after: string) {
    match c
    case NoMore => true
    case Of(ch, rest) =>
      && !(ch == '/' && Front(PrintComment(rest) + after, '*'))
      && !(ch == '*' && Front(PrintComment(rest) + after, '/'))
      && CommentReads(rest, after)
    case Nested(inner, rest) => CommentReads(inner, "*/") && CommentReads(rest, after)
  }

  predicate UnitsRead(escapes: bool, units: seq<Unit>) {
    forall i :: 0 <= i < |units| ==>
      match units[i]
      case Raw(c) => c != '\'' && !(escapes && c == '\\')
      case Doubled => true
      case Backslash(_) => escapes
  }

  /** The lexer takes the piece for what it is, after the statement text `current` and before the text `after`. */
  predicate Reads(p: Piece, current: string, after: string) {
    match p
    case Plain(c) =>
      && c != '\'' && c != '"' && c != ';' && !(c == '-' && Front(after, '-')) && !(c == '/' && Front(after, '*'))
      && (c == '$' ==> EndsInWord(current) || TagLength([c] + after) == 0)
    case LineComment(text) => '\n' !in text && (after == "" || after[0] == '\n')
    case BlockComment(comment) => CommentReads(comment, "*/")
    case Literal(escapes, units) => escapes == EndsInE(current) && UnitsRead(escapes, units) && !Front(after, '\'')
    case Quoted(text) => '"' !in text
    case Dollar(tag, body) =>
      && (tag == "" || (IsLetter(tag[0]) && forall i :: 0 <= i < |tag| ==> IsWord(tag[i])))
      && !EndsInWord(current) && IndexOf(body + Delimiter(tag), Delimiter(tag)) == |body|
  }

  predicate AllRead(pieces: seq<Piece>, current: string, after: string) {
    pieces == [] ||
    (Reads(pieces[0], current, PrintPieces(pieces[1..]) + after)
      && AllRead(pieces[1..], current + TextOf(pieces[0]), after))
  }

  predicate GroupsRead(groups: seq<seq<Piece>>)
    requires groups != []
  {
    if |groups| == 1 then AllRead(groups[0], "", "")
    else AllRead(groups[0], "", ";" + PrintGroups(groups[1..])) && GroupsRead(groups[1..])
  }

  // ----------------------------------------------------------- piece by piece

  lemma {:induction false} IndexOfChar(text: string, c: char, after: string)
    requires c !in text && (after == "" || after[0] == c)
    ensures IndexOf(text + after, [c]) == |text|
  {
    var s := text + after;
    assert s != "" ==> (StartsWith(s, [c]) <==> s[0] == c) by {
      assert s != "" ==> s[..1] == [s[0]];
    }
    if text == "" {
      assert text + after == after;
    } else {
      assert (text + after)[1..] == text[1..] + after;
      IndexOfChar(text[1..], c, after);
    }
  }

  lemma {:induction false} IndexOfPrefix(s: string, t: string, after: string)
    requires t != "" && IndexOf(s, t) + |t| <= |s| && StartsWith(s[IndexOf(s, t)..], t)
    ensures IndexOf(s + after, t) == IndexOf(s, t)
  {
    assert (s + after)[..|t|] == s[..|t|];
    if !StartsWith(s, t) {
      assert (s + after)[1..] == s[1..] + after;
      assert s[IndexOf(s, t)..] == s[1..][IndexOf(s[1..], t)..];
      IndexOfPrefix(s[1..], t, after);
    }
  }

  lemma CommentTurn(s: string, depth: nat)
    requires s != "" && depth > 0
    ensures if |s| >= 2 && s[0] == '/' && s[1] == '*'
            then CommentLength(s, depth) == 2 + CommentLength(s[2..], depth + 1)
            else if |s| >= 2 && s[0] == '*' && s[1] == '/'
            then CommentLength(s, depth) == 2 + CommentLength(s[2..], depth - 1)
            else CommentLength(s, depth) == 1 + CommentLength(s[1..], depth)
  {
    TwoInFront(s, '/', '*');
    TwoInFront(s, '*', '/');
  }

  lemma {:induction false} CommentIsSkipped(c: Comment, depth: nat, close: string, after: string)
    requires depth > 0 && close == "*/" && CommentReads(c, close)
    ensures CommentLength(PrintComment(c) + close + after, depth) ==
        |PrintComment(c)| + 2 + CommentLength(after, depth - 1)
    decreases c
  {
    hide CommentLength;
    var s := PrintComment(c) + close + after;
    CommentTurn(s, depth);
    match c
    case NoMore =>
      assert s[2..] == after && s[0] == '*' && s[1] == '/';
    case Of(ch, rest) =>
      var t := PrintComment(rest) + close + after;
      assert s == [ch] + t && s[1..] == t;
      assert t[0] == (PrintComment(rest) + close)[0];
      CommentIsSkipped(rest, depth, close, after);
    case Nested(inner, rest) =>
      var t := PrintComment(rest) + close + after;
      assert s[2..] == PrintComment(inner) + "*/" + t && s[0] == '/' && s[1] == '*';
      CommentIsSkipped(inner, depth + 1, "*/", t);
      CommentIsSkipped(rest, depth, close, after);
  }

  lemma {:induction false} LiteralIsRead(escapes: bool, units: seq<Unit>, after: string)
    requires UnitsRead(escapes, units) && !Front(after, '\'')
    ensures LiteralLength(PrintUnits(units) + "'" + after, escapes) == |PrintUnits(units)|
  {
    var s := PrintUnits(units) + "'" + after;
    if units == [] {
      assert s == "'" + after;
    } else {
      LiteralIsRead(escapes, units[1..], after);
      var rest := PrintUnits(units[1..]) + "'" + after;
      assert units[0].Raw? ==> s[1..] == rest;
      assert !units[0].Raw? ==> s[2..] == rest;
    }
  }

  lemma {:induction false} WordIsRead(word: string, after: string)
    requires forall i :: 0 <= i < |word| ==> IsWord(word[i])
    requires Front(after, '$')
    ensures WordLength(word + after) == |word|
  {
    if word == "" {
      assert word + after == after;
    } else {
      assert (word + after)[1..] == word[1..] + after;
      WordIsRead(word[1..], after);
    }
  }

  lemma TagIsRead(tag: string, after: string)
    requires tag == "" || (IsLetter(tag[0]) && forall i :: 0 <= i < |tag| ==> IsWord(tag[i]))
    ensures TagLength(Delimiter(tag) + after) == |tag| + 2
  {
    var s := Delimiter(tag) + after;
    if tag != "" {
      assert s[1..] == tag + ("$" + after);
      WordIsRead(tag, "$" + after);
    }
  }

  ghost predicate IsTurn(p: Piece, current: string, after: string) {
    OneTurn(PrintPiece(p) + after, current) ==
      Turn(|PrintPiece(p)|, TextOf(p), if p.Dollar? then [p.body] else [], false)
  }

  lemma PlainIsOneTurn(c: char, current: string, after: string)
    requires Reads(Plain(c), current, after)
    ensures IsTurn(Plain(c), current, after)
  {
    hide TagLength, IndexOf, CommentLength, LiteralLength;
    var s := [c] + after;
    assert s[1..] == after && s[0] == c;
    TwoInFront(s, '-', '-');
    TwoInFront(s, '/', '*');
  }

  lemma LineCommentIsOneTurn(text: string, current: string, after: string)
    requires Reads(LineComment(text), current, after)
    ensures IsTurn(LineComment(text), current, after)
  {
    IndexOfChar(text, '\n', after);
    hide TagLength, IndexOf, CommentLength, LiteralLength;
    var s := "--" + text + after;
    TwoInFront(s, '-', '-');
    assert s[2..] == text + after;
  }

  lemma BlockCommentIsOneTurn(comment: Comment, current: string, after: string)
    requires Reads(BlockComment(comment), current, after)
    ensures IsTurn(BlockComment(comment), current, after)
  {
    CommentIsSkipped(comment, 1, "*/", after);
    assert CommentLength(after, 0) == 0;
    hide OneTurn, CommentLength, CommentReads, PrintComment;
    BlockTurnPrinted(PrintComment(comment), after, current);
  }

  lemma BlockTurnPrinted(inside: string, after: string, current: string)
    requires CommentLength(inside + "*/" + after, 1) == |inside| + 2
    ensures OneTurn("/*" + inside + "*/" + after, current) == Turn(|inside| + 4, " ", [], false)
  {
    hide OneTurn, CommentLength;
    var s := "/*" + inside + "*/" + after;
    assert s[2..] == inside + "*/" + after;
    BlockTurn(s, current);
  }

  lemma BlockTurn(s: string, current: string)
    requires |s| >= 2 && s[0] == '/' && s[1] == '*'
    ensures OneTurn(s, current) == Turn(2 + CommentLength(s[2..], 1), " ", [], false)
  {
    TwoInFront(s, '-', '-');
    TwoInFront(s, '/', '*');
  }

  lemma DollarTurn(s: string, current: string)
    requires TagLength(s) > 0 && !EndsInWord(current)
    ensures var tag := TagLength(s);
            var n := IndexOf(s[tag..], s[..tag]);
            OneTurn(s, current) == Turn(Least(2 * tag + n, |s|), "$$ $$", [s[tag..tag + n]], false)
  {
    TwoInFront(s, '-', '-');
    TwoInFront(s, '/', '*');
  }

  lemma LiteralIsOneTurn(escapes: bool, units: seq<Unit>, current: string, after: string)
    requires Reads(Literal(escapes, units), current, after)
    ensures IsTurn(Literal(escapes, units), current, after)
  {
    LiteralIsRead(escapes, units, after);
    hide TagLength, IndexOf, CommentLength, LiteralLength, Neutral, PrintUnits, UnitsRead;
    var inside := PrintUnits(units);
    var s := "'" + inside + "'" + after;
    assert s[0] == '\'' && s[1..] == inside + "'" + after && s[1..|inside| + 1] == inside;
    TwoInFront(s, '-', '-');
    TwoInFront(s, '/', '*');
  }

  lemma QuotedIsOneTurn(text: string, current: string, after: string)
    requires Reads(Quoted(text), current, after)
    ensures IsTurn(Quoted(text), current, after)
  {
    IndexOfChar(text, '"', "\"" + after);
    hide TagLength, IndexOf, CommentLength, LiteralLength;
    var s := "\"" + text + "\"" + after;
    assert s[0] == '"' && s[1..] == text + ("\"" + after) && s[..|text| + 2] == "\"" + text + "\"";
    TwoInFront(s, '-', '-');
    TwoInFront(s, '/', '*');
  }

  lemma DollarIsOneTurn(tag: string, body: string, current: string, after: string)
    requires Reads(Dollar(tag, body), current, after)
    ensures IsTurn(Dollar(tag, body), current, after)
  {
    var d := Delimiter(tag);
    TagIsRead(tag, body + d + after);
    DelimitedShape(d, body, after);
    IndexOfPrefix(body + d, d, after);
    hide OneTurn, TagLength, IndexOf, EndsInWord;
    DollarTurnPrinted(d, body, after, current);
  }

  lemma DollarTurnPrinted(d: string, body: string, after: string, current: string)
    requires d != "" && TagLength(d + (body + d + after)) == |d| && IndexOf(body + d + after, d) == |body|
        && !EndsInWord(current)
    ensures OneTurn(d + body + d + after, current) == Turn(2 * |d| + |body|, "$$ $$", [body], false)
  {
    hide OneTurn, TagLength, IndexOf, EndsInWord;
    DelimitedShape(d, body, after);
    DollarTurn(d + body + d + after, current);
  }

  lemma DelimitedShape(d: string, body: string, after: string)
    ensures var s := d + body + d + after;
            && s == d + (body + d + after) && s[|d|..] == body + d + after && s[..|d|] == d
            && s[|d|..|d| + |body|] == body
    ensures (body + d)[|body|..] == d
  {}

  /** Each piece is one pass of the loop. */
  lemma PieceIsOneTurn(p: Piece, current: string, after: string)
    requires Reads(p, current, after)
    ensures PrintPiece(p) != "" && IsTurn(p, current, after)
  {
    hide IsTurn, Reads;
    match p
    case Plain(c) => PlainIsOneTurn(c, current, after);
    case LineComment(text) => LineCommentIsOneTurn(text, current, after);
    case BlockComment(comment) => BlockCommentIsOneTurn(comment, current, after);
    case Literal(escapes, units) => LiteralIsOneTurn(escapes, units, current, after);
    case Quoted(text) => QuotedIsOneTurn(text, current, after);
    case Dollar(tag, body) => DollarIsOneTurn(tag, body, current, after);
  }

  /** Each piece in its place is one pass of the loop. */
  ghost predicate AllTurns(pieces: seq<Piece>, current: string, after: string) {
    pieces == [] ||
    (IsTurn(pieces[0], current, PrintPieces(pieces[1..]) + after)
      && AllTurns(pieces[1..], current + TextOf(pieces[0]), after))
  }

  ghost predicate GroupsTurn(groups: seq<seq<Piece>>)
    requires groups != []
  {
    if |groups| == 1 then AllTurns(groups[0], "", "")
    else AllTurns(groups[0], "", ";" + PrintGroups(groups[1..])) && GroupsTurn(groups[1..])
  }

  lemma {:induction false} ReadIsTurn(pieces: seq<Piece>, current: string, after: string)
    requires AllRead(pieces, current, after)
    ensures AllTurns(pieces, current, after)
    decreases |pieces|
  {
    hide IsTurn, Reads;
    if pieces != [] {
      PieceIsOneTurn(pieces[0], current, PrintPieces(pieces[1..]) + after);
      ReadIsTurn(pieces[1..], current + TextOf(pieces[0]), after);
    }
  }

  lemma {:induction false} GroupsReadTurn(groups: seq<seq<Piece>>)
    requires groups != [] && GroupsRead(groups)
    ensures GroupsTurn(groups)
    decreases |groups|
  {
    hide AllRead, AllTurns;
    if |groups| == 1 {
      ReadIsTurn(groups[0], "", "");
    } else {
      ReadIsTurn(groups[0], "", ";" + PrintGroups(groups[1..]));
      GroupsReadTurn(groups[1..]);
    }
  }

  /** A piece in front adds its text and its body. */
  lemma PieceIsLexed(p: Piece, current: string, after: string)
    requires IsTurn(p, current, after)
    ensures Lex(PrintPiece(p) + after, current) ==
              Together([], if p.Dollar? then [p.body] else [], Lex(after, current + TextOf(p)))
  {
    assert PrintPiece(p) != "";
    hide OneTurn, PrintPiece, TextOf;
    var s := PrintPiece(p) + after;
    assert s[|PrintPiece(p)|..] == after;
  }

  lemma {:induction false} PiecesAreLexed(pieces: seq<Piece>, current: string, after: string)
    requires AllTurns(pieces, current, after)
    ensures Lex(PrintPieces(pieces) + after, current) ==
        Together([], BodiesOf(pieces), Lex(after, current + TextOfAll(pieces)))
    decreases |pieces|
  {
    hide Lex, Together, IsTurn, TextOf, PrintPiece;
    if pieces == [] {
      assert PrintPieces(pieces) + after == after && current + TextOfAll(pieces) == current;
      NothingTogether(Lex(after, current));
    } else {
      var p, rest, next := pieces[0], PrintPieces(pieces[1..]), current + TextOf(pieces[0]);
      PieceIsLexed(p, current, rest + after);
      PiecesAreLexed(pieces[1..], next, after);
      assert PrintPieces(pieces) + after == PrintPiece(p) + (rest + after);
      assert next + TextOfAll(pieces[1..]) == current + TextOfAll(pieces);
      var found := if p.Dollar? then [p.body] else [];
      TogetherTwice([], found, [], BodiesOf(pieces[1..]), Lex(after, current + TextOfAll(pieces)));
      var none: seq<string> := [];
      assert none + [] == [];
    }
  }

  lemma NothingTogether(ahead: Split)
    ensures Together([], [], ahead) == ahead
  {}

  /**
   * The lexer undoes the printer: one statement per group that is not blank, comments read as
   * a space, string literals neutralised, and exactly the dollar-quoted bodies, all in order.
   */
  lemma PrintedGroupsComeBack(groups: seq<seq<Piece>>)
    requires groups != [] && GroupsRead(groups)
    ensures Lex(PrintGroups(groups), "") == Split(StatementsOf(groups), AllBodiesOf(groups))
  {
    GroupsReadTurn(groups);
    GroupsAreLexed(groups);
  }

  lemma {:induction false} GroupsAreLexed(groups: seq<seq<Piece>>)
    requires groups != [] && GroupsTurn(groups)
    ensures Lex(PrintGroups(groups), "") == Split(StatementsOf(groups), AllBodiesOf(groups))
    decreases |groups|
  {
    hide AllTurns, TextOfAll, BodiesOf, PrintPieces;
    var text, bodies := TextOfAll(groups[0]), BodiesOf(groups[0]);
    assert "" + text == text;
    if |groups| == 1 {
      PiecesAreLexed(groups[0], "", "");
      assert PrintPieces(groups[0]) + "" == PrintPieces(groups[0]);
      assert groups[1..] == [] && Flushed(text) + [] == Flushed(text) && bodies + [] == bodies;
      assert Lex("", text) == Split(Flushed(text), []);
    } else {
      var rest := PrintGroups(groups[1..]);
      PiecesAreLexed(groups[0], "", ";" + rest);
      GroupsAreLexed(groups[1..]);
      hide Lex, Flushed;
      SemicolonEnds(rest, text);
      assert PrintGroups(groups) == PrintPieces(groups[0]) + (";" + rest);
      TogetherTwice([], bodies, Flushed(text), [], Lex(rest, ""));
      assert [] + Flushed(text) == Flushed(text) && bodies + [] == bodies;
    }
  }

  lemma SemicolonEnds(rest: string, current: string)
    ensures Lex(";" + rest, current) == Together(Flushed(current), [], Lex(rest, ""))
  {
    var s := ";" + rest;
    assert s[1..] == rest && s[0] == ';';
    hide TagLength, IndexOf, CommentLength, LiteralLength, Flushed;
    TwoInFront(s, '-', '-');
    TwoInFront(s, '/', '*');
    assert OneTurn(s, current) == Turn(1, "", [], true);
  }

  /** Spaces, tabs and line breaks, and nothing else of ASCII, are space. */
  lemma SpacesOfAscii(c: char)
    requires c < '\U{80}'
    ensures IsSpace(c) <==> c == ' ' || c == '\t' || c == '\n' || c == '\r' || c == '\U{B}' || c == '\U{C}'
  {}

  /** Whatever is in between, only space makes no statement. */
  lemma {:induction false} SpaceGivesNoStatement(s: string, current: string)
    requires forall i :: 0 <= i < |s| ==> s[i] == ' ' || s[i] == '\t' || s[i] == '\n' || s[i] == '\r'
    requires forall i :: 0 <= i < |current| ==>
        current[i] == ' ' || current[i] == '\t' || current[i] == '\n' || current[i] == '\r'
    ensures Lex(s, current) == Split([], [])
    decreases |s|
  {
    if s == "" {
      forall i | 0 <= i < |current| ensures IsSpace(current[i]) { SpacesOfAscii(current[i]); }
    } else {
      assert s == [s[0]] + s[1..];
      PlainIsOneTurn(s[0], current, s[1..]);
      PieceIsLexed(Plain(s[0]), current, s[1..]);
      SpaceGivesNoStatement(s[1..], current + [s[0]]);
    }
  }

  /** And a text with a visible ASCII character is a statement. */
  lemma VisibleTextIsFlushed(current: string, i: nat)
    requires i < |current| && '!' <= current[i] <= '~'
    ensures Flushed(current) == [current]
  {
    SpacesOfAscii(current[i]);
  }

  /** Nothing in a literal can end a statement or close an argument list. */
  lemma {:induction false} NeutralIsHarmless(s: string)
    ensures |Neutral(s)| == |s|
    ensures forall i :: 0 <= i < |s| ==> Neutral(s)[i] != ';' && Neutral(s)[i] != '(' && Neutral(s)[i] != ')'
    ensures forall i :: 0 <= i < |s| ==>
              && (s[i] == ';' ==> Neutral(s)[i] == '\U{1}')
              && (s[i] == '(' ==> Neutral(s)[i] == '\U{2}') && (s[i] == ')' ==> Neutral(s)[i] == '\U{3}')
    ensures forall i :: 0 <= i < |s| && s[i] != ';' && s[i] != '(' && s[i] != ')' ==> Neutral(s)[i] == s[i]
  {
    if s != [] {
      NeutralIsHarmless(s[1..]);
      forall i | 0 < i < |s| ensures Neutral(s)[i] == Neutral(s[1..])[i - 1] && s[i] == s[1..][i - 1] {}
    }
  }
}
