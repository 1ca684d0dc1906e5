/**
 * Reading the argument list of a function (scripts/db-function-search-path-check.ts,
 * readParenthesised and countIdentityArguments), on text the lexer has already neutralised.
 */
module ArgumentList {
  import opened Common
  import SqlLexer

  // -------------------------------------------------------- the parenthesis

  function Level(s: string): int {
    if s == "" then 0 else
      Level(s[..|s| - 1]) + match s[|s| - 1] case '(' => 1 case ')' => -1 case _ => 0
  }

  /** The parenthesis opened at `open` closes at `close`. */
  ghost predicate Closes(text: string, open: nat, close: nat) {
    && open < close < |text| && text[open] == '('
    && Level(text[open..close + 1]) == 0 && forall i :: open < i <= close ==> Level(text[open..i]) > 0
  }

  datatype Parenthesised = Parenthesised(inner: string, end: nat)

  lemma LevelStep(text: string, open: nat, i: nat)
    requires open <= i < |text|
    ensures Level(text[open..i + 1]) == Level(text[open..i]) + match text[i] case '(' => 1 case ')' => -1 case _ => 0
    ensures Level(text[open..open]) == 0
  {
    assert text[open..i + 1][..i - open] == text[open..i];
  }

  /** The text inside the first parenthesis and its closing one; None exactly when there are no two such. */
  ghost predicate Reads(text: string, from: nat, r: Option<Parenthesised>) {
    match r
    case Some(p) =>
      exists open: nat, close: nat ::
        && from <= open && Closes(text, open, close) && (forall i :: from <= i < open ==> text[i] != '(')
        && p == Parenthesised(text[open + 1..close], close + 1)
    case None =>
      forall open: nat, close: nat ::
        from <= open < |text| && (forall i :: from <= i < open ==> text[i] != '(') ==> !Closes(text, open, close)
  }

  method ReadParenthesised(text: string, from: nat) returns (r: Option<Parenthesised>)
    ensures Reads(text, from, r)
  {
    var open := from;
    while open < |text| && text[open] != '('
      invariant from <= open && forall i :: from <= i < open && i < |text| ==> text[i] != '('
      decreases |text| - open
    {
      open := open + 1;
    }
    if open >= |text| {
      return None;
    }
    hide Level;
    var depth := 0;
    LevelStep(text, open, open);
    for i := open to |text|
      invariant depth == Level(text[open..i])
      invariant forall j :: open < j <= i ==> Level(text[open..j]) > 0
    {
      LevelStep(text, open, i);
      if text[i] == '(' {
        depth := depth + 1;
      } else if text[i] == ')' {
        depth := depth - 1;
        if depth == 0 {
          assert Closes(text, open, i);
          return Some(Parenthesised(text[open + 1..i], i + 1));
        }
      }
    }
    return None;
  }

  // ----------------------------------------------------------- the arguments

  /** The variables of the splitting loop. */
  datatype Scan = Scan(depth: int, quoted: bool, piece: string, pieces: seq<string>)

  function Step(s: Scan, c: char): Scan {
    var quoted := if c == '\'' then !s.quoted else s.quoted;
    if quoted then s.(quoted := true, piece := s.piece + [c]) else
    var depth := s.depth + (match c case '(' => 1 case ')' => -1 case _ => 0);
    if c == ',' && depth == 0 then Scan(depth, false, "", s.pieces + [s.piece])
      else Scan(depth, false, s.piece + [c], s.pieces)
  }

  function Run(s: Scan, text: string): Scan {
    if text == "" then s else Step(Run(s, text[..|text| - 1]), text[|text| - 1])
  }

  const Start := Scan(0, false, "", [])

  function Pieces(list: string): seq<string> {
    Run(Start, list).pieces + [Run(Start, list).piece]
  }

  /** The regular expression for an OUT argument. */
  predicate IsOut(piece: string)
    decreases |piece|
  {
    if piece != "" && SqlLexer.IsSpace(piece[0]) then IsOut(piece[1..])
    else
      && |piece| >= 3 && piece[0] in "oO" && piece[1] in "uU" && piece[2] in "tT"
      && (|piece| == 3 || !SqlLexer.IsWord(piece[3]))
  }

  function CountIn(pieces: seq<string>): nat {
    if pieces == [] then 0 else CountIn(pieces[..|pieces| - 1]) + if IsOut(pieces[|pieces| - 1]) then 0 else 1
  }

  function CountOf(list: string): nat {
    if SqlLexer.Blank(list) then 0 else CountIn(Pieces(list))
  }

  /** The letters OUT, in either case, as a word of its own behind n characters of space. */
  predicate OutAt(piece: string, n: nat) {
    && n + 3 <= |piece| && (forall i :: 0 <= i < n ==> SqlLexer.IsSpace(piece[i]))
    && (piece[n] == 'O' || piece[n] == 'o') && (piece[n + 1] == 'U' || piece[n + 1] == 'u')
    && (piece[n + 2] == 'T' || piece[n + 2] == 't')
    && (n + 3 == |piece| ||
        var c := piece[n + 3];
        !('a' <= c <= 'z' || 'A' <= c <= 'Z' || '0' <= c <= '9' || c == '_'))
  }

  /** An OUT argument, which is not part of a function's identity. */
  ghost predicate LeadsWithOut(piece: string) {
    exists n: nat :: OutAt(piece, n)
  }

  lemma {:induction false} OutExactly(piece: string)
    ensures IsOut(piece) <==> LeadsWithOut(piece)
    decreases |piece|
  {
    if piece != "" && SqlLexer.IsSpace(piece[0]) {
      var rest := piece[1..];
      OutExactly(rest);
      if n: nat :| OutAt(rest, n) {
        forall i | 0 <= i < n + 1 ensures SqlLexer.IsSpace(piece[i]) { if i > 0 { assert piece[i] == rest[i - 1]; } }
        assert OutAt(piece, n + 1);
      }
      if n: nat :| OutAt(piece, n) {
        assert n > 0;
        forall i | 0 <= i < n - 1 ensures SqlLexer.IsSpace(rest[i]) { assert rest[i] == piece[i + 1]; }
        assert OutAt(rest, n - 1);
      }
    } else {
      assert IsOut(piece) ==> OutAt(piece, 0);
    }
  }

  /** Which of the pieces count. */
  ghost function Counted(pieces: seq<string>): set<int> {
    set i | 0 <= i < |pieces| && !LeadsWithOut(pieces[i])
  }

  lemma {:induction false} CountIsExact(pieces: seq<string>)
    ensures CountIn(pieces) == |Counted(pieces)|
    decreases |pieces|
  {
    if pieces == [] {
      assert Counted(pieces) == {};
    } else {
      var n := |pieces| - 1;
      var front := pieces[..n];
      CountIsExact(front);
      OutExactly(pieces[n]);
      hide LeadsWithOut, IsOut;
      assert Counted(pieces) == Counted(front) + (if LeadsWithOut(pieces[n]) then {} else {n});
    }
  }

  /** How many arguments there are that are not OUT. */
  method CountIdentityArguments(list: string) returns (count: nat)
    ensures count == CountOf(list)
    ensures count == if forall i :: 0 <= i < |list| ==> SqlLexer.IsSpace(list[i]) then 0 else |Counted(Pieces(list))|
  {
    CountIsExact(Pieces(list));
    if SqlLexer.Blank(list) {
      return 0;
    }
    var depth, quoted, piece := 0, false, "";
    var pieces: seq<string> := [];
    for i := 0 to |list|
      invariant Run(Start, list[..i]) == Scan(depth, quoted, piece, pieces)
    {
      assert list[..i + 1][..i] == list[..i];
      var c := list[i];
      if c == '\'' {
        quoted := !quoted;
      }
      if quoted {
        piece := piece + [c];
        continue;
      }
      if c == '(' {
        depth := depth + 1;
      } else if c == ')' {
        depth := depth - 1;
      }
      if c == ',' && depth == 0 {
        pieces := pieces + [piece];
        piece := "";
      } else {
        piece := piece + [c];
      }
    }
    assert list[..|list|] == list;
    pieces := pieces + [piece];
    count := 0;
    for i := 0 to |pieces|
      invariant count == CountIn(pieces[..i])
    {
      assert pieces[..i + 1][..i] == pieces[..i];
      if !IsOut(pieces[i]) {
        count := count + 1;
      }
    }
    assert pieces[..|pieces|] == pieces;
  }

  // ---------------------------------------------------- when a list comes back

  function Join(texts: seq<string>): string {
    if texts == [] then "" else if |texts| == 1 then texts[0] else texts[0] + "," + Join(texts[1..])
  }

  function Quotes(text: string): nat {
    if text == "" then 0 else Quotes(text[..|text| - 1]) + if text[|text| - 1] == '\'' then 1 else 0
  }

  predicate Odd(n: nat) {
    n % 2 == 1
  }

  /** Parentheses still open, of those that an even number of apostrophes precedes. */
  function Nesting(text: string): int {
    if text == "" then 0 else
    var front := text[..|text| - 1];
    Nesting(front) + if Odd(Quotes(front)) then 0 else match text[|text| - 1] case '(' => 1 case ')' => -1 case _ => 0
  }

  /** A comma with no parenthesis open, and an even number of apostrophes before it. */
  predicate SplitsAt(text: string, p: nat) {
    p < |text| && text[p] == ',' && !Odd(Quotes(text[..p])) && Nesting(text[..p]) == 0
  }

  predicate OnePiece(text: string) {
    forall p: nat :: p < |text| ==> !SplitsAt(text, p)
  }

  /** A comma put behind this text separates. */
  predicate Ended(text: string) {
    !Odd(Quotes(text)) && Nesting(text) == 0
  }

  lemma {:induction false} RunConcat(s: Scan, a: string, b: string)
    ensures Run(s, a + b) == Run(Run(s, a), b)
    decreases |b|
  {
    if b == "" {
      assert a + b == a;
    } else {
      assert (a + b)[..|a + b| - 1] == a + b[..|b| - 1];
      RunConcat(s, a, b[..|b| - 1]);
    }
  }

  lemma RunOne(s: Scan, c: char)
    ensures Run(s, [c]) == Step(s, c)
  {
    assert [c][..0] == "";
    assert Run(s, "") == s;
  }

  /** What the loop knows of the text so far is what can be counted in it. */
  lemma {:induction false} ScanCounts(text: string)
    ensures Run(Start, text).quoted == Odd(Quotes(text)) && Run(Start, text).depth == Nesting(text)
    decreases |text|
  {
    if text != "" {
      ScanCounts(text[..|text| - 1]);
    }
  }

  lemma OnePieceFront(text: string, n: nat)
    requires n <= |text| && forall p: nat :: p < n ==> !SplitsAt(text, p)
    ensures OnePiece(text[..n])
  {
    forall p: nat | p < n ensures !SplitsAt(text[..n], p) {
      assert text[..n][..p] == text[..p] && !SplitsAt(text, p);
    }
  }

  lemma {:induction false} OnePieceIsRead(text: string)
    requires OnePiece(text)
    ensures Run(Start, text) == Scan(Nesting(text), Odd(Quotes(text)), text, [])
    decreases |text|
  {
    ScanCounts(text);
    if text != "" {
      var n := |text| - 1;
      var front := text[..n];
      OnePieceFront(text, n);
      OnePieceIsRead(front);
      SplitFree(text, n);
      StepKeepsPiece(Run(Start, front), text[n]);
      assert front + [text[n]] == text;
    }
    hide Quotes, Nesting, Odd, OnePiece, Step, SplitsAt;
  }

  lemma StepKeepsPiece(s: Scan, c: char)
    requires s.pieces == [] && !(c == ',' && !s.quoted && s.depth == 0)
    ensures Step(s, c).pieces == [] && Step(s, c).piece == s.piece + [c]
  {}

  lemma SplitFree(text: string, p: nat)
    requires OnePiece(text)
    ensures !SplitsAt(text, p)
  {}

  /** The first piece, which may still be growing. */
  function First(s: Scan): string {
    if s.pieces == [] then s.piece else s.pieces[0]
  }

  /** A finished first piece stays; a growing one only grows. */
  lemma {:induction false} FirstKept(s: Scan, text: string)
    ensures s.pieces != [] ==> Run(s, text).pieces != [] && First(Run(s, text)) == First(s)
    ensures |First(Run(s, text))| >= |First(s)|
    decreases |text|
  {
    if text != "" {
      FirstKept(s, text[..|text| - 1]);
    }
  }

  /** Pieces finished before make no difference to what follows. */
  lemma {:induction false} EarlierPieces(s: Scan, text: string, before: seq<string>)
    ensures Run(s.(pieces := before + s.pieces), text) == Run(s, text).(pieces := before + Run(s, text).pieces)
    decreases |text|
  {
    if text != "" {
      EarlierPieces(s, text[..|text| - 1], before);
      var r := Run(s, text[..|text| - 1]);
      assert before + (r.pieces + [r.piece]) == before + r.pieces + [r.piece];
    }
  }

  lemma FirstSplit(text: string) returns (p: nat)
    requires !OnePiece(text)
    ensures SplitsAt(text, p) && OnePiece(text[..p])
  {
    p := 0;
    while !SplitsAt(text, p)
      invariant p <= |text| && forall q: nat :: q < p ==> !SplitsAt(text, q)
      decreases |text| - p
    {
      p := p + 1;
    }
    OnePieceFront(text, p);
  }

  /** Text with a splitting comma inside is cut short, whatever follows it. */
  lemma CutShort(text: string, more: string)
    requires !OnePiece(text)
    ensures |First(Run(Start, text + more))| < |text|
  {
    var p := FirstSplit(text);
    SplitShape(text, p, more);
    hide Quotes, Nesting, OnePiece, Run, SplitsAt, Ended;
    var front, rest := text[..p], text[p + 1..] + more;
    CommaEnds(front);
    FirstKept(Run(Start, front + ","), rest);
    RunConcat(Start, front + ",", rest);
  }

  lemma SplitShape(text: string, p: nat, more: string)
    requires SplitsAt(text, p)
    ensures p < |text| && Ended(text[..p]) && text[..p] + "," + (text[p + 1..] + more) == text + more
  {}

  lemma CommaEnds(text: string)
    requires OnePiece(text) && Ended(text)
    ensures Run(Start, text + ",") == Scan(0, false, "", [text])
  {
    OnePieceIsRead(text);
    hide Quotes, Nesting, OnePiece;
    RunOne(Run(Start, text), ',');
    RunConcat(Start, text, ",");
  }

  lemma FirstPiece(text: string)
    ensures Pieces(text) != [] && Pieces(text)[0] == First(Run(Start, text))
  {}

  lemma OneTextExactly(text: string)
    ensures Pieces(text) == [text] <==> OnePiece(text)
  {
    FirstPiece(text);
    if OnePiece(text) {
      OnePieceIsRead(text);
    } else {
      CutShort(text, "");
      assert text + "" == text;
    }
  }

  /** The first of several texts is a piece exactly when no comma splits it and the comma behind it does. */
  lemma FirstTextExactly(a: string, rest: string)
    ensures OnePiece(a) && Ended(a) ==> Pieces(a + "," + rest) == [a] + Pieces(rest)
    ensures !(OnePiece(a) && Ended(a)) ==> Pieces(a + "," + rest)[0] != a
  {
    FirstPiece(a + "," + rest);
    hide Pieces, Run, OnePiece;
    if OnePiece(a) {
      OnePieceIsRead(a);
      var s := Run(Start, a);
      RunOne(s, ',');
      RunConcat(Start, a, ",");
      RunConcat(Start, a + ",", rest);
      if Ended(a) {
        CommaEnds(a);
        assert Scan(0, false, "", [a]) == Start.(pieces := [a] + Start.pieces);
        EarlierPieces(Start, rest, [a]);
        PiecesAre(rest);
        PiecesAre(a + "," + rest);
        assert [a] + (Run(Start, rest).pieces + [Run(Start, rest).piece]) ==
          [a] + Run(Start, rest).pieces + [Run(Start, rest).piece];
      } else {
        FirstKept(Step(s, ','), rest);
      }
    } else {
      CutShort(a, "," + rest);
      assert a + ("," + rest) == a + "," + rest;
    }
  }

  lemma PiecesAre(text: string)
    ensures Pieces(text) == Run(Start, text).pieces + [Run(Start, text).piece]
  {}

  /**
   * A list of any texts is split into those texts exactly when no comma inside a text is at
   * nesting 0 after an even number of apostrophes, and every text but the last ends so.
   */
  lemma {:induction false} ListComesBackExactly(texts: seq<string>)
    requires texts != []
    ensures Pieces(Join(texts)) == texts <==>
              && (forall i :: 0 <= i < |texts| ==> OnePiece(texts[i]))
              && (forall i :: 0 <= i < |texts| - 1 ==> Ended(texts[i]))
    decreases |texts|
  {
    hide Pieces, OnePiece, Ended;
    if |texts| == 1 {
      OneTextExactly(texts[0]);
      assert texts == [texts[0]];
    } else {
      var a, rest := texts[0], texts[1..];
      FirstTextExactly(a, Join(rest));
      ListComesBackExactly(rest);
      assert texts == [a] + rest;
      if OnePiece(a) && Ended(a) {
        assert Pieces(Join(texts)) == [a] + Pieces(Join(rest));
        assert Pieces(Join(texts)) == texts <==> Pieces(Join(rest)) == rest by {
          assert ([a] + Pieces(Join(rest)))[1..] == Pieces(Join(rest));
        }
        assert forall i :: 0 < i < |texts| ==> texts[i] == rest[i - 1];
        RestIsGood(texts);
      }
    }
  }

  lemma RestIsGood(texts: seq<string>)
    requires |texts| > 1 && OnePiece(texts[0]) && Ended(texts[0])
    ensures var rest := texts[1..];
            ((forall i :: 0 <= i < |texts| ==> OnePiece(texts[i])) &&
             (forall i :: 0 <= i < |texts| - 1 ==> Ended(texts[i]))) <==>
            ((forall i :: 0 <= i < |rest| ==> OnePiece(rest[i])) && forall i :: 0 <= i < |rest| - 1 ==> Ended(rest[i]))
  {
    var rest := texts[1..];
    hide OnePiece, Ended;
    forall i | 0 <= i < |rest| ensures rest[i] == texts[i + 1] {}
    if (forall i :: 0 <= i < |rest| ==> OnePiece(rest[i])) && forall i :: 0 <= i < |rest| - 1 ==> Ended(rest[i]) {
      forall i | 0 <= i < |texts| ensures OnePiece(texts[i]) { if i > 0 { assert OnePiece(rest[i - 1]); } }
      forall i | 0 <= i < |texts| - 1 ensures Ended(texts[i]) { if i > 0 { assert Ended(rest[i - 1]); } }
    }
  }

  // --------------------------------------------------------------- the printer

  /** One argument: characters, neutralised literals, quoted identifiers, and parenthesised parts. */
  datatype Arg =
    | End
    | Of(c: char, rest: Arg)
    | Text(units: seq<SqlLexer.Unit>, rest: Arg)
    | Ident(name: string, rest: Arg)
    | Parens(inner: Arg, rest: Arg)

  function Quote(units: seq<SqlLexer.Unit>): string {
    "'" + SqlLexer.Neutral(SqlLexer.PrintUnits(units)) + "'"
  }

  /** The lexer keeps a quoted identifier as it is. */
  function Identifier(name: string): string {
    "\"" + name + "\""
  }

  function Print(a: Arg): string {
    match a
    case End => ""
    case Of(c, rest) => [c] + Print(rest)
    case Text(units, rest) => Quote(units) + Print(rest)
    case Ident(name, rest) => Identifier(name) + Print(rest)
    case Parens(inner, rest) => "(" + Print(inner) + ")" + Print(rest)
  }

  function PrintEach(args: seq<Arg>): seq<string> {
    seq(|args|, i requires 0 <= i < |args| => Print(args[i]))
  }

  function PrintList(args: seq<Arg>): string {
    Join(PrintEach(args))
  }

  /** A literal whose quotes are all doubled ones. */
  predicate DoubledOnly(units: seq<SqlLexer.Unit>) {
    forall i :: 0 <= i < |units| ==>
      match units[i] case Raw(c) => c != '\'' case Doubled => true case Backslash(c) => c != '\''
  }

  predicate Tame(c: char, nested: bool) {
    c != '(' && c != ')' && c != '\'' && (c == ',' ==> nested)
  }

  /** Commas only inside parentheses, no escaped quote in a literal, and only tame characters in an identifier. */
  predicate Proper(a: Arg, nested: bool) {
    match a
    case End => true
    case Of(c, rest) => Tame(c, nested) && Proper(rest, nested)
    case Text(units, rest) => DoubledOnly(units) && Proper(rest, nested)
    case Ident(name, rest) => (forall i :: 0 <= i < |name| ==> Tame(name[i], nested)) && Proper(rest, nested)
    case Parens(inner, rest) => Proper(inner, true) && Proper(rest, nested)
  }

  /** The text all goes to the current piece. */
  ghost predicate Adds(s: Scan, text: string) {
    Run(s, text) == s.(piece := s.piece + text)
  }

  lemma NothingAdds(s: Scan)
    ensures Adds(s, "")
  {
    assert s.piece + "" == s.piece;
  }

  lemma BothAdd(s: Scan, a: string, b: string)
    requires Adds(s, a) && Adds(s.(piece := s.piece + a), b)
    ensures Adds(s, a + b)
  {
    RunConcat(s, a, b);
    assert s.piece + a + b == s.piece + (a + b);
  }

  lemma CharAdds(s: Scan, c: char)
    requires c != '\'' && (s.quoted || (c != '(' && c != ')' && (c == ',' ==> s.depth != 0)))
    ensures Adds(s, [c])
  {
    RunOne(s, c);
  }

  /** A character that changes the state, text in the new state, and a character that changes it back. */
  lemma WrappedAdds(s: Scan, t: Scan, open: char, text: string, close: char)
    requires Step(s, open) == t.(piece := s.piece + [open]) && t == t.(piece := s.piece + [open])
    requires Adds(t, text)
    requires Step(t.(piece := t.piece + text), close) == s.(piece := t.piece + text + [close])
    ensures Adds(s, [open] + text + [close])
  {
    RunOne(s, open);
    RunConcat(s, [open], text);
    RunOne(t.(piece := t.piece + text), close);
    RunConcat(s, [open] + text, [close]);
    assert t.piece + text + [close] == s.piece + ([open] + text + [close]);
  }

  /** A doubled quote inside a literal leaves it and comes back. */
  lemma DoubledAdds(s: Scan)
    requires s.quoted
    ensures Adds(s, "''")
  {
    WrappedAdds(s, Step(s, '\''), '\'', "", '\'');
    assert "''" == "'" + "" + "'";
  }

  /** Inside a literal, quotes come in pairs and everything else is swallowed. */
  lemma {:induction false} UnitsAdd(s: Scan, units: seq<SqlLexer.Unit>)
    requires s.quoted && DoubledOnly(units)
    ensures Adds(s, SqlLexer.Neutral(SqlLexer.PrintUnits(units)))
    decreases |units|
  {
    hide Adds;
    if units == [] {
      NothingAdds(s);
    } else {
      var front := UnitFront(units);
      UnitAdds(s, units[0], front);
      UnitsAdd(s.(piece := s.piece + front), units[1..]);
      BothAdd(s, front, SqlLexer.Neutral(SqlLexer.PrintUnits(units[1..])));
    }
  }

  lemma UnitFront(units: seq<SqlLexer.Unit>) returns (front: string)
    requires units != [] && DoubledOnly(units)
    ensures SqlLexer.Neutral(SqlLexer.PrintUnits(units)) == front + SqlLexer.Neutral(SqlLexer.PrintUnits(units[1..]))
    ensures if units[0].Doubled? then front == "''" else 1 <= |front| <= 2 && '\'' !in front
  {
    var rest := SqlLexer.PrintUnits(units[1..]);
    var printed := SqlLexer.PrintUnits(units);
    match units[0]
    case Raw(c) =>
      assert printed[1..] == rest;
      front := [SqlLexer.Neutral(printed)[0]];
    case Doubled =>
      assert printed[1..][1..] == rest;
      front := "''";
    case Backslash(c) =>
      assert printed[1..][1..] == rest;
      front := [SqlLexer.Neutral(printed)[0], SqlLexer.Neutral(printed)[1]];
  }

  lemma UnitAdds(s: Scan, unit: SqlLexer.Unit, front: string)
    requires s.quoted && if unit.Doubled? then front == "''" else 1 <= |front| <= 2 && '\'' !in front
    ensures Adds(s, front)
  {
    hide Adds;
    if unit.Doubled? {
      DoubledAdds(s);
    } else {
      CharAdds(s, front[0]);
      if |front| == 2 {
        CharAdds(s.(piece := s.piece + [front[0]]), front[1]);
        BothAdd(s, [front[0]], [front[1]]);
        assert front == [front[0]] + [front[1]];
      } else {
        assert front == [front[0]];
      }
    }
  }

  lemma QuoteAdds(s: Scan, units: seq<SqlLexer.Unit>)
    requires !s.quoted && DoubledOnly(units)
    ensures Adds(s, Quote(units))
  {
    hide Adds;
    var t := Step(s, '\'');
    UnitsAdd(t, units);
    WrappedAdds(s, t, '\'', SqlLexer.Neutral(SqlLexer.PrintUnits(units)), '\'');
  }

  lemma ParensAdd(s: Scan, text: string)
    requires !s.quoted && Adds(Step(s, '('), text)
    ensures Adds(s, "(" + text + ")")
  {
    hide Adds;
    WrappedAdds(s, Step(s, '('), '(', text, ')');
  }

  lemma {:induction false} TameAdds(s: Scan, text: string)
    requires !s.quoted && s.depth >= 0 && forall i :: 0 <= i < |text| ==> Tame(text[i], s.depth > 0)
    ensures Adds(s, text)
    decreases |text|
  {
    hide Adds;
    if text == "" {
      NothingAdds(s);
    } else {
      CharAdds(s, text[0]);
      TameAdds(s.(piece := s.piece + [text[0]]), text[1..]);
      BothAdd(s, [text[0]], text[1..]);
      assert [text[0]] + text[1..] == text;
    }
  }

  /** A proper argument is one piece. */
  lemma {:induction false} ArgAdds(s: Scan, a: Arg)
    requires !s.quoted && s.depth >= 0 && Proper(a, s.depth > 0)
    ensures Adds(s, Print(a))
    decreases a
  {
    hide Adds;
    match a {
      case End => NothingAdds(s);
      case Of(c, rest) =>
        CharAdds(s, c);
        ArgAdds(s.(piece := s.piece + [c]), rest);
        BothAdd(s, [c], Print(rest));
      case Text(units, rest) =>
        QuoteAdds(s, units);
        ArgAdds(s.(piece := s.piece + Quote(units)), rest);
        BothAdd(s, Quote(units), Print(rest));
      case Ident(name, rest) =>
        TameAdds(s, Identifier(name));
        ArgAdds(s.(piece := s.piece + Identifier(name)), rest);
        BothAdd(s, Identifier(name), Print(rest));
      case Parens(inner, rest) =>
        var part := "(" + Print(inner) + ")";
        ArgAdds(Step(s, '('), inner);
        ParensAdd(s, Print(inner));
        ArgAdds(s.(piece := s.piece + part), rest);
        BothAdd(s, part, Print(rest));
    }
  }

  lemma ProperIsOnePiece(a: Arg)
    requires Proper(a, false)
    ensures OnePiece(Print(a)) && Ended(Print(a))
  {
    var text := Print(a);
    ArgAdds(Start, a);
    ScanCounts(text);
    assert "" + text == text;
    if !OnePiece(text) {
      CutShort(text, "");
      assert text + "" == text;
    }
  }

  /** Commas in parentheses and in literals do not split: the pieces are the arguments. */
  lemma PrintedArgumentsComeBack(args: seq<Arg>)
    requires args != [] && forall i :: 0 <= i < |args| ==> Proper(args[i], false)
    ensures Pieces(PrintList(args)) == PrintEach(args)
  {
    hide OnePiece, Ended, Print, Proper;
    forall i | 0 <= i < |args| ensures OnePiece(PrintEach(args)[i]) && Ended(PrintEach(args)[i]) {
      ProperIsOnePiece(args[i]);
    }
    ListComesBackExactly(PrintEach(args));
  }

  // ---------------------------------------------- from the parenthesis to the count

  /** Parentheses balance, whatever else the text holds. */
  ghost predicate Enclosed(text: string) {
    Level(text) == 0 && forall i :: 0 <= i <= |text| ==> Level(text[..i]) >= 0
  }

  lemma {:induction false} LevelConcat(a: string, b: string)
    ensures Level(a + b) == Level(a) + Level(b)
    decreases |b|
  {
    if b == "" {
      assert a + b == a;
    } else {
      assert (a + b)[..|a + b| - 1] == a + b[..|b| - 1];
      LevelConcat(a, b[..|b| - 1]);
    }
  }

  lemma EnclosedConcat(a: string, b: string)
    requires Enclosed(a) && Enclosed(b)
    ensures Enclosed(a + b)
  {
    LevelConcat(a, b);
    forall i | 0 <= i <= |a + b| ensures Level((a + b)[..i]) >= 0 {
      if i <= |a| {
        assert (a + b)[..i] == a[..i];
      } else {
        assert (a + b)[..i] == a + b[..i - |a|];
        LevelConcat(a, b[..i - |a|]);
      }
    }
  }

  lemma LevelOfParen()
    ensures Level("(") == 1 && Level(")") == -1 && Level("") == 0
  {
    assert "("[..0] == "" && ")"[..0] == "";
  }

  lemma EnclosedParens(a: string)
    requires Enclosed(a)
    ensures Enclosed("(" + a + ")")
  {
    var text := "(" + a + ")";
    LevelOfParen();
    LevelConcat("(" + a, ")");
    LevelConcat("(", a);
    forall i | 0 <= i <= |text| ensures Level(text[..i]) >= 0 {
      if i == 0 {
        assert text[..i] == "";
      } else if i <= |a| + 1 {
        assert text[..i] == "(" + a[..i - 1];
        LevelConcat("(", a[..i - 1]);
      } else {
        assert text[..i] == text;
      }
    }
  }

  lemma {:induction false} NoParensEnclosed(a: string)
    requires forall i :: 0 <= i < |a| ==> a[i] != '(' && a[i] != ')'
    ensures Enclosed(a)
    decreases |a|
  {
    if a != "" {
      var front := a[..|a| - 1];
      NoParensEnclosed(front);
      forall i | 0 <= i <= |a| ensures Level(a[..i]) >= 0 {
        if i < |a| { assert a[..i] == front[..i]; } else { assert a[..i] == a; }
      }
    }
  }

  lemma {:induction false} ProperIsEnclosed(a: Arg, nested: bool)
    requires Proper(a, nested)
    ensures Enclosed(Print(a))
    decreases a
  {
    hide Enclosed;
    match a {
      case End => NoParensEnclosed("");
      case Of(c, rest) =>
        ProperIsEnclosed(rest, nested);
        NoParensEnclosed([c]);
        EnclosedConcat([c], Print(rest));
      case Text(units, rest) =>
        ProperIsEnclosed(rest, nested);
        SqlLexer.NeutralIsHarmless(SqlLexer.PrintUnits(units));
        NoParensEnclosed(Quote(units));
        EnclosedConcat(Quote(units), Print(rest));
      case Ident(name, rest) =>
        ProperIsEnclosed(rest, nested);
        NoParensEnclosed(Identifier(name));
        EnclosedConcat(Identifier(name), Print(rest));
      case Parens(inner, rest) =>
        ProperIsEnclosed(inner, true);
        ProperIsEnclosed(rest, nested);
        EnclosedParens(Print(inner));
        EnclosedConcat("(" + Print(inner) + ")", Print(rest));
    }
  }

  lemma {:induction false} JoinIsEnclosed(texts: seq<string>)
    requires forall i :: 0 <= i < |texts| ==> Enclosed(texts[i])
    ensures Enclosed(Join(texts))
    decreases |texts|
  {
    hide Enclosed;
    NoParensEnclosed("");
    NoParensEnclosed(",");
    if |texts| > 1 {
      JoinIsEnclosed(texts[1..]);
      EnclosedConcat(texts[0], ",");
      EnclosedConcat(texts[0] + ",", Join(texts[1..]));
    }
  }

  lemma Middle(before: string, list: string, after: string, i: nat)
    requires i <= |list|
    ensures var text, open := before + "(" + list + ")" + after, |before|;
            text[open..open + 1 + i] == "(" + list[..i] && text[open..open + 2 + |list|] == "(" + list + ")"
    ensures list[..|list|] == list
  {
    var inside := "(" + list + ")";
    assert before + "(" + list + ")" + after == before + inside + after;
    assert (before + inside + after)[|before|..|before| + |inside|] == inside;
    assert (before + inside + after)[|before|..|before| + 1 + i] == inside[..1 + i];
    assert inside[..1 + i] == "(" + list[..i];
  }

  /** The parenthesis in front of a list closes behind it exactly when the list is balanced. */
  lemma ClosesExactly(before: string, list: string, after: string)
    ensures Closes(before + "(" + list + ")" + after, |before|, |before| + 1 + |list|) <==> Enclosed(list)
  {
    var text, open, close := before + "(" + list + ")" + after, |before|, |before| + 1 + |list|;
    LevelOfParen();
    forall i | 0 <= i <= |list| ensures Level(text[open..open + 1 + i]) == 1 + Level(list[..i]) {
      Middle(before, list, after, i);
      LevelConcat("(", list[..i]);
    }
    Middle(before, list, after, 0);
    LevelConcat("(" + list, ")");
    LevelConcat("(", list);
    hide Level;
    if Enclosed(list) {
      forall i | open < i <= close ensures Level(text[open..i]) > 0 {
        assert Level(text[open..open + 1 + (i - open - 1)]) == 1 + Level(list[..i - open - 1]);
      }
    }
    if Closes(text, open, close) {
      forall i | 0 <= i <= |list| ensures Level(list[..i]) >= 0 {
        assert Level(text[open..open + 1 + i]) > 0;
      }
    }
  }

  lemma ClosesOnce(text: string, open: nat, close: nat, other: nat)
    requires Closes(text, open, close) && Closes(text, open, other)
    ensures close == other
  {
    var first := if close < other then close else other;
    assert Level(text[open..first + 1]) == 0;
  }

  lemma ReadAt(text: string, from: nat, p: Parenthesised) returns (open: nat, close: nat)
    requires Reads(text, from, Some(p))
    ensures from <= open < close < |text| && text[open] == '(' && (forall i :: from <= i < open ==> text[i] != '(')
    ensures Closes(text, open, close) && p == Parenthesised(text[open + 1..close], close + 1)
  {
    open, close :|
      && from <= open && Closes(text, open, close) && (forall i :: from <= i < open ==> text[i] != '(')
      && p == Parenthesised(text[open + 1..close], close + 1);
  }

  lemma SomethingIsRead(text: string, from: nat, r: Option<Parenthesised>, open: nat, close: nat)
    requires Reads(text, from, r) && from <= open && Closes(text, open, close)
    requires forall i :: from <= i < open ==> text[i] != '('
    ensures r.Some?
  {}

  lemma ListShape(before: string, list: string, after: string)
    ensures var text, at := before + "(" + list + ")" + after, |before|;
            text[at] == '(' && text[at + 1..at + 1 + |list|] == list && forall i :: 0 <= i < at ==> text[i] == before[i]
  {}

  /** Of a statement with a list in its first parenthesis, the list is read exactly when it is balanced. */
  lemma ListIsReadExactly(before: string, list: string, after: string, from: nat, r: Option<Parenthesised>)
    requires from <= |before| && (forall i :: from <= i < |before| ==> before[i] != '(')
    requires Reads(before + "(" + list + ")" + after, from, r)
    ensures r == Some(Parenthesised(list, |before| + |list| + 2)) <==> Enclosed(list)
  {
    var text, at, end := before + "(" + list + ")" + after, |before|, |before| + 1 + |list|;
    ClosesExactly(before, list, after);
    ListShape(before, list, after);
    hide Level, Enclosed, Closes;
    hide Reads;
    if r.Some? {
      var open, close := ReadAt(text, from, r.value);
      assert open == at;
      if Closes(text, at, end) { ClosesOnce(text, at, close, end); }
    }
    if Closes(text, at, end) { SomethingIsRead(text, from, r, at, end); }
  }

  /** The arguments that are not OUT. */
  ghost function NotOut(args: seq<Arg>): set<int> {
    set i | 0 <= i < |args| && !LeadsWithOut(Print(args[i]))
  }

  /**
   * From the statement to the arity: of any list of proper arguments in parentheses, the two
   * functions together count the arguments that are not OUT.
   */
  lemma ArityIsCounted(before: string, args: seq<Arg>, after: string, from: nat, r: Option<Parenthesised>)
    requires forall i :: 0 <= i < |args| ==> Proper(args[i], false)
    requires |args| == 1 ==> !SqlLexer.Blank(Print(args[0]))
    requires from <= |before| && (forall i :: from <= i < |before| ==> before[i] != '(')
    requires Reads(before + "(" + PrintList(args) + ")" + after, from, r)
    ensures r.Some? && CountOf(r.value.inner) == |NotOut(args)|
  {
    hide Enclosed, Print, Proper, Reads, Pieces, LeadsWithOut;
    CountIsExact(PrintEach(args));
    assert Counted(PrintEach(args)) == NotOut(args);
    var texts, list := PrintEach(args), PrintList(args);
    forall i | 0 <= i < |args| ensures Enclosed(texts[i]) { ProperIsEnclosed(args[i], false); }
    JoinIsEnclosed(texts);
    ListIsReadExactly(before, list, after, from, r);
    if args == [] {
      assert texts == [] && list == "" && CountIn(texts) == 0 && SqlLexer.Blank(list);
    } else {
      PrintedArgumentsComeBack(args);
      ListIsNotBlank(texts);
    }
  }

  lemma ListIsNotBlank(texts: seq<string>)
    requires texts != [] && (|texts| == 1 ==> !SqlLexer.Blank(texts[0]))
    ensures !SqlLexer.Blank(Join(texts))
  {
    if |texts| > 1 {
      var list := Join(texts);
      assert list[|texts[0]|] == ',' && !SqlLexer.IsSpace(',');
    }
  }

  // -------------------------------------------------- which arguments mislead

  /** Backslash-escaped quotes, as an E-string may have. */
  function EscapedQuotes(units: seq<SqlLexer.Unit>): nat {
    if units == [] then 0 else (if units[0] == SqlLexer.Backslash('\'') then 1 else 0) + EscapedQuotes(units[1..])
  }

  predicate NoSeparators(text: string) {
    forall i :: 0 <= i < |text| ==> text[i] != ',' && text[i] != '(' && text[i] != ')'
  }

  lemma {:induction false} QuotesConcat(a: string, b: string)
    ensures Quotes(a + b) == Quotes(a) + Quotes(b)
    decreases |b|
  {
    if b == "" {
      assert a + b == a;
    } else {
      assert (a + b)[..|a + b| - 1] == a + b[..|b| - 1];
      QuotesConcat(a, b[..|b| - 1]);
    }
  }

  lemma QuotesOfTwo(a: char, b: char)
    ensures Quotes([a]) == (if a == '\'' then 1 else 0)
    ensures Quotes([a, b]) == Quotes([a]) + Quotes([b])
  {
    assert [a][..0] == "" && [a, b] == [a] + [b];
    QuotesConcat([a], [b]);
  }

  predicate QuotesEscapedOrDoubled(units: seq<SqlLexer.Unit>) {
    forall i :: 0 <= i < |units| ==> units[i] != SqlLexer.Raw('\'')
  }

  /** Doubled quotes count twice, so only the escaped ones decide the parity. */
  lemma {:induction false} ParityOfUnits(units: seq<SqlLexer.Unit>)
    requires QuotesEscapedOrDoubled(units)
    ensures Odd(Quotes(SqlLexer.Neutral(SqlLexer.PrintUnits(units)))) == Odd(EscapedQuotes(units))
  {
    hide Quotes, EscapedQuotes, Odd, SqlLexer.Neutral, SqlLexer.PrintUnits;
    if units == [] {
      NoUnits();
    } else {
      EscapedStep(units);
      ParityOfUnits(units[1..]);
      var front := AnyUnitFront(units);
      var rest := SqlLexer.Neutral(SqlLexer.PrintUnits(units[1..]));
      QuotesConcat(front, rest);
      OddSum(Quotes(front), Quotes(rest));
    }
  }

  lemma OddSum(a: nat, b: nat)
    ensures Odd(a + b) == (Odd(a) != Odd(b))
  {}

  lemma OddOne()
    ensures Odd(1) && !Odd(0)
  {}

  lemma NoUnits()
    ensures EscapedQuotes([]) == Quotes(SqlLexer.Neutral(SqlLexer.PrintUnits([]))) == 0
  {
    assert SqlLexer.PrintUnits([]) == "" && SqlLexer.Neutral("") == "";
  }

  lemma EscapedStep(units: seq<SqlLexer.Unit>)
    requires units != []
    ensures Odd(EscapedQuotes(units)) == ((units[0] == SqlLexer.Backslash('\'')) != Odd(EscapedQuotes(units[1..])))
  {
    hide Odd;
    var one := if units[0] == SqlLexer.Backslash('\'') then 1 else 0;
    OddOne();
    OddSum(one, EscapedQuotes(units[1..]));
  }

  lemma AnyUnitFront(units: seq<SqlLexer.Unit>) returns (front: string)
    requires units != [] && units[0] != SqlLexer.Raw('\'')
    ensures SqlLexer.Neutral(SqlLexer.PrintUnits(units)) == front + SqlLexer.Neutral(SqlLexer.PrintUnits(units[1..]))
    ensures Odd(Quotes(front)) == (units[0] == SqlLexer.Backslash('\''))
  {
    hide Quotes;
    var rest := SqlLexer.PrintUnits(units[1..]);
    var printed := SqlLexer.PrintUnits(units);
    var text := SqlLexer.Neutral(printed);
    SqlLexer.NeutralIsHarmless(printed);
    match units[0] {
      case Raw(c) =>
        assert printed[1..] == rest;
        front := [text[0]];
        QuotesOfTwo(text[0], ' ');
      case Doubled =>
        assert printed[1..][1..] == rest;
        front := [text[0], text[1]];
        QuotesOfTwo(text[0], text[1]);
        QuotesOfTwo(text[1], ' ');
      case Backslash(c) =>
        assert printed[1..][1..] == rest;
        front := [text[0], text[1]];
        QuotesOfTwo(text[0], text[1]);
        QuotesOfTwo(text[1], ' ');
    }
  }

  lemma QuotesOfQuote(units: seq<SqlLexer.Unit>)
    requires QuotesEscapedOrDoubled(units)
    ensures Odd(Quotes(Quote(units))) == Odd(EscapedQuotes(units))
  {
    var inside := SqlLexer.Neutral(SqlLexer.PrintUnits(units));
    ParityOfUnits(units);
    hide Quotes, EscapedQuotes;
    QuotesConcat("'" + inside, "'");
    QuotesConcat("'", inside);
    QuotesOfTwo('\'', ' ');
  }

  /** Apostrophes that are not doubled: escaped ones in literals, and those in identifiers. */
  function Apostrophes(a: Arg): nat {
    match a
    case End => 0
    case Of(c, rest) => (if c == '\'' then 1 else 0) + Apostrophes(rest)
    case Text(units, rest) => EscapedQuotes(units) + Apostrophes(rest)
    case Ident(name, rest) => Quotes(name) + Apostrophes(rest)
    case Parens(inner, rest) => Apostrophes(inner) + Apostrophes(rest)
  }

  predicate WellQuoted(a: Arg) {
    match a
    case End => true
    case Of(_, rest) => WellQuoted(rest)
    case Text(units, rest) => QuotesEscapedOrDoubled(units) && WellQuoted(rest)
    case Ident(_, rest) => WellQuoted(rest)
    case Parens(inner, rest) => WellQuoted(inner) && WellQuoted(rest)
  }

  lemma QuotesOfIdentifier(name: string)
    ensures Quotes(Identifier(name)) == Quotes(name)
  {
    QuotesConcat("\"" + name, "\"");
    QuotesConcat("\"", name);
    QuotesOfTwo('"', ' ');
  }

  lemma {:induction false} ParityOfArg(a: Arg)
    requires WellQuoted(a)
    ensures Odd(Quotes(Print(a))) == Odd(Apostrophes(a))
    decreases a
  {
    hide Quotes, Odd;
    match a {
      case End => assert Quotes("") == 0 by { QuotesOfNothing(); }
      case Of(c, rest) =>
        ParityOfArg(rest);
        QuotesOfTwo(c, ' ');
        QuotesConcat([c], Print(rest));
        OddSum(Quotes([c]), Quotes(Print(rest)));
        OddSum(Quotes([c]), Apostrophes(rest));
      case Text(units, rest) =>
        ParityOfArg(rest);
        QuotesOfQuote(units);
        QuotesConcat(Quote(units), Print(rest));
        OddSum(Quotes(Quote(units)), Quotes(Print(rest)));
        OddSum(EscapedQuotes(units), Apostrophes(rest));
      case Ident(name, rest) =>
        ParityOfArg(rest);
        QuotesOfIdentifier(name);
        QuotesConcat(Identifier(name), Print(rest));
        OddSum(Quotes(name), Quotes(Print(rest)));
        OddSum(Quotes(name), Apostrophes(rest));
      case Parens(inner, rest) =>
        ParityOfArg(inner);
        ParityOfArg(rest);
        QuotesOfParens(Print(inner));
        QuotesConcat("(" + Print(inner) + ")", Print(rest));
        OddSum(Quotes(Print(inner)), Quotes(Print(rest)));
        OddSum(Apostrophes(inner), Apostrophes(rest));
    }
  }

  lemma QuotesOfNothing()
    ensures Quotes("") == 0
  {}

  lemma QuotesOfParens(text: string)
    ensures Quotes("(" + text + ")") == Quotes(text)
  {
    QuotesConcat("(" + text, ")");
    QuotesConcat("(", text);
    QuotesOfTwo('(', ' ');
    QuotesOfTwo(')', ' ');
  }

  lemma {:induction false} NoSeparatorsNest(text: string)
    requires NoSeparators(text)
    ensures Nesting(text) == 0 && OnePiece(text)
    decreases |text|
  {
    if text != "" {
      NoSeparatorsNest(text[..|text| - 1]);
    }
  }

  /**
   * The loop knows doubled quotes but no escapes and no identifiers.  Of arguments without
   * commas and parentheses the list comes back exactly when each but the last holds an even
   * number of escaped quotes and of apostrophes in identifiers, together.
   */
  lemma SeparatedExactlyWhenEven(args: seq<Arg>)
    requires args != [] && forall i :: 0 <= i < |args| ==> WellQuoted(args[i]) && NoSeparators(Print(args[i]))
    ensures Pieces(PrintList(args)) == PrintEach(args) <==>
            forall i :: 0 <= i < |args| - 1 ==> !Odd(Apostrophes(args[i]))
  {
    var texts := PrintEach(args);
    forall i | 0 <= i < |args| ensures OnePiece(texts[i]) && (Ended(texts[i]) <==> !Odd(Apostrophes(args[i]))) {
      NoSeparatorsNest(texts[i]);
      ParityOfArg(args[i]);
    }
    hide OnePiece, Ended, Odd, Apostrophes, Print;
    ListComesBackExactly(texts);
    if forall i :: 0 <= i < |texts| - 1 ==> Ended(texts[i]) {
      forall i | 0 <= i < |args| - 1 ensures !Odd(Apostrophes(args[i])) { assert Ended(texts[i]); }
    }
  }

  /** A comma splits wherever no apostrophe and no parenthesis comes before it, in a quoted identifier too. */
  lemma CommaInIdentifierSplits(a: string, b: string)
    requires NoSeparators(a) && '\'' !in a
    ensures Pieces(Identifier(a + "," + b)) != [Identifier(a + "," + b)]
  {
    var text, front := Identifier(a + "," + b), "\"" + a;
    var p := |front|;
    assert text[..p] == front && text[p] == ',';
    NoSeparatorsNest(front);
    NoQuotes(front);
    assert SplitsAt(text, p);
    OneTextExactly(text);
  }

  lemma {:induction false} NoQuotes(text: string)
    requires '\'' !in text
    ensures Quotes(text) == 0
    decreases |text|
  {
    if text != "" { NoQuotes(text[..|text| - 1]); }
  }

  /** An even number is not enough where a comma stands between two escaped quotes: `E'\',\''`. */
  lemma CommaBetweenEscapesSplits()
    ensures Pieces("'\\',\\''") != ["'\\',\\''"]
  {
    var text := "'\\',\\''";
    var front := ['\'', '\\', '\''];
    assert text[..3] == front && text[3] == ',';
    QuotesOfTwo('\'', '\\');
    QuotesConcat(['\'', '\\'], ['\'']);
    QuotesOfTwo('\'', ' ');
    assert ['\'', '\\'] + ['\''] == front;
    NoSeparatorsNest(front);
    assert Quotes(front) == 2 && SplitsAt(text, 3);
    OneTextExactly(text);
  }

  /** A closing parenthesis in a quoted identifier closes the list. */
  lemma ParenInIdentifierCloses(a: string, b: string)
    requires '(' !in a && ')' !in a
    ensures !Enclosed(Identifier(a + ")" + b))
  {
    var text, front := Identifier(a + ")" + b), "\"" + a;
    NoParensEnclosed(front);
    LevelOfParen();
    LevelConcat(front, ")");
    assert text[..|front| + 1] == front + ")";
  }
}
