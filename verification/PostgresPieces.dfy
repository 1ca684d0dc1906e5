/**
 * What pieces of SQL mean in PostgreSQL (manual, sections 4.1.1, 4.1.2 and 4.1.5), and exactly
 * where the gate's lexer (scripts/db-function-search-path-check.ts, splitStatements) agrees.
 * Identifiers there have letters beyond ASCII; the lexer's `\w` has not, and it looks one
 * character back where PostgreSQL knows the token it is in.
 */
module PostgresPieces {
  import opened SqlLexer

  // ------------------------------------------------------------------- tokens

  predicate IsDigit(c: char) {
    '0' <= c <= '9'
  }

  predicate StartsName(c: char) {
    'a' <= c <= 'z' || 'A' <= c <= 'Z' || c == '_' || c >= '\U{80}'
  }

  /** The token the text ends in, of those that go on over letters, digits or dollar signs. */
  datatype Token = Between | InName | InNumber

  function TokenAt(s: string): Token {
    if s == "" then Between else
    var token, c := TokenAt(s[..|s| - 1]), s[|s| - 1];
    if token == InName && (StartsName(c) || IsDigit(c) || c == '$') then InName
    else if token == InNumber && (StartsName(c) || IsDigit(c)) then InNumber
    else if StartsName(c) then InName
    else if IsDigit(c) then InNumber
    else Between
  }

  /** A token of its own, the letter E, stands in front of the quote. */
  predicate OpensEscapes(current: string) {
    current != "" && current[|current| - 1] in "eE" && TokenAt(current[..|current| - 1]) == Between
  }

  predicate IsTag(tag: string) {
    tag == "" || (StartsName(tag[0]) && forall i :: 0 <= i < |tag| ==> StartsName(tag[i]) || IsDigit(tag[i]))
  }

  predicate OpensDollar(s: string) {
    exists n :: 0 <= n < |s| && IsTag(s[..n]) && s[n] == '$'
  }

  /** In PostgreSQL the piece is what it is called, after the statement text `current` and before `after`. */
  predicate Means(p: Piece, current: string, after: string) {
    match p
    case Plain(c) =>
      && c != '\'' && c != '"' && c != ';' && !(c == '-' && Front(after, '-')) && !(c == '/' && Front(after, '*'))
      && (c == '$' ==> TokenAt(current) == InName || !OpensDollar(after))
    case LineComment(text) => '\n' !in text && '\r' !in text && (after == "" || after[0] == '\n' || after[0] == '\r')
    case BlockComment(comment) => CommentReads(comment, "*/")
    case Literal(escapes, units) => escapes == OpensEscapes(current) && UnitsRead(escapes, units) && !Front(after, '\'')
    case Quoted(text) => '"' !in text
    case Dollar(tag, body) =>
      IsTag(tag) && TokenAt(current) != InName && IndexOf(body + Delimiter(tag), Delimiter(tag)) == |body|
  }

  // ------------------------------------------------------ where the lexer agrees

  predicate AsciiTag(tag: string) {
    forall i :: 0 <= i < |tag| ==> tag[i] < '\U{80}'
  }

  /** An ASCII letter, a digit, an underscore or a dollar sign. */
  predicate WordCharacter(c: char) {
    (StartsName(c) && c < '\U{80}') || IsDigit(c) || c == '$'
  }

  predicate EndsInWordCharacter(s: string) {
    s != "" && WordCharacter(s[|s| - 1])
  }

  /** The letter E, not behind a word character. */
  predicate EndsInLoneE(s: string) {
    s != "" && (s[|s| - 1] == 'E' || s[|s| - 1] == 'e') && !EndsInWordCharacter(s[..|s| - 1])
  }

  lemma SameTests(s: string)
    ensures EndsInWord(s) == EndsInWordCharacter(s) && EndsInE(s) == EndsInLoneE(s)
  {}

  lemma SameTag(tag: string)
    requires IsTag(tag)
    ensures AsciiTag(tag) <==> tag == "" || (IsLetter(tag[0]) && forall i :: 0 <= i < |tag| ==> IsWord(tag[i]))
  {
    if AsciiTag(tag) && tag != "" {
      forall i | 0 <= i < |tag| ensures IsWord(tag[i]) { assert tag[i] < '\U{80}'; }
      assert IsLetter(tag[0]);
    }
  }

  /** A delimiter with an ASCII tag begins the text. */
  predicate OpensAsciiDollar(s: string) {
    exists n :: 0 <= n < |s| && IsTag(s[..n]) && AsciiTag(s[..n]) && s[n] == '$'
  }


  /** Every backslash is followed, in the literal, by a character that is not a quote. */
  predicate Paired(units: seq<Unit>) {
    if units == [] then true
    else if units[0] == Raw('\\') then |units| > 1 && units[1].Raw? && Paired(units[2..])
    else Paired(units[1..])
  }

  /** It does not matter whether the literal is read with escapes. */
  predicate Indifferent(escapes: bool, units: seq<Unit>) {
    if escapes then Backslash('\'') !in units else Paired(units)
  }

  /**
   * The lexer takes the piece as PostgreSQL does.  A dollar sign: it sees or does not see a
   * delimiter.  A comment: ended by a line feed.  A literal: the letter E is judged alike, or
   * does not matter.  A dollar quote: an ASCII tag, not behind a word character or a dollar sign.
   */
  predicate LexerAgrees(p: Piece, current: string, after: string) {
    match p
    case Plain(c) => c == '$' ==> EndsInWordCharacter(current) || !OpensAsciiDollar(after)
    case LineComment(_) => after == "" || after[0] == '\n'
    case Literal(escapes, units) => EndsInLoneE(current) == escapes || Indifferent(escapes, units)
    case Dollar(tag, _) => !EndsInWordCharacter(current) && AsciiTag(tag)
    case _ => true
  }

  /** The lexer sees a delimiter exactly where there is one with an ASCII tag. */
  lemma DelimiterExactly(after: string)
    ensures TagLength("$" + after) > 0 <==> OpensAsciiDollar(after)
  {
    if n :| 0 <= n < |after| && IsTag(after[..n]) && AsciiTag(after[..n]) && after[n] == '$' {
      DelimiterIsSeen(after, n);
    }
    if TagLength("$" + after) > 0 {
      SeenIsDelimiter(after);
    }
  }

  lemma DelimiterIsSeen(after: string, n: nat)
    requires n < |after| && IsTag(after[..n]) && AsciiTag(after[..n]) && after[n] == '$'
    ensures TagLength("$" + after) > 0
  {
    var tag, rest := after[..n], after[n + 1..];
    SameTag(tag);
    TagIsRead(tag, rest);
    assert Delimiter(tag) + rest == "$" + after;
  }

  lemma SeenIsDelimiter(after: string)
    requires TagLength("$" + after) > 0
    ensures OpensAsciiDollar(after)
  {
    var s := "$" + after;
    assert s[1..] == after;
    var n := TagLength(s) - 2;
    WordsAre(after);
    assert after[n] == '$' && IsTag(after[..n]) && AsciiTag(after[..n]);
  }

  lemma {:induction false} WordsAre(s: string)
    ensures forall i :: 0 <= i < WordLength(s) ==> IsWord(s[i])
    decreases |s|
  {
    if s != "" && IsWord(s[0]) {
      WordsAre(s[1..]);
      assert forall i :: 0 < i < |s| ==> s[i] == s[1..][i - 1];
    }
  }

  lemma PlainExactly(c: char, current: string, after: string)
    requires Means(Plain(c), current, after)
    ensures IsTurn(Plain(c), current, after) <==> LexerAgrees(Plain(c), current, after)
  {
    SameTests(current);
    DelimiterExactly(after);
    if LexerAgrees(Plain(c), current, after) {
      PlainIsOneTurn(c, current, after);
    } else {
      var s := [c] + after;
      DollarTurn(s, current);
    }
  }

  lemma LineCommentExactly(text: string, current: string, after: string)
    requires Means(LineComment(text), current, after)
    ensures IsTurn(LineComment(text), current, after) <==> LexerAgrees(LineComment(text), current, after)
  {
    if LexerAgrees(LineComment(text), current, after) {
      LineCommentIsOneTurn(text, current, after);
    } else {
      var s := "--" + text + after;
      TwoInFront(s, '-', '-');
      assert s[2..] == text + after;
      NotInFront(text, after);
    }
  }

  /** The search goes past text without a line feed. */
  lemma {:induction false} NotInFront(text: string, after: string)
    requires '\n' !in text && after != "" && after[0] != '\n'
    ensures IndexOf(text + after, "\n") > |text|
    decreases |text|
  {
    var s := text + after;
    assert s[..1] == [s[0]];
    if text == "" {
      assert s == after;
    } else {
      assert s[1..] == text[1..] + after;
      NotInFront(text[1..], after);
    }
  }

  // ----------------------------------------------------------------- literals

  /** Behind a stray quote the literal never ends where it should. */
  lemma {:induction false} StrayQuote(units: seq<Unit>, after: string, escapes: bool, mode: bool)
    requires UnitsRead(mode, units) && !Front(after, '\'')
    ensures LiteralLength("'" + PrintUnits(units) + "'" + after, escapes) != 1 + |PrintUnits(units)|
    decreases |units|
  {
    var s := "'" + PrintUnits(units) + "'" + after;
    if units == [] {
      assert s == "''" + after;
    } else {
      var rest := PrintUnits(units[1..]) + "'" + after;
      if units[0].Doubled? {
        assert s[2..] == "'" + rest;
        assert "'" + PrintUnits(units[1..]) + "'" + after == "'" + rest;
        StrayQuote(units[1..], after, escapes, mode);
      } else {
        assert s[1] == PrintUnits(units)[0] != '\'';
      }
    }
  }

  /** The printed literal behind its first unit. */
  lemma UnitInFront(units: seq<Unit>, after: string)
    requires units != []
    ensures var s, rest := PrintUnits(units) + "'" + after, PrintUnits(units[1..]) + "'" + after;
            && |PrintUnits(units)| == |PrintUnits(units[1..])| + (if units[0].Raw? then 1 else 2)
            && match units[0]
               case Raw(c) => s[0] == c && s[1..] == rest
               case Doubled => s[0] == '\'' && s[1] == '\'' && s[2..] == rest
               case Backslash(c) => s[0] == '\\' && s[1..] == [c] + rest && s[2..] == rest
  {
    match units[0]
    case Raw(c) => BehindFirst([c], PrintUnits(units[1..]), after);
    case Doubled => BehindFirst("''", PrintUnits(units[1..]), after);
    case Backslash(c) => BehindFirst(['\\', c], PrintUnits(units[1..]), after);
  }

  lemma BehindFirst(first: string, tail: string, after: string)
    requires |first| == 1 || |first| == 2
    ensures var s, rest := first + tail + "'" + after, tail + "'" + after;
            && s == first + rest && s[0] == first[0] && s[|first|..] == rest
            && (|first| == 2 ==> s[1] == first[1] && s[1..] == [first[1]] + rest)
  {
    var s, rest := first + tail + "'" + after, tail + "'" + after;
    assert s == first + rest;
    assert |first| == 2 ==> first == [first[0]] + [first[1]];
  }

  /** An E-string read without escapes. */
  lemma {:induction false} ReadRawExactly(units: seq<Unit>, after: string)
    requires UnitsRead(true, units) && !Front(after, '\'')
    ensures LiteralLength(PrintUnits(units) + "'" + after, false) == |PrintUnits(units)| <==> Backslash('\'') !in units
    decreases |units|
  {
    var s := PrintUnits(units) + "'" + after;
    if units == [] {
      assert s == "'" + after;
    } else {
      var rest := PrintUnits(units[1..]) + "'" + after;
      ReadRawExactly(units[1..], after);
      InRest(units, Backslash('\''));
      UnitInFront(units, after);
      assert units[0].Raw? ==> units[0].c != '\'';
      if units[0] == Backslash('\'') {
        StrayQuote(units[1..], after, false, true);
        assert "'" + PrintUnits(units[1..]) + "'" + after == ['\''] + rest;
      } else if units[0].Backslash? {
        assert ([units[0].c] + rest)[1..] == rest;
      }
      hide PrintUnits, UnitsRead;
    }
  }

  lemma InRest(units: seq<Unit>, u: Unit)
    requires units != []
    ensures u in units <==> units[0] == u || u in units[1..]
  {
    assert units == [units[0]] + units[1..];
  }

  /** A plain string read with escapes. */
  lemma {:induction false} ReadEscapedExactly(units: seq<Unit>, after: string)
    requires UnitsRead(false, units) && !Front(after, '\'')
    ensures LiteralLength(PrintUnits(units) + "'" + after, true) == |PrintUnits(units)| <==> Paired(units)
    decreases |units|
  {
    var s := PrintUnits(units) + "'" + after;
    if units == [] {
      assert s == "'" + after;
    } else if units[0] != Raw('\\') {
      ReadEscapedExactly(units[1..], after);
      UnitInFront(units, after);
      assert units[0].Raw? ==> units[0].c != '\'';
      assert !units[0].Backslash?;
      hide PrintUnits, UnitsRead;
    } else if |units| == 1 {
      assert PrintUnits(units[1..]) == "" && s == "\\'" + after && s[2..] == after;
    } else {
      EscapedPair(units, after);
    }
  }

  lemma {:induction false} EscapedPair(units: seq<Unit>, after: string)
    requires UnitsRead(false, units) && !Front(after, '\'') && |units| > 1 && units[0] == Raw('\\')
    ensures LiteralLength(PrintUnits(units) + "'" + after, true) == |PrintUnits(units)| <==> Paired(units)
    decreases |units|, 0
  {
    var s := PrintUnits(units) + "'" + after;
    var more := units[2..];
    assert units[1..][1..] == more && units[1..][0] == units[1];
    assert PrintUnits(units) == ['\\'] + PrintUnits(units[1..]);
    assert PrintUnits(units[1..]) == (if units[1].Doubled? then "''" else [units[1].c]) + PrintUnits(more);
    var rest := PrintUnits(more) + "'" + after;
    if units[1].Raw? {
      assert s[2..] == rest;
      ReadEscapedExactly(more, after);
    } else {
      assert s[2..] == "'" + PrintUnits(more) + "'" + after;
      StrayQuote(more, after, true, false);
    }
  }

  /** A literal is one pass exactly when its end is found. */
  lemma LiteralTurnExactly(escapes: bool, units: seq<Unit>, current: string, after: string)
    ensures IsTurn(Literal(escapes, units), current, after) <==>
              LiteralLength(PrintUnits(units) + "'" + after, EndsInE(current)) == |PrintUnits(units)|
  {
    hide TagLength, IndexOf, CommentLength, LiteralLength, Neutral, PrintUnits, EndsInE;
    var inside := PrintUnits(units);
    var s := "'" + inside + "'" + after;
    var n := LiteralLength(s[1..], EndsInE(current));
    assert s[0] == '\'' && s[1..] == inside + "'" + after && s[1..|inside| + 1] == inside;
    NeutralIsHarmless(s[1..n + 1]);
    NeutralIsHarmless(inside);
    TwoInFront(s, '-', '-');
    TwoInFront(s, '/', '*');
  }

  lemma LiteralExactly(escapes: bool, units: seq<Unit>, current: string, after: string)
    requires Means(Literal(escapes, units), current, after)
    ensures IsTurn(Literal(escapes, units), current, after) <==> LexerAgrees(Literal(escapes, units), current, after)
  {
    LiteralTurnExactly(escapes, units, current, after);
    SameTests(current);
    hide IsTurn;
    if EndsInE(current) == escapes {
      LiteralIsRead(escapes, units, after);
    } else if escapes {
      ReadRawExactly(units, after);
    } else {
      ReadEscapedExactly(units, after);
    }
  }

  // ------------------------------------------------------------- dollar quotes

  lemma {:induction false} WordEnds(word: string, after: string)
    requires exists i :: 0 <= i < |word| && !IsWord(word[i])
    ensures WordLength(word + after) < |word| && !IsWord(word[WordLength(word + after)])
    decreases |word|
  {
    var s := word + after;
    if IsWord(word[0]) {
      assert s[1..] == word[1..] + after;
      var i :| 0 <= i < |word| && !IsWord(word[i]);
      assert word[1..][i - 1] == word[i];
      WordEnds(word[1..], after);
    }
  }

  /** A tag with a letter beyond ASCII is no delimiter to the lexer. */
  lemma ForeignTag(tag: string, after: string)
    requires IsTag(tag) && !AsciiTag(tag)
    ensures TagLength(Delimiter(tag) + after) == 0
  {
    SameTag(tag);
    var s := Delimiter(tag) + after;
    assert s[1] == tag[0] && s[1..] == tag + ("$" + after);
    if IsLetter(tag[0]) {
      WordEnds(tag, "$" + after);
      var n := WordLength(s[1..]);
      assert s[n + 1] == tag[n];
    }
  }

  lemma DollarExactly(tag: string, body: string, current: string, after: string)
    requires Means(Dollar(tag, body), current, after)
    ensures IsTurn(Dollar(tag, body), current, after) <==> LexerAgrees(Dollar(tag, body), current, after)
  {
    SameTests(current);
    SameTag(tag);
    if LexerAgrees(Dollar(tag, body), current, after) {
      DollarIsOneTurn(tag, body, current, after);
    } else {
      var d := Delimiter(tag);
      var s := d + body + d + after;
      DelimitedShape(d, body, after);
      if !AsciiTag(tag) { ForeignTag(tag, body + d + after); }
      assert s[0] == '$';
      hide TagLength, IndexOf, EndsInWord;
      NoDollarTurn(s, current);
    }
  }

  lemma NoDollarTurn(s: string, current: string)
    requires s != "" && s[0] == '$' && (TagLength(s) == 0 || EndsInWord(current))
    ensures OneTurn(s, current) == Turn(1, [s[0]], [], false)
  {
    TwoInFront(s, '-', '-');
    TwoInFront(s, '/', '*');
  }

  /** What is a piece to PostgreSQL is one pass of the loop exactly where the lexer agrees. */
  lemma PieceIsReadExactly(p: Piece, current: string, after: string)
    requires Means(p, current, after)
    ensures IsTurn(p, current, after) <==> LexerAgrees(p, current, after)
  {
    hide IsTurn, Means, LexerAgrees;
    match p
    case Plain(c) => PlainExactly(c, current, after);
    case LineComment(text) => LineCommentExactly(text, current, after);
    case BlockComment(comment) => OthersAgree(p, current, after);
    case Literal(escapes, units) => LiteralExactly(escapes, units, current, after);
    case Quoted(text) => OthersAgree(p, current, after);
    case Dollar(tag, body) => DollarExactly(tag, body, current, after);
  }

  lemma OthersAgree(p: Piece, current: string, after: string)
    requires (p.BlockComment? || p.Quoted?) && Means(p, current, after)
    ensures IsTurn(p, current, after) && LexerAgrees(p, current, after)
  {
    PieceIsOneTurn(p, current, after);
  }

  // ------------------------------------------------------------------ whole texts

  predicate AllMean(pieces: seq<Piece>, current: string, after: string) {
    pieces == [] ||
    (Means(pieces[0], current, PrintPieces(pieces[1..]) + after)
      && AllMean(pieces[1..], current + TextOf(pieces[0]), after))
  }

  predicate AllAgree(pieces: seq<Piece>, current: string, after: string) {
    pieces == [] ||
    (LexerAgrees(pieces[0], current, PrintPieces(pieces[1..]) + after)
      && AllAgree(pieces[1..], current + TextOf(pieces[0]), after))
  }

  /** In PostgreSQL the printed text is these statements, made of these pieces. */
  predicate GroupsMean(groups: seq<seq<Piece>>)
    requires groups != []
  {
    if |groups| == 1 then AllMean(groups[0], "", "")
    else AllMean(groups[0], "", ";" + PrintGroups(groups[1..])) && GroupsMean(groups[1..])
  }

  predicate GroupsAgree(groups: seq<seq<Piece>>)
    requires groups != []
  {
    if |groups| == 1 then AllAgree(groups[0], "", "")
    else AllAgree(groups[0], "", ";" + PrintGroups(groups[1..])) && GroupsAgree(groups[1..])
  }

  lemma {:induction false} PiecesReadExactly(pieces: seq<Piece>, current: string, after: string)
    requires AllMean(pieces, current, after)
    ensures AllTurns(pieces, current, after) <==> AllAgree(pieces, current, after)
    decreases |pieces|
  {
    hide IsTurn, Means, LexerAgrees;
    if pieces != [] {
      PieceIsReadExactly(pieces[0], current, PrintPieces(pieces[1..]) + after);
      PiecesReadExactly(pieces[1..], current + TextOf(pieces[0]), after);
    }
  }

  lemma {:induction false} GroupsReadExactly(groups: seq<seq<Piece>>)
    requires groups != [] && GroupsMean(groups)
    ensures GroupsTurn(groups) <==> GroupsAgree(groups)
    decreases |groups|
  {
    hide AllMean, AllTurns, AllAgree;
    if |groups| == 1 {
      PiecesReadExactly(groups[0], "", "");
    } else {
      PiecesReadExactly(groups[0], "", ";" + PrintGroups(groups[1..]));
      GroupsReadExactly(groups[1..]);
    }
  }

  /**
   * Of text that is these statements to PostgreSQL, the lexer reads the pieces one by one
   * exactly where it agrees on each, and then the statements and the dollar bodies come back.
   */
  lemma PostgresGroupsComeBack(groups: seq<seq<Piece>>)
    requires groups != [] && GroupsMean(groups)
    ensures GroupsTurn(groups) <==> GroupsAgree(groups)
    ensures GroupsAgree(groups) ==> Lex(PrintGroups(groups), "") == Split(StatementsOf(groups), AllBodiesOf(groups))
  {
    GroupsReadExactly(groups);
    if GroupsAgree(groups) { GroupsAreLexed(groups); }
  }

  lemma PieceInFront(p: Piece, rest: seq<Piece>, current: string, after: string)
    ensures PrintPieces([p] + rest) == PrintPiece(p) + PrintPieces(rest)
    ensures AllMean([p] + rest, current, after) <==>
              Means(p, current, PrintPieces(rest) + after) && AllMean(rest, current + TextOf(p), after)
  {
    assert ([p] + rest)[1..] == rest;
  }

  lemma TwoGroups(a: seq<Piece>, b: seq<Piece>)
    ensures PrintGroups([a, b]) == PrintPieces(a) + ";" + PrintPieces(b)
    ensures GroupsMean([a, b]) <==> AllMean(a, "", ";" + PrintPieces(b)) && AllMean(b, "", "")
  {
    assert [a, b][1..] == [b];
    hide AllMean, PrintPieces;
  }

  lemma InForeignName(e: char)
    requires e >= '\U{80}'
    ensures TokenAt([e]) == InName && TokenAt([e] + "$") == InName
  {
    assert [e][..0] == "" && ([e] + "$")[..1] == [e];
  }

  /** A name of a letter beyond ASCII and two dollar signs, and another statement. */
  function Foreign(e: char): seq<seq<Piece>> {
    [[Plain(e)] + ([Plain('$')] + [Plain('$')]), [Plain('x')]]
  }

  lemma ForeignMeans(e: char)
    requires e >= '\U{80}'
    ensures GroupsMean(Foreign(e)) && PrintGroups(Foreign(e)) == [e] + ("$$" + ";x")
  {
    var one: seq<Piece> := [Plain('$')];
    InForeignName(e);
    TwoGroups([Plain(e)] + (one + one), [Plain('x')]);
    PieceInFront(Plain('x'), [], "", "");
    PieceInFront(Plain(e), one + one, "", ";x");
    PieceInFront(Plain('$'), one, [e], ";x");
    PieceInFront(Plain('$'), [], [e] + "$", ";x");
    assert one + [] == one && [Plain('x')] + [] == [Plain('x')] && "" + [e] == [e];
    assert PrintPieces([]) == "" && PrintPieces(one) == "$" && "$" + "$" == "$$";
    assert PrintPieces([Plain('x')]) == "x" && ";" + "x" == ";x" && PrintPieces(one + one) == "$$";
    assert PrintPieces([Plain(e)] + (one + one)) == [e] + "$$";
    hide TokenAt, PrintPieces, GroupsMean, PrintGroups, OpensDollar;
    assert AllMean([], "x", "") && AllMean([], [e] + "$" + "$", ";x");
    assert AllMean([Plain('x')], "", "");
    assert AllMean(one, [e] + "$", ";x");
    assert AllMean(one + one, [e], ";x");
    assert AllMean([Plain(e)] + (one + one), "", ";x");
    assert [e] + "$$" + ";" + "x" == [e] + ("$$" + ";x");
  }

  lemma {:induction false} NoDelimiter(tail: string)
    requires '$' !in tail
    ensures IndexOf(tail, "$$") == |tail|
    decreases |tail|
  {
    if tail != "" {
      TwoInFront(tail, '$', '$');
      NoDelimiter(tail[1..]);
    }
  }

  lemma LexOnce(s: string, current: string, t: Turn)
    requires s != "" && t == OneTurn(s, current) && !t.ends
    ensures Lex(s, current) == Together([], t.bodies, Lex(s[t.length..], current + t.text))
  {}

  lemma UnclosedTurn(tail: string, current: string)
    requires '$' !in tail && !EndsInWord(current)
    ensures OneTurn("$$" + tail, current) == Turn(2 + |tail|, "$$ $$", [tail], false)
  {
    var s := "$$" + tail;
    NoDelimiter(tail);
    assert TagLength(s) == 2 && s[2..] == tail && s[..2] == "$$" && s[2..2 + |tail|] == tail;
    hide IndexOf, TagLength, EndsInWord, OneTurn;
    DollarTurn(s, current);
  }

  /** Behind a letter beyond ASCII the lexer opens a body with two dollar signs, and reads to the end of the text. */
  lemma BodyBehindForeignLetter(e: char, tail: string)
    requires e >= '\U{80}' && !IsSpace(e) && '$' !in tail
    ensures Lex([e] + ("$$" + tail), "") == Split([[e] + "$$ $$"], [tail])
  {
    var rest := "$$" + tail;
    var last := [e] + "$$ $$";
    PlainIsOneTurn(e, "", rest);
    UnclosedTurn(tail, [e]);
    assert ([e] + rest)[1..] == rest && rest[2 + |tail|..] == "" && "" + [e] == [e] && last[0] == e;
    assert Lex("", last) == Split([last], []);
    hide Lex, OneTurn, IsSpace, Blank;
    LexTwice([e] + rest, [e], rest, Turn(2 + |tail|, "$$ $$", [tail], false));
  }

  lemma LexTwice(s: string, first: string, rest: string, t: Turn)
    requires s != "" && OneTurn(s, "") == Turn(1, first, [], false) && s[1..] == rest
    requires rest != "" && OneTurn(rest, first) == t && t.length == |rest| && !t.ends && |t.bodies| == 1
    requires Lex("", first + t.text) == Split([first + t.text], [])
    ensures Lex(s, "") == Split([first + t.text], t.bodies)
  {
    hide Lex, OneTurn;
    assert "" + first == first && rest[|rest|..] == "";
    LexOnce(s, "", Turn(1, first, [], false));
    LexOnce(rest, first, t);
  }

  /**
   * Two statements to PostgreSQL, the first ending in a name with dollar signs; to the lexer
   * one statement, with a body.
   */
  lemma ForeignLetterOpensDollar(e: char)
    requires e >= '\U{80}' && !IsSpace(e)
    ensures GroupsMean(Foreign(e)) && Lex(PrintGroups(Foreign(e)), "") == Split([[e] + "$$ $$"], [";x"])
  {
    ForeignMeans(e);
    hide Lex, GroupsMean, PrintGroups, Foreign;
    BodyBehindForeignLetter(e, ";x");
  }
}
