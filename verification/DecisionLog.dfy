/**
 * The decision-log coverage gate (scripts/access-decision-log-coverage-check.ts).
 *
 * The gate scans the characters of one function and asks, for each terminal decision
 * return, whether a log call dominates it, judging by brace depth alone.  Here the scan is
 * modelled on a character stream in which the two regular expressions already marked their
 * matches, and it is proved against an execution semantics of block-structured programs.
 */
module DecisionLog {
  import opened Common

  /** One character of the body; the marks stand for the first character of a match. */
  datatype Ch = Open | Close | Other | LogMark | ReturnMark(code: string)

  // ------------------------------------------------------------ the scan

  function Height(s: seq<Ch>): int {
    if s == [] then 0 else
      Height(s[..|s| - 1]) + match s[|s| - 1] case Open => 1 case Close => -1 case _ => 0
  }

  /** A brace counts as outside the block it opens or closes. */
  function DepthAt(s: seq<Ch>, i: nat): int
    requires i < |s|
  {
    Height(s[..i]) - if s[i] == Close then 1 else 0
  }

  method DepthMap(body: seq<Ch>) returns (depths: array<int>)
    ensures fresh(depths) && depths.Length == |body|
    ensures forall i :: 0 <= i < |body| ==> depths[i] == DepthAt(body, i)
  {
    depths := new int[|body|];
    var depth := 0;
    for i := 0 to |body|
      invariant depth == Height(body[..i])
      invariant forall j :: 0 <= j < i ==> depths[j] == DepthAt(body, j)
    {
      assert body[..i + 1][..i] == body[..i];
      if body[i] == Close {
        depth := depth - 1;
      }
      depths[i] := depth;
      if body[i] == Open {
        depth := depth + 1;
      }
    }
  }

  /** The log at `at` is no deeper than `index`, and its block is still open there. */
  ghost predicate Covers(body: seq<Ch>, at: nat, index: nat)
    requires index < |body|
  {
    && at < index && body[at] == LogMark && DepthAt(body, at) <= DepthAt(body, index)
    && forall i :: at <= i < index ==> DepthAt(body, at) <= DepthAt(body, i)
  }

  ghost predicate Dominated(body: seq<Ch>, index: nat)
    requires index < |body|
  {
    exists at: nat :: Covers(body, at, index)
  }

  method IsDominatedByLog(body: seq<Ch>, depths: array<int>, index: nat) returns (dominated: bool)
    requires index < |body| == depths.Length
    requires forall i :: 0 <= i < |body| ==> depths[i] == DepthAt(body, i)
    ensures dominated <==> Dominated(body, index)
  {
    var returnDepth := depths[index];
    for at := 0 to |body|
      invariant forall a: nat :: a < at ==> !Covers(body, a, index)
    {
      if body[at] != LogMark || at >= index {
        continue;
      }
      var logDepth := depths[at];
      if logDepth > returnDepth {
        continue;
      }
      var closed := false;
      for i := at to index
        invariant !closed && forall j :: at <= j < i ==> logDepth <= DepthAt(body, j)
      {
        if depths[i] < logDepth {
          closed := true;
          assert DepthAt(body, i) < logDepth;
          break;
        }
      }
      if !closed {
        assert Covers(body, at, index);
        return true;
      }
    }
    return false;
  }

  datatype DecisionReturn = DecisionReturn(code: string, index: nat, logged: bool)

  /** Every marked return once, in order of position. */
  ghost predicate Collected(body: seq<Ch>, upTo: nat, found: seq<DecisionReturn>)
    requires upTo <= |body|
  {
    && (forall k :: 0 <= k < |found| ==>
          && found[k].index < upTo && body[found[k].index] == ReturnMark(found[k].code)
          && (found[k].logged <==> Dominated(body, found[k].index)))
    && (forall j, k :: 0 <= j < k < |found| ==> found[j].index < found[k].index)
    && (forall i :: 0 <= i < upTo && body[i].ReturnMark? ==> exists k :: 0 <= k < |found| && found[k].index == i)
  }

  method CollectDecisionReturns(body: seq<Ch>) returns (found: seq<DecisionReturn>)
    ensures Collected(body, |body|, found)
  {
    hide Dominated;
    var depths := DepthMap(body);
    found := [];
    for index := 0 to |body|
      invariant Collected(body, index, found)
      invariant forall i :: 0 <= i < |body| ==> depths[i] == DepthAt(body, i)
    {
      if body[index].ReturnMark? {
        var logged := IsDominatedByLog(body, depths, index);
        ghost var before := found;
        found := found + [DecisionReturn(body[index].code, index, logged)];
        assert forall k :: 0 <= k < |before| ==> found[k] == before[k];
        assert found[|before|].index == index;
      }
    }
  }

  /** The codes of the returns that neither log nor are exempt. */
  function FindUnlogged(found: seq<DecisionReturn>, exempt: set<string>): seq<string> {
    if found == [] then [] else
      var last := found[|found| - 1];
      FindUnlogged(found[..|found| - 1], exempt) + if last.logged || last.code in exempt then [] else [last.code]
  }

  // --------------------------------------------------------- the programs

  /** Text without marks whose braces balance: object literals, templates, type literals. */
  datatype Text = Empty | Char(rest: Text) | Braces(inner: Text, rest: Text)

  datatype Stmt =
    | Plain(text: Text)
    | Log(args: Text)
    | Return(code: string, tail: Text)
    | Compound(arms: Arms)   // may run none: an if without else, a loop tested first, a callback
    | Choice(arms: Arms)     // runs exactly one of its arms: an if/else chain, a plain block
    | Try(arms: Arms)        // runs its first arm, and each further one to handle what the one before raised

  datatype Arms = NoArm(tail: Text) | Arm(head: Text, body: Block, more: Arms)

  datatype Block = Done | Then(first: Stmt, rest: Block)

  function PrintText(t: Text): seq<Ch> {
    match t
    case Empty => []
    case Char(rest) => [Other] + PrintText(rest)
    case Braces(inner, rest) => [Open] + PrintText(inner) + [Close] + PrintText(rest)
  }

  function PrintStmt(s: Stmt): seq<Ch> {
    match s
    case Plain(text) => PrintText(text)
    case Log(args) => [LogMark] + PrintText(args)
    case Return(code, tail) => [ReturnMark(code)] + PrintText(tail)
    case Compound(arms) => PrintArms(arms)
    case Choice(arms) => PrintArms(arms)
    case Try(arms) => PrintArms(arms)
  }

  predicate Braced(s: Stmt) {
    s.Compound? || Exhaustive(s)
  }

  /** One of its arms always runs. */
  predicate Exhaustive(s: Stmt) {
    s.Choice? || s.Try?
  }

  function PrintArms(a: Arms): seq<Ch> {
    match a
    case NoArm(tail) => PrintText(tail)
    case Arm(head, body, more) => FirstArm(head, body) + PrintArms(more)
  }

  function FirstArm(head: Text, body: Block): seq<Ch>
    decreases body, 1
  {
    PrintText(head) + ([Open] + Print(body) + [Close])
  }

  function Print(b: Block): seq<Ch>
    decreases b, 0
  {
    match b
    case Done => []
    case Then(first, rest) => PrintStmt(first) + Print(rest)
  }

  // -------------------------------------------------------- the semantics

  /** How control leaves a piece of code; a decision is named by the position of its return. */
  datatype Outcome = Normal | Abrupt | Decided(at: nat)

  /** One execution of a block, written down as the choices it made. */
  datatype Run =
    | FellOff                              // reached the end of the block
    | Left                                 // threw, broke out or continued before the next statement
    | Through(first: StmtRun, rest: Run)

  datatype StmtRun = Pass | Fail | Take(picks: Picks)

  /** A compound statement runs any arms, any number of times, absorbing or passing on what they raise. */
  datatype Picks = NoMore | Raise | Pick(arm: nat, run: Run, more: Picks)

  function Shift(o: Outcome, offset: nat): Outcome {
    if o.Decided? then Decided(o.at + offset) else o
  }

  /** Whether a decision row is logged after the run, and how it ended; None if this is no run of the block. */
  function Exec(b: Block, r: Run, logged: bool): Option<(bool, Outcome)>
    decreases r
  {
    match r
    case FellOff => if b.Done? then Some((logged, Normal)) else None
    case Left => Some((logged, Abrupt))
    case Through(first, rest) =>
      if b.Done? then None else
      match ExecStmt(b.first, first, logged)
      case None => None
      case Some((l, o)) =>
        if o != Normal then Some((l, o)) else
        match Exec(b.rest, rest, l)
        case None => None
        case Some((l', o')) => Some((l', Shift(o', |PrintStmt(b.first)|)))
  }

  function ExecStmt(s: Stmt, r: StmtRun, logged: bool): Option<(bool, Outcome)>
    decreases r
  {
    match s
    case Plain(_) => if r.Pass? then Some((logged, Normal)) else if r.Fail? then Some((logged, Abrupt)) else None
    case Log(_) => if r.Pass? then Some((true, Normal)) else if r.Fail? then Some((logged, Abrupt)) else None
    case Return(_, _) =>
      if r.Pass? then Some((logged, Decided(0))) else if r.Fail? then Some((logged, Abrupt)) else None
    case Compound(arms) => if r.Take? then ExecPicks(arms, r.picks, logged) else None
    case Choice(arms) => if r.Take? then ExecChoice(arms, r.picks, logged) else None
    case Try(arms) => if r.Take? then ExecTry(arms, r.picks, logged) else None
  }

  /** The body of the n-th arm and where it starts. */
  function ArmBody(a: Arms, n: nat): Option<(Block, nat)> {
    match a
    case NoArm(_) => None
    case Arm(head, body, more) =>
      if n == 0 then Some((body, |PrintText(head)| + 1)) else
      match ArmBody(more, n - 1)
      case None => None
      case Some((b, at)) => Some((b, |PrintText(head)| + 1 + |Print(body)| + 1 + at))
  }

  function ExecPicks(a: Arms, p: Picks, logged: bool): Option<(bool, Outcome)>
    decreases p
  {
    match p
    case NoMore => Some((logged, Normal))
    case Raise => Some((logged, Abrupt))
    case Pick(arm, run, more) =>
      match ArmBody(a, arm)
      case None => None
      case Some((body, start)) =>
        match Exec(body, run, logged)
        case None => None
        case Some((l, o)) => if o.Decided? then Some((l, Shift(o, start))) else ExecPicks(a, more, l)
  }

  /** The condition may raise; otherwise one arm runs, and what it raises is passed on. */
  function ExecChoice(a: Arms, p: Picks, logged: bool): Option<(bool, Outcome)>
    decreases p
  {
    match p
    case Raise => Some((logged, Abrupt))
    case Pick(arm, run, NoMore) =>
      (match ArmBody(a, arm)
       case None => None
       case Some((body, start)) =>
         match Exec(body, run, logged)
         case None => None
         case Some((l, o)) => Some((l, Shift(o, start))))
    case _ => None
  }

  /** The first arm runs; if it raises, the next goes on from there, and what the last one raises is passed on. */
  function ExecTry(a: Arms, p: Picks, logged: bool): Option<(bool, Outcome)>
    decreases p
  {
    if a.NoArm? || !p.Pick? then None else
    match Exec(a.body, p.run, logged)
    case None => None
    case Some((l, o)) =>
      if o == Abrupt && a.more.Arm? then
        match ExecTry(a.more, p.more, l)
        case None => None
        case Some((l', o')) => Some((l', Shift(o', |FirstArm(a.head, a.body)|)))
      else Some((l, Shift(o, |PrintText(a.head)| + 1)))
  }

  // --------------------------------- what the gate means, without any depth

  /** Some block enclosing position `at` logs, as a direct statement, before the part that holds `at`. */
  predicate LogsBefore(b: Block, at: nat) {
    if b.Done? then false else
    var n := |PrintStmt(b.first)|;
    if at < n then Braced(b.first) && ArmLogsBefore(b.first.arms, at) else b.first.Log? || LogsBefore(b.rest, at - n)
  }

  predicate ArmLogsBefore(a: Arms, at: nat) {
    if a.NoArm? then false else
    var start := |PrintText(a.head)| + 1;
    var end := start + |Print(a.body)|;
    if at < start || at == end then false
    else if at < end then LogsBefore(a.body, at - start) else ArmLogsBefore(a.more, at - end - 1)
  }

  // --------------------------------- what it should mean, without any run

  /** A block may be fallen through; or, if `silent`, fallen through without a log. */
  predicate Passes(b: Block, silent: bool) {
    b.Done? || (PassesStmt(b.first, silent) && Passes(b.rest, silent))
  }

  predicate PassesStmt(s: Stmt, silent: bool) {
    match s
    case Plain(_) => true
    case Log(_) => !silent
    case Return(_, _) => false
    case Compound(_) => true
    case Choice(arms) => SomeArmPasses(arms, silent)
    case Try(arms) => SomeArmPasses(arms, silent)
  }

  predicate SomeArmPasses(a: Arms, silent: bool) {
    a.Arm? && (Passes(a.body, silent) || SomeArmPasses(a.more, silent))
  }

  /** Every statement before position `at`, in the blocks that enclose it, may be passed (silently). */
  predicate Reaches(b: Block, at: nat, silent: bool) {
    if b.Done? then false else
    var n := |PrintStmt(b.first)|;
    if at < n then !Braced(b.first) || ArmReaches(b.first.arms, at, silent)
    else PassesStmt(b.first, silent) && Reaches(b.rest, at - n, silent)
  }

  predicate ArmReaches(a: Arms, at: nat, silent: bool) {
    if a.NoArm? then false else
    var start := |PrintText(a.head)| + 1;
    var end := start + |Print(a.body)|;
    if at < start || at == end then false
    else if at < end then Reaches(a.body, at - start, silent) else ArmReaches(a.more, at - end - 1, silent)
  }

  /**
   * In some enclosing block an if/else chain or a try/catch comes before `at`, and each of its
   * arms that falls through has logged.  (The body of a try may raise before its first statement.)
   */
  predicate ChoiceLogsBefore(b: Block, at: nat) {
    if b.Done? then false else
    var n := |PrintStmt(b.first)|;
    if at < n then Braced(b.first) && ArmChoiceLogsBefore(b.first.arms, at)
    else (Exhaustive(b.first) && !SomeArmPasses(b.first.arms, true)) || ChoiceLogsBefore(b.rest, at - n)
  }

  predicate ArmChoiceLogsBefore(a: Arms, at: nat) {
    if a.NoArm? then false else
    var start := |PrintText(a.head)| + 1;
    var end := start + |Print(a.body)|;
    if at < start || at == end then false
    else if at < end then ChoiceLogsBefore(a.body, at - start) else ArmChoiceLogsBefore(a.more, at - end - 1)
  }

  // ------------------------------------------------------ depth bookkeeping

  lemma HeightConcat(a: seq<Ch>, b: seq<Ch>)
    ensures Height(a + b) == Height(a) + Height(b)
  {
    if b == [] {
      assert a + b == a;
    } else {
      assert (a + b)[..|a + b| - 1] == a + b[..|b| - 1];
      HeightConcat(a, b[..|b| - 1]);
    }
  }

  lemma DepthPrefix(x: seq<Ch>, y: seq<Ch>, i: nat)
    requires i < |x|
    ensures DepthAt(x + y, i) == DepthAt(x, i)
  {
    assert (x + y)[..i] == x[..i];
  }

  lemma DepthSuffix(x: seq<Ch>, y: seq<Ch>, i: nat)
    requires i < |y|
    ensures DepthAt(x + y, |x| + i) == Height(x) + DepthAt(y, i)
  {
    assert (x + y)[..|x| + i] == x + y[..i];
    HeightConcat(x, y[..i]);
  }

  /** Every block that opens here closes here, and nothing else closes here. */
  ghost predicate Balanced(s: seq<Ch>) {
    Height(s) == 0 && forall i :: 0 <= i < |s| ==> DepthAt(s, i) >= 0
  }

  lemma BalancedConcat(a: seq<Ch>, b: seq<Ch>)
    requires Balanced(a) && Balanced(b)
    ensures Balanced(a + b)
  {
    HeightConcat(a, b);
    forall i | 0 <= i < |a + b| ensures DepthAt(a + b, i) >= 0 {
      if i < |a| { DepthPrefix(a, b, i); } else { DepthSuffix(a, b, i - |a|); }
    }
  }

  lemma BalancedBraces(s: seq<Ch>)
    requires Balanced(s)
    ensures Balanced([Open] + s + [Close])
  {
    HeightConcat([Open] + s, [Close]);
    HeightConcat([Open], s);
    assert Height([]) == 0 && Height([Open]) == 1 && Height([Close]) == -1;
    forall i | 0 <= i < |s| + 2 ensures DepthAt([Open] + s + [Close], i) >= 0 {
      if i <= |s| { DepthPrefix([Open] + s, [Close], i); } else { DepthSuffix([Open] + s, [Close], 0); }
      if i == 0 { DepthPrefix([Open], s, 0); } else if i <= |s| { DepthSuffix([Open], s, i - 1); }
    }
  }

  lemma BalancedOne(c: Ch)
    requires !c.Open? && !c.Close?
    ensures Balanced([c])
  {
    assert [c][..0] == [];
  }

  ghost predicate Unmarked(s: seq<Ch>) {
    forall i :: 0 <= i < |s| ==> !s[i].LogMark? && !s[i].ReturnMark?
  }

  lemma {:induction false} TextIsBalanced(t: Text)
    ensures Balanced(PrintText(t)) && Unmarked(PrintText(t))
  {
    match t
    case Empty =>
    case Char(rest) =>
      TextIsBalanced(rest);
      BalancedOne(Other);
      BalancedConcat([Other], PrintText(rest));
    case Braces(inner, rest) =>
      TextIsBalanced(inner);
      TextIsBalanced(rest);
      BalancedBraces(PrintText(inner));
      BalancedConcat([Open] + PrintText(inner) + [Close], PrintText(rest));
  }

  lemma {:induction false} StmtIsBalanced(s: Stmt)
    ensures Balanced(PrintStmt(s))
  {
    match s
    case Plain(text) => TextIsBalanced(text);
    case Log(args) => TextIsBalanced(args); BalancedOne(LogMark); BalancedConcat([LogMark], PrintText(args));
    case Return(code, tail) =>
      TextIsBalanced(tail);
      BalancedOne(ReturnMark(code));
      BalancedConcat([ReturnMark(code)], PrintText(tail));
    case Compound(arms) => ArmsAreBalanced(arms);
    case Choice(arms) => ArmsAreBalanced(arms);
    case Try(arms) => ArmsAreBalanced(arms);
  }

  lemma {:induction false} ArmsAreBalanced(a: Arms)
    ensures Balanced(PrintArms(a))
  {
    match a
    case NoArm(tail) => TextIsBalanced(tail);
    case Arm(head, body, more) =>
      FirstArmIsBalanced(head, body);
      ArmsAreBalanced(more);
      BalancedConcat(FirstArm(head, body), PrintArms(more));
  }

  lemma {:induction false} FirstArmIsBalanced(head: Text, body: Block)
    ensures Balanced(FirstArm(head, body))
    decreases body, 1
  {
    TextIsBalanced(head);
    BlockIsBalanced(body);
    BalancedBraces(Print(body));
    BalancedConcat(PrintText(head), [Open] + Print(body) + [Close]);
  }

  lemma {:induction false} BlockIsBalanced(b: Block)
    ensures Balanced(Print(b))
    decreases b, 0
  {
    match b
    case Done =>
    case Then(first, rest) =>
      StmtIsBalanced(first);
      BlockIsBalanced(rest);
      BalancedConcat(PrintStmt(first), Print(rest));
  }

  // --------------------------------------------------- moving the scan around

  /** What follows the position does not matter. */
  lemma DominatedInPrefix(x: seq<Ch>, y: seq<Ch>, index: nat)
    requires index < |x|
    ensures Dominated(x + y, index) <==> Dominated(x, index)
  {
    forall i: nat | i < |x| ensures DepthAt(x + y, i) == DepthAt(x, i) {
      DepthPrefix(x, y, i);
    }
    forall at: nat ensures Covers(x + y, at, index) <==> Covers(x, at, index) {}
  }

  lemma CoversSuffix(x: seq<Ch>, y: seq<Ch>, at: nat, index: nat)
    requires index < |y|
    ensures Covers(x + y, |x| + at, |x| + index) <==> Covers(y, at, index)
  {
    forall i: nat | i < |y| ensures DepthAt(x + y, |x| + i) == Height(x) + DepthAt(y, i) {
      DepthSuffix(x, y, i);
    }
    if Covers(y, at, index) {
      forall i | |x| + at <= i < |x| + index ensures DepthAt(x + y, |x| + at) <= DepthAt(x + y, i) {
        assert DepthAt(x + y, |x| + (i - |x|)) == Height(x) + DepthAt(y, i - |x|);
      }
    }
    if Covers(x + y, |x| + at, |x| + index) {
      assert (x + y)[|x| + at] == y[at];
    }
  }

  /** Text without a log in front does not matter. */
  lemma DominatedPastSilence(x: seq<Ch>, y: seq<Ch>, index: nat)
    requires index < |y| && LogMark !in x
    ensures Dominated(x + y, |x| + index) <==> Dominated(y, index)
  {
    var z, n := x + y, |x| + index;
    assert forall i :: 0 <= i < |x| ==> z[i] == x[i];
    if at: nat :| Covers(z, at, n) {
      CoversSuffix(x, y, at - |x|, index);
    }
    if at: nat :| Covers(y, at, index) {
      CoversSuffix(x, y, at, index);
    }
  }

  ghost predicate TopLog(x: seq<Ch>) {
    exists at :: 0 <= at < |x| && x[at] == LogMark && DepthAt(x, at) == 0
  }

  /** Of balanced text in front, exactly the logs outside all its braces count. */
  lemma DominatedPastBalanced(x: seq<Ch>, y: seq<Ch>, index: nat)
    requires Balanced(x) && Balanced(y) && index < |y|
    ensures Dominated(x + y, |x| + index) <==> TopLog(x) || Dominated(y, index)
  {
    var z, n := x + y, |x| + index;
    if at: nat :| Covers(z, at, n) {
      if at >= |x| {
        CoversSuffix(x, y, at - |x|, index);
      } else {
        var last := |x| - 1;
        DepthPrefix(x, y, at);
        DepthPrefix(x, y, last);
        assert DepthAt(x, at) <= DepthAt(x, last) <= 0 by {
          assert x == x[..last] + [x[last]];
          assert Height(x) == Height(x[..last]) + match x[last] case Open => 1 case Close => -1 case _ => 0;
          assert DepthAt(x, last) >= 0;
        }
        assert DepthAt(x, at) >= 0;
        assert TopLog(x);
      }
    }
    if Dominated(y, index) {
      var at: nat :| Covers(y, at, index);
      CoversSuffix(x, y, at, index);
    }
    if TopLog(x) {
      var at :| 0 <= at < |x| && x[at] == LogMark && DepthAt(x, at) == 0;
      TopLogCovers(x, y, at, index);
    }
  }

  lemma TopLogCovers(x: seq<Ch>, y: seq<Ch>, at: nat, index: nat)
    requires Balanced(x) && Balanced(y) && index < |y|
    requires at < |x| && x[at] == LogMark && DepthAt(x, at) == 0
    ensures Covers(x + y, at, |x| + index)
  {
    DepthPrefix(x, y, at);
    forall i | 0 <= i < |x + y| ensures DepthAt(x + y, i) >= 0 {
      BalancedConcat(x, y);
    }
  }

  /** A statement contributes a log to what follows it exactly when it is itself the log call. */
  lemma TopLogOfStmt(s: Stmt)
    ensures TopLog(PrintStmt(s)) <==> s.Log?
  {
    match s
    case Plain(text) => TextIsBalanced(text);
    case Log(args) => assert PrintStmt(s)[0] == LogMark && DepthAt(PrintStmt(s), 0) == 0;
    case Return(code, tail) => TextIsBalanced(tail);
    case Compound(arms) => NoTopLogInArms(arms);
    case Choice(arms) => NoTopLogInArms(arms);
    case Try(arms) => NoTopLogInArms(arms);
  }

  lemma {:induction false} NoTopLogInArms(a: Arms)
    ensures !TopLog(PrintArms(a))
  {
    match a
    case NoArm(tail) => TextIsBalanced(tail);
    case Arm(head, body, more) =>
      var x, y := FirstArm(head, body), PrintArms(more);
      FirstArmIsBalanced(head, body);
      NoTopLogInFirstArm(head, body);
      NoTopLogInArms(more);
      forall at | 0 <= at < |x + y| && (x + y)[at] == LogMark ensures DepthAt(x + y, at) != 0 {
        if at < |x| { DepthPrefix(x, y, at); } else { DepthSuffix(x, y, at - |x|); }
      }
  }

  lemma FirstArmLength(head: Text, body: Block)
    ensures |FirstArm(head, body)| == |PrintText(head)| + 1 + |Print(body)| + 1
  {}

  /** The marks of an arm are those of its body. */
  lemma InFirstArm(head: Text, body: Block, at: nat)
    requires at < |FirstArm(head, body)| && (FirstArm(head, body)[at].LogMark? || FirstArm(head, body)[at].ReturnMark?)
    ensures var start := |PrintText(head)| + 1;
            start <= at < start + |Print(body)| && FirstArm(head, body)[at] == Print(body)[at - start]
  {
    var h, rest := PrintText(head), [Open] + Print(body) + [Close];
    TextIsBalanced(head);
    assert forall i :: 0 <= i < |h| ==> FirstArm(head, body)[i] == h[i];
    assert at >= |h|;
    assert FirstArm(head, body)[at] == rest[at - |h|];
  }

  lemma {:induction false} NoTopLogInFirstArm(head: Text, body: Block)
    ensures !TopLog(FirstArm(head, body))
  {
    var h, b := PrintText(head), Print(body);
    TextIsBalanced(head);
    BlockIsBalanced(body);
    HeightConcat(h, [Open]);
    assert FirstArm(head, body) == h + [Open] + b + [Close];
    assert Height([]) == 0 && Height([Open]) == 1;
    forall at | 0 <= at < |FirstArm(head, body)| && FirstArm(head, body)[at] == LogMark
      ensures DepthAt(FirstArm(head, body), at) != 0
    {
      InFirstArm(head, body, at);
      DepthPrefix(h + [Open] + b, [Close], at);
      DepthSuffix(h + [Open], b, at - |h| - 1);
    }
  }

  // ------------------------------------------- the scan means what it should

  lemma NothingBefore(s: seq<Ch>)
    requires s != []
    ensures !Dominated(s, 0)
  {}

  lemma {:induction false} ScanOfBlock(b: Block, at: nat)
    requires at < |Print(b)| && Print(b)[at].ReturnMark?
    ensures Dominated(Print(b), at) <==> LogsBefore(b, at)
    decreases b, 0
  {
    hide Dominated, Balanced;
    var x, y := PrintStmt(b.first), Print(b.rest);
    if at < |x| {
      DominatedInPrefix(x, y, at);
      ScanInStmt(b.first, at);
    } else {
      StmtIsBalanced(b.first);
      BlockIsBalanced(b.rest);
      DominatedPastBalanced(x, y, at - |x|);
      TopLogOfStmt(b.first);
      ScanOfBlock(b.rest, at - |x|);
    }
  }

  lemma {:induction false} ScanInStmt(s: Stmt, at: nat)
    requires at < |PrintStmt(s)| && PrintStmt(s)[at].ReturnMark?
    ensures Dominated(PrintStmt(s), at) <==> Braced(s) && ArmLogsBefore(s.arms, at)
    decreases s, 1
  {
    hide Dominated, Balanced;
    match s
    case Plain(text) => TextIsBalanced(text);
    case Log(args) => TextIsBalanced(args);
    case Return(_, tail) => TextIsBalanced(tail); NothingBefore(PrintStmt(s));
    case Compound(arms) => ScanOfArms(arms, at);
    case Choice(arms) => ScanOfArms(arms, at);
    case Try(arms) => ScanOfArms(arms, at);
  }

  lemma {:induction false} ScanInFirstArm(head: Text, body: Block, at: nat)
    requires at < |FirstArm(head, body)| && FirstArm(head, body)[at].ReturnMark?
    ensures var start := |PrintText(head)| + 1;
            start <= at < start + |Print(body)|
              && (Dominated(FirstArm(head, body), at) <==> LogsBefore(body, at - start))
    decreases body, 1
  {
    hide Dominated, LogsBefore, Balanced, Print, PrintText;
    var h, b := PrintText(head) + [Open], Print(body);
    TextIsBalanced(head);
    InFirstArm(head, body, at);
    ScanOfBlock(body, at - |h|);
    assert FirstArm(head, body) == h + b + [Close];
    DominatedInPrefix(h + b, [Close], at);
    DominatedPastSilence(h, b, at - |h|);
  }

  lemma {:induction false} ScanOfArms(a: Arms, at: nat)
    requires at < |PrintArms(a)| && PrintArms(a)[at].ReturnMark?
    ensures Dominated(PrintArms(a), at) <==> ArmLogsBefore(a, at)
    decreases a
  {
    hide Dominated, Balanced, FirstArm, LogsBefore, TopLog;
    match a
    case NoArm(tail) => TextIsBalanced(tail);
    case Arm(head, body, more) =>
      FirstArmLength(head, body);
      var x, y := FirstArm(head, body), PrintArms(more);
      if at < |x| {
        DominatedInPrefix(x, y, at);
        ScanInFirstArm(head, body, at);
      } else {
        FirstArmIsBalanced(head, body);
        ArmsAreBalanced(more);
        NoTopLogInFirstArm(head, body);
        DominatedPastBalanced(x, y, at - |x|);
        ScanOfArms(more, at - |x|);
      }
  }

  // ---------------------------------------- what every execution has done

  ghost predicate IsReturn(s: seq<Ch>, at: nat) {
    at < |s| && s[at].ReturnMark?
  }

  /** An arm's inside seen from the outside. */
  lemma {:induction false} ArmPosition(a: Arms, n: nat, at: nat, silent: bool)
    requires ArmBody(a, n).Some? && at < |Print(ArmBody(a, n).value.0)|
    ensures var (body, start) := ArmBody(a, n).value;
            && start + at < |PrintArms(a)| && PrintArms(a)[start + at] == Print(body)[at]
            && (ArmReaches(a, start + at, silent) <==> Reaches(body, at, silent))
  {
    var x, y := FirstArm(a.head, a.body), PrintArms(a.more);
    assert PrintArms(a) == x + y;
    hide PrintArms, Reaches, Print, PrintText;
    if n == 0 {
      var start := |PrintText(a.head)| + 1;
      assert x[start + at] == Print(a.body)[at];
    } else {
      ArmPosition(a.more, n - 1, at, silent);
      NextArm(a, n);
      hide ArmBody;
      var (body, start) := ArmBody(a.more, n - 1).value;
      assert (x + y)[|x| + start + at] == y[start + at];
    }
  }

  lemma {:induction false} ArmPasses(a: Arms, n: nat, silent: bool)
    requires ArmBody(a, n).Some? && Passes(ArmBody(a, n).value.0, silent)
    ensures SomeArmPasses(a, silent)
  {
    if n > 0 { ArmPasses(a.more, n - 1, silent); }
  }

  /**
   * A run that falls through, or decides at `at`, could; and if no row was logged by then
   * (`silent`), it could without one.
   */
  ghost predicate Faithful(s: seq<Ch>, passes: bool, reaches: bool, silent: bool, logged: bool,
      result: Option<(bool, Outcome)>, at: nat) {
    result.Some? ==>
      && (logged ==> result.value.0)
      && ((silent ==> !result.value.0) ==>
            && (result.value.1 == Normal ==> passes)
            && (result.value.1 == Decided(at) ==> IsReturn(s, at) && reaches))
  }

  lemma {:induction false} BlockRuns(b: Block, r: Run, logged: bool, at: nat, silent: bool)
    ensures Faithful(Print(b), Passes(b, silent), Reaches(b, at, silent), silent, logged, Exec(b, r, logged), at)
    decreases r
  {
    if r.Through? && b.Then? {
      var n := |PrintStmt(b.first)|;
      StmtRuns(b.first, r.first, logged, at, silent);
      match ExecStmt(b.first, r.first, logged)
      case None =>
      case Some((l, o)) =>
        if o == Normal {
          BlockRuns(b.rest, r.rest, l, if at < n then 0 else at - n, silent);
        }
    }
  }

  lemma {:induction false} StmtRuns(s: Stmt, r: StmtRun, logged: bool, at: nat, silent: bool)
    ensures Faithful(PrintStmt(s), PassesStmt(s, silent), !Braced(s) || ArmReaches(s.arms, at, silent),
                     silent, logged, ExecStmt(s, r, logged), at)
    decreases r
  {
    if s.Compound? && r.Take? {
      PicksRun(s.arms, r.picks, logged, at, silent);
    } else if s.Choice? && r.Take? && r.picks.Pick? {
      PickRuns(s.arms, r.picks, logged, at, silent);
      ChoiceIsOneArm(s.arms, r.picks, logged);
    } else if s.Try? && r.Take? {
      TryRuns(s.arms, r.picks, logged, at, silent);
    }
  }

  lemma {:induction false} TryRuns(a: Arms, p: Picks, logged: bool, at: nat, silent: bool)
    ensures Faithful(PrintArms(a), SomeArmPasses(a, silent), ArmReaches(a, at, silent), silent, logged,
                     ExecTry(a, p, logged), at)
    decreases p
  {
    if a.Arm? && p.Pick? {
      var start, n := |PrintText(a.head)| + 1, |FirstArm(a.head, a.body)|;
      var inner := if at < start then 0 else at - start;
      BlockRuns(a.body, p.run, logged, inner, silent);
      if start <= at && inner < |Print(a.body)| { ArmPosition(a, 0, inner, silent); }
      match Exec(a.body, p.run, logged)
      case None =>
      case Some((l, o)) =>
        if o == Abrupt && a.more.Arm? {
          TryRuns(a.more, p.more, l, if at < n then 0 else at - n, silent);
          if at >= n { LaterArm(a, at - n, silent); }
        }
    }
  }

  /** A position in the arms after the first. */
  lemma LaterArm(a: Arms, at: nat, silent: bool)
    requires a.Arm?
    ensures var n := |FirstArm(a.head, a.body)|;
            && (IsReturn(PrintArms(a.more), at) ==> IsReturn(PrintArms(a), n + at))
            && (ArmReaches(a, n + at, silent) <==> ArmReaches(a.more, at, silent))
  {
    var x, y := FirstArm(a.head, a.body), PrintArms(a.more);
    assert PrintArms(a) == x + y && |x| == |PrintText(a.head)| + 1 + |Print(a.body)| + 1;
    if at < |y| { assert (x + y)[|x| + at] == y[at]; }
  }

  lemma ChoiceIsOneArm(a: Arms, p: Picks, logged: bool)
    requires p.Pick?
    ensures ExecChoice(a, p, logged) ==
              if p.more != NoMore || ArmBody(a, p.arm).None? then None else
              var (body, start) := ArmBody(a, p.arm).value;
              var result := Exec(body, p.run, logged);
              if result.None? then None else Some((result.value.0, Shift(result.value.1, start)))
  {}

  lemma {:induction false} PicksRun(a: Arms, p: Picks, logged: bool, at: nat, silent: bool)
    ensures Faithful(PrintArms(a), true, ArmReaches(a, at, silent), silent, logged, ExecPicks(a, p, logged), at)
    decreases p, 1
  {
    if p.Pick? && ArmBody(a, p.arm).Some? {
      PickRuns(a, p, logged, at, silent);
      match Exec(ArmBody(a, p.arm).value.0, p.run, logged)
      case None =>
      case Some((l, o)) => if !o.Decided? { PicksRun(a, p.more, l, at, silent); }
    }
  }

  /** The run of one arm, as it looks from outside. */
  lemma {:induction false} PickRuns(a: Arms, p: Picks, logged: bool, at: nat, silent: bool)
    requires p.Pick?
    ensures ArmBody(a, p.arm).Some? ==>
              var (body, start) := ArmBody(a, p.arm).value;
              var result := Exec(body, p.run, logged);
              Faithful(PrintArms(a), SomeArmPasses(a, silent), ArmReaches(a, at, silent), silent, logged,
                       if result.None? then None else Some((result.value.0, Shift(result.value.1, start))), at)
    decreases p, 0
  {
    if ArmBody(a, p.arm).Some? {
      var (body, start) := ArmBody(a, p.arm).value;
      var inner := if at < start then 0 else at - start;
      BlockRuns(body, p.run, logged, inner, silent);
      if Passes(body, silent) { ArmPasses(a, p.arm, silent); }
      if start <= at && inner < |Print(body)| { ArmPosition(a, p.arm, inner, silent); }
    }
  }

  // ------------------------------------- and a run that does what it may

  /** A run that falls through: past every compound statement, and through an arm of every choice that lets it. */
  function PassRun(b: Block, silent: bool): Run {
    if b.Done? then FellOff else Through(PassStmt(b.first, silent), PassRun(b.rest, silent))
  }

  function PassStmt(s: Stmt, silent: bool): StmtRun {
    match s
    case Compound(_) => Take(NoMore)
    case Choice(arms) => Take(PassArm(arms, 0, silent))
    case Try(arms) => Take(PassTry(arms, silent))
    case _ => Pass
  }

  function PassArm(a: Arms, n: nat, silent: bool): Picks {
    if a.NoArm? then NoMore
    else if Passes(a.body, silent) then Pick(n, PassRun(a.body, silent), NoMore)
    else PassArm(a.more, n + 1, silent)
  }

  /** Arms that cannot be passed raise before their first statement. */
  function PassTry(a: Arms, silent: bool): Picks {
    if a.NoArm? then NoMore
    else if Passes(a.body, silent) then Pick(0, PassRun(a.body, silent), NoMore)
    else Pick(0, Left, PassTry(a.more, silent))
  }

  /** The run that goes straight to the return at `at`. */
  function StraightTo(b: Block, at: nat, silent: bool): Run {
    if b.Done? then FellOff else
    var n := |PrintStmt(b.first)|;
    if at < n then Through(IntoStmt(b.first, at, silent), FellOff)
    else Through(PassStmt(b.first, silent), StraightTo(b.rest, at - n, silent))
  }

  function IntoStmt(s: Stmt, at: nat, silent: bool): StmtRun {
    match s
    case Compound(arms) => Take(Enter(arms, 0, at, silent))
    case Choice(arms) => Take(Enter(arms, 0, at, silent))
    case Try(arms) => Take(EnterTry(arms, at, silent))
    case _ => Pass
  }

  /** Arms before the one that holds the return raise before their first statement. */
  function EnterTry(a: Arms, at: nat, silent: bool): Picks {
    if a.NoArm? then NoMore else
    var start := |PrintText(a.head)| + 1;
    var end := start + |Print(a.body)|;
    if at < start || at == end then NoMore
    else if at < end then Pick(0, StraightTo(a.body, at - start, silent), NoMore)
    else Pick(0, Left, EnterTry(a.more, at - end - 1, silent))
  }

  function Enter(a: Arms, n: nat, at: nat, silent: bool): Picks {
    if a.NoArm? then NoMore else
    var start := |PrintText(a.head)| + 1;
    var end := start + |Print(a.body)|;
    if at < start || at == end then NoMore
    else if at < end then Pick(n, StraightTo(a.body, at - start, silent), NoMore)
    else Enter(a.more, n + 1, at - end - 1, silent)
  }

  /** The run ends that way, and without a new row if it is a silent one. */
  ghost predicate Ends(result: Option<(bool, Outcome)>, silent: bool, logged: bool, o: Outcome) {
    result.Some? && result.value.1 == o && (silent ==> result.value.0 == logged)
  }

  lemma {:induction false} PassRunPasses(b: Block, silent: bool, logged: bool)
    requires Passes(b, silent)
    ensures Ends(Exec(b, PassRun(b, silent), logged), silent, logged, Normal)
    decreases b
  {
    if b.Then? {
      PassStmtPasses(b.first, silent, logged);
      var (l, _) := ExecStmt(b.first, PassStmt(b.first, silent), logged).value;
      PassRunPasses(b.rest, silent, l);
    }
  }

  lemma {:induction false} PassStmtPasses(s: Stmt, silent: bool, logged: bool)
    requires PassesStmt(s, silent)
    ensures Ends(ExecStmt(s, PassStmt(s, silent), logged), silent, logged, Normal)
    decreases s
  {
    if s.Choice? { PassArmPasses(s.arms, s.arms, 0, 0, silent, logged); }
    if s.Try? { PassTryPasses(s.arms, silent, logged); }
  }

  lemma {:induction false} PassTryPasses(a: Arms, silent: bool, logged: bool)
    requires SomeArmPasses(a, silent)
    ensures Ends(ExecTry(a, PassTry(a, silent), logged), silent, logged, Normal)
    decreases a
  {
    if Passes(a.body, silent) {
      PassRunPasses(a.body, silent, logged);
    } else {
      assert Exec(a.body, Left, logged) == Some((logged, Abrupt));
      PassTryPasses(a.more, silent, logged);
    }
  }

  lemma {:induction false} PassArmPasses(whole: Arms, a: Arms, n: nat, before: nat, silent: bool, logged: bool)
    requires SomeArmPasses(a, silent) && ArmsAfter(whole, a, n, before)
    ensures Ends(ExecChoice(whole, PassArm(a, n, silent), logged), silent, logged, Normal)
    decreases a
  {
    if Passes(a.body, silent) {
      PassRunPasses(a.body, silent, logged);
      ArmAt(whole, a, n, before);
    } else {
      ArmsAfterOne(whole, a, n, before);
      PassArmPasses(whole, a.more, n + 1, before + |FirstArm(a.head, a.body)|, silent, logged);
    }
  }

  lemma {:induction false} StraightRunArrives(b: Block, at: nat, silent: bool, logged: bool)
    requires IsReturn(Print(b), at) && Reaches(b, at, silent)
    ensures Ends(Exec(b, StraightTo(b, at, silent), logged), silent, logged, Decided(at))
    decreases b
  {
    var n := |PrintStmt(b.first)|;
    if at < n {
      StraightIntoStmt(b.first, at, silent, logged);
    } else {
      PassStmtPasses(b.first, silent, logged);
      var (l, _) := ExecStmt(b.first, PassStmt(b.first, silent), logged).value;
      StraightRunArrives(b.rest, at - n, silent, l);
      hide ExecStmt, PassStmt, PassesStmt, Passes;
    }
  }

  /** The run of the statement that holds the return. */
  lemma {:induction false} StraightIntoStmt(s: Stmt, at: nat, silent: bool, logged: bool)
    requires IsReturn(PrintStmt(s), at) && (Braced(s) ==> ArmReaches(s.arms, at, silent))
    ensures Ends(ExecStmt(s, IntoStmt(s, at, silent), logged), silent, logged, Decided(at))
    decreases s
  {
    match s
    case Plain(text) => TextIsBalanced(text);
    case Log(args) => TextIsBalanced(args);
    case Return(_, tail) => TextIsBalanced(tail);
    case Compound(arms) => EnterArrives(arms, arms, 0, 0, at, silent, logged);
    case Choice(arms) => EnterArrives(arms, arms, 0, 0, at, silent, logged);
    case Try(arms) => EnterTryArrives(arms, at, silent, logged);
  }

  function Moved(arm: Option<(Block, nat)>, offset: nat): Option<(Block, nat)> {
    if arm.None? then None else Some((arm.value.0, offset + arm.value.1))
  }

  /** `a` is what is left of `whole` after its first `n` arms, which take up `before` characters. */
  predicate ArmsAfter(whole: Arms, a: Arms, n: nat, before: nat)
    decreases n
  {
    if n == 0 then a == whole && before == 0 else
    whole.Arm? && before >= |FirstArm(whole.head, whole.body)| &&
    ArmsAfter(whole.more, a, n - 1, before - |FirstArm(whole.head, whole.body)|)
  }

  lemma NextArm(a: Arms, n: nat)
    requires a.Arm? && n > 0
    ensures ArmBody(a, n) == Moved(ArmBody(a.more, n - 1), |FirstArm(a.head, a.body)|)
  {}

  lemma {:induction false} ArmsAfterOne(whole: Arms, a: Arms, n: nat, before: nat)
    requires a.Arm? && ArmsAfter(whole, a, n, before)
    ensures ArmsAfter(whole, a.more, n + 1, before + |FirstArm(a.head, a.body)|)
    decreases n
  {
    hide FirstArm;
    if n == 0 {
      assert ArmsAfter(a.more, a.more, 0, 0);
    } else {
      ArmsAfterOne(whole.more, a, n - 1, before - |FirstArm(whole.head, whole.body)|);
    }
  }

  lemma {:induction false} ArmAt(whole: Arms, a: Arms, n: nat, before: nat)
    requires a.Arm? && ArmsAfter(whole, a, n, before)
    ensures ArmBody(whole, n) == Some((a.body, before + |PrintText(a.head)| + 1))
    decreases n
  {
    if n > 0 {
      ArmAt(whole.more, a, n - 1, before - |FirstArm(whole.head, whole.body)|);
      NextArm(whole, n);
    }
  }

  /** One arm that decides decides the whole statement, at its place in it. */
  lemma OneArmDecides(whole: Arms, n: nat, run: Run, silent: bool, logged: bool, at: nat)
    requires ArmBody(whole, n).Some? && Ends(Exec(ArmBody(whole, n).value.0, run, logged), silent, logged, Decided(at))
    ensures Ends(ExecPicks(whole, Pick(n, run, NoMore), logged), silent, logged,
        Decided(ArmBody(whole, n).value.1 + at))
    ensures Ends(ExecChoice(whole, Pick(n, run, NoMore), logged), silent, logged,
        Decided(ArmBody(whole, n).value.1 + at))
  {}

  lemma {:induction false} EnterArrives(whole: Arms, a: Arms, n: nat, before: nat, at: nat, silent: bool, logged: bool)
    requires IsReturn(PrintArms(a), at) && ArmReaches(a, at, silent) && ArmsAfter(whole, a, n, before)
    ensures Ends(ExecPicks(whole, Enter(a, n, at, silent), logged), silent, logged, Decided(before + at))
    ensures Ends(ExecChoice(whole, Enter(a, n, at, silent), logged), silent, logged, Decided(before + at))
    decreases a
  {
    hide Exec, ExecPicks, ExecChoice, ArmBody, ArmsAfter, Balanced, Ends;
    match a
    case NoArm(tail) => TextIsBalanced(tail);
    case Arm(head, body, more) =>
      var start := |PrintText(head)| + 1;
      var end := start + |Print(body)|;
      TextIsBalanced(head);
      assert |FirstArm(head, body)| == end + 1;
      if at <= end {
        InFirstArm(head, body, at);
        StraightRunArrives(body, at - start, silent, logged);
        ArmAt(whole, a, n, before);
        OneArmDecides(whole, n, StraightTo(body, at - start, silent), silent, logged, at - start);
      } else {
        ArmsAfterOne(whole, a, n, before);
        EnterArrives(whole, more, n + 1, before + end + 1, at - end - 1, silent, logged);
      }
  }

  lemma TryDecides(a: Arms, run: Run, silent: bool, logged: bool, at: nat)
    requires a.Arm? && Ends(Exec(a.body, run, logged), silent, logged, Decided(at))
    ensures Ends(ExecTry(a, Pick(0, run, NoMore), logged), silent, logged, Decided(|PrintText(a.head)| + 1 + at))
  {}

  lemma HandlerDecides(a: Arms, picks: Picks, silent: bool, logged: bool, at: nat)
    requires a.Arm? && a.more.Arm? && Ends(ExecTry(a.more, picks, logged), silent, logged, Decided(at))
    ensures Ends(ExecTry(a, Pick(0, Left, picks), logged), silent, logged, Decided(|FirstArm(a.head, a.body)| + at))
  {
    assert Exec(a.body, Left, logged) == Some((logged, Abrupt));
    hide Exec;
  }

  lemma {:induction false} EnterTryArrives(a: Arms, at: nat, silent: bool, logged: bool)
    requires IsReturn(PrintArms(a), at) && ArmReaches(a, at, silent)
    ensures Ends(ExecTry(a, EnterTry(a, at, silent), logged), silent, logged, Decided(at))
    decreases a
  {
    hide Exec, ExecTry, Ends, Balanced;
    match a
    case NoArm(tail) => TextIsBalanced(tail);
    case Arm(head, body, more) =>
      var start := |PrintText(head)| + 1;
      var end := start + |Print(body)|;
      FirstArmLength(head, body);
      TextIsBalanced(head);
      if at <= end {
        InFirstArm(head, body, at);
        StraightRunArrives(body, at - start, silent, logged);
        TryDecides(a, StraightTo(body, at - start, silent), silent, logged, at - start);
      } else {
        assert PrintArms(a)[at] == PrintArms(more)[at - end - 1];
        EnterTryArrives(more, at - end - 1, silent, logged);
        HandlerDecides(a, EnterTry(more, at - end - 1, silent), silent, logged, at - end - 1);
      }
  }

  // -------------------------------------------------------------- the gate

  /** Every execution that decides there has logged; and no execution decides there. */
  ghost predicate AlwaysLogged(b: Block, at: nat) {
    forall r, l :: Exec(b, r, false) == Some((l, Decided(at))) ==> l
  }

  ghost predicate Dead(b: Block, at: nat) {
    forall r, l :: Exec(b, r, false) != Some((l, Decided(at)))
  }

  /** Both are decided by the text: what must log, and what cannot be fallen through. */
  lemma ExecutionsAreExact(b: Block, at: nat)
    requires IsReturn(Print(b), at)
    ensures AlwaysLogged(b, at) <==> !Reaches(b, at, true)
    ensures Dead(b, at) <==> !Reaches(b, at, false)
  {
    forall r, l | Exec(b, r, false) == Some((l, Decided(at)))
      ensures Reaches(b, at, false) && (!l ==> Reaches(b, at, true))
    {
      BlockRuns(b, r, false, at, false);
      BlockRuns(b, r, false, at, true);
    }
    if Reaches(b, at, true) {
      StraightRunArrives(b, at, true, false);
      assert Exec(b, StraightTo(b, at, true), false) == Some((false, Decided(at)));
    }
    if Reaches(b, at, false) {
      StraightRunArrives(b, at, false, false);
      var (l, _) := Exec(b, StraightTo(b, at, false), false).value;
      assert Exec(b, StraightTo(b, at, false), false) == Some((l, Decided(at)));
    }
  }

  lemma {:induction false} SilentlyPassesToo(b: Block)
    requires Passes(b, true)
    ensures Passes(b, false)
    decreases b
  {
    if b.Then? {
      if Exhaustive(b.first) { SilentArmPassesToo(b.first.arms); }
      SilentlyPassesToo(b.rest);
    }
  }

  lemma {:induction false} SilentArmPassesToo(a: Arms)
    requires SomeArmPasses(a, true)
    ensures SomeArmPasses(a, false)
    decreases a
  {
    if Passes(a.body, true) { SilentlyPassesToo(a.body); } else { SilentArmPassesToo(a.more); }
  }

  /** What stands in the way of a silent run: a direct log, a chain that logs in every arm, or no way at all. */
  lemma {:induction false} SilenceIsBroken(b: Block, at: nat)
    ensures !Reaches(b, at, true) <==> LogsBefore(b, at) || ChoiceLogsBefore(b, at) || !Reaches(b, at, false)
    decreases b
  {
    if b.Then? {
      var n := |PrintStmt(b.first)|;
      if at < n {
        if Braced(b.first) { ArmSilenceIsBroken(b.first.arms, at); }
      } else {
        SilenceIsBroken(b.rest, at - n);
        if Exhaustive(b.first) && SomeArmPasses(b.first.arms, true) { SilentArmPassesToo(b.first.arms); }
      }
    }
  }

  lemma {:induction false} ArmSilenceIsBroken(a: Arms, at: nat)
    ensures !ArmReaches(a, at, true) <==>
        ArmLogsBefore(a, at) || ArmChoiceLogsBefore(a, at) || !ArmReaches(a, at, false)
    decreases a
  {
    if a.Arm? {
      var start := |PrintText(a.head)| + 1;
      var end := start + |Print(a.body)|;
      if start <= at < end {
        SilenceIsBroken(a.body, at - start);
      } else if at > end {
        ArmSilenceIsBroken(a.more, at - end - 1);
      }
    }
  }

  /**
   * The depth scan accepts exactly the returns with an earlier direct log in an enclosing
   * block.  A return is always logged exactly when the scan accepts it, or it is dead, or an
   * if/else chain or a try/catch before it, in an enclosing block, logs in every arm that falls
   * through: the last two are what the gate reports although no execution lacks its row.
   */
  lemma DominanceIsExact(b: Block, at: nat)
    requires IsReturn(Print(b), at)
    ensures Dominated(Print(b), at) <==> LogsBefore(b, at)
    ensures AlwaysLogged(b, at) <==> Dominated(Print(b), at) || ChoiceLogsBefore(b, at) || Dead(b, at)
  {
    ScanOfBlock(b, at);
    SilenceIsBroken(b, at);
    ExecutionsAreExact(b, at);
  }

  const LOGS := Then(Log(Empty), Done)

  const LAST := Then(Return("ALLOW", Empty), Done)

  const TWO_LOGS := Arm(Empty, LOGS, Arm(Empty, LOGS, NoArm(Empty)))

  lemma TwoArmsPass(head: Text, x: Block, middle: Text, y: Block, tail: Text, silent: bool)
    ensures SomeArmPasses(Arm(head, x, Arm(middle, y, NoArm(tail))), silent) <==> Passes(x, silent) || Passes(y, silent)
  {
    var last := NoArm(tail);
    var more := Arm(middle, y, last);
    hide Passes;
    assert !SomeArmPasses(last, silent);
    assert SomeArmPasses(more, silent) <==> Passes(y, silent);
  }

  lemma LogPasses(silent: bool)
    ensures Passes(LOGS, silent) <==> !silent
  {
    assert PassesStmt(LOGS.first, silent) <==> !silent;
    assert Passes(Done, silent);
    hide PassesStmt;
  }

  lemma BothLog(silent: bool)
    ensures SomeArmPasses(TWO_LOGS, silent) <==> !silent
  {
    LogPasses(silent);
    TwoArmsPass(Empty, LOGS, Empty, LOGS, Empty, silent);
    hide Passes, SomeArmPasses;
  }

  lemma LastIsReturn()
    ensures Print(LAST) == PrintStmt(LAST.first) == [ReturnMark("ALLOW")]
  {
    assert PrintText(Empty) == [] && Print(Done) == [];
  }

  lemma ReturnAfter(s: Stmt)
    ensures IsReturn(Print(Then(s, LAST)), |PrintStmt(s)|)
    ensures forall silent :: Reaches(Then(s, LAST), |PrintStmt(s)|, silent) <==> PassesStmt(s, silent)
    ensures LogsBefore(Then(s, LAST), |PrintStmt(s)|) <==> s.Log?
  {
    LastIsReturn();
    hide PrintStmt, PassesStmt;
    assert Print(Then(s, LAST))[|PrintStmt(s)|] == Print(LAST)[0];
  }

  /**
   * After an if/else chain or a try/catch that has an arm to fall through, but none without
   * a log: the return is rejected, though every execution reaches it with a row.
   */
  lemma RejectedThoughLogged(s: Stmt)
    requires Exhaustive(s) && SomeArmPasses(s.arms, false) && !SomeArmPasses(s.arms, true)
    ensures var b, at := Then(s, LAST), |PrintStmt(s)|;
            IsReturn(Print(b), at) && !Dominated(Print(b), at) && AlwaysLogged(b, at) && !Dead(b, at)
  {
    var b, at := Then(s, LAST), |PrintStmt(s)|;
    ReturnAfter(s);
    hide Dominated, AlwaysLogged, Dead, PrintStmt, Reaches, LogsBefore;
    ExecutionsAreExact(b, at);
    DominanceIsExact(b, at);
  }

  /** `if (c) { log } else { log } return`. */
  lemma ExhaustiveLogIsRejected()
    ensures var b, at := Then(Choice(TWO_LOGS), LAST), |PrintStmt(Choice(TWO_LOGS))|;
            IsReturn(Print(b), at) && !Dominated(Print(b), at) && AlwaysLogged(b, at) && !Dead(b, at)
  {
    BothLog(true);
    BothLog(false);
    hide SomeArmPasses, Dominated, AlwaysLogged, Dead, PrintStmt;
    RejectedThoughLogged(Choice(TWO_LOGS));
  }

  /** `try { log } catch { log } return`. */
  lemma LoggingTryIsRejected()
    ensures var b, at := Then(Try(TWO_LOGS), LAST), |PrintStmt(Try(TWO_LOGS))|;
            IsReturn(Print(b), at) && !Dominated(Print(b), at) && AlwaysLogged(b, at) && !Dead(b, at)
  {
    BothLog(true);
    BothLog(false);
    hide SomeArmPasses, Dominated, AlwaysLogged, Dead, PrintStmt;
    RejectedThoughLogged(Try(TWO_LOGS));
  }

  lemma ReturnNeverPasses(code: string, tail: Text, rest: Block)
    ensures !Passes(Then(Return(code, tail), rest), false)
  {}

  /** `try { return A } catch { return B } return C`: the last return is dead. */
  lemma ReturningTryEnds(head: Text, x: Stmt, middle: Text, y: Stmt, tail: Text)
    requires x.Return? && y.Return?
    ensures var s := Try(Arm(head, Then(x, Done), Arm(middle, Then(y, Done), NoArm(tail))));
            IsReturn(Print(Then(s, LAST)), |PrintStmt(s)|) && Dead(Then(s, LAST), |PrintStmt(s)|)
  {
    var s := Try(Arm(head, Then(x, Done), Arm(middle, Then(y, Done), NoArm(tail))));
    ReturnNeverPasses(x.code, x.tail, Done);
    ReturnNeverPasses(y.code, y.tail, Done);
    TwoArmsPass(head, Then(x, Done), middle, Then(y, Done), tail, false);
    ReturnAfter(s);
    hide Dead, AlwaysLogged, PrintStmt, SomeArmPasses, Passes, Reaches;
    ExecutionsAreExact(Then(s, LAST), |PrintStmt(s)|);
  }

  ghost function UnloggedAt(found: seq<DecisionReturn>, exempt: set<string>): set<int> {
    set i | 0 <= i < |found| && !found[i].logged && found[i].code !in exempt
  }

  /** One problem for each return that neither logs nor is exempt, in order. */
  lemma {:induction false} UnloggedInOrder(found: seq<DecisionReturn>, exempt: set<string>) returns (at: seq<int>)
    ensures InOrder(at, UnloggedAt(found, exempt)) && |at| == |FindUnlogged(found, exempt)|
    ensures forall a :: 0 <= a < |at| ==> 0 <= at[a] < |found| && FindUnlogged(found, exempt)[a] == found[at[a]].code
    decreases |found|
  {
    at := [];
    if found != [] {
      var n := |found| - 1;
      var front := found[..n];
      var reported := !found[n].logged && found[n].code !in exempt;
      at := UnloggedInOrder(front, exempt);
      OneMoreInOrder(at, UnloggedAt(front, exempt), n);
      assert UnloggedAt(found, exempt) == UnloggedAt(front, exempt) + if reported then {n} else {};
      hide InOrder, UnloggedAt;
      if reported { at := at + [n]; }
    }
  }

  lemma UnloggedCodes(found: seq<DecisionReturn>, exempt: set<string>, code: string)
    ensures code in FindUnlogged(found, exempt) <==>
              code !in exempt && exists k :: 0 <= k < |found| && !found[k].logged && found[k].code == code
  {
    var at := UnloggedInOrder(found, exempt);
    if code in FindUnlogged(found, exempt) {
      var a :| 0 <= a < |at| && FindUnlogged(found, exempt)[a] == code;
      assert at[a] in at;
    }
    if k :| 0 <= k < |found| && !found[k].logged && found[k].code == code && code !in exempt {
      assert k in UnloggedAt(found, exempt);
      var a :| 0 <= a < |at| && at[a] == k;
      assert FindUnlogged(found, exempt)[a] == code;
    }
  }

  /** The gate reports a code exactly when a return with that code has no log before it and is not exempt. */
  lemma GateReportsExactly(b: Block, found: seq<DecisionReturn>, exempt: set<string>, code: string)
    requires Collected(Print(b), |Print(b)|, found)
    ensures code in FindUnlogged(found, exempt) <==>
              && code !in exempt
              && exists at: nat :: IsReturn(Print(b), at) && Print(b)[at].code == code && !LogsBefore(b, at)
  {
    UnloggedCodes(found, exempt, code);
    forall k | 0 <= k < |found|
      ensures IsReturn(Print(b), found[k].index) && Print(b)[found[k].index].code == found[k].code
      ensures found[k].logged <==> LogsBefore(b, found[k].index)
    {
      ScanOfBlock(b, found[k].index);
    }
    forall at: nat | IsReturn(Print(b), at) && Print(b)[at].code == code && !LogsBefore(b, at)
      ensures exists k :: 0 <= k < |found| && !found[k].logged && found[k].code == code
    {
      var k :| 0 <= k < |found| && found[k].index == at;
    }
    hide Collected, Dominated, LogsBefore, Print;
    if k :| 0 <= k < |found| && !found[k].logged && found[k].code == code {
      assert IsReturn(Print(b), found[k].index);
    }
  }

  /** When the gate is green, every execution that ends in a decision it does not exempt wrote a row. */
  lemma GreenGateMeansLogged(b: Block, found: seq<DecisionReturn>, exempt: set<string>, r: Run, logged: bool, at: nat)
    requires Collected(Print(b), |Print(b)|, found) && FindUnlogged(found, exempt) == []
    requires Exec(b, r, false) == Some((logged, Decided(at)))
    ensures IsReturn(Print(b), at) && (Print(b)[at].code !in exempt ==> logged)
  {
    BlockRuns(b, r, false, at, false);
    BlockRuns(b, r, false, at, true);
    SilenceIsBroken(b, at);
    GateReportsExactly(b, found, exempt, Print(b)[at].code);
    assert IsReturn(Print(b), at) && Print(b)[at].code !in FindUnlogged(found, exempt);
  }
}
