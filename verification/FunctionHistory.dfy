/**
 * What a history of function DDL means in the database, statement by statement: which function
 * a name stands for, and which action decided its search path last.  Nothing here knows the
 * gate (scripts/db-function-search-path-check.ts); FunctionFold compares it with this meaning.
 */
module FunctionHistory {
  import opened Common

  // -------------------------------------------------------------------- names

  /** One part of a qualified name: what splitting at dots yields. */
  type Part = s: string | '.' !in s witness ""

  datatype Name = Name(schema: Part, part: Part)

  /** Where a name without a schema lives. */
  const PUBLIC: Part := "public"

  // --------------------------------------------------------------- statements

  /** A search path: the schemas listed, or whatever the session had that ran FROM CURRENT. */
  datatype Path = Listed(names: seq<string>) | OfSession

  /** The clauses that matter; ToDefault is `SET search_path TO DEFAULT`, which clears the path. */
  datatype Action =
    | Set(names: seq<string>)
    | ToDefault
    | FromCurrent
    | Reset
    | Security(definer: bool)
    | OtherAction

  /** The clauses of a CREATE; its grammar has no RESET. */
  type Clauses = a: seq<Action> | Reset !in a witness []

  /** A function as a statement refers to it, with or without an argument list. */
  datatype Ref = Ref(name: Name, args: Option<nat>)

  /** An ALTER either takes actions, in order, or renames, or changes the schema. */
  datatype Form = Acts(actions: seq<Action>) | RenameTo(part: Part) | MoveTo(schema: Part)

  datatype Statement =
    | Create(name: Name, arity: nat, returnsTrigger: bool, clauses: Clauses)
    | Alter(ref: Ref, form: Form)
    | Drop(first: Ref, more: seq<Ref>)
    | Other

  predicate Hits(ref: Ref, n: Name, k: nat) {
    ref.name == n && (ref.args.None? || ref.args == Some(k))
  }

  predicate HitsSome(refs: seq<Ref>, n: Name, k: nat) {
    exists i :: 0 <= i < |refs| && Hits(refs[i], n, k)
  }

  /** The name an ALTER leaves its function with. */
  function NewName(st: Statement): Name
    requires st.Alter?
  {
    match st.form
    case Acts(_) => st.ref.name
    case RenameTo(part) => Name(st.ref.name.schema, part)
    case MoveTo(schema) => Name(schema, st.ref.name.part)
  }

  // ------------------------------------------------------------------ actions

  predicate IsPin(a: Action) {
    a.Set? || a.ToDefault? || a.FromCurrent? || a.Reset?
  }

  function ValueOf(a: Action): Option<Path>
    requires IsPin(a)
  {
    match a
    case Set(names) => Some(Listed(names))
    case FromCurrent => Some(OfSession)
    case _ => None
  }

  /** What the actions leave the path at: None when they do not touch it. */
  function PinSet(actions: seq<Action>): Option<Option<Path>> {
    if actions == [] then None else
    var last := actions[|actions| - 1];
    if IsPin(last) then Some(ValueOf(last)) else PinSet(actions[..|actions| - 1])
  }

  predicate LastPinAt(actions: seq<Action>, i: nat) {
    i < |actions| && IsPin(actions[i]) && forall j :: i < j < |actions| ==> !IsPin(actions[j])
  }

  /** The last of them decides. */
  lemma {:induction false} LastActionWins(actions: seq<Action>)
    ensures PinSet(actions).None? <==> forall i :: 0 <= i < |actions| ==> !IsPin(actions[i])
    ensures forall i: nat :: LastPinAt(actions, i) ==> PinSet(actions) == Some(ValueOf(actions[i]))
    ensures PinSet(actions).Some? ==> exists i: nat :: LastPinAt(actions, i)
  {
    if actions != [] {
      var n := |actions| - 1;
      var front := actions[..n];
      LastActionWins(front);
      if IsPin(actions[n]) {
        assert LastPinAt(actions, n);
      } else {
        forall i: nat ensures LastPinAt(actions, i) <==> LastPinAt(front, i) {}
      }
    }
  }

  function SecuritySet(actions: seq<Action>): Option<bool> {
    if actions == [] then None else
    var last := actions[|actions| - 1];
    if last.Security? then Some(last.definer) else SecuritySet(actions[..|actions| - 1])
  }

  predicate LastSecurityAt(actions: seq<Action>, i: nat) {
    i < |actions| && actions[i].Security? && forall j :: i < j < |actions| ==> !actions[j].Security?
  }

  lemma {:induction false} LastSecurityWins(actions: seq<Action>)
    ensures SecuritySet(actions).None? <==> forall i :: 0 <= i < |actions| ==> !actions[i].Security?
    ensures forall i: nat :: LastSecurityAt(actions, i) ==> SecuritySet(actions) == Some(actions[i].definer)
    ensures SecuritySet(actions).Some? ==> exists i: nat :: LastSecurityAt(actions, i)
  {
    if actions != [] {
      var n := |actions| - 1;
      var front := actions[..n];
      LastSecurityWins(front);
      if actions[n].Security? {
        assert LastSecurityAt(actions, n);
      } else {
        forall i: nat ensures LastSecurityAt(actions, i) <==> LastSecurityAt(front, i) {}
      }
    }
  }

  // --------------------------------------------------------------- the history

  datatype Info = Info(returnsTrigger: bool, securityDefiner: bool, searchPath: Option<Path>)

  function Or<T>(a: Option<T>, b: T): T {
    if a.Some? then a.value else b
  }

  function Acted(form: Form, before: Info): Info {
    match form
    case Acts(actions) =>
      before.(securityDefiner := Or(SecuritySet(actions), before.securityDefiner),
              searchPath := Or(PinSet(actions), before.searchPath))
    case _ => before
  }

  /** What a CREATE makes of its function. */
  function Created(st: Statement): Info
    requires st.Create?
  {
    Info(st.returnsTrigger, Or(SecuritySet(st.clauses), false), Or(PinSet(st.clauses), None))
  }

  /** What is known of the function with this name and arity after the statements; None if there is none. */
  function InfoAfter(h: seq<Statement>, n: Name, k: nat): Option<Info>
    decreases |h|
  {
    if h == [] then None else
    var p, st := h[..|h| - 1], h[|h| - 1];
    if st.Create? && st.name == n && st.arity == k then Some(Created(st))
    else if st.Drop? && HitsSome([st.first] + st.more, n, k) then None
    else if st.Alter? && n == NewName(st) && Hits(st.ref, st.ref.name, k) && InfoAfter(p, st.ref.name, k).Some?
      then Some(Acted(st.form, InfoAfter(p, st.ref.name, k).value))
    else if st.Alter? && Hits(st.ref, n, k) then None
    else InfoAfter(p, n, k)
  }

  predicate Live(h: seq<Statement>, n: Name, k: nat) {
    InfoAfter(h, n, k).Some?
  }

  /** The last statement is an ALTER that leaves a live function with this name. */
  predicate Arrives(h: seq<Statement>, n: Name, k: nat)
    requires h != []
  {
    var st := h[|h| - 1];
    st.Alter? && n == NewName(st) && Hits(st.ref, st.ref.name, k) && Live(h[..|h| - 1], st.ref.name, k)
  }

  /** The last statement created it. */
  predicate Born(h: seq<Statement>, n: Name, k: nat)
    requires h != []
  {
    h[|h| - 1].Create? && h[|h| - 1].name == n && h[|h| - 1].arity == k
  }

  /** Its name before the last statement. */
  function Earlier(h: seq<Statement>, n: Name, k: nat): (m: Name)
    requires Live(h, n, k) && !Born(h, n, k)
    ensures Live(h[..|h| - 1], m, k)
  {
    if Arrives(h, n, k) then h[|h| - 1].ref.name else n
  }

  /** A statement that sets or clears the path of the function it is applied to. */
  predicate Pins(st: Statement) {
    st.Create? || (st.Alter? && st.form.Acts? && PinSet(st.form.actions).Some?)
  }

  function PinBy(st: Statement): Option<Path>
    requires Pins(st)
  {
    if st.Create? then Or(PinSet(st.clauses), None) else PinSet(st.form.actions).value
  }

  /** The function's name after the first `i` statements, followed back from its name at the end. */
  function NameAfter(h: seq<Statement>, n: Name, k: nat, i: nat): Name
    requires i <= |h| && Live(h, n, k)
    decreases |h|
  {
    if i == |h| || Born(h, n, k) then n else NameAfter(h[..|h| - 1], Earlier(h, n, k), k, i)
  }

  /** What there is to know of a function. */
  datatype Aspect = Trigger | Definer | Pinned

  /** A statement that decides this of the function it is applied to. */
  predicate Decides(st: Statement, what: Aspect) {
    || st.Create?
    || (st.Alter? && st.form.Acts? && what == Pinned && PinSet(st.form.actions).Some?)
    || (st.Alter? && st.form.Acts? && what == Definer && SecuritySet(st.form.actions).Some?)
  }

  /** Where it was decided last. */
  function LastIndex(h: seq<Statement>, n: Name, k: nat, what: Aspect): (i: nat)
    requires Live(h, n, k)
    ensures i < |h|
    decreases |h|
  {
    if Born(h, n, k) || (Arrives(h, n, k) && Decides(h[|h| - 1], what)) then |h| - 1
    else LastIndex(h[..|h| - 1], Earlier(h, n, k), k, what)
  }

  /** Statement i creates this function or alters it, under the names it has before and after. */
  predicate Concerns(h: seq<Statement>, n: Name, k: nat, i: nat)
    requires i < |h| && Live(h, n, k)
  {
    match h[i]
    case Create(m, a, _, _) => m == NameAfter(h, n, k, i + 1) && a == k
    case Alter(ref, _) => Hits(ref, NameAfter(h, n, k, i), k) && NewName(h[i]) == NameAfter(h, n, k, i + 1)
    case _ => false
  }

  /** What the function is known to be in this respect is what that statement says. */
  predicate Says(st: Statement, what: Aspect, i: Info)
    requires Decides(st, what)
  {
    match what
    case Trigger => i.returnsTrigger == st.returnsTrigger
    case Definer => i.securityDefiner == Or(SecuritySet(if st.Create? then st.clauses else st.form.actions), false)
    case Pinned => i.searchPath == PinBy(st)
  }

  /** The last event wins: it concerns the function, nothing after it decides, and it is what is known. */
  lemma {:induction false} LastEventWins(h: seq<Statement>, n: Name, k: nat, what: Aspect)
    requires Live(h, n, k)
    ensures var i := LastIndex(h, n, k, what);
            && Concerns(h, n, k, i) && Decides(h[i], what) && Says(h[i], what, InfoAfter(h, n, k).value)
            && forall j :: i < j < |h| && Concerns(h, n, k, j) ==> !Decides(h[j], what)
    decreases |h|
  {
    var p, st := h[..|h| - 1], h[|h| - 1];
    if !Born(h, n, k) && !(Arrives(h, n, k) && Decides(st, what)) {
      var m := Earlier(h, n, k);
      LastEventWins(p, m, k, what);
      forall j | 0 <= j < |p| ensures Concerns(h, n, k, j) <==> Concerns(p, m, k, j) {
        assert h[j] == p[j] && NameAfter(h, n, k, j) == NameAfter(p, m, k, j);
        assert NameAfter(h, n, k, j + 1) == NameAfter(p, m, k, j + 1);
      }
      assert NameAfter(h, n, k, |h| - 1) == m;
    }
  }

  /** For the path: the last pin event wins. */
  lemma LastPinWins(h: seq<Statement>, n: Name, k: nat)
    requires Live(h, n, k)
    ensures var i := LastIndex(h, n, k, Pinned);
            && Concerns(h, n, k, i) && Pins(h[i]) && InfoAfter(h, n, k).value.searchPath == PinBy(h[i])
            && forall j :: i < j < |h| && Concerns(h, n, k, j) ==> !Pins(h[j])
  {
    LastEventWins(h, n, k, Pinned);
  }

  /** The statement that decided it last. */
  function LastOf(h: seq<Statement>, n: Name, k: nat, what: Aspect): (st: Statement)
    requires Live(h, n, k)
    ensures Decides(st, what)
  {
    LastEventWins(h, n, k, what);
    h[LastIndex(h, n, k, what)]
  }

  /** What one more statement makes of the known functions. */
  lemma OneMoreStatement(h: seq<Statement>, st: Statement, n: Name, k: nat)
    ensures InfoAfter(h + [st], n, k) ==
            if st.Create? && st.name == n && st.arity == k then Some(Created(st))
            else if st.Drop? && HitsSome([st.first] + st.more, n, k) then None
            else if st.Alter? && n == NewName(st) && Hits(st.ref, st.ref.name, k) && Live(h, st.ref.name, k)
              then Some(Acted(st.form, InfoAfter(h, st.ref.name, k).value))
            else if st.Alter? && Hits(st.ref, n, k) then None
            else InfoAfter(h, n, k)
  {
    assert (h + [st])[..|h|] == h;
  }

  /** The database runs it: a function is not given the name of another one. */
  ghost predicate Accepted(h: seq<Statement>, st: Statement) {
    st.Alter? ==>
      forall k :: Hits(st.ref, st.ref.name, k) && Live(h, st.ref.name, k) && NewName(st) != st.ref.name ==>
        !Live(h, NewName(st), k)
  }
}
