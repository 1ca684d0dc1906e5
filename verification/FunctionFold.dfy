/**
 * Folding function DDL into a table (scripts/db-function-search-path-check.ts, applyMigration,
 * foldFunctions, findUnpinnedFunctions), from statements whose clauses are already recognised.
 *
 * The table is a map from the text `name/arity`.  It is compared with what the statements mean
 * in the database (FunctionHistory): per statement, when the table keeps up with the history.
 */
module FunctionFold {
  import opened Common
  import opened FunctionHistory

  // --------------------------------------------------------------------- keys

  /** What `bareName` makes of a name. */
  function Text(n: Name): string {
    if n.schema == PUBLIC then n.part else n.schema + "." + n.part
  }

  /** The schema ends at the first dot. */
  lemma DotInText(n: Name)
    ensures n.schema == PUBLIC ==> '.' !in Text(n) && Text(n) == n.part
    ensures n.schema != PUBLIC ==>
              && |Text(n)| > |n.schema| && Text(n)[|n.schema|] == '.'
                && (forall i :: 0 <= i < |n.schema| ==> Text(n)[i] != '.')
              && Text(n)[..|n.schema|] == n.schema && Text(n)[|n.schema| + 1..] == n.part
  {}

  lemma TextIsInjective(m: Name, n: Name)
    requires Text(m) == Text(n)
    ensures m == n
  {
    DotInText(m);
    DotInText(n);
    hide Text;
  }

  function Digits(n: nat): string {
    if n < 10 then ["0123456789"[n]] else Digits(n / 10) + ["0123456789"[n % 10]]
  }

  function Key(name: string, arity: nat): string {
    name + "/" + Digits(arity)
  }

  function DigitsValue(s: string): nat {
    if s == "" then 0 else
    var last := s[|s| - 1];
    10 * DigitsValue(s[..|s| - 1]) + if '0' <= last <= '9' then last as int - '0' as int else 0
  }

  lemma {:induction false} DigitsRoundTrip(n: nat)
    ensures DigitsValue(Digits(n)) == n && '/' !in Digits(n)
  {
    assert forall d: nat :: d < 10 ==> "0123456789"[d] as int == '0' as int + d;
    if n >= 10 {
      DigitsRoundTrip(n / 10);
      assert Digits(n)[..|Digits(n)| - 1] == Digits(n / 10);
    } else {
      assert Digits(n)[..0] == "";
    }
  }

  /** The slash after the name is the last one in the key. */
  lemma LastSlash(n: string, k: nat)
    ensures Key(n, k)[..|n|] == n && Key(n, k)[|n|] == '/' && Key(n, k)[|n| + 1..] == Digits(k)
    ensures forall i :: |n| < i < |Key(n, k)| ==> Key(n, k)[i] != '/'
  {
    DigitsRoundTrip(k);
    assert forall i :: |n| < i < |Key(n, k)| ==> Key(n, k)[i] == Digits(k)[i - |n| - 1];
  }

  /** A name and an arity can be read back from the key, whatever the name holds. */
  lemma KeyIsInjective(n: string, k: nat, m: string, j: nat)
    requires Key(n, k) == Key(m, j)
    ensures n == m && k == j
  {
    LastSlash(n, k);
    LastSlash(m, j);
    DigitsRoundTrip(k);
    DigitsRoundTrip(j);
    assert |n| == |m|;
  }

  function KeyOf(n: Name, k: nat): string {
    Key(Text(n), k)
  }

  lemma KeyOfIsInjective(n: Name, k: nat, m: Name, j: nat)
    requires KeyOf(n, k) == KeyOf(m, j)
    ensures n == m && k == j
  {
    KeyIsInjective(Text(n), k, Text(m), j);
    TextIsInjective(n, m);
  }

  lemma PrefixHitsExactly(n: string, k: nat, m: string)
    ensures m + "/" <= Key(n, k) <==> n == m || m + "/" <= n
  {
    LastSlash(n, k);
    var key := Key(n, k);
    if m + "/" <= key {
      assert key[..|m| + 1] == m + "/" && key[|m|] == '/' && key[..|m|] == m;
      assert |m| <= |n|;
      if |m| < |n| {
        assert n[..|m| + 1] == key[..|m| + 1];
      }
    }
    if m + "/" <= n {
      assert key[..|m| + 1] == n[..|m| + 1];
    }
  }

  /** A statement reaches the entry with this key: by the whole key, or without arguments by the prefix. */
  predicate Reached(ref: Ref, key: string) {
    if ref.args.Some? then key == KeyOf(ref.name, ref.args.value) else Text(ref.name) + "/" <= key
  }

  /** A name that goes on after the statement's name with a slash. */
  predicate Continues(ref: Ref, n: Name) {
    ref.args.None? && Text(ref.name) + "/" <= Text(n)
  }

  /** Without arguments the prefix reaches the functions of that name, and those that continue it. */
  lemma ReachedExactly(ref: Ref, n: Name, k: nat)
    ensures Reached(ref, KeyOf(n, k)) <==> Hits(ref, n, k) || Continues(ref, n)
  {
    PrefixHitsExactly(Text(n), k, Text(ref.name));
    if Text(n) == Text(ref.name) { TextIsInjective(n, ref.name); }
    if ref.args.Some? && KeyOf(n, k) == KeyOf(ref.name, ref.args.value) {
      KeyOfIsInjective(n, k, ref.name, ref.args.value);
    }
  }

  // --------------------------------------------- what the gate reads in clauses

  predicate Sets(a: Action) {
    a.Set? || a.ToDefault?
  }

  /** DEFAULT is read as the name of a schema. */
  function NamesRead(a: Action): seq<string>
    requires Sets(a)
  {
    if a.Set? then a.names else ["default"]
  }

  function FirstSet(actions: seq<Action>): Option<seq<string>> {
    if actions == [] then None else if Sets(actions[0]) then Some(NamesRead(actions[0])) else FirstSet(actions[1..])
  }

  /** FROM CURRENT anywhere (the gate keeps the list `<from current>` for it), otherwise the first path that is set. */
  function SetRead(actions: seq<Action>): Option<Path> {
    if FromCurrent in actions then Some(OfSession)
    else if FirstSet(actions).Some? then Some(Listed(FirstSet(actions).value))
    else None
  }

  /** A RESET anywhere clears what was read. */
  function PinRead(actions: seq<Action>): Option<Option<Path>> {
    if Reset in actions then Some(None) else if SetRead(actions).Some? then Some(SetRead(actions)) else None
  }

  /** DEFINER anywhere, otherwise INVOKER. */
  function SecurityRead(actions: seq<Action>): Option<bool> {
    if Security(true) in actions then Some(true) else if Security(false) in actions then Some(false) else None
  }

  predicate FirstSetAt(actions: seq<Action>, i: nat) {
    i < |actions| && Sets(actions[i]) && forall j :: 0 <= j < i ==> !Sets(actions[j])
  }

  /**
   * The last action on the path.  Where there is a RESET, it clears the path; otherwise, where
   * there is FROM CURRENT, it is that; otherwise it lists the same schemas as the first one.
   */
  ghost predicate PinsInOrder(actions: seq<Action>) {
    forall i: nat :: LastPinAt(actions, i) ==>
      if Reset in actions then actions[i].Reset? || actions[i].ToDefault?
      else if FromCurrent in actions then actions[i].FromCurrent?
      else actions[i].Set? && forall j: nat :: FirstSetAt(actions, j) ==> NamesRead(actions[j]) == actions[i].names
  }

  /** No INVOKER follows the last DEFINER. */
  ghost predicate SecurityInOrder(actions: seq<Action>) {
    Security(true) in actions ==> forall i: nat :: LastSecurityAt(actions, i) ==> actions[i].definer
  }

  lemma {:induction false} FirstSetFinds(actions: seq<Action>)
    ensures FirstSet(actions).None? <==> forall i :: 0 <= i < |actions| ==> !Sets(actions[i])
    ensures FirstSet(actions).Some? ==>
              exists i: nat :: FirstSetAt(actions, i) && FirstSet(actions) == Some(NamesRead(actions[i]))
  {
    if actions != [] {
      var rest := actions[1..];
      FirstSetFinds(rest);
      assert forall i :: 0 < i < |actions| ==> actions[i] == rest[i - 1];
      if Sets(actions[0]) {
        assert FirstSetAt(actions, 0);
      } else if FirstSet(rest).Some? {
        var i: nat :| FirstSetAt(rest, i) && FirstSet(rest) == Some(NamesRead(rest[i]));
        assert FirstSetAt(actions, i + 1);
      } else {
        assert forall i :: 0 <= i < |rest| ==> rest[i] == actions[i + 1];
      }
    }
  }

  /** The gate reads the path that the actions set exactly when they are in order. */
  lemma PinReadExactly(actions: seq<Action>)
    ensures PinRead(actions) == PinSet(actions) <==> PinsInOrder(actions)
    ensures PinRead(actions).Some? <==> PinSet(actions).Some?
  {
    LastActionWins(actions);
    FirstSetFinds(actions);
    if PinSet(actions).Some? {
      var i: nat :| LastPinAt(actions, i);
      assert forall j: nat :: LastPinAt(actions, j) ==> j == i;
      assert actions[i] in actions;
      if FirstSet(actions).Some? {
        var f: nat :| FirstSetAt(actions, f) && FirstSet(actions) == Some(NamesRead(actions[f]));
        assert forall j: nat :: FirstSetAt(actions, j) ==> j == f;
      }
    }
    hide PinSet, FirstSet;
  }

  /** And the security likewise. */
  lemma ReadExactly(actions: seq<Action>)
    ensures PinRead(actions) == PinSet(actions) <==> PinsInOrder(actions)
    ensures SecurityRead(actions) == SecuritySet(actions) <==> SecurityInOrder(actions)
    ensures PinRead(actions).Some? <==> PinSet(actions).Some?
    ensures SecurityRead(actions).Some? <==> SecuritySet(actions).Some?
  {
    PinReadExactly(actions);
    LastSecurityWins(actions);
    hide PinRead, PinSet, PinsInOrder;
    if SecuritySet(actions).Some? {
      var i: nat :| LastSecurityAt(actions, i);
      assert forall j: nat :: LastSecurityAt(actions, j) ==> j == i;
      assert actions[i] in actions;
    }
  }

  function ActedRead(form: Form, before: Info): Info {
    match form
    case Acts(actions) =>
      before.(securityDefiner := Or(SecurityRead(actions), before.securityDefiner),
              searchPath := Or(PinRead(actions), before.searchPath))
    case _ => before
  }

  function CreatedRead(st: Statement): Info
    requires st.Create?
  {
    Info(st.returnsTrigger, Or(SecurityRead(st.clauses), false), SetRead(st.clauses))
  }

  // ----------------------------------------------------------------- the table

  datatype FunctionState = FunctionState(name: Name, arity: nat, file: string, info: Info)

  type Table = map<string, FunctionState>

  function Find(t: Table, n: Name, k: nat): Option<FunctionState> {
    if KeyOf(n, k) in t then Some(t[KeyOf(n, k)]) else None
  }

  function Known(t: Table, n: Name, k: nat): Option<Info> {
    if KeyOf(n, k) in t then Some(t[KeyOf(n, k)].info) else None
  }

  /** Every entry stands under its own name and arity. */
  ghost predicate Keyed(t: Table) {
    forall key :: key in t ==> key == KeyOf(t[key].name, t[key].arity)
  }

  /** The table says of every function what the history says. */
  ghost predicate Represents(t: Table, h: seq<Statement>) {
    Keyed(t) && forall n, k :: Known(t, n, k) == InfoAfter(h, n, k)
  }

  /** The name the gate writes for a renamed function: the new name is read without a schema. */
  function Written(st: Statement): Name
    requires st.Alter?
  {
    if st.form.RenameTo? then Name(PUBLIC, st.form.part) else st.ref.name
  }

  function Targets(t: Table, ref: Ref): set<string> {
    set key | key in t && Reached(ref, key)
  }

  /** The entries altered so far, of which one has arity k. */
  ghost predicate SomeDone(t: Table, done: set<string>, m: Name, k: nat) {
    KeyOf(m, k) in done && KeyOf(m, k) in t
  }

  /** One function of the table after the entries in `done` were altered. */
  ghost predicate AlteredAt(t: Table, file: string, st: Statement, done: set<string>, n: Name, k: nat,
      found: Option<FunctionState>)
    requires st.Alter?
  {
    if st.form.RenameTo? && n == Written(st) && exists m :: SomeDone(t, done, m, k) then
      exists m :: SomeDone(t, done, m, k) && found == Some(FunctionState(n, k, file, t[KeyOf(m, k)].info))
    else if SomeDone(t, done, n, k) then
      found == if st.form.RenameTo? then None
               else Some(FunctionState(n, k, file, ActedRead(st.form, t[KeyOf(n, k)].info)))
    else found == Find(t, n, k)
  }

  ghost predicate AlteredSoFar(t: Table, file: string, st: Statement, done: set<string>, t': Table)
    requires st.Alter?
  {
    Keyed(t') && forall n, k :: AlteredAt(t, file, st, done, n, k, Find(t', n, k))
  }

  /** What the gate makes of the table at one statement. */
  ghost predicate After(t: Table, file: string, st: Statement, t': Table) {
    match st
    case Create(n, k, _, _) => t' == t[KeyOf(n, k) := FunctionState(n, k, file, CreatedRead(st))]
    case Drop(first, _) => t' == t - Targets(t, first)
    case Alter(ref, _) => AlteredSoFar(t, file, st, Targets(t, ref), t')
    case Other => t' == t
  }

  // ---------------------------------------------------------- the imperative code

  /** The mutable table of one run of the gate. */
  class FunctionTable {
    var functions: Table

    constructor ()
      ensures functions == map[]
    {
      functions := map[];
    }

    /** Goes over the targets, in any order. */
    method AlterTargets(file: string, st: Statement)
      requires st.Alter? && Keyed(functions)
      modifies this
      ensures AlteredSoFar(old(functions), file, st, Targets(old(functions), st.ref), functions)
    {
      var targets := Targets(functions, st.ref);
      ghost var before, done := functions, {};
      NothingAltered(functions, file, st);
      hide AlteredSoFar, Keyed, Targets, KeyOf, AlterEntry, ActedRead, Written;
      while targets != {}
        invariant targets !! done && targets + done == Targets(before, st.ref) <= before.Keys
        invariant AlteredSoFar(before, file, st, done, functions)
        decreases targets
      {
        HasTarget(targets);
        var target :| target in targets;
        AlterOneMore(before, file, st, done, functions, target);
        targets := targets - {target};
        done := done + {target};
        ghost var was := functions;
        if target in functions {
          var next := functions[target];
          next := next.(file := file, info := ActedRead(st.form, next.info));
          functions := functions[target := next];
          if st.form.RenameTo? {
            functions := functions - {target};
            next := next.(name := Written(st));
            functions := functions[KeyOf(next.name, next.arity) := next];
          }
          EntryAltered(was, file, st, target);
        }
      }
      assert done == Targets(before, st.ref);
    }

    method Apply(file: string, st: Statement)
      requires Keyed(functions)
      modifies this
      ensures Keyed(functions) && After(old(functions), file, st, functions)
    {
      match st {
        case Create(name, arity, _, _) =>
          functions := functions[KeyOf(name, arity) := FunctionState(name, arity, file, CreatedRead(st))];
        case Alter(_, _) =>
          AlterTargets(file, st);
        case Drop(first, _) =>
          functions := functions - Targets(functions, first);
        case Other =>
      }
    }
  }

  lemma HasTarget(s: set<string>)
    requires s != {}
    ensures exists x :: x in s
  {}

  lemma NothingAltered(t: Table, file: string, st: Statement)
    requires st.Alter? && Keyed(t)
    ensures AlteredSoFar(t, file, st, {}, t)
  {}

  function AlterEntry(t: Table, file: string, st: Statement, target: string): Table
    requires st.Alter? && target in t
  {
    var next := t[target].(file := file, info := ActedRead(st.form, t[target].info));
    if st.form.RenameTo? then (t - {target})[KeyOf(Written(st), next.arity) := next.(name := Written(st))]
    else t[target := next]
  }

  /** Setting the entry before it is deleted changes nothing. */
  lemma EntryAltered(t: Table, file: string, st: Statement, target: string)
    requires st.Alter? && target in t
    ensures var next := t[target].(file := file, info := ActedRead(st.form, t[target].info));
            AlterEntry(t, file, st, target) ==
              if st.form.RenameTo?
              then (t[target := next] - {target})[KeyOf(Written(st), next.arity) := next.(name := Written(st))]
              else t[target := next]
  {
    var next := t[target].(file := file, info := ActedRead(st.form, t[target].info));
    assert t[target := next] - {target} == t - {target};
  }

  lemma AlterOneMore(t: Table, file: string, st: Statement, done: set<string>, t': Table, target: string)
    requires st.Alter? && Keyed(t) && AlteredSoFar(t, file, st, done, t')
    requires target in t && target !in done
    ensures target in t' && AlteredSoFar(t, file, st, done + {target}, AlterEntry(t', file, st, target))
  {
    var m, j := t[target].name, t[target].arity;
    assert target == KeyOf(m, j);
    assert AlteredAt(t, file, st, done, m, j, Find(t', m, j));
    assert target in t' && t'[target].arity == j by { TargetStays(t, file, st, done, t', m, j); }
    assert Keyed(AlterEntry(t', file, st, target));
    forall n, k ensures AlteredAt(t, file, st, done + {target}, n, k, Find(AlterEntry(t', file, st, target), n, k)) {
      assert AlteredAt(t, file, st, done, n, k, Find(t', n, k));
      AlterOneMoreAt(t, file, st, done, t', m, j, n, k);
    }
  }

  lemma TargetStays(t: Table, file: string, st: Statement, done: set<string>, t': Table, m: Name, j: nat)
    requires st.Alter? && Keyed(t') && AlteredAt(t, file, st, done, m, j, Find(t', m, j))
    requires KeyOf(m, j) in t && KeyOf(m, j) !in done
    ensures KeyOf(m, j) in t' && t'[KeyOf(m, j)].arity == j && t'[KeyOf(m, j)].name == m
    ensures st.form.RenameTo? ==>
              exists d :: SomeDone(t, done + {KeyOf(m, j)}, d, j) && t'[KeyOf(m, j)].info == t[KeyOf(d, j)].info
    ensures !st.form.RenameTo? ==> t'[KeyOf(m, j)] == t[KeyOf(m, j)]
  {
    assert SomeDone(t, done + {KeyOf(m, j)}, m, j);
    if d :| SomeDone(t, done, d, j) && Find(t', m, j) == Some(FunctionState(m, j, file, t[KeyOf(d, j)].info)) {
      assert SomeDone(t, done + {KeyOf(m, j)}, d, j);
    }
    var s := t'[KeyOf(m, j)];
    KeyOfIsInjective(m, j, s.name, s.arity);
  }

  lemma AlterOneMoreAt(t: Table, file: string, st: Statement, done: set<string>, t': Table, m: Name, j: nat, n: Name,
      k: nat)
    requires st.Alter? && Keyed(t') && KeyOf(m, j) in t && KeyOf(m, j) !in done
    requires AlteredAt(t, file, st, done, m, j, Find(t', m, j)) && AlteredAt(t, file, st, done, n, k, Find(t', n, k))
    ensures KeyOf(m, j) in t'
    ensures AlteredAt(t, file, st, done + {KeyOf(m, j)}, n, k, Find(AlterEntry(t', file, st, KeyOf(m, j)), n, k))
  {
    TargetStays(t, file, st, done, t', m, j);
    if KeyOf(n, k) == KeyOf(m, j) { KeyOfIsInjective(n, k, m, j); }
    if KeyOf(n, k) == KeyOf(Written(st), j) { KeyOfIsInjective(n, k, Written(st), j); }
    forall d ensures SomeDone(t, done + {KeyOf(m, j)}, d, k) <==> SomeDone(t, done, d, k) || (d == m && k == j) {
      if KeyOf(d, k) == KeyOf(m, j) { KeyOfIsInjective(d, k, m, j); }
    }
    hide KeyOf, Keyed, ActedRead, Written;
  }

  // ----------------------------------- when the table keeps up with the history

  /** The statement refers to a live function. */
  ghost predicate Touches(h: seq<Statement>, ref: Ref) {
    exists k :: Hits(ref, ref.name, k) && Live(h, ref.name, k)
  }

  /**
   * The gate reads the statement as the database does.  Actions: in order.  A rename: of a
   * function in `public`.  A change of schema: none.  A DROP: what its further items name,
   * its first item reaches.  And the prefix reaches no other function, or leaves it as it is.
   */
  ghost predicate ReadRight(h: seq<Statement>, st: Statement) {
    match st
    case Create(_, _, _, clauses) => PinsInOrder(clauses) && SecurityInOrder(clauses)
    case Drop(first, more) =>
      && (forall n, k :: Live(h, n, k) && HitsSome(more, n, k) ==> Hits(first, n, k) || Continues(first, n))
      && (forall n, k :: Live(h, n, k) && Continues(first, n) ==> HitsSome(more, n, k))
    case Alter(ref, form) =>
      && (Touches(h, ref) ==>
            match form
            case Acts(actions) => PinsInOrder(actions) && SecurityInOrder(actions)
            case RenameTo(_) => ref.name.schema == PUBLIC
            case MoveTo(schema) => schema == ref.name.schema)
      && (forall n, k :: Live(h, n, k) && Continues(ref, n) ==>
            match form
            case Acts(_) => ActedRead(form, InfoAfter(h, n, k).value) == InfoAfter(h, n, k).value
            case RenameTo(_) => n == Written(st)
            case MoveTo(_) => true)
    case Other => true
  }

  lemma CreateExactly(t: Table, h: seq<Statement>, file: string, st: Statement, t': Table)
    requires st.Create? && Represents(t, h) && After(t, file, st, t')
    ensures Represents(t', h + [st]) <==> ReadRight(h, st)
  {
    ReadExactly(st.clauses);
    assert CreatedRead(st) == Created(st) <==> ReadRight(h, st);
    forall n, k
      ensures InfoAfter(h + [st], n, k) ==
              if st.name == n && st.arity == k then Some(Created(st)) else InfoAfter(h, n, k)
      ensures Known(t', n, k) == if st.name == n && st.arity == k then Some(CreatedRead(st)) else InfoAfter(h, n, k)
    {
      OneMoreStatement(h, st, n, k);
      assert Known(t, n, k) == InfoAfter(h, n, k);
      if KeyOf(n, k) == KeyOf(st.name, st.arity) { KeyOfIsInjective(n, k, st.name, st.arity); }
    }
    hide InfoAfter, Known, KeyOf;
    assert Known(t', st.name, st.arity) == Some(CreatedRead(st));
  }

  lemma HitsFirstOrMore(first: Ref, more: seq<Ref>, n: Name, k: nat)
    ensures HitsSome([first] + more, n, k) <==> Hits(first, n, k) || HitsSome(more, n, k)
  {
    var all := [first] + more;
    assert all[0] == first && forall i :: 0 <= i < |more| ==> all[i + 1] == more[i];
  }

  lemma DropExactly(t: Table, h: seq<Statement>, file: string, st: Statement, t': Table)
    requires st.Drop? && Represents(t, h) && After(t, file, st, t')
    ensures Represents(t', h + [st]) <==> ReadRight(h, st)
  {
    forall n, k
      ensures InfoAfter(h + [st], n, k) ==
              if Hits(st.first, n, k) || HitsSome(st.more, n, k) then None else InfoAfter(h, n, k)
      ensures Known(t', n, k) == if Hits(st.first, n, k) || Continues(st.first, n) then None else InfoAfter(h, n, k)
    {
      OneMoreStatement(h, st, n, k);
      HitsFirstOrMore(st.first, st.more, n, k);
      ReachedExactly(st.first, n, k);
      assert Known(t, n, k) == InfoAfter(h, n, k);
    }
    hide InfoAfter, Known, HitsSome, Hits, Continues;
    if Represents(t', h + [st]) {
      forall n, k | Live(h, n, k)
        ensures HitsSome(st.more, n, k) ==> Hits(st.first, n, k) || Continues(st.first, n)
        ensures Continues(st.first, n) ==> Hits(st.first, n, k) || HitsSome(st.more, n, k)
      {
        assert Known(t', n, k) == InfoAfter(h + [st], n, k);
      }
      forall n, k | Live(h, n, k) && Continues(st.first, n) ensures HitsSome(st.more, n, k) {
        ContinuesOther(st.first, n, k);
      }
    }
  }

  /** A name that continues another one is not that name. */
  lemma ContinuesOther(ref: Ref, n: Name, k: nat)
    requires Continues(ref, n)
    ensures !Hits(ref, n, k) && n != ref.name
  {
    assert |Text(ref.name)| < |Text(n)|;
  }

  /** The statement goes over a live function. */
  ghost predicate Reaches(h: seq<Statement>, ref: Ref, n: Name, k: nat) {
    Live(h, n, k) && (Hits(ref, n, k) || Continues(ref, n))
  }

  lemma DoneIsReached(t: Table, h: seq<Statement>, ref: Ref, n: Name, k: nat)
    requires Represents(t, h)
    ensures SomeDone(t, Targets(t, ref), n, k) <==> Reaches(h, ref, n, k)
    ensures Known(t, n, k) == InfoAfter(h, n, k) && (Known(t, n, k).Some? <==> KeyOf(n, k) in t)
  {
    assert Known(t, n, k) == InfoAfter(h, n, k);
    ReachedExactly(ref, n, k);
  }

  lemma ActedExactly(actions: seq<Action>, i: Info)
    ensures ActedRead(Acts(actions), i) == Acted(Acts(actions), i) <==> PinsInOrder(actions) && SecurityInOrder(actions)
  {
    ReadExactly(actions);
  }

  /** An ALTER that keeps the name, as the gate reads it and as the database runs it. */
  lemma KeptAt(t: Table, h: seq<Statement>, file: string, st: Statement, t': Table, n: Name, k: nat)
    requires st.Alter? && !st.form.RenameTo? && Represents(t, h) && After(t, file, st, t')
    ensures Known(t', n, k) ==
            if Reaches(h, st.ref, n, k) then Some(ActedRead(st.form, InfoAfter(h, n, k).value)) else InfoAfter(h, n, k)
  {
    DoneIsReached(t, h, st.ref, n, k);
    assert AlteredAt(t, file, st, Targets(t, st.ref), n, k, Find(t', n, k));
  }

  lemma ActsExactly(t: Table, h: seq<Statement>, file: string, st: Statement, t': Table)
    requires st.Alter? && st.form.Acts? && Represents(t, h) && After(t, file, st, t')
    ensures Represents(t', h + [st]) <==> ReadRight(h, st)
  {
    forall n, k
      ensures InfoAfter(h + [st], n, k) ==
              if Live(h, n, k) && Hits(st.ref, n, k) then Some(Acted(st.form, InfoAfter(h, n, k).value))
              else InfoAfter(h, n, k)
      ensures Known(t', n, k) ==
              if Reaches(h, st.ref, n, k) then Some(ActedRead(st.form, InfoAfter(h, n, k).value))
              else InfoAfter(h, n, k)
      ensures Continues(st.ref, n) ==> !Hits(st.ref, n, k)
    {
      OneMoreStatement(h, st, n, k);
      KeptAt(t, h, file, st, t', n, k);
      if Continues(st.ref, n) { ContinuesOther(st.ref, n, k); }
    }
    forall i: Info
      ensures ActedRead(st.form, i) == Acted(st.form, i) <==>
              PinsInOrder(st.form.actions) && SecurityInOrder(st.form.actions)
    {
      ActedExactly(st.form.actions, i);
    }
    hide InfoAfter, Known, ActedRead, Acted, PinsInOrder, SecurityInOrder, Continues;
    if Represents(t', h + [st]) {
      forall n, k | Reaches(h, st.ref, n, k)
        ensures Hits(st.ref, n, k) ==>
            ActedRead(st.form, InfoAfter(h, n, k).value) == Acted(st.form, InfoAfter(h, n, k).value)
        ensures Continues(st.ref, n) ==> ActedRead(st.form, InfoAfter(h, n, k).value) == InfoAfter(h, n, k).value
      {
        assert Known(t', n, k) == InfoAfter(h + [st], n, k);
      }
    }
  }

  lemma MoveExactly(t: Table, h: seq<Statement>, file: string, st: Statement, t': Table)
    requires st.Alter? && st.form.MoveTo? && Represents(t, h) && After(t, file, st, t')
    ensures Represents(t', h + [st]) <==> ReadRight(h, st)
  {
    forall n, k
      ensures Known(t', n, k) == InfoAfter(h, n, k)
      ensures InfoAfter(h + [st], n, k) ==
              if n == NewName(st) && Hits(st.ref, st.ref.name, k) && Live(h, st.ref.name, k)
              then InfoAfter(h, st.ref.name, k)
              else if Hits(st.ref, n, k) then None else InfoAfter(h, n, k)
    {
      OneMoreStatement(h, st, n, k);
      KeptAt(t, h, file, st, t', n, k);
    }
    hide InfoAfter, Known, Continues;
    if Represents(t', h + [st]) && Touches(h, st.ref) {
      var k :| Hits(st.ref, st.ref.name, k) && Live(h, st.ref.name, k);
      assert Known(t', st.ref.name, k) == InfoAfter(h + [st], st.ref.name, k);
    }
  }

  /** A rename, as the gate reads it. */
  lemma RenamedAt(t: Table, h: seq<Statement>, file: string, st: Statement, t': Table, n: Name, k: nat)
    requires st.Alter? && st.form.RenameTo? && Represents(t, h) && After(t, file, st, t')
    ensures if n == Written(st) && exists m :: Reaches(h, st.ref, m, k)
            then exists m :: Reaches(h, st.ref, m, k) && Known(t', n, k) == InfoAfter(h, m, k)
            else Known(t', n, k) == if Reaches(h, st.ref, n, k) then None else InfoAfter(h, n, k)
  {
    forall m ensures SomeDone(t, Targets(t, st.ref), m, k) <==> Reaches(h, st.ref, m, k)
      ensures Known(t, m, k) == InfoAfter(h, m, k) && (Known(t, m, k).Some? <==> KeyOf(m, k) in t)
    {
      DoneIsReached(t, h, st.ref, m, k);
    }
    hide Reaches, SomeDone, InfoAfter, Targets, KeyOf;
    assert AlteredAt(t, file, st, Targets(t, st.ref), n, k, Find(t', n, k));
    if n == Written(st) && exists m :: Reaches(h, st.ref, m, k) {
      var m :| SomeDone(t, Targets(t, st.ref), m, k)
        && Find(t', n, k) == Some(FunctionState(n, k, file, t[KeyOf(m, k)].info));
      assert Reaches(h, st.ref, m, k) && Known(t', n, k) == InfoAfter(h, m, k);
    }
  }

  /** A rename, as the database runs it. */
  lemma RenamedInHistory(h: seq<Statement>, st: Statement, n: Name, k: nat)
    requires st.Alter? && st.form.RenameTo?
    ensures InfoAfter(h + [st], n, k) ==
            if n == NewName(st) && Hits(st.ref, st.ref.name, k) && Live(h, st.ref.name, k)
            then InfoAfter(h, st.ref.name, k)
            else if Hits(st.ref, n, k) then None else InfoAfter(h, n, k)
  {
    OneMoreStatement(h, st, n, k);
  }

  /** A function that is reached is the one referred to, or one that continues its name. */
  lemma ReachedByRename(h: seq<Statement>, st: Statement, m: Name, k: nat)
    requires st.Alter? && st.form.RenameTo? && Accepted(h, st) && ReadRight(h, st) && Reaches(h, st.ref, m, k)
    ensures if Hits(st.ref, st.ref.name, k) && Live(h, st.ref.name, k)
            then m == st.ref.name && Written(st) == NewName(st)
            else m == Written(st) && !Hits(st.ref, m, k)
  {
    hide InfoAfter, Continues;
    assert m == st.ref.name || m == Written(st);
    if Hits(st.ref, st.ref.name, k) && Live(h, st.ref.name, k) {
      assert Touches(h, st.ref) && Written(st) == NewName(st);
    }
  }

  lemma RenameReadRight(t: Table, h: seq<Statement>, file: string, st: Statement, t': Table, n: Name, k: nat)
    requires st.Alter? && st.form.RenameTo? && Represents(t, h) && After(t, file, st, t') && Accepted(h, st)
    requires ReadRight(h, st)
    ensures Known(t', n, k) == InfoAfter(h + [st], n, k)
  {
    RenamedAt(t, h, file, st, t', n, k);
    RenamedInHistory(h, st, n, k);
    forall m | Reaches(h, st.ref, m, k)
      ensures if Hits(st.ref, st.ref.name, k) && Live(h, st.ref.name, k)
              then m == st.ref.name && Written(st) == NewName(st)
              else m == Written(st) && !Hits(st.ref, m, k)
    {
      ReachedByRename(h, st, m, k);
    }
    hide InfoAfter, Continues, Known, After, Represents, ReadRight, Accepted;
    assert Live(h, st.ref.name, k) && Hits(st.ref, st.ref.name, k) ==> Reaches(h, st.ref, st.ref.name, k);
    assert Live(h, n, k) && Hits(st.ref, n, k) ==> Reaches(h, st.ref, n, k);
  }

  lemma RenameReadWrong(t: Table, h: seq<Statement>, file: string, st: Statement, t': Table)
    requires st.Alter? && st.form.RenameTo? && Represents(t, h) && After(t, file, st, t') && Accepted(h, st)
    requires forall n, k :: Known(t', n, k) == InfoAfter(h + [st], n, k)
    ensures ReadRight(h, st)
  {
    forall n, k
      ensures n != Written(st) ==> Known(t', n, k) == if Reaches(h, st.ref, n, k) then None else InfoAfter(h, n, k)
      ensures InfoAfter(h + [st], n, k) ==
              if n == NewName(st) && Hits(st.ref, st.ref.name, k) && Live(h, st.ref.name, k)
              then InfoAfter(h, st.ref.name, k)
              else if Hits(st.ref, n, k) then None else InfoAfter(h, n, k)
      ensures Continues(st.ref, n) ==> !Hits(st.ref, n, k)
    {
      RenamedAt(t, h, file, st, t', n, k);
      RenamedInHistory(h, st, n, k);
      if Continues(st.ref, n) { ContinuesOther(st.ref, n, k); }
    }
    hide InfoAfter, Known, Continues, After, Represents;
    if Touches(h, st.ref) {
      var k :| Hits(st.ref, st.ref.name, k) && Live(h, st.ref.name, k);
      assert Known(t', NewName(st), k) == InfoAfter(h + [st], NewName(st), k) == InfoAfter(h, st.ref.name, k);
      assert NewName(st) == Written(st);
    }
    forall n, k | Live(h, n, k) && Continues(st.ref, n) ensures n == Written(st) {
      assert Known(t', n, k) == InfoAfter(h + [st], n, k);
    }
  }

  lemma AlteredIsKeyed(t: Table, file: string, st: Statement, t': Table)
    requires Keyed(t) && After(t, file, st, t')
    ensures Keyed(t')
  {}

  /** The table keeps up with the history at a statement exactly when the gate reads it right. */
  lemma KeepsUpExactly(t: Table, h: seq<Statement>, file: string, st: Statement, t': Table)
    requires Represents(t, h) && After(t, file, st, t') && Accepted(h, st)
    ensures Represents(t', h + [st]) <==> ReadRight(h, st)
  {
    hide ReadRight;
    AlteredIsKeyed(t, file, st, t');
    match st {
      case Create(_, _, _, _) => CreateExactly(t, h, file, st, t');
      case Drop(_, _) => DropExactly(t, h, file, st, t');
      case Alter(_, Acts(_)) => ActsExactly(t, h, file, st, t');
      case Alter(_, MoveTo(_)) => MoveExactly(t, h, file, st, t');
      case Alter(_, RenameTo(_)) =>
        if ReadRight(h, st) {
          forall n, k ensures Known(t', n, k) == InfoAfter(h + [st], n, k) {
            RenameReadRight(t, h, file, st, t', n, k);
          }
        }
        if Represents(t', h + [st]) { RenameReadWrong(t, h, file, st, t'); }
      case Other => OtherExactly(t, h, t');
    }
  }

  lemma OtherExactly(t: Table, h: seq<Statement>, t': Table)
    requires Represents(t, h) && t' == t
    ensures Represents(t', h + [Other]) && ReadRight(h, Other)
  {
    forall n, k ensures Known(t', n, k) == InfoAfter(h + [Other], n, k) {
      OneMoreStatement(h, Other, n, k);
      assert Known(t, n, k) == InfoAfter(h, n, k);
    }
  }

  // ----------------------------------------- some functions, whatever becomes of others

  /** The table and the history agree on the functions with these names and this arity. */
  ghost predicate Agree(t: Table, h: seq<Statement>, names: iset<Name>, k: nat) {
    Keyed(t) && forall n :: n in names ==> Known(t, n, k) == InfoAfter(h, n, k)
  }

  /** The function under a name of these comes, in the database or in the table, from a name of these. */
  ghost predicate Family(names: iset<Name>, k: nat, st: Statement) {
    st.Alter? && (st.ref.args.None? || st.ref.args == Some(k)) && (NewName(st) in names || Written(st) in names) ==>
      forall m :: m == st.ref.name || Continues(st.ref, m) ==> m in names
  }

  /** The statement gives a live function this name, or takes it away. */
  ghost predicate Renames(h: seq<Statement>, st: Statement, n: Name, k: nat)
    requires st.Alter?
  {
    && (n == st.ref.name || n == NewName(st) || n == Written(st))
    && Hits(st.ref, st.ref.name, k) && Live(h, st.ref.name, k)
  }

  /** Every entry bears the file that changed it last: this one, or it is as it was. */
  lemma FileIsOfLastChange(t: Table, file: string, st: Statement, t': Table, n: Name, k: nat)
    requires Keyed(t) && After(t, file, st, t') && Find(t', n, k).Some?
    ensures Find(t', n, k).value.file == file || Find(t', n, k) == Find(t, n, k)
    ensures st.Create? && st.name == n && st.arity == k ==> Find(t', n, k).value.file == file
    ensures st.Alter? && !st.form.RenameTo? && (Hits(st.ref, n, k) || Continues(st.ref, n)) ==>
        Find(t', n, k).value.file == file
    ensures st.Alter? && st.form.RenameTo? && n == Written(st) && (exists m :: InReach(t, st.ref, m, k)) ==>
              Find(t', n, k).value.file == file
  {
    if st.Alter? {
      assert AlteredAt(t, file, st, Targets(t, st.ref), n, k, Find(t', n, k));
      ReachedExactly(st.ref, n, k);
      if m :| InReach(t, st.ref, m, k) && n == Written(st) && st.form.RenameTo? {
        ReachedExactly(st.ref, m, k);
        assert SomeDone(t, Targets(t, st.ref), m, k);
      }
    }
    if st.Create? && KeyOf(n, k) == KeyOf(st.name, st.arity) { KeyOfIsInjective(n, k, st.name, st.arity); }
  }

  /** What ReadRight asks, as far as it concerns one function. */
  ghost predicate ReadRightFor(h: seq<Statement>, st: Statement, n: Name, k: nat) {
    match st
    case Create(m, j, _, clauses) => m == n && j == k ==> PinsInOrder(clauses) && SecurityInOrder(clauses)
    case Drop(first, more) =>
      Live(h, n, k) ==>
        && (HitsSome(more, n, k) ==> Hits(first, n, k) || Continues(first, n))
        && (Continues(first, n) ==> HitsSome(more, n, k))
    case Alter(ref, Acts(actions)) =>
      Live(h, n, k) ==>
        && (Hits(ref, n, k) ==> PinsInOrder(actions) && SecurityInOrder(actions))
        && (Continues(ref, n) ==> ActedRead(st.form, InfoAfter(h, n, k).value) == InfoAfter(h, n, k).value)
    case Alter(ref, MoveTo(schema)) => Renames(h, st, n, k) ==> schema == ref.name.schema
    case Alter(ref, RenameTo(_)) =>
      && (n == NewName(st) || n == Written(st) ==> Renames(h, st, n, k) ==> ref.name.schema == PUBLIC)
      && (Live(h, n, k) && Continues(ref, n) ==> n == Written(st))
      && (n == Written(st) ==> forall m :: Live(h, m, k) && Continues(ref, m) ==> m == n)
    case Other => true
  }

  /** Read right is read right for every function. */
  lemma ReadRightForAll(h: seq<Statement>, st: Statement)
    requires ReadRight(h, st)
    ensures forall n, k :: ReadRightFor(h, st, n, k)
  {
    hide PinsInOrder, SecurityInOrder, InfoAfter, Continues, ActedRead;
  }

  /** One function of the table after an ALTER that keeps the name. */
  lemma KeptInTable(t: Table, file: string, st: Statement, t': Table, n: Name, k: nat)
    requires st.Alter? && !st.form.RenameTo? && After(t, file, st, t')
    ensures Known(t', n, k) ==
            if Known(t, n, k).Some? && (Hits(st.ref, n, k) || Continues(st.ref, n))
            then Some(ActedRead(st.form, Known(t, n, k).value)) else Known(t, n, k)
  {
    ReachedExactly(st.ref, n, k);
    assert AlteredAt(t, file, st, Targets(t, st.ref), n, k, Find(t', n, k));
  }

  /** The entry is in the table and reached. */
  ghost predicate InReach(t: Table, ref: Ref, m: Name, k: nat) {
    Known(t, m, k).Some? && (Hits(ref, m, k) || Continues(ref, m))
  }

  /** One function of the table after a rename. */
  lemma RenamedInTable(t: Table, file: string, st: Statement, t': Table, n: Name, k: nat)
    requires st.Alter? && st.form.RenameTo? && After(t, file, st, t')
    ensures if n == Written(st) && exists m :: InReach(t, st.ref, m, k)
            then exists m :: InReach(t, st.ref, m, k) && Known(t', n, k) == Known(t, m, k)
            else Known(t', n, k) == if InReach(t, st.ref, n, k) then None else Known(t, n, k)
  {
    forall m ensures SomeDone(t, Targets(t, st.ref), m, k) <==> InReach(t, st.ref, m, k) {
      ReachedExactly(st.ref, m, k);
    }
    assert forall m :: Known(t, m, k).Some? ==> Known(t, m, k) == Some(t[KeyOf(m, k)].info);
    hide InReach, SomeDone, Targets, KeyOf;
    assert AlteredAt(t, file, st, Targets(t, st.ref), n, k, Find(t', n, k));
    if n == Written(st) && exists m :: InReach(t, st.ref, m, k) {
      var m :| SomeDone(t, Targets(t, st.ref), m, k)
        && Find(t', n, k) == Some(FunctionState(n, k, file, t[KeyOf(m, k)].info));
      assert InReach(t, st.ref, m, k) && Known(t', n, k) == Known(t, m, k);
    }
  }

  lemma FamilyKeepsUpAt(t: Table, h: seq<Statement>, file: string, st: Statement, t': Table, names: iset<Name>,
      n: Name, k: nat)
    requires Agree(t, h, names, k) && After(t, file, st, t') && Accepted(h, st) && Family(names, k, st)
    requires n in names && ReadRightFor(h, st, n, k)
    ensures Known(t', n, k) == InfoAfter(h + [st], n, k)
  {
    assert Known(t, n, k) == InfoAfter(h, n, k);
    OneMoreStatement(h, st, n, k);
    match st {
      case Create(m, j, _, clauses) =>
        ReadExactly(clauses);
        if KeyOf(n, k) == KeyOf(m, j) { KeyOfIsInjective(n, k, m, j); }
      case Drop(first, more) =>
        ReachedExactly(first, n, k);
        HitsFirstOrMore(first, more, n, k);
      case Alter(ref, Acts(actions)) =>
        KeptInTable(t, file, st, t', n, k);
        if Known(t, n, k).Some? { ActedExactly(actions, Known(t, n, k).value); }
        if Continues(ref, n) { ContinuesOther(ref, n, k); }
      case Alter(ref, MoveTo(schema)) =>
        KeptInTable(t, file, st, t', n, k);
      case Alter(ref, RenameTo(_)) =>
        RenamedForFamily(t, h, file, st, t', names, n, k);
      case Other =>
    }
  }

  lemma RenamedForFamily(t: Table, h: seq<Statement>, file: string, st: Statement, t': Table, names: iset<Name>,
      n: Name, k: nat)
    requires st.Alter? && st.form.RenameTo?
    requires Agree(t, h, names, k) && After(t, file, st, t') && Accepted(h, st) && Family(names, k, st)
    requires n in names && ReadRightFor(h, st, n, k)
    ensures Known(t', n, k) == InfoAfter(h + [st], n, k)
  {
    RenamedInTable(t, file, st, t', n, k);
    RenamedInHistory(h, st, n, k);
    assert Known(t, n, k) == InfoAfter(h, n, k);
    forall m | n == Written(st) && InReach(t, st.ref, m, k)
      ensures m in names && Known(t, m, k) == InfoAfter(h, m, k) && (m == st.ref.name || m == n)
    {
      assert m == st.ref.name || Continues(st.ref, m);
    }
    forall m | Continues(st.ref, m) ensures !Hits(st.ref, m, k) { ContinuesOther(st.ref, m, k); }
    if n == Written(st) && Family(names, k, st) && Hits(st.ref, st.ref.name, k) {
      assert st.ref.name in names && Known(t, st.ref.name, k) == InfoAfter(h, st.ref.name, k);
    }
    hide InfoAfter, Continues, Known, After, Agree;
    assert Known(t, st.ref.name, k).Some? && Hits(st.ref, st.ref.name, k) ==> InReach(t, st.ref, st.ref.name, k);
  }

  // ------------------------------------------------------------- all migrations

  /** A migration file: its name and its statements. */
  datatype Migration = Migration(name: string, statements: seq<Statement>)

  function History(migrations: seq<Migration>): seq<Statement> {
    if migrations == [] then [] else History(migrations[..|migrations| - 1]) + migrations[|migrations| - 1].statements
  }

  /** The database runs the statement, and the gate reads it right for these functions. */
  ghost predicate OneReadRightFor(h: seq<Statement>, st: Statement, names: iset<Name>, k: nat) {
    Accepted(h, st) && Family(names, k, st) && forall n :: n in names ==> ReadRightFor(h, st, n, k)
  }

  ghost predicate AllReadRightFor(h: seq<Statement>, names: iset<Name>, k: nat) {
    forall i :: 0 <= i < |h| ==> OneReadRightFor(h[..i], h[i], names, k)
  }

  /** The database runs every statement, and the gate reads every statement right. */
  ghost predicate AllReadRight(h: seq<Statement>) {
    forall i :: 0 <= i < |h| ==> Accepted(h[..i], h[i]) && ReadRight(h[..i], h[i])
  }

  lemma FamilyKeepsUp(t: Table, h: seq<Statement>, file: string, st: Statement, t': Table, names: iset<Name>, k: nat)
    requires (AllReadRightFor(h, names, k) ==> Agree(t, h, names, k)) && Keyed(t) && After(t, file, st, t')
    ensures AllReadRightFor(h + [st], names, k) ==> Agree(t', h + [st], names, k)
  {
    var all := h + [st];
    AlteredIsKeyed(t, file, st, t');
    if AllReadRightFor(all, names, k) {
      forall i | 0 <= i < |h| ensures OneReadRightFor(h[..i], h[i], names, k) {
        assert all[..i] == h[..i] && all[i] == h[i];
      }
      assert all[..|h|] == h && all[|h|] == st;
      assert OneReadRightFor(all[..|h|], all[|h|], names, k);
      hide ReadRightFor, Family, Accepted, After, Known, InfoAfter;
      forall n | n in names ensures Known(t', n, k) == InfoAfter(h + [st], n, k) {
        FamilyKeepsUpAt(t, h, file, st, t', names, n, k);
      }
    }
  }

  /** The table agrees with the history on every family of functions that the gate read right all along. */
  ghost predicate FoldedRight(t: Table, h: seq<Statement>) {
    forall names, k :: AllReadRightFor(h, names, k) ==> Agree(t, h, names, k)
  }

  lemma NothingKnown()
    ensures Keyed(map[]) && FoldedRight(map[], [])
  {}

  /** What holds of every family holds of all functions. */
  lemma AgreeOnAll(t: Table, h: seq<Statement>)
    requires FoldedRight(t, h) && AllReadRight(h)
    ensures Represents(t, h)
  {
    var names := iset n: Name | |Text(n)| >= 0;
    forall k: nat ensures Agree(t, h, names, k) {
      forall i | 0 <= i < |h| ensures OneReadRightFor(h[..i], h[i], names, k) {
        ReadRightForAll(h[..i], h[i]);
      }
      assert AllReadRightFor(h, names, k);
    }
    forall n, k ensures Known(t, n, k) == InfoAfter(h, n, k) { assert Agree(t, h, names, k) && n in names; }
    assert Agree(t, h, names, 0);
  }

  method FoldFunctions(migrations: seq<Migration>) returns (functions: Table)
    ensures Keyed(functions)
    ensures FoldedRight(functions, History(migrations))
    ensures AllReadRight(History(migrations)) ==> Represents(functions, History(migrations))
  {
    var table := new FunctionTable();
    NothingKnown();
    hide Represents, Keyed, AllReadRight, FoldedRight, After;
    assert History(migrations[..0]) == [];
    for i := 0 to |migrations|
      invariant Keyed(table.functions)
      invariant FoldedRight(table.functions, History(migrations[..i]))
    {
      var statements := migrations[i].statements;
      ghost var h := History(migrations[..i]);
      assert h + statements[..0] == h;
      for j := 0 to |statements|
        invariant Keyed(table.functions)
        invariant FoldedRight(table.functions, h + statements[..j])
      {
        ghost var t := table.functions;
        table.Apply(migrations[i].name, statements[j]);
        OneMoreFolded(t, h + statements[..j], migrations[i].name, statements[j], table.functions);
        assert h + statements[..j + 1] == h + statements[..j] + [statements[j]];
      }
      assert statements[..|statements|] == statements && migrations[..i + 1][..i] == migrations[..i];
    }
    assert migrations[..|migrations|] == migrations;
    if AllReadRight(History(migrations)) { AgreeOnAll(table.functions, History(migrations)); }
    return table.functions;
  }

  lemma OneMoreFolded(t: Table, h: seq<Statement>, file: string, st: Statement, t': Table)
    requires FoldedRight(t, h) && Keyed(t) && After(t, file, st, t')
    ensures FoldedRight(t', h + [st])
  {
    hide AllReadRightFor, Agree, Keyed, After;
    forall names, k ensures AllReadRightFor(h + [st], names, k) ==> Agree(t', h + [st], names, k) {
      FamilyKeepsUp(t, h, file, st, t', names, k);
    }
  }

  // --------------------------------------------------------------- the verdict

  /** The path of a session is never safe, by the gate's own policy. */
  predicate IsSafePin(path: Option<Path>) {
    && path.Some? && path.value.Listed?
    && |path.value.names| > 0 && path.value.names[|path.value.names| - 1] == "pg_temp"
  }

  predicate IsInScope(i: Info) {
    i.returnsTrigger || i.securityDefiner
  }

  /** What the gate reports; sorting it for stable output is left out. */
  function FindUnpinned(t: Table): set<FunctionState> {
    set key | key in t && IsInScope(t[key].info) && !IsSafePin(t[key].info.searchPath) :: t[key]
  }

  ghost predicate Reported(t: Table, n: Name, k: nat) {
    exists s :: s in FindUnpinned(t) && s.name == n && s.arity == k
  }

  lemma ReportedWhenKnown(t: Table, n: Name, k: nat)
    requires Keyed(t)
    ensures Reported(t, n, k) <==>
              Known(t, n, k).Some? && IsInScope(Known(t, n, k).value) && !IsSafePin(Known(t, n, k).value.searchPath)
  {
    if Known(t, n, k).Some? {
      var s := t[KeyOf(n, k)];
      KeyOfIsInjective(n, k, s.name, s.arity);
      assert IsInScope(s.info) && !IsSafePin(s.info.searchPath) ==> s in FindUnpinned(t);
    }
    if s :| s in FindUnpinned(t) && s.name == n && s.arity == k {
      var key :| key in t && t[key] == s;
      assert key == KeyOf(n, k);
    }
  }

  /**
   * A function is reported exactly when it is live, its last CREATE returns a trigger or the
   * last word on it is SECURITY DEFINER, and the last statement that pinned it, under whatever
   * name it had then, leaves no path, a session's path, or a list without pg_temp at its end.
   */
  lemma ReportedExactlyWhenLastPinIsUnsafe(t: Table, h: seq<Statement>, n: Name, k: nat)
    requires Keyed(t) && Known(t, n, k) == InfoAfter(h, n, k)
    ensures Reported(t, n, k) <==>
              && Live(h, n, k)
              && (LastOf(h, n, k, Trigger).returnsTrigger || SecurityBy(LastOf(h, n, k, Definer)) == Some(true))
              && match PinBy(LastOf(h, n, k, Pinned))
                 case None => true
                 case Some(OfSession) => true
                 case Some(Listed(names)) => names == [] || names[|names| - 1] != "pg_temp"
  {
    ReportedWhenKnown(t, n, k);
    if Live(h, n, k) {
      HistorySays(h, n, k);
      UnsafeExactly(InfoAfter(h, n, k).value);
    }
    hide *;
  }

  /** Of an unsafe function in scope: field by field. */
  lemma UnsafeExactly(i: Info)
    ensures IsInScope(i) && !IsSafePin(i.searchPath) <==>
              && (i.returnsTrigger || i.securityDefiner)
              && match i.searchPath
                 case None => true
                 case Some(OfSession) => true
                 case Some(Listed(names)) => names == [] || names[|names| - 1] != "pg_temp"
  {}

  /** What is known of a live function is what the last events say. */
  lemma HistorySays(h: seq<Statement>, n: Name, k: nat)
    requires Live(h, n, k)
    ensures InfoAfter(h, n, k) ==
              Some(Info(LastOf(h, n, k, Trigger).returnsTrigger,
                        SecurityBy(LastOf(h, n, k, Definer)) == Some(true),
                        PinBy(LastOf(h, n, k, Pinned))))
  {
    LastEventWins(h, n, k, Trigger);
    LastEventWins(h, n, k, Definer);
    LastEventWins(h, n, k, Pinned);
    hide InfoAfter, LastIndex, Concerns, PinBy, SecuritySet;
  }

  function SecurityBy(st: Statement): Option<bool>
    requires Decides(st, Definer)
  {
    SecuritySet(if st.Create? then st.clauses else st.form.actions)
  }

  /**
   * Read into any table, a CREATE is judged by its own text: reported exactly when it returns
   * a trigger or says SECURITY DEFINER, and says FROM CURRENT, or sets no path, or first sets
   * one without pg_temp at its end.
   */
  lemma CreatedIsJudged(t: Table, file: string, st: Statement, t': Table)
    requires Keyed(t) && st.Create? && After(t, file, st, t')
    ensures Reported(t', st.name, st.arity) <==>
              && (st.returnsTrigger || Security(true) in st.clauses)
              && (|| FromCurrent in st.clauses
                  || forall i: nat :: FirstSetAt(st.clauses, i) ==>
                       var names := if st.clauses[i].Set? then st.clauses[i].names else ["default"];
                       names == [] || names[|names| - 1] != "pg_temp")
  {
    AlteredIsKeyed(t, file, st, t');
    ReportedWhenKnown(t', st.name, st.arity);
    assert Known(t', st.name, st.arity) == Some(CreatedRead(st));
    UnsafeExactly(CreatedRead(st));
    FirstPathExactly(st.clauses);
    hide Reported, KeyOf, Keyed, After, SetRead, FirstSetAt, IsInScope, IsSafePin;
  }

  predicate LacksTemp(names: seq<string>) {
    names == [] || names[|names| - 1] != "pg_temp"
  }

  /** What is read of the path, said of the clauses. */
  lemma FirstPathExactly(clauses: seq<Action>)
    ensures (match SetRead(clauses)
             case None => true
             case Some(OfSession) => true
             case Some(Listed(names)) => LacksTemp(names)) <==>
            (FromCurrent in clauses || forall i: nat :: FirstSetAt(clauses, i) ==> LacksTemp(NamesRead(clauses[i])))
  {
    FirstSetFinds(clauses);
    if FirstSet(clauses).Some? {
      var f: nat :| FirstSetAt(clauses, f) && FirstSet(clauses) == Some(NamesRead(clauses[f]));
      forall i: nat | FirstSetAt(clauses, i) ensures i == f {}
    }
    hide FirstSet, LacksTemp, NamesRead;
  }

  /** A trigger function without a SET clause is reported, whatever the table held before. */
  lemma UnpinnedTriggerIsReported(t: Table, file: string, st: Statement, t': Table)
    requires Keyed(t) && st.Create? && st.returnsTrigger && After(t, file, st, t')
    requires forall i :: 0 <= i < |st.clauses| ==>
        !st.clauses[i].Set? && !st.clauses[i].ToDefault? && !st.clauses[i].FromCurrent?
    ensures Reported(t', st.name, st.arity)
  {
    CreatedIsJudged(t, file, st, t');
  }

  /** What the verdict should say of a function. */
  predicate Unsafe(h: seq<Statement>, n: Name, k: nat) {
    Live(h, n, k) && IsInScope(InfoAfter(h, n, k).value) && !IsSafePin(InfoAfter(h, n, k).value.searchPath)
  }

  // -------------------------------------------- inputs the gate does not read right

  const SAFE: seq<string> := ["pg_catalog", "pg_temp"]

  const BARE: Clauses := [Security(true)]

  const PINNED: Clauses := [Security(true), Set(SAFE)]

  lemma ClausesSay()
    ensures PinSet(BARE) == None && SecuritySet(BARE) == Some(true)
    ensures SecurityRead(BARE) == Some(true) && SetRead(BARE) == None
    ensures PinSet(PINNED) == Some(Some(Listed(SAFE))) && SecuritySet(PINNED) == Some(true)
    ensures SecurityRead(PINNED) == Some(true) && SetRead(PINNED) == Some(Listed(SAFE))
  {
    assert BARE[..0] == [] && PINNED[..1] == BARE && BARE[1..] == [] && PINNED[1..] == [Set(SAFE)];
    assert PINNED[0] == Security(true) && BARE[0] == Security(true) && FromCurrent !in PINNED && FromCurrent !in BARE;
    assert FirstSet(BARE[1..]) == None && FirstSet(PINNED[1..]) == Some(SAFE);
    assert PinSet(BARE[..0]) == None && PinSet(BARE) == None;
    assert SecuritySet(BARE) == Some(true) && !IsPin(BARE[0]) && IsPin(PINNED[1]);
  }

  lemma OneCreated(h: seq<Statement>, name: Name, k: nat, clauses: Clauses, n: Name, j: nat)
    ensures InfoAfter(h + [Create(name, k, false, clauses)], n, j) ==
            if n == name && j == k then Some(Info(false, Or(SecuritySet(clauses), false), Or(PinSet(clauses), None)))
            else InfoAfter(h, n, j)
  {
    OneMoreStatement(h, Create(name, k, false, clauses), n, j);
  }

  /**
   * `app.f` is renamed to `g` and stays in its schema, but the gate writes it over the entry
   * of `public.g`, whose missing pin is no longer reported.
   */
  lemma RenameHidesAnotherFunction(file: string, t1: Table, t2: Table, t3: Table)
    requires After(map[], file, Create(Name(PUBLIC, "g"), 1, false, BARE), t1)
    requires After(t1, file, Create(Name("app", "f"), 1, false, PINNED), t2)
    requires After(t2, file, Alter(Ref(Name("app", "f"), Some(1)), RenameTo("g")), t3)
    ensures var h := [Create(Name(PUBLIC, "g"), 1, false, BARE), Create(Name("app", "f"), 1, false, PINNED),
                      Alter(Ref(Name("app", "f"), Some(1)), RenameTo("g"))];
            Unsafe(h, Name(PUBLIC, "g"), 1) && !Reported(t3, Name(PUBLIC, "g"), 1)
  {
    var g, f := Name(PUBLIC, "g"), Name("app", "f");
    var c1, c2, r := Create(g, 1, false, BARE), Create(f, 1, false, PINNED), Alter(Ref(f, Some(1)), RenameTo("g"));
    ClausesSay();
    hide PinSet, SecuritySet, SetRead, SecurityRead, KeyOf;
    assert [c1, c2, r] == [] + [c1] + [c2] + [r];
    OneMoreStatement([] + [c1] + [c2], r, g, 1);
    OneCreated([] + [c1], f, 1, PINNED, g, 1);
    OneCreated([], g, 1, BARE, g, 1);
    if KeyOf(f, 1) == KeyOf(g, 1) { KeyOfIsInjective(f, 1, g, 1); }
    assert Known(t2, f, 1) == Some(Info(false, true, Some(Listed(SAFE))));
    assert SomeDone(t2, Targets(t2, r.ref), f, 1);
    assert AlteredAt(t2, file, r, Targets(t2, r.ref), g, 1, Find(t3, g, 1));
    forall m | SomeDone(t2, Targets(t2, r.ref), m, 1) ensures m == f { KeyOfIsInjective(m, 1, f, 1); }
    assert Known(t3, g, 1) == Some(Info(false, true, Some(Listed(SAFE))));
    ReportedWhenKnown(t3, g, 1);
  }

  /** `RESET search_path SET search_path = …, pg_temp` leaves the pin; the gate clears it and reports the function. */
  lemma SetAfterResetIsReported(file: string, t1: Table, t2: Table)
    requires After(map[], file, Create(Name(PUBLIC, "f"), 0, false, BARE), t1)
    requires After(t1, file, Alter(Ref(Name(PUBLIC, "f"), Some(0)), Acts([Reset, Set(SAFE)])), t2)
    ensures var h := [Create(Name(PUBLIC, "f"), 0, false, BARE),
                      Alter(Ref(Name(PUBLIC, "f"), Some(0)), Acts([Reset, Set(SAFE)]))];
            Live(h, Name(PUBLIC, "f"), 0) && !Unsafe(h, Name(PUBLIC, "f"), 0) && Reported(t2, Name(PUBLIC, "f"), 0)
  {
    var f, actions := Name(PUBLIC, "f"), [Reset, Set(SAFE)];
    var c, a := Create(f, 0, false, BARE), Alter(Ref(f, Some(0)), Acts(actions));
    ClausesSay();
    assert actions[1] == Set(SAFE) && Reset in actions && actions[..1] == [Reset] && [Reset][..0] == [];
    assert PinSet(actions) == Some(Some(Listed(SAFE))) && PinRead(actions) == Some(None);
    assert Security(true) !in actions && Security(false) !in actions && SecurityRead(actions) == None;
    hide PinSet, SecuritySet, SetRead, SecurityRead, KeyOf, PinRead;
    assert [c, a] == [] + [c] + [a];
    OneMoreStatement([] + [c], a, f, 0);
    OneCreated([], f, 0, BARE, f, 0);
    assert SomeDone(t1, Targets(t1, a.ref), f, 0);
    assert AlteredAt(t1, file, a, Targets(t1, a.ref), f, 0, Find(t2, f, 0));
    ReportedWhenKnown(t2, f, 0);
  }

  /**
   * A safe path and then another one, or then DEFAULT, in one ALTER: the database leaves the
   * function without a safe path, the gate has read the first and does not report it.
   */
  lemma SecondSetIsMissed(file: string, last: Action, t1: Table, t2: Table)
    requires last == Set(["public"]) || last == ToDefault
    requires After(map[], file, Create(Name(PUBLIC, "f"), 0, false, BARE), t1)
    requires After(t1, file, Alter(Ref(Name(PUBLIC, "f"), Some(0)), Acts([Set(SAFE), last])), t2)
    ensures var h := [Create(Name(PUBLIC, "f"), 0, false, BARE),
                      Alter(Ref(Name(PUBLIC, "f"), Some(0)), Acts([Set(SAFE), last]))];
            Unsafe(h, Name(PUBLIC, "f"), 0) && !Reported(t2, Name(PUBLIC, "f"), 0)
  {
    var f, actions := Name(PUBLIC, "f"), [Set(SAFE), last];
    var c, a := Create(f, 0, false, BARE), Alter(Ref(f, Some(0)), Acts(actions));
    ClausesSay();
    assert actions[0] == Set(SAFE) && actions[1] == last && !last.Security?;
    assert PinSet(actions) == Some(ValueOf(last)) && PinRead(actions) == Some(Some(Listed(SAFE)));
    assert SecuritySet(actions) == None && SecurityRead(actions) == None by { LastSecurityWins(actions); }
    hide PinSet, SecuritySet, SetRead, SecurityRead, KeyOf, PinRead;
    assert [c, a] == [] + [c] + [a];
    OneMoreStatement([] + [c], a, f, 0);
    OneCreated([], f, 0, BARE, f, 0);
    assert SomeDone(t1, Targets(t1, a.ref), f, 0);
    assert AlteredAt(t1, file, a, Targets(t1, a.ref), f, 0, Find(t2, f, 0));
    ReportedWhenKnown(t2, f, 0);
  }

  /** `DROP FUNCTION a(int), b(int)`: only the first is dropped, and b is still reported. */
  lemma SecondDropIsMissed(file: string, t1: Table, t2: Table)
    requires After(map[], file, Create(Name(PUBLIC, "b"), 1, false, BARE), t1)
    requires After(t1, file, Drop(Ref(Name(PUBLIC, "a"), Some(1)), [Ref(Name(PUBLIC, "b"), Some(1))]), t2)
    ensures var h := [Create(Name(PUBLIC, "b"), 1, false, BARE),
                      Drop(Ref(Name(PUBLIC, "a"), Some(1)), [Ref(Name(PUBLIC, "b"), Some(1))])];
            !Live(h, Name(PUBLIC, "b"), 1) && Reported(t2, Name(PUBLIC, "b"), 1)
  {
    var a, b := Name(PUBLIC, "a"), Name(PUBLIC, "b");
    var c, d := Create(b, 1, false, BARE), Drop(Ref(a, Some(1)), [Ref(b, Some(1))]);
    ClausesSay();
    hide PinSet, SecuritySet, SetRead, SecurityRead, KeyOf;
    assert [c, d] == [] + [c] + [d];
    OneMoreStatement([] + [c], d, b, 1);
    assert ([d.first] + d.more)[1] == Ref(b, Some(1)) && Hits(Ref(b, Some(1)), b, 1);
    if KeyOf(a, 1) == KeyOf(b, 1) { KeyOfIsInjective(a, 1, b, 1); }
    ReportedWhenKnown(t2, b, 1);
  }

  /** `DROP FUNCTION a` drops "a/b" as well, and its missing pin is no longer reported. */
  lemma SlashedNamesAreHitToo(file: string, t1: Table, t2: Table)
    requires After(map[], file, Create(Name(PUBLIC, "a/b"), 0, false, BARE), t1)
    requires After(t1, file, Drop(Ref(Name(PUBLIC, "a"), None), []), t2)
    ensures var h := [Create(Name(PUBLIC, "a/b"), 0, false, BARE), Drop(Ref(Name(PUBLIC, "a"), None), [])];
            Unsafe(h, Name(PUBLIC, "a/b"), 0) && !Reported(t2, Name(PUBLIC, "a/b"), 0)
  {
    var n, ref := Name(PUBLIC, "a/b"), Ref(Name(PUBLIC, "a"), None);
    var c, d := Create(n, 0, false, BARE), Drop(ref, []);
    ClausesSay();
    ReachedExactly(ref, n, 0);
    assert "a/b"[..2] == "a" + "/";
    assert Continues(ref, n);
    hide PinSet, SecuritySet, SetRead, SecurityRead, KeyOf, Text;
    assert [c, d] == [] + [c] + [d];
    OneMoreStatement([] + [c], d, n, 0);
    OneCreated([], n, 0, BARE, n, 0);
    assert !HitsSome([d.first] + d.more, n, 0);
    ReportedWhenKnown(t2, n, 0);
  }
}
