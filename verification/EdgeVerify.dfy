/**
 * The edge verifier (scripts/blog-legacy-edge-verify.ts): the walk along one redirect chain,
 * and the fixed pool of workers that walks a whole corpus.
 * The network, the refusal rule and the resolution of a Location header are oracles.
 */
module EdgeVerify {
  import opened Common

  // ------------------------------------------------------ one redirect chain

  /** What a request gives: a network failure, or a status line and perhaps a Location. */
  datatype Answer = NoAnswer | Answer(status: int, location: Option<string>)

  datatype Response = Response(url: string, status: Option<int>, location: Option<string>)

  datatype UnsafeHop = UnsafeHop(url: string, refusal: string)

  datatype Chain = Chain(responses: seq<Response>, exhausted: bool, looped: bool, unsafeHop: Option<UnsafeHop>)

  datatype World = World(
    fetch: (nat, string) -> Answer,              // the n-th request of the walk
    refusal: string -> Option<string>,
    resolve: (string, string) -> Option<string>)

  function Recorded(url: string, answer: Answer): Response {
    match answer
    case NoAnswer => Response(url, None, None)
    case Answer(status, location) => Response(url, Some(status), location)
  }

  /** Where a response sends the reader, if it does. */
  function Following(w: World, r: Response): Option<string> {
    if r.status.Some? && 300 <= r.status.value < 400 && r.location.Some?
    then w.resolve(r.url, r.location.value) else None
  }

  /** A redirect is followed exactly when its status is one of 300 to 399 and its Location resolves. */
  lemma FollowedExactly(w: World, url: string, answer: Answer, next: string)
    ensures Following(w, Recorded(url, answer)) == Some(next) <==>
              && answer.Answer? && 300 <= answer.status <= 399
              && answer.location.Some? && w.resolve(url, answer.location.value) == Some(next)
  {}

  /** A response is the answer under the URL that was asked for. */
  lemma RecordedExactly(url: string, answer: Answer)
    ensures Recorded(url, answer) ==
            match answer
            case NoAnswer => Response(url, None, None)
            case Answer(status, location) => Response(url, Some(status), location)
  {}

  /** The next URL of a walk that got these responses. */
  function NextUrl(w: World, start: string, responses: seq<Response>): Option<string> {
    if responses == [] then Some(start) else Following(w, responses[|responses| - 1])
  }

  predicate Visited(responses: seq<Response>, url: string) {
    exists i :: 0 <= i < |responses| && responses[i].url == url
  }

  /** The responses form a walk: linked, accepted, answered by the network, and never the same URL twice. */
  ghost predicate Walked(w: World, start: string, responses: seq<Response>) {
    forall i :: 0 <= i < |responses| ==>
      && NextUrl(w, start, responses[..i]) == Some(responses[i].url)
      && w.refusal(responses[i].url) == None
      && responses[i] == Recorded(responses[i].url, w.fetch(i, responses[i].url))
      && !Visited(responses[..i], responses[i].url)
  }

  /** The chain reports the walk and exactly why it stopped. */
  ghost predicate Reports(w: World, start: string, maxHops: nat, c: Chain) {
    var n, next := |c.responses|, NextUrl(w, start, c.responses);
    && Walked(w, start, c.responses) && n <= maxHops + 1
    && (c.exhausted <==> next.Some? && n == maxHops + 1)
    && (c.unsafeHop == if next.Some? && n <= maxHops && w.refusal(next.value).Some?
                       then Some(UnsafeHop(next.value, w.refusal(next.value).value)) else None)
    && (c.looped <==> next.Some? && n <= maxHops && w.refusal(next.value).None? && Visited(c.responses, next.value))
    && (next.Some? ==> c.exhausted || c.looped || c.unsafeHop.Some?)
  }

  method WalkRedirectChain(w: World, start: string, maxHops: nat) returns (c: Chain)
    ensures Reports(w, start, maxHops, c)
  {
    hide Walked;
    var responses: seq<Response> := [];
    var seen: set<string> := {};
    var current := start;
    NoWalk(w, start);
    for hop := 0 to maxHops + 1
      invariant |responses| == hop && NextUrl(w, start, responses) == Some(current)
      invariant forall url :: url in seen <==> Visited(responses, url)
      invariant Walked(w, start, responses)
    {
      var refusal := w.refusal(current);
      if refusal.Some? {
        return Chain(responses, false, false, Some(UnsafeHop(current, refusal.value)));
      }
      if current in seen {
        return Chain(responses, false, true, None);
      }
      seen := seen + {current};
      var answer := w.fetch(hop, current);
      WalkOn(w, start, responses, current);
      ghost var before := responses;
      responses := responses + [Recorded(current, answer)];
      forall url ensures Visited(responses, url) <==> Visited(before, url) || url == current {
        if i :| 0 <= i < |before| && before[i].url == url { assert responses[i].url == url; }
        if url == current { assert responses[hop].url == url; }
      }
      if answer.NoAnswer? || answer.status < 300 || answer.status >= 400 || answer.location.None? {
        return Chain(responses, false, false, None);
      }
      var next := w.resolve(current, answer.location.value);
      if next.None? {
        return Chain(responses, false, false, None);
      }
      current := next.value;
    }
    return Chain(responses, true, false, None);
  }

  lemma NoWalk(w: World, start: string)
    ensures Walked(w, start, [])
  {}

  lemma WalkOn(w: World, start: string, responses: seq<Response>, url: string)
    requires Walked(w, start, responses) && NextUrl(w, start, responses) == Some(url)
    requires w.refusal(url) == None && !Visited(responses, url)
    ensures Walked(w, start, responses + [Recorded(url, w.fetch(|responses|, url))])
  {
    var after := responses + [Recorded(url, w.fetch(|responses|, url))];
    forall i | 0 <= i < |after| ensures after[..i] == responses[..i] {}
    assert responses[..|responses|] == responses;
  }

  /** At most one reason to stop, and no URL is requested twice. */
  lemma ReasonsExclude(w: World, start: string, maxHops: nat, c: Chain)
    requires Reports(w, start, maxHops, c)
    ensures !(c.exhausted && c.looped) && !(c.exhausted && c.unsafeHop.Some?) && !(c.looped && c.unsafeHop.Some?)
    ensures forall i, j :: 0 <= i < j < |c.responses| ==> c.responses[i].url != c.responses[j].url
    ensures c.exhausted ==> |c.responses| == maxHops + 1
    ensures c.exhausted ==> forall i :: 0 <= i < |c.responses| ==> Following(w, c.responses[i]).Some?
  {
    forall i, j | 0 <= i < j < |c.responses| ensures c.responses[i].url != c.responses[j].url {
      assert c.responses[..j][i] == c.responses[i];
      assert !Visited(c.responses[..j], c.responses[j].url);
    }
    forall i | 0 <= i < |c.responses| && c.exhausted ensures Following(w, c.responses[i]).Some? {
      if i + 1 < |c.responses| {
        assert NextUrl(w, start, c.responses[..i + 1]).Some? && c.responses[..i + 1][i] == c.responses[i];
      }
    }
  }

  lemma {:induction false} SameWalk(w: World, start: string, a: seq<Response>, b: seq<Response>, n: nat)
    requires Walked(w, start, a) && Walked(w, start, b) && n <= |a| && n <= |b|
    ensures a[..n] == b[..n]
  {
    hide NextUrl, Visited, Recorded;
    if n > 0 {
      SameWalk(w, start, a, b, n - 1);
      assert NextUrl(w, start, a[..n - 1]) == Some(a[n - 1].url);
      assert NextUrl(w, start, b[..n - 1]) == Some(b[n - 1].url);
      assert a[..n] == a[..n - 1] + [a[n - 1]] && b[..n] == b[..n - 1] + [b[n - 1]];
    }
  }

  /** A walk stops as late as it can: no report is a shorter part of another. */
  lemma NoEarlyStop(w: World, start: string, maxHops: nat, a: Chain, b: Chain)
    requires Reports(w, start, maxHops, a) && Reports(w, start, maxHops, b)
    ensures |a.responses| >= |b.responses|
  {
    var n := |a.responses|;
    assert a.responses[..n] == a.responses;
    if n < |b.responses| {
      SameWalk(w, start, a.responses, b.responses, n);
    }
  }

  /** The report is determined by the network alone. */
  lemma ReportIsDetermined(w: World, start: string, maxHops: nat, a: Chain, b: Chain)
    requires Reports(w, start, maxHops, a) && Reports(w, start, maxHops, b)
    ensures a == b
  {
    NoEarlyStop(w, start, maxHops, a, b);
    NoEarlyStop(w, start, maxHops, b, a);
    var n := |a.responses|;
    SameWalk(w, start, a.responses, b.responses, n);
    assert a.responses == a.responses[..n] == b.responses[..n] == b.responses;
  }

  /**
   * A network whose redirects close a loop after the responses `rs` is reported as looped
   * exactly when the budget lets the walk ask once more; otherwise it is reported exhausted.
   */
  lemma LoopIsReportedExactly(w: World, start: string, maxHops: nat, rs: seq<Response>, c: Chain)
    requires Walked(w, start, rs) && NextUrl(w, start, rs).Some?
    requires Visited(rs, NextUrl(w, start, rs).value) && w.refusal(NextUrl(w, start, rs).value).None?
    requires Reports(w, start, maxHops, c)
    ensures c.looped <==> |rs| <= maxHops
    ensures c.exhausted <==> |rs| > maxHops
    ensures c.unsafeHop.None? && (|rs| <= maxHops + 1 ==> c.responses == rs)
  {
    var n := |c.responses|;
    assert rs[..|rs|] == rs && c.responses[..n] == c.responses;
    if n < |rs| {
      SameWalk(w, start, c.responses, rs, n);
    } else {
      SameWalk(w, start, c.responses, rs, |rs|);
    }
  }

  /** The i-th URL of a ring. */
  function RingUrl(i: nat): string {
    seq(i, _ => 'x')
  }

  /** Every URL redirects to the next, and the m-th back to the first. */
  function Ring(m: nat): World {
    World((_, _) => Answer(302, Some("")), _ => None,
      (url, _) => Some(if |url| < m then RingUrl(|url| + 1) else RingUrl(0)))
  }

  function RingResponses(m: nat): (rs: seq<Response>)
    ensures |rs| == m + 1 && forall i :: 0 <= i <= m ==> rs[i] == Response(RingUrl(i), Some(302), Some(""))
  {
    seq(m + 1, i requires 0 <= i <= m => Response(RingUrl(i), Some(302), Some("")))
  }

  lemma RingIsWalked(m: nat)
    ensures Walked(Ring(m), RingUrl(0), RingResponses(m))
    ensures NextUrl(Ring(m), RingUrl(0), RingResponses(m)) == Some(RingUrl(0)) && Visited(RingResponses(m), RingUrl(0))
  {
    var rs := RingResponses(m);
    assert forall i: nat :: |RingUrl(i)| == i;
    forall i | 0 <= i < |rs|
      ensures NextUrl(Ring(m), RingUrl(0), rs[..i]) == Some(rs[i].url) && !Visited(rs[..i], rs[i].url)
    {
      if i > 0 { assert rs[..i][i - 1] == rs[i - 1]; }
      forall j | 0 <= j < i ensures rs[..i][j].url != rs[i].url { assert |rs[..i][j].url| == j; }
    }
    assert rs[0].url == RingUrl(0);
  }

  /** For every budget there is a loop that it takes to be exhausted, and one hop more would see. */
  lemma RingExhaustsItsBudget(maxHops: nat, c: Chain, d: Chain)
    requires Reports(Ring(maxHops), RingUrl(0), maxHops, c) && Reports(Ring(maxHops), RingUrl(0), maxHops + 1, d)
    ensures c.exhausted && !c.looped && d.looped && !d.exhausted && c.responses == d.responses == RingResponses(maxHops)
  {
    RingIsWalked(maxHops);
    LoopIsReportedExactly(Ring(maxHops), RingUrl(0), maxHops, RingResponses(maxHops), c);
    LoopIsReportedExactly(Ring(maxHops), RingUrl(0), maxHops + 1, RingResponses(maxHops), d);
  }

  // ------------------------------------------------------- the worker pool

  datatype Worker = Ready | Walking(index: nat) | Returned

  datatype Row<T> = Row(url: string, verdict: T)

  datatype Pool<T> = Pool(cursor: nat, rows: seq<Option<Row<T>>>, workers: seq<Worker>, claims: seq<nat>)

  /** `Claim` runs from the loop head to the walk or to the return; `Finish` stores the row. */
  datatype Step<T> = Claim(w: nat) | Finish(w: nat, verdict: T)

  function Start<T>(targets: seq<string>, concurrency: nat): Pool<T> {
    var size := if concurrency < |targets| then concurrency else |targets|;
    Pool(0, seq(|targets|, _ => None), seq(size, _ => Ready), [])
  }

  predicate Enabled<T>(p: Pool<T>, step: Step<T>) {
    step.w < |p.workers| &&
    match step
    case Claim(w) => p.workers[w].Ready?
    case Finish(w, _) => p.workers[w].Walking? && p.workers[w].index < |p.rows|
  }

  function Next<T>(targets: seq<string>, p: Pool<T>, step: Step<T>): Pool<T>
    requires Enabled(p, step) && |p.rows| == |targets|
  {
    match step
    case Claim(w) =>
      if p.cursor >= |targets| then p.(cursor := p.cursor + 1, workers := p.workers[w := Returned])
      else p.(cursor := p.cursor + 1, workers := p.workers[w := Walking(p.cursor)], claims := p.claims + [p.cursor])
    case Finish(w, verdict) =>
      var index := p.workers[w].index;
      p.(rows := p.rows[index := Some(Row(targets[index], verdict))], workers := p.workers[w := Ready])
  }

  ghost predicate Runs<T>(targets: seq<string>, p: Pool<T>, steps: seq<Step<T>>)
    decreases |steps|
  {
    && |p.rows| == |targets|
    && (steps == [] || (Enabled(p, steps[0]) && Runs(targets, Next(targets, p, steps[0]), steps[1..])))
  }

  ghost function After<T>(targets: seq<string>, p: Pool<T>, steps: seq<Step<T>>): (q: Pool<T>)
    requires Runs(targets, p, steps)
    ensures |q.rows| == |targets|
    decreases |steps|
  {
    if steps == [] then p else After(targets, Next(targets, p, steps[0]), steps[1..])
  }

  function Min(a: nat, b: nat): nat {
    if a < b then a else b
  }

  /** The claims so far are 0, 1, 2, ... */
  ghost predicate InOrder(claims: seq<nat>, n: nat) {
    |claims| == n && forall i :: 0 <= i < n ==> claims[i] == i
  }

  ghost predicate Valid<T>(targets: seq<string>, p: Pool<T>) {
    && |p.rows| == |targets|
    && InOrder(p.claims, Min(p.cursor, |targets|))
    && (forall w :: 0 <= w < |p.workers| && p.workers[w].Walking? ==>
          p.workers[w].index < Min(p.cursor, |targets|) && p.rows[p.workers[w].index].None?)
    && (forall v, w :: 0 <= v < w < |p.workers| && p.workers[v].Walking? && p.workers[w].Walking? ==>
          p.workers[v].index != p.workers[w].index)
    && (forall i :: 0 <= i < |targets| && p.rows[i].Some? ==> p.rows[i].value.url == targets[i])
    && (forall i :: 0 <= i < Min(p.cursor, |targets|) && p.rows[i].None? ==>
          exists w :: 0 <= w < |p.workers| && p.workers[w] == Walking(i))
    && (forall i :: p.cursor <= i < |targets| ==> p.rows[i].None?)
    && (forall w :: 0 <= w < |p.workers| && p.workers[w].Returned? ==> p.cursor >= |targets|)
  }

  lemma ClaimKeepsValid<T>(targets: seq<string>, p: Pool<T>, w: nat)
    requires Valid(targets, p) && Enabled(p, Claim(w))
    ensures Valid(targets, Next(targets, p, Claim(w)))
  {
    var q := Next(targets, p, Claim(w));
    forall i | 0 <= i < Min(q.cursor, |targets|) && q.rows[i].None?
      ensures exists v :: 0 <= v < |q.workers| && q.workers[v] == Walking(i)
    {
      if i == p.cursor {
        assert q.workers[w] == Walking(i);
      } else {
        var v :| 0 <= v < |p.workers| && p.workers[v] == Walking(i);
        assert q.workers[v] == Walking(i);
      }
    }
  }

  lemma FinishKeepsValid<T>(targets: seq<string>, p: Pool<T>, w: nat, verdict: T)
    requires Valid(targets, p) && Enabled(p, Finish(w, verdict))
    ensures Valid(targets, Next(targets, p, Finish(w, verdict)))
  {
    var q := Next(targets, p, Finish(w, verdict));
    forall i | 0 <= i < Min(q.cursor, |targets|) && q.rows[i].None?
      ensures exists v :: 0 <= v < |q.workers| && q.workers[v] == Walking(i)
    {
      var v :| 0 <= v < |p.workers| && p.workers[v] == Walking(i);
      assert q.workers[v] == Walking(i);
    }
  }

  lemma {:induction false} RunKeepsValid<T>(targets: seq<string>, p: Pool<T>, steps: seq<Step<T>>)
    requires Valid(targets, p) && Runs(targets, p, steps)
    ensures Valid(targets, After(targets, p, steps)) && |After(targets, p, steps).workers| == |p.workers|
    decreases |steps|
  {
    if steps != [] {
      match steps[0] {
        case Claim(w) => ClaimKeepsValid(targets, p, w);
        case Finish(w, verdict) => FinishKeepsValid(targets, p, w, verdict);
      }
      RunKeepsValid(targets, Next(targets, p, steps[0]), steps[1..]);
    }
  }

  /** The rows that exist, in corpus order. */
  function Ordered<T>(rows: seq<Option<Row<T>>>): seq<Row<T>> {
    if rows == [] then [] else
      Ordered(rows[..|rows| - 1]) + match rows[|rows| - 1] case None => [] case Some(row) => [row]
  }

  lemma {:induction false} OrderedAll<T>(rows: seq<Option<Row<T>>>)
    requires forall i :: 0 <= i < |rows| ==> rows[i].Some?
    ensures |Ordered(rows)| == |rows| && forall i :: 0 <= i < |rows| ==> Ordered(rows)[i] == rows[i].value
  {
    if rows != [] {
      OrderedAll(rows[..|rows| - 1]);
    }
  }

  /** The indices are claimed in order, each once, by at most `concurrency` workers at a time. */
  lemma EachIndexOnce<T>(targets: seq<string>, concurrency: nat, steps: seq<Step<T>>)
    requires Runs(targets, Start(targets, concurrency), steps)
    ensures var p := After(targets, Start(targets, concurrency), steps);
            && |p.claims| == (if p.cursor < |targets| then p.cursor else |targets|)
            && (forall i :: 0 <= i < |p.claims| ==> p.claims[i] == i)
            && |p.workers| == (if concurrency < |targets| then concurrency else |targets|)
            && forall v, w :: 0 <= v < w < |p.workers| && p.workers[v].Walking? && p.workers[w].Walking? ==>
                 p.workers[v].index != p.workers[w].index
  {
    var start: Pool<T> := Start(targets, concurrency);
    RunKeepsValid(targets, start, steps);
  }

  /** When every worker has returned, the report has one row per target, in corpus order. */
  lemma ReportIsComplete<T>(targets: seq<string>, concurrency: nat, steps: seq<Step<T>>)
    requires concurrency > 0 && Runs(targets, Start(targets, concurrency), steps)
    requires var p := After(targets, Start(targets, concurrency), steps);
             forall w :: 0 <= w < |p.workers| ==> p.workers[w].Returned?
    ensures var ordered := Ordered(After(targets, Start(targets, concurrency), steps).rows);
            |ordered| == |targets| && forall i :: 0 <= i < |targets| ==> ordered[i].url == targets[i]
  {
    var start: Pool<T> := Start(targets, concurrency);
    RunKeepsValid(targets, start, steps);
    var p := After(targets, start, steps);
    assert |targets| > 0 ==> p.workers[0].Returned?;
    OrderedAll(p.rows);
  }

  /** Every row is that of a walk of its target: the verdict stored when a worker came back from that index. */
  ghost predicate OfItsWalk<T>(targets: seq<string>, p: Pool<T>, steps: seq<Step<T>>, i: nat, row: Row<T>, j: nat)
    requires j < |steps|
  {
    && Runs(targets, p, steps[..j]) && steps[j].Finish? && i < |targets| && row == Row(targets[i], steps[j].verdict)
    && var q := After(targets, p, steps[..j]);
       steps[j].w < |q.workers| && q.workers[steps[j].w] == Walking(i)
  }

  lemma {:induction false} RowsAreOfTheirWalks<T>(targets: seq<string>, p: Pool<T>, steps: seq<Step<T>>, i: nat)
    requires Runs(targets, p, steps) && i < |targets|
    ensures var row := After(targets, p, steps).rows[i];
            row == p.rows[i] ||
            (row.Some? && exists j :: 0 <= j < |steps| && OfItsWalk(targets, p, steps, i, row.value, j))
    decreases |steps|
  {
    if steps != [] {
      var next, rest := Next(targets, p, steps[0]), steps[1..];
      RowsAreOfTheirWalks(targets, next, rest, i);
      var row := After(targets, next, rest).rows[i];
      if row.Some? && exists j :: 0 <= j < |rest| && OfItsWalk(targets, next, rest, i, row.value, j) {
        var j :| 0 <= j < |rest| && OfItsWalk(targets, next, rest, i, row.value, j);
        assert steps[..j + 1][0] == steps[0] && steps[..j + 1][1..] == rest[..j] && steps[j + 1] == rest[j];
        assert OfItsWalk(targets, p, steps, i, row.value, j + 1);
      } else if next.rows[i] != p.rows[i] {
        assert steps[..0] == [] && OfItsWalk(targets, p, steps, i, row.value, 0);
      }
    }
  }

  function WorkerWork(w: Worker): nat {
    match w case Ready => 1 case Walking(_) => 2 case Returned => 0
  }

  function WorkersWork(workers: seq<Worker>): nat {
    if workers == [] then 0 else WorkersWork(workers[..|workers| - 1]) + WorkerWork(workers[|workers| - 1])
  }

  lemma {:induction false} WorkersWorkUpdate(workers: seq<Worker>, w: nat, to: Worker)
    requires w < |workers|
    ensures WorkersWork(workers[w := to]) == WorkersWork(workers) - WorkerWork(workers[w]) + WorkerWork(to)
  {
    var n := |workers| - 1;
    if w == n {
      assert workers[w := to][..n] == workers[..n];
    } else {
      assert workers[w := to][..n] == workers[..n][w := to];
      WorkersWorkUpdate(workers[..n], w, to);
    }
  }

  function Remaining<T>(targets: seq<string>, p: Pool<T>): nat {
    2 * (if p.cursor < |targets| then |targets| - p.cursor else 0) + WorkersWork(p.workers)
  }

  /** Every step brings the pool nearer its end, and until then some worker can move. */
  lemma PoolFinishes<T>(targets: seq<string>, p: Pool<T>, step: Step<T>)
    requires Valid(targets, p) && Enabled(p, step)
    ensures Remaining(targets, Next(targets, p, step)) < Remaining(targets, p)
  {
    WorkersWorkUpdate(p.workers, step.w, Next(targets, p, step).workers[step.w]);
  }

  lemma PoolNeverStuck<T>(targets: seq<string>, p: Pool<T>, w: nat, verdict: T)
    requires Valid(targets, p) && w < |p.workers| && !p.workers[w].Returned?
    ensures Enabled(p, Claim(w)) || Enabled(p, Finish(w, verdict))
  {}
}
