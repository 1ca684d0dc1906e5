/**
 * The process tree walk of the runner (scripts/ci-local.ts, descendantsOf): a breadth-first
 * search over parent links.  A process table may repeat rows and may contain parent cycles.
 */
module ProcessTree {
  import opened Common

  datatype Row = Row(pid: int, ppid: int)

  /** The processes at most `n` parent links below `root`, the root included. */
  ghost function Within(table: seq<Row>, root: int, n: nat): set<int> {
    if n == 0 then {root}
    else Within(table, root, n - 1) + set row | row in table && row.ppid in Within(table, root, n - 1) :: row.pid
  }

  ghost predicate Descends(table: seq<Row>, root: int, pid: int) {
    pid != root && exists n: nat :: pid in Within(table, root, n)
  }

  /** Nobody is listed before somebody nearer to the root. */
  ghost predicate NearestFirst(table: seq<Row>, root: int, found: seq<int>) {
    forall i, j, n: nat :: 0 <= i < j < |found| && found[j] in Within(table, root, n) ==>
      found[i] in Within(table, root, n)
  }

  lemma WithinGrows(table: seq<Row>, root: int, m: nat, n: nat)
    requires m <= n
    ensures Within(table, root, m) <= Within(table, root, n)
  {
    if m < n {
      WithinGrows(table, root, m, n - 1);
    }
  }

  // ------------------------------------------------------- the search state

  /** `order` lists what was discovered, the root first; `depth` is its distance. */
  ghost predicate Discovered(table: seq<Row>, root: int, order: seq<int>, depth: map<int, nat>) {
    && |order| > 0 && order[0] == root && Distinct(order)
    && depth.Keys == ToSet(order)
    && (forall x :: x in depth ==> x in Within(table, root, depth[x]))
    && (forall i, j :: 0 <= i < j < |order| ==> depth[order[i]] <= depth[order[j]])
  }

  /** The children of the first `k` discovered processes are discovered, one step further at most. */
  ghost predicate Expanded(table: seq<Row>, order: seq<int>, depth: map<int, nat>, k: nat)
    requires k <= |order| && depth.Keys == ToSet(order)
  {
    forall i, row :: 0 <= i < k && row in table && row.ppid == order[i] ==>
      row.pid in depth && depth[row.pid] <= depth[order[i]] + 1
  }

  ghost predicate NoFartherThan(depth: map<int, nat>, n: nat) {
    forall x :: x in depth ==> depth[x] <= n
  }

  lemma DistinctCount(s: seq<int>)
    requires Distinct(s)
    ensures |ToSet(s)| == |s|
  {
    if s != [] {
      var rest, last := s[..|s| - 1], s[|s| - 1];
      DistinctCount(rest);
      assert ToSet(s) == ToSet(rest) + {last};
      assert last !in rest;
    }
  }

  lemma {:induction false} DepthIsDistance(table: seq<Row>, root: int, order: seq<int>, depth: map<int, nat>, n: nat)
    requires Discovered(table, root, order, depth) && Expanded(table, order, depth, |order|) && depth[root] == 0
    ensures forall x :: x in Within(table, root, n) <==> x in depth && depth[x] <= n
  {
    forall x | x in depth && depth[x] <= n
      ensures x in Within(table, root, n)
    {
      WithinGrows(table, root, depth[x], n);
    }
    if n > 0 {
      DepthIsDistance(table, root, order, depth, n - 1);
      forall row | row in table && row.ppid in Within(table, root, n - 1)
        ensures row.pid in depth && depth[row.pid] <= n
      {
        assert row.ppid in ToSet(order);
        var i :| 0 <= i < |order| && order[i] == row.ppid;
      }
    }
  }

  // ---------------------------------------------- the state between iterations

  /** Every process the search can ever list, and the root. */
  ghost function Pids(table: seq<Row>, root: int): set<int> {
    {root} + set row | row in table :: row.pid
  }

  /** The first `k` of the discovered processes are expanded, the others wait in the queue. */
  ghost predicate Consistent(table: seq<Row>, root: int, seen: set<int>, queue: seq<int>, order: seq<int>,
      depth: map<int, nat>, k: nat) {
    && k <= |order| && queue == order[k..] && seen == depth.Keys <= Pids(table, root)
    && Discovered(table, root, order, depth) && root in depth && depth[root] == 0
  }

  /** At the head of the outer loop. */
  ghost predicate Searching(table: seq<Row>, root: int, seen: set<int>, queue: seq<int>, order: seq<int>,
      depth: map<int, nat>, k: nat) {
    && Consistent(table, root, seen, queue, order, depth, k) && Expanded(table, order, depth, k)
    && (k < |order| ==> NoFartherThan(depth, depth[order[k]] + 1))
  }

  /** In the inner loop: `current` left the queue last, and its children are being discovered. */
  ghost predicate Expanding(table: seq<Row>, root: int, seen: set<int>, queue: seq<int>, order: seq<int>,
      depth: map<int, nat>, k: nat, current: int) {
    && Consistent(table, root, seen, queue, order, depth, k)
    && 0 < k && current == order[k - 1] && Expanded(table, order, depth, k - 1)
    && current in depth && NoFartherThan(depth, depth[current] + 1)
  }

  lemma SearchStarts(table: seq<Row>, root: int)
    ensures Searching(table, root, {root}, [root], [root], map[root := 0], 0)
  {
    assert ToSet([root]) == {root} == (map[root := 0 as nat]).Keys;
  }

  lemma TakeNext(table: seq<Row>, root: int, seen: set<int>, queue: seq<int>, order: seq<int>, depth: map<int, nat>,
      k: nat)
    requires Searching(table, root, seen, queue, order, depth, k) && queue != []
    ensures Expanding(table, root, seen, queue[1..], order, depth, k + 1, queue[0])
    ensures k + |queue| <= |Pids(table, root)|
  {
    DistinctCount(order);
    SubsetCount(seen, Pids(table, root));
    assert order[k] in ToSet(order);
  }

  lemma PushDiscovered(table: seq<Row>, root: int, order: seq<int>, depth: map<int, nat>, parent: int, child: int)
    requires Discovered(table, root, order, depth) && parent in depth && NoFartherThan(depth, depth[parent] + 1)
    requires Row(child, parent) in table && child !in depth
    ensures Discovered(table, root, order + [child], depth[child := depth[parent] + 1])
    ensures NoFartherThan(depth[child := depth[parent] + 1], depth[parent] + 1)
  {
    assert child in Within(table, root, depth[parent] + 1) by {
      assert Row(child, parent) in table && Row(child, parent).ppid in Within(table, root, depth[parent]);
    }
    hide Within;
    var order', depth' := order + [child], depth[child := depth[parent] + 1];
    assert forall x :: x in order' <==> x in order || x == child;
    assert forall i :: 0 <= i < |order| ==> order[i] in ToSet(order) && order'[i] == order[i] != child;
  }

  lemma LaterKeepsExpanded(table: seq<Row>, order: seq<int>, depth: map<int, nat>, k: nat, child: int, d: nat)
    requires depth.Keys == ToSet(order) && k <= |order| && Expanded(table, order, depth, k) && child !in depth
    ensures depth[child := d].Keys == ToSet(order + [child]) && Expanded(table, order + [child], depth[child := d], k)
  {
    assert forall x :: x in order + [child] <==> x in order || x == child;
    assert forall i :: 0 <= i < k ==> order[i] in ToSet(order);
  }

  lemma SuffixPush(order: seq<int>, k: nat, child: int)
    requires 0 < k <= |order|
    ensures (order + [child])[k..] == order[k..] + [child] && (order + [child])[k - 1] == order[k - 1]
  {}

  lemma DiscoverOne(table: seq<Row>, root: int, seen: set<int>, queue: seq<int>, order: seq<int>,
      depth: map<int, nat>, k: nat, current: int, child: int)
    requires Expanding(table, root, seen, queue, order, depth, k, current) && Row(child, current) in table
        && child !in seen
    ensures current in depth
    ensures Expanding(table, root, seen + {child}, queue + [child], order + [child],
        depth[child := depth[current] + 1], k, current)
  {
    assert child in Pids(table, root) by {
      assert Row(child, current).pid == child;
    }
    assert depth.Keys == ToSet(order);
    hide Discovered, Pids, Expanded, ToSet, NoFartherThan;
    PushDiscovered(table, root, order, depth, current, child);
    LaterKeepsExpanded(table, order, depth, k - 1, child, depth[current] + 1);
    SuffixPush(order, k, child);
    assert depth[child := depth[current] + 1].Keys == seen + {child};
  }

  /** When all children of `current` were seen, the outer loop's state holds again. */
  lemma FinishExpanding(table: seq<Row>, root: int, seen: set<int>, queue: seq<int>, order: seq<int>,
      depth: map<int, nat>, k: nat, current: int)
    requires Expanding(table, root, seen, queue, order, depth, k, current)
    requires forall pid :: Row(pid, current) in table ==> pid in seen
    ensures Searching(table, root, seen, queue, order, depth, k)
  {
    forall row | row in table && row.ppid == current ensures row.pid in seen {
      assert row == Row(row.pid, current);
    }
    assert k < |order| ==> depth[order[k - 1]] <= depth[order[k]];
  }

  lemma OrderWithoutRoot(root: int, found: seq<int>, depth: map<int, nat>)
    requires Distinct([root] + found) && depth.Keys == ToSet([root] + found)
    ensures Distinct(found) && root !in found && depth.Keys == {root} + ToSet(found)
  {
    var order := [root] + found;
    assert forall i :: 0 <= i < |found| ==> found[i] == order[i + 1] && root == order[0];
    assert forall x :: x in order <==> x == root || x in found;
  }

  lemma FoundByDepth(root: int, found: seq<int>, depth: map<int, nat>)
    requires depth.Keys == ToSet([root] + found)
    requires var order := [root] + found; forall i, j :: 0 <= i < j < |order| ==> depth[order[i]] <= depth[order[j]]
    ensures forall x :: x in found ==> x in depth
    ensures forall i, j :: 0 <= i < j < |found| ==> depth[found[i]] <= depth[found[j]]
  {
    var order := [root] + found;
    assert forall i :: 0 <= i < |found| ==> found[i] == order[i + 1];
    assert forall x :: x in found ==> x in order;
  }

  lemma SearchIsExact(table: seq<Row>, root: int, seen: set<int>, found: seq<int>, depth: map<int, nat>, k: nat)
    requires Searching(table, root, seen, [], [root] + found, depth, k)
    ensures Distinct(found) && root !in found
    ensures forall pid :: pid in found <==> Descends(table, root, pid)
    ensures NearestFirst(table, root, found)
  {
    assert k == |[root] + found|;
    OrderWithoutRoot(root, found, depth);
    FoundByDepth(root, found, depth);
    hide Discovered, Expanded, Distinct, Within;
    forall n: nat ensures forall x :: x in Within(table, root, n) <==> x in depth && depth[x] <= n {
      DepthIsDistance(table, root, [root] + found, depth, n);
    }
    hide Searching, Consistent;
    forall pid ensures pid in found <==> Descends(table, root, pid) {
      if pid in found {
        assert pid in Within(table, root, depth[pid]);
      }
    }
  }

  // ----------------------------------------------------------------- the code

  function ChildrenOf(table: seq<Row>, ppid: int): seq<int> {
    if table == [] then [] else
      var last := table[|table| - 1];
      ChildrenOf(table[..|table| - 1], ppid) + if last.ppid == ppid then [last.pid] else []
  }

  ghost function RowsUnder(table: seq<Row>, ppid: int): set<int> {
    set i | 0 <= i < |table| && table[i].ppid == ppid
  }

  /** They stand in the order of the table, one for each row. */
  lemma {:induction false} ChildrenInOrder(table: seq<Row>, ppid: int) returns (at: seq<int>)
    ensures InOrder(at, RowsUnder(table, ppid)) && |at| == |ChildrenOf(table, ppid)|
    ensures forall a :: 0 <= a < |at| ==> 0 <= at[a] < |table| && ChildrenOf(table, ppid)[a] == table[at[a]].pid
    decreases |table|
  {
    at := [];
    if table != [] {
      var n := |table| - 1;
      var front := table[..n];
      at := ChildrenInOrder(front, ppid);
      OneMoreInOrder(at, RowsUnder(front, ppid), n);
      assert RowsUnder(table, ppid) == RowsUnder(front, ppid) + if table[n].ppid == ppid then {n} else {};
      hide InOrder, RowsUnder;
      if table[n].ppid == ppid { at := at + [n]; }
    }
  }

  lemma ChildrenAreRows(table: seq<Row>, ppid: int)
    ensures forall pid :: pid in ChildrenOf(table, ppid) <==> Row(pid, ppid) in table
  {
    if table != [] {
      var rest, last := table[..|table| - 1], table[|table| - 1];
      ChildrenAreRows(rest, ppid);
      assert forall row :: row in table <==> row in rest || row == last;
    }
  }

  function Siblings(byParent: map<int, seq<int>>, ppid: int): seq<int> {
    if ppid in byParent then byParent[ppid] else []
  }

  method GroupByParent(table: seq<Row>) returns (byParent: map<int, seq<int>>)
    ensures forall ppid :: Siblings(byParent, ppid) == ChildrenOf(table, ppid)
  {
    byParent := map[];
    for i := 0 to |table|
      invariant forall ppid :: Siblings(byParent, ppid) == ChildrenOf(table[..i], ppid)
    {
      var row := table[i];
      assert table[..i + 1][..i] == table[..i];
      byParent := byParent[row.ppid := Siblings(byParent, row.ppid) + [row.pid]];
    }
    assert table[..|table|] == table;
  }

  /** Exactly the processes below `root`, each once, the root never, nearest first. */
  method DescendantsOf(table: seq<Row>, root: int) returns (found: seq<int>)
    ensures Distinct(found) && root !in found
    ensures forall pid :: pid in found <==> Descends(table, root, pid)
    ensures NearestFirst(table, root, found)
  {
    hide Searching, Expanding, Descends, NearestFirst, Distinct, Pids;
    var byParent := GroupByParent(table);
    var seen, queue := {root}, [root];
    found := [];
    ghost var depth, k := map[root := 0], 0;
    SearchStarts(table, root);
    assert [root] + found == [root];

    while |queue| > 0
      invariant Searching(table, root, seen, queue, [root] + found, depth, k)
      decreases |Pids(table, root)| - k
    {
      TakeNext(table, root, seen, queue, [root] + found, depth, k);
      var current := queue[0];
      queue, k := queue[1..], k + 1;
      var children := Siblings(byParent, current);
      ChildrenAreRows(table, current);

      for m := 0 to |children|
        invariant Expanding(table, root, seen, queue, [root] + found, depth, k, current)
        invariant forall i :: 0 <= i < m ==> children[i] in seen
      {
        var child := children[m];
        if child !in seen {
          DiscoverOne(table, root, seen, queue, [root] + found, depth, k, current, child);
          assert [root] + found + [child] == [root] + (found + [child]);
          depth := depth[child := depth[current] + 1];
          seen := seen + {child};
          found := found + [child];
          queue := queue + [child];
        }
      }
      FinishExpanding(table, root, seen, queue, [root] + found, depth, k, current);
    }
    SearchIsExact(table, root, seen, found, depth, k);
  }

  lemma SubsetCount(a: set<int>, b: set<int>)
    requires a <= b
    ensures |a| <= |b|
  {
    assert b == a + (b - a);
  }
}
