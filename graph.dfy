/**
 * Path extraction, 4-cycle search and elementary-volume indexing on a
 * generatrice graph (old/graph.py).
 *
 * The graph is given as parallel sequences: `vertices[i]` is a vertex id
 * and `conns[i]` its adjacency list. `_find_path` rebinds adjacency lists
 * of its own copy as it walks, so the lists are values here and the
 * caller's graph can never change.
 */
module PathGraph {
  import opened Wrappers

  /** `vertices.index(x)`: the first position of `x`. */
  function IndexOf(vs: seq<int>, x: int): (i: nat)
    requires x in vs
    ensures i < |vs| && vs[i] == x && x !in vs[..i]
  {
    if vs[0] == x then 0
    else
      var j := IndexOf(vs[1..], x);
      assert vs[..1 + j] == [vs[0]] + vs[1..][..j];
      1 + j
  }

  /** The number of adjacency entries left: every step of a walk consumes one. */
  function TotalSize(conns: seq<seq<int>>): nat
  {
    if conns == [] then 0 else |conns[0]| + TotalSize(conns[1..])
  }

  lemma {:induction false} TotalSizeUpdate(conns: seq<seq<int>>, i: nat, l: seq<int>)
    requires i < |conns|
    ensures TotalSize(conns[i := l]) == TotalSize(conns) - |conns[i]| + |l|
  {
    if i > 0 {
      assert conns[i := l][1..] == conns[1..][i - 1 := l];
      TotalSizeUpdate(conns[1..], i - 1, l);
    }
  }

  /** `filter(lambda x: x != previous, l)`; the first step has no previous vertex and keeps everything. */
  function Forward(l: seq<int>, previous: Option<int>): (r: seq<int>)
    ensures |r| <= |l|
    ensures forall x :: x in r <==> x in l && previous != Some(x)
  {
    if l == [] then []
    else (if previous == Some(l[0]) then [] else [l[0]]) + Forward(l[1..], previous)
  }

  /** Every adjacency entry is a known vertex, and there is one list per vertex. */
  ghost predicate WellFormed(vertices: seq<int>, conns: seq<seq<int>>)
  {
    |conns| == |vertices| &&
    forall i :: 0 <= i < |conns| ==> forall x :: x in conns[i] ==> x in vertices
  }

  /** `conns` is what is left of `conns0`: each list keeps only entries it had. */
  ghost predicate Sub(conns: seq<seq<int>>, conns0: seq<seq<int>>)
  {
    |conns| == |conns0| &&
    forall i :: 0 <= i < |conns| ==> forall x :: x in conns[i] ==> x in conns0[i]
  }

  lemma SubTransitive(a: seq<seq<int>>, b: seq<seq<int>>, c: seq<seq<int>>)
    requires Sub(a, b) && Sub(b, c)
    ensures Sub(a, c)
  {
  }

  /** Rebinding one adjacency list to some of its own entries keeps the graph well formed. */
  lemma UpdateKeepsWellFormed(vertices: seq<int>, conns: seq<seq<int>>, idx: nat, l: seq<int>)
    requires WellFormed(vertices, conns) && idx < |conns|
    requires forall x :: x in l ==> x in conns[idx]
    ensures WellFormed(vertices, conns[idx := l]) && Sub(conns[idx := l], conns)
    ensures TotalSize(conns[idx := l]) == TotalSize(conns) - |conns[idx]| + |l|
  {
    TotalSizeUpdate(conns, idx, l);
  }

  /** The adjacency lists once the walk stops at `current`: its list keeps only its forward edges. */
  function Stopped(vertices: seq<int>, current: int, previous: Option<int>, conns: seq<seq<int>>): (r: seq<seq<int>>)
    requires WellFormed(vertices, conns) && current in vertices
    ensures WellFormed(vertices, r) && Sub(r, conns) && TotalSize(r) <= TotalSize(conns)
    ensures r[IndexOf(vertices, current)] == Forward(conns[IndexOf(vertices, current)], previous)
  {
    var idx := IndexOf(vertices, current);
    UpdateKeepsWellFormed(vertices, conns, idx, Forward(conns[idx], previous));
    conns[idx := Forward(conns[idx], previous)]
  }

  /**
   * One turn of the `while True` loop of `_find_path`: `None` when it
   * breaks at `current`, otherwise the next vertex and the adjacency lists
   * with that edge popped.
   */
  function Next(vertices: seq<int>, openStarts: seq<int>, start: int, current: int, previous: Option<int>,
                conns: seq<seq<int>>): (r: Option<(int, seq<seq<int>>)>)
    requires WellFormed(vertices, conns) && current in vertices
    ensures r.None? <==>
      |Forward(conns[IndexOf(vertices, current)], previous)| == 0 || (current in openStarts && current != start)
    ensures r.Some? ==>
      var (next, c) := r.value;
      next in vertices && next in conns[IndexOf(vertices, current)] && previous != Some(next) &&
      WellFormed(vertices, c) && Sub(c, conns) && TotalSize(c) < TotalSize(conns)
    ensures r.Some? ==>
      var idx := IndexOf(vertices, current);
      var fwd := Forward(conns[idx], previous);
      r.value.0 == fwd[|fwd| - 1] && r.value.1 == conns[idx := fwd[..|fwd| - 1]]
  {
    var idx := IndexOf(vertices, current);
    var fwd := Forward(conns[idx], previous);
    if |fwd| == 0 || (current in openStarts && current != start) then
      None
    else
      var rest := fwd[..|fwd| - 1];
      assert fwd[|fwd| - 1] in fwd;
      assert forall x :: x in rest ==> x in fwd;
      UpdateKeepsWellFormed(vertices, conns, idx, rest);
      Some((fwd[|fwd| - 1], conns[idx := rest]))
  }

  /**
   * The `while True` loop of `_find_path`, from vertex `current` reached
   * from `previous`, with `path` walked so far: the final path and the
   * adjacency lists it leaves behind.
   */
  function Walk(vertices: seq<int>, openStarts: seq<int>, start: int, current: int, previous: Option<int>,
                conns: seq<seq<int>>, path: seq<int>): (r: (seq<int>, seq<seq<int>>))
    requires WellFormed(vertices, conns) && current in vertices
    decreases TotalSize(conns)
  {
    match Next(vertices, openStarts, start, current, previous, conns)
    case None => (path + [current], Stopped(vertices, current, previous, conns))
    case Some((next, c)) => Walk(vertices, openStarts, start, next, Some(current), c, path + [current])
  }

  /** One turn of the loop that continues. */
  lemma WalkContinues(vertices: seq<int>, openStarts: seq<int>, start: int, current: int, previous: Option<int>,
                      conns: seq<seq<int>>, path: seq<int>, next: int, c: seq<seq<int>>)
    requires WellFormed(vertices, conns) && current in vertices
    requires Next(vertices, openStarts, start, current, previous, conns) == Some((next, c))
    ensures WellFormed(vertices, c) && next in vertices
    ensures Walk(vertices, openStarts, start, current, previous, conns, path) ==
            Walk(vertices, openStarts, start, next, Some(current), c, path + [current])
  {
  }

  /** The turn of the loop that breaks. */
  lemma WalkBreaks(vertices: seq<int>, openStarts: seq<int>, start: int, current: int, previous: Option<int>,
                   conns: seq<seq<int>>, path: seq<int>)
    requires WellFormed(vertices, conns) && current in vertices
    requires Next(vertices, openStarts, start, current, previous, conns) == None
    ensures Walk(vertices, openStarts, start, current, previous, conns, path) ==
            (path + [current], Stopped(vertices, current, previous, conns))
    ensures StopsAt(vertices, openStarts, start, current, Stopped(vertices, current, previous, conns))
  {
  }

  /** Passing through `current` keeps a walk clear of the other open starts when `current` is not one. */
  lemma AvoidsStep(openStarts: seq<int>, start: int, r: seq<int>, path: seq<int>, current: int)
    requires |r| > |path| + 1 && r[..|path| + 1] == path + [current]
    requires AvoidsOpenStarts(openStarts, start, r, |path| + 1)
    requires current in openStarts ==> current == start
    ensures AvoidsOpenStarts(openStarts, start, r, |path|)
  {
    assert r[|path|] == (path + [current])[|path|];
    forall k | |path| <= k < |r| - 1
      ensures r[k] in openStarts ==> r[k] == start
    {
      if k > |path| {
        assert |path| + 1 <= k;
      }
    }
  }

  /** A walk returns `path` extended by `current` and whatever vertices come after it. */
  lemma {:induction false} WalkPrefix(vertices: seq<int>, openStarts: seq<int>, start: int, current: int,
                                      previous: Option<int>, conns: seq<seq<int>>, path: seq<int>)
    requires WellFormed(vertices, conns) && current in vertices
    ensures var r := Walk(vertices, openStarts, start, current, previous, conns, path).0;
      |r| > |path| && r[..|path|] == path && r[|path|] == current
    decreases TotalSize(conns)
  {
    match Next(vertices, openStarts, start, current, previous, conns)
    case None =>
    case Some((next, c)) =>
      WalkPrefix(vertices, openStarts, start, next, Some(current), c, path + [current]);
      var r := Walk(vertices, openStarts, start, next, Some(current), c, path + [current]).0;
      assert Walk(vertices, openStarts, start, current, previous, conns, path).0 == r;
      var q := path + [current];
      assert r[..|q|] == q;
      assert r[..|path|] == q[..|path|] == path;
      assert r[|path|] == q[|path|] == current;
  }

  /**
   * A walk leaves well-formed lists that are what is left of the ones it
   * was given, and every vertex after `current` consumed one entry.
   */
  lemma {:induction false} WalkConsumes(vertices: seq<int>, openStarts: seq<int>, start: int, current: int,
                                        previous: Option<int>, conns: seq<seq<int>>, path: seq<int>)
    requires WellFormed(vertices, conns) && current in vertices
    ensures var r := Walk(vertices, openStarts, start, current, previous, conns, path);
      WellFormed(vertices, r.1) && Sub(r.1, conns) &&
      TotalSize(r.1) + |r.0| <= TotalSize(conns) + |path| + 1
    decreases TotalSize(conns)
  {
    match Next(vertices, openStarts, start, current, previous, conns)
    case None =>
    case Some((next, c)) =>
      WalkConsumes(vertices, openStarts, start, next, Some(current), c, path + [current]);
      var r := Walk(vertices, openStarts, start, next, Some(current), c, path + [current]);
      SubTransitive(r.1, c, conns);
  }

  /** From position `from` on, `p` passes through no open start other than `start`, except at its last vertex. */
  ghost predicate AvoidsOpenStarts(openStarts: seq<int>, start: int, p: seq<int>, from: nat)
  {
    forall k :: from <= k < |p| - 1 ==> (p[k] in openStarts ==> p[k] == start)
  }

  /** The walk may stop at `last` over `conns`: its list is used up, or it is an open start other than `start`. */
  ghost predicate StopsAt(vertices: seq<int>, openStarts: seq<int>, start: int, last: int, conns: seq<seq<int>>)
  {
    last in vertices && IndexOf(vertices, last) < |conns| &&
    (|conns[IndexOf(vertices, last)]| == 0 || (last in openStarts && last != start))
  }

  /**
   * A walk only continues through vertices that are not open starts (other
   * than `start`), and it stops at a vertex whose remaining forward list
   * is empty or that is such an open start.
   */
  lemma {:induction false} WalkStops(vertices: seq<int>, openStarts: seq<int>, start: int, current: int,
                                     previous: Option<int>, conns: seq<seq<int>>, path: seq<int>)
    requires WellFormed(vertices, conns) && current in vertices
    ensures var r := Walk(vertices, openStarts, start, current, previous, conns, path);
      |r.0| > |path| && AvoidsOpenStarts(openStarts, start, r.0, |path|) &&
      StopsAt(vertices, openStarts, start, r.0[|r.0| - 1], r.1)
    decreases TotalSize(conns)
  {
    var n := Next(vertices, openStarts, start, current, previous, conns);
    if n.None? {
      WalkBreaks(vertices, openStarts, start, current, previous, conns, path);
      var p := path + [current];
      assert p[|p| - 1] == current;
    } else {
      var (next, c) := n.value;
      WalkContinues(vertices, openStarts, start, current, previous, conns, path, next, c);
      WalkStops(vertices, openStarts, start, next, Some(current), c, path + [current]);
      WalkPrefix(vertices, openStarts, start, next, Some(current), c, path + [current]);
      var r := Walk(vertices, openStarts, start, next, Some(current), c, path + [current]);
      AvoidsStep(openStarts, start, r.0, path, current);
    }
  }

  /** `p` never goes from a vertex straight back to the one it came from. */
  ghost predicate NoImmediateReturn(p: seq<int>)
  {
    forall i, j :: 0 <= i && j == i + 2 && j < |p| ==> p[i] != p[j]
  }

  /**
   * Every step of a walk follows an adjacency entry of the lists it was
   * given, and never goes straight back to the vertex it came from.
   */
  lemma {:induction false} WalkSteps(vertices: seq<int>, openStarts: seq<int>, start: int, current: int,
                                     previous: Option<int>, conns: seq<seq<int>>, path: seq<int>)
    requires WellFormed(vertices, conns) && current in vertices
    ensures var r := Walk(vertices, openStarts, start, current, previous, conns, path).0;
      |r| > |path| &&
      (forall k :: |path| <= k < |r| - 1 ==> r[k] in vertices && r[k + 1] in conns[IndexOf(vertices, r[k])]) &&
      (|r| > |path| + 1 ==> previous != Some(r[|path| + 1])) &&
      NoImmediateReturn(r[|path|..])
    decreases TotalSize(conns)
  {
    WalkPrefix(vertices, openStarts, start, current, previous, conns, path);
    match Next(vertices, openStarts, start, current, previous, conns)
    case None =>
    case Some((next, c)) =>
      WalkSteps(vertices, openStarts, start, next, Some(current), c, path + [current]);
      WalkPrefix(vertices, openStarts, start, next, Some(current), c, path + [current]);
      var r := Walk(vertices, openStarts, start, next, Some(current), c, path + [current]).0;
      assert r[|path|] == current && r[|path| + 1] == next;
      forall k | |path| <= k < |r| - 1
        ensures r[k] in vertices && r[k + 1] in conns[IndexOf(vertices, r[k])]
      {
        if k > |path| {
          assert r[k + 1] in c[IndexOf(vertices, r[k])];
        }
      }
      var tail := r[|path|..];
      assert r[|path| + 1..] == tail[1..];
      forall i, j | 0 <= i && j == i + 2 && j < |tail|
        ensures tail[i] != tail[j]
      {
        if i > 0 {
          assert tail[1..][i - 1] == tail[i] && tail[1..][j - 1] == tail[j];
        }
      }
  }

  /** `_find_path` as a function: the walk from `start`, kept only if it is longer than one vertex and ends in an open start. */
  function FindPathSpec(vertices: seq<int>, openStarts: seq<int>, start: int, conns: seq<seq<int>>)
    : (r: (seq<int>, seq<seq<int>>))
    requires WellFormed(vertices, conns) && start in vertices
    ensures WellFormed(vertices, r.1) && Sub(r.1, conns) && TotalSize(r.1) <= TotalSize(conns)
    ensures r.0 != [] ==> TotalSize(r.1) < TotalSize(conns)
  {
    WalkPrefix(vertices, openStarts, start, start, None, conns, []);
    WalkConsumes(vertices, openStarts, start, start, None, conns, []);
    var w := Walk(vertices, openStarts, start, start, None, conns, []);
    (if |w.0| > 1 && w.0[|w.0| - 1] in openStarts then w.0 else [], w.1)
  }

  /** A path `_find_path` can return over the graph `conns`. */
  ghost predicate IsFoundPath(vertices: seq<int>, openStarts: seq<int>, start: int, conns: seq<seq<int>>, p: seq<int>)
  {
    |p| > 1 && p[0] == start && p[|p| - 1] in openStarts &&
    (forall k :: 0 < k < |p| - 1 ==> (p[k] in openStarts ==> p[k] == start)) &&
    (forall k :: 0 <= k < |p| - 1 ==>
      p[k] in vertices && IndexOf(vertices, p[k]) < |conns| && p[k + 1] in conns[IndexOf(vertices, p[k])]) &&
    NoImmediateReturn(p)
  }

  /**
   * A non-empty result of `_find_path` starts at the start point, has more
   * than one vertex, ends in an open start, passes through no other open
   * start, and follows edges of the graph without turning straight back.
   */
  lemma FindPathShape(vertices: seq<int>, openStarts: seq<int>, start: int, conns: seq<seq<int>>)
    requires WellFormed(vertices, conns) && start in vertices
    ensures var p := FindPathSpec(vertices, openStarts, start, conns).0;
      p != [] ==> IsFoundPath(vertices, openStarts, start, conns, p)
  {
    WalkPrefix(vertices, openStarts, start, start, None, conns, []);
    WalkStops(vertices, openStarts, start, start, None, conns, []);
    WalkSteps(vertices, openStarts, start, start, None, conns, []);
    var r := Walk(vertices, openStarts, start, start, None, conns, []).0;
    assert r[0..] == r;
    if |r| > 1 && r[|r| - 1] in openStarts {
      WalkIsFoundPath(vertices, openStarts, start, conns, r);
    }
  }

  /** A walk from `start` that is longer than one vertex and ends in an open start is a found path. */
  lemma WalkIsFoundPath(vertices: seq<int>, openStarts: seq<int>, start: int, conns: seq<seq<int>>, r: seq<int>)
    requires |conns| == |vertices| && |r| > 1 && r[0] == start && r[|r| - 1] in openStarts
    requires AvoidsOpenStarts(openStarts, start, r, 0)
    requires forall k :: 0 <= k < |r| - 1 ==> r[k] in vertices && r[k + 1] in conns[IndexOf(vertices, r[k])]
    requires NoImmediateReturn(r)
    ensures IsFoundPath(vertices, openStarts, start, conns, r)
  {
  }

  /** The source's `_find_path`: the walking loop with its break conditions. */
  method FindPath(start: int, vertices: seq<int>, openStarts: seq<int>, connections: seq<seq<int>>)
    returns (path: seq<int>, conns: seq<seq<int>>)
    requires WellFormed(vertices, connections) && start in vertices
    ensures (path, conns) == FindPathSpec(vertices, openStarts, start, connections)
  {
    path := [];
    conns := connections;
    var current := start;
    var previous: Option<int> := None;
    while true
      invariant WellFormed(vertices, conns) && current in vertices
      invariant Walk(vertices, openStarts, start, current, previous, conns, path) ==
                Walk(vertices, openStarts, start, start, None, connections, [])
      decreases TotalSize(conns)
    {
      ghost var head := conns;
      var idx := IndexOf(vertices, current);
      var forwardEdges := Forward(conns[idx], previous);
      previous := Some(current);
      path := path + [current];
      conns := conns[idx := forwardEdges];
      if |forwardEdges| == 0 || (current in openStarts && current != start) {
        break;
      }
      assert forwardEdges[|forwardEdges| - 1] in forwardEdges;
      current := forwardEdges[|forwardEdges| - 1];
      forwardEdges := forwardEdges[..|forwardEdges| - 1];
      assert forall x :: x in forwardEdges ==> x in conns[idx];
      conns := conns[idx := forwardEdges];
      assert conns == head[idx := forwardEdges];
      TotalSizeUpdate(head, idx, forwardEdges);
    }
    if !(|path| > 1 && path[|path| - 1] in openStarts) {
      path := [];
    }
  }

  /** Every open start is a vertex, so `extract_paths` can start a walk from each. */
  ghost predicate StartsKnown(vertices: seq<int>, openStarts: seq<int>)
  {
    forall s :: s in openStarts ==> s in vertices
  }

  /** The inner `while True` of `extract_paths`: keep calling `_find_path` from `f` until it returns `[]`. */
  function Drain(vertices: seq<int>, openStarts: seq<int>, f: int, conns: seq<seq<int>>): (r: (seq<seq<int>>, seq<seq<int>>))
    requires WellFormed(vertices, conns) && f in vertices
    ensures WellFormed(vertices, r.1) && Sub(r.1, conns)
    decreases TotalSize(conns)
  {
    var found := FindPathSpec(vertices, openStarts, f, conns);
    if found.0 == [] then ([], found.1)
    else
      var rest := Drain(vertices, openStarts, f, found.1);
      SubTransitive(rest.1, found.1, conns);
      ([found.0] + rest.0, rest.1)
  }

  /** `extract_paths` over the first `k` open starts: the paths found and the lists left over. */
  function Extract(vertices: seq<int>, openStarts: seq<int>, k: nat, conns: seq<seq<int>>): (r: (seq<seq<int>>, seq<seq<int>>))
    requires WellFormed(vertices, conns) && StartsKnown(vertices, openStarts) && k <= |openStarts|
    ensures WellFormed(vertices, r.1) && Sub(r.1, conns)
  {
    if k == 0 then ([], conns)
    else
      var before := Extract(vertices, openStarts, k - 1, conns);
      var drained := Drain(vertices, openStarts, openStarts[k - 1], before.1);
      SubTransitive(drained.1, before.1, conns);
      (before.0 + drained.0, drained.1)
  }

  /** `extract_paths`: every path found from every open start, in the order found. */
  function ExtractPathsSpec(vertices: seq<int>, openStarts: seq<int>, conns: seq<seq<int>>): seq<seq<int>>
    requires WellFormed(vertices, conns) && StartsKnown(vertices, openStarts)
  {
    Extract(vertices, openStarts, |openStarts|, conns).0
  }

  /** Every path `Drain` returns is a path `_find_path` can return from `f` over the lists it was given. */
  lemma {:induction false} DrainPaths(vertices: seq<int>, openStarts: seq<int>, f: int, conns: seq<seq<int>>)
    requires WellFormed(vertices, conns) && f in vertices
    ensures forall p :: p in Drain(vertices, openStarts, f, conns).0 ==> IsFoundPath(vertices, openStarts, f, conns, p)
    decreases TotalSize(conns)
  {
    var (p, c) := FindPathSpec(vertices, openStarts, f, conns);
    FindPathShape(vertices, openStarts, f, conns);
    if p != [] {
      DrainPaths(vertices, openStarts, f, c);
      forall q | q in Drain(vertices, openStarts, f, c).0
        ensures IsFoundPath(vertices, openStarts, f, conns, q)
      {
        FoundPathWeakens(vertices, openStarts, f, c, conns, q);
      }
    }
  }

  /** A path over what is left of a graph is a path over the graph. */
  lemma FoundPathWeakens(vertices: seq<int>, openStarts: seq<int>, f: int, c: seq<seq<int>>, conns: seq<seq<int>>, p: seq<int>)
    requires Sub(c, conns) && IsFoundPath(vertices, openStarts, f, c, p)
    ensures IsFoundPath(vertices, openStarts, f, conns, p)
  {
    forall k | 0 <= k < |p| - 1
      ensures p[k] in vertices && IndexOf(vertices, p[k]) < |conns| && p[k + 1] in conns[IndexOf(vertices, p[k])]
    {
      var i := IndexOf(vertices, p[k]);
      assert i < |c| && p[k + 1] in c[i];
    }
  }

  /** `p` is a path `_find_path` can return from one of the first `k` open starts over `conns`. */
  ghost predicate FoundFromStarts(vertices: seq<int>, openStarts: seq<int>, k: nat, conns: seq<seq<int>>, p: seq<int>)
    requires k <= |openStarts|
  {
    exists i :: 0 <= i < k && IsFoundPath(vertices, openStarts, openStarts[i], conns, p)
  }

  /**
   * Every path `extract_paths` returns starts at an open start, ends at an
   * open start, has at least two vertices and follows edges of the graph
   * it was given.
   */
  lemma {:induction false} ExtractPathsAreFound(vertices: seq<int>, openStarts: seq<int>, k: nat, conns: seq<seq<int>>)
    requires WellFormed(vertices, conns) && StartsKnown(vertices, openStarts) && k <= |openStarts|
    ensures forall p :: p in Extract(vertices, openStarts, k, conns).0 ==> FoundFromStarts(vertices, openStarts, k, conns, p)
  {
    if k > 0 {
      ExtractPathsAreFound(vertices, openStarts, k - 1, conns);
      var (ps, c) := Extract(vertices, openStarts, k - 1, conns);
      DrainPaths(vertices, openStarts, openStarts[k - 1], c);
      forall p | p in Extract(vertices, openStarts, k, conns).0
        ensures FoundFromStarts(vertices, openStarts, k, conns, p)
      {
        if p in ps {
          FoundFromMore(vertices, openStarts, k, conns, p);
        } else {
          FoundPathWeakens(vertices, openStarts, openStarts[k - 1], c, conns, p);
        }
      }
    }
  }

  /** A path found from one of the first `k - 1` open starts is found from one of the first `k`. */
  lemma FoundFromMore(vertices: seq<int>, openStarts: seq<int>, k: nat, conns: seq<seq<int>>, p: seq<int>)
    requires 0 < k <= |openStarts| && FoundFromStarts(vertices, openStarts, k - 1, conns, p)
    ensures FoundFromStarts(vertices, openStarts, k, conns, p)
  {
  }

  /** One call of `_find_path` inside `Drain`: a path found is followed by the rest of the drain, an empty one ends it. */
  lemma DrainUnfold(vertices: seq<int>, openStarts: seq<int>, f: int, conns: seq<seq<int>>)
    requires WellFormed(vertices, conns) && f in vertices
    ensures var (p, c) := FindPathSpec(vertices, openStarts, f, conns);
      if p == [] then Drain(vertices, openStarts, f, conns) == ([], c)
      else Drain(vertices, openStarts, f, conns) == ([p] + Drain(vertices, openStarts, f, c).0, Drain(vertices, openStarts, f, c).1)
  {
  }

  /**
   * The inner `while True` of `extract_paths`: call `_find_path` from `f`
   * until it returns `[]`, collecting the paths and threading the lists.
   */
  method DrainFrom(f: int, vertices: seq<int>, openStarts: seq<int>, connections: seq<seq<int>>)
    returns (found: seq<seq<int>>, conn: seq<seq<int>>)
    requires WellFormed(vertices, connections) && f in vertices
    ensures (found, conn) == Drain(vertices, openStarts, f, connections)
  {
    found := [];
    conn := connections;
    ghost var target := Drain(vertices, openStarts, f, connections);
    while true
      invariant WellFormed(vertices, conn)
      invariant DrainsTo(vertices, openStarts, f, found, conn, target)
      decreases TotalSize(conn)
    {
      DrainUnfold(vertices, openStarts, f, conn);
      ghost var before := found;
      var p;
      p, conn := FindPath(f, vertices, openStarts, conn);
      if p != [] {
        found := found + [p];
        ghost var rest := Drain(vertices, openStarts, f, conn).0;
        assert before + ([p] + rest) == found + rest;
      } else {
        assert found + [] == found;
        break;
      }
    }
  }

  /** The paths `found` so far, followed by what draining `conn` still finds, are the whole drain `target`. */
  ghost predicate DrainsTo(vertices: seq<int>, openStarts: seq<int>, f: int, found: seq<seq<int>>, conn: seq<seq<int>>,
                           target: (seq<seq<int>>, seq<seq<int>>))
  {
    WellFormed(vertices, conn) && f in vertices &&
    found + Drain(vertices, openStarts, f, conn).0 == target.0 && Drain(vertices, openStarts, f, conn).1 == target.1
  }

  /**
   * The source's `extract_paths`: for each open start, call `_find_path`
   * until it returns `[]`, threading the adjacency lists through.
   */
  method ExtractPaths(vertices: seq<int>, openStarts: seq<int>, connections: seq<seq<int>>) returns (paths: seq<seq<int>>)
    requires WellFormed(vertices, connections) && StartsKnown(vertices, openStarts)
    ensures paths == ExtractPathsSpec(vertices, openStarts, connections)
  {
    paths := [];
    var conn := connections;
    for i := 0 to |openStarts|
      invariant WellFormed(vertices, conn)
      invariant (paths, conn) == Extract(vertices, openStarts, i, connections)
    {
      assert openStarts[i] in openStarts;
      var found;
      found, conn := DrainFrom(openStarts[i], vertices, openStarts, conn);
      paths := paths + found;
    }
  }

  /** The two-chain example `123* - 212 - 45*` and `1* - 2 - 3*`, one turn of the walking loop at a time. */
  lemma ChainStep1(v: seq<int>, o: seq<int>, c: seq<seq<int>>, c': seq<seq<int>>)
    requires v == [123, 212, 45, 1, 2, 3] && o == [123, 45, 1, 3]
    requires c == [[212], [123, 45], [212], [2], [1, 3], [2]] && c' == [[], [123, 45], [212], [2], [1, 3], [2]]
    ensures WellFormed(v, c) && WellFormed(v, c')
    ensures Next(v, o, 123, 123, None, c) == Some((212, c'))
  {
    assert IndexOf(v, 123) == 0;
    assert c[0] == [212] && Forward([212], None) == [212];
    assert c[0 := []] == c';
  }
  lemma ChainStep2(v: seq<int>, o: seq<int>, c: seq<seq<int>>, c': seq<seq<int>>)
    requires v == [123, 212, 45, 1, 2, 3] && o == [123, 45, 1, 3]
    requires c == [[], [123, 45], [212], [2], [1, 3], [2]] && c' == [[], [], [212], [2], [1, 3], [2]]
    ensures WellFormed(v, c) && WellFormed(v, c')
    ensures Next(v, o, 123, 212, Some(123), c) == Some((45, c'))
  {
    assert v[0] != 212 && v[1..][0] == 212;
    assert IndexOf(v, 212) == 1;
    assert 212 !in o;
    assert c[1] == [123, 45] && Forward([123, 45], Some(123)) == [45];
    assert c[1 := []] == c';
  }
  lemma ChainStep3(v: seq<int>, o: seq<int>, c: seq<seq<int>>, c': seq<seq<int>>)
    requires v == [123, 212, 45, 1, 2, 3] && o == [123, 45, 1, 3]
    requires c == [[], [], [212], [2], [1, 3], [2]] && c' == [[], [], [], [2], [1, 3], [2]]
    ensures WellFormed(v, c) && WellFormed(v, c')
    ensures Next(v, o, 123, 45, Some(212), c) == None && Stopped(v, 45, Some(212), c) == c'
  {
    assert IndexOf(v, 45) == 2;
    assert c[2] == [212] && Forward([212], Some(212)) == [];
    assert c[2 := []] == c';
  }
  lemma ChainStep4(v: seq<int>, o: seq<int>, c: seq<seq<int>>, c': seq<seq<int>>)
    requires v == [123, 212, 45, 1, 2, 3] && o == [123, 45, 1, 3]
    requires c == [[], [], [], [2], [1, 3], [2]] && c' == [[], [], [], [], [1, 3], [2]]
    ensures WellFormed(v, c) && WellFormed(v, c')
    ensures Next(v, o, 1, 1, None, c) == Some((2, c'))
  {
    assert IndexOf(v, 1) == 3;
    assert c[3] == [2] && Forward([2], None) == [2];
    assert c[3 := []] == c';
  }
  lemma ChainStep5(v: seq<int>, o: seq<int>, c: seq<seq<int>>, c': seq<seq<int>>)
    requires v == [123, 212, 45, 1, 2, 3] && o == [123, 45, 1, 3]
    requires c == [[], [], [], [], [1, 3], [2]] && c' == [[], [], [], [], [], [2]]
    ensures WellFormed(v, c) && WellFormed(v, c')
    ensures Next(v, o, 1, 2, Some(1), c) == Some((3, c'))
  {
    assert IndexOf(v, 2) == 4;
    assert c[4] == [1, 3] && Forward([1, 3], Some(1)) == [3];
    assert c[4 := []] == c';
  }
  lemma ChainStep6(v: seq<int>, o: seq<int>, c: seq<seq<int>>, c': seq<seq<int>>)
    requires v == [123, 212, 45, 1, 2, 3] && o == [123, 45, 1, 3]
    requires c == [[], [], [], [], [], [2]] && c' == [[], [], [], [], [], []]
    ensures WellFormed(v, c) && WellFormed(v, c')
    ensures Next(v, o, 1, 3, Some(2), c) == None && Stopped(v, 3, Some(2), c) == c'
  {
    assert IndexOf(v, 3) == 5;
    assert c[5] == [2] && Forward([2], Some(2)) == [];
    assert c[5 := []] == c';
  }
  lemma FirstChainWalk(v: seq<int>, o: seq<int>, c0: seq<seq<int>>, c3: seq<seq<int>>)
    requires v == [123, 212, 45, 1, 2, 3] && o == [123, 45, 1, 3]
    requires c0 == [[212], [123, 45], [212], [2], [1, 3], [2]] && c3 == [[], [], [], [2], [1, 3], [2]]
    ensures WellFormed(v, c0) && WellFormed(v, c3)
    ensures FindPathSpec(v, o, 123, c0) == ([123, 212, 45], c3)
  {
    assert [] + [123] == [123] && [123] + [212] == [123, 212] && [123, 212] + [45] == [123, 212, 45];
    var c1: seq<seq<int>> :| c1 == [[], [123, 45], [212], [2], [1, 3], [2]];
    var c2: seq<seq<int>> :| c2 == [[], [], [212], [2], [1, 3], [2]];
    ChainStep1(v, o, c0, c1);
    ChainStep2(v, o, c1, c2);
    ChainStep3(v, o, c2, c3);
    assert 123 in v;
    WalkContinues(v, o, 123, 123, None, c0, [], 212, c1);
    WalkContinues(v, o, 123, 212, Some(123), c1, [123], 45, c2);
    WalkBreaks(v, o, 123, 45, Some(212), c2, [123, 212]);
    var w := Walk(v, o, 123, 123, None, c0, []);
    assert w == ([123, 212, 45], c3);
    assert w.0[|w.0| - 1] in o;
  }

  lemma SecondChainWalk(v: seq<int>, o: seq<int>, c3: seq<seq<int>>, c6: seq<seq<int>>)
    requires v == [123, 212, 45, 1, 2, 3] && o == [123, 45, 1, 3]
    requires c3 == [[], [], [], [2], [1, 3], [2]] && c6 == [[], [], [], [], [], []]
    ensures WellFormed(v, c3) && WellFormed(v, c6)
    ensures FindPathSpec(v, o, 1, c3) == ([1, 2, 3], c6)
  {
    assert [] + [1] == [1] && [1] + [2] == [1, 2] && [1, 2] + [3] == [1, 2, 3];
    var c4: seq<seq<int>> :| c4 == [[], [], [], [], [1, 3], [2]];
    var c5: seq<seq<int>> :| c5 == [[], [], [], [], [], [2]];
    ChainStep4(v, o, c3, c4);
    ChainStep5(v, o, c4, c5);
    ChainStep6(v, o, c5, c6);
    assert 1 in v;
    WalkContinues(v, o, 1, 1, None, c3, [], 2, c4);
    WalkContinues(v, o, 1, 2, Some(1), c4, [1], 3, c5);
    WalkBreaks(v, o, 1, 3, Some(2), c5, [1, 2]);
    var w := Walk(v, o, 1, 1, None, c3, []);
    assert w == ([1, 2, 3], c6);
    assert w.0[|w.0| - 1] in o;
  }

  /** A walk from a vertex with an empty list finds nothing and changes nothing. */
  lemma DeadEnd(vertices: seq<int>, openStarts: seq<int>, f: int, conns: seq<seq<int>>)
    requires WellFormed(vertices, conns) && f in vertices && conns[IndexOf(vertices, f)] == []
    ensures Drain(vertices, openStarts, f, conns) == ([], conns)
  {
    assert Forward([], None) == [];
    assert conns[IndexOf(vertices, f) := []] == conns;
  }

  lemma DrainFirstChain(v: seq<int>, o: seq<int>, c0: seq<seq<int>>, c3: seq<seq<int>>)
    requires v == [123, 212, 45, 1, 2, 3] && o == [123, 45, 1, 3] && c0 == [[212], [123, 45], [212], [2], [1, 3], [2]] && c3 == [[], [], [], [2], [1, 3], [2]]
    ensures WellFormed(v, c0) && WellFormed(v, c3)
    ensures Drain(v, o, 123, c0) == ([[123, 212, 45]], c3)
    ensures Drain(v, o, 45, c3) == ([], c3)
  {
    assert [[123, 212, 45]] + [] == [[123, 212, 45]];
    FirstChainWalk(v, o, c0, c3);
    assert IndexOf(v, 123) == 0 && IndexOf(v, 45) == 2;
    DeadEnd(v, o, 123, c3);
    DeadEnd(v, o, 45, c3);
  }

  lemma DrainSecondChain(v: seq<int>, o: seq<int>, c3: seq<seq<int>>, c6: seq<seq<int>>)
    requires v == [123, 212, 45, 1, 2, 3] && o == [123, 45, 1, 3] && c3 == [[], [], [], [2], [1, 3], [2]] && c6 == [[], [], [], [], [], []]
    ensures WellFormed(v, c3) && WellFormed(v, c6)
    ensures Drain(v, o, 1, c3) == ([[1, 2, 3]], c6)
    ensures Drain(v, o, 3, c6) == ([], c6)
  {
    assert [[1, 2, 3]] + [] == [[1, 2, 3]];
    SecondChainWalk(v, o, c3, c6);
    assert IndexOf(v, 1) == 3 && IndexOf(v, 3) == 5;
    DeadEnd(v, o, 1, c6);
    DeadEnd(v, o, 3, c6);
  }

  lemma ChainStarts12(v: seq<int>, o: seq<int>, c0: seq<seq<int>>, c3: seq<seq<int>>)
    requires v == [123, 212, 45, 1, 2, 3] && o == [123, 45, 1, 3] && c0 == [[212], [123, 45], [212], [2], [1, 3], [2]] && c3 == [[], [], [], [2], [1, 3], [2]]
    ensures WellFormed(v, c0) && StartsKnown(v, o)
    ensures Extract(v, o, 2, c0) == ([[123, 212, 45]], c3)
  {
    assert [] + [[123, 212, 45]] == [[123, 212, 45]] && [[123, 212, 45]] + [] == [[123, 212, 45]];
    DrainFirstChain(v, o, c0, c3);
    assert o[0] == 123 && o[1] == 45;
    ExtractStep(v, o, 1, c0, [], c0, [[123, 212, 45]], c3);
    ExtractStep(v, o, 2, c0, [[123, 212, 45]], c3, [], c3);
  }

  lemma ThirdStart(v: seq<int>, o: seq<int>, c0: seq<seq<int>>, c3: seq<seq<int>>, c6: seq<seq<int>>)
    requires WellFormed(v, c0) && StartsKnown(v, o) && |o| >= 3 && o[2] == 1 && 1 in v
    requires Extract(v, o, 2, c0) == ([[123, 212, 45]], c3)
    requires Drain(v, o, 1, c3) == ([[1, 2, 3]], c6)
    ensures Extract(v, o, 3, c0) == ([[123, 212, 45], [1, 2, 3]], c6)
  {
    assert [[123, 212, 45]] + [[1, 2, 3]] == [[123, 212, 45], [1, 2, 3]];
    ExtractStep(v, o, 3, c0, [[123, 212, 45]], c3, [[1, 2, 3]], c6);
  }

  lemma TwoChains(v: seq<int>, o: seq<int>, c0: seq<seq<int>>)
    requires v == [123, 212, 45, 1, 2, 3] && o == [123, 45, 1, 3] && c0 == [[212], [123, 45], [212], [2], [1, 3], [2]]
    ensures WellFormed(v, c0) && StartsKnown(v, o)
    ensures ExtractPathsSpec(v, o, c0) == [[123, 212, 45], [1, 2, 3]]
  {
    var c3: seq<seq<int>> :| c3 == [[], [], [], [2], [1, 3], [2]];
    var c6: seq<seq<int>> :| c6 == [[], [], [], [], [], []];
    ChainStarts12(v, o, c0, c3);
    DrainSecondChain(v, o, c3, c6);
    ThirdStart(v, o, c0, c3, c6);
    FourthStart(v, o, c0, c6);
  }

  lemma FourthStart(v: seq<int>, o: seq<int>, c0: seq<seq<int>>, c6: seq<seq<int>>)
    requires WellFormed(v, c0) && StartsKnown(v, o) && |o| == 4 && o[3] == 3 && 3 in v
    requires Extract(v, o, 3, c0) == ([[123, 212, 45], [1, 2, 3]], c6)
    requires Drain(v, o, 3, c6) == ([], c6)
    ensures ExtractPathsSpec(v, o, c0) == [[123, 212, 45], [1, 2, 3]]
  {
    assert [[123, 212, 45], [1, 2, 3]] + [] == [[123, 212, 45], [1, 2, 3]];
    ExtractStep(v, o, 4, c0, [[123, 212, 45], [1, 2, 3]], c6, [], c6);
  }

  /** One turn of the `for` loop of `extract_paths`. */
  lemma ExtractStep(vertices: seq<int>, openStarts: seq<int>, k: nat, conns: seq<seq<int>>,
                    ps: seq<seq<int>>, c: seq<seq<int>>, qs: seq<seq<int>>, c': seq<seq<int>>)
    requires WellFormed(vertices, conns) && StartsKnown(vertices, openStarts) && 0 < k <= |openStarts|
    requires Extract(vertices, openStarts, k - 1, conns) == (ps, c)
    requires openStarts[k - 1] in vertices && Drain(vertices, openStarts, openStarts[k - 1], c) == (qs, c')
    ensures Extract(vertices, openStarts, k, conns) == (ps + qs, c')
  {
  }

  /** No vertex id occurs twice, as the hypothesis strategy of the chain test draws them. */
  ghost predicate Distinct(v: seq<int>)
  {
    forall i, j :: 0 <= i < j < |v| ==> v[i] != v[j]
  }

  /** `build_seq_connections`: each vertex of the chain is joined to the one before it and the one after it. */
  function ChainConns(v: seq<int>): (c: seq<seq<int>>)
    requires |v| >= 2
    ensures WellFormed(v, c)
  {
    seq(|v|, j requires 0 <= j < |v| =>
      if j == 0 then [v[1]] else if j == |v| - 1 then [v[j - 1]] else [v[j - 1], v[j + 1]])
  }

  /** The chain's lists once the walk has left the first `i` vertices: theirs are used up. */
  function ChainUsed(v: seq<int>, i: nat): (c: seq<seq<int>>)
    requires |v| >= 2
    ensures WellFormed(v, c)
  {
    var full := ChainConns(v);
    var c := seq(|v|, j requires 0 <= j < |v| => if j < i then [] else full[j]);
    assert forall j :: 0 <= j < |v| ==> c[j] == [] || c[j] == full[j];
    c
  }

  lemma IndexOfDistinct(v: seq<int>, i: nat)
    requires Distinct(v) && i < |v|
    ensures IndexOf(v, v[i]) == i
  {
  }

  /** Inside the chain the walk goes on to the next vertex and uses up the list it leaves. */
  lemma ChainNextInner(v: seq<int>, i: nat)
    requires |v| >= 2 && Distinct(v) && 1 <= i < |v| - 1
    ensures Next(v, [v[0], v[|v| - 1]], v[0], v[i], Some(v[i - 1]), ChainUsed(v, i)) == Some((v[i + 1], ChainUsed(v, i + 1)))
  {
    var c := ChainUsed(v, i);
    IndexOfDistinct(v, i);
    assert c[i] == ChainConns(v)[i] == [v[i - 1], v[i + 1]];
    assert v[i - 1] != v[i + 1];
    assert Forward(c[i], Some(v[i - 1])) == [v[i + 1]];
    assert v[i] != v[0] && v[i] != v[|v| - 1];
    assert c[i := []] == ChainUsed(v, i + 1);
  }

  /** At the last vertex of the chain the walk breaks, and every list is used up. */
  lemma ChainNextLast(v: seq<int>)
    requires |v| >= 2 && Distinct(v)
    ensures Next(v, [v[0], v[|v| - 1]], v[0], v[|v| - 1], Some(v[|v| - 2]), ChainUsed(v, |v| - 1)) == None
    ensures Stopped(v, v[|v| - 1], Some(v[|v| - 2]), ChainUsed(v, |v| - 1)) == ChainUsed(v, |v|)
  {
    var i := |v| - 1;
    var c := ChainUsed(v, i);
    IndexOfDistinct(v, i);
    assert c[i] == ChainConns(v)[i] == [v[i - 1]];
    assert Forward(c[i], Some(v[i - 1])) == [];
    assert c[i := []] == ChainUsed(v, |v|);
  }

  /** From the `i`-th vertex of the chain, the walk runs on to the last one and uses every list up. */
  lemma {:induction false} ChainWalkFrom(v: seq<int>, i: nat)
    requires |v| >= 2 && Distinct(v) && 1 <= i <= |v| - 1
    ensures Walk(v, [v[0], v[|v| - 1]], v[0], v[i], Some(v[i - 1]), ChainUsed(v, i), v[..i]) ==
            (v, ChainUsed(v, |v|))
    decreases |v| - i
  {
    var o := [v[0], v[|v| - 1]];
    if i == |v| - 1 {
      ChainNextLast(v);
      WalkBreaks(v, o, v[0], v[i], Some(v[i - 1]), ChainUsed(v, i), v[..i]);
      assert v[..i] + [v[i]] == v;
    } else {
      ChainNextInner(v, i);
      WalkContinues(v, o, v[0], v[i], Some(v[i - 1]), ChainUsed(v, i), v[..i], v[i + 1], ChainUsed(v, i + 1));
      assert v[..i] + [v[i]] == v[..i + 1];
      ChainWalkFrom(v, i + 1);
    }
  }

  /** `_find_path` from the first vertex of the chain returns the whole chain and uses every list up. */
  lemma ChainFindPath(v: seq<int>)
    requires |v| >= 2 && Distinct(v)
    ensures FindPathSpec(v, [v[0], v[|v| - 1]], v[0], ChainConns(v)) == (v, ChainUsed(v, |v|))
  {
    var o := [v[0], v[|v| - 1]];
    var c := ChainConns(v);
    IndexOfDistinct(v, 0);
    assert c[0] == [v[1]];
    assert Forward(c[0], None) == [v[1]];
    assert c[0 := []] == ChainUsed(v, 1);
    assert Next(v, o, v[0], v[0], None, c) == Some((v[1], ChainUsed(v, 1)));
    assert [] + [v[0]] == v[..1];
    ChainWalkFrom(v, 1);
  }

  /**
   * The chain property of `extract_paths`: over the chain of any distinct
   * vertices, with its two ends as the open starts, it returns exactly one
   * path, the whole chain.
   */
  lemma ChainExtractPaths(v: seq<int>)
    requires |v| >= 2 && Distinct(v)
    ensures StartsKnown(v, [v[0], v[|v| - 1]])
    ensures ExtractPathsSpec(v, [v[0], v[|v| - 1]], ChainConns(v)) == [v]
  {
    var o := [v[0], v[|v| - 1]];
    var c := ChainConns(v);
    var e := ChainUsed(v, |v|);
    ChainFindPath(v);
    IndexOfDistinct(v, 0);
    IndexOfDistinct(v, |v| - 1);
    DeadEnd(v, o, v[0], e);
    assert [v] + [] == [v];
    assert Drain(v, o, v[0], c) == ([v], e);
    ExtractStep(v, o, 1, c, [], c, [v], e);
    DeadEnd(v, o, v[|v| - 1], e);
    assert [] + [v] == [v];
    ExtractStep(v, o, 2, c, [v], e, [], e);
  }

  /**
   * `reachables` of `find_4_cycles`: the vertices joined to `x` by some
   * edge, in either direction, built edge by edge.
   */
  function ReachOf(edges: seq<(int, int)>, x: int): set<int>
  {
    if edges == [] then {}
    else
      var e := edges[|edges| - 1];
      ReachOf(edges[..|edges| - 1], x) + (if e.0 == x then {e.1} else {}) + (if e.1 == x then {e.0} else {})
  }

  /** The vertices that appear in some edge: the keys `reachables` ends up with. */
  function Endpoints(edges: seq<(int, int)>): set<int>
  {
    if edges == [] then {} else Endpoints(edges[..|edges| - 1]) + {edges[|edges| - 1].0, edges[|edges| - 1].1}
  }

  /** `y` is reachable from `x` exactly when some edge joins them, in either direction. */
  lemma {:induction false} ReachOfMeaning(edges: seq<(int, int)>, x: int, y: int)
    ensures y in ReachOf(edges, x) <==> exists i :: 0 <= i < |edges| && (edges[i] == (x, y) || edges[i] == (y, x))
  {
    if edges != [] {
      var init := edges[..|edges| - 1];
      ReachOfMeaning(init, x, y);
      assert forall i :: 0 <= i < |init| ==> init[i] == edges[i];
      if y in ReachOf(init, x) {
        var i :| 0 <= i < |init| && (init[i] == (x, y) || init[i] == (y, x));
        assert edges[i] == init[i];
      }
    }
  }

  /** The endpoints are exactly the vertices of the edges. */
  lemma {:induction false} EndpointsMeaning(edges: seq<(int, int)>, x: int)
    ensures x in Endpoints(edges) <==> exists i :: 0 <= i < |edges| && (edges[i].0 == x || edges[i].1 == x)
  {
    if edges != [] {
      var init := edges[..|edges| - 1];
      EndpointsMeaning(init, x);
      assert forall i :: 0 <= i < |init| ==> init[i] == edges[i];
      if x in Endpoints(init) {
        var i :| 0 <= i < |init| && (init[i].0 == x || init[i].1 == x);
        assert edges[i] == init[i];
      }
    }
  }

  lemma ReachSnoc(edges: seq<(int, int)>, e: (int, int))
    ensures forall x ::
      ReachOf(edges + [e], x) == ReachOf(edges, x) + (if e.0 == x then {e.1} else {}) + (if e.1 == x then {e.0} else {})
    ensures Endpoints(edges + [e]) == Endpoints(edges) + {e.0, e.1}
  {
    assert (edges + [e])[..|edges|] == edges;
  }

  /** A neighbour is itself an endpoint. */
  lemma ReachIsEndpoint(edges: seq<(int, int)>, x: int, y: int)
    requires y in ReachOf(edges, x)
    ensures y in Endpoints(edges) && x in Endpoints(edges)
  {
    ReachOfMeaning(edges, x, y);
    var i :| 0 <= i < |edges| && (edges[i] == (x, y) || edges[i] == (y, x));
    EndpointsMeaning(edges, x);
    EndpointsMeaning(edges, y);
  }

  lemma NoEndpointNoReach(edges: seq<(int, int)>, x: int)
    requires x !in Endpoints(edges)
    ensures ReachOf(edges, x) == {}
  {
    forall y | y in ReachOf(edges, x)
      ensures false
    {
      ReachIsEndpoint(edges, x, y);
    }
  }

  /** The map `reachables` holds exactly the adjacency of the edges. */
  ghost predicate IsReachables(edges: seq<(int, int)>, reach: map<int, set<int>>)
  {
    reach.Keys == Endpoints(edges) && forall x :: x in reach ==> reach[x] == ReachOf(edges, x)
  }

  /** One turn of the first loop of `find_4_cycles`: record edge `e` in both directions. */
  method AddEdge(ghost edges: seq<(int, int)>, reach: map<int, set<int>>, e: (int, int)) returns (reach': map<int, set<int>>)
    requires IsReachables(edges, reach)
    ensures IsReachables(edges + [e], reach')
  {
    ReachSnoc(edges, e);
    if e.0 !in reach {
      NoEndpointNoReach(edges, e.0);
    }
    if e.1 !in reach {
      NoEndpointNoReach(edges, e.1);
    }
    var s0 := if e.0 in reach then reach[e.0] else {};
    reach' := reach[e.0 := s0 + {e.1}];
    var s1 := if e.1 in reach' then reach'[e.1] else {};
    reach' := reach'[e.1 := s1 + {e.0}];
    forall x | x in reach'
      ensures reach'[x] == ReachOf(edges + [e], x)
    {
      if x != e.0 && x != e.1 {
        assert reach'[x] == reach[x];
      }
    }
  }

  /** The first loop of `find_4_cycles`: add each edge in both directions. */
  method BuildReachables(edges: seq<(int, int)>) returns (reach: map<int, set<int>>)
    ensures IsReachables(edges, reach)
  {
    reach := map[];
    for i := 0 to |edges|
      invariant IsReachables(edges[..i], reach)
    {
      assert edges[..i + 1] == edges[..i] + [edges[i]];
      reach := AddEdge(edges[..i], reach, edges[i]);
    }
    assert edges[..|edges|] == edges;
  }

  /**
   * `[a, b, d, c]` is a cycle `find_4_cycles` looks for: b and c are two
   * different neighbours of a, and d, other than a, is a neighbour of both.
   */
  ghost predicate IsFourCycle(edges: seq<(int, int)>, a: int, b: int, d: int, c: int)
  {
    b != c && b in ReachOf(edges, a) && c in ReachOf(edges, a) &&
    d in ReachOf(edges, b) && d in ReachOf(edges, c) && d != a
  }

  /** Every kept cycle is a 4-cycle of the graph, stored under the multiset of its vertices (the sorted tuple). */
  ghost predicate SoundLoops(edges: seq<(int, int)>, loops: map<multiset<int>, seq<int>>)
  {
    forall k :: k in loops ==>
      |loops[k]| == 4 && multiset(loops[k]) == k &&
      IsFourCycle(edges, loops[k][0], loops[k][1], loops[k][2], loops[k][3])
  }

  /** Every 4-cycle through `a`, `b` and `c` has its vertex set among the keys. */
  ghost predicate Handled(edges: seq<(int, int)>, loops: map<multiset<int>, seq<int>>, a: int, b: int, c: int)
  {
    forall d :: IsFourCycle(edges, a, b, d, c) ==> multiset{a, b, d, c} in loops
  }

  lemma SoundInsert(edges: seq<(int, int)>, loops: map<multiset<int>, seq<int>>, a: int, b: int, d: int, c: int)
    requires SoundLoops(edges, loops) && IsFourCycle(edges, a, b, d, c)
    ensures SoundLoops(edges, loops[multiset{a, b, d, c} := [a, b, d, c]])
  {
    var cycle := [a, b, d, c];
    assert multiset(cycle) == multiset{a, b, d, c};
  }

  lemma HandledGrows(edges: seq<(int, int)>, l1: map<multiset<int>, seq<int>>, l2: map<multiset<int>, seq<int>>, a: int, b: int, c: int)
    requires Handled(edges, l1, a, b, c) && l1.Keys <= l2.Keys
    ensures Handled(edges, l2, a, b, c)
  {
  }

  lemma HandledSymmetric(edges: seq<(int, int)>, loops: map<multiset<int>, seq<int>>, a: int, b: int, c: int)
    requires Handled(edges, loops, a, b, c)
    ensures Handled(edges, loops, a, c, b)
  {
    forall d | IsFourCycle(edges, a, c, d, b)
      ensures multiset{a, c, d, b} in loops
    {
      assert IsFourCycle(edges, a, b, d, c);
      assert multiset{a, c, d, b} == multiset{a, b, d, c};
    }
  }

  lemma NonEmptyHasElement(s: set<int>)
    requires s != {}
    ensures exists x :: x in s
  {
    if forall x :: x !in s {
      assert false;
    }
  }

  /** The innermost loop of `find_4_cycles`: record `[a, b, d, c]` for every common neighbour `d` of `b` and `c` other than `a`. */
  method AddCyclesThrough(edges: seq<(int, int)>, reach: map<int, set<int>>, a: int, b: int, c: int,
                          loops: map<multiset<int>, seq<int>>) returns (loops': map<multiset<int>, seq<int>>)
    requires IsReachables(edges, reach) && SoundLoops(edges, loops)
    requires b in ReachOf(edges, a) && c in ReachOf(edges, a) && b != c
    ensures SoundLoops(edges, loops') && loops.Keys <= loops'.Keys
    ensures Handled(edges, loops', a, b, c)
  {
    ReachIsEndpoint(edges, a, b);
    ReachIsEndpoint(edges, a, c);
    loops' := loops;
    var ds := (reach[b] * reach[c]) - {a};
    var remaining := ds;
    while remaining != {}
      invariant remaining <= ds
      invariant SoundLoops(edges, loops') && loops.Keys <= loops'.Keys
      invariant Covers(loops', a, b, c, ds - remaining)
      decreases |remaining|
    {
      NonEmptyHasElement(remaining);
      var d :| d in remaining;
      CoversStep(loops', a, b, c, ds, remaining, d);
      remaining := remaining - {d};
      SoundInsert(edges, loops', a, b, d, c);
      loops' := loops'[multiset{a, b, d, c} := [a, b, d, c]];
    }
    assert ds - remaining == ds;
    CommonNeighboursHandled(edges, reach, loops', a, b, c);
  }

  /** Every `d` of `s` closes a recorded cycle `[a, b, d, c]`. */
  ghost predicate Covers(loops: map<multiset<int>, seq<int>>, a: int, b: int, c: int, s: set<int>)
  {
    forall d :: d in s ==> multiset{a, b, d, c} in loops
  }

  /** Recording the cycle through `d` covers `d` as well. */
  lemma CoversStep(loops: map<multiset<int>, seq<int>>, a: int, b: int, c: int, ds: set<int>, remaining: set<int>, d: int)
    requires Covers(loops, a, b, c, ds - remaining) && d in remaining
    ensures Covers(loops[multiset{a, b, d, c} := [a, b, d, c]], a, b, c, ds - (remaining - {d}))
  {
  }

  /** The fourth vertices of the 4-cycles through `a`, `b` and `c` are the common neighbours of `b` and `c` other than `a`. */
  lemma CommonNeighboursHandled(edges: seq<(int, int)>, reach: map<int, set<int>>, loops: map<multiset<int>, seq<int>>,
                                a: int, b: int, c: int)
    requires IsReachables(edges, reach) && b in reach && c in reach
    requires Covers(loops, a, b, c, (reach[b] * reach[c]) - {a})
    ensures Handled(edges, loops, a, b, c)
  {
    forall d | IsFourCycle(edges, a, b, d, c)
      ensures multiset{a, b, d, c} in loops
    {
      assert d in (reach[b] * reach[c]) - {a};
    }
  }

  /** The `itertools.combinations(reachable, 2)` loop of `find_4_cycles` for one vertex `a`. */
  method AddCyclesAt(edges: seq<(int, int)>, reach: map<int, set<int>>, a: int, loops: map<multiset<int>, seq<int>>)
    returns (loops': map<multiset<int>, seq<int>>)
    requires IsReachables(edges, reach) && SoundLoops(edges, loops) && a in reach
    ensures SoundLoops(edges, loops') && loops.Keys <= loops'.Keys
    ensures forall b, c :: Handled(edges, loops', a, b, c)
  {
    loops' := loops;
    var reachable := reach[a];
    var rest := reachable;
    while rest != {}
      invariant rest <= reachable
      invariant SoundLoops(edges, loops') && loops.Keys <= loops'.Keys
      invariant forall b, c :: b in reachable - rest && c in reachable && b != c ==> Handled(edges, loops', a, b, c)
      decreases |rest|
    {
      NonEmptyHasElement(rest);
      var b :| b in rest;
      rest := rest - {b};
      ghost var loopsBeforeB := loops';
      var others := rest;
      while others != {}
        invariant others <= rest
        invariant SoundLoops(edges, loops') && loopsBeforeB.Keys <= loops'.Keys
        invariant forall c :: c in rest - others ==> Handled(edges, loops', a, b, c)
        decreases |others|
      {
        NonEmptyHasElement(others);
        var c :| c in others;
        others := others - {c};
        ghost var loopsBeforeC := loops';
        loops' := AddCyclesThrough(edges, reach, a, b, c, loops');
        forall c' | c' in rest - others && c' != c
          ensures Handled(edges, loops', a, b, c')
        {
          HandledGrows(edges, loopsBeforeC, loops', a, b, c');
        }
      }
      forall b', c | b' in reachable - rest && c in reachable && b' != c
        ensures Handled(edges, loops', a, b', c)
      {
        if b' == b {
          if c !in rest {
            HandledGrows(edges, loopsBeforeB, loops', a, c, b');
            HandledSymmetric(edges, loops', a, c, b');
          }
        } else {
          HandledGrows(edges, loopsBeforeB, loops', a, b', c);
        }
      }
    }
  }

  /**
   * `find_4_cycles`. The dictionaries and sets are walked in an order the
   * source does not fix, so each loop picks its next element arbitrarily.
   * The keys are exactly the vertex sets of the 4-cycles, and each value
   * is one such cycle; which one is kept depends on the order.
   */
  method FindFourCycles(edges: seq<(int, int)>) returns (loops: map<multiset<int>, seq<int>>)
    ensures SoundLoops(edges, loops)
    ensures forall a, b, d, c :: IsFourCycle(edges, a, b, d, c) ==> multiset{a, b, d, c} in loops
  {
    var reach := BuildReachables(edges);
    loops := map[];
    var todo := reach.Keys;
    while todo != {}
      invariant todo <= reach.Keys
      invariant SoundLoops(edges, loops)
      invariant forall a, b, c :: a in reach.Keys - todo ==> Handled(edges, loops, a, b, c)
      decreases |todo|
    {
      NonEmptyHasElement(todo);
      var a :| a in todo;
      todo := todo - {a};
      ghost var loopsBeforeA := loops;
      loops := AddCyclesAt(edges, reach, a, loops);
      forall a', b, c | a' in reach.Keys - todo && a' != a
        ensures Handled(edges, loops, a', b, c)
      {
        HandledGrows(edges, loopsBeforeA, loops, a', b, c);
      }
    }
    forall a, b, d, c | IsFourCycle(edges, a, b, d, c)
      ensures multiset{a, b, d, c} in loops
    {
      ReachIsEndpoint(edges, a, b);
      assert Handled(edges, loops, a, b, c);
    }
  }

  /** A triangle of vertex indices into the flattened node array. */
  datatype Tri = Tri(i: nat, j: nat, k: nat)

  /** The top vertex of node `n` in the flattened node array. */
  function Top(n: nat): nat { 2 * n }

  /** The bottom vertex of node `n` in the flattened node array. */
  function Bottom(n: nat): nat { 2 * n + 1 }

  /** `orient` with its geometric test abstracted: the ring as found, or reversed. */
  function Orient(ring: seq<nat>, upward: bool): (r: seq<nat>)
    ensures |r| == |ring|
    ensures forall i :: 0 <= i < |r| ==> r[i] == (if upward then ring[i] else ring[|ring| - 1 - i])
  {
    if upward then ring else seq(|ring|, i requires 0 <= i < |ring| => ring[|ring| - 1 - i])
  }

  /** Orienting a ring only reorders its nodes. */
  lemma {:induction false} OrientPermutes(ring: seq<nat>, upward: bool)
    ensures multiset(Orient(ring, upward)) == multiset(ring)
  {
    if !upward && ring != [] {
      OrientPermutes(ring[1..], false);
      assert Orient(ring, false) == Orient(ring[1..], false) + [ring[0]];
      assert ring == [ring[0]] + ring[1..];
    }
  }

  /** The top fan: one triangle on the top vertices, two when the ring has four nodes. */
  function TopFan(ring: seq<nat>): seq<Tri>
    requires |ring| >= 3
  {
    [Tri(Top(ring[0]), Top(ring[1]), Top(ring[2]))] +
    (if |ring| == 4 then [Tri(Top(ring[0]), Top(ring[2]), Top(ring[3]))] else [])
  }

  /** The bottom fan, wound the other way round. */
  function BottomFan(ring: seq<nat>): seq<Tri>
    requires |ring| >= 3
  {
    [Tri(Bottom(ring[2]), Bottom(ring[1]), Bottom(ring[0]))] +
    (if |ring| == 4 then [Tri(Bottom(ring[3]), Bottom(ring[2]), Bottom(ring[0]))] else [])
  }

  /** One side triangle per ring edge with two top vertices. */
  function UpperSides(ring: seq<nat>): seq<Tri>
  {
    var n := |ring|;
    seq(n, i requires 0 <= i < n => Tri(Top(ring[i]), Top(ring[(i + 1) % n]), Bottom(ring[i])))
  }

  /** One side triangle per ring edge with two bottom vertices. */
  function LowerSides(ring: seq<nat>): seq<Tri>
  {
    var n := |ring|;
    seq(n, i requires 0 <= i < n => Tri(Bottom(ring[i]), Top(ring[(i + 1) % n]), Bottom(ring[(i + 1) % n])))
  }

  /**
   * The triangles `to_volume` builds for one ring: a top fan and a bottom
   * fan (a second triangle each when the ring has four nodes), then one
   * triangle per ring edge from the top side and one from the bottom side.
   */
  function CellTriangles(ring: seq<nat>): seq<Tri>
    requires |ring| >= 3
  {
    TopFan(ring) + BottomFan(ring) + UpperSides(ring) + LowerSides(ring)
  }

  /** Every vertex of a triangle is below `bound`. */
  ghost predicate TriBelow(t: Tri, bound: nat)
  {
    t.i < bound && t.j < bound && t.k < bound
  }

  /** There are two side triangles per ring edge besides the top and bottom fans. */
  lemma CellTrianglesCount(ring: seq<nat>)
    requires |ring| >= 3
    ensures |CellTriangles(ring)| == (if |ring| == 4 then 4 else 2) + 2 * |ring|
  {
  }

  /** Every triangle of `ts` only uses vertices below `bound`. */
  ghost predicate AllBelow(ts: seq<Tri>, bound: nat)
  {
    forall x :: x in ts ==> TriBelow(x, bound)
  }

  /** The side triangles only use vertices of the ring's nodes. */
  lemma SidesBounded(ring: seq<nat>, nodeCount: nat)
    requires forall i :: 0 <= i < |ring| ==> ring[i] < nodeCount
    ensures AllBelow(UpperSides(ring), 2 * nodeCount) && AllBelow(LowerSides(ring), 2 * nodeCount)
  {
    var n := |ring|;
    forall i | 0 <= i < n
      ensures TriBelow(UpperSides(ring)[i], 2 * nodeCount) && TriBelow(LowerSides(ring)[i], 2 * nodeCount)
    {
      var j := (i + 1) % n;
      assert ring[j] < nodeCount;
    }
  }

  /** The fans only use vertices of the ring's nodes. */
  lemma FansBounded(ring: seq<nat>, nodeCount: nat)
    requires |ring| >= 3 && forall i :: 0 <= i < |ring| ==> ring[i] < nodeCount
    ensures AllBelow(TopFan(ring) + BottomFan(ring), 2 * nodeCount)
  {
    assert ring[0] < nodeCount && ring[1] < nodeCount && ring[2] < nodeCount;
    assert |ring| == 4 ==> ring[3] < nodeCount;
  }

  lemma AllBelowConcat(a: seq<Tri>, b: seq<Tri>, bound: nat)
    requires AllBelow(a, bound) && AllBelow(b, bound)
    ensures AllBelow(a + b, bound)
  {
  }

  /**
   * Every index of a cell is a vertex of the flattened node array, of
   * length `2 * nodeCount`, when the ring's nodes are below `nodeCount`.
   */
  lemma CellTrianglesBounded(ring: seq<nat>, nodeCount: nat)
    requires |ring| >= 3 && forall i :: 0 <= i < |ring| ==> ring[i] < nodeCount
    ensures forall x :: x in CellTriangles(ring) ==> TriBelow(x, 2 * nodeCount)
  {
    var bound := 2 * nodeCount;
    SidesBounded(ring, nodeCount);
    FansBounded(ring, nodeCount);
    AllBelowConcat(TopFan(ring) + BottomFan(ring), UpperSides(ring), bound);
    AllBelowConcat(TopFan(ring) + BottomFan(ring) + UpperSides(ring), LowerSides(ring), bound);
  }

  /**
   * For a ring of four nodes: twelve triangles, the first two on top
   * vertices only (even indices), the next two on bottom vertices only
   * (odd indices).
   */
  lemma QuadCellShape(ring: seq<nat>)
    requires |ring| == 4
    ensures var t := CellTriangles(ring);
      |t| == 12 &&
      (forall m :: 0 <= m < 2 ==> t[m].i % 2 == 0 && t[m].j % 2 == 0 && t[m].k % 2 == 0) &&
      (forall m :: 2 <= m < 4 ==> t[m].i % 2 == 1 && t[m].j % 2 == 1 && t[m].k % 2 == 1)
  {
  }

  /**
   * The volume loop of `to_volume`: one list of triangles per 4-cycle, each
   * ring first oriented by the (abstracted) geometric test `upward`.
   */
  function ToVolume(rings: seq<seq<nat>>, upward: seq<nat> -> bool): (volumes: seq<seq<Tri>>)
    requires forall r :: r in rings ==> |r| == 4
    ensures |volumes| == |rings|
    ensures forall m :: 0 <= m < |rings| ==> volumes[m] == CellTriangles(Orient(rings[m], upward(rings[m])))
  {
    seq(|rings|, m requires 0 <= m < |rings| => CellTriangles(Orient(rings[m], upward(rings[m]))))
  }
}
