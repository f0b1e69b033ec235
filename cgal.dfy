/**
 * The domain classifier of the constrained Delaunay triangulation wrapper:
 * nesting levels are propagated breadth-first from the infinite face and
 * incremented across constrained edges; faces with an odd level are inside
 * the polygon.
 *
 * The triangulation built by the geometry kernel is an input: an arena of
 * faces indexed by `nat`, each with three vertices, three neighbour indices
 * (neighbour i is across the edge opposite vertex i) and three constrained
 * flags. The per-face `nesting_level` lives in an `array<int>` indexed like
 * the arena, written in place; the FIFO queue and the border list are
 * sequences.
 */
module Cgal {
  import opened Wrappers

  /** The level of a face that no flood has reached yet. */
  const Unclassified: int := -1

  datatype Point2 = Point2(x: real, y: real)

  datatype Face = Face(vertex: seq<Point2>, neighbor: seq<nat>, constrained: seq<bool>, infinite: bool)

  /** A border work item: the edge of `face` opposite its vertex `index`. */
  datatype Edge = Edge(face: nat, index: nat)

  datatype Triangle = Triangle(p0: Point2, p1: Point2, p2: Point2)

  datatype Triangulation = Triangulation(faces: seq<Face>, infiniteFace: nat)
  {
    /** Every face has three vertices, neighbours and flags, and every neighbour index is a face. */
    ghost predicate WellShaped()
    {
      forall f :: 0 <= f < |faces| ==>
        |faces[f].vertex| == 3 && |faces[f].neighbor| == 3 && |faces[f].constrained| == 3 &&
        forall i :: 0 <= i < 3 ==> faces[f].neighbor[i] < |faces|
    }

    function Neighbor(f: nat, i: nat): (n: nat)
      requires WellShaped() && f < |faces| && i < 3
      ensures n < |faces|
    {
      faces[f].neighbor[i]
    }

    function IsConstrained(f: nat, i: nat): bool
      requires WellShaped() && f < |faces| && i < 3
    {
      faces[f].constrained[i]
    }

    /**
     * A triangulation as the kernel hands it over: the infinite face is a
     * face, and every edge is seen from its other side as an edge back to
     * the same face with the same constrained flag.
     */
    ghost predicate Valid()
    {
      WellShaped() && infiniteFace < |faces| && faces[infiniteFace].infinite &&
      forall f: nat, i: nat | f < |faces| && i < 3 :: HasTwin(f, i)
    }

    /** The edge (f, i) is also an edge of its neighbour, back to f, with the same flag. */
    ghost predicate HasTwin(f: nat, i: nat)
      requires WellShaped() && f < |faces| && i < 3
    {
      var n := Neighbor(f, i);
      exists j: nat | j < 3 :: Neighbor(n, j) == f && IsConstrained(n, j) == IsConstrained(f, i)
    }
  }

  function Abs(x: int): nat
  {
    if x < 0 then -x else x
  }

  /** C++ `/` on `int`: the quotient truncated toward zero. */
  function CppQuot(a: int, b: int): int
    requires b != 0
  {
    if (a < 0) == (b < 0) then Abs(a) / Abs(b) else -(Abs(a) / Abs(b))
  }

  /**
   * C++ `%` on `int`: what is left of `a` once `b` times the truncated
   * quotient is taken away, so it is smaller than `b` in magnitude and has
   * the sign of `a`.
   */
  function CppRem(a: int, b: int): (r: int)
    requires b != 0
    ensures r == a - b * CppQuot(a, b)
    ensures -(Abs(b) as int) < r < Abs(b)
    ensures a >= 0 ==> r >= 0
    ensures a < 0 ==> r <= 0
  {
    if a >= 0 then a % Abs(b) else -((-a) % Abs(b))
  }

  /** `FaceInfo2::in_domain`: `nesting_level % 2 == 1` with C++ semantics. */
  predicate InDomain(level: int)
    ensures InDomain(level) <==> level >= 0 && level % 2 == 1
    ensures level == Unclassified ==> !InDomain(level)
  {
    CppRem(level, 2) == 1
  }

  /** The number of unclassified entries: the measure that bounds both loops. */
  function CountUnclassified(s: seq<int>): (c: nat)
    ensures c <= |s|
  {
    if s == [] then 0 else (if s[0] == Unclassified then 1 else 0) + CountUnclassified(s[1..])
  }

  lemma {:induction false} CountUnclassifiedAssign(s: seq<int>, k: nat, v: int)
    requires k < |s| && s[k] == Unclassified && v != Unclassified
    ensures CountUnclassified(s[k := v]) == CountUnclassified(s) - 1
  {
    if k == 0 {
      assert s[k := v][1..] == s[1..];
    } else {
      assert s[k := v][1..] == s[1..][k - 1 := v];
      CountUnclassifiedAssign(s[1..], k - 1, v);
    }
  }

  /** Entries only ever go from unclassified to classified, so the count never grows; it drops when one does. */
  lemma {:induction false} CountUnclassifiedShrinks(s: seq<int>, s': seq<int>)
    requires |s| == |s'|
    requires forall j :: 0 <= j < |s| ==> s'[j] == s[j] || (s[j] == Unclassified && s'[j] != Unclassified)
    ensures CountUnclassified(s') <= CountUnclassified(s)
    ensures (exists j :: 0 <= j < |s| && s[j] != s'[j]) ==> CountUnclassified(s') < CountUnclassified(s)
  {
    if s != [] {
      assert forall j :: 0 <= j < |s| - 1 ==> s'[1..][j] == s'[j + 1] && s[1..][j] == s[j + 1];
      CountUnclassifiedShrinks(s[1..], s'[1..]);
      if exists j :: 0 <= j < |s| && s[j] != s'[j] {
        var j :| 0 <= j < |s| && s[j] != s'[j];
        if j > 0 {
          assert s[1..][j - 1] != s'[1..][j - 1];
        }
      }
    }
  }

  /**
   * A walk through the arena: `p` lists its faces and `idx` the edge by
   * which it leaves each of them but the last.
   */
  ghost predicate Steps(t: Triangulation, p: seq<nat>, idx: seq<nat>)
    requires t.WellShaped()
  {
    |p| == |idx| + 1 &&
    (forall k :: 0 <= k < |p| ==> p[k] < |t.faces|) &&
    forall k :: 0 <= k < |idx| ==> idx[k] < 3 && t.Neighbor(p[k], idx[k]) == p[k + 1]
  }

  /** The number of constrained edges a walk crosses. */
  ghost function Cost(t: Triangulation, p: seq<nat>, idx: seq<nat>): nat
    requires t.WellShaped() && Steps(t, p, idx)
    decreases |idx|
  {
    if idx == [] then
      0
    else
      var m := |idx| - 1;
      Cost(t, p[..m + 1], idx[..m]) + (if t.IsConstrained(p[m], idx[m]) then 1 else 0)
  }

  /** Some walk from face `a` to face `b` crosses exactly `c` constrained edges. */
  ghost predicate Reaches(t: Triangulation, a: nat, b: nat, c: int)
    requires t.WellShaped()
  {
    exists p: seq<nat>, idx: seq<nat> :: Steps(t, p, idx) && p[0] == a && p[|p| - 1] == b && Cost(t, p, idx) == c
  }

  /** Leaving the last face of a walk by edge `j` extends it, at one more crossing when that edge is constrained. */
  lemma StepCost(t: Triangulation, p: seq<nat>, idx: seq<nat>, j: nat)
    requires t.WellShaped() && Steps(t, p, idx) && j < 3
    ensures Steps(t, p + [t.Neighbor(p[|p| - 1], j)], idx + [j])
    ensures Cost(t, p + [t.Neighbor(p[|p| - 1], j)], idx + [j]) ==
      Cost(t, p, idx) + (if t.IsConstrained(p[|p| - 1], j) then 1 else 0)
  {
    var p' := p + [t.Neighbor(p[|p| - 1], j)];
    assert p'[..|idx| + 1] == p;
    assert (idx + [j])[..|idx|] == idx;
  }

  lemma ReachesRefl(t: Triangulation, a: nat)
    requires t.WellShaped() && a < |t.faces|
    ensures Reaches(t, a, a, 0)
  {
    assert Steps(t, [a], []) && Cost(t, [a], []) == 0;
  }

  /** A walk to `b` continues across any edge of `b`. */
  lemma ReachesStep(t: Triangulation, a: nat, b: nat, c: int, j: nat)
    requires t.WellShaped() && b < |t.faces| && j < 3 && Reaches(t, a, b, c)
    ensures Reaches(t, a, t.Neighbor(b, j), c + if t.IsConstrained(b, j) then 1 else 0)
  {
    var p, idx :| Steps(t, p, idx) && p[0] == a && p[|p| - 1] == b && Cost(t, p, idx) == c;
    StepCost(t, p, idx, j);
    var p' := p + [t.Neighbor(b, j)];
    assert p'[0] == a && p'[|p'| - 1] == t.Neighbor(b, j);
  }

  /** Whatever reaches the first face of a walk reaches its last face, across the walk's constraints as well. */
  lemma {:induction false} ReachesAlong(t: Triangulation, a: nat, c: int, p: seq<nat>, idx: seq<nat>)
    requires t.WellShaped() && Steps(t, p, idx) && Reaches(t, a, p[0], c)
    ensures Reaches(t, a, p[|p| - 1], c + Cost(t, p, idx))
    decreases |idx|
  {
    if idx != [] {
      var m := |idx| - 1;
      assert Steps(t, p[..m + 1], idx[..m]);
      ReachesAlong(t, a, c, p[..m + 1], idx[..m]);
      ReachesStep(t, a, p[m], c + Cost(t, p[..m + 1], idx[..m]), idx[m]);
    }
  }

  /** Reaching `b` and reaching on from `b` reaches on from the start, and the crossings add up. */
  lemma ReachesConcat(t: Triangulation, a: nat, b: nat, d: nat, c1: int, c2: int)
    requires t.WellShaped() && Reaches(t, a, b, c1) && Reaches(t, b, d, c2)
    ensures Reaches(t, a, d, c1 + c2)
  {
    var p, idx :| Steps(t, p, idx) && p[0] == b && p[|p| - 1] == d && Cost(t, p, idx) == c2;
    ReachesAlong(t, a, c1, p, idx);
  }

  /** Across every unconstrained edge of a classified face, the neighbour has the same level. */
  ghost predicate FreeEdgesAgree(t: Triangulation, levels: seq<int>)
    requires t.WellShaped() && |levels| == |t.faces|
  {
    forall f: nat, i: nat | f < |levels| && i < 3 && levels[f] != Unclassified && !t.IsConstrained(f, i) ::
      levels[t.Neighbor(f, i)] == levels[f]
  }

  /** Faces on the two sides of an unconstrained edge agree as soon as the far one is classified. */
  lemma FreeEdgeSymmetric(t: Triangulation, levels: seq<int>, f: nat, i: nat)
    requires t.Valid() && |levels| == |t.faces| && f < |levels| && i < 3
    requires FreeEdgesAgree(t, levels) && !t.IsConstrained(f, i)
    ensures levels[t.Neighbor(f, i)] != Unclassified ==> levels[f] == levels[t.Neighbor(f, i)]
  {
    var n := t.Neighbor(f, i);
    assert t.HasTwin(f, i);
    var j: nat :| j < 3 && t.Neighbor(n, j) == f && t.IsConstrained(n, j) == t.IsConstrained(f, i);
    assert levels[n] != Unclassified ==> levels[t.Neighbor(n, j)] == levels[n];
  }

  /** A walk that crosses no constraint keeps the level of a classified first face. */
  lemma {:induction false} FreeWalkKeepsLevel(t: Triangulation, levels: seq<int>, p: seq<nat>, idx: seq<nat>)
    requires t.WellShaped() && |levels| == |t.faces| && FreeEdgesAgree(t, levels)
    requires Steps(t, p, idx) && Cost(t, p, idx) == 0 && levels[p[0]] != Unclassified
    ensures levels[p[|p| - 1]] == levels[p[0]]
    decreases |idx|
  {
    if idx != [] {
      var m := |idx| - 1;
      assert Steps(t, p[..m + 1], idx[..m]);
      FreeWalkKeepsLevel(t, levels, p[..m + 1], idx[..m]);
      assert !t.IsConstrained(p[m], idx[m]);
    }
  }

  /** ... and a classified last face passes its level back to the first. */
  lemma {:induction false} FreeWalkBack(t: Triangulation, levels: seq<int>, p: seq<nat>, idx: seq<nat>)
    requires t.Valid() && |levels| == |t.faces| && FreeEdgesAgree(t, levels)
    requires Steps(t, p, idx) && Cost(t, p, idx) == 0 && levels[p[|p| - 1]] != Unclassified
    ensures levels[p[0]] == levels[p[|p| - 1]]
    decreases |idx|
  {
    if idx != [] {
      var m := |idx| - 1;
      assert Steps(t, p[..m + 1], idx[..m]);
      FreeEdgeSymmetric(t, levels, p[m], idx[m]);
      FreeWalkBack(t, levels, p[..m + 1], idx[..m]);
    }
  }

  /** `q` is across an unconstrained edge of `f`. */
  ghost predicate FreeNeighbor(t: Triangulation, f: nat, q: nat)
    requires t.WellShaped() && f < |t.faces|
  {
    exists j: nat | j < 3 :: q == t.Neighbor(f, j) && !t.IsConstrained(f, j)
  }

  /**
   * The neighbour loop of the flood, for the face `fh` just given `index`:
   * an unclassified neighbour across a free edge joins the queue, and a
   * constrained edge to an unclassified neighbour joins the border list.
   * Nothing is written to the levels.
   */
  method VisitNeighbors(t: Triangulation, levels: seq<int>, ghost L0: seq<int>, fh: nat, index: int,
                        queue: seq<nat>, border: seq<Edge>)
    returns (queue': seq<nat>, border': seq<Edge>)
    requires t.Valid() && |levels| == |t.faces| && |L0| == |levels| && fh < |levels|
    requires index != Unclassified && levels[fh] == index && L0[fh] == Unclassified
    requires FreeEdgesAgree(t, L0)
    requires forall f :: 0 <= f < |levels| ==> levels[f] == L0[f] || (L0[f] == Unclassified && levels[f] == index)
    ensures |queue'| >= |queue| && queue'[..|queue|] == queue
    ensures forall k :: |queue| <= k < |queue'| ==>
      queue'[k] < |levels| && levels[queue'[k]] == Unclassified &&
      FreeNeighbor(t, fh, queue'[k])
    ensures forall q :: q in queue ==> q in queue'
    ensures forall q :: q in queue' ==> q in queue || (q < |levels| && L0[q] == Unclassified)
    ensures forall e :: e in border ==> e in border'
    ensures |border'| >= |border| && border'[..|border|] == border
    ensures forall k :: |border| <= k < |border'| ==>
      border'[k].face == fh && border'[k].index < 3 && t.IsConstrained(fh, border'[k].index) &&
      levels[t.Neighbor(fh, border'[k].index)] == Unclassified
    ensures forall j: nat | j < 3 ::
      var n := t.Neighbor(fh, j);
      (!t.IsConstrained(fh, j) ==> levels[n] == index || n in queue') &&
      (t.IsConstrained(fh, j) ==> levels[n] != Unclassified || Edge(fh, j) in border')
  {
    queue', border' := queue, border;
    for i := 0 to 3
      invariant |queue'| >= |queue| && queue'[..|queue|] == queue
      invariant forall k :: |queue| <= k < |queue'| ==>
        queue'[k] < |levels| && levels[queue'[k]] == Unclassified &&
        FreeNeighbor(t, fh, queue'[k])
      invariant |border'| >= |border| && border'[..|border|] == border
      invariant forall k :: |border| <= k < |border'| ==>
        border'[k].face == fh && border'[k].index < 3 && t.IsConstrained(fh, border'[k].index) &&
        levels[t.Neighbor(fh, border'[k].index)] == Unclassified
      invariant forall j: nat | j < i ::
        var n := t.Neighbor(fh, j);
        (!t.IsConstrained(fh, j) ==> levels[n] == index || n in queue') &&
        (t.IsConstrained(fh, j) ==> levels[n] != Unclassified || Edge(fh, j) in border')
    {
      var n := t.Neighbor(fh, i);
      if levels[n] == Unclassified {
        if t.IsConstrained(fh, i) {
          border' := border' + [Edge(fh, i)];
        } else {
          assert FreeNeighbor(t, fh, n);
          queue' := queue' + [n];
        }
      } else if !t.IsConstrained(fh, i) && L0[n] != Unclassified {
        FreeEdgeSymmetric(t, L0, fh, i);
      }
    }
  }

  /**
   * What the flood from the unclassified face `start` at level `index`
   * leaves behind: exactly the faces `start` reaches without crossing a
   * constrained edge went from unclassified to `index`; free edges join
   * equal levels; and the border list grew at its back by constrained
   * edges of those faces, among them every one that still leads to an
   * unclassified face.
   */
  ghost predicate Flood(t: Triangulation, L0: seq<int>, L: seq<int>, start: nat, index: int,
                        border: seq<Edge>, border': seq<Edge>)
    requires t.WellShaped() && |L0| == |t.faces| && |L| == |t.faces|
  {
    start < |L| && L[start] == index &&
    (forall f :: 0 <= f < |L| ==> L[f] == L0[f] || (L0[f] == Unclassified && L[f] == index)) &&
    (forall f :: 0 <= f < |L| ==> (L[f] != L0[f] <==> Reaches(t, start, f, 0))) &&
    FreeEdgesAgree(t, L) &&
    |border'| >= |border| && border'[..|border|] == border &&
    (forall k :: |border| <= k < |border'| ==>
      var e := border'[k];
      e.face < |L| && e.index < 3 && t.IsConstrained(e.face, e.index) &&
      L0[e.face] == Unclassified && L[e.face] == index) &&
    (forall f: nat, i: nat | f < |L| && i < 3 && L0[f] == Unclassified && L[f] != Unclassified &&
      t.IsConstrained(f, i) :: L[t.Neighbor(f, i)] != Unclassified || Edge(f, i) in border')
  }

  /**
   * The inner `mark_domains(ct, start, index, border)`: a breadth-first
   * flood from `start` that gives `index` to every unclassified face it
   * reaches without crossing a constrained edge, and appends to the border
   * list the constrained edges that lead to unclassified faces.
   */
  method MarkDomainsFrom(t: Triangulation, levels: array<int>, start: nat, index: int, border: seq<Edge>)
    returns (border': seq<Edge>)
    requires t.Valid() && levels.Length == |t.faces| && start < levels.Length && index != Unclassified
    requires FreeEdgesAgree(t, levels[..])
    modifies levels
    ensures old(levels[start]) != Unclassified ==> levels[..] == old(levels[..]) && border' == border
    ensures old(levels[start]) == Unclassified ==> Flood(t, old(levels[..]), levels[..], start, index, border, border')
  {
    border' := border;
    if levels[start] != Unclassified {
      return;
    }
    ghost var L0 := levels[..];
    var queue: seq<nat> := [start];
    ReachesRefl(t, start);
    while queue != []
      invariant Flooding(t, L0, levels[..], start, index, queue, border, border')
      decreases CountUnclassified(levels[..]), |queue|
    {
      queue, border' := FloodStep(t, levels, L0, start, index, queue, border, border');
    }
    forall f: nat, i: nat | f < levels.Length && i < 3 && levels[f] != Unclassified && !t.IsConstrained(f, i)
      ensures levels[t.Neighbor(f, i)] == levels[f]
    {
      var n := t.Neighbor(f, i);
      if L0[f] != Unclassified {
        assert L0[n] == L0[f];
      }
    }
    FloodComponent(t, L0, levels[..], start, index);
  }

  /** Once the queue is empty, the faces the flood changed are exactly those `start` reaches freely. */
  lemma FloodComponent(t: Triangulation, L0: seq<int>, L: seq<int>, start: nat, index: int)
    requires t.Valid() && |L0| == |t.faces| && |L| == |t.faces| && start < |L|
    requires FreeEdgesAgree(t, L0) && FreeEdgesAgree(t, L)
    requires L0[start] == Unclassified && L[start] == index && index != Unclassified
    requires forall f :: 0 <= f < |L| ==> L[f] == L0[f] || (L0[f] == Unclassified && L[f] == index)
    requires forall f :: 0 <= f < |L| && L0[f] == Unclassified && L[f] != Unclassified ==> Reaches(t, start, f, 0)
    ensures forall f :: 0 <= f < |L| ==> (L[f] != L0[f] <==> Reaches(t, start, f, 0))
  {
    forall f | 0 <= f < |L| && Reaches(t, start, f, 0)
      ensures L[f] != L0[f]
    {
      var p, idx :| Steps(t, p, idx) && p[0] == start && p[|p| - 1] == f && Cost(t, p, idx) == 0;
      FreeWalkKeepsLevel(t, L, p, idx);
      if L0[f] != Unclassified {
        FreeWalkBack(t, L0, p, idx);
      }
    }
  }

  /**
   * The state of the flood from `start` at level `index`: faces only go
   * from unclassified to `index`, the queue holds faces that were
   * unclassified and that `start` reaches freely, `start` is classified or
   * queued, every newly classified face is reached freely from `start`,
   * the border list grows by constrained edges of newly classified faces,
   * and every edge of a newly classified face leads to a face that is
   * classified, queued or (across a constraint) recorded on the border.
   */
  ghost predicate Flooding(t: Triangulation, L0: seq<int>, L: seq<int>, start: nat, index: int,
                           queue: seq<nat>, border: seq<Edge>, border': seq<Edge>)
  {
    t.WellShaped() && |L| == |t.faces| && |L0| == |L| && start < |L| &&
    (forall q :: q in queue ==> q < |L| && L0[q] == Unclassified && Reaches(t, start, q, 0)) &&
    (forall f :: 0 <= f < |L| ==> L[f] == L0[f] || (L0[f] == Unclassified && L[f] == index)) &&
    (forall f :: 0 <= f < |L| && L0[f] == Unclassified && L[f] != Unclassified ==> Reaches(t, start, f, 0)) &&
    (L[start] == index || start in queue) &&
    |border'| >= |border| && border'[..|border|] == border &&
    (forall k :: |border| <= k < |border'| ==>
      var e := border'[k];
      e.face < |L| && e.index < 3 && t.IsConstrained(e.face, e.index) &&
      L0[e.face] == Unclassified && L[e.face] == index) &&
    Frontier(t, L0, L, index, queue, border')
  }

  /** Every edge of a newly classified face leads to a face at `index`, a queued face, or (across a constraint) a classified face or a recorded border edge. */
  ghost predicate Frontier(t: Triangulation, L0: seq<int>, L: seq<int>, index: int, queue: seq<nat>, border: seq<Edge>)
    requires t.WellShaped() && |L| == |t.faces| && |L0| == |L|
  {
    forall f: nat, i: nat | f < |L| && i < 3 && L0[f] == Unclassified && L[f] != Unclassified ::
      var n := t.Neighbor(f, i);
      (!t.IsConstrained(f, i) ==> L[n] == index || n in queue) &&
      (t.IsConstrained(f, i) ==> L[n] != Unclassified || Edge(f, i) in border)
  }

  /** One turn of the flood: the head of the queue is taken and, when still unclassified, classified and its neighbours visited. */
  method FloodStep(t: Triangulation, levels: array<int>, ghost L0: seq<int>, start: nat, index: int,
                   queue: seq<nat>, ghost border: seq<Edge>, border': seq<Edge>)
    returns (queue': seq<nat>, border'': seq<Edge>)
    requires t.Valid() && index != Unclassified && queue != []
    requires Flooding(t, L0, levels[..], start, index, queue, border, border')
    requires FreeEdgesAgree(t, L0)
    modifies levels
    ensures Flooding(t, L0, levels[..], start, index, queue', border, border'')
    ensures CountUnclassified(levels[..]) < old(CountUnclassified(levels[..])) ||
      (levels[..] == old(levels[..]) && |queue'| < |queue|)
  {
    var fh := queue[0];
    assert fh in queue;
    assert forall q :: q in queue[1..] ==> q in queue;
    assert start in queue ==> start == fh || start in queue[1..];
    queue' := queue[1..];
    border'' := border';
    if levels[fh] == Unclassified {
      CountUnclassifiedAssign(levels[..], fh, index);
      ghost var before := levels[..];
      levels[fh] := index;
      var snap := levels[..];
      queue', border'' := VisitNeighbors(t, snap, L0, fh, index, queue', border'');
      FrontierAfterVisit(t, L0, before, snap, index, fh, queue, queue', border', border'');
      ReachAfterVisit(t, start, fh, queue[1..], queue');
      FloodingAfterVisit(t, L0, before, snap, start, index, queue, queue', border, border', border'');
    } else {
      FrontierAfterSkip(t, L0, levels[..], index, queue, border');
    }
  }

  /** Classifying the head of the queue and visiting its neighbours keeps the flood state. */
  lemma FloodingAfterVisit(t: Triangulation, L0: seq<int>, before: seq<int>, L: seq<int>, start: nat, index: int,
                           queue: seq<nat>, queue': seq<nat>, border: seq<Edge>, border': seq<Edge>, border'': seq<Edge>)
    requires t.WellShaped() && index != Unclassified && queue != []
    requires Flooding(t, L0, before, start, index, queue, border, border')
    requires queue[0] < |before| && before[queue[0]] == Unclassified && L == before[queue[0] := index]
    requires forall q :: q in queue' ==> q in queue[1..] || (q < |L| && L0[q] == Unclassified)
    requires forall q :: q in queue' ==> Reaches(t, start, q, 0)
    requires forall q :: q in queue[1..] ==> q in queue'
    requires |border''| >= |border'| && border''[..|border'|] == border'
    requires forall k :: |border'| <= k < |border''| ==>
      border''[k].face == queue[0] && border''[k].index < 3 && t.IsConstrained(queue[0], border''[k].index)
    requires Frontier(t, L0, L, index, queue', border'')
    ensures Flooding(t, L0, L, start, index, queue', border, border'')
  {
    var fh := queue[0];
    assert fh in queue;
    assert forall q :: q in queue[1..] ==> q in queue;
    assert start in queue ==> start == fh || start in queue[1..];
    assert border''[..|border|] == border by {
      assert border''[..|border|] == border''[..|border'|][..|border|];
    }
    forall k | |border| <= k < |border''|
      ensures var e := border''[k];
        e.face < |L| && e.index < 3 && t.IsConstrained(e.face, e.index) &&
        L0[e.face] == Unclassified && L[e.face] == index
    {
      if k < |border'| {
        assert border''[k] == border'[k];
      }
    }
  }

  /** The faces a visit queues are free neighbours of `fh`, so `start` reaches them freely too. */
  lemma ReachAfterVisit(t: Triangulation, start: nat, fh: nat, queue: seq<nat>, queue': seq<nat>)
    requires t.WellShaped() && fh < |t.faces| && Reaches(t, start, fh, 0)
    requires forall q :: q in queue ==> Reaches(t, start, q, 0)
    requires |queue'| >= |queue| && queue'[..|queue|] == queue
    requires forall k :: |queue| <= k < |queue'| ==>
      FreeNeighbor(t, fh, queue'[k])
    ensures forall q :: q in queue' ==> Reaches(t, start, q, 0)
  {
    forall q | q in queue'
      ensures Reaches(t, start, q, 0)
    {
      var k :| 0 <= k < |queue'| && queue'[k] == q;
      if k < |queue| {
        assert q in queue;
      } else {
        assert FreeNeighbor(t, fh, queue'[k]);
        var j: nat :| j < 3 && q == t.Neighbor(fh, j) && !t.IsConstrained(fh, j);
        ReachesStep(t, start, fh, 0, j);
      }
    }
  }

  /** Dropping an already classified face from the head of the queue keeps the frontier accounted for. */
  lemma FrontierAfterSkip(t: Triangulation, L0: seq<int>, L: seq<int>, index: int, queue: seq<nat>, border: seq<Edge>)
    requires t.WellShaped() && |L| == |t.faces| && |L0| == |L|
    requires queue != [] && queue[0] < |L| && L[queue[0]] == index
    requires Frontier(t, L0, L, index, queue, border)
    ensures Frontier(t, L0, L, index, queue[1..], border)
  {
    forall f: nat, i: nat | f < |L| && i < 3 && L0[f] == Unclassified && L[f] != Unclassified
      ensures var n := t.Neighbor(f, i);
        !t.IsConstrained(f, i) ==> L[n] == index || n in queue[1..]
    {
      var n := t.Neighbor(f, i);
      if !t.IsConstrained(f, i) && L[n] != index {
        assert n in queue && n != queue[0];
      }
    }
  }

  /** After a visit, every edge of a newly classified face still leads somewhere accounted for. */
  lemma FrontierAfterVisit(t: Triangulation, L0: seq<int>, before: seq<int>, L: seq<int>, index: int, fh: nat,
                           queue: seq<nat>, queue': seq<nat>, border: seq<Edge>, border': seq<Edge>)
    requires t.WellShaped() && |before| == |t.faces| && |L0| == |before| && fh < |before|
    requires queue != [] && queue[0] == fh && L == before[fh := index] && index != Unclassified
    requires Frontier(t, L0, before, index, queue, border)
    requires forall q :: q in queue[1..] ==> q in queue'
    requires forall e :: e in border ==> e in border'
    requires forall j: nat | j < 3 ::
      var n := t.Neighbor(fh, j);
      (!t.IsConstrained(fh, j) ==> L[n] == index || n in queue') &&
      (t.IsConstrained(fh, j) ==> L[n] != Unclassified || Edge(fh, j) in border')
    ensures Frontier(t, L0, L, index, queue', border')
  {
    forall f: nat, i: nat | f < |L| && i < 3 && L0[f] == Unclassified && L[f] != Unclassified && f != fh
      ensures var n := t.Neighbor(f, i);
        (!t.IsConstrained(f, i) ==> L[n] == index || n in queue') &&
        (t.IsConstrained(f, i) ==> L[n] != Unclassified || Edge(f, i) in border')
    {
      var n := t.Neighbor(f, i);
      if !t.IsConstrained(f, i) && before[n] != index {
        assert n in queue;
        if n != fh {
          assert n in queue[1..];
        }
      }
    }
  }

  /**
   * Across every constrained edge of a classified face, the far face is at
   * most one level deeper or, while it is still unclassified, the edge
   * waits on the border list.
   */
  ghost predicate ConstrainedStep(t: Triangulation, levels: seq<int>, border: seq<Edge>)
    requires t.WellShaped() && |levels| == |t.faces|
  {
    forall f: nat, i: nat | f < |levels| && i < 3 && levels[f] != Unclassified && t.IsConstrained(f, i) ::
      var n := t.Neighbor(f, i);
      if levels[n] == Unclassified then Edge(f, i) in border else levels[n] <= levels[f] + 1
  }

  /**
   * The border list as the drain loop sees it: constrained edges of faces
   * whose levels are `c` or `c + 1` and never decrease from the front of
   * the list to its back.
   */
  ghost predicate BorderOrdered(t: Triangulation, levels: seq<int>, border: seq<Edge>, c: int)
    requires t.WellShaped() && |levels| == |t.faces|
  {
    (forall k :: 0 <= k < |border| ==>
      border[k].face < |levels| && border[k].index < 3 && t.IsConstrained(border[k].face, border[k].index) &&
      c <= levels[border[k].face] <= c + 1) &&
    forall k, l :: 0 <= k < l < |border| ==> levels[border[k].face] <= levels[border[l].face]
  }

  /** Every classified face is reached from the infinite face across as many constraints as its level says. */
  ghost predicate AllReached(t: Triangulation, levels: seq<int>)
    requires t.WellShaped() && |levels| == |t.faces|
  {
    forall f :: 0 <= f < |levels| && levels[f] != Unclassified ==> Reaches(t, t.infiniteFace, f, levels[f])
  }

  /** The state of the drain loop, with `c` the level of the last edge taken off the border list. */
  ghost predicate Draining(t: Triangulation, levels: seq<int>, border: seq<Edge>, c: int)
    requires t.WellShaped() && |levels| == |t.faces|
  {
    0 <= c &&
    (forall f :: 0 <= f < |levels| ==> levels[f] == Unclassified || 0 <= levels[f] <= c + 1) &&
    ConstrainedStep(t, levels, border) && BorderOrdered(t, levels, border, c) && AllReached(t, levels)
  }

  /** After the flood from the infinite face at level 0, the drain loop can start. */
  lemma FirstFlood(t: Triangulation, L0: seq<int>, L: seq<int>, border: seq<Edge>)
    requires t.Valid() && |L0| == |t.faces| && |L| == |t.faces|
    requires forall f :: 0 <= f < |L0| ==> L0[f] == Unclassified
    requires Flood(t, L0, L, t.infiniteFace, 0, [], border)
    ensures Draining(t, L, border, 0)
  {
  }

  /** Taking an edge whose far face is already classified off the border list keeps the drain state. */
  lemma DrainSkip(t: Triangulation, L: seq<int>, border: seq<Edge>, c: int)
    requires t.WellShaped() && |L| == |t.faces| && border != [] && Draining(t, L, border, c)
    requires L[t.Neighbor(border[0].face, border[0].index)] != Unclassified
    ensures Draining(t, L, border[1..], L[border[0].face])
  {
    var e := border[0];
    forall f: nat, i: nat | f < |L| && i < 3 && L[f] != Unclassified && t.IsConstrained(f, i) &&
      L[t.Neighbor(f, i)] == Unclassified
      ensures Edge(f, i) in border[1..]
    {
      var k :| 0 <= k < |border| && border[k] == Edge(f, i);
    }
    forall k | 0 <= k < |border| - 1
      ensures L[e.face] <= L[border[1..][k].face]
    {
      assert border[1..][k] == border[k + 1];
    }
  }

  /**
   * Taking an edge whose far face `n` is unclassified off the border list
   * and flooding from `n` one level below the edge's face keeps the drain
   * state, with that level as the new `c`.
   */
  lemma DrainFlood(t: Triangulation, L: seq<int>, L': seq<int>, border: seq<Edge>, border': seq<Edge>, c: int)
    requires t.Valid() && |L| == |t.faces| && |L'| == |t.faces| && border != [] && Draining(t, L, border, c)
    requires L[t.Neighbor(border[0].face, border[0].index)] == Unclassified
    requires Flood(t, L, L', t.Neighbor(border[0].face, border[0].index), L[border[0].face] + 1, border[1..], border')
    ensures Draining(t, L', border', L[border[0].face])
  {
    BorderOrderedAfterFlood(t, L, L', border, border', c);
    ConstrainedStepAfterFlood(t, L, L', border, border', c);
    AllReachedAfterFlood(t, L, L', border, border', c);
  }

  lemma BorderOrderedAfterFlood(t: Triangulation, L: seq<int>, L': seq<int>, border: seq<Edge>, border': seq<Edge>, c: int)
    requires t.Valid() && |L| == |t.faces| && |L'| == |t.faces| && border != [] && Draining(t, L, border, c)
    requires L[t.Neighbor(border[0].face, border[0].index)] == Unclassified
    requires Flood(t, L, L', t.Neighbor(border[0].face, border[0].index), L[border[0].face] + 1, border[1..], border')
    ensures 0 <= L[border[0].face]
    ensures forall f :: 0 <= f < |L'| ==> L'[f] == Unclassified || 0 <= L'[f] <= L[border[0].face] + 1
    ensures BorderOrdered(t, L', border', L[border[0].face])
  {
    var k := L[border[0].face];
    assert forall j :: 0 <= j < |border| - 1 ==> border'[j] == border[1..][j] == border[j + 1];
    assert forall j :: 0 <= j < |border| - 1 ==> L'[border'[j].face] == L[border[j + 1].face] && k <= L[border[j + 1].face];
  }

  lemma AllReachedAfterFlood(t: Triangulation, L: seq<int>, L': seq<int>, border: seq<Edge>, border': seq<Edge>, c: int)
    requires t.Valid() && |L| == |t.faces| && |L'| == |t.faces| && border != [] && Draining(t, L, border, c)
    requires L[t.Neighbor(border[0].face, border[0].index)] == Unclassified
    requires Flood(t, L, L', t.Neighbor(border[0].face, border[0].index), L[border[0].face] + 1, border[1..], border')
    ensures AllReached(t, L')
  {
    var e := border[0];
    var n := t.Neighbor(e.face, e.index);
    var k := L[e.face];
    forall f | 0 <= f < |L'| && L'[f] != Unclassified
      ensures Reaches(t, t.infiniteFace, f, L'[f])
    {
      if L[f] == Unclassified {
        ReachesStep(t, t.infiniteFace, e.face, k, e.index);
        ReachesConcat(t, t.infiniteFace, n, f, k + 1, 0);
      }
    }
  }

  lemma ConstrainedStepAfterFlood(t: Triangulation, L: seq<int>, L': seq<int>, border: seq<Edge>, border': seq<Edge>, c: int)
    requires t.Valid() && |L| == |t.faces| && |L'| == |t.faces| && border != [] && Draining(t, L, border, c)
    requires L[t.Neighbor(border[0].face, border[0].index)] == Unclassified
    requires Flood(t, L, L', t.Neighbor(border[0].face, border[0].index), L[border[0].face] + 1, border[1..], border')
    ensures ConstrainedStep(t, L', border')
  {
    var e := border[0];
    var n := t.Neighbor(e.face, e.index);
    var k := L[e.face];
    forall f: nat, i: nat | f < |L'| && i < 3 && L'[f] != Unclassified && t.IsConstrained(f, i)
      ensures var m := t.Neighbor(f, i);
        if L'[m] == Unclassified then Edge(f, i) in border' else L'[m] <= L'[f] + 1
    {
      var m := t.Neighbor(f, i);
      if L[f] != Unclassified && L[m] == Unclassified {
        var j :| 0 <= j < |border| && border[j] == Edge(f, i);
        if L'[m] == Unclassified {
          assert j != 0;
          assert border'[j - 1] == border[1..][j - 1];
        } else {
          assert k <= L[f];
        }
      }
    }
  }

  /**
   * The top-level `mark_domains(cdt)`: reset every face to unclassified,
   * flood from the infinite face with level 0, then drain the border list,
   * flooding each still unclassified far face with its source face's level
   * plus one. The result is the nesting level of every face: the fewest
   * constrained edges a walk from the infinite face must cross to reach it.
   */
  method MarkDomains(t: Triangulation, levels: array<int>)
    requires t.Valid() && levels.Length == |t.faces|
    modifies levels
    ensures levels[t.infiniteFace] == 0
    ensures CrossingDistance(t, levels[..])
  {
    for k := 0 to levels.Length
      invariant forall j :: 0 <= j < k ==> levels[j] == Unclassified
    {
      levels[k] := Unclassified;
    }
    assert FreeEdgesAgree(t, levels[..]);
    ghost var L0 := levels[..];
    var border := MarkDomainsFrom(t, levels, t.infiniteFace, 0, []);
    FirstFlood(t, L0, levels[..], border);
    ghost var c := 0;
    while border != []
      invariant levels[t.infiniteFace] == 0
      invariant FreeEdgesAgree(t, levels[..])
      invariant Draining(t, levels[..], border, c)
      decreases CountUnclassified(levels[..]), |border|
    {
      var e := border[0];
      ghost var L := levels[..];
      var n := t.Neighbor(e.face, e.index);
      if levels[n] == Unclassified {
        var border' := MarkDomainsFrom(t, levels, n, levels[e.face] + 1, border[1..]);
        assert L[n] != levels[..][n];
        CountUnclassifiedShrinks(L, levels[..]);
        DrainFlood(t, L, levels[..], border, border', c);
        border := border';
      } else {
        DrainSkip(t, L, border, c);
        border := border[1..];
      }
      c := L[e.face];
    }
    LocalToCrossingDistance(t, levels[..], c);
  }

  /**
   * `levels` gives every face the fewest constrained edges a walk from the
   * infinite face crosses to reach it, and leaves unclassified exactly the
   * faces no walk from the infinite face reaches.
   */
  ghost predicate CrossingDistance(t: Triangulation, levels: seq<int>)
    requires t.WellShaped() && |levels| == |t.faces|
  {
    forall f :: 0 <= f < |levels| ==>
      if levels[f] == Unclassified then
        forall c :: !Reaches(t, t.infiniteFace, f, c)
      else
        Reaches(t, t.infiniteFace, f, levels[f]) && forall c :: Reaches(t, t.infiniteFace, f, c) ==> levels[f] <= c
  }

  /** Along any walk from a classified face, levels stay classified and grow by at most the constraints crossed. */
  lemma {:induction false} WalkCostBoundsLevel(t: Triangulation, levels: seq<int>, p: seq<nat>, idx: seq<nat>)
    requires t.WellShaped() && |levels| == |t.faces|
    requires FreeEdgesAgree(t, levels) && ConstrainedStep(t, levels, [])
    requires Steps(t, p, idx) && levels[p[0]] != Unclassified
    ensures levels[p[|p| - 1]] != Unclassified && levels[p[|p| - 1]] <= levels[p[0]] + Cost(t, p, idx)
    decreases |idx|
  {
    if idx != [] {
      var m := |idx| - 1;
      assert Steps(t, p[..m + 1], idx[..m]);
      WalkCostBoundsLevel(t, levels, p[..m + 1], idx[..m]);
      assert t.Neighbor(p[m], idx[m]) == p[m + 1];
    }
  }

  /** The local facts the drain loop ends with make the levels crossing distances. */
  lemma LocalToCrossingDistance(t: Triangulation, levels: seq<int>, c: int)
    requires t.Valid() && |levels| == |t.faces| && levels[t.infiniteFace] == 0
    requires FreeEdgesAgree(t, levels) && Draining(t, levels, [], c)
    ensures CrossingDistance(t, levels)
  {
    forall f, d | 0 <= f < |levels| && Reaches(t, t.infiniteFace, f, d)
      ensures levels[f] != Unclassified && levels[f] <= d
    {
      var p, idx :| Steps(t, p, idx) && p[0] == t.infiniteFace && p[|p| - 1] == f && Cost(t, p, idx) == d;
      WalkCostBoundsLevel(t, levels, p, idx);
    }
  }

  /** Crossing distances are unique: the classification `mark_domains` computes is determined by the triangulation. */
  lemma CrossingDistanceUnique(t: Triangulation, a: seq<int>, b: seq<int>)
    requires t.WellShaped() && |a| == |t.faces| && |b| == |t.faces|
    requires CrossingDistance(t, a) && CrossingDistance(t, b)
    ensures a == b
  {
    forall f | 0 <= f < |a|
      ensures a[f] == b[f]
    {
      if a[f] != Unclassified {
        assert Reaches(t, t.infiniteFace, f, a[f]);
      }
      if b[f] != Unclassified {
        assert Reaches(t, t.infiniteFace, f, b[f]);
      }
    }
  }

  /** Faces the infinite face reaches without crossing a constraint are at level 0, outside the domain. */
  lemma FreeFromInfiniteIsOutside(t: Triangulation, levels: seq<int>, f: nat)
    requires t.WellShaped() && |levels| == |t.faces| && f < |levels|
    requires CrossingDistance(t, levels) && Reaches(t, t.infiniteFace, f, 0)
    ensures levels[f] == 0 && !InDomain(levels[f])
  {
    assert levels[f] != Unclassified;
  }

  /**
   * A face that every walk from the infinite face reaches across at least
   * one constraint, and some walk across exactly one, is at level 1 and in
   * the domain: the interior of a simple polygon.
   */
  lemma OneCrossingIsInside(t: Triangulation, levels: seq<int>, f: nat)
    requires t.WellShaped() && |levels| == |t.faces| && f < |levels|
    requires CrossingDistance(t, levels) && Reaches(t, t.infiniteFace, f, 1) && !Reaches(t, t.infiniteFace, f, 0)
    ensures levels[f] == 1 && InDomain(levels[f])
  {
    assert levels[f] != Unclassified;
  }

  function TriangleOf(t: Triangulation, f: nat): Triangle
    requires t.WellShaped() && f < |t.faces|
  {
    var v := t.faces[f].vertex;
    Triangle(v[0], v[1], v[2])
  }

  /** The finite faces among the first `k` with an odd level, in face order, as their three vertices. */
  function InteriorTriangles(t: Triangulation, levels: seq<int>, k: nat): seq<Triangle>
    requires t.WellShaped() && |levels| == |t.faces| && k <= |levels|
  {
    if k == 0 then
      []
    else
      var last := if !t.faces[k - 1].infinite && InDomain(levels[k - 1]) then [TriangleOf(t, k - 1)] else [];
      InteriorTriangles(t, levels, k - 1) + last
  }

  /** A triangle is emitted exactly when it is the triangle of a finite face with an odd level. */
  lemma {:induction false} InteriorTrianglesMembers(t: Triangulation, levels: seq<int>, k: nat, tri: Triangle)
    requires t.WellShaped() && |levels| == |t.faces| && k <= |levels|
    ensures tri in InteriorTriangles(t, levels, k) <==>
      exists f :: 0 <= f < k && !t.faces[f].infinite && InDomain(levels[f]) && TriangleOf(t, f) == tri
  {
    if k > 0 {
      InteriorTrianglesMembers(t, levels, k - 1, tri);
    }
  }

  /** Each emitted triangle comes from a distinct face: the output has one entry per interior face. */
  lemma {:induction false} InteriorTrianglesCount(t: Triangulation, levels: seq<int>, k: nat)
    requires t.WellShaped() && |levels| == |t.faces| && k <= |levels|
    ensures |InteriorTriangles(t, levels, k)| == |set f | 0 <= f < k && !t.faces[f].infinite && InDomain(levels[f])|
  {
    var s := set f | 0 <= f < k && !t.faces[f].infinite && InDomain(levels[f]);
    if k > 0 {
      InteriorTrianglesCount(t, levels, k - 1);
      var s' := set f | 0 <= f < k - 1 && !t.faces[f].infinite && InDomain(levels[f]);
      if !t.faces[k - 1].infinite && InDomain(levels[k - 1]) {
        assert s == s' + {k - 1};
      } else {
        assert s == s';
      }
    } else {
      assert s == {};
    }
  }

  /** The face-filtering loop of `delaunay`: visit the finite faces in order and keep the in-domain ones. */
  method ExtractInterior(t: Triangulation, levels: array<int>) returns (list: seq<Triangle>)
    requires t.WellShaped() && levels.Length == |t.faces|
    ensures list == InteriorTriangles(t, levels[..], levels.Length)
  {
    list := [];
    for f := 0 to levels.Length
      invariant list == InteriorTriangles(t, levels[..], f)
    {
      if !t.faces[f].infinite && InDomain(levels[f]) {
        list := list + [TriangleOf(t, f)];
      }
    }
  }

  /** What `delaunay` asks of the kernel: the polygon's points in input order, inserted as one closed constraint. */
  datatype ConstraintRequest = ClosedPolyline(points: seq<Point2>)

  /**
   * `delaunay`: have the kernel build the constrained triangulation of the
   * closed polygon, classify its faces by nesting level, and return the
   * triangles of the finite faces at an odd level.
   */
  method Delaunay(polygon: seq<Point2>, kernel: ConstraintRequest -> Triangulation) returns (list: seq<Triangle>)
    requires kernel(ClosedPolyline(polygon)).Valid()
    ensures var cdt := kernel(ClosedPolyline(polygon));
      exists levels: seq<int> :: |levels| == |cdt.faces| && CrossingDistance(cdt, levels) &&
        list == InteriorTriangles(cdt, levels, |levels|)
  {
    var cdt := kernel(ClosedPolyline(polygon));
    var info := new int[|cdt.faces|];
    MarkDomains(cdt, info);
    list := ExtractInterior(cdt, info);
    assert |info[..]| == |cdt.faces| && CrossingDistance(cdt, info[..]);
  }

  /** `union_`: the corefinement outcome is returned, or the error it is reported with. */
  function Union<M>(a: M, b: M, corefine: (M, M) -> (bool, M)): (r: Result<M, string>)
    ensures r.Failure? <==> !corefine(a, b).0
    ensures r.Failure? ==> r.error == "union could not be computed"
    ensures r.Success? ==> r.value == corefine(a, b).1
  {
    var (valid, out) := corefine(a, b);
    if !valid then Failure("union could not be computed") else Success(out)
  }
}
