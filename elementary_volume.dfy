/**
 * Mesh bookkeeping of the elementary-volume builder
 * (elementary_volume/__init__.py).  Coordinates are opaque keys compared
 * only for equality: the formatted "x y z" strings that `to_obj`/`to_vtk`
 * use as dictionary keys, or the coordinate tuples of triangle rings.
 */
module ElementaryVolume {
  import opened Wrappers
  import opened Sequences

  /**
   * The distinct elements of `s` in the order in which they are first seen:
   * the order in which the source's `node_map` receives its keys.
   */
  function Dedup<K(==,!new)>(s: seq<K>): seq<K>
  {
    if |s| == 0 then []
    else
      var p := Dedup(s[..|s| - 1]);
      if s[|s| - 1] in p then p else p + [s[|s| - 1]]
  }

  /** Each element of the input exactly once, and nothing else. */
  lemma {:induction false} DedupMeaning<K(!new)>(s: seq<K>)
    ensures NoDup(Dedup(s)) && |Dedup(s)| <= |s|
    ensures forall x :: x in Dedup(s) <==> x in s
  {
    if |s| > 0 {
      var p := s[..|s| - 1];
      DedupMeaning(p);
      assert s == p + [s[|s| - 1]];
    }
  }

  /**
   * First-seen order: the numbering of a prefix of the input is never
   * revised by what comes later.
   */
  lemma {:induction false} DedupPrefix<K(!new)>(s: seq<K>, i: nat)
    requires i <= |s|
    ensures Dedup(s[..i]) <= Dedup(s)
    decreases |s| - i
  {
    if i < |s| {
      DedupPrefix(s, i + 1);
      assert s[..i + 1][..i] == s[..i];
    } else {
      assert s[..i] == s;
    }
  }

  /** `nodeMap` numbers the keys of `nodes` consecutively from `first`, in order. */
  ghost predicate Numbering<K(!new)>(nodes: seq<K>, nodeMap: map<K, int>, first: int)
  {
    (forall k :: k in nodeMap <==> k in nodes) &&
    forall m :: 0 <= m < |nodes| ==> nodes[m] in nodeMap && nodeMap[nodes[m]] == first + m
  }

  /** `line` gives, for each key of `group`, its number in `nodes` (counted from `first`). */
  ghost predicate Numbers<K>(line: seq<int>, group: seq<K>, nodes: seq<K>, first: int)
  {
    |line| == |group| &&
    forall b :: 0 <= b < |line| ==> first <= line[b] < first + |nodes| && nodes[line[b] - first] == group[b]
  }

  /** Numbers already handed out stay valid when later keys are appended. */
  lemma NumbersGrow<K>(line: seq<int>, group: seq<K>, nodes: seq<K>, nodes': seq<K>, first: int)
    requires Numbers(line, group, nodes, first) && nodes <= nodes'
    ensures Numbers(line, group, nodes', first)
  {
    forall b | 0 <= b < |line|
      ensures nodes'[line[b] - first] == group[b]
    {
      assert nodes'[..|nodes|] == nodes;
    }
  }

  lemma AllNumbersGrow<K>(elem: seq<seq<int>>, groups: seq<seq<K>>, nodes: seq<K>, nodes': seq<K>, first: int)
    requires |elem| <= |groups| && nodes <= nodes'
    requires forall a :: 0 <= a < |elem| ==> Numbers(elem[a], groups[a], nodes, first)
    ensures forall a :: 0 <= a < |elem| ==> Numbers(elem[a], groups[a], nodes', first)
  {
    forall a | 0 <= a < |elem|
      ensures Numbers(elem[a], groups[a], nodes', first)
    {
      NumbersGrow(elem[a], groups[a], nodes, nodes', first);
    }
  }

  lemma DedupSnoc<K(!new)>(s: seq<K>, x: K)
    ensures Dedup(s + [x]) == if x in Dedup(s) then Dedup(s) else Dedup(s) + [x]
  {
    assert (s + [x])[..|s|] == s;
  }

  /** A fresh key gets the next number. */
  lemma NumberingAdd<K(!new)>(nodes: seq<K>, nodeMap: map<K, int>, first: int, x: K)
    requires Numbering(nodes, nodeMap, first) && x !in nodeMap
    ensures Numbering(nodes + [x], nodeMap[x := first + |nodes|], first)
  {
  }

  /** A known key's number points back at it. */
  lemma NumberingLookup<K(!new)>(nodes: seq<K>, nodeMap: map<K, int>, first: int, x: K)
    requires Numbering(nodes, nodeMap, first) && x in nodeMap
    ensures first <= nodeMap[x] < first + |nodes| && nodes[nodeMap[x] - first] == x
  {
    var m :| 0 <= m < |nodes| && nodes[m] == x;
  }

  lemma NumbersSnoc<K>(line: seq<int>, group: seq<K>, nodes: seq<K>, first: int, v: int, x: K)
    requires Numbers(line, group, nodes, first)
    requires first <= v < first + |nodes| && nodes[v - first] == x
    ensures Numbers(line + [v], group + [x], nodes, first)
  {
  }

  /**
   * One coordinate of the numbering: a key not yet in `nodeMap` is appended
   * to `nodes` with the counter's value, and the counter moves on; a known
   * key keeps its number.  `v` is the number written for the key.
   */
  method NumberKey<K(==,!new)>(sc: K, nodes: seq<K>, nodeMap: map<K, int>, n: int, ghost first: int)
    returns (nodes': seq<K>, nodeMap': map<K, int>, n': int, v: int)
    requires Numbering(nodes, nodeMap, first) && n == first + |nodes|
    ensures nodes' == if sc in nodes then nodes else nodes + [sc]
    ensures Numbering(nodes', nodeMap', first) && n' == first + |nodes'|
    ensures first <= v < first + |nodes'| && nodes'[v - first] == sc
  {
    if sc !in nodeMap {
      NumberingAdd(nodes, nodeMap, first, sc);
      nodes', nodeMap', n', v := nodes + [sc], nodeMap[sc := n], n + 1, n;
    } else {
      NumberingLookup(nodes, nodeMap, first, sc);
      nodes', nodeMap', n', v := nodes, nodeMap, n, nodeMap[sc];
    }
  }

  /** One more key of the group: it is kept when it is new. */
  lemma DedupStep<K(!new)>(before: seq<K>, group: seq<K>, j: int)
    requires 0 <= j < |group|
    ensures group[..j + 1] == group[..j] + [group[j]]
    ensures Dedup(before + group[..j + 1]) ==
      var d := Dedup(before + group[..j]);
      if group[j] in d then d else d + [group[j]]
  {
    assert group[..j + 1] == group[..j] + [group[j]];
    assert before + group[..j + 1] == before + group[..j] + [group[j]];
    DedupSnoc(before + group[..j], group[j]);
  }

  /** The inner loop of the numbering: the keys of one group, in order. */
  method NumberGroup<K(==,!new)>(group: seq<K>, first: int, ghost before: seq<K>,
                                 nodes0: seq<K>, nodeMap0: map<K, int>, n0: int)
    returns (nodes: seq<K>, nodeMap: map<K, int>, n: int, line: seq<int>)
    requires nodes0 == Dedup(before) && Numbering(nodes0, nodeMap0, first) && n0 == first + |nodes0|
    ensures nodes == Dedup(before + group) && Numbering(nodes, nodeMap, first) && n == first + |nodes|
    ensures nodes0 <= nodes
    ensures Numbers(line, group, nodes, first)
  {
    nodes, nodeMap, n, line := nodes0, nodeMap0, n0, [];
    assert before + group[..0] == before;
    for j := 0 to |group|
      invariant NumberedUpTo(before, group, j, first, nodes0, nodes, nodeMap, n, line)
    {
      nodes, nodeMap, n, line := NumberGroupKey(before, group, j, first, nodes0, nodes, nodeMap, n, line);
    }
    assert group[..|group|] == group;
  }

  /** The keys of `group` before `j` are numbered, on top of those of `before`. */
  ghost predicate NumberedUpTo<K(!new)>(before: seq<K>, group: seq<K>, j: int, first: int,
                                       nodes0: seq<K>, nodes: seq<K>, nodeMap: map<K, int>, n: int, line: seq<int>)
  {
    0 <= j <= |group| &&
    nodes == Dedup(before + group[..j]) && n == first + |nodes| &&
    Numbering(nodes, nodeMap, first) && nodes0 <= nodes &&
    Numbers(line, group[..j], nodes, first)
  }

  /** One turn of the inner loop: key `j` of the group numbered. */
  method NumberGroupKey<K(==,!new)>(ghost before: seq<K>, group: seq<K>, j: int, first: int, ghost nodes0: seq<K>,
                                    nodes: seq<K>, nodeMap: map<K, int>, n: int, line: seq<int>)
    returns (nodes': seq<K>, nodeMap': map<K, int>, n': int, line': seq<int>)
    requires j < |group| && NumberedUpTo(before, group, j, first, nodes0, nodes, nodeMap, n, line)
    ensures NumberedUpTo(before, group, j + 1, first, nodes0, nodes', nodeMap', n', line')
  {
    var sc := group[j];
    DedupStep(before, group, j);
    var v;
    nodes', nodeMap', n', v := NumberKey(sc, nodes, nodeMap, n, first);
    NumbersGrow(line, group[..j], nodes, nodes', first);
    NumbersSnoc(line, group[..j], nodes', first, v, sc);
    line' := line + [v];
  }

  /**
   * The numbering loop shared by `to_vtk` (numbers from 0) and `to_obj`
   * (numbers from 1): each key gets the next number when first seen and
   * keeps it; `elem` holds, group by group, the number of every key.
   */
  method NumberNodes<K(==,!new)>(groups: seq<seq<K>>, first: int)
    returns (nodes: seq<K>, nodeMap: map<K, int>, elem: seq<seq<int>>)
    ensures nodes == Dedup(Flatten(groups)) && Numbering(nodes, nodeMap, first)
    ensures |elem| == |groups| && forall i :: 0 <= i < |groups| ==> Numbers(elem[i], groups[i], nodes, first)
  {
    nodes, nodeMap, elem := [], map[], [];
    var n := first;
    for i := 0 to |groups|
      invariant GroupsNumberedUpTo(groups, i, first, nodes, nodeMap, n, elem)
    {
      nodes, nodeMap, n, elem := NumberNextGroup(groups, i, first, nodes, nodeMap, n, elem);
    }
    assert groups[..|groups|] == groups;
  }

  /** The groups before `i` are numbered, one line each. */
  ghost predicate GroupsNumberedUpTo<K(!new)>(groups: seq<seq<K>>, i: int, first: int,
                                             nodes: seq<K>, nodeMap: map<K, int>, n: int, elem: seq<seq<int>>)
  {
    0 <= i <= |groups| &&
    nodes == Dedup(Flatten(groups[..i])) && Numbering(nodes, nodeMap, first) && n == first + |nodes| &&
    |elem| == i && forall a :: 0 <= a < i ==> Numbers(elem[a], groups[a], nodes, first)
  }

  /** One turn of the outer loop: group `i` numbered and its line appended. */
  method NumberNextGroup<K(==,!new)>(groups: seq<seq<K>>, i: int, first: int,
                                     nodes: seq<K>, nodeMap: map<K, int>, n: int, elem: seq<seq<int>>)
    returns (nodes': seq<K>, nodeMap': map<K, int>, n': int, elem': seq<seq<int>>)
    requires i < |groups| && GroupsNumberedUpTo(groups, i, first, nodes, nodeMap, n, elem)
    ensures GroupsNumberedUpTo(groups, i + 1, first, nodes', nodeMap', n', elem')
  {
    assert groups[..i + 1][..i] == groups[..i];
    var line;
    nodes', nodeMap', n', line := NumberGroup(groups[i], first, Flatten(groups[..i]), nodes, nodeMap, n);
    AllNumbersGrow(elem, groups, nodes, nodes', first);
    elem' := elem + [line];
  }

  /** All but the closing coordinate of a ring, as `coords[:-1]`. */
  function DropLast<K>(s: seq<K>): seq<K>
  {
    if |s| == 0 then [] else s[..|s| - 1]
  }

  /** One line of a Wavefront OBJ file: `v <coord>` or `f <i> <j> ...`. */
  datatype ObjLine<K> = Vertex(coord: K) | Facet(indices: seq<int>)

  /** The exterior rings without their closing coordinate. */
  function OpenRings<K>(polys: seq<seq<K>>): (r: seq<seq<K>>)
    ensures |r| == |polys| && forall i :: 0 <= i < |polys| ==> r[i] == DropLast(polys[i])
  {
    seq(|polys|, i requires 0 <= i < |polys| => DropLast(polys[i]))
  }

  /** One `f` line per index list. */
  function Facets<K>(elem: seq<seq<int>>): (r: seq<ObjLine<K>>)
  {
    seq(|elem|, i requires 0 <= i < |elem| => Facet(elem[i]))
  }

  /** An `f` line naming, 1-based, the `v` line of each coordinate of `ring`. */
  ghost predicate FacetOf<K>(line: ObjLine<K>, ring: seq<K>, nodes: seq<K>)
  {
    line.Facet? && Numbers(line.indices, ring, nodes, 1)
  }

  /** The closing loop of `to_obj`: one `f` line per polygon after the `v` lines. */
  method AppendFacets<K>(vertices: seq<ObjLine<K>>, elem: seq<seq<int>>) returns (res: seq<ObjLine<K>>)
    ensures res == vertices + Facets(elem)
  {
    res := vertices;
    for i := 0 to |elem|
      invariant res == vertices + Facets(elem[..i])
    {
      assert Facets<K>(elem[..i + 1]) == Facets<K>(elem[..i]) + [Facet(elem[i])];
      res := res + [Facet(elem[i])];
    }
    assert elem[..|elem|] == elem;
  }

  lemma FacetsNumbered<K>(nodes: seq<K>, elem: seq<seq<int>>, rings: seq<seq<K>>)
    requires |elem| == |rings| && forall i :: 0 <= i < |rings| ==> Numbers(elem[i], rings[i], nodes, 1)
    ensures var res := seq(|nodes|, i requires 0 <= i < |nodes| => Vertex(nodes[i])) + Facets(elem);
      forall i :: 0 <= i < |rings| ==> FacetOf(res[|nodes| + i], rings[i], nodes)
  {
  }

  /**
   * `to_obj`: each polygon is given by its closed exterior ring.  `None`
   * gives the empty output; otherwise one `v` line per distinct
   * coordinate in first-seen order, then one `f` line per polygon whose
   * 1-based indices name the `v` line of each of its coordinates but the
   * closing one.
   */
  method ToObj<K(==,!new)>(multipoly: Option<seq<seq<K>>>) returns (res: seq<ObjLine<K>>)
    ensures multipoly.None? ==> res == []
    ensures multipoly.Some? ==>
      var rings := OpenRings(multipoly.value);
      var nodes := Dedup(Flatten(rings));
      |res| == |nodes| + |rings| &&
      (forall i :: 0 <= i < |nodes| ==> res[i] == Vertex(nodes[i])) &&
      forall i :: 0 <= i < |rings| ==> FacetOf(res[|nodes| + i], rings[i], nodes)
  {
    if multipoly.None? {
      return [];
    }
    var rings := OpenRings(multipoly.value);
    var nodes, nodeMap, elem := NumberNodes(rings, 1);
    var vertices := seq(|nodes|, i requires 0 <= i < |nodes| => Vertex(nodes[i]));
    res := AppendFacets(vertices, elem);
    FacetsNumbered(nodes, elem, rings);
  }

  /** One cell of a legacy VTK `LINES` section: its size, then its point numbers. */
  datatype VtkCell = VtkCell(size: int, ids: seq<int>)

  /** A legacy-VTK polydata document: `POINTS`, then `LINES n total` and the cells. */
  datatype VtkDoc<K> = VtkDoc(points: seq<K>, lineCount: int, indexCount: int, cells: seq<VtkCell>)

  /** The number of integers in a `LINES` section: every cell's size and ids. */
  function CellIntegers<K>(lines: seq<seq<K>>): (c: int)
  {
    if |lines| == 0 then 0 else CellIntegers(lines[..|lines| - 1]) + |lines[|lines| - 1]| + 1
  }

  lemma {:induction false} CellIntegersCount<K>(lines: seq<seq<K>>)
    ensures CellIntegers(lines) == |Flatten(lines)| + |lines|
  {
    if |lines| > 0 {
      CellIntegersCount(lines[..|lines| - 1]);
    }
  }

  /**
   * `to_vtk`: `None` gives the empty output; otherwise one point per
   * distinct coordinate numbered from 0 in first-seen order, a `LINES`
   * header counting the polylines and all the integers that follow, and
   * one cell per polyline: its size, then the number of each coordinate.
   */
  method ToVtk<K(==,!new)>(multiline: Option<seq<seq<K>>>) returns (res: Option<VtkDoc<K>>)
    ensures multiline.None? <==> res.None?
    ensures multiline.Some? ==>
      var lines := multiline.value;
      var doc := res.value;
      doc.points == Dedup(Flatten(lines)) &&
      doc.lineCount == |lines| && doc.indexCount == |Flatten(lines)| + |lines| &&
      |doc.cells| == |lines| &&
      forall i :: 0 <= i < |lines| ==>
        doc.cells[i].size == |lines[i]| && Numbers(doc.cells[i].ids, lines[i], doc.points, 0)
  {
    if multiline.None? {
      return None;
    }
    var lines := multiline.value;
    var nodes, nodeMap, elem := NumberNodes(lines, 0);
    var cells: seq<VtkCell> := [];
    for i := 0 to |elem|
      invariant |cells| == i
      invariant forall m :: 0 <= m < i ==> cells[m] == VtkCell(|elem[m]|, elem[m])
    {
      cells := cells + [VtkCell(|elem[i]|, elem[i])];
    }
    CellIntegersCount(lines);
    return Some(VtkDoc(nodes, |lines|, CellIntegers(lines), cells));
  }

  // ---------------------------------------------------------------- segments

  /** The consecutive pairs of a point list, as `zip(points[:-1], points[1:])`. */
  function SegmentsOf<P>(points: seq<P>): seq<(P, P)>
  {
    if |points| < 2 then [] else seq(|points| - 1, i requires 0 <= i < |points| - 1 => (points[i], points[i + 1]))
  }

  function Swap<P>(s: (P, P)): (P, P)
  {
    (s.1, s.0)
  }

  datatype Side = Vertical | Top | Bottom

  /** A polyline of a face, with the side of the face it lies on. */
  datatype Line<P> = Line(points: seq<P>, side: Side)

  /** `Line.has_segment`: the scan over consecutive pairs, either direction matching. */
  predicate HasSegment<P(==)>(points: seq<P>, segment: (P, P))
    decreases |points|
  {
    if |points| < 2 then false
    else
      (points[0], points[1]) == segment || (points[1], points[0]) == segment ||
      HasSegment(points[1..], segment)
  }

  /** `has_segment` holds exactly when the segment, or its reverse, is a consecutive pair. */
  lemma {:induction false} HasSegmentMeaning<P>(points: seq<P>, segment: (P, P))
    ensures HasSegment(points, segment) <==>
      segment in SegmentsOf(points) || Swap(segment) in SegmentsOf(points)
    decreases |points|
  {
    if |points| >= 2 {
      HasSegmentMeaning(points[1..], segment);
      var tail := SegmentsOf(points[1..]);
      assert SegmentsOf(points) == [(points[0], points[1])] + tail;
    }
  }

  /** Orientation does not matter. */
  lemma HasSegmentSymmetric<P>(points: seq<P>, segment: (P, P))
    ensures HasSegment(points, segment) == HasSegment(points, Swap(segment))
  {
    HasSegmentMeaning(points, segment);
    HasSegmentMeaning(points, Swap(segment));
    assert Swap(Swap(segment)) == segment;
  }

  /** `is_segment`: some line has the segment. */
  predicate IsSegment<P(==)>(segment: (P, P), lines: seq<Line<P>>)
  {
    if |lines| == 0 then false
    else HasSegment(lines[0].points, segment) || IsSegment(segment, lines[1..])
  }

  lemma {:induction false} IsSegmentMeaning<P>(segment: (P, P), lines: seq<Line<P>>)
    ensures IsSegment(segment, lines) <==>
      exists i :: 0 <= i < |lines| && HasSegment(lines[i].points, segment)
  {
    if |lines| > 0 {
      IsSegmentMeaning(segment, lines[1..]);
      if !HasSegment(lines[0].points, segment) && IsSegment(segment, lines) {
        var i :| 0 <= i < |lines| - 1 && HasSegment(lines[1..][i].points, segment);
        assert HasSegment(lines[i + 1].points, segment);
      }
      if exists i :: 0 <= i < |lines| && HasSegment(lines[i].points, segment) {
        var i :| 0 <= i < |lines| && HasSegment(lines[i].points, segment);
        if i > 0 {
          assert HasSegment(lines[1..][i - 1].points, segment);
        }
      }
    }
  }

  // --------------------------------------------------------------- linemerge

  /** The consecutive pairs of every chain, chain after chain. */
  function AllSegments<P>(chains: seq<seq<P>>): seq<(P, P)>
  {
    if |chains| == 0 then [] else AllSegments(chains[..|chains| - 1]) + SegmentsOf(chains[|chains| - 1])
  }

  lemma SegmentsAppend<P>(chain: seq<P>, x: P)
    requires |chain| >= 1
    ensures SegmentsOf(chain + [x]) == SegmentsOf(chain) + [(chain[|chain| - 1], x)]
  {
    var l, r := SegmentsOf(chain + [x]), SegmentsOf(chain) + [(chain[|chain| - 1], x)];
    assert |l| == |r|;
    forall k | 0 <= k < |l|
      ensures l[k] == r[k]
    {
    }
  }

  lemma SegmentsPrepend<P>(x: P, chain: seq<P>)
    requires |chain| >= 1
    ensures SegmentsOf([x] + chain) == [(x, chain[0])] + SegmentsOf(chain)
  {
    var l, r := SegmentsOf([x] + chain), [(x, chain[0])] + SegmentsOf(chain);
    assert |l| == |r|;
    forall k | 0 <= k < |l|
      ensures l[k] == r[k]
    {
    }
  }

  /** Replacing the last chain changes only its own contribution. */
  lemma AllSegmentsLast<P>(chains: seq<seq<P>>, c: seq<P>)
    requires |chains| >= 1
    ensures AllSegments(chains[..|chains| - 1] + [c]) ==
      AllSegments(chains[..|chains| - 1]) + SegmentsOf(c)
  {
    assert (chains[..|chains| - 1] + [c])[..|chains| - 1] == chains[..|chains| - 1];
  }

  /** Every chain has at least two points. */
  predicate Chains<P>(merged: seq<seq<P>>)
  {
    forall k :: 0 <= k < |merged| ==> |merged[k]| >= 2
  }

  /** Segment `b` continues `chain` at its tail (its start is the tail) or at its head (its end is the head). */
  predicate Continues<P(==)>(chain: seq<P>, b: (P, P))
    requires |chain| >= 1
  {
    chain[|chain| - 1] == b.0 || chain[0] == b.1
  }

  /** The chain extended by a segment that continues it, the tail taking precedence. */
  function Extend<P(==)>(chain: seq<P>, b: (P, P)): seq<P>
    requires |chain| >= 1
  {
    if chain[|chain| - 1] == b.0 then chain + [b.1] else [b.0] + chain
  }

  /** `j` is the first position of `lines` holding a segment that continues `chain`. */
  predicate FirstContinuing<P(==)>(chain: seq<P>, lines: seq<(P, P)>, j: int)
    requires |chain| >= 1
  {
    0 <= j < |lines| && Continues(chain, lines[j]) && forall k :: 0 <= k < j ==> !Continues(chain, lines[k])
  }

  /** Extending the last chain adds exactly the consumed segment to the chains' segments. */
  lemma ExtendAddsSegment<P>(merged: seq<seq<P>>, b: (P, P))
    requires |merged| >= 1 && |merged[|merged| - 1]| >= 1 && Continues(merged[|merged| - 1], b)
    ensures multiset(AllSegments(merged[..|merged| - 1] + [Extend(merged[|merged| - 1], b)])) ==
      multiset(AllSegments(merged)) + multiset{b}
  {
    var rest, chain := merged[..|merged| - 1], merged[|merged| - 1];
    var extended := Extend(chain, b);
    AllSegmentsLast(merged, extended);
    AllSegmentsLast(merged, chain);
    assert rest + [chain] == merged;
    ExtendSegments(chain, b);
  }

  /** Extending a chain adds exactly the continuing segment to its own segments. */
  lemma ExtendSegments<P>(chain: seq<P>, b: (P, P))
    requires |chain| >= 1 && Continues(chain, b)
    ensures multiset(SegmentsOf(Extend(chain, b))) == multiset(SegmentsOf(chain)) + multiset{b}
  {
    if chain[|chain| - 1] == b.0 {
      SegmentsAppend(chain, b.1);
    } else {
      SegmentsPrepend(b.0, chain);
    }
  }

  /** Moving the `j`-th segment onto the last chain keeps every segment accounted for. */
  lemma ExtendKeepsSegments<P>(merged: seq<seq<P>>, lines: seq<(P, P)>, j: int)
    requires |merged| >= 1 && Chains(merged)
    requires FirstContinuing(merged[|merged| - 1], lines, j)
    ensures var merged' := merged[..|merged| - 1] + [Extend(merged[|merged| - 1], lines[j])];
      Chains(merged') &&
      multiset(AllSegments(merged')) + multiset(lines[..j] + lines[j + 1..]) ==
      multiset(AllSegments(merged)) + multiset(lines)
  {
    var merged' := merged[..|merged| - 1] + [Extend(merged[|merged| - 1], lines[j])];
    forall k | 0 <= k < |merged'|
      ensures |merged'[k]| >= 2
    {
      if k < |merged| - 1 {
        assert merged'[k] == merged[k];
      }
    }
    ExtendAddsSegment(merged, lines[j]);
    RemoveAt(lines, j);
  }

  lemma RemoveAt<T>(s: seq<T>, j: int)
    requires 0 <= j < |s|
    ensures multiset(s) == multiset(s[..j] + s[j + 1..]) + multiset{s[j]}
  {
    assert s == s[..j] + [s[j]] + s[j + 1..];
  }

  /** Moving the last segment into a chain of its own keeps every segment accounted for. */
  lemma StartKeepsSegments<P>(merged: seq<seq<P>>, lines: seq<(P, P)>)
    requires |lines| >= 1 && Chains(merged)
    ensures var last := lines[|lines| - 1];
      Chains(merged + [[last.0, last.1]]) &&
      multiset(AllSegments(merged + [[last.0, last.1]])) + multiset(lines[..|lines| - 1]) ==
      multiset(AllSegments(merged)) + multiset(lines)
  {
    var last := lines[|lines| - 1];
    assert lines == lines[..|lines| - 1] + [last];
    assert (merged + [[last.0, last.1]])[..|merged|] == merged;
    assert SegmentsOf([last.0, last.1]) == [last];
  }

  /**
   * One pass of the scan over the remaining segments: the first one that
   * continues the last chain extends it and is deleted from the list.
   */
  method ExtendLast<P(==)>(merged: seq<seq<P>>, lines: seq<(P, P)>)
    returns (merged': seq<seq<P>>, lines': seq<(P, P)>, handled: bool, j: nat)
    requires |merged| >= 1 && |merged[|merged| - 1]| >= 1
    ensures !handled ==>
      merged' == merged && lines' == lines &&
      forall k :: 0 <= k < |lines| ==> !Continues(merged[|merged| - 1], lines[k])
    ensures handled ==>
      FirstContinuing(merged[|merged| - 1], lines, j) &&
      lines' == lines[..j] + lines[j + 1..] &&
      merged' == merged[..|merged| - 1] + [Extend(merged[|merged| - 1], lines[j])]
  {
    var chain := merged[|merged| - 1];
    merged', lines', handled := merged, lines, false;
    j := 0;
    while j < |lines|
      invariant 0 <= j <= |lines|
      invariant forall k :: 0 <= k < j ==> !Continues(chain, lines[k])
      invariant !handled && merged' == merged && lines' == lines
    {
      var b := lines[j];
      if chain[|chain| - 1] == b.0 {
        merged' := merged[..|merged| - 1] + [chain + [b.1]];
        handled := true;
      } else if chain[0] == b.1 {
        merged' := merged[..|merged| - 1] + [[b.0] + chain];
        handled := true;
      }
      if handled {
        lines' := lines[..j] + lines[j + 1..];
        assert FirstContinuing(chain, lines, j);
        return;
      }
      j := j + 1;
    }
  }

  /**
   * `linemerge`: the last segment starts a chain; then, while segments
   * remain, the first one continuing the last chain extends it, or, when
   * none does, the last remaining segment starts a new chain.  Every input
   * segment ends up as exactly one consecutive pair of exactly one chain,
   * and the input list is left empty.
   */
  method Linemerge<P(==)>(input: seq<(P, P)>) returns (merged: seq<seq<P>>, lines: seq<(P, P)>)
    ensures |input| == 0 ==> merged == []
    ensures lines == []
    ensures Chains(merged)
    ensures multiset(AllSegments(merged)) == multiset(input)
  {
    lines := input;
    merged := [];
    if |lines| > 0 {
      var last := lines[|lines| - 1];
      StartKeepsSegments(merged, lines);
      lines := lines[..|lines| - 1];
      merged := [[last.0, last.1]];
    }
    while |lines| > 0
      invariant |merged| >= 1 || |lines| == 0
      invariant Chains(merged)
      invariant multiset(AllSegments(merged)) + multiset(lines) == multiset(input)
      decreases |lines|
    {
      var merged', lines', handled, j := ExtendLast(merged, lines);
      if handled {
        ExtendKeepsSegments(merged, lines, j);
        merged, lines := merged', lines';
      } else {
        var last := lines[|lines| - 1];
        StartKeepsSegments(merged, lines);
        lines := lines[..|lines| - 1];
        merged := merged + [[last.0, last.1]];
      }
    }
  }

  // ------------------------------------------------------------ offset_coords

  /** `offset_coords`: every coordinate that is a key of `offsets` is replaced by its offset. */
  function OffsetCoords<P(==)>(offsets: map<P, P>, coords: seq<P>): (r: seq<P>)
    ensures |r| == |coords|
    ensures forall i :: 0 <= i < |coords| ==>
      r[i] == if coords[i] in offsets then offsets[coords[i]] else coords[i]
  {
    seq(|coords|, i requires 0 <= i < |coords| => if coords[i] in offsets then offsets[coords[i]] else coords[i])
  }

  function Reverse<P>(s: seq<P>): (r: seq<P>)
    ensures |r| == |s| && forall i :: 0 <= i < |s| ==> r[i] == s[|s| - 1 - i]
  {
    seq(|s|, i requires 0 <= i < |s| => s[|s| - 1 - i])
  }

  /**
   * Offsetting commutes with reversing a ring, as in the reversed,
   * offset copy of a termination triangle; coordinates without an offset
   * are kept, so an offset map disjoint from the ring leaves it unchanged.
   */
  lemma OffsetCoordsReverse<P>(offsets: map<P, P>, coords: seq<P>)
    ensures OffsetCoords(offsets, Reverse(coords)) == Reverse(OffsetCoords(offsets, coords))
    ensures (forall i :: 0 <= i < |coords| ==> coords[i] !in offsets) ==> OffsetCoords(offsets, coords) == coords
  {
  }

  // ------------------------------------------ pair_of_non_coplanar_neighbors

  /** `graph` is a default dictionary: a node without an entry has no neighbours. */
  function Neighbours<N>(graph: map<N, seq<N>>, n: N): seq<N>
  {
    if n in graph then graph[n] else []
  }

  /** The position in `rest` of the first node whose hole differs from that of `a`. */
  function FirstOtherHole<N, H(==)>(a: N, rest: seq<N>, holes: map<N, H>): (r: Option<nat>)
    requires a in holes && forall e :: e in rest ==> e in holes
    ensures r.None? <==> forall k :: 0 <= k < |rest| ==> holes[rest[k]] == holes[a]
    ensures r.Some? ==>
      r.value < |rest| && holes[rest[r.value]] != holes[a] &&
      forall m :: 0 <= m < r.value ==> holes[rest[m]] == holes[a]
  {
    if |rest| == 0 then None
    else if holes[rest[0]] != holes[a] then Some(0)
    else
      match FirstOtherHole(a, rest[1..], holes)
      case None => None
      case Some(k) => Some(k + 1)
  }

  /**
   * `pair_of_non_coplanar_neighbors`: with at least two neighbours, the
   * first neighbour paired with the first later one lying on another hole;
   * `None` when there is no such pair.
   */
  function PairOfNonCoplanarNeighbors<N, H(==)>(n: N, graph: map<N, seq<N>>, holes: map<N, H>): (r: Option<(N, N)>)
    requires forall e :: e in Neighbours(graph, n) ==> e in holes
    ensures var nb := Neighbours(graph, n);
      r.None? <==> |nb| < 2 || forall k :: 1 <= k < |nb| ==> holes[nb[k]] == holes[nb[0]]
    ensures var nb := Neighbours(graph, n);
      r.Some? ==>
        exists k :: 1 <= k < |nb| && r.value == (nb[0], nb[k]) && holes[nb[k]] != holes[nb[0]] &&
                    forall m :: 1 <= m < k ==> holes[nb[m]] == holes[nb[0]]
  {
    var nb := Neighbours(graph, n);
    if |nb| >= 2 then
      match FirstOtherHole(nb[0], nb[1..], holes)
      case Some(k) => Some((nb[0], nb[k + 1]))
      case None =>
        assert forall k :: 1 <= k < |nb| ==> nb[k] == nb[1..][k - 1];
        None
    else None
  }

  // -------------------------------------------------------- edge cancellation

  /** One step of the cancellation: the reverse edge is removed if present, else the edge is added. */
  function Toggle<P(==)>(edges: set<(P, P)>, s: (P, P)): set<(P, P)>
  {
    if Swap(s) in edges then edges - {Swap(s)} else edges + {s}
  }

  function Cancelled<P(==)>(ss: seq<(P, P)>): set<(P, P)>
  {
    if |ss| == 0 then {} else Toggle(Cancelled(ss[..|ss| - 1]), ss[|ss| - 1])
  }

  /**
   * When no directed edge occurs twice and none is a loop, the edges left
   * are exactly those whose reverse never occurs: the open edges.
   */
  lemma {:induction false} CancelledMeaning<P>(ss: seq<(P, P)>)
    requires NoDup(ss) && forall k :: 0 <= k < |ss| ==> ss[k].0 != ss[k].1
    ensures Cancelled(ss) == set x | x in ss && Swap(x) !in ss
  {
    if |ss| > 0 {
      var p := ss[..|ss| - 1];
      var x := ss[|ss| - 1];
      assert NoDup(p);
      CancelledMeaning(p);
      assert x !in p;
      assert Swap(x) != x;
      var expected := set y | y in ss && Swap(y) !in ss;
      forall y | y in Cancelled(ss)
        ensures y in expected
      {
        assert y in p + [x];
      }
      forall y | y in expected
        ensures y in Cancelled(ss)
      {
        assert y in p + [x];
        if y != x {
          assert Swap(y) != x by {
            assert Swap(Swap(y)) == y;
          }
        }
      }
    }
  }

  /** A closed surface, where every directed edge meets its reverse, leaves no open edge. */
  lemma ClosedLeavesNothing<P>(ss: seq<(P, P)>)
    requires NoDup(ss) && forall k :: 0 <= k < |ss| ==> ss[k].0 != ss[k].1
    requires forall k :: 0 <= k < |ss| ==> Swap(ss[k]) in ss
    ensures Cancelled(ss) == {}
  {
    CancelledMeaning(ss);
  }

  /** The directed edges of the rings, ring after ring. */
  lemma AllSegmentsStep<P>(rings: seq<seq<P>>, i: int)
    requires 0 <= i < |rings|
    ensures AllSegments(rings[..i + 1]) == AllSegments(rings[..i]) + SegmentsOf(rings[i])
  {
    assert rings[..i + 1][..i] == rings[..i];
  }

  /**
   * The open-edge loop: every directed edge of every closed ring toggles
   * the edge set.
   */
  method OpenEdges<P(==)>(rings: seq<seq<P>>) returns (edges: set<(P, P)>)
    ensures edges == Cancelled(AllSegments(rings))
  {
    edges := {};
    for i := 0 to |rings|
      invariant edges == Cancelled(AllSegments(rings[..i]))
    {
      AllSegmentsStep(rings, i);
      edges := ToggleRing(edges, rings[i], AllSegments(rings[..i]));
    }
    assert rings[..|rings|] == rings;
  }

  /** The inner loop: the directed edges of one closed ring, in order. */
  method ToggleRing<P(==)>(edges0: set<(P, P)>, ring: seq<P>, ghost before: seq<(P, P)>) returns (edges: set<(P, P)>)
    requires edges0 == Cancelled(before)
    ensures edges == Cancelled(before + SegmentsOf(ring))
  {
    edges := edges0;
    ghost var segs := SegmentsOf(ring);
    var j := 0;
    assert before + segs[..0] == before;
    while j + 1 < |ring|
      invariant 0 <= j && (j <= |segs|)
      invariant edges == Cancelled(before + segs[..j])
      decreases |ring| - j
    {
      var s, e := ring[j], ring[j + 1];
      assert (before + segs[..j + 1])[..|before| + j] == before + segs[..j];
      assert (before + segs[..j + 1])[|before| + j] == (s, e);
      if (e, s) in edges {
        edges := edges - {(e, s)};
      } else {
        edges := edges + {(s, e)};
      }
      j := j + 1;
    }
    assert segs[..j] == segs;
  }

  // ---------------------------------------------------- connected components

  /** Triangles `i` and `j` are linked by a directed edge of `i` whose reverse is an edge of `j`. */
  predicate Linked<P(==)>(rings: seq<seq<P>>, i: int, j: int)
  {
    0 <= i < |rings| && 0 <= j < |rings| &&
    exists s :: s in SegmentsOf(rings[i]) && Swap(s) in SegmentsOf(rings[j])
  }

  /** An adjacency map over `0 .. size-1` with its neighbours among its keys, symmetric. */
  predicate Symmetric(graph: map<nat, set<nat>>)
  {
    (forall a, b :: a in graph && b in graph[a] ==> b in graph && a in graph[b])
  }

  /** The adjacency has one entry per triangle, is symmetric, and links only triangles that share an edge. */
  ghost predicate LinkedGraph<P>(rings: seq<seq<P>>, graph: map<nat, set<nat>>)
  {
    (forall k: nat :: k in graph <==> k < |rings|) &&
    Symmetric(graph) &&
    forall a, b :: a in graph && b in graph[a] ==> Linked(rings, a, b)
  }

  /** Every recorded directed edge belongs to the triangle it is recorded with, one before `bound`. */
  ghost predicate Recorded<P>(rings: seq<seq<P>>, edges: map<(P, P), nat>, bound: int)
  {
    forall s :: s in edges ==> edges[s] < bound && edges[s] < |rings| && s in SegmentsOf(rings[edges[s]])
  }

  /**
   * The adjacency built before the component split: each directed edge
   * seen for the first time is recorded with its triangle; a later
   * triangle carrying its reverse is linked to that one, both ways, and the
   * record is dropped.  When no directed edge repeats and none is a loop,
   * every two triangles sharing an edge in opposite directions are linked.
   */
  method TriangleGraph<P(==,!new)>(rings: seq<seq<P>>) returns (graph: map<nat, set<nat>>)
    ensures LinkedGraph(rings, graph)
    ensures NoRepeatedEdge(rings) ==> forall i: nat, j: nat :: Linked(rings, i, j) ==> i in graph && j in graph[i]
  {
    var edges: map<(P, P), nat> := map[];
    graph := map[];
    for i := 0 to |rings|
      invariant forall k: nat :: k in graph <==> k < i
      invariant forall k :: k in graph ==> graph[k] == {}
    {
      graph := graph[i := {}];
    }
    ghost var apart := NoRepeatedEdge(rings);
    if apart {
      NoRepeatedEdgeApart(rings);
    }
    ghost var done: set<(int, (P, P))> := {};
    for ip := 0 to |rings|
      invariant LinkedGraph(rings, graph) && Recorded(rings, edges, ip)
      invariant DoneIs(rings, ip, 0, done)
      invariant apart ==> EdgesApart(rings) && Complete(done, graph, edges)
    {
      graph, edges, done := LinkRing(rings, ip, graph, edges, done, apart);
    }
    if apart {
      CompleteLinks(rings, done, graph, edges);
    }
  }

  /** The inner loop: the directed edges of triangle `ip`. */
  method LinkRing<P(==,!new)>(rings: seq<seq<P>>, ip: nat, graph0: map<nat, set<nat>>, edges0: map<(P, P), nat>,
                              ghost done0: set<(int, (P, P))>, ghost apart: bool)
    returns (graph: map<nat, set<nat>>, edges: map<(P, P), nat>, ghost done: set<(int, (P, P))>)
    requires ip < |rings| && LinkedGraph(rings, graph0) && Recorded(rings, edges0, ip)
    requires DoneIs(rings, ip, 0, done0) && (apart ==> EdgesApart(rings) && Complete(done0, graph0, edges0))
    ensures LinkedGraph(rings, graph) && Recorded(rings, edges, ip + 1)
    ensures DoneIs(rings, ip + 1, 0, done) && (apart ==> Complete(done, graph, edges))
  {
    graph, edges, done := graph0, edges0, done0;
    var ring := rings[ip];
    var j := 0;
    while j + 1 < |ring|
      invariant 0 <= j <= |SegmentsOf(ring)|
      invariant LinkedGraph(rings, graph) && Recorded(rings, edges, ip + 1)
      invariant DoneIs(rings, ip, j, done) && (apart ==> Complete(done, graph, edges))
      decreases |ring| - j
    {
      graph, edges, done := LinkEdge(rings, ip, j, graph, edges, done, apart);
      j := j + 1;
    }
    DoneRing(rings, ip, done);
  }

  /** One turn of the inner loop: edge `j` of triangle `ip` links to a pending reverse or is recorded. */
  method LinkEdge<P(==,!new)>(rings: seq<seq<P>>, ip: nat, j: nat, graph0: map<nat, set<nat>>, edges0: map<(P, P), nat>,
                              ghost done0: set<(int, (P, P))>, ghost apart: bool)
    returns (graph: map<nat, set<nat>>, edges: map<(P, P), nat>, ghost done: set<(int, (P, P))>)
    requires ip < |rings| && j + 1 < |rings[ip]|
    requires LinkedGraph(rings, graph0) && Recorded(rings, edges0, ip + 1)
    requires DoneIs(rings, ip, j, done0) && (apart ==> EdgesApart(rings) && Complete(done0, graph0, edges0))
    ensures LinkedGraph(rings, graph) && Recorded(rings, edges, ip + 1)
    ensures DoneIs(rings, ip, j + 1, done) && (apart ==> Complete(done, graph, edges))
  {
    var s, e := rings[ip][j], rings[ip][j + 1];
    assert (s, e) == SegmentsOf(rings[ip])[j];
    DoneAdvance(rings, ip, j, done0);
    if apart {
      DoneFresh(rings, ip, j, done0);
    }
    if (e, s) in edges0 {
      var o := edges0[(e, s)];
      LinkBoth(rings, graph0, o, ip, (s, e));
      if apart {
        CompleteLink(done0, graph0, edges0, ip, (s, e));
      }
      graph := AddLink(graph0, o, ip);
      edges := edges0 - {(e, s)};
    } else {
      if apart {
        CompleteRecord(done0, graph0, edges0, ip, (s, e));
      }
      graph := graph0;
      edges := edges0[(s, e) := ip];
    }
    done := done0 + {(ip, (s, e))};
  }

  /** No directed edge of the rings occurs twice and none is a loop: the hypothesis of `CancelledMeaning`. */
  ghost predicate NoRepeatedEdge<P>(rings: seq<seq<P>>)
  {
    var ss := AllSegments(rings);
    NoDup(ss) && forall k :: 0 <= k < |ss| ==> ss[k].0 != ss[k].1
  }

  /** The same hypothesis, triangle by triangle. */
  ghost predicate EdgesApart<P>(rings: seq<seq<P>>)
  {
    (forall t :: 0 <= t < |rings| ==> NoDup(SegmentsOf(rings[t]))) &&
    (forall t, t', x ::
      (0 <= t < |rings| && 0 <= t' < |rings| && x in SegmentsOf(rings[t]) && x in SegmentsOf(rings[t'])) ==> t == t') &&
    (forall t, x :: 0 <= t < |rings| && x in SegmentsOf(rings[t]) ==> x.0 != x.1)
  }

  lemma AllSegmentsMember<P>(rings: seq<seq<P>>, t: int, x: (P, P))
    requires 0 <= t < |rings| && x in SegmentsOf(rings[t])
    ensures x in AllSegments(rings)
  {
    if t < |rings| - 1 {
      AllSegmentsMember(rings[..|rings| - 1], t, x);
    }
  }

  /** Two sequences whose concatenation has no repeat have none themselves and share nothing. */
  lemma NoDupAppend<K>(a: seq<K>, b: seq<K>)
    requires NoDup(a + b)
    ensures NoDup(a) && NoDup(b) && forall x :: x in a ==> x !in b
  {
    forall i, j | 0 <= i < |a| && 0 <= j < |b|
      ensures a[i] != b[j]
    {
      assert (a + b)[i] == a[i] && (a + b)[|a| + j] == b[j];
    }
    forall i, j | 0 <= i < j < |b|
      ensures b[i] != b[j]
    {
      assert (a + b)[|a| + i] == b[i] && (a + b)[|a| + j] == b[j];
    }
    forall i, j | 0 <= i < j < |a|
      ensures a[i] != a[j]
    {
      assert (a + b)[i] == a[i] && (a + b)[j] == a[j];
    }
  }

  /** The hypothesis on all the edges gives it triangle by triangle. */
  lemma {:induction false} NoRepeatedEdgeApart<P>(rings: seq<seq<P>>)
    requires NoRepeatedEdge(rings)
    ensures EdgesApart(rings)
  {
    if |rings| > 0 {
      var init := rings[..|rings| - 1];
      var a, b := AllSegments(init), SegmentsOf(rings[|rings| - 1]);
      assert AllSegments(rings) == a + b;
      NoDupAppend(a, b);
      forall k | 0 <= k < |a| ensures a[k].0 != a[k].1 { assert (a + b)[k] == a[k]; }
      NoRepeatedEdgeApart(init);
      forall t, t', x | 0 <= t < |rings| && 0 <= t' < |rings| && x in SegmentsOf(rings[t]) && x in SegmentsOf(rings[t'])
        ensures t == t'
      {
        if t < |rings| - 1 {
          assert init[t] == rings[t];
          AllSegmentsMember(init, t, x);
        }
        if t' < |rings| - 1 {
          assert init[t'] == rings[t'];
          AllSegmentsMember(init, t', x);
        }
      }
      forall t, x | 0 <= t < |rings| && x in SegmentsOf(rings[t]) ensures x.0 != x.1
      {
        AllSegmentsMember(rings, t, x);
      }
      forall t | 0 <= t < |rings| - 1 ensures NoDup(SegmentsOf(rings[t]))
      {
        assert init[t] == rings[t];
      }
    }
  }

  /** Edge `x` of triangle `t` has been handled once the loops reach edge `j` of triangle `ip`. */
  ghost predicate Done<P>(rings: seq<seq<P>>, ip: int, j: int, t: int, x: (P, P))
  {
    0 <= t < |rings| && x in SegmentsOf(rings[t]) &&
    (t < ip || (t == ip && 0 <= j <= |SegmentsOf(rings[t])| && x in SegmentsOf(rings[t])[..j]))
  }

  /** `done` holds the handled edges, each with its triangle. */
  ghost predicate DoneIs<P(!new)>(rings: seq<seq<P>>, ip: int, j: int, done: set<(int, (P, P))>)
  {
    forall t, x :: (t, x) in done <==> Done(rings, ip, j, t, x)
  }

  /** Some triangle's edge `x` has been handled. */
  ghost predicate Handled<P(!new)>(done: set<(int, (P, P))>, x: (P, P))
  {
    exists t :: (t, x) in done
  }

  /** Every handled edge belongs to one triangle only and is not a loop. */
  ghost predicate Apart<P(!new)>(done: set<(int, (P, P))>)
  {
    (forall t, t', x :: (t, x) in done && (t', x) in done ==> t == t') &&
    (forall t, x :: (t, x) in done ==> x.0 != x.1)
  }

  /**
   * What the loops have built once the edges of `done` are handled:
   * `edges` holds exactly the handled edges whose reverse is not handled
   * yet, each with its triangle, and every two handled edges that reverse
   * each other have linked their triangles.
   */
  ghost predicate Complete<P(!new)>(done: set<(int, (P, P))>, graph: map<nat, set<nat>>, edges: map<(P, P), nat>)
  {
    (forall x :: x in edges ==> (edges[x] as int, x) in done && !Handled(done, Swap(x))) &&
    (forall t, x :: (t, x) in done ==> x in edges || Handled(done, Swap(x))) &&
    (forall t, t', x :: (t, x) in done && (t', Swap(x)) in done ==> t in graph && t' in graph[t])
  }

  /** Handling edge `j` of triangle `ip` adds exactly that edge to the handled ones. */
  lemma DoneAdvance<P(!new)>(rings: seq<seq<P>>, ip: int, j: int, done: set<(int, (P, P))>)
    requires 0 <= ip < |rings| && 0 <= j < |SegmentsOf(rings[ip])| && DoneIs(rings, ip, j, done)
    ensures DoneIs(rings, ip, j + 1, done + {(ip, SegmentsOf(rings[ip])[j])})
  {
    var segs := SegmentsOf(rings[ip]);
    var x0 := segs[j];
    assert segs[..j + 1] == segs[..j] + [x0];
    var d' := done + {(ip, x0)};
    forall t, x ensures (t, x) in d' <==> Done(rings, ip, j + 1, t, x)
    {
      assert Done(rings, ip, j + 1, t, x) <==> Done(rings, ip, j, t, x) || (t == ip && x == x0);
    }
  }

  /** When no directed edge repeats, the edge handled next was not handled before, and handled edges stay apart. */
  lemma DoneFresh<P(!new)>(rings: seq<seq<P>>, ip: int, j: int, done: set<(int, (P, P))>)
    requires 0 <= ip < |rings| && 0 <= j < |SegmentsOf(rings[ip])| && EdgesApart(rings)
    requires DoneIs(rings, ip, j, done)
    ensures !Handled(done, SegmentsOf(rings[ip])[j]) && Apart(done + {(ip, SegmentsOf(rings[ip])[j])})
  {
    var segs := SegmentsOf(rings[ip]);
    var x0 := segs[j];
    assert x0 !in segs[..j] by {
      forall i | 0 <= i < j ensures segs[..j][i] != x0 { assert segs[..j][i] == segs[i]; }
    }
    DoneAdvance(rings, ip, j, done);
  }

  /** Once every edge of triangle `ip` is handled, the loops go on with the next triangle. */
  lemma DoneRing<P(!new)>(rings: seq<seq<P>>, ip: int, done: set<(int, (P, P))>)
    requires 0 <= ip < |rings| && DoneIs(rings, ip, |SegmentsOf(rings[ip])|, done)
    ensures DoneIs(rings, ip + 1, 0, done)
  {
    var segs := SegmentsOf(rings[ip]);
    assert segs[..|segs|] == segs;
    forall t, x ensures (t, x) in done <==> Done(rings, ip + 1, 0, t, x)
    {
      assert Done(rings, ip + 1, 0, t, x) <==> Done(rings, ip, |segs|, t, x);
    }
  }

  /** The link branch: the reverse of the edge is pending, so the two triangles are linked and the record dropped. */
  lemma CompleteLink<P(!new)>(done: set<(int, (P, P))>, graph: map<nat, set<nat>>, edges: map<(P, P), nat>,
                              ip: nat, x0: (P, P))
    requires Complete(done, graph, edges) && Apart(done + {(ip, x0)}) && !Handled(done, x0)
    requires Swap(x0) in edges && edges[Swap(x0)] in graph && ip in graph
    ensures Complete(done + {(ip, x0)}, AddLink(graph, edges[Swap(x0)], ip), edges - {Swap(x0)})
  {
    var o := edges[Swap(x0)];
    var d', g', e' := done + {(ip, x0)}, AddLink(graph, o, ip), edges - {Swap(x0)};
    assert Swap(Swap(x0)) == x0;
    assert (o as int, Swap(x0)) in done;
    assert x0.0 != x0.1;
    forall x | x in e'
      ensures (e'[x] as int, x) in d' && !Handled(d', Swap(x))
    {
      assert Swap(Swap(x)) == x;
      if Handled(d', Swap(x)) {
        var t :| (t, Swap(x)) in d';
      }
    }
    forall t, x | (t, x) in d'
      ensures x in e' || Handled(d', Swap(x))
    {
      if x == x0 {
        assert (o as int, Swap(x)) in d';
      } else if x == Swap(x0) {
        assert (ip as int, Swap(x)) in d';
      } else if x !in edges {
        var t' :| (t', Swap(x)) in done;
        assert (t', Swap(x)) in d';
      }
    }
    LinkPairs(done, graph, edges, ip, x0);
  }

  /** In the link branch every two handled edges that reverse each other still have their triangles linked. */
  lemma LinkPairs<P(!new)>(done: set<(int, (P, P))>, graph: map<nat, set<nat>>, edges: map<(P, P), nat>,
                           ip: nat, x0: (P, P))
    requires Complete(done, graph, edges) && Apart(done + {(ip, x0)})
    requires Swap(x0) in edges && edges[Swap(x0)] in graph && ip in graph
    ensures var d', g' := done + {(ip, x0)}, AddLink(graph, edges[Swap(x0)], ip);
      forall t, t', x :: (t, x) in d' && (t', Swap(x)) in d' ==> t in g' && t' in g'[t]
  {
    var o := edges[Swap(x0)];
    var d', g' := done + {(ip, x0)}, AddLink(graph, o, ip);
    assert Swap(Swap(x0)) == x0;
    assert (o as int, Swap(x0)) in done;
    forall t, t', x | (t, x) in d' && (t', Swap(x)) in d'
      ensures t in g' && t' in g'[t]
    {
      if t == ip && x == x0 {
        assert t' == o as int;
      } else if t' == ip && Swap(x) == x0 {
        assert x == Swap(x0);
        assert t == o as int;
      }
    }
  }

  /** The record branch: the reverse of the edge is not pending, so it has not been handled at all. */
  lemma CompleteRecord<P(!new)>(done: set<(int, (P, P))>, graph: map<nat, set<nat>>, edges: map<(P, P), nat>,
                                ip: nat, x0: (P, P))
    requires Complete(done, graph, edges) && Apart(done + {(ip, x0)}) && !Handled(done, x0)
    requires Swap(x0) !in edges
    ensures Complete(done + {(ip, x0)}, graph, edges[x0 := ip])
  {
    var d', e' := done + {(ip, x0)}, edges[x0 := ip];
    assert Swap(Swap(x0)) == x0;
    assert x0.0 != x0.1;
    assert !Handled(done, Swap(x0));
    forall x | x in e'
      ensures (e'[x] as int, x) in d' && !Handled(d', Swap(x))
    {
      assert Swap(Swap(x)) == x;
    }
    forall t, x | (t, x) in d'
      ensures x in e' || Handled(d', Swap(x))
    {
      if x != x0 && x !in edges {
        var t' :| (t', Swap(x)) in done;
        assert (t', Swap(x)) in d';
      }
    }
    forall t, t', x | (t, x) in d' && (t', Swap(x)) in d'
      ensures t in graph && t' in graph[t]
    {
      assert Swap(Swap(x)) == x;
    }
  }

  /** At the end every two triangles sharing an edge in opposite directions are linked. */
  lemma CompleteLinks<P(!new)>(rings: seq<seq<P>>, done: set<(int, (P, P))>, graph: map<nat, set<nat>>,
                               edges: map<(P, P), nat>)
    requires DoneIs(rings, |rings|, 0, done) && Complete(done, graph, edges)
    ensures forall i: nat, j: nat :: Linked(rings, i, j) ==> i in graph && j in graph[i]
  {
    forall i: nat, j: nat | Linked(rings, i, j)
      ensures i in graph && j in graph[i]
    {
      var s :| s in SegmentsOf(rings[i]) && Swap(s) in SegmentsOf(rings[j]);
      assert Done(rings, |rings|, 0, i, s) && Done(rings, |rings|, 0, j, Swap(s));
      assert (i as int, s) in done && (j as int, Swap(s)) in done;
    }
  }

  /** `graph[o].add(ip)` then `graph[ip].add(o)`: the link recorded both ways. */
  function AddLink(graph: map<nat, set<nat>>, o: nat, ip: nat): (g: map<nat, set<nat>>)
    requires o in graph && ip in graph
    ensures g.Keys == graph.Keys
    ensures ip in g[o] && o in g[ip]
    ensures forall k :: k in graph ==> g[k] == graph[k] + (if k == o then {ip} else {}) + (if k == ip then {o} else {})
  {
    var g1 := graph[o := graph[o] + {ip}];
    g1[ip := g1[ip] + {o}]
  }

  /** Linking two triangles that share an edge in opposite directions keeps the adjacency a `LinkedGraph`. */
  lemma LinkBoth<P>(rings: seq<seq<P>>, graph: map<nat, set<nat>>, o: nat, ip: nat, s: (P, P))
    requires LinkedGraph(rings, graph) && o < |rings| && ip < |rings|
    requires s in SegmentsOf(rings[ip]) && Swap(s) in SegmentsOf(rings[o])
    ensures LinkedGraph(rings, AddLink(graph, o, ip))
  {
    SharedEdgeLinks(rings, o, ip, s);
    assert o in graph && ip in graph;
    LinkKeys(graph, o, ip, |rings|);
    LinkSymmetric(graph, o, ip);
    LinkLinked(rings, graph, o, ip);
  }

  /** Two triangles sharing an edge in opposite directions are linked both ways. */
  lemma SharedEdgeLinks<P>(rings: seq<seq<P>>, o: nat, ip: nat, s: (P, P))
    requires o < |rings| && ip < |rings|
    requires s in SegmentsOf(rings[ip]) && Swap(s) in SegmentsOf(rings[o])
    ensures Linked(rings, o, ip) && Linked(rings, ip, o)
  {
    assert Swap(Swap(s)) == s;
  }

  /** Adding neighbours changes no key. */
  lemma LinkKeys(graph: map<nat, set<nat>>, o: nat, ip: nat, size: nat)
    requires forall k: nat :: k in graph <==> k < size
    requires o in graph && ip in graph
    ensures forall k: nat :: k in AddLink(graph, o, ip) <==> k < size
  {
  }

  /** Adding a link in both directions keeps the adjacency symmetric. */
  lemma LinkSymmetric(graph: map<nat, set<nat>>, o: nat, ip: nat)
    requires Symmetric(graph) && o in graph && ip in graph
    ensures Symmetric(AddLink(graph, o, ip))
  {
    var g2 := AddLink(graph, o, ip);
    forall a, b | a in g2 && b in g2[a]
      ensures b in g2 && a in g2[b]
    {
      if (a, b) != (o, ip) && (a, b) != (ip, o) {
        assert b in graph[a];
      }
    }
  }

  /** Adding a link between two linked triangles keeps every link of the adjacency a shared edge. */
  lemma LinkLinked<P>(rings: seq<seq<P>>, graph: map<nat, set<nat>>, o: nat, ip: nat)
    requires forall a, b :: a in graph && b in graph[a] ==> Linked(rings, a, b)
    requires o in graph && ip in graph && Linked(rings, o, ip) && Linked(rings, ip, o)
    ensures var g2 := AddLink(graph, o, ip);
      forall a, b :: a in g2 && b in g2[a] ==> Linked(rings, a, b)
  {
    var g2 := AddLink(graph, o, ip);
    forall a, b | a in g2 && b in g2[a]
      ensures Linked(rings, a, b)
    {
      if (a, b) != (o, ip) && (a, b) != (ip, o) {
        assert b in graph[a];
      }
    }
  }

  /** The union of a sequence of sets. */
  function UnionAll(cs: seq<set<nat>>): set<nat>
  {
    if |cs| == 0 then {} else UnionAll(cs[..|cs| - 1]) + cs[|cs| - 1]
  }

  /** `rest` is `graph` with some entries popped and the others untouched. */
  predicate SubGraph(rest: map<nat, set<nat>>, graph: map<nat, set<nat>>)
  {
    forall k :: k in rest ==> k in graph && rest[k] == graph[k]
  }

  /** `p` follows adjacency entries of `graph` from its first node to its last. */
  ghost predicate IsWalk(graph: map<nat, set<nat>>, p: seq<nat>)
  {
    |p| >= 1 && forall k :: 0 <= k < |p| - 1 ==> p[k] in graph && p[k + 1] in graph[p[k]]
  }

  /** Some walk of `graph` leads from `a` to `b`. */
  ghost predicate Reachable(graph: map<nat, set<nat>>, a: nat, b: nat)
  {
    exists p :: IsWalk(graph, p) && p[0] == a && p[|p| - 1] == b
  }

  /** Stepping along one adjacency entry before a walk. */
  lemma ReachPrepend(graph: map<nat, set<nat>>, a: nat, b: nat, c: nat)
    requires a in graph && b in graph[a] && Reachable(graph, b, c)
    ensures Reachable(graph, a, c)
  {
    var p :| IsWalk(graph, p) && p[0] == b && p[|p| - 1] == c;
    var q := [a] + p;
    assert forall k :: 0 < k < |q| ==> q[k] == p[k - 1];
    assert IsWalk(graph, q);
  }

  /** A walk of a part of the graph whose entries are untouched is a walk of the graph. */
  lemma ReachSub(rest: map<nat, set<nat>>, graph: map<nat, set<nat>>, a: nat, b: nat)
    requires SubGraph(rest, graph) && Reachable(rest, a, b)
    ensures Reachable(graph, a, b)
  {
    var p :| IsWalk(rest, p) && p[0] == a && p[|p| - 1] == b;
    assert IsWalk(graph, p);
  }

  /** On a symmetric adjacency a walk can be taken backwards. */
  lemma ReachReverse(graph: map<nat, set<nat>>, a: nat, b: nat)
    requires Symmetric(graph) && Reachable(graph, a, b)
    ensures Reachable(graph, b, a)
  {
    var p :| IsWalk(graph, p) && p[0] == a && p[|p| - 1] == b;
    var m := |p| - 1;
    var q := seq(|p|, k requires 0 <= k < |p| => p[m - k]);
    forall k | 0 <= k < |q| - 1
      ensures q[k] in graph && q[k + 1] in graph[q[k]]
    {
      assert p[m - k - 1] in graph && p[m - k] in graph[p[m - k - 1]];
    }
    assert IsWalk(graph, q) && q[0] == b && q[m] == a;
  }

  /** Two walks that meet make one. */
  lemma ReachConcat(graph: map<nat, set<nat>>, a: nat, b: nat, c: nat)
    requires Reachable(graph, a, b) && Reachable(graph, b, c)
    ensures Reachable(graph, a, c)
  {
    var p :| IsWalk(graph, p) && p[0] == a && p[|p| - 1] == b;
    var q :| IsWalk(graph, q) && q[0] == b && q[|q| - 1] == c;
    var r := p + q[1..];
    forall k | 0 <= k < |r| - 1
      ensures r[k] in graph && r[k + 1] in graph[r[k]]
    {
      if k < |p| - 1 {
        assert r[k] == p[k] && r[k + 1] == p[k + 1];
      } else {
        assert r[k] == q[k - |p| + 1] && r[k + 1] == q[k - |p| + 2];
      }
    }
    assert r[|r| - 1] == c by {
      if |q| == 1 {
        assert r == p;
      } else {
        assert r[|r| - 1] == q[|q| - 1];
      }
    }
    assert IsWalk(graph, r) && r[0] == a;
  }

  /** Every two members of each component are joined by a walk. */
  ghost predicate Connected(graph: map<nat, set<nat>>, components: seq<set<nat>>)
  {
    forall i, a, b :: 0 <= i < |components| && a in components[i] && b in components[i] ==> Reachable(graph, a, b)
  }

  /** A set reachable from one node of a symmetric adjacency is connected. */
  lemma RootedIsConnected(graph: map<nat, set<nat>>, g: map<nat, set<nat>>, n: nat, c: set<nat>)
    requires Symmetric(graph) && SubGraph(g, graph)
    requires forall x :: x in c ==> Reachable(g, n, x)
    ensures forall a, b :: a in c && b in c ==> Reachable(graph, a, b)
  {
    forall a, b | a in c && b in c
      ensures Reachable(graph, a, b)
    {
      ReachSub(g, graph, n, a);
      ReachSub(g, graph, n, b);
      ReachReverse(graph, n, a);
      ReachConcat(graph, a, n, b);
    }
  }

  /**
   * `pop_connected`: the set of `n` and of everything popped through it.
   * Writing `popped` for the entries it removes from `graph`: `n` is popped
   * when present, the result is `n`, the popped nodes and their
   * neighbours, and it holds every neighbour of every popped node; every
   * member is reachable from `n`.
   */
  method PopConnected(n: nat, graph: map<nat, set<nat>>) returns (connected: set<nat>, rest: map<nat, set<nat>>)
    ensures SubGraph(rest, graph)
    ensures n in graph ==> n !in rest
    ensures n in connected && forall c :: c in connected ==> c !in rest
    ensures forall p :: p in graph && p !in rest ==> p in connected && graph[p] <= connected
    ensures forall c :: c in connected ==>
      c == n || (c in graph && c !in rest) || exists p :: p in graph && p !in rest && c in graph[p]
    ensures forall c :: c in connected ==> Reachable(graph, n, c)
    decreases graph.Keys
  {
    connected := {n};
    rest := graph;
    assert IsWalk(graph, [n]);
    if n in graph {
      var neighbours := graph[n];
      rest := graph - {n};
      var todo := neighbours;
      while todo != {}
        invariant todo <= neighbours
        invariant SubGraph(rest, graph) && n !in rest && n in connected
        invariant forall c :: c in connected ==> c !in rest
        invariant neighbours - todo <= connected
        invariant forall p :: p in graph && p !in rest && p != n ==> p in connected && graph[p] <= connected
        invariant forall c :: c in connected ==>
          c == n || (c in graph && c !in rest) || exists p :: p in graph && p !in rest && c in graph[p]
        invariant forall c :: c in connected ==> Reachable(graph, n, c)
        decreases todo
      {
        var ng :| ng in todo;
        todo := todo - {ng};
        assert rest.Keys < graph.Keys;
        var c, r := PopConnected(ng, rest);
        assert ng in graph[n];
        forall x | x in c
          ensures Reachable(graph, n, x)
        {
          ReachSub(rest, graph, ng, x);
          ReachPrepend(graph, n, ng, x);
        }
        connected := connected + c;
        rest := r;
      }
    }
  }

  /** `components` partitions the nodes removed from `graph` and each is closed under adjacency. */
  predicate Partition(graph: map<nat, set<nat>>, removed: set<nat>, components: seq<set<nat>>)
    requires forall k :: k in removed ==> k in graph
  {
    UnionAll(components) == removed &&
    (forall i, j :: 0 <= i < j < |components| ==> components[i] !! components[j]) &&
    (forall i :: 0 <= i < |components| ==> components[i] != {}) &&
    (forall i, k :: 0 <= i < |components| && k in components[i] ==> k in graph && graph[k] <= components[i])
  }

  /**
   * The component split: while the graph has entries, one of them starts a
   * `pop_connected`.  On a symmetric adjacency whose neighbours are all
   * nodes, the components partition the nodes, none has a neighbour
   * outside itself, and every two members of a component are joined by a
   * walk.
   */
  method Components(graph: map<nat, set<nat>>) returns (components: seq<set<nat>>)
    requires Symmetric(graph)
    ensures Partition(graph, graph.Keys, components)
    ensures Connected(graph, components)
  {
    var g := graph;
    components := [];
    while g != map[]
      invariant SubGraph(g, graph)
      invariant forall k :: k in graph.Keys - g.Keys ==> graph[k] <= graph.Keys - g.Keys
      invariant Partition(graph, graph.Keys - g.Keys, components)
      invariant Connected(graph, components)
      decreases g.Keys
    {
      assert g.Keys != {};
      var n :| n in g;
      var c, r := PopConnected(n, g);
      assert n in g;
      AddComponent(graph, g, n, c, r, components);
      RootedIsConnected(graph, g, n, c);
      components := components + [c];
      g := r;
    }
  }

  lemma AddComponent(graph: map<nat, set<nat>>, g: map<nat, set<nat>>, n: nat, c: set<nat>, r: map<nat, set<nat>>,
                     components: seq<set<nat>>)
    requires Symmetric(graph) && SubGraph(g, graph) && n in g
    requires forall k :: k in graph.Keys - g.Keys ==> graph[k] <= graph.Keys - g.Keys
    requires Partition(graph, graph.Keys - g.Keys, components)
    requires SubGraph(r, g) && n !in r && n in c && forall x :: x in c ==> x !in r
    requires forall p :: p in g && p !in r ==> p in c && g[p] <= c
    requires forall x :: x in c ==> x == n || (x in g && x !in r) || exists p :: p in g && p !in r && x in g[p]
    ensures SubGraph(r, graph) && r.Keys < g.Keys
    ensures forall k :: k in graph.Keys - r.Keys ==> graph[k] <= graph.Keys - r.Keys
    ensures Partition(graph, graph.Keys - r.Keys, components + [c])
  {
    var removed := graph.Keys - g.Keys;
    var popped := g.Keys - r.Keys;
    // every member of the new component is a node that was still in `g`
    forall x | x in c
      ensures x in popped
    {
      if exists p :: p in g && p !in r && x in g[p] {
        var p :| p in g && p !in r && x in g[p];
        NeighbourStillPresent(graph, g, p, x);
      }
    }
    assert c == popped;
    assert (components + [c])[..|components|] == components;
    forall i | 0 <= i < |components|
      ensures components[i] !! c
    {
      assert components[i] <= UnionAll(components) by {
        UnionAllMember(components, i);
      }
    }
  }

  /** A neighbour of a node still in `g` has not been removed, since removed nodes only neighbour removed nodes. */
  lemma NeighbourStillPresent(graph: map<nat, set<nat>>, g: map<nat, set<nat>>, p: nat, x: nat)
    requires Symmetric(graph) && SubGraph(g, graph)
    requires forall k :: k in graph.Keys - g.Keys ==> graph[k] <= graph.Keys - g.Keys
    requires p in g && x in g[p]
    ensures x in g
  {
    assert p in graph[x];
  }

  lemma UnionAllMember(cs: seq<set<nat>>, i: int)
    requires 0 <= i < |cs|
    ensures cs[i] <= UnionAll(cs)
  {
    if i < |cs| - 1 {
      UnionAllMember(cs[..|cs| - 1], i);
    }
  }
}
