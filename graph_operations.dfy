/**
 * The connectivity bookkeeping of graph_operations.py.  The graph layer is
 * a sequence of edge features, in the order the layer returns them; the
 * QGIS queries on it (`query_layer_features_by_attributes` with `layer` or
 * `link`) become filters over that sequence.  Feature ids and edge links
 * are integers.  Centroids, projections and lengths are floating point in
 * the source; here they are exact reals handed in as parameters.
 */
module GraphOperations {
  import opened Wrappers
  import opened Sequences

  /** A feature of the graph layer: the generatrice layer it belongs to, its two ends and its link id. */
  datatype Edge = Edge(layer: int, start: int, end: int, link: int)

  /** `GraphConnection`: from `start` to `other` along the edge whose link is `link`. */
  datatype Connection = Connection(start: int, other: int, link: int)

  // ------------------------------------------------ graph_connection_list_to_list

  /** The `other` ends of the connections, in order. */
  function Others(cs: seq<Connection>): (r: seq<int>)
    ensures |r| == |cs| && forall i :: 0 <= i < |cs| ==> r[i] == cs[i].other
  {
    seq(|cs|, i requires 0 <= i < |cs| => cs[i].other)
  }

  /** The `other` ends of those connections of `cs` that start at `id`, in order. */
  function OthersFrom(cs: seq<Connection>, id: int): seq<int>
  {
    if |cs| == 0 then []
    else OthersFrom(cs[..|cs| - 1], id) + (if cs[|cs| - 1].start == id then [cs[|cs| - 1].other] else [])
  }

  /**
   * What slot `j` of the result receives from the connections `cs`: the
   * ones starting at `ids[j]` when `j` is where `ids.index` finds that id,
   * nothing when `ids[j]` repeats an earlier id.
   */
  function Slot(cs: seq<Connection>, ids: seq<int>, j: int): seq<int>
    requires 0 <= j < |ids|
  {
    if ids[j] in ids[..j] then [] else OthersFrom(cs, ids[j])
  }

  /**
   * `connections.index(c)` for the list `c` at position `p`.  Lists compare
   * element by element, and `GraphConnection` defines no `__eq__`, so its
   * objects compare by identity.  Every `GraphConnection` is created for
   * one list only, so a non-empty list is found at its own position; an
   * empty list is found at the first empty list, and the inner loop never
   * reads that index.
   */
  function ListIndex(connections: seq<seq<Connection>>, p: nat): (k: nat)
    requires p < |connections|
    ensures k <= p && connections[k] == connections[p]
    ensures connections[p] != [] ==> k == p
  {
    if connections[p] == [] then IndexOf(connections, connections[p]) else p
  }

  /**
   * The assertion of the loop passes on list `p`: each of its connections
   * starts at the id whose position is where `connections.index` finds it.
   */
  ghost predicate StartsAtSlot(connections: seq<seq<Connection>>, ids: seq<int>, p: nat)
    requires p < |connections|
  {
    forall x :: x in connections[p] ==> ListIndex(connections, p) < |ids| && x.start == ids[ListIndex(connections, p)]
  }

  /** The assertion passes on the first `n` lists. */
  ghost predicate StartsMatchUpTo(connections: seq<seq<Connection>>, ids: seq<int>, n: int)
    requires n <= |connections|
  {
    forall p :: 0 <= p < n ==> StartsAtSlot(connections, ids, p)
  }

  /** The assertion passes on every list. */
  ghost predicate StartsMatch(connections: seq<seq<Connection>>, ids: seq<int>)
  {
    StartsMatchUpTo(connections, ids, |connections|)
  }

  lemma OthersFromSnoc(cs: seq<Connection>, x: Connection, id: int)
    ensures OthersFrom(cs + [x], id) == OthersFrom(cs, id) + (if x.start == id then [x.other] else [])
  {
    assert (cs + [x])[..|cs|] == cs;
  }

  /** Appending one connection feeds exactly the slot `ids.index(x.start)`. */
  lemma SlotSnoc(cs: seq<Connection>, ids: seq<int>, x: Connection, j: int)
    requires x.start in ids && 0 <= j < |ids|
    ensures Slot(cs + [x], ids, j) ==
      if j == IndexOf(ids, x.start) then Slot(cs, ids, j) + [x.other] else Slot(cs, ids, j)
  {
    OthersFromSnoc(cs, x, ids[j]);
    if ids[j] !in ids[..j] {
      IndexOfFirst(ids, j);
    }
  }

  /** `result` holds, slot by slot, what the connections `cs` put there. */
  ghost predicate SlotsOf(result: seq<seq<int>>, cs: seq<Connection>, ids: seq<int>)
  {
    |result| == |ids| && forall j :: 0 <= j < |ids| ==> result[j] == Slot(cs, ids, j)
  }

  /** One turn of the inner loop: `x.other` goes to the end of the slot `ids.index(x.start)`. */
  method AddConnection(result0: seq<seq<int>>, ids: seq<int>, x: Connection, ghost cs: seq<Connection>)
    returns (result: seq<seq<int>>)
    requires SlotsOf(result0, cs, ids) && x.start in ids
    ensures SlotsOf(result, cs + [x], ids)
  {
    var m := IndexOf(ids, x.start);
    SlotsStep(result0, cs, ids, x);
    result := result0[m := result0[m] + [x.other]];
  }

  /** Appending `x.other` to the slot `ids.index(x.start)` accounts for one more connection `x`. */
  lemma SlotsStep(result: seq<seq<int>>, cs: seq<Connection>, ids: seq<int>, x: Connection)
    requires SlotsOf(result, cs, ids) && x.start in ids
    ensures var m := IndexOf(ids, x.start);
      SlotsOf(result[m := result[m] + [x.other]], cs + [x], ids)
  {
    forall j | 0 <= j < |ids|
      ensures Slot(cs + [x], ids, j) == if j == IndexOf(ids, x.start) then Slot(cs, ids, j) + [x.other] else Slot(cs, ids, j)
    {
      SlotSnoc(cs, ids, x, j);
    }
  }

  /**
   * The inner loop of `graph_connection_list_to_list` on list `c`, whose
   * first position in `connections` is `k`: `ok` is false when the
   * assertion (or the indexing `ids[k]`) fails.
   */
  method AddConnections(result0: seq<seq<int>>, c: seq<Connection>, k: nat, ids: seq<int>, ghost before: seq<Connection>)
    returns (result: seq<seq<int>>, ok: bool)
    requires SlotsOf(result0, before, ids)
    ensures ok <==> forall x :: x in c ==> k < |ids| && x.start == ids[k]
    ensures ok ==> SlotsOf(result, before + c, ids)
  {
    result := result0;
    assert before + c[..0] == before;
    for q := 0 to |c|
      invariant forall p :: 0 <= p < q ==> k < |ids| && c[p].start == ids[k]
      invariant SlotsOf(result, before + c[..q], ids)
    {
      var ci := c[q];
      if !(k < |ids| && ci.start == ids[k]) {
        assert ci in c;
        return result, false;
      }
      result := AddConnection(result, ids, ci, before + c[..q]);
      assert before + c[..q + 1] == (before + c[..q]) + [ci];
    }
    assert c[..|c|] == c;
    ok := true;
  }

  /** The assertion passing on list `p` extends its passing on the lists before it. */
  lemma StartsMatchStep(connections: seq<seq<Connection>>, ids: seq<int>, p: int)
    requires 0 <= p < |connections| && StartsMatchUpTo(connections, ids, p)
    requires StartsAtSlot(connections, ids, p)
    ensures StartsMatchUpTo(connections, ids, p + 1)
  {
  }

  /**
   * `graph_connection_list_to_list`: `None` exactly when one of its
   * assertions fails; otherwise one list per id, slot `j` holding the
   * `other` of every connection that starts at `ids[j]`, in order.
   */
  method ConnectionListToList(connections: seq<seq<Connection>>, ids: seq<int>) returns (r: Option<seq<seq<int>>>)
    ensures r.None? <==> !StartsMatch(connections, ids)
    ensures r.Some? ==>
      |r.value| == |ids| && forall j :: 0 <= j < |ids| ==> r.value[j] == Slot(Flatten(connections), ids, j)
  {
    var result: seq<seq<int>> := seq(|ids|, _ => []);
    for p := 0 to |connections|
      invariant StartsMatchUpTo(connections, ids, p)
      invariant SlotsOf(result, Flatten(connections[..p]), ids)
    {
      var c := connections[p];
      var k := ListIndex(connections, p);
      assert connections[..p + 1][..p] == connections[..p];
      var ok;
      result, ok := AddConnections(result, c, k, ids, Flatten(connections[..p]));
      if !ok {
        assert !StartsAtSlot(connections, ids, p);
        return None;
      }
      StartsMatchStep(connections, ids, p);
    }
    assert connections[..|connections|] == connections;
    r := Some(result);
  }

  lemma {:induction false} OthersFromAppend(a: seq<Connection>, b: seq<Connection>, id: int)
    ensures OthersFrom(a + b, id) == OthersFrom(a, id) + OthersFrom(b, id)
  {
    if |b| > 0 {
      var b' := b[..|b| - 1];
      OthersFromAppend(a, b', id);
      assert a + b == (a + b') + [b[|b| - 1]];
      assert b == b' + [b[|b| - 1]];
      OthersFromSnoc(a + b', b[|b| - 1], id);
      OthersFromSnoc(b', b[|b| - 1], id);
    } else {
      assert a + b == a;
    }
  }

  /** A list whose connections all start at `start` yields all its ends for that id, none for another. */
  lemma {:induction false} OthersFromUniform(cs: seq<Connection>, start: int, id: int)
    requires forall x :: x in cs ==> x.start == start
    ensures OthersFrom(cs, id) == if start == id then Others(cs) else []
  {
    if |cs| > 0 {
      var cs' := cs[..|cs| - 1];
      OthersFromUniform(cs', start, id);
      assert cs[|cs| - 1] in cs;
      if start == id {
        assert Others(cs) == Others(cs') + [cs[|cs| - 1].other];
      }
    }
  }

  /** Lists `0 .. n-1` feed only their own slots. */
  lemma {:induction false} OthersFromPrefix(connections: seq<seq<Connection>>, ids: seq<int>, j: int, n: int)
    requires NoDup(ids) && |connections| == |ids| && 0 <= j < |ids| && 0 <= n <= |connections|
    requires forall i, x :: 0 <= i < |ids| && x in connections[i] ==> x.start == ids[i]
    ensures OthersFrom(Flatten(connections[..n]), ids[j]) == if j < n then Others(connections[j]) else []
  {
    if n > 0 {
      OthersFromPrefix(connections, ids, j, n - 1);
      var before, last := Flatten(connections[..n - 1]), connections[n - 1];
      assert connections[..n][..n - 1] == connections[..n - 1];
      assert Flatten(connections[..n]) == before + last;
      OthersFromAppend(before, last, ids[j]);
      forall x | x in last
        ensures x.start == ids[n - 1]
      {
      }
      OthersFromUniform(last, ids[n - 1], ids[j]);
      if n - 1 != j {
        assert ids[n - 1] != ids[j];
      }
    }
  }

  /**
   * What the function is for: with distinct ids and each list holding the
   * connections of the id at the same position, the assertions pass and
   * slot `j` is the `other` of each connection of `connections[j]`, in order.
   */
  lemma PerIdLists(connections: seq<seq<Connection>>, ids: seq<int>)
    requires NoDup(ids) && |connections| == |ids|
    requires forall i, x :: 0 <= i < |ids| && x in connections[i] ==> x.start == ids[i]
    ensures StartsMatch(connections, ids)
    ensures forall j :: 0 <= j < |ids| ==> Slot(Flatten(connections), ids, j) == Others(connections[j])
  {
    forall p | 0 <= p < |connections|
      ensures StartsAtSlot(connections, ids, p)
    {
    }
    forall j | 0 <= j < |ids|
      ensures Slot(Flatten(connections), ids, j) == Others(connections[j])
    {
      assert ids[j] !in ids[..j];
      OthersFromPrefix(connections, ids, j, |connections|);
      assert connections[..|connections|] == connections;
    }
  }

  /** The six-node example: one, three, two, one, one and no neighbours. */
  lemma SixNodeExample(c: seq<seq<Connection>>, ids: seq<int>)
    requires ids == [0, 1, 2, 3, 4, 5]
    requires c == [[Connection(0, 2, 0)],
                   [Connection(1, 2, 0), Connection(1, 3, 0), Connection(1, 4, 0)],
                   [Connection(2, 1, 0), Connection(2, 0, 0)],
                   [Connection(3, 1, 0)],
                   [Connection(4, 1, 0)],
                   []]
    ensures StartsMatch(c, ids)
    ensures |Slot(Flatten(c), ids, 0)| == 1 && |Slot(Flatten(c), ids, 1)| == 3 && |Slot(Flatten(c), ids, 2)| == 2
    ensures |Slot(Flatten(c), ids, 3)| == 1 && |Slot(Flatten(c), ids, 4)| == 1 && |Slot(Flatten(c), ids, 5)| == 0
  {
    assert NoDup(ids);
    forall i, x | 0 <= i < |ids| && x in c[i]
      ensures x.start == ids[i]
    {
    }
    PerIdLists(c, ids);
  }

  /**
   * Two lists holding equal but distinct connections are different lists
   * to `index`: the second is checked against its own id and fails.
   */
  lemma EqualListsCompareByIdentity(c: seq<seq<Connection>>, ids: seq<int>)
    requires ids == [0, 1] && c == [[Connection(0, 2, 0)], [Connection(0, 2, 0)]]
    ensures !StartsMatch(c, ids)
  {
    assert !StartsAtSlot(c, ids, 1) by {
      assert Connection(0, 2, 0) in c[1];
    }
  }

  // ------------------------------------------------ _extract_connectivity_information

  /** The edges of one generatrice layer: the query on the `layer` attribute. */
  function LayerEdges(edges: seq<Edge>, layer: int): (r: seq<Edge>)
    ensures forall e :: e in r <==> e in edges && e.layer == layer
  {
    if |edges| == 0 then []
    else
      var e := edges[|edges| - 1];
      LayerEdges(edges[..|edges| - 1], layer) + (if e.layer == layer then [e] else [])
  }

  /**
   * The connections an accepted edge contributes at `id`: the forward one
   * when it starts there, the backward one when it ends there.
   */
  function EdgeConnections(e: Edge, id: int): seq<Connection>
  {
    (if e.start == id then [Connection(e.start, e.end, e.link)] else []) +
    (if e.end == id then [Connection(e.end, e.start, e.link)] else [])
  }

  /** The connections at `id` from the edges `es`, skipping every edge with an end outside `ids`. */
  function Incident(es: seq<Edge>, ids: seq<int>, id: int): seq<Connection>
  {
    if |es| == 0 then []
    else
      var e := es[|es| - 1];
      Incident(es[..|es| - 1], ids, id) + (if e.start in ids && e.end in ids then EdgeConnections(e, id) else [])
  }

  /** The lists built for `ids`: the incident connections at the first position of each id. */
  function Connectivity(es: seq<Edge>, ids: seq<int>): (r: seq<seq<Connection>>)
    ensures |r| == |ids|
  {
    seq(|ids|, j requires 0 <= j < |ids| => if ids[j] in ids[..j] then [] else Incident(es, ids, ids[j]))
  }

  /**
   * `_extract_connectivity_information`: one list per feature id; every
   * edge of the layer whose two ends are among the ids adds its forward
   * connection to its start's list and its backward one to its end's list.
   */
  method ExtractConnectivity(edges: seq<Edge>, ids: seq<int>, layer: int) returns (connections: seq<seq<Connection>>)
    ensures connections == Connectivity(LayerEdges(edges, layer), ids)
  {
    var es := LayerEdges(edges, layer);
    connections := seq(|ids|, _ => []);
    for t := 0 to |es|
      invariant connections == Connectivity(es[..t], ids)
    {
      var e := es[t];
      assert es[..t + 1] == es[..t] + [e];
      if !(e.start in ids) {
        ConnectivitySkip(es[..t], e, ids);
        continue;
      }
      if !(e.end in ids) {
        ConnectivitySkip(es[..t], e, ids);
        continue;
      }
      ConnectivityAdd(es[..t], e, ids);
      var s := IndexOf(ids, e.start);
      connections := connections[s := connections[s] + [Connection(e.start, e.end, e.link)]];
      var d := IndexOf(ids, e.end);
      connections := connections[d := connections[d] + [Connection(e.end, e.start, e.link)]];
    }
    assert es[..|es|] == es;
  }

  /** An edge with an end outside `ids` leaves the lists unchanged. */
  lemma ConnectivitySkip(es: seq<Edge>, e: Edge, ids: seq<int>)
    requires !(e.start in ids && e.end in ids)
    ensures Connectivity(es + [e], ids) == Connectivity(es, ids)
  {
    assert (es + [e])[..|es|] == es;
    forall j | 0 <= j < |ids|
      ensures Connectivity(es + [e], ids)[j] == Connectivity(es, ids)[j]
    {
    }
  }

  /**
   * An edge with both ends listed adds its forward connection to the
   * start's list, then its backward one to the end's list.
   */
  lemma ConnectivityAdd(es: seq<Edge>, e: Edge, ids: seq<int>)
    requires e.start in ids && e.end in ids
    ensures var c := Connectivity(es, ids);
      var s, d := IndexOf(ids, e.start), IndexOf(ids, e.end);
      var c1 := c[s := c[s] + [Connection(e.start, e.end, e.link)]];
      Connectivity(es + [e], ids) == c1[d := c1[d] + [Connection(e.end, e.start, e.link)]]
  {
    var c := Connectivity(es, ids);
    var s, d := IndexOf(ids, e.start), IndexOf(ids, e.end);
    var c1 := c[s := c[s] + [Connection(e.start, e.end, e.link)]];
    var c2 := c1[d := c1[d] + [Connection(e.end, e.start, e.link)]];
    forall j | 0 <= j < |ids|
      ensures Connectivity(es + [e], ids)[j] == c2[j]
    {
      ConnectivityAddAt(es, e, ids, j);
      assert c1[j] == if j == s then c[j] + [Connection(e.start, e.end, e.link)] else c[j];
      assert c2[j] == if j == d then c1[j] + [Connection(e.end, e.start, e.link)] else c1[j];
      if ids[j] !in ids[..j] {
        IndexOfFirst(ids, j);
        assert (j == s) == (e.start == ids[j]) && (j == d) == (e.end == ids[j]);
      } else {
        assert j != s && j != d;
      }
    }
  }

  /** The list at slot `j` grows by the edge's connections at `ids[j]` when `j` is the first slot of that id. */
  lemma ConnectivityAddAt(es: seq<Edge>, e: Edge, ids: seq<int>, j: int)
    requires e.start in ids && e.end in ids && 0 <= j < |ids|
    ensures Connectivity(es + [e], ids)[j] ==
      Connectivity(es, ids)[j] + (if ids[j] in ids[..j] then [] else EdgeConnections(e, ids[j]))
  {
    assert (es + [e])[..|es|] == es;
    if ids[j] !in ids[..j] {
      assert Incident(es + [e], ids, ids[j]) == Incident(es, ids, ids[j]) + EdgeConnections(e, ids[j]);
    }
  }

  /** Every connection listed at `id` starts there and leads to a listed feature. */
  lemma {:induction false} IncidentEnds(es: seq<Edge>, ids: seq<int>, id: int)
    ensures forall x :: x in Incident(es, ids, id) ==> x.start == id && x.other in ids
  {
    if |es| > 0 {
      IncidentEnds(es[..|es| - 1], ids, id);
    }
  }

  /** An edge of the layer joining two listed features shows up as a connection at either end. */
  lemma {:induction false} IncidentHasEdge(es: seq<Edge>, ids: seq<int>, i: int)
    requires 0 <= i < |es| && es[i].start in ids && es[i].end in ids
    ensures Connection(es[i].start, es[i].end, es[i].link) in Incident(es, ids, es[i].start)
    ensures Connection(es[i].end, es[i].start, es[i].link) in Incident(es, ids, es[i].end)
  {
    if i < |es| - 1 {
      IncidentHasEdge(es[..|es| - 1], ids, i);
    }
  }

  /** The lists built by `ExtractConnectivity` always pass the assertions of `graph_connection_list_to_list`. */
  lemma ConnectivityStartsMatch(es: seq<Edge>, ids: seq<int>)
    ensures StartsMatch(Connectivity(es, ids), ids)
  {
    var cs := Connectivity(es, ids);
    forall p | 0 <= p < |cs|
      ensures StartsAtSlot(cs, ids, p)
    {
      if cs[p] != [] {
        IncidentEnds(es, ids, ids[p]);
      }
    }
  }

  /** The edges of a simple chain over `ids`, one per consecutive pair. */
  function ChainEdges(ids: seq<int>, layer: int): (r: seq<Edge>)
    requires |ids| >= 1
    ensures |r| == |ids| - 1
  {
    seq(|ids| - 1, i requires 0 <= i < |ids| - 1 => Edge(layer, ids[i], ids[i + 1], i))
  }

  /** After the first `m` chain edges, feature `k` has one connection per chain edge it ends. */
  lemma {:induction false} ChainIncidentCount(ids: seq<int>, layer: int, k: int, m: int)
    requires NoDup(ids) && 0 <= k < |ids| && 0 <= m <= |ids| - 1
    ensures |Incident(ChainEdges(ids, layer)[..m], ids, ids[k])| ==
      (if k < m then 1 else 0) + (if 1 <= k <= m then 1 else 0)
  {
    if m > 0 {
      var es := ChainEdges(ids, layer);
      ChainIncidentCount(ids, layer, k, m - 1);
      assert es[..m][..m - 1] == es[..m - 1];
      var e := es[m - 1];
      assert e.start == ids[m - 1] && e.end == ids[m];
      assert e.start == ids[k] <==> k == m - 1;
      assert e.end == ids[k] <==> k == m;
    }
  }

  /**
   * On a simple chain of distinct features, the two end features have one
   * connection each and every interior feature has two.
   */
  lemma ChainConnectivity(ids: seq<int>, layer: int)
    requires NoDup(ids) && |ids| >= 2
    ensures var cs := Connectivity(ChainEdges(ids, layer), ids);
      |cs[0]| == 1 && |cs[|ids| - 1]| == 1 &&
      forall k :: 0 < k < |ids| - 1 ==> |cs[k]| == 2
  {
    var es := ChainEdges(ids, layer);
    var n := |ids|;
    assert es[..n - 1] == es;
    forall k | 0 <= k < n
      ensures |Connectivity(es, ids)[k]| == (if k < n - 1 then 1 else 0) + (if 1 <= k then 1 else 0)
    {
      assert ids[k] !in ids[..k];
      ChainIncidentCount(ids, layer, k, n - 1);
    }
  }

  /** The chain lies in one layer, so the layer query keeps all of it. */
  lemma ChainLayerEdges(ids: seq<int>, layer: int)
    requires |ids| >= 1
    ensures LayerEdges(ChainEdges(ids, layer), layer) == ChainEdges(ids, layer)
  {
    var es := ChainEdges(ids, layer);
    LayerEdgesAll(es, layer);
  }

  lemma {:induction false} LayerEdgesAll(es: seq<Edge>, layer: int)
    requires forall k :: 0 <= k < |es| ==> es[k].layer == layer
    ensures LayerEdges(es, layer) == es
  {
    if |es| > 0 {
      var init, e := es[..|es| - 1], es[|es| - 1];
      LayerEdgesAll(init, layer);
      assert LayerEdges(es, layer) == init + [e];
      assert init + [e] == es;
    }
  }

  // ------------------------------------------------ polygon extremities

  /**
   * `is_fake_feature`: `holeId` is the feature's `HoleId` value when the
   * layer has that field, `None` when it has not; `hasMine` says whether
   * it has a `mine` field.  With `HoleId` the feature is fake when its
   * value is `Fake`.  Without it, a `mine` field leads to a comparison of
   * a variable that was never assigned, which raises; with neither field
   * the feature is not fake.
   */
  function IsFakeFeature(holeId: Option<string>, hasMine: bool): (r: Result<bool, string>)
    ensures r == Success(true) <==> holeId == Some("Fake")
    ensures r.Failure? <==> holeId.None? && hasMine
  {
    if holeId.Some? then Success(holeId.value == "Fake")
    else if hasMine then Failure("UnboundLocalError: local variable 'h' referenced before assignment")
    else Success(false)
  }

  /**
   * `_is_feature_a_polygon_extremity`: more than two connections ("pants"),
   * or a fake generatrice; `or` only asks `is_fake_feature` when there are
   * at most two connections.
   */
  function IsPolygonExtremity(connections: seq<Connection>, holeId: Option<string>, hasMine: bool): (r: Result<bool, string>)
    ensures r == Success(true) <==> |connections| > 2 || holeId == Some("Fake")
    ensures r.Failure? <==> |connections| <= 2 && holeId.None? && hasMine
  {
    if |connections| > 2 then Success(true) else IsFakeFeature(holeId, hasMine)
  }

  /** With the fake flag `is_fake_feature` gives, the extremity test is the `or` of the two conditions. */
  lemma ExtremityFlag(connections: seq<Connection>, holeId: Option<string>, hasMine: bool, fake: bool)
    requires IsFakeFeature(holeId, hasMine) == Success(fake)
    ensures IsPolygonExtremity(connections, holeId, hasMine) == Success(|connections| > 2 || fake)
  {
  }

  /**
   * The ids of the features that are polygon extremities, in feature
   * order; `fake[k]` is what `is_fake_feature` gives for feature `k`.
   */
  function Extremities(ids: seq<int>, connections: seq<seq<Connection>>, fake: seq<bool>): (r: seq<int>)
    requires |connections| == |ids| && |fake| == |ids|
    ensures |r| <= |ids|
  {
    if |ids| == 0 then []
    else
      var n := |ids| - 1;
      Extremities(ids[..n], connections[..n], fake[..n]) + (if |connections[n]| > 2 || fake[n] then [ids[n]] else [])
  }

  /**
   * The extremity loop of `_extract_section_polygons_information`: the
   * features that are extremities, in order.
   */
  method SectionExtremities(ids: seq<int>, connections: seq<seq<Connection>>, fake: seq<bool>) returns (extremities: seq<int>)
    requires |connections| == |ids| && |fake| == |ids|
    ensures extremities == Extremities(ids, connections, fake)
  {
    extremities := [];
    var idx := 0;
    while idx < |ids|
      invariant idx <= |ids|
      invariant extremities == Extremities(ids[..idx], connections[..idx], fake[..idx])
    {
      assert ids[..idx + 1][..idx] == ids[..idx];
      assert connections[..idx + 1][..idx] == connections[..idx];
      assert fake[..idx + 1][..idx] == fake[..idx];
      if |connections[idx]| > 2 || fake[idx] {
        extremities := extremities + [ids[idx]];
      }
      idx := idx + 1;
    }
    assert ids[..idx] == ids && connections[..idx] == connections && fake[..idx] == fake;
  }

  /** A feature is an extremity exactly when it has more than two connections or is fake. */
  lemma {:induction false} ExtremitiesMeaning(ids: seq<int>, connections: seq<seq<Connection>>, fake: seq<bool>, x: int)
    requires |connections| == |ids| && |fake| == |ids|
    ensures x in Extremities(ids, connections, fake) <==>
      exists k :: 0 <= k < |ids| && ids[k] == x && (|connections[k]| > 2 || fake[k])
  {
    if |ids| > 0 {
      var n := |ids| - 1;
      ExtremitiesMeaning(ids[..n], connections[..n], fake[..n], x);
      if x in Extremities(ids, connections, fake) && x !in Extremities(ids[..n], connections[..n], fake[..n]) {
        assert ids[n] == x && (|connections[n]| > 2 || fake[n]);
      }
    }
  }

  /**
   * A simple chain whose two end features are fake generatrices has
   * exactly those two as extremities.
   */
  lemma ChainExtremities(ids: seq<int>, layer: int, fake: seq<bool>)
    requires NoDup(ids) && |ids| >= 2 && |fake| == |ids|
    requires forall k :: 0 <= k < |ids| ==> (fake[k] <==> k == 0 || k == |ids| - 1)
    ensures Extremities(ids, Connectivity(ChainEdges(ids, layer), ids), fake) == [ids[0], ids[|ids| - 1]]
  {
    var cs := Connectivity(ChainEdges(ids, layer), ids);
    ChainConnectivity(ids, layer);
    var n := |ids| - 1;
    ChainPrefixExtremities(ids, cs, fake, n);
    assert ids[..n + 1] == ids && cs[..n + 1] == cs && fake[..n + 1] == fake;
  }

  lemma {:induction false} ChainPrefixExtremities(ids: seq<int>, cs: seq<seq<Connection>>, fake: seq<bool>, m: int)
    requires |cs| == |ids| && |fake| == |ids| && 1 <= m < |ids|
    requires fake[0] && forall k :: 0 < k < |ids| - 1 ==> !fake[k] && |cs[k]| == 2
    ensures Extremities(ids[..m], cs[..m], fake[..m]) == [ids[0]]
  {
    if m == 1 {
      assert Extremities(ids[..0], cs[..0], fake[..0]) == [];
      assert ids[..1][..0] == ids[..0] && cs[..1][..0] == cs[..0] && fake[..1][..0] == fake[..0];
    } else {
      ChainPrefixExtremities(ids, cs, fake, m - 1);
      assert ids[..m][..m - 1] == ids[..m - 1] && cs[..m][..m - 1] == cs[..m - 1] && fake[..m][..m - 1] == fake[..m - 1];
    }
  }

  // ------------------------------------------------ pants

  /** The two sides of a pants feature: ids of the neighbours left and right of it along the section line. */
  datatype Pants = Pants(left: seq<int>, right: seq<int>)

  /** The graph-layer query on `link`: the edges carrying that link, in order. */
  function LinkEdges(edges: seq<Edge>, link: int): (r: seq<Edge>)
    ensures forall e :: e in r <==> e in edges && e.link == link
  {
    if |edges| == 0 then []
    else
      var e := edges[|edges| - 1];
      LinkEdges(edges[..|edges| - 1], link) + (if e.link == link then [e] else [])
  }

  /** Every connection's link names exactly one edge. */
  ghost predicate LinksUnique(conns: seq<Connection>, edges: seq<Edge>)
  {
    forall c :: c in conns ==> |LinkEdges(edges, c.link)| == 1
  }

  /**
   * The side of the connection: right when the feature lies before the
   * centroid of the connection's edge, both projected on the section line.
   */
  function IsRight(featureX: real, c: Connection, edges: seq<Edge>, centroidX: Edge -> real): bool
    requires |LinkEdges(edges, c.link)| == 1
  {
    featureX < centroidX(LinkEdges(edges, c.link)[0])
  }

  /** The neighbours sorted into the two sides, each side in connection order. */
  function Sides(featureX: real, conns: seq<Connection>, edges: seq<Edge>, centroidX: Edge -> real): Pants
    requires LinksUnique(conns, edges)
  {
    if |conns| == 0 then Pants([], [])
    else
      var c := conns[|conns| - 1];
      var p := Sides(featureX, conns[..|conns| - 1], edges, centroidX);
      assert c in conns;
      if IsRight(featureX, c, edges, centroidX) then Pants(p.left, p.right + [c.other])
      else Pants(p.left + [c.other], p.right)
  }

  /**
   * `__compute_generatrice_connections`: `None` exactly when a connection's
   * link does not name exactly one edge, or when a side holds a neighbour
   * twice (the two assertions after the loop); otherwise the sides.
   */
  method GeneratriceConnections(featureX: real, conns: seq<Connection>, edges: seq<Edge>, centroidX: Edge -> real)
    returns (r: Option<Pants>)
    ensures r.Some? <==>
      LinksUnique(conns, edges) &&
      NoDup(Sides(featureX, conns, edges, centroidX).right) && NoDup(Sides(featureX, conns, edges, centroidX).left)
    ensures r.Some? ==> r.value == Sides(featureX, conns, edges, centroidX)
  {
    var left, right := [], [];
    for i := 0 to |conns|
      invariant LinksUnique(conns[..i], edges)
      invariant Pants(left, right) == Sides(featureX, conns[..i], edges, centroidX)
    {
      var connection := conns[i];
      var e := LinkEdges(edges, connection.link);
      if |e| != 1 {
        assert !LinksUnique(conns, edges) by {
          assert connection in conns;
        }
        return None;
      }
      assert conns[..i + 1][..i] == conns[..i];
      assert conns[..i + 1] == conns[..i] + [connection];
      var other := connection.other;
      if featureX < centroidX(e[0]) {
        right := right + [other];
      } else {
        left := left + [other];
      }
    }
    assert conns[..|conns|] == conns;
    if !NoDup(right) || !NoDup(left) {
      return None;
    }
    r := Some(Pants(left, right));
  }

  /** The connections before `n` have unique links too. */
  lemma LinksUniquePrefix(conns: seq<Connection>, edges: seq<Edge>, n: int)
    requires LinksUnique(conns, edges) && 0 <= n <= |conns|
    ensures LinksUnique(conns[..n], edges)
  {
    forall c | c in conns[..n]
      ensures |LinkEdges(edges, c.link)| == 1
    {
      assert c in conns;
    }
  }

  /** The sides of the connections grow by the last connection's end, on its side. */
  lemma SidesSnoc(featureX: real, conns: seq<Connection>, edges: seq<Edge>, centroidX: Edge -> real)
    requires LinksUnique(conns, edges) && |conns| > 0
    ensures LinksUnique(conns[..|conns| - 1], edges) && |LinkEdges(edges, conns[|conns| - 1].link)| == 1
    ensures var c := conns[|conns| - 1];
      var p := Sides(featureX, conns[..|conns| - 1], edges, centroidX);
      Sides(featureX, conns, edges, centroidX) ==
        if IsRight(featureX, c, edges, centroidX) then Pants(p.left, p.right + [c.other])
        else Pants(p.left + [c.other], p.right)
  {
    LinksUniquePrefix(conns, edges, |conns| - 1);
    assert conns[|conns| - 1] in conns;
  }

  /** The ends of the connections grow by the last connection's end. */
  lemma OthersSnoc(cs: seq<Connection>)
    requires |cs| > 0
    ensures Others(cs) == Others(cs[..|cs| - 1]) + [cs[|cs| - 1].other]
  {
  }

  /** Counted with repetitions, the two sides grow by the last connection's end. */
  lemma SidesSnocMultiset(featureX: real, conns: seq<Connection>, edges: seq<Edge>, centroidX: Edge -> real)
    requires LinksUnique(conns, edges) && |conns| > 0
    ensures LinksUnique(conns[..|conns| - 1], edges)
    ensures var p := Sides(featureX, conns[..|conns| - 1], edges, centroidX);
      var q := Sides(featureX, conns, edges, centroidX);
      multiset(q.left) + multiset(q.right) == multiset(p.left) + multiset(p.right) + multiset{conns[|conns| - 1].other}
  {
    SidesSnoc(featureX, conns, edges, centroidX);
  }

  /** Every neighbour lands on exactly one side: the sides split the connections' ends. */
  lemma {:induction false} SidesPartition(featureX: real, conns: seq<Connection>, edges: seq<Edge>, centroidX: Edge -> real)
    requires LinksUnique(conns, edges)
    ensures var p := Sides(featureX, conns, edges, centroidX);
      multiset(p.left) + multiset(p.right) == multiset(Others(conns))
  {
    if |conns| > 0 {
      var n := |conns| - 1;
      SidesSnocMultiset(featureX, conns, edges, centroidX);
      SidesPartition(featureX, conns[..n], edges, centroidX);
      OthersSnoc(conns);
    }
  }

  /** The right side grows by the last connection's end exactly when that connection is on the right. */
  lemma SidesSnocRight(featureX: real, conns: seq<Connection>, edges: seq<Edge>, centroidX: Edge -> real, x: int)
    requires LinksUnique(conns, edges) && |conns| > 0
    ensures LinksUnique(conns[..|conns| - 1], edges)
    ensures var c := conns[|conns| - 1];
      x in Sides(featureX, conns, edges, centroidX).right <==>
        x in Sides(featureX, conns[..|conns| - 1], edges, centroidX).right ||
        (c.other == x && featureX < centroidX(LinkEdges(edges, c.link)[0]))
  {
    SidesSnoc(featureX, conns, edges, centroidX);
  }

  /** Some connection reaches `x` on the right. */
  ghost predicate RightWitness(featureX: real, conns: seq<Connection>, edges: seq<Edge>, centroidX: Edge -> real, x: int)
    requires LinksUnique(conns, edges)
  {
    exists i :: 0 <= i < |conns| && conns[i].other == x && featureX < centroidX(LinkEdges(edges, conns[i].link)[0])
  }

  /** Some connection reaches `x` on the right exactly when one before the last does or the last one does. */
  lemma RightWitnessSnoc(featureX: real, conns: seq<Connection>, edges: seq<Edge>, centroidX: Edge -> real, x: int)
    requires LinksUnique(conns, edges) && |conns| > 0
    ensures LinksUnique(conns[..|conns| - 1], edges)
    ensures var n := |conns| - 1;
      RightWitness(featureX, conns, edges, centroidX, x) <==>
      RightWitness(featureX, conns[..n], edges, centroidX, x) ||
      (conns[n].other == x && featureX < centroidX(LinkEdges(edges, conns[n].link)[0]))
  {
    var n := |conns| - 1;
    LinksUniquePrefix(conns, edges, n);
    if RightWitness(featureX, conns, edges, centroidX, x) {
      var i :| 0 <= i < |conns| && conns[i].other == x && featureX < centroidX(LinkEdges(edges, conns[i].link)[0]);
      if i < n {
        assert conns[..n][i] == conns[i];
      }
    }
    if RightWitness(featureX, conns[..n], edges, centroidX, x) {
      var i :| 0 <= i < n && conns[..n][i].other == x && featureX < centroidX(LinkEdges(edges, conns[..n][i].link)[0]);
      assert conns[i] == conns[..n][i];
    }
  }

  /** A neighbour is on the right exactly when some connection to it is on the right. */
  lemma {:induction false} SidesRight(featureX: real, conns: seq<Connection>, edges: seq<Edge>, centroidX: Edge -> real, x: int)
    requires LinksUnique(conns, edges)
    ensures x in Sides(featureX, conns, edges, centroidX).right <==>
      exists i :: 0 <= i < |conns| && conns[i].other == x && featureX < centroidX(LinkEdges(edges, conns[i].link)[0])
  {
    if |conns| > 0 {
      var n := |conns| - 1;
      SidesSnocRight(featureX, conns, edges, centroidX, x);
      RightWitnessSnoc(featureX, conns, edges, centroidX, x);
      SidesRight(featureX, conns[..n], edges, centroidX, x);
    }
  }

  /** `__select_pants_branch`: the side holding `next`, the left one first. */
  function SelectPantsBranch(next: int, pants: Pants): (r: Option<seq<int>>)
    ensures r.Some? ==> next in r.value
    ensures r.None? <==> next !in pants.left && next !in pants.right
    ensures next in pants.left ==> r == Some(pants.left)
    ensures next !in pants.left && next in pants.right ==> r == Some(pants.right)
  {
    if next in pants.left then Some(pants.left)
    else if next in pants.right then Some(pants.right)
    else None
  }

  /** The summed lengths of the features of a branch. */
  function TotalLength(branch: seq<int>, lengths: map<int, real>): real
    requires forall f :: f in branch ==> f in lengths
  {
    if |branch| == 0 then 0.0
    else
      var f := branch[|branch| - 1];
      assert f in branch;
      TotalLength(branch[..|branch| - 1], lengths) + lengths[f]
  }

  /** The summed lengths of the features of a branch whose centroid lies above `centerZ`. */
  function LengthAbove(branch: seq<int>, lengths: map<int, real>, centroidZ: int -> real, centerZ: real): real
    requires forall f :: f in branch ==> f in lengths
  {
    if |branch| == 0 then 0.0
    else
      var f := branch[|branch| - 1];
      assert f in branch;
      LengthAbove(branch[..|branch| - 1], lengths, centroidZ, centerZ) + (if centerZ < centroidZ(f) then lengths[f] else 0.0)
  }

  /**
   * `_compute_ratio_offset_from_pants`: `(1, 0)` when `next` is on no side
   * or on a side of at most one feature; otherwise the share of `next` in
   * the side's total length, and the share of the side's features above
   * `next`.  `None` for a missing length or a zero total (the source's
   * KeyError and ZeroDivisionError).
   */
  method RatioOffset(next: int, pants: Pants, lengths: map<int, real>, centroidZ: int -> real)
    returns (r: Option<(real, real)>)
    ensures var b := SelectPantsBranch(next, pants);
      if b.None? || |b.value| <= 1 then r == Some((1.0, 0.0))
      else if (forall f :: f in b.value ==> f in lengths) && TotalLength(b.value, lengths) != 0.0 then
        var total := TotalLength(b.value, lengths);
        r == Some((lengths[next] / total, LengthAbove(b.value, lengths, centroidZ, centroidZ(next)) / total))
      else r.None?
  {
    var branch := SelectPantsBranch(next, pants);
    if branch.None? || |branch.value| <= 1 {
      return Some((1.0, 0.0));
    }
    var connections := branch.value;
    var ok, powerSum, offset := SumBranch(connections, lengths, centroidZ, centroidZ(next));
    if !ok || powerSum == 0.0 {
      return None;
    }
    r := Some((lengths[next] / powerSum, offset / powerSum));
  }

  /**
   * The loop of `_compute_ratio_offset_from_pants`: the total length of the
   * branch and the length of its features above `centerZ`, or not `ok` (a
   * KeyError) when a feature has no length.
   */
  method SumBranch(connections: seq<int>, lengths: map<int, real>, centroidZ: int -> real, centerZ: real)
    returns (ok: bool, powerSum: real, offset: real)
    ensures ok <==> forall f :: f in connections ==> f in lengths
    ensures ok ==> Summed(connections, lengths, centroidZ, centerZ, powerSum, offset)
  {
    offset, powerSum := 0.0, 0.0;
    for i := 0 to |connections|
      invariant Summed(connections[..i], lengths, centroidZ, centerZ, powerSum, offset)
    {
      var featId := connections[i];
      if featId !in lengths {
        assert featId in connections;
        return false, powerSum, offset;
      }
      SummedStep(connections[..i], featId, lengths, centroidZ, centerZ, powerSum, offset);
      assert connections[..i + 1] == connections[..i] + [featId];
      powerSum := powerSum + lengths[featId];
      if centerZ < centroidZ(featId) {
        offset := offset + lengths[featId];
      }
    }
    assert connections[..|connections|] == connections;
    ok := true;
  }

  /** The running sums of the loop of `_compute_ratio_offset_from_pants` over the features `done`. */
  ghost predicate Summed(done: seq<int>, lengths: map<int, real>, centroidZ: int -> real, centerZ: real, powerSum: real, offset: real)
  {
    (forall f :: f in done ==> f in lengths) &&
    powerSum == TotalLength(done, lengths) && offset == LengthAbove(done, lengths, centroidZ, centerZ)
  }

  /** One more feature adds its length to the total, and to the part above when its centroid is higher. */
  lemma SummedStep(done: seq<int>, f: int, lengths: map<int, real>, centroidZ: int -> real, centerZ: real, powerSum: real, offset: real)
    requires Summed(done, lengths, centroidZ, centerZ, powerSum, offset) && f in lengths
    ensures Summed(done + [f], lengths, centroidZ, centerZ, powerSum + lengths[f],
                   if centerZ < centroidZ(f) then offset + lengths[f] else offset)
  {
    assert (done + [f])[..|done|] == done;
  }

  /** With non-negative lengths, the part above `next` and `next` itself fit within the total. */
  lemma {:induction false} AboveWithinTotal(branch: seq<int>, lengths: map<int, real>, centroidZ: int -> real, next: int)
    requires forall f :: f in branch ==> f in lengths && lengths[f] >= 0.0
    ensures 0.0 <= LengthAbove(branch, lengths, centroidZ, centroidZ(next)) <= TotalLength(branch, lengths)
    ensures next in branch ==> LengthAbove(branch, lengths, centroidZ, centroidZ(next)) + lengths[next] <= TotalLength(branch, lengths)
  {
    if |branch| > 0 {
      var n := |branch| - 1;
      assert branch[n] in branch;
      AboveWithinTotal(branch[..n], lengths, centroidZ, next);
      if next in branch && branch[n] != next {
        assert next in branch[..n] by {
          var k :| 0 <= k < |branch| && branch[k] == next;
          assert branch[..n][k] == next;
        }
      }
    }
  }

  /**
   * The ratio and offset place `next` inside its side: with positive
   * lengths both lie in [0, 1], the ratio is positive and the two add up to
   * at most 1.
   */
  lemma RatioOffsetBounds(next: int, pants: Pants, lengths: map<int, real>, centroidZ: int -> real)
    requires forall f :: f in lengths ==> lengths[f] > 0.0
    requires var b := SelectPantsBranch(next, pants); b.Some? && forall f :: f in b.value ==> f in lengths
    ensures var b := SelectPantsBranch(next, pants).value;
      var total := TotalLength(b, lengths);
      var above := LengthAbove(b, lengths, centroidZ, centroidZ(next));
      total > 0.0 && 0.0 < lengths[next] / total && 0.0 <= above / total && lengths[next] / total + above / total <= 1.0
  {
    var b := SelectPantsBranch(next, pants).value;
    AboveWithinTotal(b, lengths, centroidZ, next);
    var total := TotalLength(b, lengths);
    var above := LengthAbove(b, lengths, centroidZ, centroidZ(next));
    assert lengths[next] / total + above / total == (lengths[next] + above) / total;
  }

  // ------------------------------------------------ does_edge_already_exist

  /** Some edge of the layer joins the two features, in either orientation. */
  ghost predicate Joins(edges: seq<Edge>, layer: int, a: int, b: int)
  {
    exists e :: e in edges && e.layer == layer && ((e.start == a && e.end == b) || (e.start == b && e.end == a))
  }

  /** `does_edge_already_exist`: a search over the layer's edges. */
  method DoesEdgeAlreadyExist(edges: seq<Edge>, layer: int, feature1: int, feature2: int) returns (r: bool)
    ensures r <==> Joins(edges, layer, feature1, feature2)
  {
    var es := LayerEdges(edges, layer);
    for i := 0 to |es|
      invariant forall k :: 0 <= k < i ==>
        !((es[k].start == feature1 && es[k].end == feature2) || (es[k].start == feature2 && es[k].end == feature1))
    {
      var start, end := es[i].start, es[i].end;
      if (start == feature1 && end == feature2) || (start == feature2 && end == feature1) {
        assert es[i] in es;
        return true;
      }
    }
    return false;
  }

  /**
   * The existing-edge test ignores orientation, and it agrees with the
   * connectivity lists: an edge joining two listed features appears as a
   * connection of the first to the second.
   */
  lemma JoinsSymmetricAndListed(edges: seq<Edge>, layer: int, ids: seq<int>, a: int, b: int)
    requires Joins(edges, layer, a, b) && a in ids && b in ids
    ensures Joins(edges, layer, b, a)
    ensures exists x :: x in Incident(LayerEdges(edges, layer), ids, a) && x.other == b
  {
    var e :| e in edges && e.layer == layer && ((e.start == a && e.end == b) || (e.start == b && e.end == a));
    var es := LayerEdges(edges, layer);
    var i :| 0 <= i < |es| && es[i] == e;
    IncidentHasEdge(es, ids, i);
    if e.start == a && e.end == b {
      assert Connection(a, b, e.link) in Incident(es, ids, a);
    } else {
      assert Connection(a, b, e.link) in Incident(es, ids, a);
    }
  }
}
