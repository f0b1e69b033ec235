/**
 * The polygon export button (buttons/export_polygon_button.py): the
 * checks that enable it, and the order in which `execute` writes each
 * polygon's vertices as rows `index;x;y;z`.  A polygon is the vertex list
 * that `__path_to_polygon` builds, two vertices per generatrice (its top
 * then its bottom), so the rows go down one side and back up the other.
 */
module ExportPolygon {
  import opened Wrappers
  import opened Sequences

  /** What the checks read of the selected section layer. */
  datatype SectionLayer = SectionLayer(sessionId: Option<string>, isSpatial: bool, featureCount: nat)

  /**
   * `precondition_check`: the first failing check's message, in the
   * source's order, or success with an empty message.
   */
  function PreconditionCheck<G>(graphLayer: Option<G>, sectionLayer: Option<SectionLayer>): (r: (bool, string))
    ensures r.0 <==>
      sectionLayer.Some? && graphLayer.Some? && sectionLayer.value.sessionId.None? &&
      sectionLayer.value.isSpatial && sectionLayer.value.featureCount > 0
    ensures r.0 ==> r.1 == ""
    ensures sectionLayer.None? ==> r == (false, "No active layer")
  {
    if sectionLayer.None? then (false, "No active layer")
    else if graphLayer.None? then (false, "No graph layer defined")
    else if sectionLayer.value.sessionId.Some? then (false, "Select a non-projected layer")
    else if !sectionLayer.value.isSpatial then (false, "Selected layer has no geometry")
    else if sectionLayer.value.featureCount == 0 then (false, "Selected layer has no features")
    else (true, "")
  }

  /**
   * The message names the first check that failed: a check's message is
   * given exactly when that check fails and every check before it passed.
   */
  lemma PreconditionDiagnosis<G>(graphLayer: Option<G>, sectionLayer: Option<SectionLayer>)
    ensures var r := PreconditionCheck(graphLayer, sectionLayer);
      (r.1 == "No active layer" <==> sectionLayer.None?) &&
      (r.1 == "No graph layer defined" <==> sectionLayer.Some? && graphLayer.None?) &&
      (r.1 == "Select a non-projected layer" <==>
        sectionLayer.Some? && graphLayer.Some? && sectionLayer.value.sessionId.Some?) &&
      (r.1 == "Selected layer has no geometry" <==>
        sectionLayer.Some? && graphLayer.Some? && sectionLayer.value.sessionId.None? && !sectionLayer.value.isSpatial) &&
      (r.1 == "Selected layer has no features" <==>
        sectionLayer.Some? && graphLayer.Some? && sectionLayer.value.sessionId.None? &&
        sectionLayer.value.isSpatial && sectionLayer.value.featureCount == 0)
    ensures var r := PreconditionCheck(graphLayer, sectionLayer); !r.0 ==> r.1 != ""
  {
    var r := PreconditionCheck(graphLayer, sectionLayer);
    assert "No graph layer defined" != "No active layer";
    assert "Select a non-projected layer" != "No active layer" && "Select a non-projected layer" != "No graph layer defined";
    assert "Selected layer has no geometry" != "No active layer" && "Selected layer has no geometry" != "No graph layer defined";
    assert "Selected layer has no geometry" != "Select a non-projected layer";
    assert "Selected layer has no features" != "No active layer" && "Selected layer has no features" != "No graph layer defined";
    assert "Selected layer has no features" != "Select a non-projected layer" && "Selected layer has no features" != "Selected layer has no geometry";
    assert "" != "Selected layer has no features";
  }

  /** One written row: the polygon's index and one of its vertices. */
  datatype Row<V> = Row(index: nat, vertex: V)

  /**
   * The vertex positions `execute` writes for a polygon of `n` vertices:
   * the even ones ascending (`range(0, n, 2)`), the ones of
   * `range(n - 1, 0, -2)` descending, then vertex 0 again.
   */
  function RingOrder(n: nat): (r: seq<nat>)
    requires n > 0
    ensures |r| == (n + 1) / 2 + n / 2 + 1
    ensures forall k :: 0 <= k < |r| ==> r[k] < n
  {
    seq((n + 1) / 2, k requires 0 <= k < (n + 1) / 2 => 2 * k) +
    seq(n / 2, k requires 0 <= k < n / 2 => n - 1 - 2 * k) +
    [0]
  }

  /**
   * For a polygon of an even number of vertices, the rows form a closed
   * ring: it starts and ends at vertex 0, and before closing it visits
   * every vertex exactly once.
   */
  lemma RingOrderEven(n: nat)
    requires n > 0 && n % 2 == 0
    ensures |RingOrder(n)| == n + 1
    ensures RingOrder(n)[0] == 0 && RingOrder(n)[n] == 0
    ensures NoDup(RingOrder(n)[..n])
    ensures forall j :: 0 <= j < n ==> j in RingOrder(n)[..n]
  {
    var r := RingOrder(n);
    var h := n / 2;
    assert forall k :: 0 <= k < h ==> r[k] == 2 * k;
    assert forall k :: h <= k < n ==> r[k] == n - 1 - 2 * (k - h);
    forall j | 0 <= j < n
      ensures j in r[..n]
    {
      if j % 2 == 0 {
        assert r[..n][j / 2] == j;
      } else {
        assert r[..n][h + (n - 1 - j) / 2] == j;
      }
    }
  }

  /** For an odd number of vertices, the last vertex is written twice before the ring closes. */
  lemma RingOrderOdd(n: nat)
    requires n > 1 && n % 2 == 1
    ensures var r := RingOrder(n);
      r[(n + 1) / 2 - 1] == n - 1 && r[(n + 1) / 2] == n - 1
  {
  }

  /** The rows written for polygon `index`. */
  function PolygonRows<V>(index: nat, vertices: seq<V>): (r: seq<Row<V>>)
    requires |vertices| > 0
    ensures |r| == |RingOrder(|vertices|)|
    ensures forall k :: 0 <= k < |r| ==> r[k] == Row(index, vertices[RingOrder(|vertices|)[k]])
  {
    var order := RingOrder(|vertices|);
    seq(|order|, k requires 0 <= k < |order| => Row(index, vertices[order[k]]))
  }

  /** The rows of one polygon, written by the two `range` loops and the closing row. */
  method WritePolygon<V>(index: nat, vertices: seq<V>) returns (rows: seq<Row<V>>)
    requires |vertices| > 0
    ensures rows == PolygonRows(index, vertices)
  {
    var n := |vertices|;
    ghost var order := RingOrder(n);
    rows := [];
    var i := 0;
    while i < n
      invariant i % 2 == 0 && 0 <= i <= n + 1
      invariant |rows| == i / 2
      invariant forall k :: 0 <= k < |rows| ==> rows[k] == Row(index, vertices[2 * k])
    {
      rows := rows + [Row(index, vertices[i])];
      i := i + 2;
    }
    assert |rows| == (n + 1) / 2;
    ghost var up := |rows|;
    i := n - 1;
    while i > 0
      invariant i == n - 1 - 2 * (|rows| - up) && i >= -1
      invariant |rows| >= up
      invariant forall k :: 0 <= k < up ==> rows[k] == Row(index, vertices[2 * k])
      invariant forall k :: up <= k < |rows| ==> rows[k] == Row(index, vertices[n - 1 - 2 * (k - up)])
    {
      rows := rows + [Row(index, vertices[i])];
      i := i - 2;
    }
    assert |rows| - up == n / 2;
    rows := rows + [Row(index, vertices[0])];
  }

  /** The rows of the polygons, one after the other. */
  function AllRows<V>(polygons: seq<seq<V>>): seq<Row<V>>
    requires forall p :: p in polygons ==> |p| > 0
  {
    if |polygons| == 0 then []
    else
      var n := |polygons| - 1;
      assert polygons[n] in polygons;
      AllRows(polygons[..n]) + PolygonRows(n, polygons[n])
  }

  /** The position of the first polygon without vertices, or the number of polygons. */
  function FirstEmpty<V>(polygons: seq<seq<V>>): (k: nat)
    ensures k <= |polygons| && forall j :: 0 <= j < k ==> |polygons[j]| > 0
    ensures k < |polygons| ==> polygons[k] == []
  {
    if |polygons| == 0 then 0
    else if polygons[0] == [] then 0
    else 1 + FirstEmpty(polygons[1..])
  }

  /**
   * `execute`, after the file dialog: an empty file name writes nothing
   * (`None`).  Otherwise the file receives the rows of each polygon in
   * turn; a polygon without vertices stops the export with an error
   * (`vertices[0]`), after the rows of the polygons before it.
   */
  method Execute<V>(fileName: string, polygons: seq<seq<V>>) returns (file: Option<seq<Row<V>>>, failed: bool)
    ensures |fileName| == 0 ==> file.None? && !failed
    ensures |fileName| > 0 ==> file.Some?
    ensures file.Some? ==> (failed <==> FirstEmpty(polygons) < |polygons|)
    ensures file.Some? ==> file.value == AllRows(polygons[..FirstEmpty(polygons)])
  {
    if |fileName| == 0 {
      return None, false;
    }
    var stop := FirstEmpty(polygons);
    var out := [];
    failed := false;
    var index := 0;
    while index < |polygons|
      invariant index <= stop
      invariant out == AllRows(polygons[..index])
    {
      var vertices := polygons[index];
      if |vertices| == 0 {
        failed := true;
        break;
      }
      var rows := WritePolygon(index, vertices);
      assert polygons[..index + 1][..index] == polygons[..index];
      out := out + rows;
      index := index + 1;
    }
    assert failed <==> index < |polygons|;
    file := Some(out);
  }

  /** Every row of polygon `index` starts with that index, and the file holds the polygons in order. */
  lemma {:induction false} RowsCarryIndex<V>(polygons: seq<seq<V>>)
    requires forall p :: p in polygons ==> |p| > 0
    ensures forall r :: r in AllRows(polygons) ==> r.index < |polygons| && r.vertex in polygons[r.index]
  {
    if |polygons| > 0 {
      var n := |polygons| - 1;
      assert forall p :: p in polygons[..n] ==> p in polygons;
      RowsCarryIndex(polygons[..n]);
      forall r | r in PolygonRows(n, polygons[n])
        ensures r.index == n && r.vertex in polygons[n]
      {
      }
    }
  }
}
