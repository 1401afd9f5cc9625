/** Re-ranking of the data layers after the 3D map's layers change
    (MapReducer.updateLayerOrder). The `layers.data` ordered map of the
    application state is held as a sequence of layer records in state order,
    each keyed by its id. */
module LayerOrder {
  import opened JsValues
  import opened CesiumWrapper

  /** How a layer's data is handled; the three vector kinds are the ones the
      3D map may not have listed yet. */
  datatype LayerHandler = VectorGeoJson | VectorTopoJson | VectorKml | OtherHandler

  /** An entry of `layers.data`: a configured layer, or the bare entry that
      writing a display index under an id with no layer creates. `others`
      stands for every field this operation neither reads nor writes. */
  datatype LayerRecord =
    | DataLayer(id: string, isActive: bool, handleAs: LayerHandler, displayIndex: int, others: map<string, JsAny>)
    | IndexOnly(id: string, displayIndex: int)

  predicate IsVectorHandler(h: LayerHandler)
  {
    h == VectorGeoJson || h == VectorTopoJson || h == VectorKml
  }

  predicate IsActiveVector(r: LayerRecord)
  {
    r.DataLayer? && r.isActive && IsVectorHandler(r.handleAs)
  }

  /** The ids of the active vector layers, in state order. */
  function ActiveVectorIds(layers: seq<LayerRecord>): (ids: seq<string>)
    ensures |ids| <= |layers|
  {
    if layers == [] then []
    else
      var last := layers[|layers| - 1];
      ActiveVectorIds(layers[..|layers| - 1]) + (if IsActiveVector(last) then [last.id] else [])
  }

  /** The reduce: each id not yet in the order is appended to it. */
  function AppendMissing(order: seq<string>, ids: seq<string>): (r: seq<string>)
    ensures |order| <= |r| <= |order| + |ids|
  {
    if ids == [] then order
    else
      var acc := AppendMissing(order, ids[..|ids| - 1]);
      var id := ids[|ids| - 1];
      if id in acc then acc else acc + [id]
  }

  /** The first record stored under an id, if any. */
  function Find(layers: seq<LayerRecord>, id: string): Option<LayerRecord>
  {
    if layers == [] then None
    else if layers[0].id == id then Some(layers[0])
    else Find(layers[1..], id)
  }

  /** The record under `id` once its display index is `v`: the layer with
      only that field changed, or a bare entry when there was none. */
  function WithIndex(found: Option<LayerRecord>, id: string, v: int): LayerRecord
  {
    match found
    case Some(r) => r.(displayIndex := v)
    case None => IndexOnly(id, v)
  }

  /** `setIn(["layers", data, id, "displayIndex"], v)`. */
  function SetDisplayIndex(layers: seq<LayerRecord>, id: string, v: int): (r: seq<LayerRecord>)
    ensures |r| == |layers| + (if Find(layers, id).None? then 1 else 0)
  {
    if layers == [] then [IndexOnly(id, v)]
    else if layers[0].id == id then [layers[0].(displayIndex := v)] + layers[1..]
    else [layers[0]] + SetDisplayIndex(layers[1..], id, v)
  }

  /** The state after the first k passes of the ranking loop. */
  function RankPrefix(layers: seq<LayerRecord>, order: seq<string>, k: nat): seq<LayerRecord>
    requires k <= |order|
  {
    if k == 0 then layers
    else SetDisplayIndex(RankPrefix(layers, order, k - 1), order[k - 1], |order| - (k - 1))
  }

  /** The new data layers: the merged order, ranked from its length down to 1. */
  function Reordered(layers: seq<LayerRecord>, mapOrder: seq<string>): seq<LayerRecord>
  {
    var order := AppendMissing(mapOrder, ActiveVectorIds(layers));
    RankPrefix(layers, order, |order|)
  }

  /** updateLayerOrder, on the data layers of the state and the 3D map. */
  method UpdateLayerOrder(layers: seq<LayerRecord>, map3D: MapWrapperCesium) returns (state: seq<LayerRecord>)
    ensures state == Reordered(layers, map3D.ActiveLayerIds())
  {
    // the currently active vector layer ids
    var activeVectorIds := ActiveVectorIds(layers);

    // the order according to the 3D map
    var layerOrder := map3D.GetActiveLayerIds();

    // make sure the vector layers are accounted for
    ghost var mapOrder := layerOrder;
    var j := 0;
    while j < |activeVectorIds|
      invariant 0 <= j <= |activeVectorIds|
      invariant layerOrder == AppendMissing(mapOrder, activeVectorIds[..j])
    {
      assert activeVectorIds[..j + 1][..j] == activeVectorIds[..j];
      var id := activeVectorIds[j];
      if id !in layerOrder {
        layerOrder := layerOrder + [id];
      }
      j := j + 1;
    }
    assert activeVectorIds[..j] == activeVectorIds;

    // update the ordering in the state
    state := layers;
    var i := 0;
    while i < |layerOrder|
      invariant 0 <= i <= |layerOrder|
      invariant state == RankPrefix(layers, layerOrder, i)
    {
      state := SetDisplayIndex(state, layerOrder[i], |layerOrder| - i);
      i := i + 1;
    }
  }

  // ---------------------------------------------------------------------
  // The active vector ids
  // ---------------------------------------------------------------------

  /** An id is collected exactly when an active vector layer carries it. */
  lemma {:induction false} ActiveVectorIdsMembership(layers: seq<LayerRecord>, id: string)
    ensures id in ActiveVectorIds(layers) <==>
              exists i :: 0 <= i < |layers| && IsActiveVector(layers[i]) && layers[i].id == id
  {
    if layers != [] {
      var front := layers[..|layers| - 1];
      ActiveVectorIdsMembership(front, id);
      assert forall i :: 0 <= i < |front| ==> front[i] == layers[i];
      if id in ActiveVectorIds(front) {
        var i :| 0 <= i < |front| && IsActiveVector(front[i]) && front[i].id == id;
        assert layers[i] == front[i];
      }
    }
  }

  // ---------------------------------------------------------------------
  // The merged order
  // ---------------------------------------------------------------------

  /** The 3D map's own order is kept, unchanged, as a prefix. */
  lemma {:induction false} AppendMissingPrefix(order: seq<string>, ids: seq<string>)
    ensures |order| <= |AppendMissing(order, ids)|
    ensures AppendMissing(order, ids)[..|order|] == order
  {
    if ids != [] {
      AppendMissingPrefix(order, ids[..|ids| - 1]);
      var acc := AppendMissing(order, ids[..|ids| - 1]);
      assert (acc + [ids[|ids| - 1]])[..|order|] == acc[..|order|];
    }
  }

  /** The merged order holds exactly the map's ids and the given ids. */
  lemma {:induction false} AppendMissingMembership(order: seq<string>, ids: seq<string>, id: string)
    ensures id in AppendMissing(order, ids) <==> id in order || id in ids
  {
    if ids != [] {
      var front := ids[..|ids| - 1];
      AppendMissingMembership(order, front, id);
      assert ids == front + [ids[|ids| - 1]];
    }
  }

  predicate NoDuplicates(s: seq<string>)
  {
    forall i, j :: 0 <= i < j < |s| ==> s[i] != s[j]
  }

  /** A duplicate-free map order stays duplicate-free: every missing id is
      added once. */
  lemma {:induction false} AppendMissingNoDuplicates(order: seq<string>, ids: seq<string>)
    requires NoDuplicates(order)
    ensures NoDuplicates(AppendMissing(order, ids))
  {
    if ids != [] {
      AppendMissingNoDuplicates(order, ids[..|ids| - 1]);
      var acc := AppendMissing(order, ids[..|ids| - 1]);
      var id := ids[|ids| - 1];
      if id !in acc {
        var r := acc + [id];
        forall i, j | 0 <= i < j < |r|
          ensures r[i] != r[j]
        {
          if j == |acc| {
            assert r[i] == acc[i];
          }
        }
      }
    }
  }

  /** Exactly the ids of the merged order, which the 3D map's own order
      starts, are all the active vector ids and the map's ids. */
  lemma MergedOrderSpec(mapOrder: seq<string>, layers: seq<LayerRecord>)
    ensures |mapOrder| <= |AppendMissing(mapOrder, ActiveVectorIds(layers))|
    ensures AppendMissing(mapOrder, ActiveVectorIds(layers))[..|mapOrder|] == mapOrder
    ensures forall i :: 0 <= i < |layers| && IsActiveVector(layers[i]) ==>
              layers[i].id in AppendMissing(mapOrder, ActiveVectorIds(layers))
    ensures NoDuplicates(mapOrder) ==> NoDuplicates(AppendMissing(mapOrder, ActiveVectorIds(layers)))
  {
    var ids := ActiveVectorIds(layers);
    AppendMissingPrefix(mapOrder, ids);
    forall i | 0 <= i < |layers| && IsActiveVector(layers[i])
      ensures layers[i].id in AppendMissing(mapOrder, ids)
    {
      ActiveVectorIdsMembership(layers, layers[i].id);
      AppendMissingMembership(mapOrder, ids, layers[i].id);
    }
    if NoDuplicates(mapOrder) {
      AppendMissingNoDuplicates(mapOrder, ids);
    }
  }

  // ---------------------------------------------------------------------
  // The ranking loop
  // ---------------------------------------------------------------------

  /** Writing one display index changes the record under that id, and only
      its display index; every other id reads as before. */
  lemma {:induction false} SetDisplayIndexFind(layers: seq<LayerRecord>, id: string, v: int, other: string)
    ensures Find(SetDisplayIndex(layers, id, v), id) == Some(WithIndex(Find(layers, id), id, v))
    ensures other != id ==> Find(SetDisplayIndex(layers, id, v), other) == Find(layers, other)
  {
    if layers != [] && layers[0].id != id {
      SetDisplayIndexFind(layers[1..], id, v, other);
      var r := SetDisplayIndex(layers, id, v);
      assert r[0] == layers[0] && r[1..] == SetDisplayIndex(layers[1..], id, v);
    }
  }

  /** After the first k passes, an id not among the first k of the order
      reads as before. */
  lemma {:induction false} RankPrefixUntouched(layers: seq<LayerRecord>, order: seq<string>, k: nat, id: string)
    requires k <= |order| && id !in order[..k]
    ensures Find(RankPrefix(layers, order, k), id) == Find(layers, id)
  {
    if k > 0 {
      assert order[..k - 1] == order[..k][..k - 1];
      assert order[k - 1] in order[..k];
      RankPrefixUntouched(layers, order, k - 1, id);
      SetDisplayIndexFind(RankPrefix(layers, order, k - 1), order[k - 1], |order| - (k - 1), id);
    }
  }

  /** Earlier passes leave no trace under a display index written later:
      only the last write to an id's display index shows. */
  lemma {:induction false} RankPrefixReindex(layers: seq<LayerRecord>, order: seq<string>, k: nat, id: string, v: int)
    requires k <= |order|
    ensures WithIndex(Find(RankPrefix(layers, order, k), id), id, v) == WithIndex(Find(layers, id), id, v)
  {
    if k > 0 {
      var prev := RankPrefix(layers, order, k - 1);
      RankPrefixReindex(layers, order, k - 1, id, v);
      SetDisplayIndexFind(prev, order[k - 1], |order| - (k - 1), id);
    }
  }

  /** After the first k passes, the id at position i < k, when it does not
      come again before k, has display index |order| - i and otherwise its
      old fields. */
  lemma {:induction false} RankPrefixRanked(layers: seq<LayerRecord>, order: seq<string>, k: nat, i: nat)
    requires k <= |order| && i < k && order[i] !in order[i + 1..k]
    ensures Find(RankPrefix(layers, order, k), order[i])
            == Some(WithIndex(Find(layers, order[i]), order[i], |order| - i))
  {
    var prev := RankPrefix(layers, order, k - 1);
    if i == k - 1 {
      SetDisplayIndexFind(prev, order[i], |order| - i, order[i]);
      RankPrefixReindex(layers, order, k - 1, order[i], |order| - i);
    } else {
      assert order[k - 1] in order[i + 1..k];
      assert order[i + 1..k - 1] == order[i + 1..k][..k - 1 - (i + 1)];
      RankPrefixRanked(layers, order, k - 1, i);
      SetDisplayIndexFind(prev, order[k - 1], |order| - (k - 1), order[i]);
    }
  }

  /** updateLayerOrder ranks the merged order from its length down to 1,
      changing only the display index of each ranked layer (creating a bare
      entry for an id with no layer) and leaving every other id as it was. */
  lemma ReorderedSpec(layers: seq<LayerRecord>, mapOrder: seq<string>)
    requires NoDuplicates(mapOrder)
    ensures var order := AppendMissing(mapOrder, ActiveVectorIds(layers));
            forall i :: 0 <= i < |order| ==>
              Find(Reordered(layers, mapOrder), order[i])
              == Some(WithIndex(Find(layers, order[i]), order[i], |order| - i))
    ensures forall id :: id !in AppendMissing(mapOrder, ActiveVectorIds(layers)) ==>
              Find(Reordered(layers, mapOrder), id) == Find(layers, id)
  {
    var order := AppendMissing(mapOrder, ActiveVectorIds(layers));
    MergedOrderSpec(mapOrder, layers);
    forall i | 0 <= i < |order|
      ensures Find(Reordered(layers, mapOrder), order[i])
              == Some(WithIndex(Find(layers, order[i]), order[i], |order| - i))
    {
      RankPrefixRanked(layers, order, |order|, i);
    }
    forall id | id !in order
      ensures Find(Reordered(layers, mapOrder), id) == Find(layers, id)
    {
      assert order[..|order|] == order;
      RankPrefixUntouched(layers, order, |order|, id);
    }
  }

  /** An id the merged order lists more than once (possible only when the 3D
      map reports it twice) ends with the index of its last position, the
      smaller one: the later write wins. */
  lemma ReorderedLastWins(layers: seq<LayerRecord>, mapOrder: seq<string>, i: nat)
    requires i < |AppendMissing(mapOrder, ActiveVectorIds(layers))|
    requires var order := AppendMissing(mapOrder, ActiveVectorIds(layers));
             order[i] !in order[i + 1..]
    ensures var order := AppendMissing(mapOrder, ActiveVectorIds(layers));
            Find(Reordered(layers, mapOrder), order[i])
            == Some(WithIndex(Find(layers, order[i]), order[i], |order| - i))
  {
    var order := AppendMissing(mapOrder, ActiveVectorIds(layers));
    assert order[i + 1..] == order[i + 1..|order|];
    RankPrefixRanked(layers, order, |order|, i);
  }

  lemma DuplicateExample()
    ensures var layers := [IndexOnly("a", 0)];
            Find(Reordered(layers, ["a", "b", "a"]), "a") == Some(IndexOnly("a", 1))
  {
    var layers := [IndexOnly("a", 0)];
    var order := AppendMissing(["a", "b", "a"], ActiveVectorIds(layers));
    assert ActiveVectorIds(layers) == [];
    assert order == ["a", "b", "a"];
    ReorderedLastWins(layers, ["a", "b", "a"], 2);
  }
}
