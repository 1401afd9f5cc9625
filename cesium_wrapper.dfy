/** The 3D map wrapper's report of which data layers it currently shows
    (MapWrapperCesium.getActiveLayerIds). The Cesium imagery-layer and
    data-source collections are held as sequences in collection order. */
module CesiumWrapper {

  /** The `_layerType` tag the application stamps on a Cesium layer; only
      the data group counts as an active layer. */
  datatype LayerGroupType = DataGroup | OtherGroup

  /** A Cesium imagery layer or data source, as far as the wrapper reads it. */
  datatype CesiumLayer = CesiumLayer(layerId: string, layerType: LayerGroupType)

  /** The ids of the data-group layers of a collection, in collection order. */
  function DataLayerIds(layers: seq<CesiumLayer>): (ids: seq<string>)
    ensures |ids| <= |layers|
  {
    if layers == [] then []
    else
      var last := layers[|layers| - 1];
      DataLayerIds(layers[..|layers| - 1]) + (if last.layerType == DataGroup then [last.layerId] else [])
  }

  class MapWrapperCesium {
    /** The imagery-layer collection, raster layers in draw order. */
    var imageryLayers: seq<CesiumLayer>
    /** The data-source collection: vector layers whose data has loaded. */
    var dataSources: seq<CesiumLayer>

    constructor(imagery: seq<CesiumLayer>, vectors: seq<CesiumLayer>)
      ensures imageryLayers == imagery && dataSources == vectors
    {
      imageryLayers := imagery;
      dataSources := vectors;
    }

    /** The active layer ids: the raster data layers, then the vector ones. */
    function ActiveLayerIds(): seq<string>
      reads this
    {
      DataLayerIds(imageryLayers) + DataLayerIds(dataSources)
    }

    method GetActiveLayerIds() returns (retList: seq<string>)
      ensures retList == ActiveLayerIds()
    {
      retList := [];
      var vectorLayers := dataSources;
      var imageLayers := imageryLayers;

      // the raster layer ids
      var i := 0;
      while i < |imageLayers|
        invariant 0 <= i <= |imageLayers|
        invariant retList == DataLayerIds(imageLayers[..i])
      {
        assert imageLayers[..i + 1][..i] == imageLayers[..i];
        var layer := imageLayers[i];
        if layer.layerType == DataGroup {
          retList := retList + [layer.layerId];
        }
        i := i + 1;
      }
      assert imageLayers[..i] == imageLayers;

      // the vector layer ids
      i := 0;
      while i < |vectorLayers|
        invariant 0 <= i <= |vectorLayers|
        invariant retList == DataLayerIds(imageLayers) + DataLayerIds(vectorLayers[..i])
      {
        assert vectorLayers[..i + 1][..i] == vectorLayers[..i];
        var layer := vectorLayers[i];
        if layer.layerType == DataGroup {
          retList := retList + [layer.layerId];
        }
        i := i + 1;
      }
      assert vectorLayers[..i] == vectorLayers;
    }
  }

  /** An id is reported exactly when some data-group layer carries it. */
  lemma {:induction false} DataLayerIdsMembership(layers: seq<CesiumLayer>, id: string)
    ensures id in DataLayerIds(layers) <==>
              exists i :: 0 <= i < |layers| && layers[i].layerType == DataGroup && layers[i].layerId == id
  {
    if layers != [] {
      var front := layers[..|layers| - 1];
      DataLayerIdsMembership(front, id);
      assert forall i :: 0 <= i < |front| ==> front[i] == layers[i];
      if id in DataLayerIds(front) {
        var i :| 0 <= i < |front| && front[i].layerType == DataGroup && front[i].layerId == id;
        assert layers[i] == front[i];
      }
    }
  }

  /** At most one id per layer: all of them when every layer is a data
      layer, none when no layer is. */
  lemma {:induction false} DataLayerIdsLength(layers: seq<CesiumLayer>)
    ensures |DataLayerIds(layers)| <= |layers|
    ensures (forall i :: 0 <= i < |layers| ==> layers[i].layerType == DataGroup) ==>
              |DataLayerIds(layers)| == |layers|
    ensures (forall i :: 0 <= i < |layers| ==> layers[i].layerType != DataGroup) ==>
              DataLayerIds(layers) == []
  {
    if layers != [] {
      var front := layers[..|layers| - 1];
      DataLayerIdsLength(front);
      assert forall i :: 0 <= i < |front| ==> front[i] == layers[i];
    }
  }

  /** Filtering a concatenation is filtering each part: so the two loops
      together report the data layers of the imagery collection followed by
      the data sources, as one filter would. */
  lemma {:induction false} DataLayerIdsAppend(xs: seq<CesiumLayer>, ys: seq<CesiumLayer>)
    ensures DataLayerIds(xs + ys) == DataLayerIds(xs) + DataLayerIds(ys)
    decreases |ys|
  {
    if ys == [] {
      assert xs + ys == xs;
    } else {
      var front := ys[..|ys| - 1];
      DataLayerIdsAppend(xs, front);
      assert (xs + ys)[..|xs + ys| - 1] == xs + front;
    }
  }

  /** The wrapper's answer is the filter of both collections laid end to end,
      so it is never longer than the two together and empty when both are. */
  lemma ActiveLayerIdsSpec(m: MapWrapperCesium)
    ensures m.ActiveLayerIds() == DataLayerIds(m.imageryLayers + m.dataSources)
    ensures |m.ActiveLayerIds()| <= |m.imageryLayers| + |m.dataSources|
    ensures m.imageryLayers == [] && m.dataSources == [] ==> m.ActiveLayerIds() == []
  {
    DataLayerIdsAppend(m.imageryLayers, m.dataSources);
    DataLayerIdsLength(m.imageryLayers + m.dataSources);
  }
}
