/**
 The dashboard route at /: the loader fetches three named flags with HMGET
 and folds the positional reply into a record, and the page picks one
 heading per tracked flag.
 */
module IndexRoute {
  import opened FeatureStore
  import FeaturesRoute

  /** The flags the loader asks for, in this order. */
  const DashboardKeys: seq<string> := ["chart", "graph", "fake"]

  /** Reply position i reads as on exactly when it holds "1"; null and a missing position read as off. */
  predicate ReplyFlag(data: seq<Option<string>>, i: nat)
  {
    i < |data| && data[i] == Some(On)
  }

  /** The last position at which `k` is requested. */
  function LastIndex(keys: seq<string>, k: string): (i: nat)
    requires k in keys
    ensures i < |keys| && keys[i] == k
    ensures forall j :: i < j < |keys| ==> keys[j] != k
    decreases |keys|
  {
    if keys[|keys| - 1] == k then |keys| - 1
    else LastIndex(keys[..|keys| - 1], k)
  }

  /**
   loadFeatures, given the HMGET reply: `keys.reduce` that writes
   `acc[key] = data[index] === "1"` for each key in order, so a repeated key
   keeps the value decoded at its last position.
   */
  function LoadFeatures(keys: seq<string>, data: seq<Option<string>>): (r: map<string, bool>)
    ensures forall k :: k in r <==> k in keys
    ensures forall k :: k in r ==> r[k] == ReplyFlag(data, LastIndex(keys, k))
    decreases |keys|
  {
    if |keys| == 0 then map[]
    else
      var n := |keys| - 1;
      LoadFeatures(keys[..n], data)[keys[n] := ReplyFlag(data, n)]
  }

  /** A key requested only once, at position i, takes the value decoded from reply position i. */
  lemma LoadFeaturesAt(keys: seq<string>, data: seq<Option<string>>, i: nat)
    requires i < |keys|
    requires forall j :: 0 <= j < |keys| && j != i ==> keys[j] != keys[i]
    ensures keys[i] in LoadFeatures(keys, data)
    ensures LoadFeatures(keys, data)[keys[i]] <==> i < |data| && data[i] == Some(On)
  {
  }

  /** Read against the store's HMGET reply, every requested key gets the flag a reader of the store sees. */
  lemma LoadFeaturesReflectsStore(store: Hash, keys: seq<string>)
    ensures forall k :: k in LoadFeatures(keys, HMGet(store, keys)) <==> k in keys
    ensures forall k :: k in keys ==> LoadFeatures(keys, HMGet(store, keys))[k] == Flag(store, k)
  {
  }

  /** The loader: loadFeatures over the fixed keys. */
  function Loader(data: seq<Option<string>>): (features: map<string, bool>)
    ensures features.Keys == {"chart", "graph", "fake"}
    ensures features["chart"] == ReplyFlag(data, 0)
    ensures features["graph"] == ReplyFlag(data, 1)
    ensures features["fake"] == ReplyFlag(data, 2)
  {
    var features := LoadFeatures(DashboardKeys, data);
    assert "chart" in DashboardKeys && "graph" in DashboardKeys && "fake" in DashboardKeys;
    LoadFeaturesAt(DashboardKeys, data, 0);
    LoadFeaturesAt(DashboardKeys, data, 1);
    LoadFeaturesAt(DashboardKeys, data, 2);
    features
  }

  /** JavaScript truthiness of `features[name]`: a missing property is `undefined`, hence false. */
  predicate Truthy(features: map<string, bool>, name: string)
    ensures name !in features ==> !Truthy(features, name)
    ensures name in features ==> (Truthy(features, name) <==> features[name])
  {
    name in features && features[name]
  }

  /** The headings the Index page renders: its title, then one per tracked flag. */
  function Headings(features: map<string, bool>): (h: seq<string>)
    ensures |h| == 3 && h[0] == "Dashboard"
    ensures h[1] == "Chart" <==> Truthy(features, "chart")
    ensures h[1] == "No Chart" <==> !Truthy(features, "chart")
    ensures h[2] == "Graph" <==> Truthy(features, "graph")
    ensures h[2] == "No Graph" <==> !Truthy(features, "graph")
  {
    ["Dashboard",
     if Truthy(features, "chart") then "Chart" else "No Chart",
     if Truthy(features, "graph") then "Graph" else "No Graph"]
  }

  /** The fetched `fake` flag never shows on the page. */
  lemma FakeNeverShown(features: map<string, bool>, b: bool)
    ensures Headings(features["fake" := b]) == Headings(features)
    ensures Headings(features - {"fake"}) == Headings(features)
  {
  }

  /** Against the store, the page shows exactly the chart and graph flags a reader sees. */
  lemma DashboardShowsStore(store: Hash)
    ensures Headings(Loader(HMGet(store, DashboardKeys)))
         == ["Dashboard",
             if Flag(store, "chart") then "Chart" else "No Chart",
             if Flag(store, "graph") then "Graph" else "No Graph"]
  {
  }

  /** With chart = "1" and graph = "0" the page shows "Chart" and "No Graph". */
  lemma DashboardExample()
    ensures Headings(Loader(HMGet(map["chart" := "1", "graph" := "0"], DashboardKeys)))
         == ["Dashboard", "Chart", "No Graph"]
  {
  }

  /** After enabling or disabling a non-empty name, fetching just that name reads back the value written. */
  lemma SetThenFetch(store: Hash, n: string, b: bool)
    requires |n| > 0
    ensures LoadFeatures([n], HMGet(FeaturesRoute.Dispatch(store, Some(n), Some(if b then "enable" else "disable")).store, [n]))
         == map[n := b]
  {
  }

  /** After deleting a name, fetching just that name reads it as off. */
  lemma DeleteThenFetch(store: Hash, n: string)
    requires |n| > 0
    ensures LoadFeatures([n], HMGet(FeaturesRoute.Dispatch(store, Some(n), Some("delete")).store, [n]))
         == map[n := false]
  {
  }
}
