/**
 The admin route at /features: the loader that lists every flag sorted by
 name, the form action that creates, enables, disables or deletes one flag,
 and the toggle control's choice of action for a listed row.
 */
module FeaturesRoute {
  import opened StringOrder
  import opened FeatureStore

  /** One listed flag: its name and whether it is on (the source's `[string, boolean]`). */
  datatype Entry = Entry(name: string, active: bool)

  // ---------------------------------------------------------------------
  // Loading: decoding the flat HGETALL reply and sorting by name
  // ---------------------------------------------------------------------

  /** The k-th field/value pair of a flat reply; a value past the end reads as `undefined`, hence off. */
  function PairAt(data: seq<string>, k: nat): Entry
    requires 2 * k < |data|
  {
    Entry(FieldAt(data, k), 2 * k + 1 < |data| && data[2 * k + 1] == On)
  }

  /** The pairs of a flat reply, two elements at a time, in reply order. */
  function DecodeReply(data: seq<string>): (r: seq<Entry>)
    ensures |r| == (|data| + 1) / 2
    ensures |data| > 0 ==> r[0].name == data[0]
    decreases |data|
  {
    if |data| == 0 then []
    else if |data| == 1 then [Entry(data[0], false)]
    else [Entry(data[0], data[1] == On)] + DecodeReply(data[2..])
  }

  /** A reply of length 2n (or 2n - 1) decodes to n entries, entry k taken from positions 2k and 2k + 1. */
  lemma {:induction false} DecodeReplyAt(data: seq<string>)
    ensures |DecodeReply(data)| == (|data| + 1) / 2
    ensures forall k :: 0 <= k < |DecodeReply(data)| ==> DecodeReply(data)[k] == PairAt(data, k)
    decreases |data|
  {
    if |data| >= 2 {
      var rest := data[2..];
      DecodeReplyAt(rest);
      forall k | 0 < k < |DecodeReply(data)|
        ensures DecodeReply(data)[k] == PairAt(data, k)
      {
        assert DecodeReply(data)[k] == DecodeReply(rest)[k - 1];
        assert PairAt(rest, k - 1) == PairAt(data, k);
      }
    }
  }

  /** The comparator handed to `sort`: 1, -1 or 0 as the first name is greater, less or equal. */
  function Compare(a: Entry, b: Entry): (r: int)
    ensures r == 1 <==> Less(b.name, a.name)
    ensures r == -1 <==> Less(a.name, b.name)
    ensures r == 0 <==> a.name == b.name
  {
    Irreflexive(a.name);
    Asymmetric(a.name, b.name);
    Trichotomy(a.name, b.name);
    if Less(b.name, a.name) then 1
    else if Less(a.name, b.name) then -1
    else 0
  }

  /** The comparator is antisymmetric. */
  lemma CompareAntisymmetric(a: Entry, b: Entry)
    ensures Compare(a, b) == -Compare(b, a)
  {
  }

  /** Ascending by name. */
  ghost predicate SortedByName(s: seq<Entry>)
  {
    forall i, j :: 0 <= i < j < |s| ==> LessEq(s[i].name, s[j].name)
  }

  /** No two entries share a name. */
  ghost predicate DistinctNames(s: seq<Entry>)
  {
    forall i, j :: 0 <= i < j < |s| ==> s[i].name != s[j].name
  }

  /** Neighbours k - 1 and k are in order. */
  ghost predicate InOrderAt(s: seq<Entry>, k: int)
    requires 0 < k < |s|
  {
    LessEq(s[k - 1].name, s[k].name)
  }

  /** Neighbours in order are enough for the whole sequence to be in order. */
  lemma {:induction false} SortedFromNeighbours(s: seq<Entry>)
    requires forall k :: 0 < k < |s| ==> InOrderAt(s, k)
    ensures SortedByName(s)
    decreases |s|
  {
    if |s| > 1 {
      var rest := s[1..];
      forall k | 0 < k < |rest|
        ensures InOrderAt(rest, k)
      {
        assert InOrderAt(s, k + 1);
      }
      SortedFromNeighbours(rest);
      assert InOrderAt(s, 1);
      forall i, j | 0 <= i < j < |s|
        ensures LessEq(s[i].name, s[j].name)
      {
        if i > 0 {
          assert s[i] == rest[i - 1] && s[j] == rest[j - 1];
        } else if j > 1 {
          assert s[1] == rest[0] && s[j] == rest[j - 1];
          LessEqTransitive(s[0].name, s[1].name, s[j].name);
        }
      }
    }
  }

  /** Exchanges the neighbours at i - 1 and i. */
  method SwapDown(a: array<Entry>, i: int)
    requires 0 < i < a.Length
    modifies a
    ensures a[..] == old(a[..])[i - 1 := old(a[i])][i := old(a[i - 1])]
    ensures multiset(a[..]) == multiset(old(a[..]))
  {
    a[i - 1], a[i] := a[i], a[i - 1];
  }

  /**
   The inner loop's step: swapping the out-of-order neighbours at j - 1 and j
   moves the one gap in the order from j down to j - 1.
   */
  lemma SwapStep(s: seq<Entry>, s': seq<Entry>, i: int, j: int)
    requires 0 < j <= i < |s| && s' == s[j - 1 := s[j]][j := s[j - 1]]
    requires forall k :: 0 < k <= i && k != j ==> InOrderAt(s, k)
    requires j < i ==> LessEq(s[j - 1].name, s[j + 1].name)
    requires Less(s[j].name, s[j - 1].name)
    ensures forall k :: 0 < k <= i && k != j - 1 ==> InOrderAt(s', k)
    ensures 0 < j - 1 ==> LessEq(s'[j - 2].name, s'[j].name)
  {
    Asymmetric(s[j].name, s[j - 1].name);
    forall k | 0 < k <= i && k != j - 1
      ensures InOrderAt(s', k)
    {
      if k != j && k != j + 1 {
        assert InOrderAt(s, k);
      }
    }
    if 0 < j - 1 {
      assert InOrderAt(s, j - 1);
    }
  }

  /**
   One pass of the sort: moves a[i] down past every earlier entry the
   comparator puts after it, so that a[..i + 1] ends in order.
   */
  method InsertDown(a: array<Entry>, i: int)
    requires 0 < i < a.Length
    requires forall k :: 0 < k < i ==> InOrderAt(a[..], k)
    modifies a
    ensures forall k :: 0 < k <= i ==> InOrderAt(a[..], k)
    ensures multiset(a[..]) == multiset(old(a[..]))
  {
    var j := i;
    while j > 0 && Compare(a[j - 1], a[j]) > 0
      invariant 0 <= j <= i
      invariant forall k :: 0 < k <= i && k != j ==> InOrderAt(a[..], k)
      invariant 0 < j < i ==> LessEq(a[j - 1].name, a[j + 1].name)
      invariant multiset(a[..]) == multiset(old(a[..]))
    {
      SwapStep(a[..], a[..][j - 1 := a[j]][j := a[j - 1]], i, j);
      SwapDown(a, j);
      j := j - 1;
    }
  }

  /**
   `features.sort(compare)` on the array, in place: an insertion sort that
   swaps neighbours while the comparator calls them out of order.
   */
  method SortByName(a: array<Entry>)
    modifies a
    ensures SortedByName(a[..])
    ensures multiset(a[..]) == multiset(old(a[..]))
  {
    var i := 1;
    while i < a.Length
      invariant a.Length == 0 || 1 <= i <= a.Length
      invariant forall k :: 0 < k < i && k < a.Length ==> InOrderAt(a[..], k)
      invariant multiset(a[..]) == multiset(old(a[..]))
    {
      InsertDown(a, i);
      i := i + 1;
    }
    SortedFromNeighbours(a[..]);
  }

  /**
   loadAllFeatures, given the flat HGETALL reply: decode the pairs two
   elements at a time, then sort them ascending by name.
   */
  method LoadAllFeatures(data: seq<string>) returns (features: seq<Entry>)
    ensures SortedByName(features)
    ensures multiset(features) == multiset(DecodeReply(data))
  {
    var decoded: seq<Entry> := [];
    var i := 0;
    while i < |data|
      invariant 0 <= i <= |data| + 1 && i % 2 == 0
      invariant i > |data| ==> |data| % 2 == 1
      invariant |decoded| == i / 2
      invariant forall k :: 0 <= k < |decoded| ==> decoded[k] == PairAt(data, k)
    {
      decoded := decoded + [Entry(data[i], i + 1 < |data| && data[i + 1] == On)];
      i := i + 2;
    }
    DecodeReplyAt(data);
    assert decoded == DecodeReply(data);
    var a := new Entry[|decoded|](k requires 0 <= k < |decoded| => decoded[k]);
    assert a[..] == decoded;
    SortByName(a);
    features := a[..];
  }

  // ---------------------------------------------------------------------
  // What the listing says about the store
  // ---------------------------------------------------------------------

  /** `features` lists the store: sorted, one entry per field, each with the flag a reader sees. */
  ghost predicate ListsStore(features: seq<Entry>, store: Hash)
  {
    && SortedByName(features)
    && DistinctNames(features)
    && (forall e :: e in features <==> e.name in store && e.active == Flag(store, e.name))
  }

  /** Decoding an HGETALL reply gives each field of the store once, with its flag. */
  lemma DecodedFromStore(store: Hash, data: seq<string>)
    requires IsHGetAllReply(store, data)
    ensures DistinctNames(DecodeReply(data))
    ensures forall e :: e in DecodeReply(data) <==> e.name in store && e.active == Flag(store, e.name)
  {
    var d := DecodeReply(data);
    DecodeReplyAt(data);
    assert |d| == |data| / 2;
    forall e | e in d
      ensures e.name in store && e.active == Flag(store, e.name)
    {
      var k :| 0 <= k < |d| && d[k] == e;
      assert e == PairAt(data, k) && e.name == FieldAt(data, k);
    }
    forall e: Entry | e.name in store && e.active == Flag(store, e.name)
      ensures e in d
    {
      var k :| 0 <= k < |data| / 2 && FieldAt(data, k) == e.name;
      assert d[k] == PairAt(data, k) == e;
    }
    forall i, j | 0 <= i < j < |d|
      ensures d[i].name != d[j].name
    {
      assert d[i].name == FieldAt(data, i) && d[j].name == FieldAt(data, j);
    }
  }

  /** Taking one entry out of a sequence with distinct names leaves distinct names, none of them its name. */
  lemma DistinctNamesRemove(t: seq<Entry>, j: int)
    requires DistinctNames(t) && 0 <= j < |t|
    ensures DistinctNames(t[..j] + t[j + 1..])
    ensures forall y :: y in t[..j] + t[j + 1..] ==> y.name != t[j].name
  {
  }

  /** A permutation of a sequence with distinct names has distinct names. */
  lemma {:induction false} DistinctNamesPermutation(s: seq<Entry>, t: seq<Entry>)
    requires multiset(s) == multiset(t) && DistinctNames(t)
    ensures DistinctNames(s)
    decreases |s|
  {
    if |s| > 0 {
      var x, rest := s[0], s[1..];
      assert x in multiset(t);
      var j :| 0 <= j < |t| && t[j] == x;
      var t' := t[..j] + t[j + 1..];
      RemoveOne(s, t, j);
      DistinctNamesRemove(t, j);
      DistinctNamesPermutation(rest, t');
      forall q | 0 <= q < |rest|
        ensures rest[q].name != x.name
      {
        assert rest[q] in multiset(t');
      }
      forall p, q | 0 <= p < q < |s|
        ensures s[p].name != s[q].name
      {
        if p > 0 {
          assert s[p] == rest[p - 1] && s[q] == rest[q - 1];
        } else {
          assert s[q] == rest[q - 1];
        }
      }
    }
  }

  /** Taking the first entry of s and the same entry at j in t keeps the two multisets equal. */
  lemma RemoveOne(s: seq<Entry>, t: seq<Entry>, j: int)
    requires multiset(s) == multiset(t) && |s| > 0 && 0 <= j < |t| && t[j] == s[0]
    ensures multiset(s[1..]) == multiset(t[..j] + t[j + 1..])
  {
    assert s == [s[0]] + s[1..];
    assert multiset(s) == multiset{s[0]} + multiset(s[1..]);
    assert t == t[..j] + [t[j]] + t[j + 1..];
    assert multiset(t) == multiset(t[..j]) + multiset{t[j]} + multiset(t[j + 1..]);
    assert multiset(t[..j] + t[j + 1..]) == multiset(t[..j]) + multiset(t[j + 1..]);
    calc {
      multiset(s[1..]) + multiset{s[0]};
      multiset(s);
      multiset(t);
      multiset(t[..j]) + multiset{t[j]} + multiset(t[j + 1..]);
      multiset(t[..j]) + multiset(t[j + 1..]) + multiset{s[0]};
      multiset(t[..j] + t[j + 1..]) + multiset{s[0]};
    }
    assert multiset(s[1..]) == multiset(s[1..]) + multiset{s[0]} - multiset{s[0]};
    assert multiset(t[..j] + t[j + 1..]) == multiset(t[..j] + t[j + 1..]) + multiset{s[0]} - multiset{s[0]};
  }

  /** Whatever order HGETALL chose, the loaded list lists the store. */
  lemma LoadedListsStore(store: Hash, data: seq<string>, features: seq<Entry>)
    requires IsHGetAllReply(store, data)
    requires SortedByName(features)
    requires multiset(features) == multiset(DecodeReply(data))
    ensures ListsStore(features, store)
  {
    DecodedFromStore(store, data);
    DistinctNamesPermutation(features, DecodeReply(data));
    forall e
      ensures e in features <==> e in DecodeReply(data)
    {
      assert e in features <==> e in multiset(features);
    }
  }

  /** A store has only one listing, so the order of the HGETALL reply never shows. */
  lemma {:induction false} ListingUnique(store: Hash, s: seq<Entry>, t: seq<Entry>)
    requires ListsStore(s, store) && ListsStore(t, store)
    ensures s == t
  {
    SortedUniqueBySet(s, t);
  }

  /** Two sorted sequences with distinct names and the same entries start with the same entry. */
  lemma SameFirst(s: seq<Entry>, t: seq<Entry>)
    requires SortedByName(s) && SortedByName(t) && DistinctNames(t)
    requires forall e :: e in s <==> e in t
    requires |s| > 0
    ensures |t| > 0 && s[0] == t[0]
  {
    assert s[0] in s;
    var j :| 0 <= j < |t| && t[j] == s[0];
    assert t[0] in t;
    var i :| 0 <= i < |s| && s[i] == t[0];
    Irreflexive(s[0].name);
    Irreflexive(t[0].name);
    assert LessEq(s[0].name, s[i].name);
    assert LessEq(t[0].name, t[j].name);
    LessEqAntisymmetric(s[0].name, t[0].name);
  }

  /** Dropping a common first entry keeps the entries the same, since names are distinct. */
  lemma SameRest(s: seq<Entry>, t: seq<Entry>)
    requires DistinctNames(s) && DistinctNames(t)
    requires forall e :: e in s <==> e in t
    requires |s| > 0 && |t| > 0 && s[0] == t[0]
    ensures forall e :: e in s[1..] <==> e in t[1..]
  {
    forall e | e in s[1..]
      ensures e in t[1..]
    {
      var p :| 0 <= p < |s| - 1 && s[p + 1] == e;
      assert e in s;
      var q :| 0 <= q < |t| && t[q] == e;
      assert q != 0;
      assert t[1..][q - 1] == e;
    }
    forall e | e in t[1..]
      ensures e in s[1..]
    {
      var p :| 0 <= p < |t| - 1 && t[p + 1] == e;
      assert e in t;
      var q :| 0 <= q < |s| && s[q] == e;
      assert q != 0;
      assert s[1..][q - 1] == e;
    }
  }

  /** Sequences with the same entries are empty together. */
  lemma SameEntriesEmpty(s: seq<Entry>, t: seq<Entry>)
    requires forall e :: e in s <==> e in t
    ensures |s| == 0 <==> |t| == 0
  {
    if |s| > 0 {
      assert s[0] in t;
    }
    if |t| > 0 {
      assert t[0] in s;
    }
  }

  lemma {:induction false} SortedUniqueBySet(s: seq<Entry>, t: seq<Entry>)
    requires SortedByName(s) && DistinctNames(s)
    requires SortedByName(t) && DistinctNames(t)
    requires forall e :: e in s <==> e in t
    ensures s == t
    decreases |s|
  {
    SameEntriesEmpty(s, t);
    if |s| > 0 {
      SameFirst(s, t);
      SameRest(s, t);
      SortedUniqueBySet(s[1..], t[1..]);
      assert s[1..] == t[1..];
      assert s == [s[0]] + s[1..];
      assert t == [t[0]] + t[1..];
    }
  }

  // ---------------------------------------------------------------------
  // The form action
  // ---------------------------------------------------------------------

  /** What the action answers: a redirect, or a JSON body carrying an error message. */
  datatype Response = Redirect(location: string) | Json(error: string)

  /** The store after the action together with the answer. */
  datatype Outcome = Outcome(store: Hash, response: Response)

  const FeaturesPath: string := "/features"
  const MissingFeature: string := "Please provide a feature"

  /** The `feature` form field is present and not empty. */
  predicate Provided(feature: Option<string>)
  {
    feature.Some? && |feature.value| > 0
  }

  /**
   The action handler on the store's content: validate `feature`, then
   dispatch on `_action`; `feature` and `action` are None when the form
   field is absent.
   */
  function Dispatch(store: Hash, feature: Option<string>, action: Option<string>): (o: Outcome)
    ensures !Provided(feature) ==> o == Outcome(store, Json(MissingFeature))
    ensures Provided(feature) ==> o.response == Redirect(FeaturesPath)
    ensures Provided(feature) ==> o.store - {feature.value} == store - {feature.value}
  {
    if !Provided(feature) then Outcome(store, Json(MissingFeature))
    else
      var f := feature.value;
      var store' :=
        if action == Some("create") || action == Some("enable") then store[f := On]
        else if action == Some("disable") then store[f := Off]
        else if action == Some("delete") then store - {f}
        else store;
      Outcome(store', Redirect(FeaturesPath))
  }

  /** The action as the source runs it: one HSET or HDEL on the shared store, then the answer. */
  method Action(hash: FeaturesHash, feature: Option<string>, action: Option<string>) returns (r: Response)
    modifies hash
    ensures hash.fields == Dispatch(old(hash.fields), feature, action).store
    ensures r == Dispatch(old(hash.fields), feature, action).response
  {
    if !Provided(feature) {
      return Json(MissingFeature);
    }
    var f := feature.value;
    if action == Some("create") || action == Some("enable") {
      hash.HSet(f, On);
    } else if action == Some("disable") {
      hash.HSet(f, Off);
    } else if action == Some("delete") {
      hash.HDel(f);
    }
    r := Redirect(FeaturesPath);
  }

  /**
   Each action's effect on the named field: create and enable write "1",
   disable writes "0", delete removes the field, anything else keeps the store.
   */
  lemma DispatchEffect(store: Hash, f: string, action: Option<string>)
    requires |f| > 0
    ensures action == Some("create") ==> Dispatch(store, Some(f), action).store == store[f := On]
    ensures action == Some("enable") ==> Dispatch(store, Some(f), action).store == store[f := On]
    ensures action == Some("disable") ==> Dispatch(store, Some(f), action).store == store[f := Off]
    ensures action == Some("delete") ==> Dispatch(store, Some(f), action).store == store - {f}
    ensures action !in {Some("create"), Some("enable"), Some("disable"), Some("delete")} ==>
      Dispatch(store, Some(f), action).store == store
  {
  }

  /** Submitting the same form twice leaves the store as submitting it once, with the same answer. */
  lemma DispatchIdempotent(store: Hash, feature: Option<string>, action: Option<string>)
    ensures Dispatch(Dispatch(store, feature, action).store, feature, action) == Dispatch(store, feature, action)
  {
  }

  /** The toggle control's `_action`: disable a flag that is on, enable one that is off. */
  function ToggleAction(active: bool): (a: string)
    ensures a == "disable" <==> active
    ensures a == "enable" <==> !active
  {
    if active then "disable" else "enable"
  }

  /** Submitting a listed row's toggle flips that flag and nothing else. */
  lemma ToggleFlips(store: Hash, features: seq<Entry>, e: Entry)
    requires ListsStore(features, store)
    requires e in features && |e.name| > 0
    ensures Flag(Dispatch(store, Some(e.name), Some(ToggleAction(e.active))).store, e.name) == !e.active
    ensures Dispatch(store, Some(e.name), Some(ToggleAction(e.active))).store - {e.name} == store - {e.name}
  {
  }

  /** After `create` on a non-empty name, every listing of the store holds that flag switched on. */
  lemma CreateThenListed(store: Hash, f: string, features: seq<Entry>)
    requires |f| > 0
    requires ListsStore(features, Dispatch(store, Some(f), Some("create")).store)
    ensures Entry(f, true) in features
  {
  }

  /** After an empty `feature`, every listing of the store is the listing from before. */
  lemma RejectedLeavesListing(store: Hash, action: Option<string>, before: seq<Entry>, after: seq<Entry>)
    requires ListsStore(before, store)
    requires ListsStore(after, Dispatch(store, Some(""), action).store)
    ensures after == before
  {
    ListingUnique(store, before, after);
  }

  /** The hash holding b = on, a = off, c = on, and its HGETALL reply in insertion order. */
  lemma ExampleReply()
    ensures IsHGetAllReply(map["b" := "1", "a" := "0", "c" := "1"], ["b", "1", "a", "0", "c", "1"])
  {
    var data := ["b", "1", "a", "0", "c", "1"];
    assert FieldAt(data, 0) == "b" && FieldAt(data, 1) == "a" && FieldAt(data, 2) == "c";
  }

  /** That hash is listed as a, b, c. */
  lemma ExampleListing()
    ensures ListsStore([Entry("a", false), Entry("b", true), Entry("c", true)],
                       map["b" := "1", "a" := "0", "c" := "1"])
  {
  }

  /**
   The loader on a hash holding b = on, a = off, c = on, whose HGETALL
   reply comes back in insertion order, lists a, b, c.
   */
  method LoadExample() returns (features: seq<Entry>)
    ensures features == [Entry("a", false), Entry("b", true), Entry("c", true)]
  {
    var store: Hash := map["b" := "1", "a" := "0", "c" := "1"];
    var data := ["b", "1", "a", "0", "c", "1"];
    ExampleReply();
    features := LoadAllFeatures(data);
    LoadedListsStore(store, data, features);
    ExampleListing();
    ListingUnique(store, features, [Entry("a", false), Entry("b", true), Entry("c", true)]);
  }
}
