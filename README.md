# Feature-flag admin: a Dafny model

This project models the data logic of a small feature-flag admin app. The app is a
Remix application over an Upstash Redis hash named `"features"`. Each field of the hash
is a flag name. The value `"1"` means on. Any other value, or a missing field, means off.

The model covers three pieces of the app:

- **Listing** (`loadAllFeatures` in `app/routes/features.tsx`). The HGETALL reply is a
  flat field/value sequence. It is decoded two elements at a time into
  `(name, value == "1")` entries, and the entries are sorted by name with a three-way
  comparator. The model is an imperative method: a stride-2 loop, then an in-place
  insertion sort of an array driven by the same comparator. It is proved to return a
  sorted permutation of the decoded pairs. Further lemmas show that, for any order the
  store chooses for its reply, the result lists the store: one entry per field, with the
  flag a reader sees. They also show that a store has only one such listing.
- **Form action** (`action` in `app/routes/features.tsx`). It validates `feature`, then
  dispatches on `_action`. The store is a `FeaturesHash` object whose `fields` map
  stands for the remote hash. `Action` calls its `HSet`/`HDel` methods as the source
  calls `hset`/`hdel`. Its effect is stated by the pure function `Dispatch`, which covers
  the error answer, the redirect, the frame and each action's effect. Lemmas give
  idempotence, the toggle flip chosen at line 91, and read-back through either loader.
- **Dashboard** (`loadFeatures`, `loader` and `Index` in `app/routes/index.tsx`). The
  positional HMGET reply is folded into a record from key to flag. The record's domain is
  exactly the requested keys. A repeated key keeps its last position's value. The page
  shows one heading per tracked flag, and `fake` never changes what is shown.

Files:

- `string_order.dfy`: JavaScript's `<` on strings, with its order laws.
- `feature_store.dfy`: the hash, the read-side flag decoding, the HGETALL and HMGET
  replies, and the `FeaturesHash` class.
- `features_route.dfy`: the admin route.
- `index_route.dfy`: the dashboard route.

The remote calls become a map plus a reply sequence. HGETALL returns its pairs in an
order the store chooses, so its reply is a predicate, `IsHGetAllReply`, not a function.
HMGET's reply is a function of the store and the keys, `HMGet`. Form fields that may be
absent are `Option<string>`: `formData.get` returns null for a missing field.

## Model

| member | source | states |
|---|---|---|
| `FeaturesRoute.DecodeReply` | app/routes/features.tsx:18-20 | the stride-2 walk of the reply as a function: a reply of length 2n (or 2n - 1) gives n entries, the first named by the reply's first element |
| `FeaturesRoute.DecodeReplyAt` | app/routes/features.tsx:18-19 | a reply of length 2n (or 2n - 1) decodes to n entries; entry k takes its name from position 2k and is on exactly when position 2k + 1 exists and is "1" |
| `FeaturesRoute.Compare` | app/routes/features.tsx:22-26 | the comparator returns 1, -1 or 0 exactly when the first name is greater than, less than or equal to the second |
| `FeaturesRoute.CompareAntisymmetric` | app/routes/features.tsx:22-26 | swapping the arguments negates the comparator's result |
| `StringOrder.Less` | app/routes/features.tsx:23-24 | JavaScript's `<` on strings: a proper prefix is less than the longer string, and a name is never less than itself |
| `StringOrder.LessIsFirstDifference` | app/routes/features.tsx:23-24 | `a < b` holds exactly when `a` is a proper prefix of `b` or has the smaller character at the first position where they differ |
| `StringOrder.Trichotomy` | app/routes/features.tsx:23-25 | any two names compare as less, equal or greater, so the comparator always has an answer |
| `StringOrder.Transitive` | app/routes/features.tsx:23-24 | string `<` is transitive, so comparator-sorted neighbours give a sorted array |
| `FeaturesRoute.SortByName` | app/routes/features.tsx:22-26 | the in-place sort leaves the array ascending by name and a permutation of what it held |
| `FeaturesRoute.LoadAllFeatures` | app/routes/features.tsx:14-27 | the result is sorted ascending by name and is a permutation of the decoded pairs |
| `FeaturesRoute.DecodedFromStore` | app/routes/features.tsx:15-20 | decoding any HGETALL reply of a store gives each field exactly once, paired with the flag a reader sees |
| `FeaturesRoute.LoadedListsStore` | app/routes/features.tsx:14-27 | whatever order the reply comes in, the loaded list is sorted, has distinct names, and holds exactly the store's fields with their flags |
| `FeaturesRoute.ListingUnique` | app/routes/features.tsx:22-26 | a store has only one sorted listing, so the reply order never shows in the result |
| `FeaturesRoute.LoadExample` | app/routes/features.tsx:14-27 | a hash holding b = on, a = off, c = on loads as [(a, false), (b, true), (c, true)] |
| `FeaturesRoute.Dispatch` | app/routes/features.tsx:34-58 | a missing or empty `feature` gives the "Please provide a feature" error and the same store; otherwise the answer is a redirect to /features and no field other than `feature` changes |
| `FeaturesRoute.Action` | app/routes/features.tsx:34-58 | the shared hash's new content and the answer are those `Dispatch` gives for the old content |
| `FeaturesRoute.DispatchEffect` | app/routes/features.tsx:44-55 | create and enable set the field to "1", disable sets it to "0", delete removes it, and any other action leaves the store unchanged |
| `FeaturesRoute.DispatchIdempotent` | app/routes/features.tsx:44-57 | submitting the same form twice gives the same store and answer as submitting it once |
| `FeaturesRoute.ToggleAction` | app/routes/features.tsx:91 | a row that is on submits "disable" and a row that is off submits "enable" |
| `FeaturesRoute.ToggleFlips` | app/routes/features.tsx:85-93 | submitting a listed row's toggle turns its flag to the opposite value and changes no other field |
| `FeaturesRoute.CreateThenListed` | app/routes/features.tsx:45-47 | after `create` on a non-empty name, every listing of the store holds that name switched on |
| `FeaturesRoute.RejectedLeavesListing` | app/routes/features.tsx:39-42 | after a submission with an empty `feature`, the store lists exactly as before |
| `FeatureStore.IsHGetAllReply` | app/routes/features.tsx:15 | the HGETALL reply lists each field of the hash exactly once with its value, in any order; a missing or empty hash gives an empty reply |
| `FeatureStore.FeaturesHash.HSet` | app/routes/features.tsx:47 | writing a field sets that one field and keeps the rest |
| `FeatureStore.FeaturesHash.HDel` | app/routes/features.tsx:53 | deleting a field removes that one field, and does nothing when it is absent |
| `FeatureStore.HMGet` | app/routes/index.tsx:10 | the HMGET reply has one position per requested key, holding that field's value, or null when the field is absent |
| `IndexRoute.LastIndex` | app/routes/index.tsx:12-15 | the position found is the last one at which the key is requested |
| `IndexRoute.LoadFeatures` | app/routes/index.tsx:9-18 | the record's domain is exactly the requested keys, and each key takes the flag decoded at its last requested position |
| `IndexRoute.LoadFeaturesAt` | app/routes/index.tsx:13 | a key requested once at position i is on exactly when reply position i exists and is "1"; null or missing reads as off |
| `IndexRoute.LoadFeaturesReflectsStore` | app/routes/index.tsx:10-15 | read against the store's HMGET reply, every requested key gets the store's flag, and an absent field reads as off |
| `IndexRoute.Loader` | app/routes/index.tsx:20-23 | the loader's record holds exactly chart, graph and fake, decoded from reply positions 0, 1 and 2 |
| `IndexRoute.Truthy` | app/routes/index.tsx:31-32 | `features.chart` and `features.graph` count as true only when the property exists and is true; a missing property is `undefined`, hence false |
| `IndexRoute.Headings` | app/routes/index.tsx:25-35 | the page shows "Dashboard", then "Chart" exactly when chart is on ("No Chart" otherwise), then "Graph" exactly when graph is on ("No Graph" otherwise) |
| `IndexRoute.FakeNeverShown` | app/routes/index.tsx:31-32 | changing or removing `fake` never changes the page |
| `IndexRoute.DashboardShowsStore` | app/routes/index.tsx:20-32 | against any store, the page's chart and graph headings follow the flags a reader of the store sees |
| `IndexRoute.DashboardExample` | app/routes/index.tsx:31-32 | with chart = "1" and graph = "0" the page shows "Chart" and "No Graph" |
| `IndexRoute.SetThenFetch` | app/routes/features.tsx:45-51 | after enabling or disabling a non-empty name, fetching that name alone reads back the value written |
| `IndexRoute.DeleteThenFetch` | app/routes/features.tsx:52-54 | after deleting a non-empty name, fetching that name alone reads it as off |

## Left out

- The Upstash network calls (`hgetall`, `hmget`, `hset`, `hdel`). They are foreign calls over the network. A map plus a reply sequence stands in for them, and their failures (an unavailable store, a malformed reply) are not modelled. In the source those failures propagate as unhandled errors.
- `async`/`await` and concurrent requests. Each request is modelled as one sequential step, so last-write-wins races between clients are outside the model.
- Remix plumbing: `request.formData()`, `json`, `redirect`, `useLoaderData` and the loader/action types. `json` and `redirect` become the constructors of `Response`, and a form field is an `Option<string>`.
- The JSX rendering in `Features`, `AddFeature` and `FeatureList`, and the stylesheet `links()`. Only the toggle's action choice (line 91) and the dashboard's headings (lines 31-32) are kept, as functions. The browser-side `required` attribute on the name input is not modelled, so the server-side empty-name check is the only guard.
- `IndexRoute.LoadFeatures`: the record is modelled as a map, not a JavaScript object. For a key such as `__proto__`, the assignment `acc[key] = ...` on a plain `{}` calls an inherited setter and adds no own property. So the claim that the domain is exactly the requested keys does not hold for such keys in JavaScript. The loader only ever requests `chart`, `graph` and `fake`, so it never reaches this case.
- `app/root.tsx` (layout and navigation markup, no logic) is not part of this model.
- JavaScript compares strings by UTF-16 code units. Names here are `seq<char>` compared character by character, which agrees with it for characters in the Basic Multilingual Plane.
- `FeaturesRoute.SortByName`: the source's `Array.prototype.sort` is stable and its algorithm is the engine's choice. The model uses an insertion sort and states only sortedness and permutation, not stability. Stability cannot be observed for HGETALL replies, whose field names are distinct.
- `hset("features", feature, 1)` passes the number 1, which the client stores as the string "1". The model writes the string directly.
- `FeaturesRoute.ToggleFlips`: it requires a non-empty name. A field with an empty name can be listed, but its toggle submits `feature = ""`, which takes the error path and changes nothing.
