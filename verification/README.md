# AlephIIIF model-URL resolution, in Dafny

This project models the core of the `AlephIIIF` React component of the museum assistant web
site (`src/components/AlephIIIF.tsx`). The component takes a IIIF manifest and finds the glTF/GLB
3D model it refers to. The manifest is either a location string or an inline document. The
component then shows an error, a loading indicator or the 3D stage.

The model has four modules:

- `Wrappers` — the `Option` type, standing for a value or `null`.
- `ModelUrl` — `isModelUrl` and `isModelFormat`. `isModelUrl` is the case-insensitive search for
  `\.gl(b|tf)(\?|#|$)`; it is written as a left-to-right scan over start positions. It is proved
  equal to a reference definition: some prefix of the string ends in `.glb` or `.gltf`, ignoring
  case, and is followed by `?`, `#` or the end of the string.
- `Extraction` — `extractModelUrl` over a closed JSON-like datatype
  `JString | JArray | JObject | JOther`. An object is a sequence of key/value pairs in key order.
  `JOther` stands for null, numbers and booleans. The search is proved against an independent
  description of the acceptable answers, in both directions. An acceptable answer is either a
  model URL that occurs as a string value, or the candidate URL of an object whose `format` is a
  model media type. The first-match order in arrays and in an object's children is proved as
  well, and so are the priority of the direct identification and the order `id`, `@id`, `url`,
  `href`.
- `Resolver` — the effect and render logic, as the class `AlephIIIF` (React never renders an
  unmounted component, so `Render` requires that the component has not been unmounted):
  - Runs are numbered by a generation counter. The `isMounted` flag of run `g` is
    `Mounted(g)`: `g` is the last run and it has not been cleaned up.
  - `Render` starts a new run only when the manifest key changes.
  - `Start` resets `error`, `src` and `isReady`, then settles at once or issues the one fetch.
  - `Complete` delivers the fetch outcome of a run. A stale run changes nothing that is displayed.
  - `OnLoad` is the viewer's load signal. It may come at any time; on the stage it removes the
    overlay.
  - `Present` is the render precedence: error, then loading, then stage.

The fetch is an abstract outcome `NotOk | Ok(body) | Throws(thrown)`. The error messages are
the component's own Estonian strings.

Four points where the code's behaviour may be unexpected, and the model keeps it:

- The search has no cycle detection. A Dafny datatype value is finite, so the search always ends.
- A body that cannot be parsed has no message of its own. It is the thrown value's message, or
  `"3D vaaturi viga."` for a thrown value that is not an `Error`.
- `if (error)` tests truthiness. An `Error` thrown with an empty message therefore records `""`,
  and the component then shows the loading indicator, not an error view.
  `AlephIIIF.Complete` states this.
- `setIsReady(true)` is not guarded. A load signal that arrives after a run's reset sets
  `isReady` while loading is shown, and the run's model then appears without the overlay.
  `AlephIIIF.OnLoad` and `AlephIIIF.Complete` state this.

## Model

| member | source | states |
|---|---|---|
| `ModelUrl.IsModelUrl` | src/components/AlephIIIF.tsx:11-12 | the regular-expression `test` on a string, a search from position 0: a match needs at least four characters, and a string ending in `.glb` always matches; `IsModelUrlSpec` gives its full meaning |
| `ModelUrl.IsModelFormat` | src/components/AlephIIIF.tsx:14-15 | `isModelFormat` on a string: every accepted value has `/` as its sixth character, and `model/` and `MODEL/` prefixes are accepted; `IsModelFormatSpec` gives its full meaning |
| `ModelUrl.SearchFrom` | src/components/AlephIIIF.tsx:12 | the regular-expression search can only succeed when at least four characters follow the start position |
| `ModelUrl.MatchAtEndsExtension` | src/components/AlephIIIF.tsx:12 | the pattern matches at position i exactly when `.glb` ends at i+4, or `.gltf` ends at i+5, ignoring case, followed by `?`, `#` or the end |
| `ModelUrl.IsModelUrlSpec` | src/components/AlephIIIF.tsx:11-12 | `isModelUrl` holds exactly when some prefix of the string ends in `.glb` or `.gltf` (ASCII case-insensitive) and is followed by `?`, `#` or the end of the string |
| `ModelUrl.ModelUrlWithSuffix` | src/components/AlephIIIF.tsx:11-12 | every string ending in `.glb`/`.gltf` in any case, optionally followed by a query or fragment, is a model URL |
| `ModelUrl.IsModelFormatSpec` | src/components/AlephIIIF.tsx:14-15 | `isModelFormat` holds exactly when the lower-case form of the string starts with `model/` |
| `ModelUrl.CaseInsensitive` | src/components/AlephIIIF.tsx:11-15 | both tests give the same answer on a string and on its lower-case form |
| `Extraction.Get` | src/components/AlephIIIF.tsx:29-34 | a property read returns the value of a field with that key, and returns nothing when no field has that key |
| `Extraction.Extract` | src/components/AlephIIIF.tsx:17-48 | whatever the search returns is a non-empty string, so the callers' truthiness test means "found" |
| `Extraction.FirstInItems` | src/components/AlephIIIF.tsx:20-26 | the array loop only returns non-empty strings |
| `Extraction.FirstInFields` | src/components/AlephIIIF.tsx:41-44 | the loop over an object's values only returns non-empty strings |
| `Extraction.FirstInItemsSpec` | src/components/AlephIIIF.tsx:20-26 | an array yields u exactly when some element yields u and every earlier element yields null |
| `Extraction.FirstInItemsNone` | src/components/AlephIIIF.tsx:20-26 | an array yields null exactly when every element yields null |
| `Extraction.FirstInFieldsSpec` | src/components/AlephIIIF.tsx:41-44 | the children of an object yield u exactly when some child yields u and every child earlier in key order yields null |
| `Extraction.FirstInFieldsNone` | src/components/AlephIIIF.tsx:41-47 | the children of an object yield null exactly when every child does |
| `Extraction.ObjectPrecedence` | src/components/AlephIIIF.tsx:28-45 | an object yields its direct identification when there is one, without looking at its children; otherwise it yields the first non-null child result in key order |
| `Extraction.Candidate` | src/components/AlephIIIF.tsx:30-35 | the candidate URL is a non-empty string held by one of `id`, `@id`, `url`, `href`, and there is none only when none of them holds one; `CandidateIsFirstIdKey` gives the order |
| `Extraction.Direct` | src/components/AlephIIIF.tsx:37-39 | an object's direct identification is its candidate and is a model URL or has a model `format`; a candidate that is a model URL, or that sits beside a model `format`, is always taken |
| `Extraction.CandidateIsFirstIdKey` | src/components/AlephIIIF.tsx:30-35 | the candidate is the value of the first of `id`, `@id`, `url`, `href` that holds a non-empty string, and there is none when no such field does |
| `Extraction.CandidateOccurs` | src/components/AlephIIIF.tsx:30-35 | the candidate is a non-empty string value of one of the object's own fields |
| `Extraction.ExtractSound` | src/components/AlephIIIF.tsx:17-48 | any result is a non-empty string that occurs in the input, and it is a model URL or the candidate of an object whose `format` is a model media type |
| `Extraction.ExtractComplete` | src/components/AlephIIIF.tsx:17-48 | if the input holds such a string, the search returns a result |
| `Extraction.ExtractNoneIff` | src/components/AlephIIIF.tsx:17-48 | the search yields null exactly when the input holds no acceptable string; there is no other failure |
| `Extraction.ExtractFindsUnique` | src/components/AlephIIIF.tsx:17-48 | when exactly one acceptable string occurs, at any depth, the search returns that string |
| `Extraction.ExtractString` | src/components/AlephIIIF.tsx:18 | a string is returned unchanged when it has a model extension, and yields null otherwise |
| `Extraction.FormatOverrideExample` | src/components/AlephIIIF.tsx:30-39 | `{id: "https://x/a.png", format: "model/gltf-binary"}` yields `"https://x/a.png"` |
| `Resolver.CaughtMessage` | src/components/AlephIIIF.tsx:97-100 | the recorded error is the `Error`'s message, or `"3D vaaturi viga."` for any other thrown value |
| `Resolver.SearchOutcome` | src/components/AlephIIIF.tsx:74-78 | searching a document ends with the search's result, an acceptable model URL, or with `"IIIF manifestist ei leitud glTF/GLB faili."` exactly when the document holds none |
| `Resolver.Begin` | src/components/AlephIIIF.tsx:73-87 | a location is fetched exactly when it is not itself a model URL; a model-URL location becomes the source unchanged; an inline document is searched without a fetch and its source is the search's result |
| `Resolver.Finish` | src/components/AlephIIIF.tsx:87-100 | a response that is not ok ends with `"Manifesti laadimine ebaonnestus."`, a thrown value with its caught message, and a body with a source exactly when it holds an acceptable model URL; that source is the search's result on the body |
| `Resolver.Present` | src/components/AlephIIIF.tsx:111-128 | a truthy error shows the error view; otherwise a missing source shows loading; otherwise the stage, overlaid while the model is not ready |
| `Resolver.AlephIIIF.KeyOf` | src/components/AlephIIIF.tsx:59-62 | the effect's key is the location string itself, or the serialised inline document |
| `Resolver.AlephIIIF.Mounted` | src/components/AlephIIIF.tsx:65-107 | the `isMounted` flag of a run: only the last run started can be mounted, and only once a run has started |
| `Resolver.AlephIIIF.constructor` | src/components/AlephIIIF.tsx:55-57 | the component starts with no source, no error, not ready and no run, so it shows loading |
| `Resolver.AlephIIIF.Render` | src/components/AlephIIIF.tsx:59-109 | an unchanged key changes nothing; a changed key cleans up the last run and starts a new one; a run that has been cleaned up is never mounted again |
| `Resolver.AlephIIIF.Start` | src/components/AlephIIIF.tsx:64-104 | a new run clears `error`, `src` and `isReady`, then shows the stage, records the not-found error, or issues a fetch and shows loading |
| `Resolver.AlephIIIF.Complete` | src/components/AlephIIIF.tsx:87-101 | a fetch outcome of a mounted run sets the source or the error, and a new source shows the stage with the overlay unless `isReady` is already set; a stale run leaves source and error unchanged |
| `Resolver.AlephIIIF.Unmount` | src/components/AlephIIIF.tsx:106-108 | after the cleanup no run is mounted |
| `Resolver.AlephIIIF.OnLoad` | src/components/AlephIIIF.tsx:126 | the load signal always sets `isReady`; on the stage it removes the loading overlay, and on any other view nothing visible changes |
| `Resolver.SupersededFetchIsIgnored` | src/components/AlephIIIF.tsx:64-109 | when location A is followed by location B, and B's fetch settles with a model before A's does, the stage keeps showing exactly the search result of B's body, with its overlay, whatever A's fetch brings |

## Left out

- Network access and JSON parsing: `fetch`, `response.ok` and `response.json()` become the abstract outcome `NotOk | Ok(body) | Throws(thrown)`.
- `JSON.stringify`: it is a parameter of the class `AlephIIIF` (`stringify`), used only to compute the key of an inline document. Keys are compared by equality.
- React itself: hooks, JSX and the batching of state updates. The effect's runs and the fetch results are discrete events on one thread (`Render`, `Complete`, `Unmount`), not concurrent tasks.
- The `aleph-r3f` viewer and its `envPreset` and `rotationPreset` options: only the `onLoad` signal is kept, as an event that may arrive at any time.
- The order of `Object.keys`: the model takes an object's field sequence to be in that order already. JavaScript lists integer-like keys first, and that reordering is not modelled.
- Duplicate keys: a JavaScript object has none. The model's property read takes the first field with a given key.
- `Manifest`: the datatype also admits an `Inline` manifest whose document is a string. No prop produces it, because a string prop always takes the location path, and nothing is proved about it.
- Prototype lookup: property reads see only the object's own fields.
- The host's recursion limit: JavaScript can overflow its stack on very deep input, and the `catch` would then record that error. In the model the search always ends.
- Strings are sequences of `char`. Case folding is ASCII only. This is exact for both tests: a case-insensitive regular expression without the `u` flag never folds a non-ASCII character onto an ASCII one, and no non-ASCII character lower-cases to a letter of `model/`.
- src/content.config.ts (content-collection schema declarations) and src/utils/date.ts (locale date formatting) are not part of this model.
