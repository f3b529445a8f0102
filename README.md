# translate-json-keys, modelled in Dafny

The application takes a JSON array of flat records ("items") and a list of
directives `{ key, newKey, targetLang }`. For every directive and every item
whose `key` field is truthy, it asks a remote translation service for the
field's text. When the reply comes back it stores the translation under
`newKey` and deletes `key` if the two differ. It then answers with the
modified array. A page builds the directive list from the first record's
property names and lets the user add, remove and edit entries.

This project models:

- the batch handler in `pages/api/translate.ts`:
  - the `newKey` validation;
  - the two nested loops that dispatch the calls;
  - the `.then` callbacks that write and delete fields;
  - the join over all calls and the three possible answers (400, 200, and
    the 500 of an unhandled rejection);
- the one piece of local logic in `translate`: picking `result[0][0][0]` out
  of the decoded reply;
- the pure list updates of `app/page.tsx`:
  - seeding the directives from an uploaded file;
  - adding, removing and editing an entry;
  - the early return of the translate button when no file is loaded.

Files:

- `values.dfy` (module `Values`):
  - JavaScript values and truthiness;
  - records as own properties in insertion order, with property assignment
    and `delete`.
- `client.dfy` (module `Client`): the `result[0][0][0]` extraction, with the
  TypeError raised by reading `[0]` of `undefined` or `null`.
- `engine.dfy` (module `Engine`): the handler.
  - The two loops become the method `SelectUnits`, proved against the
    function `Select`.
  - Settling the callbacks becomes the method `Settle`, proved against the
    function `SettleAll`.
  - The whole handler becomes `Handle`, proved against `Respond`.
- `engine_properties.dfy` (module `EngineProperties`): what the handler
  guarantees.
  - Which calls are made, in what order, and how many.
  - What a 400 leaves dispatched.
  - Which fields and items are left alone.
  - What the answer holds for every completion order.
- `editor.dfy` (module `Editor`): the page's directive-list updates.

The remote service is not modelled. Its answers are a parameter `replies`:
one entry per dispatched call, in dispatch order. An entry is either the
decoded JSON body or `None` when `fetch` or `response.json()` failed. The
order in which the callbacks run is a parameter `order`, a permutation of
the call indices. Every property about the answer holds for every such
permutation.

What the code does that a reader might not expect:

- `translate` does not concatenate the translated fragments. It returns
  `result[0][0][0]`, the first element of the first fragment. A text the
  service splits into several sentences loses all but the first
  (`Client.FirstFragmentOnly`).
- `translate` does not check the HTTP status. An error body is read like any
  other:
  - if one of the three reads hits `undefined` or `null`, it fails with a
    TypeError;
  - otherwise it yields whatever it finds: `undefined` for an empty inner
    list, or the first character when the body holds a string there.
- The `newKey` check is not done before any call. The directives before the
  first one with an empty `newKey` have already dispatched their calls when
  the 400 is sent (`EngineProperties.StopsAtFirstMissingNewKey`).
- A failed call is not caught. `Promise.all` rejects, the handler never
  answers itself, and the framework answers with status 500 (`ServerError`).
  The other callbacks still run.

## Model

| member | source | states |
|---|---|---|
| Values.Set | pages/api/translate.ts:41 | `item[newKey] = v`: the field holds `v`, every other field keeps its value, and the key set gains `newKey`; an existing property keeps its position, a new one is appended last |
| Values.Delete | pages/api/translate.ts:43 | `delete item[key]`: the field is gone and reads `undefined`, every other field keeps its value, the key set loses `key`, and exactly that position leaves the property order; deleting a missing field changes nothing |
| Values.FalsyValues | pages/api/translate.ts:39 | the test `if (item[key])`: a value is falsy exactly when it is `undefined`, `null`, `false`, `0` or `""`; every array and object, even an empty one, is truthy |
| Values.GetOwnProperty | pages/api/translate.ts:39-40 | `item[key]` reads the value of an own property listed in the record, and `undefined` for a name the record does not list |
| Client.First | pages/api/translate.ts:24 | JavaScript's `v[0]` on a value that is not `undefined` or `null`: the first element of a non-empty array, the first character of a non-empty string, property "0" of an object that has one, and `undefined` otherwise, booleans and numbers included |
| Client.Index0 | pages/api/translate.ts:24 | reading `[0]` fails exactly on `undefined` and `null`; on an array it yields the first element, or `undefined` when the array is empty |
| Client.Extract | pages/api/translate.ts:23-24 | `result[0][0][0]` fails (always with a TypeError) exactly when one of the three reads is made on `undefined` or `null`; on the service's nested-list shape it yields the first element of the first fragment; on an empty top-level list it fails; on `[[]]` at index 0 it yields `undefined` |
| Client.FirstFragmentOnly | pages/api/translate.ts:20-25 | for a reply holding two translated fragments, `translate` resolves to the first fragment's text only |
| Engine.FirstMissingNewKey | pages/api/translate.ts:33-36 | the validation scan: no result exactly when every directive has a non-empty `newKey`; otherwise the index of the first directive with an empty one, all earlier ones being non-empty |
| Engine.SelectUnits | pages/api/translate.ts:31-50 | the two loops return exactly the calls and the accept/reject verdict that `Select` defines: stop at the first empty `newKey`, otherwise one call per (directive, item) with a truthy source field |
| Engine.ApplyUnit | pages/api/translate.ts:40-45 | the callback: `newKey` holds the translation; when renamed, `key` is gone; every other field is unchanged; the key set is the old one minus `key` (if renamed) plus `newKey`; an in-place translation keeps the property order |
| Engine.Settle | pages/api/translate.ts:40-52 | running the callbacks in completion order yields `SettleAll` of the items, and the join fails exactly when some reply does not translate |
| Engine.Respond | pages/api/translate.ts:33-54 | a 400 with "newKey is required." exactly when some `newKey` is empty; a 200 exactly when every `newKey` is present and every call translates; a 200 body has one record per input item |
| Engine.ScheduleFails | pages/api/translate.ts:52 | for a permutation of the calls, some callback in the order fails exactly when not every reply translates, so the join's verdict does not depend on the order |
| Engine.Handle | pages/api/translate.ts:27-54 | the handler returns exactly the answer `Respond` defines |
| EngineProperties.DirectiveUnitsCover | pages/api/translate.ts:38-39 | the inner loop creates a call for item `i` exactly when `item[key]` is truthy |
| EngineProperties.UnitsWellFormed | pages/api/translate.ts:38-47 | every call dispatched for the first `m` directives belongs to one of them and to an existing item, carries that item's source field as it was when received, the directive's keys and languages, and a truthy text |
| EngineProperties.UnitsInLoopOrder | pages/api/translate.ts:33-49 | calls are dispatched directive by directive and, within a directive, item by item |
| EngineProperties.UnitExistsIffTruthy | pages/api/translate.ts:38-39 | directive `j` has a call for item `i` exactly when item `i`'s source field for that directive is truthy |
| EngineProperties.UnitCount | pages/api/translate.ts:33-49 | the number of calls for the first `m` directives is the sum, over those directives, of how many items have a truthy source field |
| EngineProperties.StopsAtFirstMissingNewKey | pages/api/translate.ts:33-36 | when directive `i` is the first with an empty `newKey`, the request is rejected and exactly the calls of directives `0..i-1` have been dispatched, in loop order |
| EngineProperties.AcceptedDispatchesAll | pages/api/translate.ts:33-50 | when every `newKey` is present, the request is accepted and exactly one call per (directive, item with truthy source) is dispatched, in loop order |
| EngineProperties.SettleAllKeepsItem | pages/api/translate.ts:40-45 | an item with no calls is never modified by any callback |
| EngineProperties.SettleAllKeepsField | pages/api/translate.ts:40-45 | a field that none of the item's calls reads or writes keeps its value whatever the completion order |
| EngineProperties.LastWriterWins | pages/api/translate.ts:40-44 | a successful callback's `newKey` holds its translation at the end, provided no callback of the same item that settles later writes or deletes that field |
| EngineProperties.RenamedKeyStaysDeleted | pages/api/translate.ts:42-44 | after a successful renaming callback, the source field stays absent, provided no later callback of the same item writes it back |
| EngineProperties.UntouchedItemsUnchanged | pages/api/translate.ts:38-54 | in a 200 answer, an item on which no directive's source field is truthy comes back unchanged, and the body has as many items as the request |
| EngineProperties.UnnamedFieldsUnchanged | pages/api/translate.ts:38-54 | in a 200 answer, a field that no applicable directive names as `key` or `newKey` keeps its value |
| EngineProperties.TranslationLandsInEveryOrder | pages/api/translate.ts:38-54 | when every `newKey` is present and every call translates (the 200 answer), for every completion order, a call whose target field no other call on that item touches leaves its translation there; and a renamed source field that no other call on that item writes is absent |
| EngineProperties.SettleSingle | pages/api/translate.ts:40-45 | a single successful call on a single item settles to that item with the callback applied |
| EngineProperties.RespondSingle | pages/api/translate.ts:27-54 | one item and one successful call: the answer is a 200 whose only record is the item with the callback applied |
| EngineProperties.RenameExample | pages/api/translate.ts:27-54 | `{"name": "salam"}` with `name -> name_en`: one call is made, and the answer is `[{"name_en": <translation>}]` |
| EngineProperties.EmptySourceExample | pages/api/translate.ts:38-39 | `{"title": ""}`: no call is made, and the record comes back as it was |
| Editor.Seed | app/page.tsx:42-43 | loading a file seeds one directive per property of the first record, in property order, each `key -> key_translated` into "en"; an empty array seeds none |
| Editor.SeedIsValid | app/page.tsx:42-43 | a seeded list names each property once and always passes the handler's `newKey` check |
| Editor.AddKey | app/page.tsx:116 | one blank entry (`""`, `""`, "en") is appended and the existing entries are unchanged |
| Editor.AddedBlankIsRejected | app/page.tsx:116 | sent unedited, the added entry makes the handler reject the request at or before that entry |
| Editor.KeepOthersDropsIndex | app/page.tsx:120 | the filter keeps every entry except the one at `index`, in order |
| Editor.RemoveKey | app/page.tsx:120 | an in-range index removes exactly that entry and keeps the rest in order; any other index leaves the list unchanged |
| Editor.ChangeKey | app/page.tsx:106-112 | editing one input changes only field `name` of entry `index`; every other entry and every other field stay as they were |
| Editor.StartTranslate | app/page.tsx:58-62 | without loaded content nothing changes and no request is sent; otherwise `loading` is set, `error` cleared, and the content, directives and source language are posted |

## Left out

- The HTTP request to the translation service, its URL and query encoding, and the decoding of its body: represented by the `replies` parameter.
- Concurrency: the callbacks' interleaving is the `order` parameter. Each callback runs atomically, as JavaScript's single-threaded event loop guarantees.
- Calls still in flight after a 400: their callbacks keep modifying the request's items, but nobody reads them once the answer is sent.
- Requests other than POST (the 405 branch) and request-body parsing: the model starts from the parsed `items`, `keysToTranslate` and `sourceLang`.
- JSON serialisation of the answer: a field set to `undefined` by an empty fragment is dropped when serialised, but the model keeps it as `Undefined`.
- JavaScript's own-key order puts integer-like property names first; the model keeps plain insertion order.
- Inherited properties (`item["constructor"]` and the like): the model reads own properties only.
- Items that are not objects, file content that is not an array, and directive fields that are not strings: the model types them as records and strings.
- Numbers are integers; floating point, `NaN` and `-0` are not modelled.
- Client.First: strings are sequences of Unicode scalar values, not UTF-16 code units, so `s[0]` on a string starting with a character outside the Basic Multilingual Plane (an emoji, say) yields the whole character where JavaScript yields a lone surrogate.
- Client.Translate: carries no contract of its own. Its behaviour is stated by `Client.Extract` and used through `Engine.Settle` and `Engine.Respond`.
- Editor.ChangeKey: requires an in-range index. In JavaScript an out-of-range index would create a sparse array with holes; the page only passes indices of rendered rows.
- The page's rendering, file reading (`FileReader`, `JSON.parse` and its error messages), the download, the source-language selector, and the asynchronous remainder of `handleTranslate` (awaiting the answer, storing it or the error message, clearing `loading`).
- The `Spinner` component and type declaration files: presentation and typing only.
