# Item store: local list synchronisation

This project models the item store of a point-of-sale web client
(`client/src/stores/items.js`, a Pinia store). The store keeps three
fields: the local mirror `items` of the backend's item list, a `loading`
flag, and the last fetch `error`. Four actions update these fields once
their backend call settles:

- `fetchItems` replaces the whole list. The list becomes empty when the
  response has no `items`.
- `addItem` appends the created item. On failure it re-throws to its caller.
- `editItem` overwrites the first entry with the given `_id`. The new entry
  is the server's updated item with `lowStock` recomputed as `stock <= 5`.
- `deleteItem` filters out every entry with the given `_id`.

The model has three modules:

- `Wrappers` (`wrappers.dfy`) holds `Option`.
- `ItemLists` (`item_lists.dfy`) holds the item record and the list
  operations the actions use. These are `findIndex` (a loop, `FindIndex`,
  proved against the first-match function `FirstIndex`), the replacement
  after an edit (`Edited`) and the filter (`Without`). The module also proves
  lemmas about them.
- `ItemsStore` (`items_store.dfy`) holds the class `Store`, with fields
  `items: seq<Item>`, `loading: bool` and `error: Option<ApiError>`. It has
  one method per action.

Each action takes the settled outcome of its HTTP call as a
`Response<T> = Ok(payload) | Rejected(error)` and does not make the call
itself. It returns the kind of toast it raises (`NoToast`, `SuccessToast` or
`ErrorToast`). `AddItem` also returns `rethrown`, which stands for the
re-thrown exception.

The payloads follow the shapes the code reads:

- `fetchItems` reads `response.data.items`, which may be absent.
- `addItem` reads `response.data`.
- `editItem` reads `response.data.updatedItem`, which may be absent.
- `deleteItem` reads nothing.

An item is `Item(id, stock, lowStock, others)`. The `others` map stands for
the server-defined fields that the object spread copies through unchanged.

Three details of the code are modelled as written:

- In `editItem`, an absent `updatedItem` throws only when an entry with the
  `_id` exists. The throw comes from reading `updated.stock` inside the
  `if (index !== -1)` branch. The exception is caught, so the list is
  unchanged and an error toast is raised. When no entry matches, nothing is
  read and the action reports success.
- `fetchItems` raises no toast on success.
- The entry an edit writes keeps everything of `updated` except `lowStock`,
  as the spread does. So its `_id` is the server's, not necessarily the `id`
  argument.

## Model

| member | source | states |
|---|---|---|
| ItemsStore.Store.constructor | client/src/stores/items.js:6-10 | The store starts with an empty list, `loading` false and no error. |
| ItemsStore.Store.FetchItems | client/src/stores/items.js:13-24 | `loading` is false afterwards on both paths. On success the list is exactly the returned list, or empty when `items` is absent. The error is untouched and no toast is raised. On failure the list is unchanged, `error` holds the failure and an error toast is raised. |
| ItemsStore.Store.AddItem | client/src/stores/items.js:26-43 | On success the list is the old list plus the server's item at the end: the length grows by one, every earlier entry is unchanged, and the last entry is the created item. Nothing is re-thrown. On failure the list is unchanged and the same error is handed back to the caller. `loading` and `error` are never touched. |
| ItemsStore.Store.EditItem | client/src/stores/items.js:45-68 | With an updated item, the list becomes `Edited(old list, id, item)` and a success toast is raised. When `updatedItem` is absent, the list is unchanged; the toast is success if no entry has the `_id` and error (the caught TypeError) if one does. On a rejected call the list is unchanged and an error toast is raised. `error` and `loading` are untouched and nothing reaches the caller. Unique `_id`s are preserved when the server keeps the `_id`. |
| ItemsStore.Store.DeleteItem | client/src/stores/items.js:70-79 | On success the list is `Without(old list, id)` and a success toast is raised. On failure the list is unchanged, an error toast is raised and nothing is propagated. `error` and `loading` are untouched. Unique `_id`s are preserved. |
| ItemLists.Refreshed | client/src/stores/items.js:56-59 | The spread keeps the server item's `_id`, `stock` and other fields. `lowStock` holds exactly when `stock` is at most 5. |
| ItemLists.FirstIndex | client/src/stores/items.js:54 | When it returns a position, that position is in range, its entry has the `_id`, and no earlier entry has it. When it returns nothing, no entry has the `_id`. |
| ItemLists.FindIndex | client/src/stores/items.js:54 | The left-to-right scan returns -1 exactly when no entry has the `_id`. Otherwise it returns the first matching position, which is the one `FirstIndex` gives. |
| ItemLists.Edited | client/src/stores/items.js:53-60 | The length is unchanged. With no matching entry the list is unchanged. Otherwise the first matching position holds the refreshed server item, and every other position keeps its entry, including later entries with the same `_id`. |
| ItemLists.Without | client/src/stores/items.js:73 | The list never grows. No entry with the `_id` remains. Every kept entry comes from the original list. |
| ItemLists.WithoutIsSubsequence | client/src/stores/items.js:73 | The filtered list is a subsequence of the original, so the kept entries stay in their relative order. |
| ItemLists.WithoutKeepsOthers | client/src/stores/items.js:73 | Every entry with another `_id` is kept with all its copies: its multiplicity is unchanged. |
| ItemLists.WithoutCharacterised | client/src/stores/items.js:73 | Any list that is a subsequence of the original, has no entry with the `_id`, and keeps every other entry's multiplicity equals the filtered list. Together with the three properties above, this fixes the filter's result exactly. |
| ItemLists.WithoutIdentity | client/src/stores/items.js:73 | Deleting leaves the list unchanged if and only if no entry has the `_id`. |
| ItemLists.WithoutUnmatched | client/src/stores/items.js:73 | A list with no entry carrying the `_id` passes through the filter unchanged. |
| ItemLists.WithoutIdempotent | client/src/stores/items.js:73 | Deleting the same `_id` twice gives the same list as deleting it once. |
| ItemLists.WithoutConcat | client/src/stores/items.js:73 | Filtering a concatenation gives the concatenation of the filtered parts. |
| ItemLists.WithoutUnique | client/src/stores/items.js:73 | With unique `_id`s and the `_id` present, deleting removes exactly the one entry at its position: the length drops by exactly one. |
| ItemLists.WithoutKeepsUnique | client/src/stores/items.js:73 | Deleting preserves the at-most-one-entry-per-`_id` invariant. |
| ItemLists.EditedKeepsUnique | client/src/stores/items.js:53-60 | An edit whose server item keeps the `_id` preserves the at-most-one-entry-per-`_id` invariant. |
| ItemLists.WithoutReplaceMatching | client/src/stores/items.js:56 | Replacing a matching entry by another entry with the same `_id` does not change what the filter keeps. |
| ItemLists.WithoutAfterEdited | client/src/stores/items.js:53-60 | Editing an `_id` (when the server keeps it) and then deleting it gives the same list as deleting it alone. |
| ItemLists.AppendThenWithout | client/src/stores/items.js:33 | Adding an item with a new `_id` and then deleting that `_id` restores the list from before the add. |
| ItemLists.AppendKeepsUnique | client/src/stores/items.js:33 | Appending an item whose `_id` is new preserves the at-most-one-entry-per-`_id` invariant. |

## Left out

- The HTTP calls (`api.get`, `api.post`, `api.put`, `api.delete`), URL construction and multipart headers are left out. They are network I/O through a client that is not part of this model. Each becomes the `Response` parameter of its action.
- The toast texts are left out. `notifySuccess` and `notifyError` are fire-and-forget UI effects, so only the kind of toast is returned. The choice between the server's message and the fallback text is not modelled, and neither is `console.error`.
- Pinia's `defineStore` registration and reactivity are framework plumbing and are left out.
- Concurrency is left out. Each action runs atomically, so interleavings of in-flight actions are not modelled, such as a fetch overwriting an edit. For the same reason, the `loading == true` state while a fetch is in flight is not observable in the model; only its final value is stated.
- Aliasing is not modelled. `addItem` pushes onto the existing array in place, while `deleteItem` and `fetchItems` assign a new array. In the model all three assign a new `seq`, so a reader holding a reference to the old array is not captured.
- Malformed responses are not modelled. A response without `data`, which would throw inside the `try`, is absent from the model. `response.data.items || []` is modelled as present-or-absent: any falsy value counts as absent, and an empty array is truthy. `addItem` pushes whatever `response.data` is; the model assumes it is an item.
- `stock` is an integer. The loose comparison of a string or missing `stock` with 5 under JavaScript coercion is not modelled.
- The store itself does not enforce "at most one entry per `_id`". The model states it as `UniqueIds` and proves which actions preserve it, without demanding it of any action.
