# Memo store model

A Dafny model of the memo store of a small browser note-taking app. The app
attaches a free-text memo to a Twitter/X profile and keeps it in local storage.
The store exists in three variants, and each is modelled in its own module:

- `MemoId` and `TwitterMemoStore` (`twitter-memo/src/composables/useMemoStore.ts`).
  - An id is derived from a profile URL. The model takes the leftmost `twitter.com/` match, then the leftmost `x.com/` match, with ASCII case folded. It then takes the greedy path segment that contains no `/` or `?`, drops the first `@` and lower-cases the rest.
  - The store is a map from id to record. It supports upsert, which keeps `createdAt`, plus lookup, delete, clear, and whole-store import.
  - It also has a list sorted by `updatedAt` (newest first) and a case-insensitive search that keeps the list's order.
  - The map operations are pure functions. The class `MemoRepository` holds the map as mutable state, and each method is proved to leave exactly the state those functions describe.
- `IdMemoStore` (`src/composables/useMemoStore.ts`).
  - An array of `{id, text, timestamp}` records.
  - The upsert edits the first record with the id in place, or appends a new one. A lookup miss answers `''`.
  - The import checks the shape of every element before it overwrites the array.
- `ProtoMemoStore` (`proto-memo/src/composables/useMemoStore.ts`). The same upsert and lookup, over `{url, text}` records keyed by the exact URL.
- `Strings` supplies the JavaScript string primitives the stores use: `trim` with its whitespace set, ASCII `toLowerCase`, and `includes`.

The clock, the locale-formatted date and the value `JSON.parse` returns are all
parameters. `updatedAt`/`createdAt` are integers. ISO-8601 strings from
`toISOString` order the same way as the instants they denote.

The model follows the code as written, including these details:

- `extractUsernameFromUrl` removes the first `@` anywhere in the segment (`replace('@', '')`), not only a leading one.
- `importData` accepts any non-null object, arrays included, and validates no record. An imported array becomes a store keyed `"0"`, `"1"`, ….
- In the `src` variant, `getAllMemos` returns the array in stored order and does not sort it. Sorting by `updatedAt` exists only as `memoList` in the twitter-memo variant.
- No variant migrates legacy records or backfills `createdAt`.
- `saveMemo` returns true whether or not the data reached storage. Persistence happens in a `watch` callback.

## Model

| member | source | states |
|---|---|---|
| Strings.Trim | twitter-memo/src/composables/useMemoStore.ts:103-105 | `trim()` yields a string no longer than the input that neither starts nor ends with white space |
| Strings.TrimIsInfix | twitter-memo/src/composables/useMemoStore.ts:103-105 | `trim()` yields the infix of the input that only white space precedes and follows |
| Strings.TrimIsEmptyIff | twitter-memo/src/composables/useMemoStore.ts:93 | a string is blank after `trim()` exactly when all of its characters are white space |
| Strings.ToLowerAscii | twitter-memo/src/composables/useMemoStore.ts:69 | lower-casing keeps the length and lower-cases each character |
| Strings.ToLowerAsciiIdempotent | twitter-memo/src/composables/useMemoStore.ts:69 | lower-casing twice is lower-casing once |
| Strings.Contains | twitter-memo/src/composables/useMemoStore.ts:166-167 | `includes(sub)` holds iff `sub` occurs at some index |
| MemoId.FindMatch | twitter-memo/src/composables/useMemoStore.ts:58-59 | the regex finds the leftmost index where the host (any case) is followed by a segment character, and none when no index qualifies |
| MemoId.SegmentFrom | twitter-memo/src/composables/useMemoStore.ts:58-59 | the capture `[^\/\?]+` is the longest run of non-`/`, non-`?` characters at the given index |
| MemoId.IndexOfChar | twitter-memo/src/composables/useMemoStore.ts:60 | the first index of the character, or the length when it is absent |
| MemoId.RemoveFirst | twitter-memo/src/composables/useMemoStore.ts:60 | `replace('@', '')` removes only the first `@`; without one the string is unchanged |
| MemoId.ExtractUsernameFromUrl | twitter-memo/src/composables/useMemoStore.ts:56-64 | a non-empty username implies one of the two hosts matched; the username never contains `/` or `?` |
| MemoId.GenerateMemoId | twitter-memo/src/composables/useMemoStore.ts:67-70 | the id is as long as the username, so it is empty exactly when the username is |
| MemoId.UsernameImpliesUrlNotBlank | twitter-memo/src/composables/useMemoStore.ts:92-95 | a URL with a username is never blank after trimming, so the username test alone decides rejection |
| MemoId.MatchedUrlNotBlank | twitter-memo/src/composables/useMemoStore.ts:92-95 | a URL in which either pattern matches is not blank after trimming |
| MemoId.MatchesAtIgnoresCase | twitter-memo/src/composables/useMemoStore.ts:58-59 | the `i` flag: a match at an index is unaffected by lower-casing the URL |
| MemoId.FindMatchSameMatches | twitter-memo/src/composables/useMemoStore.ts:58-59 | the leftmost match depends only on the indices at which the pattern matches |
| MemoId.FindMatchIgnoresCase | twitter-memo/src/composables/useMemoStore.ts:58-59 | the leftmost match is the same in a URL and its lower-cased form |
| MemoId.SegmentFromIgnoresCase | twitter-memo/src/composables/useMemoStore.ts:58-59 | the captured segment of the lower-cased URL is the lower-cased segment |
| MemoId.CaptureAt | twitter-memo/src/composables/useMemoStore.ts:58-59 | `match(...)[1]` is the segment right after the host at the leftmost match |
| MemoId.LowerCaptureAtMatch | twitter-memo/src/composables/useMemoStore.ts:58-59 | when the lower-cased URL matches at the same index, its capture is the lower-cased segment |
| MemoId.CaptureAfterIgnoresCase | twitter-memo/src/composables/useMemoStore.ts:58-59 | a pattern captures in the lower-cased URL exactly when it captures in the URL, and then captures the lower-cased group |
| MemoId.RemoveFirstIgnoresCase | twitter-memo/src/composables/useMemoStore.ts:60 | removing the first `@` commutes with lower-casing |
| MemoId.ExtractUsernameIgnoresCase | twitter-memo/src/composables/useMemoStore.ts:56-64 | the username of the lower-cased URL is the lower-cased username |
| MemoId.GenerateMemoIdIgnoresCase | twitter-memo/src/composables/useMemoStore.ts:67-70 | URLs that differ only in ASCII case give the same id |
| MemoId.SegmentToEnd | twitter-memo/src/composables/useMemoStore.ts:58-59 | a capture with no `/` or `?` before the end of the URL runs to the end |
| MemoId.XProfileUrlCapture | twitter-memo/src/composables/useMemoStore.ts:58-59 | in `https://x.com/<segment>` the `twitter.com/` pattern matches nowhere and the `x.com/` pattern captures the whole segment |
| MemoId.TwitterProfileUrlCapture | twitter-memo/src/composables/useMemoStore.ts:58 | in `https://twitter.com/<segment>` the `twitter.com/` pattern captures the whole segment |
| MemoId.MemoIdOfXProfileUrl | twitter-memo/src/composables/useMemoStore.ts:56-70 | `https://x.com/<handle>` yields the handle as username and the lower-cased handle as id |
| MemoId.ExtractFromTwitterProfileUrl | twitter-memo/src/composables/useMemoStore.ts:56-64 | `https://twitter.com/<handle>` yields the handle |
| MemoId.ProfileUrlsShareId | twitter-memo/src/composables/useMemoStore.ts:56-70 | `twitter.com/<h1>` and `x.com/<h2>` name the same memo when the handles differ only in case |
| MemoId.ExtractDropsAt | twitter-memo/src/composables/useMemoStore.ts:60 | `https://x.com/@<handle>` yields the handle without the `@` |
| TwitterMemoStore.GetMemo | twitter-memo/src/composables/useMemoStore.ts:114-117 | `getMemo` finds a record iff the URL's id is a key, and then it is the record under that key |
| TwitterMemoStore.HasMemo | twitter-memo/src/composables/useMemoStore.ts:130-133 | `hasMemo(u)` holds iff `getMemo(u)` finds a record |
| TwitterMemoStore.MemoCount | twitter-memo/src/composables/useMemoStore.ts:88 | the count is zero exactly when the store is empty |
| TwitterMemoStore.Saved | twitter-memo/src/composables/useMemoStore.ts:91-111 | `saveMemo` rejects exactly the URLs without a username. Otherwise the record is written under the non-empty id with the trimmed URL and text, `updatedAt` = now, and the old `createdAt` when the id was present (else now). The key set grows by the id only |
| TwitterMemoStore.SavedLeavesOthers | twitter-memo/src/composables/useMemoStore.ts:101-108 | a save leaves every record under another id as it was |
| TwitterMemoStore.SavePreservesConsistent | twitter-memo/src/composables/useMemoStore.ts:97-108 | with a clock that does not go backwards, a save keeps every record under its own lower-cased username with `createdAt <= updatedAt` |
| TwitterMemoStore.GetAfterSave | twitter-memo/src/composables/useMemoStore.ts:91-117 | after a save, `getMemo` on the same URL returns the trimmed text, stamped now |
| TwitterMemoStore.GetOtherAfterSave | twitter-memo/src/composables/useMemoStore.ts:101-117 | a save leaves `getMemo` unchanged for URLs with another id |
| TwitterMemoStore.SaveTwiceSameId | twitter-memo/src/composables/useMemoStore.ts:97-108 | two saves through URLs with the same id leave one record: the second text, the second time and the first `createdAt` |
| TwitterMemoStore.GetSameId | twitter-memo/src/composables/useMemoStore.ts:114-117 | URLs with the same id read the same record |
| TwitterMemoStore.UsernamesDifferingInCase | twitter-memo/src/composables/useMemoStore.ts:91-117 | on an empty store, saving two URLs with the same id (`x.com/alice`, `x.com/ALICE`) leaves one record, read by both URLs, with the second text and the first save's time |
| TwitterMemoStore.InsertByUpdated | twitter-memo/src/composables/useMemoStore.ts:83-85 | inserting a record adds exactly that record to the list's contents |
| TwitterMemoStore.InsertKeepsBound | twitter-memo/src/composables/useMemoStore.ts:83-85 | inserting a record no later than a bound keeps every record within the bound |
| TwitterMemoStore.InsertKeepsSorted | twitter-memo/src/composables/useMemoStore.ts:83-85 | inserting into a list sorted by `updatedAt` descending keeps it sorted |
| TwitterMemoStore.ValuesOnContents | twitter-memo/src/composables/useMemoStore.ts:83 | `Object.values` holds one value per key, and exactly the stored values |
| TwitterMemoStore.NewestIsFirst | twitter-memo/src/composables/useMemoStore.ts:82-86 | the record updated strictly last heads `memoList` |
| TwitterMemoStore.SavedComesFirst | twitter-memo/src/composables/useMemoStore.ts:82-111 | a record saved later than every other update moves to the front of `memoList` |
| TwitterMemoStore.FilterMatching | twitter-memo/src/composables/useMemoStore.ts:165-168 | the filter keeps the list's order and keeps each record exactly when its username or memo, lower-cased, contains the term |
| TwitterMemoStore.SearchMemos | twitter-memo/src/composables/useMemoStore.ts:161-169 | a query blank after lower-casing and trimming returns `memoList` itself; otherwise the result is the order-preserving sub-list of the matching records, each as often as in `memoList` |
| TwitterMemoStore.SubsequenceKeepsSorted | twitter-memo/src/composables/useMemoStore.ts:165-168 | an order-preserving sub-list of a newest-first list is newest-first |
| TwitterMemoStore.SearchResultsSorted | twitter-memo/src/composables/useMemoStore.ts:161-169 | search results are sorted newest first, like `memoList` |
| TwitterMemoStore.DecimalStringInjective | twitter-memo/src/composables/useMemoStore.ts:150-151 | distinct array indices are distinct property keys |
| TwitterMemoStore.ArrayAsStoreKeys | twitter-memo/src/composables/useMemoStore.ts:150-151 | an array imported as the store has only its index keys |
| TwitterMemoStore.ArrayAsStoreLookup | twitter-memo/src/composables/useMemoStore.ts:150-151 | each index key of an imported array leads to its item |
| TwitterMemoStore.ArrayAsStoreSize | twitter-memo/src/composables/useMemoStore.ts:150-151 | an imported array has as many keys as items |
| TwitterMemoStore.Imported | twitter-memo/src/composables/useMemoStore.ts:147-158 | the import is accepted iff parsing succeeded and gave an object or array. An object becomes the store as is; an array becomes its index-keyed view, key `"i"` holding item `i`, with one key per item |
| TwitterMemoStore.MemoRepository.constructor | twitter-memo/src/composables/useMemoStore.ts:74 | the store starts as what was loaded |
| TwitterMemoStore.MemoRepository.SaveMemo | twitter-memo/src/composables/useMemoStore.ts:91-111 | returns true iff the URL has a username. The new store is then the one `Saved` describes; otherwise the store is unchanged |
| TwitterMemoStore.MemoRepository.DeleteMemo | twitter-memo/src/composables/useMemoStore.ts:120-127 | returns true iff the id was a key, and then removes exactly that key; otherwise the store is unchanged |
| TwitterMemoStore.MemoRepository.ClearAllMemos | twitter-memo/src/composables/useMemoStore.ts:136-139 | the store is empty, and the result is what clearing storage returned |
| TwitterMemoStore.MemoRepository.ImportData | twitter-memo/src/composables/useMemoStore.ts:147-158 | accepts exactly a parsed object or array and replaces the whole store; otherwise the store is unchanged |
| TwitterMemoStore.MemoRepository.MemoList | twitter-memo/src/composables/useMemoStore.ts:82-86 | `memoList` is sorted by `updatedAt` descending, is a permutation of the stored values, and is `memoCount` long |
| TwitterMemoStore.DeleteUndoesFirstSave | twitter-memo/src/composables/useMemoStore.ts:91-127 | deleting right after the first save of an id restores the store |
| TwitterMemoStore.HasMemoAsWritten | twitter-memo/src/composables/useMemoStore.ts:130-133 | on a store that is a plain object, `id in store.value` as written holds exactly when the id is an own key or a name inherited from `Object.prototype` |
| TwitterMemoStore.GetMemoAsWritten | twitter-memo/src/composables/useMemoStore.ts:114-117 | the property read `store.value[id]` as written gives the own record exactly when `getMemo` finds one, the inherited member exactly when only the `in` test holds, and `null` otherwise |
| TwitterMemoStore.DeletedAsWritten | twitter-memo/src/composables/useMemoStore.ts:120-127 | `deleteMemo` as written answers the `in` test, removes the key when it is an own key, and leaves the store unchanged otherwise |
| TwitterMemoStore.CreatedAtAsWritten | twitter-memo/src/composables/useMemoStore.ts:99-106 | the `createdAt` written as written is the stored one for an own key, `undefined` for a name that is only inherited, and `now` otherwise |
| TwitterMemoStore.InheritedHandleSeenOnEmptyStore | twitter-memo/src/composables/useMemoStore.ts:99-133 | on an empty store and a handle whose lower-cased form is an inherited name, the code as written reports a memo, reads the inherited member, answers true to a delete and writes an undefined `createdAt`; the own-key reading finds no memo and creates the first save at `now` |
| TwitterMemoStore.ConstructorIsInheritedHandle | twitter-memo/src/composables/useMemoStore.ts:130-133 | `constructor` is such a handle |
| IdMemoStore.FindIndex | src/composables/useMemoStore.ts:41 | `findIndex` gives -1 iff no record has the id, and otherwise the first index that has it |
| IdMemoStore.GetMemo | src/composables/useMemoStore.ts:58-62 | `getMemo` returns `''` when no record has the id, and otherwise the first matching record's text |
| IdMemoStore.GetMemoDistinct | src/composables/useMemoStore.ts:58-62 | with distinct ids, `getMemo` returns the text of the one record with the id |
| IdMemoStore.Saved | src/composables/useMemoStore.ts:36-51 | on a present id, the first record with it gets the new text and date in place, and the length and all other records are unchanged. On an absent id, `{id, text, timestamp}` is appended |
| IdMemoStore.SavedKeepsOthers | src/composables/useMemoStore.ts:41-49 | a save loses no record, grows the array by at most one, and leaves every record with another id where and as it was |
| IdMemoStore.SavePreservesDistinct | src/composables/useMemoStore.ts:41-49 | pairwise distinct ids stay pairwise distinct |
| IdMemoStore.GetAfterSave | src/composables/useMemoStore.ts:36-62 | after `saveMemo(id, text)`, `getMemo(id)` returns `text` |
| IdMemoStore.GetOtherAfterSave | src/composables/useMemoStore.ts:36-62 | a save leaves `getMemo` unchanged for every other id |
| IdMemoStore.Imported | src/composables/useMemoStore.ts:77-93 | the import is accepted iff the input is an array of non-null objects that each have `id`, `text` and `timestamp`. The records are then exactly those elements, in order |
| IdMemoStore.ImportOfExported | src/composables/useMemoStore.ts:68-93 | importing the records `getAllMemos` returns gives back the same array |
| IdMemoStore.ImportRejectsMissingTimestamp | src/composables/useMemoStore.ts:81-84 | one object without `timestamp` makes the whole import fail |
| IdMemoStore.MemoStore.constructor | src/composables/useMemoStore.ts:15 | the array starts as what was loaded |
| IdMemoStore.MemoStore.SaveMemo | src/composables/useMemoStore.ts:36-51 | the new array is the one `Saved` describes |
| IdMemoStore.MemoStore.GetAllMemos | src/composables/useMemoStore.ts:68-70 | returns the current array and changes nothing |
| IdMemoStore.MemoStore.ImportMemos | src/composables/useMemoStore.ts:77-93 | an input that passes the shape check replaces the array with exactly its records, and any other input leaves it unchanged. The answer is true iff the check passed and the `saveMemos()` call that follows returned normally |
| ProtoMemoStore.FindIndex | proto-memo/src/composables/useMemoStore.ts:23 | `findIndex` gives -1 iff no record has the URL, and otherwise the first index that has it |
| ProtoMemoStore.GetMemo | proto-memo/src/composables/useMemoStore.ts:32-34 | `getMemo` returns `''` when no record has the URL, and otherwise the first matching record's text |
| ProtoMemoStore.Saved | proto-memo/src/composables/useMemoStore.ts:22-30 | on a present URL, only the text of the first record with it changes, and the length and order are unchanged. On an absent URL, `{url, text}` is appended |
| ProtoMemoStore.SavedKeepsOthers | proto-memo/src/composables/useMemoStore.ts:22-30 | a save loses no record and moves no URL, grows the array by at most one, and leaves records with another URL untouched |
| ProtoMemoStore.SavePreservesDistinct | proto-memo/src/composables/useMemoStore.ts:23-28 | unique URLs stay unique |
| ProtoMemoStore.GetAfterSave | proto-memo/src/composables/useMemoStore.ts:22-34 | after `saveMemo(url, text)`, `getMemo(url)` returns `text` |
| ProtoMemoStore.GetOtherAfterSave | proto-memo/src/composables/useMemoStore.ts:22-34 | a save leaves `getMemo` unchanged for every other URL |
| ProtoMemoStore.SaveSameTextIsIdempotent | proto-memo/src/composables/useMemoStore.ts:22-30 | saving the same text twice leaves what saving it once left |
| ProtoMemoStore.MemoStore.constructor | proto-memo/src/composables/useMemoStore.ts:10 | the array starts as what was loaded |
| ProtoMemoStore.MemoStore.SaveMemo | proto-memo/src/composables/useMemoStore.ts:22-30 | the new array is the one `Saved` describes |

## Left out

- Storage I/O is not modelled. This covers `LocalStorageAdapter` and the `watch` auto-save in the twitter-memo variant, and `loadMemos`/`saveMemos` in the other two. What was loaded is the constructors' parameter, what `clear()` returned is `ClearAllMemos`' parameter, and whether `saveMemos()` returned normally is `ImportMemos`' parameter `persisted`.
- `exportData` and the text side of `importData` are `JSON.stringify`/`JSON.parse` library calls. The parsed value (`None` for a parse failure) is a parameter.
- The clock and the locale are parameters: `new Date().toISOString()` (as an integer `now`) and `toLocaleDateString('ja-JP', …)` (as the `timestamp` string).
- Vue's `ref`, `computed` and `watch` are not modelled. The state is plain data.
- The twitter-memo-app wrapper `twitter-memo-app/src/components/useMemoStore.ts` is not part of this model. It only calls local storage.
- MemoId.ExtractUsernameFromUrl: the regex `i` flag is modelled for ASCII letters only. Full Unicode case folding is left out.
- MemoId.GenerateMemoId: `toLowerCase` is modelled for ASCII letters only, so a handle with `É` keeps it upper-case in the model. Full Unicode case mapping is left out.
- TwitterMemoStore.SearchMemos: `toLowerCase` of the query, the username and the memo is modelled for ASCII letters only. A query `é` matches a memo containing `É` in JavaScript but not in the model.
- MemoId.ExtractUsernameFromUrl: the `try`/`catch` is left out, because `match` on a string cannot throw.
- TwitterMemoStore.MemoRepository.MemoList: among records with equal `updatedAt`, the model may return any order. JavaScript returns them in `Object.values` order (integer-like keys ascending, then insertion order), which the stable sort keeps. A map does not record insertion order.
- TwitterMemoStore.MemoRepository.MemoList: dates that fail to parse are left out. `getTime()` yields `NaN` for them, and the comparator then misbehaves. Timestamps are integers here.
- TwitterMemoStore.Imported: every member of an imported object or array is taken to be a memo record. The code does not check the record shape, and the effect of later operations on malformed records is left out.
- TwitterMemoStore.Imported: an imported array stays a JavaScript array, with its own `length` and the `Array.prototype` methods. The model treats it as a plain object keyed `"0"`, `"1"`, …, so the operations that follow are modelled as on that object.
- TwitterMemoStore.HasMemoAsWritten: states the `in` test for a store that is a plain object. After an array import, `in` also holds for `length` and for `Array.prototype` names such as `push`, `sort`, `filter` and `keys`, and `saveMemo("https://x.com/length", …)` assigns an object to `length`, which throws a `RangeError`. These are not modelled.
- IdMemoStore.MemoStore.SaveMemo: when `saveMemos()` throws, for example because storage is full, the exception reaches the caller after the array was already edited. The model states the edited array and does not model the exception.
- ProtoMemoStore.MemoStore.SaveMemo: the same as for `IdMemoStore.MemoStore.SaveMemo`. A throwing `saveMemos()` leaves the edit in place, and the exception is not modelled.
- TwitterMemoStore.GetMemo: models the own-key reading. For an inherited name the code returns the inherited member (`GetMemoAsWritten`, under Findings). Among own keys a stored value is a record object, which is truthy; falsy stored values could come only from an unchecked import, and they are left out. The store is a Vue reactive proxy, whose `get` trap answers the key `__v_raw` with the raw store object. So `getMemo("https://x.com/__v_raw")` returns that object, while `hasMemo` says false. `GetMemoAsWritten` models a plain object and does not cover this key.
- TwitterMemoStore.Saved: saving under an inherited name (`constructor`, `__proto__`) is modelled with the corrected own-key test. The `createdAt` the code writes there is `CreatedAtAsWritten`, under Findings.
- TwitterMemoStore.CreatedAtAsWritten: for `__proto__`, the assignment `store.value[id] = …` replaces the store's prototype instead of adding a key. That effect on the store is not modelled.
- IdMemoStore.Imported: property values other than strings are left out, and so are properties beyond `id`, `text` and `timestamp`. The check only tests that the properties are present. `getMemo`'s `|| ''` on a non-string text is left out with them.
- IdMemoStore.MemoStore.GetAllMemos: aliasing is not modelled. The array is a value, so a caller holding the array returned by `getAllMemos` does not see later in-place edits.

## Findings

| source | as written | input that shows it | evidently intended | confidence | as-written member | corrected member |
|---|---|---|---|---|---|---|
| twitter-memo/src/composables/useMemoStore.ts:130-133 | `hasMemo` tests `id in store.value`, which also holds for properties inherited from `Object.prototype` | On an empty store, `hasMemo("https://x.com/constructor")` returns true | a memo exists only under an own key of the store | not executed | TwitterMemoStore.HasMemoAsWritten, TwitterMemoStore.InheritedHandleSeenOnEmptyStore | TwitterMemoStore.HasMemo |
| twitter-memo/src/composables/useMemoStore.ts:114-117 | `getMemo` returns the property read `store.value[id]`, which follows the prototype chain, or `null` | On an empty store, `getMemo("https://x.com/constructor")` returns the `Object` function, and for `__proto__` it returns `Object.prototype` | `null` when no memo is stored under the id | not executed | TwitterMemoStore.GetMemoAsWritten, TwitterMemoStore.InheritedHandleSeenOnEmptyStore | TwitterMemoStore.GetMemo |
| twitter-memo/src/composables/useMemoStore.ts:120-127 | `deleteMemo` answers with the same `in` test | On an empty store, `deleteMemo("https://x.com/constructor")` returns true and removes nothing | true only when a memo was removed | not executed | TwitterMemoStore.DeletedAsWritten, TwitterMemoStore.InheritedHandleSeenOnEmptyStore | TwitterMemoStore.MemoRepository.DeleteMemo |
| twitter-memo/src/composables/useMemoStore.ts:99-106 | `isUpdate` is the same `in` test, and `createdAt` is then read from `store.value[id]` | A first `saveMemo("https://x.com/constructor", …)` on an empty store writes `createdAt: undefined` | a first save is created at `now` | not executed | TwitterMemoStore.CreatedAtAsWritten, TwitterMemoStore.InheritedHandleSeenOnEmptyStore | TwitterMemoStore.Saved |
