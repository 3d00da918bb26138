# A verified model of the MyCodeExample game architecture

MyCodeExample is a Unity sample built on a small game architecture. This project models
its sequential core in Dafny and proves what each piece promises:

- **PageDataService**: a paged cache in front of a data server. It holds the item count
  (the sentinel `int.MinValue` while unknown) and one slot per item. It offers a count
  refresh, a range fetch, a synchronous cache read and an invalidation.
- **PageScreenFeature**: splits the items into pages of five, moves between pages, and
  reads each page from the cache first, fetching it only on a miss.
- **ListExtensions**: swap-remove, in-place move and bulk append on a `List<T>`, seen as
  its internal array and size.
- **EnumExtensions**: has / add / remove / has-any over the 64-bit value of a flags enum.
- **SerializableDictionary**: flattens a dictionary into an entry array and rebuilds it.
- **EventBus**: a registry of listeners per event type. Empty buckets are pruned, and
  listen-once listeners drop out after their first call.
- **PlayerLoopUpdateManager**: inserts an update system into the engine's player loop,
  removes it again, and keeps the list of registered updateables.
- **Feature**: the enable/disable state machine that keeps a feature's update
  registration in step with its enabled state.
- **SystemManager**: the registries of services, managers and features. It reports
  duplicate and not-found errors and tears everything down in reverse order.
- **UIObject**: the `UIObjectState` flag transitions and the show and hide animation steps.
- **ScreenManager**: the registry of screen objects by runtime type, the show and hide
  queues, and the round-robin scheduler that advances their transitions.

There is one module per source file: `page_data_service.dfy`,
`page_screen_feature.dfy`, `list_extensions.dfy`, `enum_extensions.dfy`,
`serializable_dictionary.dfy`, `event_bus.dfy`, `player_loop.dfy`, `feature.dfy`,
`system_manager.dfy`, `ui_object.dfy` and `screen_manager.dfy`. `wrappers.dfy` holds the
`Option` and `Result` types.

- State the source changes in place is a class field. The page cache and the list's
  internal array are `array`s; the other lists and dictionaries are `seq`s and `map`s.
- Exceptions are `Failure` results.
- Server answers, time-outs and cancellations are inputs of type `Response`.
- Calls into Unity, into the page screen and into a concrete feature are recorded as
  logs of calls (`screen`, `published`, `hooks`, `effects`, `log`, `animations`).

## Model

| member | source | states |
|---|---|---|
| PageDataServices.ErrorOf | MyCodeExample/Assets/_MyCodeExample.Game/Scripts/Runtime/Services/PageDataService.cs:101-123 | the exception a failed server call rethrows is InvalidData exactly when the call returned a value (an empty or non-positive answer), and never DataUnavailable or OutOfRange |
| PageDataServices.EmptySlots | MyCodeExample/Assets/_MyCodeExample.Game/Scripts/Runtime/Services/PageDataService.cs:219-228 | n slots, each a default slot that is not valid |
| PageDataServices.Merged | MyCodeExample/Assets/_MyCodeExample.Game/Scripts/Runtime/Services/PageDataService.cs:244-257 | writing fetched items into the cache keeps its length |
| PageDataServices.MergedAt | MyCodeExample/Assets/_MyCodeExample.Game/Scripts/Runtime/Services/PageDataService.cs:244-257 | after the write, slot start+i holds item i as a valid slot with index start+i, and every other slot is unchanged |
| PageDataServices.GenerateEmptyCacheEntries | MyCodeExample/Assets/_MyCodeExample.Game/Scripts/Runtime/Services/PageDataService.cs:219-228 | a new array of exactly n invalid default slots |
| PageDataServices.IsCachedDataValid | MyCodeExample/Assets/_MyCodeExample.Game/Scripts/Runtime/Services/PageDataService.cs:230-242 | true exactly when every slot of [start, start+count) is valid (vacuously true for count 0) |
| PageDataServices.UpdateCacheEntries | MyCodeExample/Assets/_MyCodeExample.Game/Scripts/Runtime/Services/PageDataService.cs:244-257 | with at most `count` items, item i is written to slot start+i and nothing else changes; with more items than `count`, the first `count` are written before the slice indexer throws (OutOfRange) |
| PageDataServices.PageDataService.constructor | MyCodeExample/Assets/_MyCodeExample.Game/Scripts/Runtime/Services/PageDataService.cs:43-48 | a new service has the given server, the sentinel count and no slots |
| PageDataServices.PageDataService.ChangeDataProvider | MyCodeExample/Assets/_MyCodeExample.Game/Scripts/Runtime/Services/PageDataService.cs:54-63 | switching servers sets the sentinel count and empties the cache |
| PageDataServices.PageDataService.InvalidateCache | MyCodeExample/Assets/_MyCodeExample.Game/Scripts/Runtime/Services/PageDataService.cs:68-76 | from any state: the sentinel count, no slots, and the count no longer valid (so a second call changes nothing) |
| PageDataServices.PageDataService.RequestDataAvailableCount | MyCodeExample/Assets/_MyCodeExample.Game/Scripts/Runtime/Services/PageDataService.cs:83-126 | succeeds exactly when the server answers a positive count r; then the count is r and the cache is a new array of r invalid slots, even if r equals the old count; on any other outcome the cache is invalidated and the matching exception is returned |
| PageDataServices.PageDataService.TryRequestPageData | MyCodeExample/Assets/_MyCodeExample.Game/Scripts/Runtime/Services/PageDataService.cs:135-180 | keeps the cache invariant; no valid count: DataUnavailable and the cache untouched; an empty answer, fault, time-out or cancellation: the matching exception and the cache untouched; an answer for a range the cache slice rejects: OutOfRange and the cache untouched; k items with 0 < k <= count: slots [start, start+k) are written and the count slots from start are returned; more than count items: the first count are written, then OutOfRange |
| PageDataServices.PageDataService.TryGetPageData | MyCodeExample/Assets/_MyCodeExample.Game/Scripts/Runtime/Services/PageDataService.cs:189-217 | fails (DataUnavailable) exactly when the count is not valid; a range the cache slice rejects returns false with nothing; otherwise hits exactly when every slot of the range is valid, returning those slots, and misses with nothing |
| PageDataServices.FetchedRangeHits | MyCodeExample/Assets/_MyCodeExample.Game/Scripts/Runtime/Services/PageDataService.cs:152-158 | round trip: after a fetch of n items at start, the n slots from start are all valid, hold those items at their absolute indices, and show DisplayIndex = index + 1 |
| PageDataServices.MergedKeepsValid | MyCodeExample/Assets/_MyCodeExample.Game/Scripts/Runtime/Services/PageDataService.cs:244-257 | a valid slot stays valid through any fetch, so only a refresh or invalidation turns a hit into a miss |
| PageDataServices.MergedIndexed | MyCodeExample/Assets/_MyCodeExample.Game/Scripts/Runtime/Services/PageDataService.cs:244-257 | a fetch and a refresh both keep every valid slot at its own index (slot i holds index i) |
| PageDataServices.MergedIdempotent | MyCodeExample/Assets/_MyCodeExample.Game/Scripts/Runtime/Services/PageDataService.cs:244-257 | fetching the same page twice leaves the cache as fetching it once |
| PageDataServices.MergedDisjointCommute | MyCodeExample/Assets/_MyCodeExample.Game/Scripts/Runtime/Services/PageDataService.cs:244-257 | fetches of disjoint ranges commute |
| PageDataServices.EmptySlotsMiss | MyCodeExample/Assets/_MyCodeExample.Game/Scripts/Runtime/Services/PageDataService.cs:95-100 | right after a refresh, every non-empty range misses |
| PageScreenFeatures.FullPages | MyCodeExample/Assets/_MyCodeExample.Game/Scripts/Runtime/Features/PageScreenFeature.cs:152-157 | n full pages of 5 entries starting at 0, 5, 10, ... |
| PageScreenFeatures.PagesTile | MyCodeExample/Assets/_MyCodeExample.Game/Scripts/Runtime/Features/PageScreenFeature.cs:148-163 | the pages of count items number ceil(count/5); page j starts at 5j and holds 1 to 5 entries within count; all but the last are full and each starts where the previous ends; the last ends at count |
| PageScreenFeatures.PageOfItem | MyCodeExample/Assets/_MyCodeExample.Game/Scripts/Runtime/Features/PageScreenFeature.cs:148-163 | every item k < count lies on page k/5, so the pages cover [0, count) |
| PageScreenFeatures.PagesWithin | MyCodeExample/Assets/_MyCodeExample.Game/Scripts/Runtime/Features/PageScreenFeature.cs:148-163 | there is a page when count > 0, and every page passes the service's range check for count |
| PageScreenFeatures.NavigationMatchesButtons | MyCodeExample/Assets/_MyCodeExample.Game/Scripts/Runtime/Features/PageScreenFeature.cs:190-211 | for an index within the pages, First exactly at index 0 (even for a single page), Last exactly at the last index otherwise, Middle in between; previous moves exactly off First, next exactly off Last or First with more pages |
| PageScreenFeatures.PageScreenFeature.constructor | MyCodeExample/Assets/_MyCodeExample.Game/Scripts/Runtime/Features/PageScreenFeature.cs:19-30 | no pages, index 0, no entries, nothing shown or published |
| PageScreenFeatures.PageScreenFeature.SetupAndLoadFirstPage | MyCodeExample/Assets/_MyCodeExample.Game/Scripts/Runtime/Features/PageScreenFeature.cs:139-180 | a positive count appends exactly the pages of the count, sets up the screen for 5 entries and fetches page 0 from the fresh cache; InitialPageContentReady is published after the fetch, even after a failed fetch has published SwitchPageContentError, because the page switch itself completes; any other count outcome leaves no pages, an invalid count and SetupPageContentError |
| PageScreenFeatures.PageScreenFeature.ShowPages | MyCodeExample/Assets/_MyCodeExample.Game/Scripts/Runtime/Features/PageScreenFeature.cs:148-172 | the success branch: the pages of the count, the screen set up for 5 entries with First controls, page 0 missed in the fresh cache and fetched, then InitialPageContentReady |
| PageScreenFeatures.PageScreenFeature.AddPages | MyCodeExample/Assets/_MyCodeExample.Game/Scripts/Runtime/Features/PageScreenFeature.cs:148-163 | the two loops append exactly the pages of the count to the page list |
| PageScreenFeatures.PageScreenFeature.OnPreviousPageButtonClicked | MyCodeExample/Assets/_MyCodeExample.Game/Scripts/Runtime/Features/PageScreenFeature.cs:85-92 | above page 0 the index drops by one and the new page is shown as GoToPage does it: the controls updated, then shown from the cache on a hit, or fetched on a miss with the screen calls, events and cache of the fetch; at page 0 nothing changes |
| PageScreenFeatures.PageScreenFeature.OnNextPageButtonClicked | MyCodeExample/Assets/_MyCodeExample.Game/Scripts/Runtime/Features/PageScreenFeature.cs:94-101 | below the last page index the index rises by one and the new page is shown as GoToPage does it (hit from the cache, or the fetch on a miss); at the last page nothing changes |
| PageScreenFeatures.PageScreenFeature.GoToPage | MyCodeExample/Assets/_MyCodeExample.Game/Scripts/Runtime/Features/PageScreenFeature.cs:109-137 | the controls are updated first; a cache hit shows the page at once; a miss starts the transition and fetches, finishing it on success, publishing SwitchPageContentError on a failure and nothing on a cancellation |
| PageScreenFeatures.PageScreenFeature.RequestPage | MyCodeExample/Assets/_MyCodeExample.Game/Scripts/Runtime/Features/PageScreenFeature.cs:119-134 | the miss branch: InitiatePageTransition, then the fetch, with its screen calls, events and cache as MissOutcome gives them |
| PageScreenFeatures.RevisitHits | MyCodeExample/Assets/_MyCodeExample.Game/Scripts/Runtime/Features/PageScreenFeature.cs:109-137 | after a page is shown from the cache or from an answer that fills it, going back to it is a cache hit that shows the same slots, with no request, no event and the cache unchanged |
| PageScreenFeatures.PageScreenFeature.OnFeatureDisable | MyCodeExample/Assets/_MyCodeExample.Game/Scripts/Runtime/Features/PageScreenFeature.cs:52-58 | corrected disable: the cache invalidated, index and total 0, and the page list emptied |
| PageScreenFeatures.PageScreenFeature.OnFeatureDisableAsWritten | MyCodeExample/Assets/_MyCodeExample.Game/Scripts/Runtime/Features/PageScreenFeature.cs:52-58 | disable as written: the cache invalidated and index and total 0, but the page list kept |
| PageScreenFeatures.StalePagesAfterReenable | MyCodeExample/Assets/_MyCodeExample.Game/Scripts/Runtime/Features/PageScreenFeature.cs:52-58 | after a disable as written, re-enabling with 3 items (after 10) yields 3 pages, not the pages of 3, and page 0 asks for 5 entries of 3 |
| PageScreenFeatures.ClearedPagesAfterReenable | MyCodeExample/Assets/_MyCodeExample.Game/Scripts/Runtime/Features/PageScreenFeature.cs:52-58 | with the list cleared, every enable builds exactly the pages of its own count, all within range |
| ListExtensions.SwapRemovedAt | MyCodeExample/Packages/pl.quickpixel/Runtime/Extension/ListExtensions.cs:43-48 | RemoveAtFast(i) shortens by one, slot i takes the old last element, every other slot below the new length is unchanged |
| ListExtensions.SwapRemovedMultiset | MyCodeExample/Packages/pl.quickpixel/Runtime/Extension/ListExtensions.cs:43-48 | RemoveAtFast(i) removes exactly one occurrence of the old element at i |
| ListExtensions.IndexOf | MyCodeExample/Packages/pl.quickpixel/Runtime/Extension/ListExtensions.cs:52 | the first index holding the value, or -1 exactly when it is absent |
| ListExtensions.MovedAt | MyCodeExample/Packages/pl.quickpixel/Runtime/Extension/ListExtensions.cs:135-149 | MoveFast(o, t) puts the old element at o at t, shifts each slot between them one step toward o, and leaves the rest (everything when o = t) unchanged |
| ListExtensions.MovedIsPermutation | MyCodeExample/Packages/pl.quickpixel/Runtime/Extension/ListExtensions.cs:135-149 | MoveFast neither gains nor loses an element |
| ListExtensions.FastList.constructor | MyCodeExample/Assets/_MyCodeExample/Scripts/Runtime/Managers/PlayerLoopUpdateManager.cs:66 | an empty list with the given capacity |
| ListExtensions.FastList.FromSeq | MyCodeExample/Assets/_MyCodeExample/Scripts/Runtime/Managers/PlayerLoopUpdateManager.cs:81 | a list holding a copy of the given elements |
| ListExtensions.FastList.RemoveAtFast | MyCodeExample/Packages/pl.quickpixel/Runtime/Extension/ListExtensions.cs:43-48 | the elements become the swap-removed sequence, in the same internal array |
| ListExtensions.FastList.RemoveFast | MyCodeExample/Packages/pl.quickpixel/Runtime/Extension/ListExtensions.cs:50-56 | RemoveAtFast at the first index of a value that must be present |
| ListExtensions.FastList.SetCapacity | MyCodeExample/Packages/pl.quickpixel/Runtime/Extension/ListExtensions.cs:112-113 | a new internal array of the requested capacity holding the same elements |
| ListExtensions.FastList.AddArrayFastCount | MyCodeExample/Packages/pl.quickpixel/Runtime/Extension/ListExtensions.cs:109-120 | the elements become the old ones followed by the first itemCount of the array, also when the array is the list's own internal array |
| ListExtensions.FastList.AddArrayFast | MyCodeExample/Packages/pl.quickpixel/Runtime/Extension/ListExtensions.cs:88-91 | the elements become the old ones followed by the whole array |
| ListExtensions.FastList.AddListFast | MyCodeExample/Packages/pl.quickpixel/Runtime/Extension/ListExtensions.cs:130-133 | the elements become the old ones followed by the other list's, in order; appending a list to itself doubles it |
| ListExtensions.FastList.MoveFast | MyCodeExample/Packages/pl.quickpixel/Runtime/Extension/ListExtensions.cs:135-149 | the shifting loop leaves exactly the moved sequence |
| EnumExtensions.AddFlag | MyCodeExample/Packages/pl.quickpixel/Runtime/Extension/EnumExtensions.cs:16-26 | the new value is target OR flag, and the value is unchanged when the flag was already fully set |
| EnumExtensions.RemoveFlag | MyCodeExample/Packages/pl.quickpixel/Runtime/Extension/EnumExtensions.cs:28-38 | the new value is target AND NOT flag, and the value is unchanged when no bit of the flag was set |
| EnumExtensions.AddFlagSetsFlag | MyCodeExample/Packages/pl.quickpixel/Runtime/Extension/EnumExtensions.cs:8-26 | after AddFlag the flag is present and no old bit is cleared |
| EnumExtensions.RemoveFlagClearsFlag | MyCodeExample/Packages/pl.quickpixel/Runtime/Extension/EnumExtensions.cs:28-46 | after RemoveFlag no bit of the flag is left and no bit is set |
| EnumExtensions.HasFlagOfZero | MyCodeExample/Packages/pl.quickpixel/Runtime/Extension/EnumExtensions.cs:8-46 | the empty flag is contained in every value and intersects none |
| EnumExtensions.HasFlagImpliesHasAny | MyCodeExample/Packages/pl.quickpixel/Runtime/Extension/EnumExtensions.cs:8-46 | for a non-zero flag, HasFlagFast implies HasAnyFlag |
| EnumExtensions.AddFlagIdempotent | MyCodeExample/Packages/pl.quickpixel/Runtime/Extension/EnumExtensions.cs:16-26 | adding a flag twice is adding it once |
| EnumExtensions.RemoveFlagIdempotent | MyCodeExample/Packages/pl.quickpixel/Runtime/Extension/EnumExtensions.cs:28-38 | removing a flag twice is removing it once |
| EnumExtensions.RemoveUndoesAdd | MyCodeExample/Packages/pl.quickpixel/Runtime/Extension/EnumExtensions.cs:16-38 | removing a flag just added to a value without it restores the value |
| SerializableDictionaries.KeysOf | MyCodeExample/Packages/pl.quickpixel/Runtime/Collections/Unity/SerializableDictionary.cs:34 | the keys of the entries, in order |
| SerializableDictionaries.LoadedContents | MyCodeExample/Packages/pl.quickpixel/Runtime/Collections/Unity/SerializableDictionary.cs:31-35 | the rebuild succeeds exactly when the entry keys are distinct, and then maps each key to its entry's value and holds no other key |
| SerializableDictionaries.RoundTrip | MyCodeExample/Packages/pl.quickpixel/Runtime/Collections/Unity/SerializableDictionary.cs:20-37 | rebuilding from a flattening of a dictionary gives back that dictionary |
| SerializableDictionaries.FlattensInit | MyCodeExample/Packages/pl.quickpixel/Runtime/Collections/Unity/SerializableDictionary.cs:20-37 | dropping the last entry of a flattening flattens the dictionary without that key |
| SerializableDictionaries.InitEntriesInRest | MyCodeExample/Packages/pl.quickpixel/Runtime/Collections/Unity/SerializableDictionary.cs:20-37 | each entry but the last is a pair of the dictionary without the last key |
| SerializableDictionaries.RestInInit | MyCodeExample/Packages/pl.quickpixel/Runtime/Collections/Unity/SerializableDictionary.cs:20-37 | each pair of the dictionary without the last key is an entry before the last |
| SerializableDictionaries.DuplicateFails | MyCodeExample/Packages/pl.quickpixel/Runtime/Collections/Unity/SerializableDictionary.cs:34 | two entries with the same key make the rebuild fail with the duplicate-key error |
| SerializableDictionaries.LoadedFailsWithDuplicateKey | MyCodeExample/Packages/pl.quickpixel/Runtime/Collections/Unity/SerializableDictionary.cs:34 | a failed rebuild always fails on a duplicate key |
| SerializableDictionaries.LoadedStaysFailed | MyCodeExample/Packages/pl.quickpixel/Runtime/Collections/Unity/SerializableDictionary.cs:33-35 | once a prefix of the entries fails to load, so do all the entries |
| SerializableDictionaries.SerializableDictionary.constructor | MyCodeExample/Packages/pl.quickpixel/Runtime/Collections/Unity/SerializableDictionary.cs:15-18 | an empty dictionary with no entries |
| SerializableDictionaries.SerializableDictionary.OnBeforeSerialize | MyCodeExample/Packages/pl.quickpixel/Runtime/Collections/Unity/SerializableDictionary.cs:20-29 | the entry array flattens the dictionary (one entry per pair, none for an empty one), and the dictionary is unchanged |
| SerializableDictionaries.SerializableDictionary.OnAfterDeserialize | MyCodeExample/Packages/pl.quickpixel/Runtime/Collections/Unity/SerializableDictionary.cs:31-37 | succeeds exactly when the entries load; then the dictionary is the loaded one and the entry array is emptied; otherwise the duplicate-key error and the entries kept |
| EventBuses.Ids | MyCodeExample/Assets/_MyCodeExample/Scripts/Runtime/Misc/EventBus.cs:22-38 | the ids of a bucket, in order |
| EventBuses.Listeners | MyCodeExample/Assets/_MyCodeExample/Scripts/Runtime/Misc/EventBus.cs:14-20 | the listeners of a bucket in invocation order |
| EventBuses.WithoutIdRemoves | MyCodeExample/Assets/_MyCodeExample/Scripts/Runtime/Misc/EventBus.cs:62-75 | removing an id keeps only registrations from the bucket that lack it, and removing an absent id changes nothing |
| EventBuses.WithoutIdConcat | MyCodeExample/Assets/_MyCodeExample/Scripts/Runtime/Misc/EventBus.cs:62-75 | removing an id distributes over concatenation |
| EventBuses.KeptIsPersistent | MyCodeExample/Assets/_MyCodeExample/Scripts/Runtime/Misc/EventBus.cs:40-60 | after a Publish exactly the persistent registrations remain |
| EventBuses.KeptIdempotent | MyCodeExample/Assets/_MyCodeExample/Scripts/Runtime/Misc/EventBus.cs:40-60 | a second Publish keeps the same registrations |
| EventBuses.KeptConcat | MyCodeExample/Assets/_MyCodeExample/Scripts/Runtime/Misc/EventBus.cs:40-60 | what a Publish keeps distributes over concatenation |
| EventBuses.UnregisterUndoesRegister | MyCodeExample/Assets/_MyCodeExample/Scripts/Runtime/Misc/EventBus.cs:62-75 | unregistering a fresh id gives back the old bucket |
| EventBuses.PublishStep | MyCodeExample/Assets/_MyCodeExample/Scripts/Runtime/Misc/EventBus.cs:14-60 | one listener call of Publish: the listener is invoked and, if listen-once, removed from the rest of the bucket |
| EventBuses.RemovedOnce | MyCodeExample/Assets/_MyCodeExample/Scripts/Runtime/Misc/EventBus.cs:50-54 | a listen-once listener unregistering its own id in the middle of Publish removes exactly itself from the bucket |
| EventBuses.LacksAround | MyCodeExample/Assets/_MyCodeExample/Scripts/Runtime/Misc/EventBus.cs:40-60 | with unique ids, a listener's id occurs neither before nor after it |
| EventBuses.PrunedTwice | MyCodeExample/Assets/_MyCodeExample/Scripts/Runtime/Misc/EventBus.cs:62-75 | pruning a just-replaced bucket is pruning the original map |
| EventBuses.WithoutIdDistinct | MyCodeExample/Assets/_MyCodeExample/Scripts/Runtime/Misc/EventBus.cs:62-75 | removing registrations keeps ids unique |
| EventBuses.DistinctSnoc | MyCodeExample/Assets/_MyCodeExample/Scripts/Runtime/Misc/EventBus.cs:22-38 | appending a registration with a new id keeps ids unique |
| EventBuses.EventBus.constructor | MyCodeExample/Assets/_MyCodeExample/Scripts/Runtime/Misc/EventBus.cs:10-12 | no buckets and the first id unused |
| EventBuses.EventBus.Register | MyCodeExample/Assets/_MyCodeExample/Scripts/Runtime/Misc/EventBus.cs:22-38 | the bucket of the type (created if absent) gains one persistent registration with a fresh id, which is returned; nothing else changes |
| EventBuses.EventBus.RegisterListenOnce | MyCodeExample/Assets/_MyCodeExample/Scripts/Runtime/Misc/EventBus.cs:40-60 | as Register, for a listen-once registration |
| EventBuses.EventBus.AddRegistration | MyCodeExample/Assets/_MyCodeExample/Scripts/Runtime/Misc/EventBus.cs:22-60 | the body both Register methods share |
| EventBuses.EventBus.Unregister | MyCodeExample/Assets/_MyCodeExample/Scripts/Runtime/Misc/EventBus.cs:62-75 | a known id leaves its bucket, which is removed once empty; an unknown type or id changes nothing; every bucket stays non-empty |
| EventBuses.EventBus.Publish | MyCodeExample/Assets/_MyCodeExample/Scripts/Runtime/Misc/EventBus.cs:14-60 | no bucket: nothing invoked; otherwise every listener is invoked in order and exactly the listen-once ones are removed |
| PlayerLoop.InsertedAfterLength | MyCodeExample/Assets/_MyCodeExample/Scripts/Runtime/Managers/PlayerLoopUpdateManager.cs:63-77 | the new sub-system list grows by one per entry of the matching type |
| PlayerLoop.InsertedAfterNoMatch | MyCodeExample/Assets/_MyCodeExample/Scripts/Runtime/Managers/PlayerLoopUpdateManager.cs:63-77 | with no entry of the matching type the list is unchanged |
| PlayerLoop.InsertedAfterPlacement | MyCodeExample/Assets/_MyCodeExample/Scripts/Runtime/Managers/PlayerLoopUpdateManager.cs:63-77 | each old entry keeps its relative order, and the added system follows each match immediately |
| PlayerLoop.AddAfterSystem | MyCodeExample/Assets/_MyCodeExample/Scripts/Runtime/Managers/PlayerLoopUpdateManager.cs:63-77 | the root's sub-system list is rebuilt as InsertedAfter, and nothing else changes |
| PlayerLoop.RemoveSystem | MyCodeExample/Assets/_MyCodeExample/Scripts/Runtime/Managers/PlayerLoopUpdateManager.cs:79-84 | the sub-system list is swap-removed at the first occurrence of the system, which must be present |
| PlayerLoop.RemoveSystemDropsOne | MyCodeExample/Assets/_MyCodeExample/Scripts/Runtime/Managers/PlayerLoopUpdateManager.cs:79-84 | RemoveSystem shortens the list by one and removes exactly one occurrence |
| PlayerLoop.RemoveFirstMultiset | MyCodeExample/Assets/_MyCodeExample/Scripts/Runtime/Managers/PlayerLoopUpdateManager.cs:51-54 | List.Remove takes away exactly one occurrence when present and otherwise nothing |
| PlayerLoop.OccurrencesIsMultiplicity | MyCodeExample/Assets/_MyCodeExample/Scripts/Runtime/Managers/PlayerLoopUpdateManager.cs:46-54 | the recursive count is the multiset multiplicity |
| PlayerLoop.OccurrencesPositive | MyCodeExample/Assets/_MyCodeExample/Scripts/Runtime/Managers/PlayerLoopUpdateManager.cs:46-54 | an element is counted exactly when it is present |
| PlayerLoop.OccurrencesConcat | MyCodeExample/Assets/_MyCodeExample/Scripts/Runtime/Managers/PlayerLoopUpdateManager.cs:46-54 | counts add over concatenation |
| PlayerLoop.OccurrencesAppend | MyCodeExample/Assets/_MyCodeExample/Scripts/Runtime/Managers/PlayerLoopUpdateManager.cs:46-49 | Register adds one to the count of what it appends and nothing to the others |
| PlayerLoop.RemoveFirstOccurrences | MyCodeExample/Assets/_MyCodeExample/Scripts/Runtime/Managers/PlayerLoopUpdateManager.cs:51-54 | Unregister takes one from the count of what it removes, if present, and nothing from the others |
| PlayerLoop.RemoveFirstSubset | MyCodeExample/Assets/_MyCodeExample/Scripts/Runtime/Managers/PlayerLoopUpdateManager.cs:51-54 | whatever survives Unregister was registered before |
| PlayerLoop.PlayerLoopUpdateManager.constructor | MyCodeExample/Assets/_MyCodeExample/Scripts/Runtime/Managers/PlayerLoopUpdateManager.cs:14-17 | no updateables |
| PlayerLoop.PlayerLoopUpdateManager.Register | MyCodeExample/Assets/_MyCodeExample/Scripts/Runtime/Managers/PlayerLoopUpdateManager.cs:46-49 | the updateable is appended |
| PlayerLoop.PlayerLoopUpdateManager.Unregister | MyCodeExample/Assets/_MyCodeExample/Scripts/Runtime/Managers/PlayerLoopUpdateManager.cs:51-54 | the first occurrence is removed, keeping order; absent, nothing changes |
| PlayerLoop.PlayerLoopUpdateManager.Dispose | MyCodeExample/Assets/_MyCodeExample/Scripts/Runtime/Managers/PlayerLoopUpdateManager.cs:21-28 | the list is emptied |
| PlayerLoop.PlayerLoopUpdateManager.OnUpdate | MyCodeExample/Assets/_MyCodeExample/Scripts/Runtime/Collections/SystemManager/Feature.cs:29-40 | each registered updateable is updated once, in registration order |
| Features.Feature.constructor | MyCodeExample/Assets/_MyCodeExample/Scripts/Runtime/Collections/SystemManager/Feature.cs:43-56 | not initialised, disabled, no manager, no hook calls; disposable whenever it is initialisable, as every IFeatureInitializable is an IDisposable |
| Features.Feature.RegisteredIffUpdatableAndEnabled | MyCodeExample/Assets/_MyCodeExample/Scripts/Runtime/Collections/SystemManager/Feature.cs:81-109 | for an initialised feature: in the update list exactly when updatable and enabled (a non-enablable feature counts as enabled) |
| Features.Feature.Enable | MyCodeExample/Assets/_MyCodeExample/Scripts/Runtime/Collections/SystemManager/Feature.cs:91-99 | an enablable, disabled feature registers (if updatable), calls OnFeatureEnable and becomes enabled; otherwise nothing changes; the registration invariant is kept |
| Features.Feature.Disable | MyCodeExample/Assets/_MyCodeExample/Scripts/Runtime/Collections/SystemManager/Feature.cs:101-109 | the mirror image of Enable |
| Features.Feature.Initialize_Internal | MyCodeExample/Assets/_MyCodeExample/Scripts/Runtime/Collections/SystemManager/Feature.cs:58-89 | records the manager and capabilities, calls Initialize if initialisable, then auto-enables an enablable feature or registers a non-enablable updatable one |
| Features.Feature.Deinitialize_Internal | MyCodeExample/Assets/_MyCodeExample/Scripts/Runtime/Collections/SystemManager/Feature.cs:111-115 | disables the feature and leaves it out of the update list in every case |
| Features.Feature.Dispose | MyCodeExample/Assets/_MyCodeExample/Scripts/Runtime/Managers/SystemManager.cs:124-127 | the feature's Dispose hook is called |
| Systems.ReverseTeardown | MyCodeExample/Assets/_MyCodeExample/Scripts/Runtime/Managers/SystemManager.cs:164-168 | one destroy per feature of the snapshot, last first |
| Systems.ReverseTeardownStep | MyCodeExample/Assets/_MyCodeExample/Scripts/Runtime/Managers/SystemManager.cs:164-168 | destroying element i-1 after the ones above it is the teardown of the suffix from i-1 |
| Systems.ReverseDisposal | MyCodeExample/Assets/_MyCodeExample/Scripts/Runtime/Managers/SystemManager.cs:170-180 | the disposals of a snapshot, last first, are at most one per entry |
| Systems.ReverseDisposalContents | MyCodeExample/Assets/_MyCodeExample/Scripts/Runtime/Managers/SystemManager.cs:170-180 | each disposal is of a disposable entry of the snapshot, and every disposable entry is disposed |
| Systems.ReverseDisposalStep | MyCodeExample/Assets/_MyCodeExample/Scripts/Runtime/Managers/SystemManager.cs:170-180 | disposing entry i-1 after the ones above it is the disposal of the suffix from i-1 |
| Systems.ReverseDisposalPrefix | MyCodeExample/Assets/_MyCodeExample/Scripts/Runtime/Managers/SystemManager.cs:170-174 | the disposals of a suffix of the snapshot come first among the disposals of the whole snapshot, so a destroy loop stopped early has logged a prefix of them |
| Systems.RemoveFirstDistinct | MyCodeExample/Assets/_MyCodeExample/Scripts/Runtime/Managers/SystemManager.cs:120 | removing from a duplicate-free set keeps it duplicate-free |
| Systems.ShiftedDown | MyCodeExample/Assets/_MyCodeExample/Scripts/Runtime/Managers/SystemManager.cs:120 | cutting out a slot shifts every later slot down by one |
| Systems.RemoveFirstMember | MyCodeExample/Assets/_MyCodeExample/Scripts/Runtime/Managers/SystemManager.cs:120 | removing a member of a duplicate-free set removes exactly that member |
| Systems.DuplicateBreaksDistinct | MyCodeExample/Assets/_MyCodeExample/Scripts/Runtime/Managers/SystemManager.cs:95-111 | a batch that repeats a feature is not duplicate-free |
| Systems.MapRemoveCard | MyCodeExample/Assets/_MyCodeExample/Scripts/Runtime/Managers/SystemManager.cs:130-160 | removing a present key takes one entry away |
| Systems.EmptyMap | MyCodeExample/Assets/_MyCodeExample/Scripts/Runtime/Managers/SystemManager.cs:169-180 | a map with no entries is empty |
| Systems.ValuesSnapshot | MyCodeExample/Assets/_MyCodeExample/Scripts/Runtime/Managers/SystemManager.cs:170-176 | the values of a dictionary in some enumeration order of its keys: one per key, each key once |
| Systems.SetSnapshot | MyCodeExample/Assets/_MyCodeExample/Scripts/Runtime/Managers/SystemManager.cs:164 | the elements of a set in some order, each exactly once |
| Systems.SystemManager.constructor | MyCodeExample/Assets/_MyCodeExample/Scripts/Runtime/Managers/SystemManager.cs:9-17 | empty registries and a new update manager |
| Systems.SystemManager.TryGetService | MyCodeExample/Assets/_MyCodeExample/Scripts/Runtime/Managers/SystemManager.cs:19-33 | true with the service stored under exactly the type, else false with none |
| Systems.SystemManager.TryGetManager | MyCodeExample/Assets/_MyCodeExample/Scripts/Runtime/Managers/SystemManager.cs:35-49 | InvalidCast exactly when the manager stored under the type is not an instance of it; otherwise true with that manager, or false with none when no manager is stored under the type |
| Systems.SystemManager.AddManager | MyCodeExample/Assets/_MyCodeExample/Scripts/Runtime/Managers/SystemManager.cs:67-77 | initialises the manager if it can be, then fails on a taken type or stores it under the type |
| Systems.SystemManager.AddService | MyCodeExample/Assets/_MyCodeExample/Scripts/Runtime/Managers/SystemManager.cs:79-93 | AlreadyRegistered exactly when a service of its runtime type exists; otherwise initialised and stored under that type |
| Systems.SystemManager.AddFeature | MyCodeExample/Assets/_MyCodeExample/Scripts/Runtime/Managers/SystemManager.cs:103-111 | AlreadyRegistered exactly when already added; otherwise appended and initialised |
| Systems.SystemManager.AddFeatures | MyCodeExample/Assets/_MyCodeExample/Scripts/Runtime/Managers/SystemManager.cs:95-101 | succeeds exactly when the old features and the batch are all distinct, appending the batch; otherwise stops at the first repeat |
| Systems.SystemManager.DestroyFeature | MyCodeExample/Assets/_MyCodeExample/Scripts/Runtime/Managers/SystemManager.cs:113-128 | NotFound exactly when absent; otherwise removed, deinitialised (out of the update list) and disposed when it is IDisposable |
| Systems.SystemManager.DestroyManager | MyCodeExample/Assets/_MyCodeExample/Scripts/Runtime/Managers/SystemManager.cs:130-144 | NotFound exactly when no manager is stored under its runtime type; otherwise that entry removed and disposed |
| Systems.SystemManager.DestroyService | MyCodeExample/Assets/_MyCodeExample/Scripts/Runtime/Managers/SystemManager.cs:146-160 | NotFound exactly when no service is stored under its runtime type; otherwise that entry removed and disposed |
| Systems.SystemManager.DestroyAllFeatures | MyCodeExample/Assets/_MyCodeExample/Scripts/Runtime/Managers/SystemManager.cs:164-168 | every feature destroyed once, in the reverse of a snapshot holding each feature once (its order left open, as a HashSet's is), leaving none |
| Systems.SystemManager.DestroyAllManagers | MyCodeExample/Assets/_MyCodeExample/Scripts/Runtime/Managers/SystemManager.cs:170-174 | the managers of a snapshot in key enumeration order are destroyed last first, disposing exactly the disposable ones; succeeds (leaving none) when each is stored under its runtime type; a NotFound leaves a prefix of those disposals |
| Systems.SystemManager.DestroyAllServices | MyCodeExample/Assets/_MyCodeExample/Scripts/Runtime/Managers/SystemManager.cs:176-180 | the services of a snapshot in key enumeration order are destroyed last first, disposing exactly the disposable ones, leaving none |
| Systems.SystemManager.Dispose | MyCodeExample/Assets/_MyCodeExample/Scripts/Runtime/Managers/SystemManager.cs:162-183 | the effects are the feature teardown, then the manager disposals, then the service disposals, each over its snapshot last first; then the update list cleared and every registry empty; a manager stored under another type stops it with NotFound after a prefix of the manager disposals |
| UIObjects.IsTransitioningIff | MyCodeExample/Packages/pl.quickpixel/Runtime/ScreenManager/UIObject.cs:24-25 | transitioning exactly when TransitioningIn or TransitioningOut is set |
| UIObjects.TransitionedInOut | MyCodeExample/Packages/pl.quickpixel/Runtime/ScreenManager/UIObject.cs:87-94 | TransitioningIn (Out) sets the state to exactly that bit and Visible |
| UIObjects.TransitionedInteractable | MyCodeExample/Packages/pl.quickpixel/Runtime/ScreenManager/UIObject.cs:95-101 | Interactable is set, NonInteractable cleared, other bits kept |
| UIObjects.TransitionedNonInteractable | MyCodeExample/Packages/pl.quickpixel/Runtime/ScreenManager/UIObject.cs:102-107 | NonInteractable is set, Interactable cleared, other bits kept |
| UIObjects.TransitionedFinished | MyCodeExample/Packages/pl.quickpixel/Runtime/ScreenManager/UIObject.cs:108-111 | both transitioning bits cleared, other bits kept |
| UIObjects.TransitionedOther | MyCodeExample/Packages/pl.quickpixel/Runtime/ScreenManager/UIObject.cs:112-114 | any other argument, 0 and combinations included, resets the state to 0 |
| UIObjects.ShowSequence | MyCodeExample/Packages/pl.quickpixel/Runtime/ScreenManager/UIObject.cs:66-74 | the show coroutine is transitioning after its first step and ends Visible and Interactable from any state |
| UIObjects.HideSequence | MyCodeExample/Packages/pl.quickpixel/Runtime/ScreenManager/UIObject.cs:76-81 | the hide coroutine is transitioning after its first step and ends in state 0 |
| UIObjects.UIObject.constructor | MyCodeExample/Packages/pl.quickpixel/Runtime/ScreenManager/UIObject.cs:16-22 | a scene object in state 0 with no animation run |
| UIObjects.UIObject.Setup | MyCodeExample/Packages/pl.quickpixel/Runtime/ScreenManager/UIObject.cs:42-48 | the object is hidden and its state kept |
| UIObjects.UIObject.SetVisibility | MyCodeExample/Packages/pl.quickpixel/Runtime/ScreenManager/UIObject.cs:118-132 | visible: canvas on top; hidden: canvas off, rays not caught, sorted to int.MinValue |
| UIObjects.UIObject.SetTransitioning | MyCodeExample/Packages/pl.quickpixel/Runtime/ScreenManager/UIObject.cs:83-116 | the state moves as the switch says, with its canvas updates |
| UIObjects.UIObject.AnimationStep | MyCodeExample/Packages/pl.quickpixel/Runtime/ScreenManager/UIObject.cs:54-81 | each MoveNext of the in or out coroutine runs its steps and answers true exactly on the first call |
| ScreenManagers.SetUps | MyCodeExample/Packages/pl.quickpixel/Runtime/ScreenManager/ScreenManager.cs:54 | one Setup call per object, in order |
| ScreenManagers.Inits | MyCodeExample/Packages/pl.quickpixel/Runtime/ScreenManager/ScreenManager.cs:57 | one Init call per object, in order |
| ScreenManagers.RegistrableIff | MyCodeExample/Packages/pl.quickpixel/Runtime/ScreenManager/ScreenManager.cs:47-58 | a batch registers exactly when no type is already taken and no two objects share a type |
| ScreenManagers.RegistrablePrefix | MyCodeExample/Packages/pl.quickpixel/Runtime/ScreenManager/ScreenManager.cs:47-58 | a prefix of a registrable batch is registrable |
| ScreenManagers.RegisteredAllKeys | MyCodeExample/Packages/pl.quickpixel/Runtime/ScreenManager/ScreenManager.cs:47-58 | a type is registered afterwards exactly when it was before or an object of the batch has it, and each is stored under its own type |
| ScreenManagers.RegisterStep | MyCodeExample/Packages/pl.quickpixel/Runtime/ScreenManager/ScreenManager.cs:49-55 | TryAdd of object i fails exactly when its type is taken, which makes the batch unregistrable |
| ScreenManagers.ScreenManager.constructor | MyCodeExample/Packages/pl.quickpixel/Runtime/ScreenManager/ScreenManager.cs:24-34 | empty registry and queues, not dirty, not disposed, scene hooks subscribed |
| ScreenManagers.ScreenManager.Register | MyCodeExample/Packages/pl.quickpixel/Runtime/ScreenManager/ScreenManager.cs:47-58 | succeeds exactly when the batch is registrable; then every object is stored and set up, and only afterwards Init runs on each; on a taken type it stops there with the earlier objects added and set up |
| ScreenManagers.ScreenManager.AddAndSetUpEach | MyCodeExample/Packages/pl.quickpixel/Runtime/ScreenManager/ScreenManager.cs:49-55 | the first loop: adds and sets up each object until a type is taken; all are added exactly when the batch is registrable |
| ScreenManagers.ScreenManager.Unregister | MyCodeExample/Packages/pl.quickpixel/Runtime/ScreenManager/ScreenManager.cs:60-63 | the entry for the object's runtime type is removed |
| ScreenManagers.ScreenManager.Get | MyCodeExample/Packages/pl.quickpixel/Runtime/ScreenManager/ScreenManager.cs:65-68 | the object stored under the type, which has that type, or none when the indexer would throw |
| ScreenManagers.ScreenManager.Show | MyCodeExample/Packages/pl.quickpixel/Runtime/ScreenManager/ScreenManager.cs:70-74 | the object is queued for showing and the UI marked dirty |
| ScreenManagers.ScreenManager.Hide | MyCodeExample/Packages/pl.quickpixel/Runtime/ScreenManager/ScreenManager.cs:76-80 | the object is queued for hiding and the UI marked dirty |
| ScreenManagers.ScreenManager.Deinitialize | MyCodeExample/Packages/pl.quickpixel/Runtime/ScreenManager/ScreenManager.cs:116-124 | only the first call cancels the update loop and drops the scene hooks |
| ScreenManagers.Fresh | MyCodeExample/Packages/pl.quickpixel/Runtime/ScreenManager/ScreenManager.cs:158-161 | one fresh transition per queued object, in order |
| ScreenManagers.RemovedAllMultiset | MyCodeExample/Packages/pl.quickpixel/Runtime/ScreenManager/ScreenManager.cs:204-207 | hiding takes one occurrence of each hidden object off the scene |
| ScreenManagers.RemovedAllSnoc | MyCodeExample/Packages/pl.quickpixel/Runtime/ScreenManager/ScreenManager.cs:204-207 | hiding one more object removes it from what the earlier ones left |
| ScreenManagers.PendingStepsConcat | MyCodeExample/Packages/pl.quickpixel/Runtime/ScreenManager/ScreenManager.cs:165-181 | the pending steps of two queues add up |
| ScreenManagers.UIUpdater.constructor | MyCodeExample/Packages/pl.quickpixel/Runtime/ScreenManager/ScreenManager.cs:147-152 | an empty transition queue for the given direction and manager |
| ScreenManagers.UIUpdater.UpdateQueues | MyCodeExample/Packages/pl.quickpixel/Runtime/ScreenManager/ScreenManager.cs:156-163 | drains the show (hide) queue in order into transitions and adds the objects to (removes them from) the scene |
| ScreenManagers.UIUpdater.ShowQueued | MyCodeExample/Packages/pl.quickpixel/Runtime/ScreenManager/ScreenManager.cs:156-163 | each queued object in order gets a fresh in-transition and joins the scene; the show queue ends empty |
| ScreenManagers.UIUpdater.HideQueued | MyCodeExample/Packages/pl.quickpixel/Runtime/ScreenManager/ScreenManager.cs:202-208 | each queued object in order gets a fresh out-transition and leaves the scene; the hide queue ends empty |
| ScreenManagers.UIUpdater.MoveNext | MyCodeExample/Packages/pl.quickpixel/Runtime/ScreenManager/ScreenManager.cs:165-181 | false exactly when no transition is queued; otherwise the front one is advanced once and re-queued at the back only while it has steps left |

## Left out

- Locking: each public PageDataService operation is one atomic step. Callers in parallel and the semaphore release are not modelled.
- Async, timers and cancellation are left out. A server call's result, empty answer, fault, time-out or cancellation is an input of type `Response`.
- The data server and the data items are opaque type parameters.
- Release builds. The development check runs as in development builds: its DataException on an unknown count is the DataUnavailable result. Its range conditions are Debug.Assert calls, which only log, so a bad range goes on to the cache slice, whose rejection is modelled.
- PageScreenFeature's button subscriptions, the arrow-key Update, the PageScreen UI itself, the logging done by `Monitor` and `Forget`, and the cancellation-token plumbing are not modelled. A cancelled page fetch is the `Cancelled` response.
- PageScreenFeatures.PageScreenFeature.GetLastPageIndex and DeterminePageState: their properties are stated by NavigationMatchesButtons and the Valid invariant. The Debug.Assert on an empty page list only logs.
- ListExtensions.FastList.RemoveAtFast, ListExtensions.FastList.RemoveFast and PlayerLoop.RemoveSystem: an index at or past the count (for RemoveFast and RemoveSystem, a value that is absent, so the index -1) is a precondition; the source throws ArgumentOutOfRangeException from the list indexer there.
- ListExtensions: the reflection accessors and unsafe spans are not modelled; the list is its array and size. `AddRangeFast` is left out, because it sets the size before copying and so has no clear contract. MoveFast's weak capacity check is replaced by the precondition that both indices are below the count.
- EnumExtensions: the flags are the enum's 64-bit value. Garbage bits that `UnsafeUtility.As` reads beyond a narrower enum are not modelled.
- SerializableDictionaries.SerializableDictionary.OnAfterDeserialize: on a duplicate key, does not state the partly rebuilt dictionary that the throwing Add leaves.
- EventBus: `Guid.NewGuid` is a counter of fresh ids. Listeners are opaque values and are not run, so reentrant registration from a listener is not modelled. `IsAnonymousDelegate` is never called and is left out.
- PlayerLoop: reading and writing the engine's player loop is not modelled. AddAfterSystem and RemoveSystem act on the root's sub-system list, as the source does.
- SystemManager: `CreateAndAddMonoManager` creates a GameObject and is left out. The HashSet of features is a duplicate-free sequence; its `ToArray` order and the dictionaries' enumeration order are left open (any order holding each entry once).
- Systems.SystemManager.AddFeatures: each feature not yet added must be uninitialised.
- UIObject: canvas effects are kept as plain fields. The body of the concrete object's animation coroutine is not modelled; the coroutines are one step before the final state.
- ScreenManager: the scene load and unload hooks, `FindObjectsOfType`, `DestroyUIObject` (which only throws), and the timing of `UIUpdateRoutine` are not modelled. The updaters' `Current` is not modelled.
- ScreenManagers.ScreenManager.Register: does not state that each set-up object ends hidden; UIObject.Setup's contract does.

## Findings

| source | as written | input that shows it | evidently intended | confidence | as-written member | corrected member |
|---|---|---|---|---|---|---|
| MyCodeExample/Assets/_MyCodeExample.Game/Scripts/Runtime/Features/PageScreenFeature.cs:52-58 | disabling the feature resets the index, the total and the cache but not `_pages`, and the next enable appends a second set of pages behind the old ones | enable with 10 items, disable, then enable with 3: the pages become [0,5), [5,10), [0,3), and page 0 asks the service for 5 entries of 3, which fails the range check | disabling also clears `_pages`, so every enable builds exactly the pages of its own count | not executed | PageScreenFeatures.StalePagesAfterReenable | PageScreenFeatures.ClearedPagesAfterReenable |
