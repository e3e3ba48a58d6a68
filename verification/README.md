# Tab state model of a tabbed desktop browser shell

This Dafny project models the logic of a desktop browser shell. The shell wraps a tabbed
user interface around a rendering engine that the host platform supplies.

The core is the **tab list manager**. It keeps an ordered list of tabs, each with an id,
url, title, favicon and an `active` flag. It also derives the "active tab", which is the
first tab flagged active. It offers six transitions: add, close, activate, update,
duplicate and reorder. In the model each transition is the pure function the provider
hands to its state setter.

Next to it the project models:

- the URL bar's input normalisation: the URL-or-search decision, protocol prefixing and
  search-engine URLs;
- the settings merges: the deep `updateSettings` and the shallow `loadSettings`;
- the tab strip's title truncation and its event dispatch;
- the main-process request handlers over an abstract key/value store.

Modules follow the source files:

| file | module | source |
|---|---|---|
| `tabs_context.dfy` | `TabsContext` | `src/renderer/context/TabsContext.tsx` |
| `navigation_bar.dfy` | `NavigationBar` | `src/renderer/components/NavigationBar.tsx` |
| `settings_context.dfy` | `SettingsContext` | `src/renderer/context/SettingsContext.tsx` |
| `tab_bar.dfy` | `TabBar` | `src/renderer/components/TabBar.tsx` |
| `ipc_handlers.dfy` | `IpcHandlers` | `src/main/ipc/handlers.ts`, with `src/main/storage/StorageManager.ts` as an abstract store |
| `seqs.dfy` | `Seqs` | the JavaScript array methods used: `map`, `filter`, `find` (with `FirstIndex` as its search), `some` (as a non-zero count) and `splice` |
| `text.dfy` | `Text` | the JavaScript string methods used: `startsWith`, `includes`, `replace` (whose search is `IndexOf`), `trim` and `substring` |
| `wrappers.dfy` | `Wrappers` | `Option` for absent properties, `Result` for thrown errors |

The model treats three things as parameters:

- **Ids.** The source reads ids from the clock. In the model they are the `freshId`
  parameter. No lemma assumes ids are unique unless it says so in its `requires`.
- **`encodeURIComponent`.** It is the uninterpreted function parameter `enc`.
- **Host outcomes.** The bridge call behind the ad-block toggle succeeds or fails. The
  host's cache and cookie clearing succeeds or fails. Both outcomes are parameters.

Behaviours of the code worth knowing:

- `setActiveTab` with an unknown id is not a no-op. It clears every `active` flag
  (`TabsContext.SetActiveUnknownId`).
- `closeTab` with an unknown id is not always a no-op. When no tab is active, it activates
  the last tab (`TabsContext.CloseUnknownIdActivatesLast`).
- The default tab created on load and on the last close has the title "New Tab".
- When the very first load of the tab list fails, the list stays empty and no tab is active
  (`TabsContext.FailedFirstLoadIsEmpty`).
- `updateTab` can overwrite `id` as well as `active` (`TabsContext.UpdateCanBreakInvariants`).
- Duplicated and added tabs get the id the caller supplies, and nothing ensures it is
  distinct (`TabsContext.DuplicateCollidingId`).

The "exactly one active tab" invariant holds only over *well-behaved* calls
(`TabsContext.SessionKeepsExactlyOne`). A well-behaved call activates an id that exactly
one tab carries, and any update it makes leaves `active` alone.

## Model

| member | source | states |
|---|---|---|
| `TabsContext.ActiveTab` | src/renderer/context/TabsContext.tsx:50-53 | The derived active tab is absent exactly when no tab is active. When present, it is flagged active, it is in the list, and no earlier tab is active. |
| `TabsContext.ActiveTabOfExactlyOne` | src/renderer/context/TabsContext.tsx:50-53 | Under the invariant, the derived active tab is the one flagged tab. |
| `TabsContext.LoadTabs` | src/renderer/context/TabsContext.tsx:58-76 | A non-empty saved list is adopted verbatim, with no repair of its flags. Nothing saved, or an empty list, gives one fresh default tab. A failed bridge call keeps the current list. |
| `TabsContext.FailedFirstLoadIsEmpty` | src/renderer/context/TabsContext.tsx:73-75 | When the first load throws, the initial empty list stays: there is no tab and no derived active tab. |
| `TabsContext.LoadEmptyIsValid` | src/renderer/context/TabsContext.tsx:61-71 | Loading from an empty store gives a list with exactly one active tab, and that tab is the default tab. |
| `TabsContext.AddTab` | src/renderer/context/TabsContext.tsx:92-106 | The length grows by one. The new last tab has the fresh id, the given url (default google.com), title "New Tab", an empty favicon and is active. Earlier tabs keep every field except `active`, which becomes false. Exactly one tab is active afterwards, whatever the prior state. |
| `TabsContext.Survivors` | src/renderer/context/TabsContext.tsx:113 | The survivors are exactly the input tabs whose id differs from the closed id. There are never more active survivors than there were active input tabs. |
| `TabsContext.SurvivorsKeepOrder` | src/renderer/context/TabsContext.tsx:113 | Survivors keep their relative order: filtering distributes over concatenation, and one tab is kept exactly when its id differs. |
| `TabsContext.CloseTab` | src/renderer/context/TabsContext.tsx:111-133 | The result is never empty and always has an active tab. No survivors gives one fresh default tab. An active survivor leaves the survivors untouched. Otherwise only the last survivor changes, and it becomes active. With at most one active tab before, exactly one is active after. |
| `TabsContext.CloseUnknownId` | src/renderer/context/TabsContext.tsx:113-118 | Closing an id no tab carries is the identity while some tab is active. |
| `TabsContext.CloseUnknownIdActivatesLast` | src/renderer/context/TabsContext.tsx:116-118 | When no tab is active, closing an unknown id activates the last tab, so the call is not a no-op. |
| `TabsContext.SetActiveTab` | src/renderer/context/TabsContext.tsx:138-145 | Length, order and every field except `active` are kept. A tab is active afterwards exactly when its id equals the argument. The number of active tabs equals the number of tabs carrying that id. |
| `TabsContext.SetActiveUniqueId` | src/renderer/context/TabsContext.tsx:138-145 | With unique ids, activating a tab's id leaves exactly that tab active, and it becomes the derived active tab. |
| `TabsContext.SetActiveUnknownId` | src/renderer/context/TabsContext.tsx:140-143 | With an unknown id, no tab is active and there is no derived active tab. |
| `TabsContext.SetActiveDuplicateId` | src/renderer/context/TabsContext.tsx:140-143 | When two tabs share the id, both become active and the invariant fails. |
| `TabsContext.ApplyPatch` | src/renderer/context/TabsContext.tsx:153 | Each field present in the partial tab overrides, including `id` and `active`. Each absent field keeps the tab's own value. |
| `TabsContext.UpdateTab` | src/renderer/context/TabsContext.tsx:150-156 | The length is kept. Tabs with other ids are unchanged. Every tab carrying the id takes the patch. |
| `TabsContext.UpdateIdentity` | src/renderer/context/TabsContext.tsx:150-156 | An empty patch, or an id no tab carries, leaves the list unchanged. |
| `TabsContext.UpdateKeepsFlags` | src/renderer/context/TabsContext.tsx:150-156 | A patch without `active` keeps every active flag, and so the active count. |
| `TabsContext.UpdateCanBreakInvariants` | src/renderer/context/TabsContext.tsx:153 | A patch can activate a second tab and can give two tabs the same id. |
| `TabsContext.DuplicateTab` | src/renderer/context/TabsContext.tsx:161-175 | An unknown id leaves the list unchanged. Otherwise a copy of the first matching tab's url, title and favicon is appended, with the fresh id and active. Every other tab keeps its fields but is deactivated, so exactly one tab is active. |
| `TabsContext.DuplicateKeepsIdsUnique` | src/renderer/context/TabsContext.tsx:166-170 | With unique ids and a fresh id not in use, the ids stay unique after duplication. |
| `TabsContext.DuplicateCollidingId` | src/renderer/context/TabsContext.tsx:168 | A fresh id already in use yields two tabs with that id. |
| `TabsContext.ReorderTabs` | src/renderer/context/TabsContext.tsx:180-187 | For in-range indices the result has the same length and the same multiset of tabs. The tab from `from` now sits at `to`, and the tabs in between shift by one. Tabs outside the moved range keep their index. The active count does not change. |
| `TabsContext.ReorderInverse` | src/renderer/context/TabsContext.tsx:180-187 | Moving a tab from `to` back to `from` restores the original list. |
| `TabsContext.ApplyKeepsExactlyOne` | src/renderer/context/TabsContext.tsx:92-187 | Every well-behaved transition preserves "exactly one active tab". |
| `TabsContext.RunKeepsExactlyOne` | src/renderer/context/TabsContext.tsx:92-187 | Any sequence of well-behaved transitions preserves "exactly one active tab". |
| `TabsContext.SessionKeepsExactlyOne` | src/renderer/context/TabsContext.tsx:58-187 | A session that loads from an empty store and then makes well-behaved calls always has exactly one active tab. |
| `Text.Trim` | src/renderer/components/NavigationBar.tsx:28 | The trimmed input is the unique infix with only whitespace around it. It neither starts nor ends with whitespace, and it is empty only for all-whitespace input. |
| `Text.TrimIdempotent` | src/renderer/components/NavigationBar.tsx:28 | Trimming twice is the same as trimming once. |
| `Text.ReplaceFirst` | src/renderer/components/NavigationBar.tsx:64 | Only the first occurrence of the pattern is replaced. Without an occurrence, the string is returned unchanged. |
| `NavigationBar.ValidUrlCases` | src/renderer/components/NavigationBar.tsx:47-50 | Input is a URL exactly when it starts with "http", or when it contains a dot and no space. "http a" is a URL despite its space and "a. b" is not despite its dot, which shows that "and" binds tighter than "or". |
| `NavigationBar.WithProtocol` | src/renderer/components/NavigationBar.tsx:31-35 | The result always starts with "http://" or "https://". Already-prefixed input is unchanged, and other input gets "https://" in front. |
| `NavigationBar.SearchUrl` | src/renderer/components/NavigationBar.tsx:55-68 | "duckduckgo" gives the DuckDuckGo URL. "google", any other value and a missing value give the Google URL. "custom" replaces the template's first "%s" with the encoded query. A template without "%s" is returned as is. A missing or empty template, or an empty result, falls back to Google. |
| `NavigationBar.CustomFillsFirstPlaceholderOnly` | src/renderer/components/NavigationBar.tsx:63-64 | For a template with two "%s", only the first is filled. |
| `NavigationBar.DefaultsSearchWithGoogle` | src/renderer/components/NavigationBar.tsx:58-60 | Under the default settings, a search goes to Google. |
| `NavigationBar.NormalizeInput` | src/renderer/components/NavigationBar.tsx:28-39 | The input is trimmed before classification. Trimmed input that looks like a URL ends up with a protocol: unchanged when it has one, otherwise with "https://" in front. All other input goes to the search URL. |
| `NavigationBar.HttpWordIsUrl` | src/renderer/components/NavigationBar.tsx:47-50 | Input starting with "http" but lacking "://" counts as a URL and still gets "https://" in front. |
| `NavigationBar.SubmitUrl` | src/renderer/components/NavigationBar.tsx:24-42 | With no active tab the list is unchanged. Otherwise every tab carrying the active tab's id gets the normalised url, and nothing else changes. |
| `NavigationBar.SubmitTouchesOnlyActive` | src/renderer/components/NavigationBar.tsx:41 | With unique ids and one active tab, only that tab's url changes and the invariant still holds. |
| `NavigationBar.Refresh` | src/renderer/components/NavigationBar.tsx:89-94 | With no active tab nothing changes. Otherwise every tab carrying the active tab's id is given the active tab's url. |
| `NavigationBar.RefreshUnchangedWhenIdsUnique` | src/renderer/components/NavigationBar.tsx:89-94 | With unique ids, a refresh leaves the tab list value-unchanged. |
| `NavigationBar.RefreshCopiesUrlToDuplicate` | src/renderer/components/NavigationBar.tsx:92 | When an id is duplicated, a refresh overwrites the other tab's url. |
| `SettingsContext.DefaultsAreComplete` | src/renderer/context/SettingsContext.tsx:45-65 | Every default section carries every field, and there is no custom search URL. The defaults search with Google, restore the previous session and enable the ad blocker. Loading an empty saved object keeps them. |
| `SettingsContext.UpdateSettings` | src/renderer/context/SettingsContext.tsx:95-104 | In each of the four sections, fields present in the update override and absent fields keep their current values. A section missing from the update is kept whole. |
| `SettingsContext.UpdateEmpty` | src/renderer/context/SettingsContext.tsx:95-104 | An empty update returns settings equal to the current ones. |
| `SettingsContext.UpdateIdempotent` | src/renderer/context/SettingsContext.tsx:95-104 | Applying the same update twice equals applying it once. |
| `SettingsContext.UpdateCompose` | src/renderer/context/SettingsContext.tsx:95-104 | Two successive updates equal one combined update in which the later update's fields win. |
| `SettingsContext.LoadSettings` | src/renderer/context/SettingsContext.tsx:81-90 | A missing or key-less saved object keeps the current settings. Otherwise each saved section replaces the default section wholesale, and each absent section takes its default. |
| `SettingsContext.LoadMatchesUpdateOnComplete` | src/renderer/context/SettingsContext.tsx:85 | When every saved section is complete, the shallow load from the defaults equals the deep update of the defaults. |
| `SettingsContext.LoadDropsDefaultFields` | src/renderer/context/SettingsContext.tsx:85 | A partial saved section loses the default `searchEngine`, which the deep update would have kept. |
| `SettingsContext.ToggleAdblocker` | src/renderer/context/SettingsContext.tsx:140-149 | When the bridge call succeeds, only `privacy.adBlockerEnabled` changes, to the argument. When the call throws, the settings are unchanged. |
| `TabBar.TruncateTitle` | src/renderer/components/TabBar.tsx:67-69 | A title no longer than the limit is unchanged. A longer one becomes its first `maxLength` characters followed by "...", exactly `maxLength + 3` long. The result is never longer than `maxLength + 3`, and it starts with the first `min(len, maxLength)` characters of the title. |
| `TabBar.RenderedTitle` | src/renderer/components/TabBar.tsx:94 | The strip renders titles with the default limit of 20, so at most 23 characters are shown. |
| `TabBar.Dispatch` | src/renderer/components/TabBar.tsx:14-62 | A click activates the tab. The close button, or a press of mouse button 1, closes it. Other buttons do nothing. "+" (line 110) adds a tab with the default url. A drag start records the tab. A drop forgets it and leaves the list unchanged. |
| `TabBar.DraggingNeverReorders` | src/renderer/components/TabBar.tsx:55-62 | No sequence of drag events changes the tab list. |
| `IpcHandlers.GetTabs` | src/main/storage/StorageManager.ts:131-133 | A missing tabs entry reads as the empty list. |
| `IpcHandlers.SaveTabs` | src/main/ipc/handlers.ts:14-20 | After a save, a read returns exactly the saved list, and the other keys are untouched. |
| `IpcHandlers.GetSettings` | src/main/storage/StorageManager.ts:139-141 | A missing settings entry reads as `{}`. |
| `IpcHandlers.SaveSettings` | src/main/ipc/handlers.ts:24-30 | After a save, a read returns exactly the saved settings, and the other keys are untouched. |
| `IpcHandlers.GetBookmarks` | src/main/storage/StorageManager.ts:147-149 | A missing bookmarks entry reads as the empty list. |
| `IpcHandlers.SaveBookmarks` | src/main/ipc/handlers.ts:34-40 | After a save, a read returns exactly the saved list, and the other keys are untouched. |
| `IpcHandlers.AddBookmark` | src/main/ipc/handlers.ts:42-46 | The stored list becomes the old list with the bookmark appended, with no deduplication. |
| `IpcHandlers.RemoveBookmark` | src/main/ipc/handlers.ts:48-52 | Every bookmark with the id is dropped and every other one is kept. An unknown id leaves the list unchanged. The order of the kept bookmarks is fixed by `IpcHandlers.RemoveKeepsOrder`. |
| `IpcHandlers.AddTwiceStoresTwo` | src/main/ipc/handlers.ts:42-46 | Adding the same bookmark twice stores two entries with its id. |
| `IpcHandlers.RemoveKeepsOrder` | src/main/ipc/handlers.ts:48-52 | Removal distributes over concatenation, and a single bookmark is kept exactly when its id differs. So the kept bookmarks stay in their original order with their multiplicity. |
| `IpcHandlers.RemoveAfterAdd` | src/main/ipc/handlers.ts:42-52 | Removing the id just added leaves the old list filtered by that id. When the id was new, this is the old list. |
| `IpcHandlers.ToggleAdblocker` | src/main/ipc/handlers.ts:90-95 | Only `privacy.adBlockerEnabled` in the stored settings changes. Without a `privacy` section, including the `{}` default, the handler fails. |
| `IpcHandlers.ToggleWithoutStoredSettings` | src/main/ipc/handlers.ts:90-95 | With no stored settings the handler fails, so the renderer's toggle keeps its settings. |
| `IpcHandlers.ClearReplyOf` | src/main/ipc/handlers.ts:66-86 | The reply is `{success: true}` exactly when the host call succeeded. Otherwise it is `{success: false, error}` carrying the host's error. |
| `IpcHandlers.StartupTabs` | src/renderer/context/TabsContext.tsx:60-72 | An empty store starts with one default tab. A saved non-empty list is what the next start adopts. |
| `IpcHandlers.StartupSettings` | src/renderer/context/SettingsContext.tsx:81-86 | A missing settings file reads as `{}`, which keeps the defaults. |

## Left out

- React state plumbing: `useState`/`useEffect`, the async bridge calls and the effect that saves the tab list only when it is non-empty. Transitions are modelled as pure functions of the previous list.
- Clock-based id generation is nondeterministic, so ids are a parameter.
- `closeTab` mutates a tab object that the previous state shares. The model is functional and does not represent that aliasing.
- `TabsContext.ReorderTabs`: requires in-range indices. JavaScript `splice` with negative or out-of-range indices, and the insertion of `undefined`, are not modelled.
- `encodeURIComponent` is an opaque parameter. `Text.ReplaceFirst` inserts its replacement literally. JavaScript would expand `$` patterns in it, but the real encoder never emits `$`.
- `TabBar.TruncateTitle`: `maxLength` is a natural number. Negative limits are not modelled, and the only call site uses 20.
- `TabBar.TruncateTitle`: lengths and the cut position count Unicode scalar values, while JavaScript's `length` and `substring` count UTF-16 code units. A title with characters outside the Basic Multilingual Plane is cut at a different point, and the source can split a surrogate pair, which the model cannot.
- `TabBar.RenderedTitle`: its bound of 23 characters is in Unicode scalar values, not the UTF-16 code units the strip renders.
- JavaScript numbers in settings are modelled as integers. Stored JSON is assumed well-typed. A `null` section is treated as absent.
- Unknown top-level settings keys are dropped. The source copies them through both merges.
- A key present with the value `undefined` is treated as absent. In an object spread such a key overrides.
- The store's file I/O, directory creation and JSON parsing are not modelled, and neither are the defaults the store writes on first run. An unreadable file is the same as a missing one.
- The theme key, with its `theme:get`/`theme:save` handlers, is not modelled. They are the same pass-through as the tabs handlers. ThemeContext is not part of this model.
- `adblocker:toggle` also calls into the ad-blocking library before it writes the settings. That call, the library and its initialisation are not modelled.
- The renderer's `clearCache`/`clearCookies` only log errors. The back/forward buttons only log. The NavigationBar bookmark toggle is bridge I/O.
- Window lifecycle and the performance statistics in the main process are not modelled. The preload bridge wiring and the presentation components (web view container, app shell, sidebar, title bar, app) are not modelled either.
- Strings are sequences of Unicode scalar values, not UTF-16 code units, so `length`, `substring` and `replace` positions differ from JavaScript's for characters outside the Basic Multilingual Plane. `trim` strips the ECMAScript whitespace and line-terminator set.
