/** The main-process request handlers over the persistent store. The store
    is an abstract record with one optional entry per key (absent when the
    file is missing or unreadable); reads fall back to `[]` for lists and
    `{}` for settings, writes replace the entry wholesale. */
module IpcHandlers {
  import opened Wrappers
  import opened Seqs
  import TabsContext
  import SettingsContext

  type Tab = TabsContext.Tab

  datatype Bookmark = Bookmark(id: string, title: string, url: string, favicon: string, folder: string)

  datatype Store = Store(
    tabs: Option<seq<Tab>>,
    settings: Option<SettingsContext.SettingsPatch>,
    bookmarks: Option<seq<Bookmark>>)

  /** The error `adblocker:toggle` throws when the stored settings have no
      `privacy` section to write into. */
  datatype HandlerError = NoPrivacySection

  /** What the host session reported for a cache or cookie clear. */
  datatype HostOutcome = HostDone | HostError(error: string)

  /** The `{success, error?}` object the privacy handlers reply with. */
  datatype ClearReply = ClearReply(success: bool, error: Option<string>)

  // ----- pass-through reads and writes -----

  function GetTabs(st: Store): (r: seq<Tab>)
    ensures st.tabs.None? ==> r == []
  {
    st.tabs.GetOr([])
  }

  /** `tabs:save`: a later `tabs:get` returns exactly the saved list; the
      other keys are untouched. */
  function SaveTabs(st: Store, tabs: seq<Tab>): (r: Store)
    ensures GetTabs(r) == tabs
    ensures r.settings == st.settings && r.bookmarks == st.bookmarks
  {
    st.(tabs := Some(tabs))
  }

  function GetSettings(st: Store): (r: SettingsContext.SettingsPatch)
    ensures st.settings.None? ==> r == SettingsContext.EmptyPatch
  {
    st.settings.GetOr(SettingsContext.EmptyPatch)
  }

  function SaveSettings(st: Store, s: SettingsContext.SettingsPatch): (r: Store)
    ensures GetSettings(r) == s
    ensures r.tabs == st.tabs && r.bookmarks == st.bookmarks
  {
    st.(settings := Some(s))
  }

  function GetBookmarks(st: Store): (r: seq<Bookmark>)
    ensures st.bookmarks.None? ==> r == []
  {
    st.bookmarks.GetOr([])
  }

  function SaveBookmarks(st: Store, bs: seq<Bookmark>): (r: Store)
    ensures GetBookmarks(r) == bs
    ensures r.tabs == st.tabs && r.settings == st.settings
  {
    st.(bookmarks := Some(bs))
  }

  // ----- bookmarks -----

  function NotBookmarkId(id: string): (r: Bookmark -> bool) {
    (b: Bookmark) => b.id != id
  }

  function HasBookmarkId(id: string): (r: Bookmark -> bool) {
    (b: Bookmark) => b.id == id
  }

  /** `bookmarks:add`: appends, with no check for an existing id. */
  function AddBookmark(st: Store, b: Bookmark): (r: Store)
    ensures GetBookmarks(r) == GetBookmarks(st) + [b]
    ensures r.tabs == st.tabs && r.settings == st.settings
  {
    SaveBookmarks(st, GetBookmarks(st) + [b])
  }

  /** `bookmarks:remove`: drops every bookmark with the id and keeps the
      rest; an unknown id leaves the list as it was. */
  function RemoveBookmark(st: Store, id: string): (r: Store)
    ensures forall i :: 0 <= i < |GetBookmarks(r)| ==> GetBookmarks(r)[i].id != id && GetBookmarks(r)[i] in GetBookmarks(st)
    ensures forall i :: 0 <= i < |GetBookmarks(st)| && GetBookmarks(st)[i].id != id ==> GetBookmarks(st)[i] in GetBookmarks(r)
    ensures (forall i :: 0 <= i < |GetBookmarks(st)| ==> GetBookmarks(st)[i].id != id) ==> GetBookmarks(r) == GetBookmarks(st)
    ensures r.tabs == st.tabs && r.settings == st.settings
  {
    var bs := GetBookmarks(st);
    FilterAllKept(NotBookmarkId(id), bs);
    SaveBookmarks(st, Filter(NotBookmarkId(id), bs))
  }

  /** Removal keeps the surviving bookmarks in their order and multiplicity:
      it distributes over concatenation, and a single bookmark is kept
      exactly when its id differs. Together these fix the result for every
      list. */
  lemma RemoveKeepsOrder(st: Store, a: seq<Bookmark>, b: seq<Bookmark>, id: string)
    ensures GetBookmarks(RemoveBookmark(SaveBookmarks(st, a + b), id))
              == GetBookmarks(RemoveBookmark(SaveBookmarks(st, a), id))
                 + GetBookmarks(RemoveBookmark(SaveBookmarks(st, b), id))
    ensures forall bm: Bookmark :: GetBookmarks(RemoveBookmark(SaveBookmarks(st, [bm]), id))
                                     == if bm.id == id then [] else [bm]
  {
    FilterConcat(NotBookmarkId(id), a, b);
    forall bm: Bookmark
      ensures GetBookmarks(RemoveBookmark(SaveBookmarks(st, [bm]), id)) == if bm.id == id then [] else [bm]
    {
      assert [bm][1..] == [];
    }
  }

  /** Adding the same bookmark twice stores two entries with its id. */
  lemma AddTwiceStoresTwo(st: Store, b: Bookmark)
    ensures Count(HasBookmarkId(b.id), GetBookmarks(AddBookmark(AddBookmark(st, b), b))) >= 2
  {
    var bs := GetBookmarks(AddBookmark(AddBookmark(st, b), b));
    CountTwo(HasBookmarkId(b.id), bs, |bs| - 2, |bs| - 1);
  }

  /** Removing the id of a bookmark just added takes away that bookmark and
      every earlier one with the same id, keeping the others in order; when
      the id was new the list is back to what it was. */
  lemma RemoveAfterAdd(st: Store, b: Bookmark)
    ensures GetBookmarks(RemoveBookmark(AddBookmark(st, b), b.id)) == Filter(NotBookmarkId(b.id), GetBookmarks(st))
    ensures (forall i :: 0 <= i < |GetBookmarks(st)| ==> GetBookmarks(st)[i].id != b.id) ==>
              GetBookmarks(RemoveBookmark(AddBookmark(st, b), b.id)) == GetBookmarks(st)
  {
    var bs := GetBookmarks(st);
    FilterConcat(NotBookmarkId(b.id), bs, [b]);
    assert [b][1..] == [];
    FilterAllKept(NotBookmarkId(b.id), bs);
  }

  // ----- ad blocker -----

  /** `adblocker:toggle`: writes `privacy.adBlockerEnabled` into the stored
      settings and changes nothing else; it throws when the stored settings
      (the `{}` default included) have no `privacy` section. */
  function ToggleAdblocker(st: Store, enabled: bool): (r: Result<Store, HandlerError>)
    ensures GetSettings(st).privacy.None? ==> r == Failure(NoPrivacySection)
    ensures GetSettings(st).privacy.Some? ==>
              && r.Success?
              && GetSettings(r.value) == GetSettings(st).(privacy := Some(SettingsContext.Privacy(Some(enabled))))
              && r.value.tabs == st.tabs && r.value.bookmarks == st.bookmarks
  {
    var s := GetSettings(st);
    match s.privacy
    case None => Failure(NoPrivacySection)
    case Some(p) => Success(SaveSettings(st, s.(privacy := Some(p.(adBlockerEnabled := Some(enabled))))))
  }

  /** On a store whose settings file is missing, the renderer's toggle sees
      the bridge call fail and keeps its settings. */
  lemma ToggleWithoutStoredSettings(st: Store, s: SettingsContext.Settings, enabled: bool)
    requires st.settings.None?
    ensures ToggleAdblocker(st, enabled).Failure?
    ensures SettingsContext.ToggleAdblocker(s, enabled, ToggleAdblocker(st, enabled).Success?) == s
  {
  }

  // ----- cache and cookies -----

  /** `privacy:clear-cache` and `privacy:clear-cookies`: success exactly when
      the host call succeeded, with the host's error otherwise. */
  function ClearReplyOf(h: HostOutcome): (r: ClearReply)
    ensures r.success <==> h.HostDone?
    ensures h.HostDone? ==> r.error.None?
    ensures h.HostError? ==> r.error == Some(h.error)
  {
    match h
    case HostDone => ClearReply(true, None)
    case HostError(e) => ClearReply(false, Some(e))
  }

  // ----- startup -----

  /** On start the renderer adopts the stored tabs when there are any and a
      single default tab otherwise (the missing key reads as `[]`); a list
      saved before is what the next start adopts. */
  lemma StartupTabs(st: Store, saved: seq<Tab>, freshId: string)
    ensures st.tabs.None? ==>
              TabsContext.LoadTabs([], TabsContext.Saved(GetTabs(st)), freshId)
                == [TabsContext.FreshTab(freshId, TabsContext.DefaultUrl)]
    ensures |saved| > 0 ==>
              TabsContext.LoadTabs([], TabsContext.Saved(GetTabs(SaveTabs(st, saved))), freshId) == saved
  {
  }

  /** A missing settings file reads as `{}`, which keeps the defaults. */
  lemma StartupSettings(st: Store)
    requires st.settings.None?
    ensures SettingsContext.LoadSettings(SettingsContext.DefaultSettings, Some(GetSettings(st)))
              == SettingsContext.DefaultSettings
  {
  }
}
