/** The URL bar: deciding whether typed input is an address or a search,
    adding the missing protocol, building the search-engine URL, and the
    two tab updates the bar issues (submit and refresh). The browser's
    `encodeURIComponent` is the uninterpreted parameter `enc`. */
module NavigationBar {
  import opened Wrappers
  import opened Text
  import TabsContext
  import SettingsContext

  type Tab = TabsContext.Tab

  const GoogleSearch: string := "https://www.google.com/search?q="
  const DuckDuckGoSearch: string := "https://duckduckgo.com/?q="
  const Placeholder: string := "%s"

  /** `isValidUrl`: contains a dot and no space, OR starts with "http"
      (`&&` binds tighter than `||`). */
  predicate IsValidUrl(s: string) {
    ('.' in s && ' ' !in s) || StartsWith(s, "http")
  }

  /** `isValidUrl` spelled out position by position. A "http" prefix is
      enough on its own, spaces or not; otherwise the input needs a dot and
      no space. The witnesses show the grouping `(a && b) || c`: "http a"
      passes despite its space, "a. b" fails despite its dot. */
  lemma ValidUrlCases(s: string)
    ensures IsValidUrl(s) <==>
              || (|s| >= 4 && s[0] == 'h' && s[1] == 't' && s[2] == 't' && s[3] == 'p')
              || ((exists i :: 0 <= i < |s| && s[i] == '.') && forall i :: 0 <= i < |s| ==> s[i] != ' ')
    ensures IsValidUrl("http a") && !IsValidUrl("a. b")
  {
    if |s| >= 4 {
      assert StartsWith(s, "http") <==> s[..4] == "http";
    }
    assert "a. b"[2] == ' ';
  }

  predicate HasProtocol(url: string) {
    StartsWith(url, "http://") || StartsWith(url, "https://")
  }

  /** Adds "https://" unless the url already starts with a protocol. */
  function WithProtocol(url: string): (r: string)
    ensures HasProtocol(r)
    ensures HasProtocol(url) ==> r == url
    ensures !HasProtocol(url) ==> r == "https://" + url
  {
    if HasProtocol(url) then url
    else
      assert ("https://" + url)[..8] == "https://";
      "https://" + url
  }

  /** `getSearchUrl(query)` for the configured engine: DuckDuckGo for
      "duckduckgo"; for "custom" the template with its FIRST "%s" replaced,
      falling back to Google when the template is missing or the result is
      empty; Google for "google", for any other value and for none. */
  function SearchUrl(general: SettingsContext.General, query: string, enc: string -> string): (r: string)
    ensures general.searchEngine == Some("duckduckgo") ==> r == DuckDuckGoSearch + enc(query)
    ensures general.searchEngine != Some("duckduckgo") && general.searchEngine != Some("custom") ==>
              r == GoogleSearch + enc(query)
    ensures general.searchEngine == Some("custom") && general.customSearchUrl in {None, Some("")} ==>
              r == GoogleSearch + enc(query)
    ensures general.searchEngine == Some("custom") && general.customSearchUrl.Some? ==>
              var t := general.customSearchUrl.value;
              && (t != "" && (forall j :: 0 <= j <= |t| ==> !OccursAt(t, Placeholder, j)) ==> r == t)
              && (forall i: nat :: OccursAt(t, Placeholder, i) && (forall j :: 0 <= j < i ==> !OccursAt(t, Placeholder, j)) ==>
                    r == if t[..i] + enc(query) + t[i + 2..] == "" then GoogleSearch + enc(query)
                         else t[..i] + enc(query) + t[i + 2..])
  {
    var q := enc(query);
    var google := GoogleSearch + q;
    if general.searchEngine == Some("google") then google
    else if general.searchEngine == Some("duckduckgo") then DuckDuckGoSearch + q
    else if general.searchEngine == Some("custom") then
      match general.customSearchUrl
      case None => google
      case Some(t) =>
        var replaced := ReplaceFirst(t, Placeholder, q);
        if replaced == "" then google else replaced
    else google
  }

  /** Only the first placeholder of a custom template is filled. */
  lemma CustomFillsFirstPlaceholderOnly(general: SettingsContext.General, query: string, enc: string -> string)
    requires general.searchEngine == Some("custom") && general.customSearchUrl == Some("a%sb%s")
    ensures SearchUrl(general, query, enc) == "a" + enc(query) + "b%s"
  {
    var t := "a%sb%s";
    assert !OccursAt(t, Placeholder, 0) by {
      assert t[0..2][0] == 'a';
    }
    assert OccursAt(t, Placeholder, 1);
    assert t[..1] == "a" && t[3..] == "b%s";
  }

  /** The default settings search with Google. */
  lemma DefaultsSearchWithGoogle(query: string, enc: string -> string)
    ensures SearchUrl(SettingsContext.DefaultSettings.general, query, enc) == GoogleSearch + enc(query)
  {
  }

  /** What `handleUrlSubmit` navigates to for the typed input: the trimmed
      input, with a protocol added, when it looks like a URL, and the search
      URL for it otherwise. */
  function NormalizeInput(input: string, general: SettingsContext.General, enc: string -> string): (r: string)
    ensures IsValidUrl(Trim(input)) ==> HasProtocol(r)
    ensures IsValidUrl(Trim(input)) && HasProtocol(Trim(input)) ==> r == Trim(input)
    ensures IsValidUrl(Trim(input)) && !HasProtocol(Trim(input)) ==> r == "https://" + Trim(input)
    ensures !IsValidUrl(Trim(input)) ==> r == SearchUrl(general, Trim(input), enc)
  {
    var url := Trim(input);
    if IsValidUrl(url) then WithProtocol(url) else SearchUrl(general, url, enc)
  }

  /** "http" prefixes without "://" count as URLs and still get "https://". */
  lemma HttpWordIsUrl(general: SettingsContext.General, enc: string -> string)
    ensures NormalizeInput("httpbin", general, enc) == "https://httpbin"
  {
    TrimTrimmed("httpbin");
    assert "httpbin"[..4] == "http";
    assert !HasProtocol("httpbin") by {
      assert "httpbin"[..7] != "http://";
    }
  }

  function UrlPatch(url: string): (r: TabsContext.TabPatch) {
    TabsContext.EmptyPatch.(url := Some(url))
  }

  /** `handleUrlSubmit`: with no active tab nothing changes; otherwise every
      tab carrying the active tab's id gets the normalized url and nothing
      else changes. */
  function SubmitUrl(tabs: seq<Tab>, input: string, general: SettingsContext.General, enc: string -> string)
    : (r: seq<Tab>)
    ensures TabsContext.ActiveTab(tabs).None? ==> r == tabs
    ensures |r| == |tabs|
    ensures TabsContext.ActiveTab(tabs).Some? ==>
              var a := TabsContext.ActiveTab(tabs).value;
              forall i :: 0 <= i < |tabs| ==>
                r[i] == if tabs[i].id == a.id then tabs[i].(url := NormalizeInput(input, general, enc)) else tabs[i]
  {
    match TabsContext.ActiveTab(tabs)
    case None => tabs
    case Some(a) => TabsContext.UpdateTab(tabs, a.id, UrlPatch(NormalizeInput(input, general, enc)))
  }

  /** With unique ids, submitting changes only the active tab's url and keeps
      the active-tab invariant. */
  lemma SubmitTouchesOnlyActive(tabs: seq<Tab>, k: nat, input: string, general: SettingsContext.General,
                                enc: string -> string)
    requires k < |tabs| && tabs[k].active && TabsContext.ExactlyOneActive(tabs) && TabsContext.UniqueIds(tabs)
    ensures var r := SubmitUrl(tabs, input, general, enc);
            && r[k] == tabs[k].(url := NormalizeInput(input, general, enc))
            && (forall i :: 0 <= i < |tabs| && i != k ==> r[i] == tabs[i])
            && TabsContext.ExactlyOneActive(r)
  {
    TabsContext.ActiveTabOfExactlyOne(tabs, k);
    TabsContext.UpdateKeepsFlags(tabs, tabs[k].id, UrlPatch(NormalizeInput(input, general, enc)));
  }

  /** `handleRefresh`: re-assigns the active tab's own url to every tab
      carrying its id. */
  function Refresh(tabs: seq<Tab>): (r: seq<Tab>)
    ensures TabsContext.ActiveTab(tabs).None? ==> r == tabs
    ensures |r| == |tabs|
    ensures TabsContext.ActiveTab(tabs).Some? ==>
              var a := TabsContext.ActiveTab(tabs).value;
              forall i :: 0 <= i < |tabs| ==> r[i] == if tabs[i].id == a.id then tabs[i].(url := a.url) else tabs[i]
  {
    match TabsContext.ActiveTab(tabs)
    case None => tabs
    case Some(a) => TabsContext.UpdateTab(tabs, a.id, UrlPatch(a.url))
  }

  /** With unique ids a refresh leaves the tab list value-unchanged. */
  lemma RefreshUnchangedWhenIdsUnique(tabs: seq<Tab>)
    requires TabsContext.UniqueIds(tabs)
    ensures Refresh(tabs) == tabs
  {
    var r := Refresh(tabs);
    if TabsContext.ActiveTab(tabs).Some? {
      var a := TabsContext.ActiveTab(tabs).value;
      var k :| 0 <= k < |tabs| && tabs[k] == a;
      forall i | 0 <= i < |tabs|
        ensures r[i] == tabs[i]
      {
        if tabs[i].id == tabs[k].id {
          assert i == k;
        }
      }
    }
  }

  /** With a duplicated id, a refresh copies the active tab's url onto the
      other tab carrying that id. */
  lemma RefreshCopiesUrlToDuplicate()
    ensures var tabs := [TabsContext.Tab("1", "https://a", "A", "", true), TabsContext.Tab("1", "https://b", "B", "", false)];
            Refresh(tabs)[1].url == "https://a" && Refresh(tabs) != tabs
  {
    var tabs := [TabsContext.Tab("1", "https://a", "A", "", true), TabsContext.Tab("1", "https://b", "B", "", false)];
    assert TabsContext.ActiveTab(tabs) == Some(tabs[0]);
    assert Refresh(tabs)[1] == tabs[1].(url := "https://a");
  }
}
