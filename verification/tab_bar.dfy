/** The tab strip: title truncation and the mapping from mouse events to
    calls into the tab list manager. Drag and drop records the dragged tab
    but never reorders. */
module TabBar {
  import opened Wrappers
  import TabsContext

  type Tab = TabsContext.Tab

  const DefaultMaxLength: nat := 20
  const Ellipsis: string := "..."

  function Min(a: nat, b: nat): (r: nat) {
    if a <= b then a else b
  }

  /** `truncateTitle(title, maxLength)`: a title no longer than `maxLength`
      is shown as is; a longer one is cut to `maxLength` characters and
      followed by "...". */
  function TruncateTitle(title: string, maxLength: nat): (r: string)
    ensures |title| <= maxLength ==> r == title
    ensures |title| > maxLength ==> |r| == maxLength + 3 && r[maxLength..] == Ellipsis
    ensures |r| <= maxLength + 3
    ensures |r| >= Min(|title|, maxLength) && r[..Min(|title|, maxLength)] == title[..Min(|title|, maxLength)]
  {
    if |title| > maxLength then title[..maxLength] + Ellipsis else title
  }

  /** The strip renders every title with the default limit of 20. */
  function RenderedTitle(title: string): (r: string)
    ensures |r| <= 23
    ensures |title| <= 20 ==> r == title
    ensures |title| > 20 ==> r == title[..20] + "..."
  {
    TruncateTitle(title, DefaultMaxLength)
  }

  /** What the user does on the strip. `MouseDown` carries the button number
      (1 is the middle button). */
  datatype Event =
    | TabClick(id: string)
    | CloseClick(id: string)
    | MouseDown(id: string, button: int)
    | NewTabClick
    | DragStart(id: string)
    | DragOver
    | Drop(targetId: string)

  /** The tab list together with the strip's own `draggedTab` state. */
  datatype Strip = Strip(tabs: seq<Tab>, dragged: Option<string>)

  /** The handlers: a click activates, the close button or a middle-button
      press closes, "+" adds a tab with the default url, a drag start
      records the tab and a drop forgets it without touching the list. */
  function Dispatch(st: Strip, ev: Event, freshId: string): (r: Strip)
    ensures ev.TabClick? ==> r == st.(tabs := TabsContext.SetActiveTab(st.tabs, ev.id))
    ensures ev.CloseClick? || (ev.MouseDown? && ev.button == 1) ==>
              r == st.(tabs := TabsContext.CloseTab(st.tabs, ev.id, freshId))
    ensures ev.MouseDown? && ev.button != 1 ==> r == st
    ensures ev.NewTabClick? ==> r == st.(tabs := TabsContext.AddTab(st.tabs, freshId, None))
    ensures ev.NewTabClick? ==> r.tabs[|st.tabs|].url == TabsContext.DefaultUrl
    ensures ev.DragStart? ==> r == st.(dragged := Some(ev.id))
    ensures ev.DragOver? ==> r == st
    ensures ev.Drop? ==> r == Strip(st.tabs, None)
  {
    match ev
    case TabClick(id) => st.(tabs := TabsContext.SetActiveTab(st.tabs, id))
    case CloseClick(id) => st.(tabs := TabsContext.CloseTab(st.tabs, id, freshId))
    case MouseDown(id, button) =>
      if button == 1 then st.(tabs := TabsContext.CloseTab(st.tabs, id, freshId)) else st
    case NewTabClick => st.(tabs := TabsContext.AddTab(st.tabs, freshId, None))
    case DragStart(id) => st.(dragged := Some(id))
    case DragOver => st
    case Drop(_) => Strip(st.tabs, None)
  }

  predicate IsDragEvent(ev: Event) {
    ev.DragStart? || ev.DragOver? || ev.Drop?
  }

  function DispatchAll(st: Strip, evs: seq<Event>, freshId: string): (r: Strip)
    decreases |evs|
  {
    if |evs| == 0 then st else DispatchAll(Dispatch(st, evs[0], freshId), evs[1..], freshId)
  }

  /** No sequence of drag events changes the order (or anything else) of
      the tab list. */
  lemma {:induction false} DraggingNeverReorders(st: Strip, evs: seq<Event>, freshId: string)
    requires forall i :: 0 <= i < |evs| ==> IsDragEvent(evs[i])
    ensures DispatchAll(st, evs, freshId).tabs == st.tabs
    decreases |evs|
  {
    if |evs| > 0 {
      DraggingNeverReorders(Dispatch(st, evs[0], freshId), evs[1..], freshId);
    }
  }
}
