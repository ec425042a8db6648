/** The dashboard's session-state contract: canonical defaults, the
    selected item and the flash-message queue. Streamlit's session state
    is a map from key to value. */
module SessionState {
  import opened Base

  /** A flash message; `view` scopes it to one view, `None` is global. */
  datatype Flash = Flash(level: string, message: string, view: Option<string>)

  /** The values the dashboard keeps in its session state. `BoolValue`
      is separate from `IntValue` because Python's `bool` is an `int`. */
  datatype Value =
    | NoneValue
    | BoolValue(b: bool)
    | IntValue(i: int)
    | StrValue(s: string)
    | FlashValue(items: seq<Flash>)

  type Session = map<string, Value>

  const KeyCurrentView := "current_view"
  const KeyContentTab := "content_tab"
  const KeyContentSectionSelector := "content_section_selector"
  const KeySelectedItem := "selected_item"
  const KeyHomePublishExpanded := "home_publish_expanded"
  const KeyHomeTrendsExpanded := "home_trends_expanded"
  const KeyHomeThreadsExpanded := "home_threads_expanded"
  const KeyFlashMessages := "flash_messages"

  /** `DEFAULT_STATE`. */
  const DefaultState: Session := map[
    KeyCurrentView := StrValue("home"),
    KeyContentTab := StrValue("Acquire"),
    KeyContentSectionSelector := StrValue("Acquire"),
    KeySelectedItem := NoneValue,
    KeyHomePublishExpanded := BoolValue(true),
    KeyHomeTrendsExpanded := BoolValue(true),
    KeyHomeThreadsExpanded := BoolValue(true),
    KeyFlashMessages := FlashValue([])]

  /** `init_session_state`: every missing default key gets its default;
      keys already present keep their value, whatever it is. */
  function InitSessionState(st: Session): (r: Session)
    ensures r.Keys == st.Keys + DefaultState.Keys
    ensures forall k :: k in st ==> r[k] == st[k]
    ensures forall k :: k in DefaultState && k !in st ==> r[k] == DefaultState[k]
  {
    map k | k in st.Keys + DefaultState.Keys :: if k in st then st[k] else DefaultState[k]
  }

  /** A second initialisation changes nothing. */
  lemma InitIdempotent(st: Session)
    ensures InitSessionState(InitSessionState(st)) == InitSessionState(st)
  {
  }

  /** On a fresh session every key holds its default. */
  lemma InitFresh()
    ensures InitSessionState(map[]) == DefaultState
  {
  }

  /** `get_selected_item`: the stored value when it is an `int` (a `bool`
      is one, as 0 or 1), otherwise `None`. */
  function GetSelectedItem(st: Session): (r: Option<int>)
    ensures r.Some? ==> KeySelectedItem in st && (st[KeySelectedItem].IntValue? || st[KeySelectedItem].BoolValue?)
    ensures KeySelectedItem in st && st[KeySelectedItem].IntValue? ==> r == Some(st[KeySelectedItem].i)
    ensures KeySelectedItem in st && st[KeySelectedItem].BoolValue? ==>
      r == Some(if st[KeySelectedItem].b then 1 else 0)
  {
    if KeySelectedItem !in st then None
    else match st[KeySelectedItem]
      case IntValue(i) => Some(i)
      case BoolValue(b) => Some(if b then 1 else 0)
      case _ => None
  }

  /** `set_selected_item`. */
  function SetSelectedItem(st: Session, tweetId: Option<int>): (r: Session)
    ensures r.Keys == st.Keys + {KeySelectedItem}
    ensures forall k :: k in st && k != KeySelectedItem ==> r[k] == st[k]
  {
    st[KeySelectedItem := if tweetId.Some? then IntValue(tweetId.value) else NoneValue]
  }

  /** Reading the selected item gives back what was set. */
  lemma SelectedItemRoundTrip(st: Session, tweetId: Option<int>)
    ensures GetSelectedItem(SetSelectedItem(st, tweetId)) == tweetId
  {
  }

  /** After initialisation no item is selected unless one already was. */
  lemma FreshSessionSelectsNothing()
    ensures GetSelectedItem(InitSessionState(map[])) == None
  {
    InitFresh();
  }

  /** `push_flash`: the message goes at the end of the queue. */
  function PushFlash(queue: seq<Flash>, level: string, message: string, view: Option<string>): (r: seq<Flash>)
    ensures |r| == |queue| + 1 && r[..|queue|] == queue
    ensures r[|queue|] == Flash(level, message, view)
  {
    queue + [Flash(level, message, view)]
  }

  /** Whether `consume_flash(view)` takes the item. */
  predicate Taken(item: Flash, view: Option<string>) {
    item.view.None? || view.None? || item.view == view
  }

  function TakeFor(view: Option<string>): Flash -> bool {
    (m: Flash) => Taken(m, view)
  }

  function KeepFor(view: Option<string>): Flash -> bool {
    (m: Flash) => !Taken(m, view)
  }

  /** The two filters of a consume split the queue: each message lands on the
      side its view decides, and none is lost or duplicated. */
  lemma ConsumeSplits(queue: seq<Flash>, view: Option<string>)
    ensures forall m :: m in Filter(queue, TakeFor(view)) ==> m in queue && Taken(m, view)
    ensures forall m :: m in Filter(queue, KeepFor(view)) ==> m in queue && !Taken(m, view)
    ensures multiset(Filter(queue, TakeFor(view))) + multiset(Filter(queue, KeepFor(view))) == multiset(queue)
  {
    FilterPartition(queue, TakeFor(view), KeepFor(view));
  }

  /** One more message of the queue goes to exactly one of the two sides. */
  lemma ConsumeStep(queue: seq<Flash>, i: nat, view: Option<string>)
    requires i < |queue|
    ensures Filter(queue[..i + 1], TakeFor(view))
      == Filter(queue[..i], TakeFor(view)) + (if Taken(queue[i], view) then [queue[i]] else [])
    ensures Filter(queue[..i + 1], KeepFor(view))
      == Filter(queue[..i], KeepFor(view)) + (if Taken(queue[i], view) then [] else [queue[i]])
  {
    assert queue[..i + 1] == queue[..i] + [queue[i]];
    FilterSnoc(queue[..i], queue[i], TakeFor(view));
    FilterSnoc(queue[..i], queue[i], KeepFor(view));
  }

  /** `consume_flash`: splits the queue into the messages for this view
      (taken and returned) and the rest (kept in the session). */
  method ConsumeFlash(queue: seq<Flash>, view: Option<string>) returns (take: seq<Flash>, keep: seq<Flash>)
    ensures take == Filter(queue, TakeFor(view))
    ensures keep == Filter(queue, KeepFor(view))
    ensures forall m :: m in take ==> m in queue && Taken(m, view)
    ensures forall m :: m in keep ==> m in queue && !Taken(m, view)
    ensures multiset(take) + multiset(keep) == multiset(queue)
  {
    take, keep := [], [];
    var i := 0;
    while i < |queue|
      invariant 0 <= i <= |queue|
      invariant take == Filter(queue[..i], TakeFor(view))
      invariant keep == Filter(queue[..i], KeepFor(view))
    {
      var m := queue[i];
      ConsumeStep(queue, i, view);
      if Taken(m, view) {
        take := take + [m];
      } else {
        keep := keep + [m];
      }
      i := i + 1;
    }
    assert queue[..i] == queue;
    ConsumeSplits(queue, view);
  }

  /** A global consume takes every message and leaves the queue empty. */
  lemma ConsumeAllEmptiesQueue(queue: seq<Flash>)
    ensures Filter(queue, TakeFor(None)) == queue
    ensures Filter(queue, KeepFor(None)) == []
  {
    FilterAll(queue, TakeFor(None));
    FilterNone(queue, KeepFor(None));
  }

  /** Consuming the same view again, with no push in between, returns
      nothing and keeps everything. */
  lemma ConsumeTwiceReturnsNothing(queue: seq<Flash>, view: Option<string>)
    ensures var keep := Filter(queue, KeepFor(view));
      && Filter(keep, TakeFor(view)) == []
      && Filter(keep, KeepFor(view)) == keep
  {
    var keep := Filter(queue, KeepFor(view));
    forall i | 0 <= i < |keep|
      ensures !TakeFor(view)(keep[i])
    {
      assert keep[i] in keep;
    }
    FilterNone(keep, TakeFor(view));
    FilterAll(keep, KeepFor(view));
  }

  /** A pushed message comes out of the next consume exactly when its
      view matches, after the messages taken before it. */
  lemma PushThenConsume(queue: seq<Flash>, level: string, message: string, pushed: Option<string>, view: Option<string>)
    ensures var f := TakeFor(view);
      var m := Flash(level, message, pushed);
      Filter(PushFlash(queue, level, message, pushed), f) ==
        Filter(queue, f) + (if pushed.None? || view.None? || pushed == view then [m] else [])
  {
    FilterAppend(queue, [Flash(level, message, pushed)], TakeFor(view));
  }
}
