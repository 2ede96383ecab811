/**
 * The gallery viewer's state and its transitions as values: the active tab,
 * the lightbox index (`None` when the lightbox is closed), the zoom factor and
 * the set of grid indices whose image has loaded. Each handler of the page is a
 * function from the old view to the new one; `GalleryViewer.Viewer` performs the
 * same updates in place and is proved against these functions.
 *
 * Zoom is exact (`real`): the page steps by 0.3 and clamps to [1, 3].
 */
module GalleryState {
  import opened Wrappers
  import Cyclic

  datatype Tab = Photos | Installation | Videos

  datatype Video = Video(url: string, title: string)

  datatype MediaItem = Image(src: string) | Clip(video: Video)

  /** The three read-only lists the page is built from. */
  datatype Catalog = Catalog(office: seq<string>, installation: seq<string>, videos: seq<Video>)

  datatype View = View(tab: Tab, index: Option<nat>, zoom: real, loaded: set<nat>)

  const MinZoom: real := 1.0
  const MaxZoom: real := 3.0
  const ZoomStep: real := 0.3

  /** The page on first render: photos tab, lightbox closed, zoom 1, nothing loaded. */
  const Initial: View := View(Photos, None, MinZoom, {})

  /** The list shown for a tab; it depends on the tab alone. */
  function ActiveMedia(c: Catalog, tab: Tab): (r: seq<MediaItem>)
    ensures tab == Photos ==> |r| == |c.office|
    ensures tab == Installation ==> |r| == |c.installation|
    ensures tab == Videos ==> |r| == |c.videos|
    ensures forall i | 0 <= i < |r| ::
      (tab == Photos ==> r[i] == Image(c.office[i])) &&
      (tab == Installation ==> r[i] == Image(c.installation[i])) &&
      (tab == Videos ==> r[i] == Clip(c.videos[i]))
  {
    match tab
    case Photos => seq(|c.office|, i requires 0 <= i < |c.office| => Image(c.office[i]))
    case Installation => seq(|c.installation|, i requires 0 <= i < |c.installation| => Image(c.installation[i]))
    case Videos => seq(|c.videos|, i requires 0 <= i < |c.videos| => Clip(c.videos[i]))
  }

  predicate IsOpen(v: View)
  {
    v.index.Some?
  }

  /** An open lightbox points into the active list, and zoom is within its bounds. */
  predicate Inv(c: Catalog, v: View)
  {
    (v.index.Some? ==> v.index.value < |ActiveMedia(c, v.tab)|) &&
    MinZoom <= v.zoom <= MaxZoom
  }

  lemma InitialInv(c: Catalog)
    ensures Inv(c, Initial) && !IsOpen(Initial)
  {
  }

  /** `Math.min`. */
  function Min(a: real, b: real): (r: real)
    ensures r <= a && r <= b && (r == a || r == b)
  {
    if a <= b then a else b
  }

  /** `Math.max`. */
  function Max(a: real, b: real): (r: real)
    ensures r >= a && r >= b && (r == a || r == b)
  {
    if a >= b then a else b
  }

  /** `open(i)`: show grid item `i` of the active list at zoom 1. */
  function Open(c: Catalog, v: View, i: nat): (r: View)
    requires i < |ActiveMedia(c, v.tab)|
    ensures Inv(c, r) && r.index == Some(i) && r.zoom == MinZoom
    ensures r.tab == v.tab && r.loaded == v.loaded
  {
    v.(index := Some(i), zoom := MinZoom)
  }

  /** `close()`: close the lightbox; tab, zoom and load marks stay. */
  function Close(v: View): (r: View)
    ensures !IsOpen(r)
    ensures r.tab == v.tab && r.zoom == v.zoom && r.loaded == v.loaded
  {
    v.(index := None)
  }

  lemma CloseKeepsInv(c: Catalog, v: View)
    requires Inv(c, v)
    ensures Inv(c, Close(v))
  {
  }

  /** Closing twice is closing once. */
  lemma CloseIdempotent(v: View)
    ensures Close(Close(v)) == Close(v)
  {
  }

  /** Opening and then closing leaves the lightbox closed, at zoom 1, on the same tab. */
  lemma CloseAfterOpen(c: Catalog, v: View, i: nat)
    requires i < |ActiveMedia(c, v.tab)|
    ensures Close(Open(c, v, i)) == v.(index := None, zoom := MinZoom)
  {
  }

  /** `next()`: the following item, wrapping from the last to the first, at zoom 1. */
  function Next(c: Catalog, v: View): (r: View)
    requires Inv(c, v) && IsOpen(v)
    ensures Inv(c, r) && IsOpen(r)
    ensures r.index.value == if v.index.value == |ActiveMedia(c, v.tab)| - 1 then 0 else v.index.value + 1
    ensures r.tab == v.tab && r.zoom == MinZoom && r.loaded == v.loaded
  {
    v.(index := Some(Cyclic.Succ(v.index.value, |ActiveMedia(c, v.tab)|)), zoom := MinZoom)
  }

  /** `prev()`: the preceding item, wrapping from the first to the last, at zoom 1. */
  function Prev(c: Catalog, v: View): (r: View)
    requires Inv(c, v) && IsOpen(v)
    ensures Inv(c, r) && IsOpen(r)
    ensures r.index.value == if v.index.value == 0 then |ActiveMedia(c, v.tab)| - 1 else v.index.value - 1
    ensures r.tab == v.tab && r.zoom == MinZoom && r.loaded == v.loaded
  {
    v.(index := Some(Cyclic.Pred(v.index.value, |ActiveMedia(c, v.tab)|)), zoom := MinZoom)
  }

  /** `prev` undoes `next`, apart from the zoom reset. */
  lemma PrevUndoesNext(c: Catalog, v: View)
    requires Inv(c, v) && IsOpen(v)
    ensures Prev(c, Next(c, v)) == v.(zoom := MinZoom)
  {
  }

  /** `next` undoes `prev`, apart from the zoom reset. */
  lemma NextUndoesPrev(c: Catalog, v: View)
    requires Inv(c, v) && IsOpen(v)
    ensures Next(c, Prev(c, v)) == v.(zoom := MinZoom)
  {
  }

  /** `zoomIn()`: on an image tab, 0.3 more, saturating at 3; nothing on the videos tab. */
  function ZoomIn(v: View): (r: View)
    ensures v.tab == Videos ==> r == v
    ensures v.tab != Videos ==> r == v.(zoom := r.zoom)
    ensures v.tab != Videos ==> r.zoom <= MaxZoom && (r.zoom == MaxZoom || r.zoom == v.zoom + ZoomStep)
    ensures v.tab != Videos && v.zoom <= MaxZoom ==> v.zoom <= r.zoom
    ensures v.tab != Videos && v.zoom + ZoomStep <= MaxZoom ==> r.zoom == v.zoom + ZoomStep
    ensures v.tab != Videos && v.zoom + ZoomStep >= MaxZoom ==> r.zoom == MaxZoom
    ensures MinZoom <= v.zoom <= MaxZoom ==> MinZoom <= r.zoom <= MaxZoom
  {
    if v.tab == Videos then v else v.(zoom := Min(v.zoom + ZoomStep, MaxZoom))
  }

  /** `zoomOut()`: on an image tab, 0.3 less, saturating at 1; nothing on the videos tab. */
  function ZoomOut(v: View): (r: View)
    ensures v.tab == Videos ==> r == v
    ensures v.tab != Videos ==> r == v.(zoom := r.zoom)
    ensures v.tab != Videos ==> r.zoom >= MinZoom && (r.zoom == MinZoom || r.zoom == v.zoom - ZoomStep)
    ensures v.tab != Videos && v.zoom >= MinZoom ==> r.zoom <= v.zoom
    ensures v.tab != Videos && v.zoom - ZoomStep >= MinZoom ==> r.zoom == v.zoom - ZoomStep
    ensures v.tab != Videos && v.zoom - ZoomStep <= MinZoom ==> r.zoom == MinZoom
    ensures MinZoom <= v.zoom <= MaxZoom ==> MinZoom <= r.zoom <= MaxZoom
  {
    if v.tab == Videos then v else v.(zoom := Max(v.zoom - ZoomStep, MinZoom))
  }

  /** At a bound, zooming further that way changes nothing. */
  lemma ZoomSaturates(v: View)
    ensures v.zoom == MaxZoom ==> ZoomIn(v) == v
    ensures v.zoom == MinZoom ==> ZoomOut(v) == v
  {
  }

  function ZoomInTimes(v: View, k: nat): View
    decreases k
  {
    if k == 0 then v else ZoomInTimes(ZoomIn(v), k - 1)
  }

  function ZoomOutTimes(v: View, k: nat): View
    decreases k
  {
    if k == 0 then v else ZoomOutTimes(ZoomOut(v), k - 1)
  }

  /** Below the upper bound, each zoom-in adds exactly one step. */
  lemma {:induction false} ZoomInClimbs(v: View, k: nat)
    requires v.tab != Videos && v.zoom + k as real * ZoomStep <= MaxZoom
    ensures ZoomInTimes(v, k) == v.(zoom := v.zoom + k as real * ZoomStep)
    decreases k
  {
    if k > 0 {
      ZoomInClimbs(ZoomIn(v), k - 1);
    }
  }

  /** Enough zoom-ins reach 3 and stay there. */
  lemma {:induction false} ZoomInReachesMax(v: View, k: nat)
    requires v.tab != Videos && v.zoom <= MaxZoom && v.zoom + k as real * ZoomStep >= MaxZoom
    ensures ZoomInTimes(v, k) == v.(zoom := MaxZoom)
    decreases k
  {
    if k > 0 {
      ZoomInReachesMax(ZoomIn(v), k - 1);
    }
  }

  /** Above the lower bound, each zoom-out takes away exactly one step. */
  lemma {:induction false} ZoomOutDescends(v: View, k: nat)
    requires v.tab != Videos && v.zoom - k as real * ZoomStep >= MinZoom
    ensures ZoomOutTimes(v, k) == v.(zoom := v.zoom - k as real * ZoomStep)
    decreases k
  {
    if k > 0 {
      ZoomOutDescends(ZoomOut(v), k - 1);
    }
  }

  /** Enough zoom-outs reach 1 and stay there. */
  lemma {:induction false} ZoomOutReachesMin(v: View, k: nat)
    requires v.tab != Videos && v.zoom >= MinZoom && v.zoom - k as real * ZoomStep <= MinZoom
    ensures ZoomOutTimes(v, k) == v.(zoom := MinZoom)
    decreases k
  {
    if k > 0 {
      ZoomOutReachesMin(ZoomOut(v), k - 1);
    }
  }

  /** From 1, six zoom-ins give 2.8 and the seventh and later ones give exactly 3. */
  lemma ZoomInFromOne(v: View, k: nat)
    requires v.tab != Videos && v.zoom == MinZoom
    ensures k <= 6 ==> ZoomInTimes(v, k).zoom == 1.0 + k as real * 0.3
    ensures k >= 7 ==> ZoomInTimes(v, k).zoom == 3.0
  {
    if k <= 6 {
      ZoomInClimbs(v, k);
    } else {
      ZoomInReachesMax(v, k);
    }
  }

  /** From 3, six zoom-outs give 1.2 and the seventh and later ones give exactly 1. */
  lemma ZoomOutFromThree(v: View, k: nat)
    requires v.tab != Videos && v.zoom == MaxZoom
    ensures k <= 6 ==> ZoomOutTimes(v, k).zoom == 3.0 - k as real * 0.3
    ensures k >= 7 ==> ZoomOutTimes(v, k).zoom == 1.0
  {
    if k <= 6 {
      ZoomOutDescends(v, k);
    } else {
      ZoomOutReachesMin(v, k);
    }
  }

  /** On the videos tab no number of zoom presses changes anything. */
  lemma {:induction false} VideosIgnoreZoom(v: View, k: nat)
    requires v.tab == Videos
    ensures ZoomInTimes(v, k) == v && ZoomOutTimes(v, k) == v
    decreases k
  {
    if k > 0 {
      VideosIgnoreZoom(v, k - 1);
    }
  }

  /**
   * Clicking a tab. The reset effect runs only when the tab value changes: a
   * click on the tab already shown leaves the view as it is.
   */
  function SelectTab(v: View, t: Tab): (r: View)
    ensures r.tab == t && r.loaded == v.loaded
    ensures t != v.tab ==> !IsOpen(r) && r.zoom == MinZoom
    ensures t == v.tab ==> r == v
  {
    if t == v.tab then v else View(t, None, MinZoom, v.loaded)
  }

  /** The click itself (`setActiveTab`): only the tab changes, the old index is kept. */
  function ClickTab(v: View, t: Tab): (r: View)
    ensures r.tab == t && r.index == v.index && r.zoom == v.zoom && r.loaded == v.loaded
  {
    v.(tab := t)
  }

  /** The reset effect that runs after a render with a new tab value. */
  function TabResetEffect(v: View): (r: View)
    ensures !IsOpen(r) && r.zoom == MinZoom && r.tab == v.tab && r.loaded == v.loaded
  {
    v.(index := None, zoom := MinZoom)
  }

  /** A tab click is the click followed, when the tab value changed, by the reset effect. */
  lemma SelectTabIsClickThenEffect(v: View, t: Tab)
    ensures SelectTab(v, t) == if t == v.tab then v else TabResetEffect(ClickTab(v, t))
  {
  }

  /**
   * Between the click and the effect the page renders with the new tab and the
   * old index: when the lightbox is open past the end of the new list, that
   * render's view breaks the invariant.
   */
  lemma StaleIndexRender(c: Catalog, v: View, t: Tab)
    requires Inv(c, v) && IsOpen(v) && v.index.value >= |ActiveMedia(c, t)|
    ensures !Inv(c, ClickTab(v, t))
  {
  }

  /** Photo 2 of 3 open, then the videos tab with one video: the render in between points past the list. */
  lemma StaleIndexExample(photos: seq<string>, clip: Video)
    requires |photos| == 3
    ensures
      var c := Catalog(photos, [], [clip]);
      var v := Open(c, Initial, 2);
      Inv(c, v) && ClickTab(v, Videos).index == Some(2) && |ActiveMedia(c, Videos)| == 1 &&
      !Inv(c, ClickTab(v, Videos))
  {
  }

  /** A change of tab closes the lightbox at zoom 1 from any prior view, consistent or not. */
  lemma TabChangeResets(c: Catalog, v: View, t: Tab)
    requires t != v.tab
    ensures Inv(c, SelectTab(v, t)) && !IsOpen(SelectTab(v, t)) && SelectTab(v, t).zoom == MinZoom
  {
  }

  lemma SelectTabKeepsInv(c: Catalog, v: View, t: Tab)
    requires Inv(c, v)
    ensures Inv(c, SelectTab(v, t))
  {
  }

  /** An image's `onLoad`: mark grid index `i` as loaded; nothing else changes. */
  function MarkLoaded(v: View, i: nat): (r: View)
    ensures i in r.loaded && v.loaded <= r.loaded && r.loaded - {i} <= v.loaded
    ensures r.(loaded := v.loaded) == v
  {
    v.(loaded := v.loaded + {i})
  }

  /** Marking the same index twice is marking it once. */
  lemma MarkLoadedIdempotent(v: View, i: nat)
    ensures MarkLoaded(MarkLoaded(v, i), i) == MarkLoaded(v, i)
  {
  }

  /** The `keydown` listener: acts only while the lightbox is open. */
  function KeyDown(c: Catalog, v: View, key: string): (r: View)
    requires Inv(c, v)
    ensures Inv(c, r)
    ensures r.tab == v.tab && r.loaded == v.loaded
  {
    if !IsOpen(v) then v
    else if key == "Escape" then Close(v)
    else if key == "ArrowRight" then Next(c, v)
    else if key == "ArrowLeft" then Prev(c, v)
    else if v.tab != Videos && key == "+" then ZoomIn(v)
    else if v.tab != Videos && key == "-" then ZoomOut(v)
    else v
  }

  /** The keys are triggers for the same transitions, and only while open. */
  lemma KeyDownDispatch(c: Catalog, v: View, key: string)
    requires Inv(c, v)
    ensures !IsOpen(v) ==> KeyDown(c, v, key) == v
    ensures IsOpen(v) && key == "Escape" ==> KeyDown(c, v, key) == Close(v)
    ensures IsOpen(v) && key == "ArrowRight" ==> KeyDown(c, v, key) == Next(c, v)
    ensures IsOpen(v) && key == "ArrowLeft" ==> KeyDown(c, v, key) == Prev(c, v)
    ensures IsOpen(v) && key == "+" ==> KeyDown(c, v, key) == ZoomIn(v)
    ensures IsOpen(v) && key == "-" ==> KeyDown(c, v, key) == ZoomOut(v)
    ensures key !in {"Escape", "ArrowRight", "ArrowLeft", "+", "-"} ==> KeyDown(c, v, key) == v
  {
  }

  /** A press of one of the lightbox's navigation controls. */
  datatype Move = Forward | Back

  /** A run of `next`/`prev` presses on an open lightbox. */
  function Navigate(c: Catalog, v: View, moves: seq<Move>): (r: View)
    requires Inv(c, v) && IsOpen(v)
    ensures Inv(c, r) && IsOpen(r)
    ensures r.tab == v.tab && r.loaded == v.loaded
    ensures |moves| > 0 ==> r.zoom == MinZoom
    decreases |moves|
  {
    if moves == [] then v
    else Navigate(c, if moves[0] == Forward then Next(c, v) else Prev(c, v), moves[1..])
  }

  function Forwards(k: nat): (r: seq<Move>)
    ensures |r| == k
    ensures forall j | 0 <= j < k :: r[j] == Forward
  {
    if k == 0 then [] else [Forward] + Forwards(k - 1)
  }

  /** `k` presses of `next` move the index `k` places round the active list. */
  lemma {:induction false} ForwardsAdvance(c: Catalog, v: View, k: nat)
    requires Inv(c, v) && IsOpen(v)
    ensures Navigate(c, v, Forwards(k)).index.value ==
      Cyclic.Advance(v.index.value, |ActiveMedia(c, v.tab)|, k)
    decreases k
  {
    if k > 0 {
      assert Forwards(k)[1..] == Forwards(k - 1);
      ForwardsAdvance(c, Next(c, v), k - 1);
    }
  }

  /** Pressing `next` once per item of the active list comes back to the item shown. */
  lemma NextRoundTrip(c: Catalog, v: View)
    requires Inv(c, v) && IsOpen(v)
    ensures Navigate(c, v, Forwards(|ActiveMedia(c, v.tab)|)).index == v.index
  {
    ForwardsAdvance(c, v, |ActiveMedia(c, v.tab)|);
    Cyclic.FullTurn(v.index.value, |ActiveMedia(c, v.tab)|);
  }

  /**
   * Three office photos, two installation images and one video: opening the only
   * video and pressing `next` stays on it.
   */
  lemma SingleVideoWraps(photos: seq<string>, installs: seq<string>, clip: Video)
    requires |photos| == 3 && |installs| == 2
    ensures
      var c := Catalog(photos, installs, [clip]);
      var v := Open(c, SelectTab(Initial, Videos), 0);
      v.tab == Videos && v.index == Some(0) && Next(c, v).index == Some(0)
  {
  }
}
