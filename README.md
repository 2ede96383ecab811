# Gallery viewer and hero carousel, modelled in Dafny

This project models the two interactive parts of a marketing website's front end.

- The **media gallery** (`src/pages/4.gallery/Gallery.jsx`) has three tabs: office photos, installation photos and videos. A lightbox shows one item at a time. Prev/next navigation wraps around the list. Images can be zoomed between 1 and 3 in steps of 0.3. A keyboard listener works while the lightbox is open. YouTube links are turned into embed and thumbnail links.
- The **hero carousel** (`src/pages/1.home/component/HeroBanner1.jsx`) holds a slide index over the banner list. It has wrapping prev/next, dot navigation, pause on hover and an autoplay tick.

Modules:

- `Cyclic` (`cyclic.dfy`): the wrap-around step `(i + 1) % n` and the step back `(i - 1 + n) % n`. The gallery and the carousel both use them. The indices are never negative, so JavaScript's truncating `%` agrees with Dafny's.
- `Text` (`text.dfy`): the JavaScript string operations the helpers use. These are `startsWith`, `indexOf`, `includes`, `replace` with a string pattern (first occurrence only) and `slice`.
- `YouTube` (`youtube.dfy`): `isYouTube`, `getYouTubeId`, `isShort`, `convertToEmbed` and `getThumbnail`. `new URL` follows section 4.4 of the WHATWG URL Standard, and its `searchParams` follow section 5.1. It is not re-implemented. It is a parameter `parse: string -> Option<ParsedUrl>`: `None` means the constructor throws, otherwise it gives the hostname, the pathname and the decoded query pairs in order.
- `GalleryState` (`gallery_state.dfy`): the viewer state as a value `View(tab, index, zoom, loaded)`, with one function per handler and the lemmas about them. `index == None` means the lightbox is closed. Zoom is an exact `real`.
- `GalleryViewer` (`gallery_viewer.dfy`): the class `Viewer`. Its fields are `activeTab`, `activeIndex`, `zoom` and `loaded`, and the three catalog lists are constructor parameters. Each method updates the fields in place. Each method is proved to produce `GalleryState`'s transition of the old state, and to keep the invariant: an open lightbox points into the active list and zoom stays in [1, 3].
- `HeroCarousel` (`hero_carousel.dfy`): the class `Carousel` with `index` and `paused`, plus lemmas about the three shipped banners and about autoplay cycling.

The code behaves as follows in four places a reader might not expect:

- Clicking the tab that is already shown resets nothing. The reset effect (`Gallery.jsx:130-133`) depends on `activeTab` and runs only when its value changes.
- `loaded` is keyed by grid index only and is never cleared on a tab change. A mark made on one tab is seen by the same index on another tab.
- `isShort` looks for `/shorts/` anywhere in the URL text, not only in the path. `isYouTube` looks for `youtube.com` or `youtu.be` anywhere in the text, not in the host.
- `open(i)` and `next`/`prev` do no range or open check. Their callers only use grid indices and only act while the lightbox is open. The model states these as preconditions.

## Model

| member | source | states |
|---|---|---|
| Cyclic.Succ | src/pages/1.home/component/HeroBanner1.jsx:25 | `(i + 1) % n` stays in [0, n), gives `i + 1` below the last slot and wraps the last slot to 0 |
| Cyclic.Pred | src/pages/1.home/component/HeroBanner1.jsx:26 | `(i - 1 + n) % n` stays in [0, n), gives `i - 1` above slot 0 and wraps 0 to `n - 1` |
| Cyclic.PredSucc | src/pages/1.home/component/HeroBanner1.jsx:25-26 | stepping back undoes stepping forward |
| Cyclic.SuccPred | src/pages/1.home/component/HeroBanner1.jsx:25-26 | stepping forward undoes stepping back |
| Cyclic.FullTurn | src/pages/1.home/component/HeroBanner1.jsx:18-20 | `n` forward steps from any slot come back to that slot |
| Text.StartsWith | src/pages/4.gallery/Gallery.jsx:87 | `startsWith` holds exactly when the prefix is no longer than the string and matches it character by character |
| Text.Includes | src/pages/4.gallery/Gallery.jsx:81 | `includes` holds exactly when the pattern occurs at some position |
| Text.IndexOf | src/pages/4.gallery/Gallery.jsx:88 | the first position where the pattern occurs, or none when it occurs nowhere |
| Text.ReplaceFirst | src/pages/4.gallery/Gallery.jsx:88 | `replace` with a string pattern substitutes the first occurrence only, leaves a string without one unchanged, and replaces a leading occurrence |
| Text.SliceFrom | src/pages/4.gallery/Gallery.jsx:86 | `slice(k)` is the rest of the string after its first `k` characters, or empty past the end |
| Text.ReplacePrefix | src/pages/4.gallery/Gallery.jsx:87-88 | removing a prefix the string starts with leaves exactly the rest |
| YouTube.QueryGet | src/pages/4.gallery/Gallery.jsx:89 | `searchParams.get` is none exactly when no pair has the name, otherwise the value of the first such pair |
| YouTube.IsYouTube | src/pages/4.gallery/Gallery.jsx:79-81 | holds exactly when `youtube.com` or `youtu.be` occurs somewhere in the URL text |
| YouTube.GetYouTubeId | src/pages/4.gallery/Gallery.jsx:83-93 | no id when the URL does not parse; on host `youtu.be` the pathname minus its first character; on a `/shorts/` path the rest of the path; otherwise the first `v` query value, or none |
| YouTube.WatchUrlId | src/pages/4.gallery/Gallery.jsx:89 | a `/watch?v=<id>` link gives back `<id>` |
| YouTube.ShortLinkId | src/pages/4.gallery/Gallery.jsx:86 | a `youtu.be/<id>` link gives back `<id>` |
| YouTube.ShortsPathId | src/pages/4.gallery/Gallery.jsx:87-88 | a `/shorts/<id>` path gives back `<id>` |
| YouTube.NoIdWithoutV | src/pages/4.gallery/Gallery.jsx:89-108 | a URL on another host, without a `/shorts/` path and without `v`, has no id, no embed link and no thumbnail |
| YouTube.IsShort | src/pages/4.gallery/Gallery.jsx:95 | holds exactly when `/shorts/` occurs somewhere in the URL text |
| YouTube.ShortsUrlIsShort | src/pages/4.gallery/Gallery.jsx:95 | every URL text with `/shorts/` in it is a short |
| YouTube.EmbedUrl | src/pages/4.gallery/Gallery.jsx:101 | the embed template starts with the fixed embed prefix and the id reads back from between its fixed parts |
| YouTube.ThumbnailUrl | src/pages/4.gallery/Gallery.jsx:108 | the thumbnail template starts with the fixed prefix and the id reads back from between its fixed parts |
| YouTube.ConvertToEmbed | src/pages/4.gallery/Gallery.jsx:97-103 | a link exists exactly when the URL mentions YouTube and yields a non-empty id, and that id reads back from the link |
| YouTube.GetThumbnail | src/pages/4.gallery/Gallery.jsx:105-109 | a link exists exactly when the URL mentions YouTube and yields a non-empty id, and that id reads back from the link |
| YouTube.EmbedAndThumbnailAgree | src/pages/4.gallery/Gallery.jsx:97-109 | the embed link and the thumbnail exist for the same URLs and carry the same id |
| GalleryState.ActiveMedia | src/pages/4.gallery/Gallery.jsx:38-42 | the active list is chosen by the tab alone: office images, installation images or the video list, item by item |
| GalleryState.InitialInv | src/pages/4.gallery/Gallery.jsx:33-36 | the initial view (photos, closed, zoom 1, nothing loaded) satisfies the invariant |
| GalleryState.Min | src/pages/4.gallery/Gallery.jsx:70 | `Math.min` is the smaller argument |
| GalleryState.Max | src/pages/4.gallery/Gallery.jsx:75 | `Math.max` is the larger argument |
| GalleryState.Open | src/pages/4.gallery/Gallery.jsx:45-49 | opening a grid index of the active list shows that index at zoom 1 on the same tab, and the result satisfies the invariant |
| GalleryState.Close | src/pages/4.gallery/Gallery.jsx:51-54 | closing leaves the lightbox closed and tab, zoom and load marks unchanged |
| GalleryState.CloseKeepsInv | src/pages/4.gallery/Gallery.jsx:51-54 | closing keeps the invariant |
| GalleryState.CloseIdempotent | src/pages/4.gallery/Gallery.jsx:51-54 | closing twice equals closing once |
| GalleryState.CloseAfterOpen | src/pages/4.gallery/Gallery.jsx:45-54 | open then close gives a closed lightbox at zoom 1 on the same tab |
| GalleryState.Next | src/pages/4.gallery/Gallery.jsx:56-60 | with the lightbox open, the index moves to the next item and wraps from the last to 0; zoom resets to 1; the tab is unchanged; the invariant is kept |
| GalleryState.Prev | src/pages/4.gallery/Gallery.jsx:62-66 | with the lightbox open, the index moves to the previous item and wraps from 0 to the last; zoom resets to 1; the tab is unchanged; the invariant is kept |
| GalleryState.PrevUndoesNext | src/pages/4.gallery/Gallery.jsx:56-66 | `prev(next(v))` is `v` at zoom 1 |
| GalleryState.NextUndoesPrev | src/pages/4.gallery/Gallery.jsx:56-66 | `next(prev(v))` is `v` at zoom 1 |
| GalleryState.ZoomIn | src/pages/4.gallery/Gallery.jsx:68-71 | on the videos tab nothing changes; otherwise only zoom changes: exactly 0.3 more when that stays within 3, else exactly 3; never down; [1, 3] is kept |
| GalleryState.ZoomOut | src/pages/4.gallery/Gallery.jsx:73-76 | on the videos tab nothing changes; otherwise only zoom changes: exactly 0.3 less when that stays above 1, else exactly 1; never up; [1, 3] is kept |
| GalleryState.ZoomSaturates | src/pages/4.gallery/Gallery.jsx:68-76 | zooming in at 3 or out at 1 changes nothing |
| GalleryState.ZoomInClimbs | src/pages/4.gallery/Gallery.jsx:70 | below the cap, `k` zoom-ins add exactly `0.3 k` |
| GalleryState.ZoomInReachesMax | src/pages/4.gallery/Gallery.jsx:70 | enough zoom-ins reach exactly 3 and stay there |
| GalleryState.ZoomOutDescends | src/pages/4.gallery/Gallery.jsx:75 | above the floor, `k` zoom-outs take away exactly `0.3 k` |
| GalleryState.ZoomOutReachesMin | src/pages/4.gallery/Gallery.jsx:75 | enough zoom-outs reach exactly 1 and stay there |
| GalleryState.ZoomInFromOne | src/pages/4.gallery/Gallery.jsx:68-71 | from 1 the zoom goes 1.3, 1.6, … 2.8, and is 3 from the seventh zoom-in on |
| GalleryState.ZoomOutFromThree | src/pages/4.gallery/Gallery.jsx:73-76 | from 3 the zoom goes 2.7, 2.4, … 1.2, and is 1 from the seventh zoom-out on |
| GalleryState.VideosIgnoreZoom | src/pages/4.gallery/Gallery.jsx:70-75 | on the videos tab any number of zoom presses leaves the view unchanged |
| GalleryState.SelectTab | src/pages/4.gallery/Gallery.jsx:130-133 | the tab becomes the one clicked; a different tab closes the lightbox at zoom 1; the same tab changes nothing; load marks stay |
| GalleryState.ClickTab | src/pages/4.gallery/Gallery.jsx:160 | the click alone changes only the tab and keeps the old index and zoom |
| GalleryState.TabResetEffect | src/pages/4.gallery/Gallery.jsx:130-133 | the effect closes the lightbox at zoom 1 and keeps the tab and load marks |
| GalleryState.SelectTabIsClickThenEffect | src/pages/4.gallery/Gallery.jsx:130-133 | a tab click is the click followed, when the tab value changed, by the reset effect |
| GalleryState.StaleIndexRender | src/pages/4.gallery/Gallery.jsx:326-333 | with the lightbox open past the end of the new tab's list, the view rendered between click and effect breaks the invariant |
| GalleryState.StaleIndexExample | src/pages/4.gallery/Gallery.jsx:326-333 | photo 2 of 3 open, then a click on a videos tab with one video: the render in between has index 2 into a list of length 1 |
| GalleryState.TabChangeResets | src/pages/4.gallery/Gallery.jsx:130-133 | after a change of tab, from any prior view, the lightbox is closed, zoom is 1 and the invariant holds |
| GalleryState.SelectTabKeepsInv | src/pages/4.gallery/Gallery.jsx:130-133 | a tab click keeps the invariant |
| GalleryState.MarkLoaded | src/pages/4.gallery/Gallery.jsx:186 | the index becomes marked, earlier marks stay, and nothing else changes |
| GalleryState.MarkLoadedIdempotent | src/pages/4.gallery/Gallery.jsx:207 | marking the same index twice equals marking it once |
| GalleryState.KeyDown | src/pages/4.gallery/Gallery.jsx:113-124 | any key keeps the invariant, the tab and the load marks |
| GalleryState.KeyDownDispatch | src/pages/4.gallery/Gallery.jsx:113-124 | with the lightbox closed every key changes nothing; Escape, ArrowRight and ArrowLeft act as close, next and prev; `+` and `-` act as zoom in and zoom out; any other key changes nothing |
| GalleryState.Navigate | src/pages/4.gallery/Gallery.jsx:56-66 | every run of next/prev presses keeps the lightbox open, the index inside the active list and the tab, and leaves zoom at 1 |
| GalleryState.ForwardsAdvance | src/pages/4.gallery/Gallery.jsx:56-60 | `k` next presses move the index `k` places round the active list |
| GalleryState.NextRoundTrip | src/pages/4.gallery/Gallery.jsx:56-60 | pressing next once per item comes back to the item shown |
| GalleryState.SingleVideoWraps | src/pages/4.gallery/Gallery.jsx:56-60 | with one video, opening it and pressing next stays on index 0 |
| GalleryViewer.Viewer.constructor | src/pages/4.gallery/Gallery.jsx:33-36 | the page mounts on photos, closed, zoom 1, nothing loaded, with the given catalog |
| GalleryViewer.Viewer.Open | src/pages/4.gallery/Gallery.jsx:45-49 | the fields become `GalleryState.Open` of the old state |
| GalleryViewer.Viewer.Close | src/pages/4.gallery/Gallery.jsx:51-54 | the fields become `GalleryState.Close` of the old state |
| GalleryViewer.Viewer.Next | src/pages/4.gallery/Gallery.jsx:56-60 | the fields become `GalleryState.Next` of the old state |
| GalleryViewer.Viewer.Prev | src/pages/4.gallery/Gallery.jsx:62-66 | the fields become `GalleryState.Prev` of the old state |
| GalleryViewer.Viewer.ZoomIn | src/pages/4.gallery/Gallery.jsx:68-71 | the fields become `GalleryState.ZoomIn` of the old state |
| GalleryViewer.Viewer.ZoomOut | src/pages/4.gallery/Gallery.jsx:73-76 | the fields become `GalleryState.ZoomOut` of the old state |
| GalleryViewer.Viewer.SelectTab | src/pages/4.gallery/Gallery.jsx:130-133 | the tab click plus its reset effect give `GalleryState.SelectTab` of the old state |
| GalleryViewer.Viewer.MarkLoaded | src/pages/4.gallery/Gallery.jsx:186 | the fields become `GalleryState.MarkLoaded` of the old state |
| GalleryViewer.Viewer.KeyDown | src/pages/4.gallery/Gallery.jsx:113-124 | the listener's sequence of checks gives `GalleryState.KeyDown` of the old state |
| HeroCarousel.Carousel.constructor | src/pages/1.home/component/HeroBanner1.jsx:8-9 | the carousel starts on slide 0, not paused |
| HeroCarousel.Carousel.GoNext | src/pages/1.home/component/HeroBanner1.jsx:25 | the index takes the wrapping forward step; paused is unchanged |
| HeroCarousel.Carousel.GoPrev | src/pages/1.home/component/HeroBanner1.jsx:26 | the index takes the wrapping backward step; paused is unchanged |
| HeroCarousel.Carousel.SetIndex | src/pages/1.home/component/HeroBanner1.jsx:96-99 | a dot click sets the index to exactly that dot; paused is unchanged |
| HeroCarousel.Carousel.MouseEnter | src/pages/1.home/component/HeroBanner1.jsx:31 | hovering pauses and leaves the index |
| HeroCarousel.Carousel.MouseLeave | src/pages/1.home/component/HeroBanner1.jsx:32 | leaving unpauses and leaves the index |
| HeroCarousel.Carousel.Tick | src/pages/1.home/component/HeroBanner1.jsx:16-20 | when not paused a tick is the forward step of `goNext`; when paused it changes nothing |
| HeroCarousel.Carousel.SlideOffset | src/pages/1.home/component/HeroBanner1.jsx:37 | the shift `index * 100` is a whole number of slides within [0, (total - 1) * 100] |
| HeroCarousel.ThreeBannersCycle | src/data/banner.js:1-17 | with the three shipped banners, slides go 0, 1, 2, 0 forward and 0, 2, 1, 0 back |
| HeroCarousel.AutoplayCycles | src/pages/1.home/component/HeroBanner1.jsx:18-20 | `j` steps of `Cyclic.Advance` from slide 0 land on slide `j`, for every slide in turn |
| HeroCarousel.RunAutoplay | src/pages/1.home/component/HeroBanner1.jsx:18-20 | `k` interval firings on an unpaused carousel move the index `k` steps round the ring (`Cyclic.Advance`) and keep it unpaused |

## Left out

- `src/pages/1.home/component/HeroBanner.jsx` is not part of this model. It wraps a third-party slider library, and its preload gate waits on asynchronous browser image callbacks.
- The scroll lock on `document.body.style.overflow` is a DOM side effect and is not modelled. The window `keydown` listener registration and removal and the `stopPropagation` calls are not modelled either.
- The `setInterval`/`clearInterval` scheduling is a timer and is not modelled. The interval's callback is the explicit `Tick` operation.
- `import.meta.glob` and the `videos.json` import are asset loading. The three lists are constructor parameters instead.
- The WHATWG URL parser is abstract (the `parse` parameter). Its internals and percent-decoding are not modelled.
- Floating-point drift in `zoom ± 0.3` is not modelled, and neither is the `Math.round(zoom * 100)` percentage display. Zoom is an exact real.
- Rendering is not modelled. This covers JSX, class strings, icons, router links and the hiding of the prev/next buttons when the list has one item. The keyboard still navigates in that case, and the model covers it.
- The `typeof url === "string"` guards are not modelled. Every URL in the model is a string.
- GalleryState.SelectTab / GalleryViewer.Viewer.SelectTab: a tab click and its reset effect are one step, so neither member has the render React performs between them. That render has the new tab and the old index. The overlay blocks mouse clicks on the tabs, but the tab buttons stay reachable from the keyboard while the lightbox is open. Switching to a shorter list then makes that render index past its end. On the videos tab, `activeMedia[activeIndex].url` (`Gallery.jsx:333`) throws there. `GalleryState.ClickTab`, `StaleIndexRender` and `StaleIndexExample` state this intermediate view, and show that it breaks the invariant.
