/**
 * The gallery page's state hooks as an object: each handler updates the fields
 * in place, and its contract ties the new state to the corresponding transition
 * of `GalleryState` applied to the old one.
 */
module GalleryViewer {
  import opened Wrappers
  import GalleryState

  class Viewer {
    const catalog: GalleryState.Catalog
    var activeTab: GalleryState.Tab
    var activeIndex: Option<nat>
    var zoom: real
    var loaded: set<nat>

    /** The fields as a value. */
    function State(): GalleryState.View
      reads this
    {
      GalleryState.View(activeTab, activeIndex, zoom, loaded)
    }

    predicate Valid()
      reads this
    {
      GalleryState.Inv(catalog, State())
    }

    /** The page mounts with its three catalog lists. */
    constructor (office: seq<string>, installation: seq<string>, videos: seq<GalleryState.Video>)
      ensures catalog == GalleryState.Catalog(office, installation, videos)
      ensures State() == GalleryState.Initial && Valid()
    {
      catalog := GalleryState.Catalog(office, installation, videos);
      activeTab := GalleryState.Photos;
      activeIndex := None;
      zoom := 1.0;
      loaded := {};
    }

    method Open(i: nat)
      requires Valid() && i < |GalleryState.ActiveMedia(catalog, activeTab)|
      modifies this
      ensures Valid() && State() == GalleryState.Open(catalog, old(State()), i)
    {
      activeIndex := Some(i);
      zoom := 1.0;
    }

    method Close()
      requires Valid()
      modifies this
      ensures Valid() && State() == GalleryState.Close(old(State()))
    {
      activeIndex := None;
    }

    method Next()
      requires Valid() && activeIndex.Some?
      modifies this
      ensures Valid() && State() == GalleryState.Next(catalog, old(State()))
    {
      var n := |GalleryState.ActiveMedia(catalog, activeTab)|;
      activeIndex := Some((activeIndex.value + 1) % n);
      zoom := 1.0;
    }

    method Prev()
      requires Valid() && activeIndex.Some?
      modifies this
      ensures Valid() && State() == GalleryState.Prev(catalog, old(State()))
    {
      var n := |GalleryState.ActiveMedia(catalog, activeTab)|;
      activeIndex := Some((activeIndex.value - 1 + n) % n);
      zoom := 1.0;
    }

    method ZoomIn()
      requires Valid()
      modifies this
      ensures Valid() && State() == GalleryState.ZoomIn(old(State()))
    {
      if activeTab != GalleryState.Videos {
        zoom := GalleryState.Min(zoom + 0.3, 3.0);
      }
    }

    method ZoomOut()
      requires Valid()
      modifies this
      ensures Valid() && State() == GalleryState.ZoomOut(old(State()))
    {
      if activeTab != GalleryState.Videos {
        zoom := GalleryState.Max(zoom - 0.3, 1.0);
      }
    }

    /**
     * A tab click, followed by the reset effect that runs when `activeTab` changed;
     * the render between the two is not a state of this object.
     */
    method SelectTab(t: GalleryState.Tab)
      requires Valid()
      modifies this
      ensures Valid() && State() == GalleryState.SelectTab(old(State()), t)
    {
      var changed := t != activeTab;
      activeTab := t;
      if changed {
        activeIndex := None;
        zoom := 1.0;
      }
    }

    method MarkLoaded(i: nat)
      requires Valid()
      modifies this
      ensures Valid() && State() == GalleryState.MarkLoaded(old(State()), i)
    {
      loaded := loaded + {i};
    }

    /** The window `keydown` listener. */
    method KeyDown(key: string)
      requires Valid()
      modifies this
      ensures Valid() && State() == GalleryState.KeyDown(catalog, old(State()), key)
    {
      if activeIndex == None {
        return;
      }
      if key == "Escape" {
        Close();
      }
      if key == "ArrowRight" {
        Next();
      }
      if key == "ArrowLeft" {
        Prev();
      }
      if activeTab != GalleryState.Videos {
        if key == "+" {
          ZoomIn();
        }
        if key == "-" {
          ZoomOut();
        }
      }
    }
  }
}
