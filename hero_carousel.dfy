/**
 * The hand-rolled hero carousel: a slide index over a fixed banner list and a
 * `paused` flag set by hovering. The autoplay interval is not modelled as a
 * timer; each firing is the explicit operation `Tick`, and while `paused` no
 * interval exists, so a tick then changes nothing.
 */
module HeroCarousel {
  import Cyclic

  /** The number of banners the site ships. */
  const BannerCount: nat := 3

  class Carousel {
    const total: nat
    var index: nat
    var paused: bool

    predicate Valid()
      reads this
    {
      1 <= total && index < total
    }

    constructor (total: nat)
      requires 1 <= total
      ensures Valid() && this.total == total
      ensures index == 0 && !paused
    {
      this.total := total;
      index := 0;
      paused := false;
    }

    method GoNext()
      requires Valid()
      modifies this
      ensures Valid() && paused == old(paused)
      ensures index == Cyclic.Succ(old(index), total)
    {
      index := (index + 1) % total;
    }

    method GoPrev()
      requires Valid()
      modifies this
      ensures Valid() && paused == old(paused)
      ensures index == Cyclic.Pred(old(index), total)
    {
      index := (index - 1 + total) % total;
    }

    /** A click on pagination dot `i`. */
    method SetIndex(i: nat)
      requires Valid() && i < total
      modifies this
      ensures Valid() && index == i && paused == old(paused)
    {
      index := i;
    }

    method MouseEnter()
      requires Valid()
      modifies this
      ensures Valid() && paused && index == old(index)
    {
      paused := true;
    }

    method MouseLeave()
      requires Valid()
      modifies this
      ensures Valid() && !paused && index == old(index)
    {
      paused := false;
    }

    /** One firing of the autoplay interval: the step of `GoNext`, unless paused. */
    method Tick()
      requires Valid()
      modifies this
      ensures Valid() && paused == old(paused)
      ensures old(paused) ==> index == old(index)
      ensures !old(paused) ==> index == Cyclic.Succ(old(index), total)
    {
      if !paused {
        index := (index + 1) % total;
      }
    }

    /** The slide strip's shift, `index * 100` percent, is a whole slide within the strip. */
    function SlideOffset(): (r: nat)
      reads this
      requires Valid()
      ensures r <= (total - 1) * 100
      ensures r % 100 == 0 && r / 100 == index
    {
      index * 100
    }
  }

  /** With the three shipped banners, the slides cycle 0, 1, 2, 0 and back 0, 2, 1, 0. */
  lemma ThreeBannersCycle()
    ensures Cyclic.Succ(0, BannerCount) == 1 && Cyclic.Succ(1, BannerCount) == 2
    ensures Cyclic.Succ(2, BannerCount) == 0
    ensures Cyclic.Pred(0, BannerCount) == 2 && Cyclic.Pred(2, BannerCount) == 1
    ensures Cyclic.Pred(1, BannerCount) == 0
  {
  }

  /** `j` autoplay steps from slide 0 show slide `j`, for every slide in turn. */
  lemma AutoplayCycles(total: nat)
    ensures forall j | 0 <= j < total :: Cyclic.Advance(0, total, j) == j
  {
    forall j | 0 <= j < total
      ensures Cyclic.Advance(0, total, j) == j
    {
      Cyclic.AdvanceWithinTurn(0, total, j);
    }
  }

  /** `k` firings of the autoplay interval on an unpaused carousel. */
  method RunAutoplay(c: Carousel, k: nat)
    requires c.Valid() && !c.paused
    modifies c
    ensures c.Valid() && !c.paused
    ensures c.index == Cyclic.Advance(old(c.index), c.total, k)
  {
    var j := 0;
    while j < k
      invariant 0 <= j <= k
      invariant c.Valid() && !c.paused
      invariant Cyclic.Advance(old(c.index), c.total, k) == Cyclic.Advance(c.index, c.total, k - j)
    {
      Cyclic.AdvanceAdd(c.index, c.total, 1, k - j - 1);
      c.Tick();
      j := j + 1;
    }
  }
}
