/** Rectangles of guac_rect.cpp and the cost heuristic of guac_surface.cpp. */
module Geometry {
  import opened Numbers

  datatype Rect = Rect(x: int, y: int, width: int, height: int) {
    predicate Has(px: int, py: int) {
      x <= px < x + width && y <= py < y + height
    }

    /** No side of this rectangle sticks out of `r`. */
    predicate Inside(r: Rect) {
      r.x <= x && r.y <= y && x + width <= r.x + r.width && y + height <= r.y + r.height
    }

    predicate Empty() {
      width <= 0 || height <= 0
    }

    /** Every pixel of this rectangle lies inside a w by h surface. */
    predicate Within(w: int, h: int) {
      0 <= x && 0 <= y && x + width <= w && y + height <= h
    }
  }

  /** guac_common_rect_extend: the least rectangle holding both. */
  function Extend(r: Rect, add: Rect): (e: Rect)
    ensures forall px, py :: r.Has(px, py) || add.Has(px, py) ==> e.Has(px, py)
    ensures forall w, h :: r.Within(w, h) && add.Within(w, h) ==> e.Within(w, h)
    ensures !r.Empty() || !add.Empty() ==> e.width >= r.width && e.height >= r.height
  {
    var left, top := Min(r.x, add.x), Min(r.y, add.y);
    var right, bottom := Max(r.x + r.width, add.x + add.width), Max(r.y + r.height, add.y + add.height);
    Rect(left, top, right - left, bottom - top)
  }

  /** No rectangle that holds both arguments is smaller than their extension. */
  lemma ExtendIsLeast(r: Rect, add: Rect, bound: Rect)
    requires !r.Empty() && !add.Empty()
    requires forall px, py :: r.Has(px, py) || add.Has(px, py) ==> bound.Has(px, py)
    ensures forall px, py :: Extend(r, add).Has(px, py) ==> bound.Has(px, py)
  {
    assert r.Has(r.x, r.y) && r.Has(r.x + r.width - 1, r.y + r.height - 1);
    assert add.Has(add.x, add.y) && add.Has(add.x + add.width - 1, add.y + add.height - 1);
  }

  /** guac_common_rect_constrain: exactly the common pixels. */
  function Constrain(r: Rect, max: Rect): (c: Rect)
    ensures forall px, py :: c.Has(px, py) <==> r.Has(px, py) && max.Has(px, py)
    ensures c.Inside(max) && c.Inside(r)
  {
    var left, top := Max(r.x, max.x), Max(r.y, max.y);
    var right, bottom := Min(r.x + r.width, max.x + max.width), Min(r.y + r.height, max.y + max.height);
    Rect(left, top, right - left, bottom - top)
  }

  // ----- cost heuristic

  const NEGLIGIBLE_WIDTH := 64
  const NEGLIGIBLE_HEIGHT := 64
  const DATA_FACTOR := 16
  const BASE_COST := 4096
  const NEGLIGIBLE_INCREASE := 4
  const FILL_PATTERN_FACTOR := 3

  function Cost(r: Rect): int {
    BASE_COST + r.width * r.height
  }

  /** Cost of an update, reduced when it carries no image data. */
  function UpdateCost(r: Rect, rectOnly: bool): int {
    if rectOnly then Cost(r) / DATA_FACTOR else Cost(r)
  }

  /** __guac_common_should_combine on a surface that is dirty in `dirty`. */
  predicate ShouldCombine(dirty: Rect, rect: Rect, rectOnly: bool) {
    var combined := Extend(dirty, rect);
    var combinedCost := Cost(combined);
    var dirtyCost := Cost(dirty);
    var updateCost := UpdateCost(rect, rectOnly);
    || (combined.width <= NEGLIGIBLE_WIDTH && combined.height <= NEGLIGIBLE_HEIGHT)
    || combinedCost <= updateCost + dirtyCost
    || combinedCost - dirtyCost <= dirtyCost / NEGLIGIBLE_INCREASE
    || combinedCost - updateCost <= updateCost / NEGLIGIBLE_INCREASE
    || (&& rect.x == dirty.x && rect.y == dirty.y + dirty.height
        && combinedCost <= (dirtyCost + updateCost) * FILL_PATTERN_FACTOR)
  }

  lemma AreaAtMost(a: int, b: int, c: int, d: int)
    requires 0 <= a <= c && 0 <= b <= d
    ensures 0 <= a * b <= c * d
  {
    assert a * b <= c * b <= c * d;
  }

  /** Whichever of the five routes says combine, the result costs at most three times the parts. */
  lemma CombinedCostBounded(dirty: Rect, rect: Rect, rectOnly: bool)
    requires !dirty.Empty() && !rect.Empty()
    requires ShouldCombine(dirty, rect, rectOnly)
    ensures Cost(Extend(dirty, rect)) <= 3 * (Cost(dirty) + UpdateCost(rect, rectOnly))
  {
    var combined := Extend(dirty, rect);
    AreaAtMost(1, 1, dirty.width, dirty.height);
    AreaAtMost(1, 1, rect.width, rect.height);
    if combined.width <= NEGLIGIBLE_WIDTH && combined.height <= NEGLIGIBLE_HEIGHT {
      AreaAtMost(combined.width, combined.height, NEGLIGIBLE_WIDTH, NEGLIGIBLE_HEIGHT);
    }
  }

  // ----- the same computation on the machine's integers

  newtype int32 = i: int | -0x8000_0000 <= i < 0x8000_0000

  /**
   * Largest surface area for which no intermediate result overflows: the product is computed only for parts that
   * cost less than the whole.
   */
  const MAX_AREA := 715823787

  /** On a surface of one pixel more, all tests fail up to the last, whose product overflows. */
  lemma OnePixelMore(dirty: Rect, rect: Rect)
    requires dirty == Rect(0, 0, 73652, 5622) && rect == Rect(0, 5622, 73651, 4097)
    ensures dirty.Within(73652, 9719) && rect.Within(73652, 9719) && 73652 * 9719 == MAX_AREA + 1
    ensures var combined, parts := Cost(Extend(dirty, rect)), Cost(dirty) + Cost(rect);
      && combined > parts && combined - Cost(dirty) > Cost(dirty) / 4 && combined - Cost(rect) > Cost(rect) / 4
      && Extend(dirty, rect).width > NEGLIGIBLE_WIDTH && parts * 3 >= 0x8000_0000
  {}

  lemma RectFits(r: Rect, w: int, h: int)
    requires !r.Empty() && r.Within(w, h) && w * h <= MAX_AREA
    ensures 0 < r.width * r.height <= w * h
    ensures 0 < w <= MAX_AREA && 0 < h <= MAX_AREA
  {
    AreaAtMost(r.width, r.height, w, h);
    AreaAtMost(1, 1, r.width, r.height);
    AreaAtMost(w, 1, w, h);
    AreaAtMost(1, h, w, h);
  }

  /** Two rectangles, one right below the other, share no pixel, so their areas add up. */
  lemma StackedFit(dirty: Rect, rect: Rect, w: int, h: int)
    requires !dirty.Empty() && !rect.Empty() && dirty.Within(w, h) && rect.Within(w, h)
    requires rect.y == dirty.y + dirty.height
    ensures dirty.width * dirty.height + rect.width * rect.height <= w * h
  {
    AreaAtMost(dirty.width, dirty.height, w, dirty.height);
    AreaAtMost(rect.width, rect.height, w, rect.height);
    assert w * dirty.height + w * rect.height == w * (dirty.height + rect.height);
    AreaAtMost(w, dirty.height + rect.height, w, h);
  }

  /** should_combine as compiled: every subexpression is an int32, in the source's order of evaluation. */
  method ShouldCombine32(dirty: Rect, rect: Rect, rectOnly: bool, ghost w: int, ghost h: int) returns (r: bool)
    requires !dirty.Empty() && !rect.Empty() && dirty.Within(w, h) && rect.Within(w, h)
    requires w * h <= MAX_AREA
    ensures r == ShouldCombine(dirty, rect, rectOnly)
  {
    RectFits(dirty, w, h);
    RectFits(rect, w, h);
    var combined := Extend(dirty, rect);
    assert combined.Within(w, h);
    RectFits(combined, w, h);
    if combined.width as int32 <= 64 && combined.height as int32 <= 64 {
      return true;
    }
    var combinedCost: int32 := 4096 + (combined.width * combined.height) as int32;
    var dirtyCost: int32 := 4096 + (dirty.width * dirty.height) as int32;
    var updateCost: int32 := 4096 + (rect.width * rect.height) as int32;
    if rectOnly {
      updateCost := updateCost / 16;
    }
    if combinedCost <= updateCost + dirtyCost {
      return true;
    }
    if combinedCost - dirtyCost <= dirtyCost / 4 {
      return true;
    }
    if combinedCost - updateCost <= updateCost / 4 {
      return true;
    }
    if rect.x as int32 == dirty.x as int32 && rect.y as int32 == dirty.y as int32 + dirty.height as int32 {
      StackedFit(dirty, rect, w, h);
      if combinedCost <= (dirtyCost + updateCost) * 3 {
        return true;
      }
    }
    return false;
  }
}
