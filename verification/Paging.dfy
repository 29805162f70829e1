/**
  Descending page arithmetic over dense indices (`/txs`, `/blocks`, `/epochs`,
  `/consensus/blocks`) against the plain LIMIT/OFFSET reading of the newest-first list.
 */
module Paging {
  import opened Wrappers
  import opened Sql

  const DEFAULT_PER_PAGE: nat := 25
  const MAX_PER_PAGE: nat := 100

  /** `clamp_per_page`. */
  function ClampPerPage(requested: Option<nat>): nat {
    Min(Max(requested.UnwrapOr(DEFAULT_PER_PAGE), 1), MAX_PER_PAGE)
  }

  datatype PageParams = PageParams(page: nat, perPage: nat, offset: nat)

  /** `page_params`: the SQLite offset saturates. */
  function Params(page: Option<nat>, perPage: Option<nat>): PageParams {
    var size := ClampPerPage(perPage);
    PageParams(page.UnwrapOr(0), size, SaturatingMul(page.UnwrapOr(0), size))
  }

  datatype Bounds = Bounds(low: nat, high: nat)

  /** `desc_page_bounds`: the multiplication is checked, the subtractions cannot go below zero. */
  function DescPageBounds(total: nat, page: nat, perPage: nat): (bounds: Option<Bounds>)
    ensures bounds.Some? ==> bounds.value.low <= bounds.value.high < total
  {
    match CheckedMul(page, perPage)
    case None => None
    case Some(skip) =>
      if skip >= total then None
      else
        var high: nat := total - 1 - skip;
        Some(Bounds(SaturatingSub(high, SaturatingSub(perPage, 1)), high))
  }

  /** `low..=high`, newest first. */
  function Countdown(high: nat, count: nat): seq<nat>
    requires count <= high + 1
  {
    seq(count, i requires 0 <= i < count => high - i)
  }

  /** `desc_page_items`. */
  function DescPageItems(total: nat, page: nat, perPage: nat): seq<nat> {
    match DescPageBounds(total, page, perPage)
    case None => []
    case Some(b) => Countdown(b.high, b.high - b.low + 1)
  }

  /** `consensus_page_numbers`: the same, shifted up by one. */
  function ConsensusPageNumbers(total: nat, page: nat, perPage: nat): seq<nat> {
    var items := DescPageItems(total, page, perPage);
    seq(|items|, i requires 0 <= i < |items| => items[i] + 1)
  }

  /** All indices `0..total`, newest first. */
  function Descending(total: nat): seq<nat> {
    if total == 0 then [] else Countdown(total - 1, total)
  }

  /** All output numbers `1..=total`, newest first. */
  function DescendingFromOne(total: nat): seq<nat> {
    seq(total, i requires 0 <= i < total => total - i)
  }

  /**
    The arithmetic page is the LIMIT/OFFSET slice of the descending list, with the exact
    and with the saturated offset, exactly when the page size is positive (or there is
    nothing to page): with page size 0 every page would be the newest item.
   */
  lemma DescPageIsSlice(total: nat, page: nat, perPage: nat)
    requires total <= U64_MAX
    ensures DescPageItems(total, page, perPage) == Slice(Descending(total), perPage, page * perPage)
            <==> perPage >= 1 || total == 0
    ensures Slice(Descending(total), perPage, page * perPage)
            == Slice(Descending(total), perPage, SaturatingMul(page, perPage))
  {
    var items, slice := DescPageItems(total, page, perPage), Slice(Descending(total), perPage, page * perPage);
    if perPage >= 1 && page * perPage < total {
      assert |items| == |slice|;
      assert forall i :: 0 <= i < |items| ==> items[i] == slice[i];
    } else if perPage == 0 && total != 0 {
      assert page * perPage == 0;
      assert |items| == 1 && |slice| == 0;
    }
  }

  /** What a route makes of its query: page 0 and 25 rows unless asked, at least 1 and at most 100 rows. */
  lemma ParamsFollowQuery(page: Option<nat>, perPage: Option<nat>)
    ensures var p := Params(page, perPage);
            && (page == None ==> p.page == 0)
            && (forall k :: page == Some(k) ==> p.page == k)
            && (perPage == None ==> p.perPage == 25)
            && (perPage == Some(0) ==> p.perPage == 1)
            && (forall k :: perPage == Some(k) && 1 <= k <= 100 ==> p.perPage == k)
            && (forall k :: perPage == Some(k) && 100 < k ==> p.perPage == 100)
            && (p.page * p.perPage <= U64_MAX ==> p.offset == p.page * p.perPage)
            && (p.page * p.perPage > U64_MAX ==> p.offset == U64_MAX)
  {
  }

  /**
    Every route clamps the page size, so for any query it serves the slice of the page asked
    for, and the SQLite routes read the same one with their saturated offset.
   */
  lemma RoutePagesAreSlices(total: nat, page: Option<nat>, perPage: Option<nat>)
    requires total <= U64_MAX
    ensures var p, asked := Params(page, perPage), if page.Some? then page.value else 0;
            var size := if perPage.None? then 25 else if perPage.value == 0 then 1
                        else if perPage.value > 100 then 100 else perPage.value;
            && DescPageItems(total, p.page, p.perPage) == Slice(Descending(total), size, asked * size)
            && Slice(Descending(total), p.perPage, p.offset) == Slice(Descending(total), size, asked * size)
            && |DescPageItems(total, p.page, p.perPage)| <= size
  {
    var p := Params(page, perPage);
    ParamsFollowQuery(page, perPage);
    DescPageIsSlice(total, p.page, p.perPage);
  }

  /** The same over output numbers, for which the arithmetic is shifted by one. */
  lemma ConsensusPageIsSlice(total: nat, page: nat, perPage: nat)
    requires total <= U64_MAX
    ensures ConsensusPageNumbers(total, page, perPage) == Slice(DescendingFromOne(total), perPage, page * perPage)
            <==> perPage >= 1 || total == 0
    ensures Slice(DescendingFromOne(total), perPage, page * perPage)
            == Slice(DescendingFromOne(total), perPage, SaturatingMul(page, perPage))
    ensures forall n :: n in ConsensusPageNumbers(total, page, perPage) ==> 1 <= n <= total
  {
    var items, numbers := DescPageItems(total, page, perPage), ConsensusPageNumbers(total, page, perPage);
    var list, slice := Descending(total), Slice(Descending(total), perPage, page * perPage);
    DescPageIsSlice(total, page, perPage);
    SliceOfShifted(total, perPage, page * perPage);
    var shifted := Slice(DescendingFromOne(total), perPage, page * perPage);
    assert |numbers| == |items| && |shifted| == |slice|;
    if numbers == shifted {
      assert forall i :: 0 <= i < |items| ==> items[i] + 1 == numbers[i] == shifted[i] == slice[i] + 1;
      assert items == slice;
    }
    if items == slice {
      assert numbers == shifted;
    }
  }

  lemma SliceOfShifted(total: nat, limit: nat, offset: nat)
    ensures var plain := Slice(Descending(total), limit, offset);
            var shifted := Slice(DescendingFromOne(total), limit, offset);
            |plain| == |shifted| && forall i :: 0 <= i < |plain| ==> shifted[i] == plain[i] + 1
  {
  }

  lemma OnePage(total: nat, page: nat, perPage: nat)
    requires total <= U64_MAX && perPage >= 1
    ensures DescPageItems(total, page, perPage) == Slice(Descending(total), perPage, page * perPage)
  {
    DescPageIsSlice(total, page, perPage);
  }

  function ArithmeticPages(total: nat, perPage: nat, pages: nat): seq<nat> {
    if pages == 0 then []
    else ArithmeticPages(total, perPage, pages - 1) + DescPageItems(total, pages - 1, perPage)
  }

  lemma {:induction false} ArithmeticPagesAreSlices(total: nat, perPage: nat, pages: nat)
    requires total <= U64_MAX && perPage >= 1
    ensures ArithmeticPages(total, perPage, pages) == Pages(Descending(total), perPage, pages)
  {
    if pages != 0 {
      var page := pages - 1;
      ArithmeticPagesAreSlices(total, perPage, page);
      OnePage(total, page, perPage);
      assert ArithmeticPages(total, perPage, pages)
          == ArithmeticPages(total, perPage, page) + DescPageItems(total, page, perPage);
    }
  }

  /** The pages partition `0..total`: enough of them concatenate to the reversed range. */
  lemma PagesPartition(total: nat, perPage: nat, pages: nat)
    requires total <= U64_MAX && perPage >= 1 && pages * perPage >= total
    ensures ArithmeticPages(total, perPage, pages) == Descending(total)
    ensures |ArithmeticPages(total, perPage, pages)| == total
    ensures forall i :: 0 <= i < total ==> ArithmeticPages(total, perPage, pages)[i] == total - 1 - i
  {
    ArithmeticPagesAreSlices(total, perPage, pages);
    PagesConcatenate(Descending(total), perPage, pages);
  }

  function ConsensusPages(total: nat, perPage: nat, pages: nat): seq<nat> {
    if pages == 0 then []
    else ConsensusPages(total, perPage, pages - 1) + ConsensusPageNumbers(total, pages - 1, perPage)
  }

  lemma {:induction false} ConsensusPagesAreSlices(total: nat, perPage: nat, pages: nat)
    requires total <= U64_MAX && perPage >= 1
    ensures ConsensusPages(total, perPage, pages) == Pages(DescendingFromOne(total), perPage, pages)
  {
    if pages != 0 {
      var page := pages - 1;
      ConsensusPagesAreSlices(total, perPage, page);
      OneConsensusPage(total, page, perPage);
      assert ConsensusPages(total, perPage, pages)
          == ConsensusPages(total, perPage, page) + ConsensusPageNumbers(total, page, perPage);
    }
  }

  lemma OneConsensusPage(total: nat, page: nat, perPage: nat)
    requires total <= U64_MAX && perPage >= 1
    ensures ConsensusPageNumbers(total, page, perPage) == Slice(DescendingFromOne(total), perPage, page * perPage)
  {
    ConsensusPageIsSlice(total, page, perPage);
  }

  /** The pages partition `1..=total` as well. */
  lemma ConsensusPagesPartition(total: nat, perPage: nat, pages: nat)
    requires total <= U64_MAX && perPage >= 1 && pages * perPage >= total
    ensures ConsensusPages(total, perPage, pages) == DescendingFromOne(total)
    ensures |ConsensusPages(total, perPage, pages)| == total
    ensures forall i :: 0 <= i < total ==> ConsensusPages(total, perPage, pages)[i] == total - i
  {
    ConsensusPagesAreSlices(total, perPage, pages);
    PagesConcatenate(DescendingFromOne(total), perPage, pages);
  }
}
