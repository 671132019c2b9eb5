/** The client's pagination bar: the window of page numbers `getPageNumbers` builds,
    and the targets and states of the Previous, page and Next buttons. */
module Pagination {
  import opened Js

  /** An entry of the window: a page number or the `'...'` placeholder. */
  datatype PageItem = Num(n: int) | Ellipsis

  const MaxVisible: int := 5

  /** The pages `lo`, `lo + 1`, ..., `hi`; empty when `lo > hi`. */
  function Range(lo: int, hi: int): (r: seq<PageItem>)
    ensures |r| == if lo <= hi then hi - lo + 1 else 0
    ensures forall k :: 0 <= k < |r| ==> r[k] == Num(lo + k)
    decreases hi - lo
  {
    if lo > hi then [] else Range(lo, hi - 1) + [Num(hi)]
  }

  /** The window for current page `c` of `t`: all pages when there are at most five;
      otherwise the first and last pages, a band of pages near `c`, and `'...'` for each
      run of hidden pages. */
  function Window(c: int, t: int): seq<PageItem>
  {
    if t <= MaxVisible then Range(1, t)
    else if c <= 3 then Range(1, 4) + [Ellipsis, Num(t)]
    else if c >= t - 2 then [Num(1), Ellipsis] + Range(t - 3, t)
    else [Num(1), Ellipsis] + Range(c - 1, c + 1) + [Ellipsis, Num(t)]
  }

  /** `for (let i = lo; i <= hi; i++) pages.push(i)` */
  method PushRange(pages: seq<PageItem>, lo: int, hi: int) returns (r: seq<PageItem>)
    ensures r == pages + Range(lo, hi)
  {
    r := pages;
    var i := lo;
    while i <= hi
      invariant lo <= i <= (if lo <= hi then hi + 1 else lo)
      invariant r == pages + Range(lo, i - 1)
      decreases hi - i
    {
      r := r + [Num(i)];
      i := i + 1;
    }
  }

  /** `getPageNumbers` */
  method GetPageNumbers(c: int, t: int) returns (pages: seq<PageItem>)
    ensures pages == Window(c, t)
  {
    pages := [];
    if t <= MaxVisible {
      pages := PushRange(pages, 1, t);
    } else {
      if c <= 3 {
        pages := PushRange(pages, 1, 4);
        pages := pages + [Ellipsis];
        pages := pages + [Num(t)];
      } else if c >= t - 2 {
        pages := pages + [Num(1)];
        pages := pages + [Ellipsis];
        pages := PushRange(pages, t - 3, t);
      } else {
        pages := pages + [Num(1)];
        pages := pages + [Ellipsis];
        pages := PushRange(pages, c - 1, c + 1);
        pages := pages + [Ellipsis];
        pages := pages + [Num(t)];
      }
    }
  }

  // ---------------------------------------------------------------------------
  // The shape of the window
  // ---------------------------------------------------------------------------

  /** Page numbers strictly increase from left to right. */
  ghost predicate Increasing(w: seq<PageItem>)
  {
    forall i, j :: 0 <= i < j < |w| && w[i].Num? && w[j].Num? ==> w[i].n < w[j].n
  }

  /** The window stands for exactly the pages 1 to `t`: it starts at 1 and ends at `t`,
      neighbouring numbers are consecutive pages, and each `'...'` sits between two
      numbers and hides at least one page. */
  ghost predicate Faithful(w: seq<PageItem>, t: int)
  {
    && |w| > 0 && w[0] == Num(1) && w[|w| - 1] == Num(t)
    && (forall k :: 0 <= k < |w| - 1 && w[k].Num? && w[k + 1].Num? ==> w[k + 1].n == w[k].n + 1)
    && (forall k :: 0 < k < |w| - 1 && w[k].Ellipsis? ==>
          w[k - 1].Num? && w[k + 1].Num? && w[k + 1].n >= w[k - 1].n + 2)
  }

  /** At most seven entries, faithful to pages 1 to `t`, increasing, and within range. */
  ghost predicate WellShaped(w: seq<PageItem>, t: int)
  {
    && |w| <= 7
    && Faithful(w, t)
    && Increasing(w)
    && (forall k :: 0 <= k < |w| && w[k].Num? ==> 1 <= w[k].n <= t)
  }

  lemma SmallShape(t: int)
    requires 2 <= t <= MaxVisible
    ensures WellShaped(Range(1, t), t)
  {
  }

  lemma StartShape(t: int)
    requires t > MaxVisible
    ensures WellShaped([Num(1), Num(2), Num(3), Num(4), Ellipsis, Num(t)], t)
  {
  }

  lemma EndShape(t: int)
    requires t > MaxVisible
    ensures WellShaped([Num(1), Ellipsis, Num(t - 3), Num(t - 2), Num(t - 1), Num(t)], t)
  {
  }

  lemma MiddleShape(c: int, t: int)
    requires t > MaxVisible && 3 < c < t - 2
    ensures WellShaped([Num(1), Ellipsis, Num(c - 1), Num(c), Num(c + 1), Ellipsis, Num(t)], t)
  {
  }

  /** With more than one page the window has at most seven entries, starts at 1, ends at
      `t`, lists increasing pages within 1 to `t`, and hides no page without a `'...'`. */
  lemma WindowShape(c: int, t: int)
    requires t >= 2
    ensures WellShaped(Window(c, t), t)
  {
    if t <= MaxVisible {
      SmallShape(t);
    } else if c <= 3 {
      NearStart(c, t);
      StartShape(t);
    } else if c >= t - 2 {
      NearEnd(c, t);
      EndShape(t);
    } else {
      InTheMiddle(c, t);
      MiddleShape(c, t);
    }
  }

  /** The current page is always shown when it is a real page. */
  lemma WindowShowsCurrent(c: int, t: int)
    requires 1 <= c <= t
    ensures Num(c) in Window(c, t)
  {
    var w := Window(c, t);
    if t <= MaxVisible {
      assert w[c - 1] == Num(c);
    } else if c <= 3 {
      assert w[c - 1] == Num(c);
    } else if c >= t - 2 {
      assert w[c - t + 5] == Num(c);
    } else {
      assert w[3] == Num(c);
    }
  }

  /** Up to five pages are all listed, in order, with no `'...'`. */
  lemma FewPagesAllShown(c: int, t: int)
    requires 1 <= t <= MaxVisible
    ensures |Window(c, t)| == t
    ensures forall k :: 0 <= k < t ==> Window(c, t)[k] == Num(k + 1)
  {
  }

  /** More than five pages: near the start the first four and the last page. */
  lemma NearStart(c: int, t: int)
    requires t > MaxVisible && c <= 3
    ensures Window(c, t) == [Num(1), Num(2), Num(3), Num(4), Ellipsis, Num(t)]
  {
  }

  /** Near the end the first page and the last four. */
  lemma NearEnd(c: int, t: int)
    requires t > MaxVisible && 3 < c && c >= t - 2
    ensures Window(c, t) == [Num(1), Ellipsis, Num(t - 3), Num(t - 2), Num(t - 1), Num(t)]
  {
  }

  /** In between, the first page, `c` with its neighbours, and the last page. */
  lemma InTheMiddle(c: int, t: int)
    requires t > MaxVisible && 3 < c < t - 2
    ensures Window(c, t) == [Num(1), Ellipsis, Num(c - 1), Num(c), Num(c + 1), Ellipsis, Num(t)]
  {
  }

  // ---------------------------------------------------------------------------
  // Buttons
  // ---------------------------------------------------------------------------

  /** What a button does when clicked: `None` when it is disabled or emits nothing. */
  type Click = Option<int>

  /** Previous: disabled on page 1, otherwise emits `c - 1`. */
  function PreviousClick(c: int): (r: Click)
    ensures r.None? <==> c == 1
    ensures r.Some? ==> r.value == c - 1
  {
    if c == 1 then None else Some(c - 1)
  }

  /** Next: disabled on the last page, otherwise emits `c + 1`. */
  function NextClick(c: int, t: int): (r: Click)
    ensures r.None? <==> c == t
    ensures r.Some? ==> r.value == c + 1
  {
    if c == t then None else Some(c + 1)
  }

  /** A page button emits its number; a `'...'` button is disabled and emits nothing. */
  function PageClick(item: PageItem): (r: Click)
    ensures r.None? <==> item.Ellipsis?
    ensures item.Num? ==> r == Some(item.n)
  {
    match item
    case Num(n) => Some(n)
    case Ellipsis => None
  }

  /** The button of the current page is highlighted. */
  predicate Active(item: PageItem, c: int)
  {
    item.Num? && item.n == c
  }

  /** The rendered bar: the two arrow buttons and one button per window entry. */
  datatype Bar = Bar(previous: Click, pages: seq<PageItem>, next: Click)

  /** The component: nothing at all with one page or none. */
  function Render(c: int, t: int): (r: Option<Bar>)
    ensures r.None? <==> t <= 1
    ensures r.Some? ==> r.value.pages == Window(c, t)
    ensures r.Some? ==> r.value.previous == PreviousClick(c) && r.value.next == NextClick(c, t)
  {
    if t <= 1 then None else Some(Bar(PreviousClick(c), Window(c, t), NextClick(c, t)))
  }

  /** On a real page, every click of the bar leads to a real page, and exactly one page
      button is highlighted. */
  lemma BarStaysInRange(c: int, t: int)
    requires 2 <= t && 1 <= c <= t
    ensures var bar := Render(c, t).value;
      && (bar.previous.Some? ==> 1 <= bar.previous.value <= t)
      && (bar.next.Some? ==> 1 <= bar.next.value <= t)
      && (forall k :: 0 <= k < |bar.pages| && PageClick(bar.pages[k]).Some? ==>
            1 <= PageClick(bar.pages[k]).value <= t)
      && (exists k :: 0 <= k < |bar.pages| && Active(bar.pages[k], c))
      && (forall i, j ::
            0 <= i < |bar.pages| && 0 <= j < |bar.pages| && Active(bar.pages[i], c) && Active(bar.pages[j], c)
            ==> i == j)
  {
    var w := Window(c, t);
    WindowShape(c, t);
    WindowShowsCurrent(c, t);
    var k :| 0 <= k < |w| && w[k] == Num(c);
    assert Active(w[k], c);
    forall i, j | 0 <= i < |w| && 0 <= j < |w| && i != j && w[i].Num? && w[j].Num?
      ensures w[i].n != w[j].n
    {
      if i < j {
        assert w[i].n < w[j].n;
      } else {
        assert w[j].n < w[i].n;
      }
    }
  }

  /** An enabled arrow always leads to a page whose button is in the bar, so moving one
      page back or forward never jumps to a page hidden behind `'...'`. */
  lemma ArrowTargetsShown(c: int, t: int)
    requires 2 <= t && 1 <= c <= t
    ensures PreviousClick(c).Some? ==> Num(PreviousClick(c).value) in Window(c, t)
    ensures NextClick(c, t).Some? ==> Num(NextClick(c, t).value) in Window(c, t)
  {
    var w := Window(c, t);
    if t <= MaxVisible {
      FewPagesAllShown(c, t);
      if c > 1 { assert w[c - 2] == Num(c - 1); }
      if c < t { assert w[c] == Num(c + 1); }
    } else if c <= 3 {
      NearStart(c, t);
    } else if c >= t - 2 {
      NearEnd(c, t);
      if c < t { assert w[c - t + 6] == Num(c + 1); }
      assert w[c - t + 4] == Num(c - 1);
    } else {
      InTheMiddle(c, t);
    }
  }
}
