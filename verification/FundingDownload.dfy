/** The funding-rate download. Its cursor stays on the last record received, so consecutive pages overlap by one
    record, and a page that holds only the record already seen ends the loop. */
module FundingDownload {
  import opened Wrappers
  import opened History
  import opened Sequences

  /** A funding rate is stamped with its funding time; `rate` stands for the symbol and the rate. */
  datatype Rate = Rate(rate: int)
  type Funding = Record<Rate>

  function LastTime(page: seq<Funding>): int
    requires page != []
  {
    page[|page| - 1].time
  }

  /** The loop breaks on a page that holds nothing but the record under the cursor. */
  predicate OnlyCursor(page: seq<Funding>, cursor: int) {
    |page| == 1 && page[0].time == cursor
  }

  ghost predicate PageAhead(page: seq<Funding>, cursor: int) {
    page != [] && !OnlyCursor(page, cursor) ==> cursor < LastTime(page)
  }

  /** On strictly increasing times every page that does not end the loop moves the cursor. */
  lemma PageMovesCursor(h: seq<Funding>, cursor: int, till: int, size: nat)
    requires Ascending(h) && cursor != NOT_SENT
    ensures PageAhead(Page(h, cursor, till, size), cursor)
  {
    AscendingIsSorted(h);
    var lo, hi := PageIsSlice(h, cursor, till, size);
    NoEarlierAfter(h, lo);
    assert lo + 1 < hi ==> Rises(h, lo, hi - 1);
  }

  /** What is gathered from a page in hand on; k is the index of the next request. */
  ghost function Gathered(server: Timeline<Rate>, k: nat, page: seq<Funding>, till: int, size: nat): seq<Funding>
    requires Grows(server, 0) && (page != [] ==> 0 <= LastTime(page))
    decreases if page == [] then -1 else till - LastTime(page)
  {
    if page == [] then []
    else if LastTime(page) >= till then page
    else
      var next := Page(server(k), LastTime(page), till, size);
      if OnlyCursor(next, LastTime(page)) then page
      else
        assert PageAhead(next, LastTime(page)) by {
          assert Stamped(server, 0, k);
          PageMovesCursor(server(k), LastTime(page), till, size);
        }
        page + Gathered(server, k + 1, next, till, size)
  }

  /** Index of the last request made, given a page in hand that request k - 1 returned. */
  ghost function LastRequest(server: Timeline<Rate>, k: nat, page: seq<Funding>, till: int, size: nat): (last: int)
    requires Grows(server, 0) && (page != [] ==> 0 <= LastTime(page))
    ensures last >= k - 1
    decreases if page == [] then -1 else till - LastTime(page)
  {
    if page == [] || LastTime(page) >= till then k - 1
    else
      var next := Page(server(k), LastTime(page), till, size);
      if OnlyCursor(next, LastTime(page)) then k
      else
        assert PageAhead(next, LastTime(page)) by {
          assert Stamped(server, 0, k);
          PageMovesCursor(server(k), LastTime(page), till, size);
        }
        LastRequest(server, k + 1, next, till, size)
  }

  // ---- Content: the range, with overlaps collapsed ---------------------------------------------

  /** The sequence with each run of equal neighbours reduced to one record. */
  function Collapse(s: seq<Funding>): seq<Funding> {
    if |s| <= 1 then s
    else if s[0] == s[1] then Collapse(s[1..])
    else [s[0]] + Collapse(s[1..])
  }

  lemma TailAscends(s: seq<Funding>)
    requires Ascending(s) && s != []
    ensures Ascending(s[1..])
  {
    forall i: nat, j: nat | i < j < |s| - 1 ensures Rises(s[1..], i, j) {
      assert Rises(s, i + 1, j + 1);
    }
  }

  /** A page followed by pages that start with its last record collapses to one copy of that record. */
  lemma {:induction false} CollapseJoin(page: seq<Funding>, rest: seq<Funding>)
    requires Ascending(page) && page != [] && rest != [] && rest[0] == page[|page| - 1]
    ensures Collapse(page + rest) == page[..|page| - 1] + Collapse(rest)
  {
    var s, tail := page + rest, page[1..];
    assert s[1..] == tail + rest;
    if |page| == 1 {
      assert tail + rest == rest;
    } else {
      assert Rises(page, 0, 1);
      TailAscends(page);
      CollapseJoin(tail, rest);
      hide Ascending, Rises;
      assert page[..|page| - 1] == [page[0]] + tail[..|tail| - 1];
      ConcatAssociates([page[0]], tail[..|tail| - 1], Collapse(rest));
    }
  }

  lemma {:induction false} AscendingIsCollapsed(s: seq<Funding>)
    requires Ascending(s)
    ensures Collapse(s) == s
  {
    if |s| > 1 {
      assert Rises(s, 0, 1);
      TailAscends(s);
      AscendingIsCollapsed(s[1..]);
    }
  }

  /** The page that follows a page ending at position hi starts with that page's last record again. */
  lemma NextPage(h: seq<Funding>, later: seq<Funding>, hi: nat, till: int, size: nat) returns (end: nat)
    requires h <= later && Ascending(later) && 0 < hi <= |h|
    requires size >= 1 && 0 <= h[hi - 1].time < till
    ensures hi <= end <= Past(later, till) && Page(later, h[hi - 1].time, till, size) == later[hi - 1..end]
    ensures end - hi + 1 <= size && (end - hi + 1 < size ==> end == Past(later, till))
  {
    hide Within;
    var cursor := h[hi - 1].time;
    AscendingIsSorted(later);
    assert later[hi - 1] == h[hi - 1];
    assert hi > 1 ==> Rises(later, hi - 2, hi - 1);
    EarlierIs(later, cursor, hi - 1);
    NoEarlierAfter(later, Past(later, till));
    var lo;
    lo, end := PageIsSlice(later, cursor, till, size);
  }

  /** A cursor that has reached the range end stands on the last record of the range. */
  lemma NothingPastCursor(h: seq<Funding>, hi: nat, till: int)
    requires Ascending(h) && 0 <= till && 0 < hi <= Past(h, till) && h[hi - 1].time >= till
    ensures hi == Past(h, till)
  {
    AscendingIsSorted(h);
    assert hi < |h| ==> Rises(h, hi - 1, hi);
    EarlierIs(h, till + 1, hi);
  }

  /** A page in hand: request k - 1 returned positions lo to hi of its history. */
  ghost predicate InHand(server: Timeline<Rate>, k: nat, page: seq<Funding>, till: int, lo: nat, hi: nat)
    requires Grows(server, 0)
  {
    && k > 0 && lo < hi <= Past(server(k - 1), till)
    && page == server(k - 1)[lo..hi]
    && LastTime(page) >= 0
  }

  /** One turn of the loop with a page in hand. */
  lemma OneTurn(server: Timeline<Rate>, k: nat, page: seq<Funding>, till: int, size: nat, lo: nat, hi: nat)
      returns (next: seq<Funding>, end: nat)
    requires Grows(server, 0) && size >= 2 && till >= 0 && InHand(server, k, page, till, lo, hi)
    ensures hi <= end
    ensures LastTime(page) >= till ==>
              && Gathered(server, k, page, till, size) == page && LastRequest(server, k, page, till, size) == k - 1
              && Past(server(k - 1), till) == hi
    ensures LastTime(page) < till && hi == end ==>
              && Gathered(server, k, page, till, size) == page && LastRequest(server, k, page, till, size) == k
              && Past(server(k), till) == hi
    ensures LastTime(page) < till && hi < end ==>
              && InHand(server, k + 1, next, till, hi - 1, end)
              && next[0] == page[|page| - 1] && LastTime(page) < LastTime(next)
              && end - hi < size && (end - hi + 1 < size ==> end == Past(server(k), till))
              && Gathered(server, k, page, till, size) == page + Gathered(server, k + 1, next, till, size)
              && LastRequest(server, k, page, till, size) == LastRequest(server, k + 1, next, till, size)
  {
    hide Within, Page;
    assert Stamped(server, 0, k - 1) && Stamped(server, 0, k) && Extends(server, k - 1, k);
    next, end := [], hi;
    if LastTime(page) >= till {
      NothingPastCursor(server(k - 1), hi, till);
    } else {
      end := NextPage(server(k - 1), server(k), hi, till, size);
      next := Page(server(k), LastTime(page), till, size);
      assert hi < end ==> Rises(server(k), hi - 1, end - 1);
    }
  }

  lemma StretchGrows(h: seq<Funding>, later: seq<Funding>, lo: nat, hi: nat, end: nat)
    requires h <= later && lo < hi <= |h| && hi <= end <= |later|
    ensures h[lo..hi][..hi - lo - 1] + later[hi - 1..end] == later[lo..end]
    ensures h[lo..hi] == later[lo..hi]
  {}

  /** Whatever is appended meanwhile, collapsing the gathered records gives the range of the last request. */
  lemma {:induction false} GatheredIsRange(server: Timeline<Rate>, k: nat, page: seq<Funding>, till: int, size: nat,
                                           lo: nat, hi: nat, last: int)
    requires Grows(server, 0) && size >= 2 && till >= 0 && InHand(server, k, page, till, lo, hi)
    requires last == LastRequest(server, k, page, till, size)
    ensures last >= k - 1 && hi <= Past(server(last), till)
    ensures Collapse(Gathered(server, k, page, till, size)) == server(last)[lo..Past(server(last), till)]
    ensures page <= Gathered(server, k, page, till, size)
    decreases till - LastTime(page)
  {
    hide Within, Page, Collapse, Gathered, LastRequest;
    var next, end := OneTurn(server, k, page, till, size, lo, hi);
    assert Stamped(server, 0, k - 1) && Extends(server, k - 1, k);
    if LastTime(page) < till && hi < end {
      GatheredIsRange(server, k + 1, next, till, size, hi - 1, end, last);
      assert Extends(server, k - 1, last);
      StretchAscends(server(k - 1), lo, hi);
      CollapseJoin(page, Gathered(server, k + 1, next, till, size));
      StretchGrows(server(k - 1), server(last), lo, hi, Past(server(last), till));
    } else {
      StretchAscends(server(k - 1), lo, hi);
      AscendingIsCollapsed(page);
      StretchGrows(server(k - 1), server(k), lo, hi, hi);
    }
  }

  // ---- The public download ---------------------------------------------------------------------

  lemma PageTimes(server: Timeline<Rate>, start: int, end: int, size: nat)
    requires Grows(server, 0)
    ensures var page := Page(server(0), start, end, size); page != [] ==> LastTime(page) >= 0
  {
    assert Stamped(server, 0, 0);
    AscendingIsSorted(server(0));
    var lo, hi := PageIsSlice(server(0), start, end, size);
    assert lo < hi ==> server(0)[hi - 1] in server(0);
  }

  ghost function Downloaded(server: Timeline<Rate>, start: int, end: int, size: nat): seq<Funding>
    requires Grows(server, 0) && start >= NOT_SENT
  {
    if start >= end then []
    else
      var page := Page(server(0), start, end, size);
      PageTimes(server, start, end, size);
      Gathered(server, 1, page, end, size)
  }

  ghost function Requests(server: Timeline<Rate>, start: int, end: int, size: nat): int
    requires Grows(server, 0) && start >= NOT_SENT
  {
    if start >= end then 0
    else
      PageTimes(server, start, end, size);
      1 + LastRequest(server, 1, Page(server(0), start, end, size), end, size)
  }

  /** The first page is in hand after the first request. */
  lemma FirstPageInHand(server: Timeline<Rate>, start: int, end: int, size: nat) returns (lo: nat, hi: nat)
    requires Grows(server, 0) && NOT_SENT <= start < end && size >= 1
    ensures var page := Page(server(0), start, end, size);
            && (page != [] ==> InHand(server, 1, page, end, lo, hi) && lo == PageStart(server(0), start, end, size))
            && (page == [] ==> Slice(server(0), PageStart(server(0), start, end, size), Past(server(0), end)) == [])
            && hi - lo <= size && (page != [] && hi - lo < size ==> hi == Past(server(0), end))
  {
    assert Stamped(server, 0, 0);
    AscendingIsSorted(server(0));
    PageTimes(server, start, end, size);
    lo, hi := PageIsSlice(server(0), start, end, size);
  }

  lemma PageEmpty(h: seq<Funding>, start: int, end: int, size: nat)
    requires size >= 1 && Page(h, start, end, size) == []
    ensures Within(h, start, end) == []
  {}

  lemma NothingGathered(server: Timeline<Rate>, k: nat, till: int, size: nat)
    requires Grows(server, 0)
    ensures Gathered(server, k, [], till, size) == [] && LastRequest(server, k, [], till, size) == k - 1
  {}

  lemma NothingBegun(server: Timeline<Rate>, start: int, end: int, size: nat)
    requires Grows(server, 0) && NOT_SENT <= start && start >= end
    ensures Downloaded(server, start, end, size) == []
  {}

  /** With at least two records a page, the download without its overlaps is the range query against the history
      of the last request. */
  lemma OverlapsCollapseToRange(server: Timeline<Rate>, start: int, end: int, size: nat)
    requires Grows(server, 0) && NOT_SENT <= start < end && size >= 2
    ensures var last := Requests(server, start, end, size) - 1;
            && last >= 0
            && Collapse(Downloaded(server, start, end, size))
               == Within(server(last), Anchor(server(0), start, end, size), end)
  {
    hide Within, Page, Gathered, LastRequest;
    var lo, hi := FirstPageInHand(server, start, end, size);
    var page := Page(server(0), start, end, size);
    var last := Requests(server, start, end, size) - 1;
    if page != [] {
      GatheredIsRange(server, 1, page, end, size, lo, hi, last);
      assert Stamped(server, 0, 0) && Stamped(server, 0, last) && Extends(server, 0, last);
      forall i: nat | i < |server(0)| ensures TimeKept(server(0), server(last), i) {}
      AscendingIsSorted(server(last));
      AnchorIsPageStart(server(0), server(last), start, end, size);
      WithinIsSlice(server(last), Anchor(server(0), start, end, size), end);
    } else {
      assert Stamped(server, 0, 0);
      AscendingIsSorted(server(0));
      WithinIsSlice(server(0), start, end);
      PageEmpty(server(0), start, end, size);
      NothingGathered(server, 1, end, size);
    }
  }

  // ---- How often a record is returned ----------------------------------------------------------

  /** Two positions apart the times differ: an overlap repeats a record once, next to itself. */
  predicate TwoApart(s: seq<Funding>, i: nat)
    requires i + 2 < |s|
  {
    s[i].time < s[i + 2].time
  }

  ghost predicate AtMostTwice(s: seq<Funding>) {
    forall i: nat :: i + 2 < |s| ==> TwoApart(s, i)
  }

  lemma TwiceConcat(page: seq<Funding>, rest: seq<Funding>, next: seq<Funding>)
    requires Ascending(page) && page != [] && AtMostTwice(rest)
    requires Ascending(next) && |next| >= 2 && next <= rest && next[0] == page[|page| - 1]
    ensures AtMostTwice(page + rest)
  {
    var s, n := page + rest, |page|;
    assert Rises(next, 0, 1) && rest[1] == next[1];
    forall i: nat | i + 2 < |s| ensures TwoApart(s, i) {
      if i + 2 < n {
        assert Rises(page, i, i + 2);
      } else if i >= n {
        assert TwoApart(rest, i - n);
      } else if i == n - 2 {
        assert Rises(page, n - 2, n - 1);
      }
    }
  }

  lemma {:induction false} GatheredAtMostTwice(server: Timeline<Rate>, k: nat, page: seq<Funding>, till: int, size: nat,
                                               lo: nat, hi: nat)
    requires Grows(server, 0) && size >= 2 && till >= 0 && InHand(server, k, page, till, lo, hi)
    ensures page <= Gathered(server, k, page, till, size) && AtMostTwice(Gathered(server, k, page, till, size))
    decreases till - LastTime(page)
  {
    hide Within, Page;
    var next, end := OneTurn(server, k, page, till, size, lo, hi);
    assert Stamped(server, 0, k - 1);
    StretchAscends(server(k - 1), lo, hi);
    if LastTime(page) < till && hi < end {
      GatheredAtMostTwice(server, k + 1, next, till, size, hi - 1, end);
      assert Stamped(server, 0, k);
      StretchAscends(server(k), hi - 1, end);
      TwiceConcat(page, Gathered(server, k + 1, next, till, size), next);
    } else {
      forall i: nat | i + 2 < |page| ensures TwoApart(page, i) { assert Rises(page, i, i + 2); }
    }
  }

  lemma EachRecordAtMostTwice(server: Timeline<Rate>, start: int, end: int, size: nat)
    requires Grows(server, 0) && NOT_SENT <= start && size >= 2
    ensures AtMostTwice(Downloaded(server, start, end, size))
  {
    if start < end {
      var lo, hi := FirstPageInHand(server, start, end, size);
      if Page(server(0), start, end, size) != [] {
        GatheredAtMostTwice(server, 1, Page(server(0), start, end, size), end, size, lo, hi);
      }
    }
  }

  // ---- How long the raw result is --------------------------------------------------------------

  /** 1 if the last record is stamped before the end, so that the loop needs one more request to stop; otherwise 0. */
  function Unfinished(got: seq<Funding>, end: int): nat {
    if got != [] && LastTime(got) < end then 1 else 0
  }

  /** Every page after the one in hand repeats one record; the request that ends the loop on a lone cursor record
      adds none. */
  lemma {:induction false} GatheredRepeats(server: Timeline<Rate>, k: nat, page: seq<Funding>, till: int, size: nat,
                                           lo: nat, hi: nat)
    requires Grows(server, 0) && size >= 2 && till >= 0 && InHand(server, k, page, till, lo, hi)
    ensures var got, last := Gathered(server, k, page, till, size), LastRequest(server, k, page, till, size);
            && got != []
            && last >= k - 1 && |got| + Unfinished(got, till) == Past(server(last), till) - lo + last - (k - 1)
    decreases till - LastTime(page)
  {
    hide Within, Page, Gathered, LastRequest;
    var next, end := OneTurn(server, k, page, till, size, lo, hi);
    if LastTime(page) < till && hi < end {
      GatheredRepeats(server, k + 1, next, till, size, hi - 1, end);
      var rest := Gathered(server, k + 1, next, till, size);
      assert LastTime(page + rest) == LastTime(rest);
    }
  }

  /** On any timeline: the records of the range at the last request, plus one repeat for every request after the
      first, except the one that only finds the record under the cursor. */
  lemma RawLengthWhileGrowing(server: Timeline<Rate>, start: int, end: int, size: nat)
    requires Grows(server, 0) && NOT_SENT <= start < end && size >= 2
    ensures var got, last := Downloaded(server, start, end, size), Requests(server, start, end, size) - 1;
            && last >= 0
            && |got| + Unfinished(got, end) == |Within(server(last), Anchor(server(0), start, end, size), end)| + last
  {
    hide Within, Page, Gathered, LastRequest;
    OverlapsCollapseToRange(server, start, end, size);
    var lo, hi := FirstPageInHand(server, start, end, size);
    var page, last := Page(server(0), start, end, size), Requests(server, start, end, size) - 1;
    if page != [] {
      GatheredIsRange(server, 1, page, end, size, lo, hi, last);
      GatheredRepeats(server, 1, page, end, size, lo, hi);
    } else {
      NothingGathered(server, 1, end, size);
    }
  }

  lemma FrozenGrows(h: seq<Funding>)
    requires Ascending(h) && forall r :: r in h ==> 0 <= r.time
    ensures Grows(Frozen(h), 0)
  {
    AscendingIsSorted(h);
    forall i: nat ensures Dated(Frozen(h), 0, i) && Stamped(Frozen(h), 0, i) {}
    forall i: nat, j: nat | i <= j ensures Extends(Frozen(h), i, j) {}
  }

  lemma {:induction false} GatheredLength(h: seq<Funding>, k: nat, page: seq<Funding>, till: int, size: nat,
                                          lo: nat, hi: nat)
    requires Grows(Frozen(h), 0) && size >= 2 && till >= 0 && InHand(Frozen(h), k, page, till, lo, hi)
    ensures var left := Past(h, till) - hi;
            |Gathered(Frozen(h), k, page, till, size)| == hi - lo + left + CeilDiv(left, size - 1)
    decreases till - LastTime(page)
  {
    var next, end := OneTurn(Frozen(h), k, page, till, size, lo, hi);
    if LastTime(page) < till && hi < end {
      GatheredLength(h, k + 1, next, till, size, hi - 1, end);
    }
  }

  /** On a history that stands still: the N records of the range, plus one repeat for every page after the first;
      nothing if the loop does not begin. */
  lemma RawLength(h: seq<Funding>, start: int, end: int, size: nat)
    requires Ascending(h) && (forall r :: r in h ==> 0 <= r.time) && NOT_SENT <= start && size >= 2
    ensures Grows(Frozen(h), 0)
    ensures var n := |Within(h, Anchor(h, start, end, size), end)|;
            |Downloaded(Frozen(h), start, end, size)|
            == if start < end then n + CeilDiv(if n <= size then 0 else n - size, size - 1) else 0
  {
    hide Within, Page, Gathered;
    FrozenGrows(h);
    AscendingIsSorted(h);
    if start < end {
      WithinIsSlice(h, Anchor(h, start, end, size), end);
      var lo, hi := FirstPageInHand(Frozen(h), start, end, size);
      if Page(h, start, end, size) != [] {
        AnchorIsPageStart(h, h, start, end, size);
        GatheredLength(h, 1, Page(h, start, end, size), end, size, lo, hi);
      } else {
        PageEmpty(h, start, end, size);
        NothingGathered(Frozen(h), 1, end, size);
      }
    }
  }

  // ---- Pages of one record ---------------------------------------------------------------------

  /** With one record a page the second request only finds the record under the cursor, and the loop gives up. */
  lemma OneRecordPages(server: Timeline<Rate>, start: int, end: int)
    requires Grows(server, 0) && NOT_SENT <= start < end
    ensures Downloaded(server, start, end, 1) == Page(server(0), start, end, 1)
  {
    var lo, hi := FirstPageInHand(server, start, end, 1);
    var page := Page(server(0), start, end, 1);
    if page != [] && LastTime(page) < end {
      assert Stamped(server, 0, 1) && Extends(server, 0, 1);
      var next := NextPage(server(0), server(1), hi, end, 1);
      assert OnlyCursor(Page(server(1), LastTime(page), end, 1), LastTime(page));
    }
  }

  /** The page of one record is the range exactly when the range has no more. */
  lemma OneRecordOfRange(h: seq<Funding>, start: int, end: int)
    requires Ascending(h) && (forall r :: r in h ==> 0 <= r.time) && NOT_SENT <= start < end
    ensures var page, want := Page(h, start, end, 1), Within(h, Anchor(h, start, end, 1), end);
            |page| <= 1 && (page == want <==> |want| <= 1)
  {
    AscendingIsSorted(h);
    var lo, hi := PageIsSlice(h, start, end, 1);
    WithinIsSlice(h, Anchor(h, start, end, 1), end);
    if lo < hi {
      AnchorIsPageStart(h, h, start, end, 1);
    }
  }

  /** A history that stands still is downloaded completely exactly when nothing is asked for, or when both times let
      the loop begin and a page holds more than one record or no more than one record is asked for. Without both times
      the most recent page is asked for, and the loop does not begin. */
  lemma CompleteExactlyWhen(h: seq<Funding>, start: int, end: int, size: nat)
    requires Ascending(h) && (forall r :: r in h ==> 0 <= r.time) && NOT_SENT <= start && size >= 1
    ensures Grows(Frozen(h), 0)
    ensures var want := Within(h, Anchor(h, start, end, size), end);
            Collapse(Downloaded(Frozen(h), start, end, size)) == want
            <==> want == [] || (start < end && (size >= 2 || |want| <= 1))
  {
    hide Within, Gathered;
    FrozenGrows(h);
    if start < end {
      if size >= 2 {
        OverlapsCollapseToRange(Frozen(h), start, end, size);
      } else {
        OneRecordPages(Frozen(h), start, end);
        OneRecordOfRange(h, start, end);
      }
    }
  }

  lemma {:induction false} CollapseShortens(s: seq<Funding>)
    ensures |Collapse(s)| <= |s|
    ensures |Collapse(s)| == |s| ==> Collapse(s) == s
  {
    if |s| > 1 {
      CollapseShortens(s[1..]);
    }
  }

  /** The caller gets the range itself, without a repeat, exactly when nothing is asked for, or when the loop begins
      and one page holds all that is asked for. */
  lemma UnrepeatedExactlyWhen(h: seq<Funding>, start: int, end: int, size: nat)
    requires Ascending(h) && (forall r :: r in h ==> 0 <= r.time) && NOT_SENT <= start && size >= 1
    ensures Grows(Frozen(h), 0)
    ensures var want := Within(h, Anchor(h, start, end, size), end);
            Downloaded(Frozen(h), start, end, size) == want <==> want == [] || (start < end && |want| <= size)
  {
    hide Within, Downloaded;
    CompleteExactlyWhen(h, start, end, size);
    var got := Downloaded(Frozen(h), start, end, size);
    CollapseShortens(got);
    if start >= end {
      NothingBegun(Frozen(h), start, end, size);
    } else if size >= 2 {
      RawLength(h, start, end, size);
    } else {
      OneRecordPages(Frozen(h), start, end);
      OneRecordOfRange(h, start, end);
    }
  }

  // ---- When the loop ends, without assuming distinct times ------------------------------------

  /** The loop ends within n further requests, the page in hand being `page` and the history standing still. */
  predicate EndsWithin(h: seq<Funding>, page: seq<Funding>, till: int, size: nat, n: nat)
    decreases n
  {
    if page == [] || LastTime(page) >= till then true
    else if n == 0 then false
    else
      var next := Page(h, LastTime(page), till, size);
      OnlyCursor(next, LastTime(page)) || EndsWithin(h, next, till, size, n - 1)
  }

  ghost predicate Ends(h: seq<Funding>, start: int, end: int, size: nat) {
    start >= end || exists n: nat :: EndsWithin(h, Page(h, start, end, size), end, size, n)
  }

  /** Time t lies before the end and is shared by at least two records, which fill a page or are the last in range. */
  predicate Stuck(h: seq<Funding>, t: int, end: int, size: nat) {
    var lo, hi := Earlier(h, t), Earlier(h, t + 1);
    t < end && hi - lo >= 2 && (hi - lo >= size || hi == Past(h, end))
  }

  /** What a page from a cursor that stands on a record looks like. */
  lemma PageFromRecord(h: seq<Funding>, cursor: int, till: int, size: nat) returns (lo: nat, hi: nat)
    requires Sorted(h) && size >= 1 && 0 <= cursor < till
    requires Earlier(h, cursor) < |h| && h[Earlier(h, cursor)].time == cursor
    ensures lo == Earlier(h, cursor) < hi <= Past(h, till) && Page(h, cursor, till, size) == h[lo..hi]
    ensures hi - lo <= size && (hi - lo < size ==> hi == Past(h, till))
  {
    NoEarlierAfter(h, Past(h, till));
    lo, hi := PageIsSlice(h, cursor, till, size);
  }

  lemma OnRecord(h: seq<Funding>, p: nat)
    requires Sorted(h) && p < |h|
    ensures Earlier(h, h[p].time) <= p && h[Earlier(h, h[p].time)].time == h[p].time
  {
    var e := Earlier(h, h[p].time);
    assert e < p ==> InOrder(h, e, p);
  }

  lemma StuckPage(h: seq<Funding>, t: int, till: int, size: nat, lo: nat, hi: nat)
    requires Sorted(h) && size >= 2 && Stuck(h, t, till, size)
    requires lo < hi <= Past(h, till) && lo <= Earlier(h, t) && h[lo].time >= 0
    requires hi - lo <= size && (hi - lo < size ==> hi == Past(h, till))
    ensures hi - lo >= 2 && hi <= Earlier(h, t + 1) && 0 <= h[hi - 1].time <= t
  {
    var b := Earlier(h, t + 1);
    NoEarlierAfter(h, Past(h, till));
    NoEarlierAfter(h, lo);
    assert h[b - 1].time <= t;
  }

  /** A cursor at or before a stuck time never gets past it. */
  lemma {:induction false} NeverPastStuck(h: seq<Funding>, page: seq<Funding>, t: int, till: int, size: nat, p: nat,
                                          n: nat)
    requires Sorted(h) && size >= 2 && Stuck(h, t, till, size)
    requires page != [] && p < |h| && LastTime(page) == h[p].time && 0 <= h[p].time <= t
    ensures !EndsWithin(h, page, till, size, n)
    decreases n
  {
    hide Within, Page, Earlier;
    if n > 0 {
      var a, b := Earlier(h, t), Earlier(h, t + 1);
      OnRecord(h, p);
      var lo, hi := PageFromRecord(h, h[p].time, till, size);
      StuckPage(h, t, till, size, lo, hi);
      NeverPastStuck(h, Page(h, h[p].time, till, size), t, till, size, hi - 1, n - 1);
    }
  }

  lemma NotStuckMoves(h: seq<Funding>, cursor: int, till: int, size: nat, lo: nat, hi: nat)
    requires Sorted(h) && cursor < till && !Stuck(h, cursor, till, size)
    requires lo == Earlier(h, cursor) && lo + 2 <= hi <= Past(h, till)
    requires hi - lo <= size && (hi - lo < size ==> hi == Past(h, till))
    ensures cursor < h[hi - 1].time
  {
    var b := Earlier(h, cursor + 1);
    NoEarlierAfter(h, b);
    NoEarlierAfter(h, lo);
    NoEarlierAfter(h, Past(h, till));
  }

  /** With no stuck time ahead, the loop ends. */
  lemma {:induction false} EndsWhenNotStuck(h: seq<Funding>, page: seq<Funding>, till: int, size: nat, p: nat)
      returns (n: nat)
    requires Sorted(h) && size >= 1
    requires page != [] && p < |h| && LastTime(page) == h[p].time && 0 <= h[p].time
    requires size >= 2 ==> forall t :: h[p].time <= t ==> !Stuck(h, t, till, size)
    ensures EndsWithin(h, page, till, size, n)
    decreases till - h[p].time
  {
    hide Within, Page, Earlier, Past, Stuck;
    n := 0;
    var cursor := h[p].time;
    if cursor < till {
      OnRecord(h, p);
      var lo, hi := PageFromRecord(h, cursor, till, size);
      if hi - lo >= 2 {
        assert !Stuck(h, cursor, till, size);
        NotStuckMoves(h, cursor, till, size, lo, hi);
        var next := Page(h, cursor, till, size);
        assert next == h[lo..hi] && LastTime(next) == h[hi - 1].time;
        n := EndsWhenNotStuck(h, next, till, size, hi - 1);
      }
      n := n + 1;
    }
  }

  lemma FirstPageOnRecord(h: seq<Funding>, start: int, end: int, size: nat, lo: nat, hi: nat)
    requires Sorted(h) && 0 <= start && lo < hi <= |h|
    requires lo == PageStart(h, start, end, size) && Page(h, start, end, size) == h[lo..hi]
    ensures LastTime(Page(h, start, end, size)) == h[hi - 1].time >= start
  {
    NoEarlierAfter(h, lo);
  }

  lemma StuckInRange(h: seq<Funding>, start: int, t: int, end: int, size: nat)
    requires Sorted(h) && 0 <= start <= t && Stuck(h, t, end, size)
    ensures Earlier(h, start) <= Earlier(h, t) < Past(h, end) && Earlier(h, start) < |h|
    ensures h[Earlier(h, start)].time >= 0
  {
    NoEarlierAfter(h, Earlier(h, start));
    NoEarlierAfter(h, Past(h, end));
    var a := Earlier(h, t);
  }

  lemma NeverEndsWhenStuck(h: seq<Funding>, start: int, t: int, end: int, size: nat)
    requires Sorted(h) && 0 <= start <= t && start < end && size >= 2 && Stuck(h, t, end, size)
    ensures !Ends(h, start, end, size)
  {
    hide Within;
    StuckInRange(h, start, t, end, size);
    var lo, hi := PageIsSlice(h, start, end, size);
    StuckPage(h, t, end, size, lo, hi);
    forall n: nat ensures !EndsWithin(h, Page(h, start, end, size), end, size, n) {
      NeverPastStuck(h, Page(h, start, end, size), t, end, size, hi - 1, n);
    }
  }

  lemma EndsFromStart(h: seq<Funding>, start: int, end: int, size: nat)
    requires Sorted(h) && 0 <= start && size >= 1
    ensures Ends(h, start, end, size) <==> (size == 1 || !exists t :: start <= t && Stuck(h, t, end, size))
  {
    if start < end {
      var page := Page(h, start, end, size);
      var lo, hi := PageIsSlice(h, start, end, size);
      if size >= 2 && exists t :: start <= t && Stuck(h, t, end, size) {
        var t :| start <= t && Stuck(h, t, end, size);
        NeverEndsWhenStuck(h, start, t, end, size);
      } else if page != [] {
        FirstPageOnRecord(h, start, end, size, lo, hi);
        var n := EndsWhenNotStuck(h, page, end, size, hi - 1);
      } else {
        assert EndsWithin(h, page, end, size, 0);
      }
    }
  }

  lemma NotStuckPastRange(h: seq<Funding>, t: int, end: int, size: nat)
    requires Sorted(h) && 0 <= end && Past(h, end) > 0 && h[Past(h, end) - 1].time < t
    ensures !Stuck(h, t, end, size)
  {
    NoEarlierAfter(h, Earlier(h, t));
  }

  /** From a cursor on the last time of the range the loop ends exactly when that time is not stuck. */
  lemma EndsFromLast(h: seq<Funding>, start: int, end: int, size: nat)
    requires Sorted(h) && size >= 1 && start < end && 0 <= end && Past(h, end) > 0
    requires var page := Page(h, start, end, size); page != [] && LastTime(page) == h[Past(h, end) - 1].time >= 0
    ensures Ends(h, start, end, size) <==> size == 1 || !Stuck(h, h[Past(h, end) - 1].time, end, size)
  {
    hide Within, Page, Earlier, Past, Stuck, EndsWithin;
    var page := Page(h, start, end, size);
    var p: nat := Past(h, end) - 1;
    if size >= 2 && Stuck(h, h[p].time, end, size) {
      forall n: nat ensures !EndsWithin(h, page, end, size, n) {
        NeverPastStuck(h, page, h[p].time, end, size, p, n);
      }
    } else {
      forall t | h[p].time < t ensures !Stuck(h, t, end, size) {
        NotStuckPastRange(h, t, end, size);
      }
      var n := EndsWhenNotStuck(h, page, end, size, p);
    }
  }

  /** Without a start the cursor first stands on the last time of the range, and can only be stuck there. */
  lemma EndsWithoutStart(h: seq<Funding>, end: int, size: nat)
    requires Sorted(h) && (forall r :: r in h ==> 0 <= r.time) && size >= 1
    ensures Ends(h, NOT_SENT, end, size)
            <==> (size == 1 || Past(h, end) == 0 || !Stuck(h, h[Past(h, end) - 1].time, end, size))
  {
    hide Within, Page, Earlier;
    assert Past(h, end) > 0 ==> h[Past(h, end) - 1] in h;
    if NOT_SENT < end {
      hide Past, Stuck;
      var page := Page(h, NOT_SENT, end, size);
      var lo, hi := PageIsSlice(h, NOT_SENT, end, size);
      if page == [] {
        assert |Slice(h, PageStart(h, NOT_SENT, end, size), Past(h, end))| == 0;
        assert EndsWithin(h, page, end, size, 0);
      } else {
        assert hi == Past(h, end) && LastTime(page) == h[hi - 1].time;
        EndsFromLast(h, NOT_SENT, end, size);
      }
    }
  }

  /** On a sorted history whose times may repeat, the loop ends if and only if no stuck time is at or after the
      start, or without a start, if the last time of the range is not stuck. (Pages of one record always end it.) */
  lemma EndsExactlyWhenNotStuck(h: seq<Funding>, start: int, end: int, size: nat)
    requires Sorted(h) && NOT_SENT <= start && size >= 1
    requires start == NOT_SENT ==> forall r :: r in h ==> 0 <= r.time
    ensures Ends(h, start, end, size) <==>
              || size == 1
              || (if start == NOT_SENT then Past(h, end) == 0 || !Stuck(h, h[Past(h, end) - 1].time, end, size)
                  else !exists t :: start <= t && Stuck(h, t, end, size))
  {
    hide Ends, Stuck;
    if start == NOT_SENT {
      EndsWithoutStart(h, end, size);
    } else {
      EndsFromStart(h, start, end, size);
    }
  }

  /** Strictly increasing times are never stuck. */
  lemma AscendingIsNeverStuck(h: seq<Funding>, t: int, end: int, size: nat)
    requires Ascending(h)
    ensures !Stuck(h, t, end, size)
  {
    var a, b := Earlier(h, t), Earlier(h, t + 1);
    assert a + 1 < b ==> Rises(h, a, a + 1);
  }

  // ---- The loop --------------------------------------------------------------------------------

  /** What the loop holds plus what is still to come is the whole download, in records and in requests. */
  ghost predicate Balance(server: Timeline<Rate>, issued: nat, got: seq<Funding>, page: seq<Funding>, end: int,
                          size: nat, all: seq<Funding>, cost: int)
    requires Grows(server, 0)
  {
    && (page != [] ==> 0 <= LastTime(page))
    && got + Gathered(server, issued, page, end, size) == all
    && 1 + LastRequest(server, issued, page, end, size) == cost
  }

  lemma BalanceAfterTurn(server: Timeline<Rate>, issued: nat, got: seq<Funding>, page: seq<Funding>, end: int,
                         size: nat, all: seq<Funding>, cost: int)
    requires Grows(server, 0) && page != [] && Balance(server, issued, got, page, end, size, all, cost)
    ensures var next := Page(server(issued), LastTime(page), end, size);
            if LastTime(page) >= end then got + page == all && issued == cost
            else
              && issued < cost
              && if next == [] || (|next| == 1 && LastTime(page) == LastTime(next)) then
                   got + page == all && issued + 1 == cost
                 else
                   LastTime(page) < LastTime(next)
                   && Balance(server, issued + 1, got + page, next, end, size, all, cost)
  {
    if LastTime(page) < end {
      assert Stamped(server, 0, issued);
      PageMovesCursor(server(issued), LastTime(page), end, size);
      var next := Page(server(issued), LastTime(page), end, size);
      if !OnlyCursor(next, LastTime(page)) {
        ConcatAssociates(got, page, Gathered(server, issued + 1, next, end, size));
        assert next == [] ==> LastRequest(server, issued + 1, next, end, size) == issued;
      }
    }
  }

  lemma BalanceAtStart(server: Timeline<Rate>, start: int, end: int, size: nat)
    requires Grows(server, 0) && NOT_SENT <= start < end
    ensures var page := Page(server(0), start, end, size);
            var all, cost := Downloaded(server, start, end, size), Requests(server, start, end, size);
            && cost >= 1
            && if page == [] then all == [] && cost == 1
               else Balance(server, 1, [], page, end, size, all, cost)
  {
    PageTimes(server, start, end, size);
  }

  /** The download. A failed request throws out of it; with start >= end (which includes leaving both out) it
      returns nothing without asking. */
  method GetFundingRates(server: Timeline<Rate>, fails: nat -> bool, start: int, end: int, size: nat)
      returns (r: Result<seq<Funding>, nat>)
    requires Grows(server, 0) && start >= NOT_SENT
    ensures r.Success? <==> AllAnswered(fails, Requests(server, start, end, size))
    ensures r.Success? ==> r.value == Downloaded(server, start, end, size)
    ensures r.Failure? ==> fails(r.error) && AllAnswered(fails, r.error)
  {
    hide Within, Gathered, LastRequest;
    var retVal: seq<Funding>, lastFromTime, fr: seq<Funding>, issued: nat := [], start, [], 0;
    ghost var all, cost := Downloaded(server, start, end, size), Requests(server, start, end, size);
    if lastFromTime < end {
      BalanceAtStart(server, start, end, size);
      if fails(0) { return Failure(0); }
      fr, issued := Page(server(0), lastFromTime, end, size), 1;
    }
    while fr != []
      invariant fr != [] ==> Balance(server, issued, retVal, fr, end, size, all, cost)
      invariant fr == [] ==> retVal == all && issued == cost
      invariant AllAnswered(fails, issued)
      decreases if fr == [] then 0 else 1, if fr == [] then 0 else end - LastTime(fr)
    {
      BalanceAfterTurn(server, issued, retVal, fr, end, size, all, cost);
      retVal := retVal + fr;
      lastFromTime := LastTime(fr);
      fr := [];
      if lastFromTime < end {
        if fails(issued) { return Failure(issued); }
        fr, issued := Page(server(issued), lastFromTime, end, size), issued + 1;
        if |fr| == 1 {
          if lastFromTime == LastTime(fr) {
            break;
          }
        }
      }
    }
    return Success(retVal);
  }
}
