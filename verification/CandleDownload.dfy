/** The forward candle download of the futures and the spot client. The exchange may append candles,
    and revise its newest one, between any two page requests of the same download. */
module CandleDownload {
  import opened Wrappers
  import opened History
  import opened Sequences

  /** A candle is a record stamped with its open time; `ohlcv` stands for the prices and volumes. */
  datatype Bar = Bar(closeTime: int, ohlcv: int)
  type Candle = Record<Bar>

  predicate Spans(h: seq<Candle>, i: nat)
    requires i < |h|
  {
    0 <= h[i].time < h[i].value.closeTime
  }

  predicate Apart(h: seq<Candle>, i: nat, j: nat)
    requires i < j < |h|
  {
    h[i].value.closeTime < h[j].time
  }

  /** A candle opens before it closes, and has closed before the next one opens. */
  ghost predicate Candles(h: seq<Candle>) {
    && (forall i: nat :: i < |h| ==> Spans(h, i))
    && (forall i: nat, j: nat :: i < j < |h| ==> Apart(h, i, j))
  }

  predicate SameSlot(c: Candle, d: Candle) {
    c.time == d.time && c.value.closeTime == d.value.closeTime
  }

  predicate Keeps(h: seq<Candle>, later: seq<Candle>, i: nat)
    requires i < |h| <= |later|
  {
    SameSlot(later[i], h[i]) && (i < |h| - 1 ==> later[i] == h[i])
  }

  /** Later histories append candles; only the newest candle may change, and only in its body. */
  ghost predicate Evolves(h: seq<Candle>, later: seq<Candle>) {
    && |h| <= |later|
    && (forall i: nat :: i < |h| ==> Keeps(h, later, i))
  }

  predicate SlotsMatch(s: seq<Candle>, t: seq<Candle>, i: nat)
    requires i < |s| == |t|
  {
    SameSlot(s[i], t[i])
  }

  ghost predicate SameSlots(s: seq<Candle>, t: seq<Candle>) {
    |s| == |t| && forall i: nat :: i < |s| ==> SlotsMatch(s, t, i)
  }

  ghost predicate Healthy(server: Timeline<Bar>, i: nat) {
    Candles(server(i))
  }

  ghost predicate Follows(server: Timeline<Bar>, i: nat, j: nat) {
    Evolves(server(i), server(j))
  }

  ghost predicate Live(server: Timeline<Bar>) {
    && (forall i: nat :: Healthy(server, i))
    && (forall i: nat, j: nat :: i <= j ==> Follows(server, i, j))
  }

  function Newest(s: seq<Candle>): Candle
    requires s != []
  {
    s[|s| - 1]
  }

  function DropLast<T>(s: seq<T>): seq<T> {
    if s == [] then [] else s[..|s| - 1]
  }

  lemma AscendingCandles(h: seq<Candle>)
    requires Candles(h)
    ensures Ascending(h)
  {
    forall i: nat, j: nat | i < j < |h| ensures Rises(h, i, j) {
      assert Spans(h, i) && Apart(h, i, j);
    }
  }

  lemma SortedCandles(h: seq<Candle>)
    requires Candles(h)
    ensures Sorted(h)
  {
    AscendingCandles(h);
    AscendingIsSorted(h);
  }

  lemma PageAdvances(h: seq<Candle>, from: int, till: int, size: nat)
    requires Candles(h) && from >= NOT_SENT && size >= 1
    ensures var page := Page(h, from, till, size);
            page != [] ==> from < Newest(page).value.closeTime
  {
    SortedCandles(h);
    var lo, hi := PageIsSlice(h, from, till, size);
    assert lo < hi ==> Spans(h, hi - 1);
    SortedCandles(h);
    assert lo + 1 < hi ==> InOrder(h, lo, hi - 1);
  }

  /** What the loop has gathered, from request k on, before the last candle is dropped. */
  ghost function Collected(server: Timeline<Bar>, k: nat, from: int, till: int, size: nat): seq<Candle>
    requires Live(server) && size >= 1 && from >= NOT_SENT
    decreases till - from
  {
    if from >= till then []
    else
      var page := Page(server(k), from, till, size);
      if page == [] then []
      else
        assert from < Newest(page).value.closeTime by {
          assert Healthy(server, k);
          PageAdvances(server(k), from, till, size);
        }
        page + Collected(server, k + 1, Newest(page).value.closeTime, till, size)
  }

  /** How many requests the loop issues, counted from request k. */
  ghost function Requests(server: Timeline<Bar>, k: nat, from: int, till: int, size: nat): nat
    requires Live(server) && size >= 1 && from >= NOT_SENT
    decreases till - from
  {
    if from >= till then 0
    else
      var page := Page(server(k), from, till, size);
      if page == [] then 1
      else
        assert from < Newest(page).value.closeTime by {
          assert Healthy(server, k);
          PageAdvances(server(k), from, till, size);
        }
        1 + Requests(server, k + 1, Newest(page).value.closeTime, till, size)
  }

  // ---- What is gathered while the exchange keeps trading -------------------------------------

  /** Candle c stood at position p of the history when one of the requests k, ..., k + n - 1 was answered. */
  ghost predicate AsServed(server: Timeline<Bar>, k: nat, n: nat, p: nat, c: Candle) {
    exists i: nat :: k <= i < k + n && p < |server(i)| && server(i)[p] == c
  }

  /** Every gathered candle is one the exchange served, at its own position of the history. */
  ghost predicate Served(server: Timeline<Bar>, k: nat, n: nat, lo: nat, got: seq<Candle>) {
    forall j :: 0 <= j < |got| ==> AsServed(server, k, n, lo + j, got[j])
  }

  /** After a page that ends at position hi, the cursor stands exactly at position hi of every later history. */
  lemma CursorAfterPage(h: seq<Candle>, later: seq<Candle>, hi: nat)
    requires Candles(h) && Candles(later) && Evolves(h, later)
    requires 0 < hi <= |h|
    ensures Earlier(later, h[hi - 1].value.closeTime) == hi
  {
    SortedCandles(later);
    assert Keeps(h, later, hi - 1) && Spans(later, hi - 1);
    assert hi < |later| ==> Apart(later, hi - 1, hi);
    EarlierIs(later, h[hi - 1].value.closeTime, hi);
  }

  /** Where a page that ends at position hi leaves the range end, in positions of any later history. */
  lemma PositionsAfterPage(h: seq<Candle>, later: seq<Candle>, till: int, hi: nat)
    requires Candles(h) && Candles(later) && Evolves(h, later)
    requires 0 <= till && 0 < hi <= Past(h, till)
    ensures Earlier(later, h[hi - 1].value.closeTime) == hi
    ensures hi <= Past(later, till)
    ensures h[hi - 1].value.closeTime >= till ==> Past(later, till) == hi
  {
    SortedCandles(later);
    CursorAfterPage(h, later, hi);
    assert Keeps(h, later, hi - 1);
    NoEarlierAfter(later, Past(later, till));
    if h[hi - 1].value.closeTime >= till {
      assert hi < |later| ==> Apart(later, hi - 1, hi);
      EarlierIs(later, till + 1, hi);
    }
  }

  lemma SlotsKept(h: seq<Candle>, later: seq<Candle>, lo: nat, hi: nat)
    requires Evolves(h, later) && lo <= hi <= |h|
    ensures SameSlots(h[lo..hi], later[lo..hi])
  {
    forall i: nat | i < hi - lo ensures SlotsMatch(h[lo..hi], later[lo..hi], i) {
      assert Keeps(h, later, lo + i);
    }
  }

  lemma SlotsConcat(s: seq<Candle>, s': seq<Candle>, t: seq<Candle>, t': seq<Candle>)
    requires SameSlots(s, s') && SameSlots(t, t')
    ensures SameSlots(s + t, s' + t')
  {
    forall i: nat | i < |s + t| ensures SlotsMatch(s + t, s' + t', i) {
      if i < |s| {
        assert SlotsMatch(s, s', i);
      } else {
        assert SlotsMatch(t, t', i - |s|);
      }
    }
  }

  /** One page followed by the rest of the range is the range, slot by slot, in any later history. */
  lemma RangeSplitsAtPage(h: seq<Candle>, later: seq<Candle>, till: int, lo: nat, hi: nat, rest: seq<Candle>)
    requires Candles(h) && Candles(later) && Evolves(h, later)
    requires 0 <= till && lo < hi <= Past(h, till)
    requires h[hi - 1].value.closeTime >= till ==> rest == []
    requires h[hi - 1].value.closeTime < till ==> SameSlots(rest, Slice(later, hi, Past(later, till)))
    ensures SameSlots(h[lo..hi] + rest, Slice(later, lo, Past(later, till)))
  {
    PositionsAfterPage(h, later, till, hi);
    var end := Past(later, till);
    SlotsKept(h, later, lo, hi);
    SlotsConcat(h[lo..hi], later[lo..hi], rest, later[hi..end]);
    assert later[lo..end] == later[lo..hi] + later[hi..end];
  }

  /** One turn of the loop: an empty page ends it, any other page moves the cursor to a later time. */
  lemma OneTurn(server: Timeline<Bar>, k: nat, from: int, till: int, size: nat) returns (lo: nat, hi: nat, next: int)
    requires Live(server) && size >= 1 && NOT_SENT <= from < till
    ensures lo <= hi <= |server(k)| && Page(server(k), from, till, size) == server(k)[lo..hi]
    ensures lo == hi ==>
              && Collected(server, k, from, till, size) == []
              && Requests(server, k, from, till, size) == 1
              && Slice(server(k), PageStart(server(k), from, till, size), Past(server(k), till)) == []
    ensures lo < hi ==>
              && next == server(k)[hi - 1].value.closeTime > from && next > 0
              && lo == PageStart(server(k), from, till, size) && hi <= Past(server(k), till)
              && hi - lo <= size && (hi - lo < size ==> hi == Past(server(k), till))
              && Collected(server, k, from, till, size)
                 == server(k)[lo..hi] + Collected(server, k + 1, next, till, size)
              && Requests(server, k, from, till, size) == 1 + Requests(server, k + 1, next, till, size)
  {
    assert Healthy(server, k);
    SortedCandles(server(k));
    lo, hi := PageIsSlice(server(k), from, till, size);
    if lo < hi {
      next := server(k)[hi - 1].value.closeTime;
      PageAdvances(server(k), from, till, size);
      assert Spans(server(k), hi - 1);
    } else {
      next := from;
    }
  }

  /** The loop gathers, slot by slot, the whole range as the exchange holds it at the last request. */
  lemma {:induction false} Gathered(server: Timeline<Bar>, k: nat, from: int, till: int, size: nat, last: int)
    requires Live(server) && size >= 1 && NOT_SENT <= from < till
    requires last == k + Requests(server, k, from, till, size) - 1
    ensures last >= k
    ensures SameSlots(Collected(server, k, from, till, size),
                      Slice(server(last), PageStart(server(k), from, till, size), Past(server(last), till)))
    decreases till - from
  {
    var lo, hi, next := OneTurn(server, k, from, till, size);
    if lo < hi {
      var rest := Collected(server, k + 1, next, till, size);
      assert Healthy(server, k) && Healthy(server, k + 1) && Follows(server, k, k + 1);
      CursorAfterPage(server(k), server(k + 1), hi);
      if next < till {
        Gathered(server, k + 1, next, till, size, last);
      } else {
        assert rest == [];
      }
      assert Healthy(server, last) && Follows(server, k, last);
      RangeSplitsAtPage(server(k), server(last), till, lo, hi, rest);
    } else {
      assert last == k;
    }
  }

  lemma ServedConcat(server: Timeline<Bar>, k: nat, n: nat, lo: nat, hi: nat, rest: seq<Candle>)
    requires lo <= hi <= |server(k)|
    requires Served(server, k + 1, n, hi, rest)
    ensures Served(server, k, n + 1, lo, server(k)[lo..hi] + rest)
  {
    var got := server(k)[lo..hi] + rest;
    forall j | 0 <= j < |got| ensures AsServed(server, k, n + 1, lo + j, got[j]) {
      if j < hi - lo {
        assert server(k)[lo + j] == got[j];
      } else {
        var r := j - (hi - lo);
        assert AsServed(server, k + 1, n, hi + r, rest[r]);
      }
    }
  }

  lemma {:induction false} GatheredAsServed(server: Timeline<Bar>, k: nat, from: int, till: int, size: nat)
    requires Live(server) && size >= 1 && NOT_SENT <= from
    ensures Served(server, k, Requests(server, k, from, till, size), PageStart(server(k), from, till, size),
                   Collected(server, k, from, till, size))
    decreases till - from
  {
    if from < till {
      var lo, hi, next := OneTurn(server, k, from, till, size);
      if lo < hi {
        GatheredAsServed(server, k + 1, next, till, size);
        assert Healthy(server, k) && Healthy(server, k + 1) && Follows(server, k, k + 1);
        CursorAfterPage(server(k), server(k + 1), hi);
        ServedConcat(server, k, Requests(server, k + 1, next, till, size), lo, hi,
                     Collected(server, k + 1, next, till, size));
      }
    }
  }

  // ---- The public download --------------------------------------------------------------------

  /** What the caller gets: the gathered candles without the last one. */
  ghost function Downloaded(server: Timeline<Bar>, start: int, end: int, size: nat): seq<Candle>
    requires Live(server) && size >= 1 && start >= NOT_SENT
  {
    DropLast(Collected(server, 0, start, end, size))
  }

  lemma FirstPageAnchors(h: seq<Candle>, later: seq<Candle>, start: int, end: int, size: nat)
    requires Candles(h) && Candles(later) && Evolves(h, later) && size >= 1
    requires Page(h, start, end, size) != []
    ensures var anchor := Anchor(h, start, end, size);
            && anchor != NOT_SENT
            && Range(later, anchor, end) == Slice(later, PageStart(h, start, end, size), Past(later, end))
  {
    AscendingCandles(h);
    AscendingCandles(later);
    forall i: nat | i < |h| ensures TimeKept(h, later, i) { assert Keeps(h, later, i); }
    forall r | r in h ensures r.time >= 0 {
      var i: nat :| i < |h| && h[i] == r;
      assert Spans(h, i);
    }
    AnchorIsPageStart(h, later, start, end, size);
  }

  lemma SlotsAreCandles(h: seq<Candle>, got: seq<Candle>, lo: nat, hi: nat)
    requires Candles(h) && hi <= |h| && SameSlots(got, Slice(h, lo, hi))
    ensures Candles(got)
  {
    forall i: nat | i < |got| ensures Spans(got, i) {
      assert SlotsMatch(got, h[lo..hi], i) && Spans(h, lo + i);
    }
    forall i: nat, j: nat | i < j < |got| ensures Apart(got, i, j) {
      assert SlotsMatch(got, h[lo..hi], i) && SlotsMatch(got, h[lo..hi], j) && Apart(h, lo + i, lo + j);
    }
  }

  /** Whatever the exchange appends or revises meanwhile, the loop gathers the slots of one range query against
      the history of its last request: nothing missing, nothing twice, each candle closed before the next opens. */
  lemma DownloadCoversRange(server: Timeline<Bar>, start: int, end: int, size: nat)
    requires Live(server) && size >= 1 && NOT_SENT <= start < end
    ensures var got := Collected(server, 0, start, end, size);
            var last := Requests(server, 0, start, end, size) - 1;
            && last >= 0
            && SameSlots(got, Within(server(last), Anchor(server(0), start, end, size), end))
            && Candles(got)
  {
    var got := Collected(server, 0, start, end, size);
    var last := Requests(server, 0, start, end, size) - 1;
    Gathered(server, 0, start, end, size, last);
    assert Healthy(server, 0) && Healthy(server, last) && Follows(server, 0, last);
    SortedCandles(server(last));
    WithinIsSlice(server(last), Anchor(server(0), start, end, size), end);
    if Page(server(0), start, end, size) != [] {
      FirstPageAnchors(server(0), server(last), start, end, size);
    }
    SlotsAreCandles(server(last), got, PageStart(server(0), start, end, size), Past(server(last), end));
  }

  lemma FrozenIsLive(h: seq<Candle>)
    requires Candles(h)
    ensures Live(Frozen(h))
  {
    var server := Frozen(h);
    forall i: nat ensures Healthy(server, i) {}
    forall i: nat, j: nat | i <= j ensures Follows(server, i, j) {
      forall p: nat | p < |h| ensures Keeps(server(i), server(j), p) {}
    }
  }

  lemma FrozenGathersRange(h: seq<Candle>, start: int, end: int, size: nat)
    requires Candles(h) && size >= 1 && NOT_SENT <= start < end
    ensures Live(Frozen(h))
    ensures Collected(Frozen(h), 0, start, end, size) == Within(h, Anchor(h, start, end, size), end)
  {
    hide Earlier, Past;
    FrozenIsLive(h);
    var server := Frozen(h);
    var got := Collected(server, 0, start, end, size);
    var want := Within(h, Anchor(h, start, end, size), end);
    DownloadCoversRange(server, start, end, size);
    GatheredAsServed(server, 0, start, end, size);
    SortedCandles(h);
    WithinIsSlice(h, Anchor(h, start, end, size), end);
    assert Page(h, start, end, size) == [] ==> want == [];
    if Page(h, start, end, size) != [] {
      assert Healthy(server, 0) && Follows(server, 0, 0);
      FirstPageAnchors(h, h, start, end, size);
      forall j: nat | j < |got| ensures got[j] == want[j] {
        assert AsServed(server, 0, Requests(server, 0, start, end, size), PageStart(h, start, end, size) + j, got[j]);
      }
      assert got == want;
    }
  }

  /** On a history that stands still the caller gets the range query without its last candle, whatever the page size,
      exactly when the loop begins or that leaves nothing. */
  lemma FrozenDownloadIsRange(h: seq<Candle>, start: int, end: int, size: nat)
    requires Candles(h) && size >= 1 && NOT_SENT <= start
    ensures Live(Frozen(h))
    ensures var want := Within(h, Anchor(h, start, end, size), end);
            Downloaded(Frozen(h), start, end, size) == DropLast(want) <==> start < end || |want| <= 1
    ensures -1 < start < end ==>
              var want := Within(h, start, end);
              Downloaded(Frozen(h), start, end, size) == if want == [] then [] else want[..|want| - 1]
  {
    hide Within, Page;
    FrozenIsLive(h);
    if start < end {
      FrozenGathersRange(h, start, end, size);
    }
  }

  // ---- Which candle is dropped -----------------------------------------------------------------

  /** The candles that have closed before the given time. */
  function ClosedBy(s: seq<Candle>, end: int): seq<Candle> {
    if s == [] then []
    else (if s[0].value.closeTime < end then [s[0]] else []) + ClosedBy(s[1..], end)
  }

  lemma {:induction false} AllClosed(s: seq<Candle>, end: int)
    requires forall i :: 0 <= i < |s| ==> s[i].value.closeTime < end
    ensures ClosedBy(s, end) == s
  {
    if s != [] { AllClosed(s[1..], end); }
  }

  lemma {:induction false} NoneClosed(s: seq<Candle>, end: int)
    requires forall i :: 0 <= i < |s| ==> s[i].value.closeTime >= end
    ensures ClosedBy(s, end) == []
  {
    if s != [] { NoneClosed(s[1..], end); }
  }

  lemma {:induction false} ClosedConcat(s: seq<Candle>, t: seq<Candle>, end: int)
    ensures ClosedBy(s + t, end) == ClosedBy(s, end) + ClosedBy(t, end)
  {
    if s == [] {
      assert s + t == t;
    } else {
      assert (s + t)[1..] == s[1..] + t;
      ClosedConcat(s[1..], t, end);
    }
  }

  /** Every returned candle closed before the end the caller asked for. */
  lemma ReturnedCandlesHaveClosed(server: Timeline<Bar>, start: int, end: int, size: nat)
    requires Live(server) && size >= 1 && NOT_SENT <= start
    ensures forall c :: c in Downloaded(server, start, end, size) ==> c.value.closeTime < end
  {
    hide Within;
    if start >= end { return; }
    var got := Collected(server, 0, start, end, size);
    DownloadCoversRange(server, start, end, size);
    var last := Requests(server, 0, start, end, size) - 1;
    var want := Within(server(last), Anchor(server(0), start, end, size), end);
    WithinExactly(server(last), Anchor(server(0), start, end, size), end);
    forall c | c in Downloaded(server, start, end, size) ensures c.value.closeTime < end {
      var j: nat :| j < |got| - 1 && got[j] == c;
      assert Apart(got, j, j + 1) && SlotsMatch(got, want, j + 1) && want[j + 1] in want;
    }
  }

  lemma NothingToDownload(server: Timeline<Bar>, start: int, end: int, size: nat)
    requires Live(server) && size >= 1 && start >= NOT_SENT && start >= end
    ensures Collected(server, 0, start, end, size) == [] && Requests(server, 0, start, end, size) == 0
  {}

  /** If the loop does not begin, nothing that is asked for closes before the end. */
  lemma NothingClosedInEmptyRange(h: seq<Candle>, start: int, end: int, size: nat)
    requires Candles(h) && NOT_SENT <= start && end <= start
    ensures forall c :: c in Within(h, Anchor(h, start, end, size), end) ==> c.value.closeTime >= end
  {
    var from := Anchor(h, start, end, size);
    WithinExactly(h, from, end);
    forall c | c in Within(h, from, end) ensures c.value.closeTime >= end {
      var i: nat :| i < |h| && h[i] == c;
      assert Spans(h, i);
    }
  }

  /** The last candle is dropped because it is taken to be incomplete. The caller gets exactly the range's candles
      that closed before the asked end if and only if the last one of the range had not, or the range is empty. */
  lemma DropsOnlyOpenCandleExactlyWhen(h: seq<Candle>, start: int, end: int, size: nat)
    requires Candles(h) && size >= 1 && NOT_SENT <= start
    ensures Live(Frozen(h))
    ensures var want := Within(h, Anchor(h, start, end, size), end);
            Downloaded(Frozen(h), start, end, size) == ClosedBy(want, end)
            <==> want == [] || Newest(want).value.closeTime >= end
  {
    hide Within, Collected;
    FrozenDownloadIsRange(h, start, end, size);
    var want := Within(h, Anchor(h, start, end, size), end);
    if start >= end {
      NothingClosedInEmptyRange(h, start, end, size);
      assert forall i :: 0 <= i < |want| ==> want[i] in want;
      NoneClosed(want, end);
      NothingToDownload(Frozen(h), start, end, size);
    } else if want != [] {
      ReturnedCandlesHaveClosed(Frozen(h), start, end, size);
      var front, last := DropLast(want), Newest(want);
      assert forall i :: 0 <= i < |front| ==> front[i] in front;
      AllClosed(front, end);
      ClosedConcat(front, [last], end);
      assert want == front + [last];
      assert ClosedBy([last], end) == if last.value.closeTime < end then [last] else [];
    }
  }

  // ---- When every returned candle is final ----------------------------------------------------

  /** After the download has returned, every history still holds each returned candle unchanged. */
  ghost predicate AllFinal(server: Timeline<Bar>, start: int, end: int, size: nat)
    requires Live(server) && size >= 1 && start >= NOT_SENT
  {
    forall c, i: nat | c in Downloaded(server, start, end, size) && i >= Requests(server, 0, start, end, size) ::
      c in server(i)
  }

  /** What a caller can check first: the newest candle closes no earlier than the asked end, or is not in range. */
  predicate Settled(h: seq<Candle>, start: int, end: int) {
    start >= end || h == [] || end <= Newest(h).value.closeTime || Newest(h).time < start
  }

  lemma ServedFrom(server: Timeline<Bar>, start: int, end: int, size: nat, c: Candle) returns (m: nat, p: nat)
    requires Live(server) && size >= 1 && NOT_SENT <= start
    requires c in Downloaded(server, start, end, size)
    ensures p < |server(m)| && server(m)[p] == c
  {
    var got, lo := Collected(server, 0, start, end, size), PageStart(server(0), start, end, size);
    var j: nat :| j < |got| && got[j] == c;
    GatheredAsServed(server, 0, start, end, size);
    assert AsServed(server, 0, Requests(server, 0, start, end, size), lo + j, got[j]);
    p := lo + j;
    m :| p < |server(m)| && server(m)[p] == c;
  }

  /** A candle that closed before the newest candle of an earlier history did is not that newest candle. */
  lemma ClosedBeforeNewest(h: seq<Candle>, later: seq<Candle>, p: nat)
    requires Candles(later) && Evolves(h, later) && h != [] && p < |later|
    requires later[p].value.closeTime < Newest(h).value.closeTime
    ensures p < |h| - 1
  {
    var n: nat := |h| - 1;
    assert Keeps(h, later, n);
    assert Spans(later, p);
    assert n < p ==> Apart(later, n, p);
  }

  lemma SettledCandleStays(server: Timeline<Bar>, start: int, end: int, size: nat, c: Candle, i: nat)
    requires Live(server) && size >= 1 && NOT_SENT <= start < end
    requires server(0) != [] && end <= Newest(server(0)).value.closeTime
    requires c in Downloaded(server, start, end, size)
    ensures c in server(i)
  {
    var h := server(0);
    var m, p := ServedFrom(server, start, end, size, c);
    ReturnedCandlesHaveClosed(server, start, end, size);
    assert Healthy(server, m) && Follows(server, 0, m) && Follows(server, 0, i);
    ClosedBeforeNewest(h, server(m), p);
    assert Keeps(h, server(m), p) && Keeps(h, server(i), p);
  }

  lemma NothingInRange(server: Timeline<Bar>, start: int, end: int, size: nat)
    requires Live(server) && size >= 1 && NOT_SENT <= start < end
    requires server(0) == [] || Newest(server(0)).time < start
    ensures Collected(server, 0, start, end, size) == []
  {
    var lo, hi, next := OneTurn(server, 0, start, end, size);
    assert Healthy(server, 0);
    SortedCandles(server(0));
    if server(0) != [] {
      assert Spans(server(0), |server(0)| - 1);
      EarlierIs(server(0), start, |server(0)|);
    }
  }

  lemma SettledIsFinal(server: Timeline<Bar>, start: int, end: int, size: nat)
    requires Live(server) && size >= 1 && start >= NOT_SENT
    requires Settled(server(0), start, end)
    ensures AllFinal(server, start, end, size)
  {
    if start < end {
      var h := server(0);
      if h == [] || Newest(h).time < start {
        NothingInRange(server, start, end, size);
      } else {
        forall c, i: nat | c in Downloaded(server, start, end, size) && i >= Requests(server, 0, start, end, size)
          ensures c in server(i)
        {
          SettledCandleStays(server, start, end, size, c, i);
        }
      }
    }
  }

  function Revised(h: seq<Candle>): seq<Candle>
    requires h != []
  {
    var c := Newest(h);
    h[|h| - 1 := Record(c.time, Bar(c.value.closeTime, c.value.ohlcv + 1))]
    + [Record(c.value.closeTime + 1, Bar(c.value.closeTime + 2, 0))]
  }

  /** The exchange shows h up to request m, then closes the newest candle with another body and opens the next. */
  function Revising(h: seq<Candle>, m: nat): Timeline<Bar>
    requires h != []
  {
    (i: nat) => if i <= m then h else Revised(h)
  }

  lemma RevisedFollows(h: seq<Candle>)
    requires Candles(h) && h != []
    ensures Candles(Revised(h)) && Evolves(h, Revised(h)) && Newest(h) !in Revised(h)
  {
    var r, n: nat := Revised(h), |h| - 1;
    assert Spans(h, n);
    forall i: nat | i < |r| ensures Spans(r, i) {
      assert i < n ==> Spans(h, i);
    }
    forall i: nat, j: nat | i < j < |r| ensures Apart(r, i, j) {
      assert i < n ==> Apart(h, i, n);
      assert j < n ==> Apart(h, i, j);
    }
    forall i: nat | i < |r| ensures r[i] != Newest(h) {
      assert i < n ==> Spans(h, i) && Apart(h, i, n);
    }
    forall i: nat | i < |h| ensures Keeps(h, r, i) {}
  }

  lemma RevisingIsLive(h: seq<Candle>, m: nat)
    requires Candles(h) && h != []
    ensures Live(Revising(h, m))
  {
    RevisedFollows(h);
    var server, r := Revising(h, m), Revised(h);
    forall i: nat | i < |h| ensures Keeps(h, h, i) {}
    forall i: nat | i < |r| ensures Keeps(r, r, i) {}
    forall i: nat ensures Healthy(server, i) {}
    forall i: nat, j: nat | i <= j ensures Follows(server, i, j) {}
  }

  /** Once the newest candle is gathered, the revised history has one more candle to gather. */
  lemma OneMoreAfterRevision(h: seq<Candle>, m: nat, till: int, size: nat)
    requires Candles(h) && h != [] && size >= 1 && Newest(h).value.closeTime < till
    requires Live(Revising(h, m)) && Newest(h).value.closeTime >= 0
    ensures Collected(Revising(h, m), m + 1, Newest(h).value.closeTime, till, size) != []
  {
    var r, next := Revised(h), Newest(h).value.closeTime;
    RevisedFollows(h);
    CursorAfterPage(h, r, |h|);
    assert Revising(h, m)(m + 1) == r;
    SortedCandles(r);
    EarlierIs(r, till + 1, |r|);
    var lo, hi, next' := OneTurn(Revising(h, m), m + 1, next, till, size);
  }

  /** While the newest candle is in range the page is not empty, and leaves the cursor at or before that candle
      unless it contains it. */
  lemma PageBeforeNewest(h: seq<Candle>, from: int, till: int, size: nat) returns (lo: nat, hi: nat, next: int)
    requires Candles(h) && h != [] && size >= 1
    requires NOT_SENT <= from <= Newest(h).time < till
    ensures lo < hi <= |h| && Page(h, from, till, size) == h[lo..hi]
    ensures next == h[hi - 1].value.closeTime && next > from && next >= 0
    ensures hi < |h| ==> next <= Newest(h).time
    ensures Newest(h).value.closeTime >= 0
  {
    hide Within;
    SortedCandles(h);
    assert Past(h, till) == |h| by { EarlierIs(h, till + 1, |h|); }
    lo, hi := PageIsSlice(h, from, till, size);
    assert lo < hi;
    next := h[hi - 1].value.closeTime;
    PageAdvances(h, from, till, size);
    assert Spans(h, hi - 1) && Spans(h, |h| - 1);
    assert hi < |h| ==> Apart(h, hi - 1, |h| - 1);
  }

  /** From request k on, the loop gathers the version of the newest candle that will be revised, and not as the last. */
  ghost predicate ServesStale(h: seq<Candle>, m: nat, k: nat, from: int, till: int, size: nat)
    requires h != [] && size >= 1 && from >= NOT_SENT
  {
    Live(Revising(h, m)) && Newest(h) in DropLast(Collected(Revising(h, m), k, from, till, size))
  }

  lemma InDropLast<T>(s: seq<T>, t: seq<T>, x: T)
    requires t != [] && (x in s || x in DropLast(t))
    ensures x in DropLast(s + t)
  {
    assert DropLast(s + t) == s + DropLast(t);
  }

  lemma StaleInPageOrRest(h: seq<Candle>, m: nat, k: nat, from: int, till: int, size: nat, lo: nat, hi: nat)
    requires Candles(h) && h != [] && size >= 1 && NOT_SENT <= from < till
    requires k <= m && Live(Revising(h, m))
    requires lo < hi <= |h| && Page(h, from, till, size) == h[lo..hi]
    requires var next := h[hi - 1].value.closeTime;
             && next >= 0
             && ((hi == |h| && Collected(Revising(h, m), k + 1, next, till, size) != [])
                 || ServesStale(h, m, k + 1, next, till, size))
    ensures ServesStale(h, m, k, from, till, size)
  {
    hide Within, Earlier;
    var server, page := Revising(h, m), h[lo..hi];
    assert server(k) == h;
    var rest := Collected(server, k + 1, h[hi - 1].value.closeTime, till, size);
    assert hi == |h| ==> page[|page| - 1] == Newest(h);
    assert Newest(page) == h[hi - 1];
    assert Collected(server, k, from, till, size) == page + rest;
    InDropLast(page, rest, Newest(h));
  }

  /** Some moment of revision makes the loop gather the newest candle in its stale version. */
  lemma {:induction false} StaleCandleGathered(h: seq<Candle>, k: nat, from: int, till: int, size: nat)
      returns (m: nat)
    requires Candles(h) && h != [] && size >= 1
    requires NOT_SENT <= from <= Newest(h).time < till && Newest(h).value.closeTime < till
    ensures m >= k && ServesStale(h, m, k, from, till, size)
    decreases till - from
  {
    hide Within, Page, Earlier, Collected;
    var lo, hi, next := PageBeforeNewest(h, from, till, size);
    if hi == |h| {
      m := k;
      RevisingIsLive(h, m);
      OneMoreAfterRevision(h, m, till, size);
    } else {
      m := StaleCandleGathered(h, k + 1, next, till, size);
    }
    StaleInPageOrRest(h, m, k, from, till, size, lo, hi);
  }

  /** The caller's candles are final on every live exchange that starts from h exactly when h is settled. */
  lemma FinalExactlyWhenSettled(h: seq<Candle>, start: int, end: int, size: nat)
    requires Candles(h) && size >= 1 && start >= NOT_SENT
    ensures Settled(h, start, end) <==>
            forall server: Timeline<Bar> | Live(server) && server(0) == h :: AllFinal(server, start, end, size)
  {
    if Settled(h, start, end) {
      forall server: Timeline<Bar> | Live(server) && server(0) == h ensures AllFinal(server, start, end, size) {
        SettledIsFinal(server, start, end, size);
      }
    } else {
      assert Spans(h, |h| - 1);
      var m := StaleCandleGathered(h, 0, start, end, size);
      RevisedFollows(h);
      var server := Revising(h, m);
      var i := Requests(server, 0, start, end, size) + m + 1;
      assert Live(server) && server(0) == h && server(i) == Revised(h);
      assert Newest(h) in Downloaded(server, start, end, size) && Newest(h) !in server(i);
      assert !AllFinal(server, start, end, size);
    }
  }

  // ---- How many requests a download costs -----------------------------------------------------

  /** A request for each page that is filled or started, and one more that finds nothing left unless the last
      candle already reaches the asked end. */
  function Cost(want: seq<Candle>, till: int, size: nat): nat
    requires size >= 1
  {
    CeilDiv(|want|, size) + if want == [] || Newest(want).value.closeTime < till then 1 else 0
  }

  lemma CostSplits(h: seq<Candle>, lo: nat, hi: nat, end: nat, till: int, size: nat)
    requires size >= 1 && lo < hi <= end <= |h|
    requires hi - lo <= size && (hi < end ==> hi - lo == size)
    ensures hi < end ==> Cost(h[lo..end], till, size) == 1 + Cost(Slice(h, hi, end), till, size)
    ensures hi == end && h[hi - 1].value.closeTime < till ==>
            Cost(h[lo..end], till, size) == 1 + Cost(Slice(h, hi, end), till, size)
    ensures hi == end && h[hi - 1].value.closeTime >= till ==> Cost(h[lo..end], till, size) == 1
  {
    assert Newest(h[lo..end]) == h[end - 1];
    assert hi < end ==> Newest(h[hi..end]) == h[end - 1];
  }

  lemma {:induction false} FrozenRequests(h: seq<Candle>, k: nat, from: int, till: int, size: nat)
    requires Candles(h) && Live(Frozen(h)) && size >= 1 && NOT_SENT <= from < till
    ensures Requests(Frozen(h), k, from, till, size)
            == Cost(Slice(h, PageStart(h, from, till, size), Past(h, till)), till, size)
    decreases till - from
  {
    var lo, hi, next := OneTurn(Frozen(h), k, from, till, size);
    var end := Past(h, till);
    if lo < hi {
      assert Follows(Frozen(h), 0, 0);
      CursorAfterPage(h, h, hi);
      if hi < end {
        assert Apart(h, hi - 1, hi);
        assert next < till;
      }
      if next < till {
        FrozenRequests(h, k + 1, next, till, size);
      }
      CostSplits(h, lo, hi, end, till, size);
    }
  }

  /** The exact cost of a download on a history that stands still; nothing is asked if the loop does not begin. */
  lemma DownloadCost(h: seq<Candle>, start: int, end: int, size: nat)
    requires Candles(h) && size >= 1 && NOT_SENT <= start
    ensures Live(Frozen(h))
    ensures Requests(Frozen(h), 0, start, end, size)
            == if start < end then Cost(Within(h, Anchor(h, start, end, size), end), end, size) else 0
  {
    hide Cost;
    FrozenIsLive(h);
    if start < end {
      hide Requests;
      FrozenRequests(h, 0, start, end, size);
      SortedCandles(h);
      WithinIsSlice(h, Anchor(h, start, end, size), end);
      var lo, hi := PageIsSlice(h, start, end, size);
      if lo < hi {
        assert Follows(Frozen(h), 0, 0);
        FirstPageAnchors(h, h, start, end, size);
      }
    }
  }

  // ---- The loop -------------------------------------------------------------------------------

  /** What the loop holds plus what is still to come is the whole download, in candles and in requests. */
  ghost predicate Balance(server: Timeline<Bar>, issued: nat, got: seq<Candle>, page: seq<Candle>, end: int, size: nat,
                          all: seq<Candle>, cost: int)
    requires Live(server) && size >= 1 && page != []
  {
    var next := Newest(page).value.closeTime;
    && next >= NOT_SENT
    && got + page + Collected(server, issued, next, end, size) == all
    && issued + Requests(server, issued, next, end, size) == cost
  }

  lemma BalanceAfterTurn(server: Timeline<Bar>, issued: nat, got: seq<Candle>, page: seq<Candle>, end: int, size: nat,
                         all: seq<Candle>, cost: int)
    requires Live(server) && size >= 1 && page != [] && Balance(server, issued, got, page, end, size, all, cost)
    ensures var next := Newest(page).value.closeTime;
            if next >= end then got + page == all && issued == cost
            else
              var fetched := Page(server(issued), next, end, size);
              && issued < cost
              && if fetched == [] then got + page == all && issued + 1 == cost
                 else next < Newest(fetched).value.closeTime
                      && Balance(server, issued + 1, got + page, fetched, end, size, all, cost)
  {
    var next := Newest(page).value.closeTime;
    if next < end {
      assert Healthy(server, issued);
      PageAdvances(server(issued), next, end, size);
      var fetched := Page(server(issued), next, end, size);
      if fetched != [] {
        ConcatAssociates(got + page, fetched,
                         Collected(server, issued + 1, Newest(fetched).value.closeTime, end, size));
      }
    }
  }

  lemma BalanceAtStart(server: Timeline<Bar>, start: int, end: int, size: nat)
    requires Live(server) && size >= 1 && NOT_SENT <= start < end
    ensures var fetched := Page(server(0), start, end, size);
            var all, cost := Collected(server, 0, start, end, size), Requests(server, 0, start, end, size);
            && cost >= 1
            && if fetched == [] then all == [] && cost == 1
               else start < Newest(fetched).value.closeTime && Balance(server, 1, [], fetched, end, size, all, cost)
  {
    assert Healthy(server, 0);
    PageAdvances(server(0), start, end, size);
  }

  /** The download both clients run. Request i throws when fails(i) holds, and the exception ends the download.
      `size` is the number of records the exchange puts on a page for the caller's limit. */
  method GetHistoricalPrices(server: Timeline<Bar>, fails: nat -> bool, start: int, end: int, size: nat)
      returns (r: Result<seq<Candle>, nat>)
    requires Live(server) && size >= 1 && start >= NOT_SENT
    ensures r.Success? <==> AllAnswered(fails, Requests(server, 0, start, end, size))
    ensures r.Success? ==> r.value == Downloaded(server, start, end, size)
    ensures r.Failure? ==> fails(r.error) && AllAnswered(fails, r.error)
  {
    hide Within, Page, Collected, Requests, Balance;
    var retVal: seq<Candle>, lastFromTime, candles: seq<Candle>, issued: nat := [], start, [], 0;
    ghost var all, cost := Collected(server, 0, start, end, size), Requests(server, 0, start, end, size);
    if lastFromTime < end {
      BalanceAtStart(server, start, end, size);
      if fails(0) { return Failure(0); }
      candles, issued := Page(server(0), lastFromTime, end, size), 1;
    } else {
      NothingToDownload(server, start, end, size);
    }
    while candles != []
      invariant candles == [] ==> retVal == all && issued == cost
      invariant candles != [] ==> Balance(server, issued, retVal, candles, end, size, all, cost)
      invariant candles != [] ==> lastFromTime < Newest(candles).value.closeTime && lastFromTime < end
      invariant AllAnswered(fails, issued)
      decreases end - lastFromTime, |candles|
    {
      BalanceAfterTurn(server, issued, retVal, candles, end, size, all, cost);
      retVal := retVal + candles;
      lastFromTime := Newest(candles).value.closeTime;
      candles := [];
      if lastFromTime < end {
        if fails(issued) { return Failure(issued); }
        candles, issued := Page(server(issued), lastFromTime, end, size), issued + 1;
      }
    }
    if retVal != [] {
      retVal := retVal[..|retVal| - 1];
    }
    return Success(retVal);
  }
}
