/** The backward download of open-interest, long/short and taker-volume statistics. The three public functions run
    the same loop: ask for the most recent records up to a time, prepend them, step to just before the oldest one.
    A request that fails is logged and swallowed; it leaves the records converted before the failure. */
module StatisticsDownload {
  import opened History
  import opened Sequences

  /** A statistics record is stamped with its timestamp; V is any of the three kinds of values. */
  type Statistic<V> = Record<V>

  /** The limit the loops ask for. */
  const PAGE_SIZE: nat := 500

  /** What becomes of a request: it is answered, or it fails after this many records have been converted. */
  datatype Fault = Answered | FailsAfter(converted: nat)

  function Received<V>(page: seq<Statistic<V>>, fault: Fault): seq<Statistic<V>> {
    match fault
    case Answered => page
    case FailsAfter(n) => if n < |page| then page[..n] else page
  }

  /** The records request k brings. */
  ghost function Reply<V>(server: Timeline<V>, faults: nat -> Fault, k: nat, till: int, size: nat): seq<Statistic<V>> {
    Received(Page(server(k), NOT_SENT, till, size), faults(k))
  }

  /** The oldest record received moves the cursor down, to a time that can never be mistaken for "not sent". */
  lemma CursorMovesDown<V>(server: Timeline<V>, faults: nat -> Fault, k: nat, till: int, size: nat)
    requires Appends(server, 1)
    ensures var got := Reply(server, faults, k, till, size);
            got != [] ==> got[0].time - 1 >= 0 && (till != NOT_SENT ==> got[0].time - 1 < till)
  {
    assert Dated(server, 1, k);
    var lo, hi := PageIsSlice(server(k), NOT_SENT, till, size);
    assert lo < hi ==> server(k)[lo] in server(k);
  }

  /** What the loop returns, from request k on. */
  ghost function Gathered<V>(server: Timeline<V>, faults: nat -> Fault, k: nat, till: int, size: nat)
      : seq<Statistic<V>>
    requires Appends(server, 1)
    decreases if till == NOT_SENT then 1 else 0, till
  {
    var got := Reply(server, faults, k, till, size);
    if got == [] then []
    else
      CursorMovesDown(server, faults, k, till, size);
      Gathered(server, faults, k + 1, got[0].time - 1, size) + got
  }

  /** Every request the loop issues either delivers its whole page or fails before it has converted a record. */
  ghost predicate NoneMidway<V>(server: Timeline<V>, faults: nat -> Fault, k: nat, till: int, size: nat)
    requires Appends(server, 1)
    decreases if till == NOT_SENT then 1 else 0, till
  {
    var got := Reply(server, faults, k, till, size);
    if got == [] then true
    else
      CursorMovesDown(server, faults, k, till, size);
      |got| == |Page(server(k), NOT_SENT, till, size)| && NoneMidway(server, faults, k + 1, got[0].time - 1, size)
  }

  /** Every request the loop issues delivers its whole page. */
  ghost predicate AllWhole<V>(server: Timeline<V>, faults: nat -> Fault, k: nat, till: int, size: nat)
    requires Appends(server, 1)
    decreases if till == NOT_SENT then 1 else 0, till
  {
    var got := Reply(server, faults, k, till, size);
    if got == [] then Page(server(k), NOT_SENT, till, size) == []
    else
      CursorMovesDown(server, faults, k, till, size);
      |got| == |Page(server(k), NOT_SENT, till, size)| && AllWhole(server, faults, k + 1, got[0].time - 1, size)
  }

  ghost predicate IsSuffix<T>(s: seq<T>, whole: seq<T>) {
    |s| <= |whole| && s == whole[|whole| - |s|..]
  }

  /** Once the oldest received record is at position p, the next request is for everything before p,
      whatever has been appended meanwhile. */
  lemma PastCursor<V>(h: seq<Statistic<V>>, later: seq<Statistic<V>>, p: nat)
    requires h <= later && Ascending(later) && p < |h| && h[p].time > 0
    ensures Past(later, h[p].time - 1) == p
  {
    AscendingIsSorted(later);
    assert later[p] == h[p];
    assert p > 0 ==> Rises(later, p - 1, p);
    EarlierIs(later, h[p].time, p);
  }

  /** The page for a time, in positions of the history. */
  lemma PageUpTo<V>(h: seq<Statistic<V>>, till: int, size: nat) returns (lo: nat, hi: nat)
    requires Sorted(h) && size >= 1
    ensures lo <= hi == Past(h, till) && (hi > 0 ==> lo < hi)
    ensures Page(h, NOT_SENT, till, size) == h[lo..hi]
    ensures hi - lo <= size && (hi - lo < size ==> lo == 0)
  {
    lo, hi := PageIsSlice(h, NOT_SENT, till, size);
    if lo == hi { lo, hi := Past(h, till), Past(h, till); }
  }

  /** Everything the caller asks for: the records up to the time, as they stand at request k. */
  ghost function Wanted<V>(server: Timeline<V>, k: nat, till: int): seq<Statistic<V>> {
    server(k)[..Past(server(k), till)]
  }

  /** One turn of the loop: the page ends what is wanted, and after it the next request wants the rest. */
  lemma OneTurn<V>(server: Timeline<V>, faults: nat -> Fault, k: nat, till: int, size: nat)
      returns (page: seq<Statistic<V>>, next: int)
    requires Grows(server, 1) && size >= 1
    ensures page == Page(server(k), NOT_SENT, till, size) && Ascending(page) && |page| <= size
    ensures page == [] <==> Wanted(server, k, till) == []
    ensures page != [] && Reply(server, faults, k, till, size) != [] ==>
              && next == Reply(server, faults, k, till, size)[0].time - 1 && next >= 0
              && (till != NOT_SENT ==> next < till)
              && Wanted(server, k, till) == Wanted(server, k + 1, next) + page
              && (|page| < size ==> Wanted(server, k + 1, next) == [])
  {
    hide Within, Page;
    assert Stamped(server, 1, k) && Stamped(server, 1, k + 1) && Dated(server, 1, k) && Extends(server, k, k + 1);
    var h := server(k);
    var lo, hi := PageUpTo(h, till, size);
    page, next := h[lo..hi], 0;
    StretchAscends(h, lo, hi);
    CursorMovesDown(server, faults, k, till, size);
    if lo < hi {
      next := h[lo].time - 1;
      assert h[lo] in h;
      PastCursor(h, server(k + 1), lo);
      assert server(k + 1)[..lo] == h[..lo];
    }
  }

  // ---- Content under swallowed failures --------------------------------------------------------

  lemma SuffixAppend<T>(s: seq<T>, whole: seq<T>, t: seq<T>)
    ensures IsSuffix(s + t, whole + t) <==> IsSuffix(s, whole)
    ensures s + t == whole + t <==> s == whole
  {
    if |s| <= |whole| {
      var tail := whole[|whole| - |s|..];
      assert (whole + t)[|whole| - |s|..] == tail + t;
      assert (tail + t)[..|s|] == tail && (s + t)[..|s|] == s;
    }
    assert (whole + t)[..|whole|] == whole;
    assert s + t == whole + t ==> (s + t)[..|s|] == (whole + t)[..|whole|];
  }

  /** The records before the first one stamped t do not change. */
  lemma PrefixStays<V>(server: Timeline<V>, k: nat, lo: nat) returns (p: nat)
    requires Appends(server, 1) && lo < |server(k)|
    ensures p == Past(server(k + 1), server(k)[lo].time - 1) <= lo
    ensures p == lo <==> lo == 0 || server(k)[lo - 1].time < server(k)[lo].time
  {
    assert Dated(server, 1, k) && Dated(server, 1, k + 1) && Extends(server, k, k + 1);
    var h, later := server(k), server(k + 1);
    assert h[lo] in h && h[lo] == later[lo];
    p := Earlier(later, h[lo].time);
    NoEarlierAfter(later, p);
    assert p < lo ==> later[lo - 1] == h[lo - 1];
  }

  /** The history holds a record older than the page with the stamp of the page's oldest record. */
  predicate Splits<V>(h: seq<Statistic<V>>, till: int, size: nat) {
    var page := Page(h, NOT_SENT, till, size);
    page != [] && Earlier(h, page[0].time) < Past(h, till) - |page|
  }

  /** No page the loop receives splits records with the same stamp. */
  ghost predicate NeverSplits<V>(server: Timeline<V>, faults: nat -> Fault, k: nat, till: int, size: nat)
    requires Appends(server, 1)
    decreases if till == NOT_SENT then 1 else 0, till
  {
    var got := Reply(server, faults, k, till, size);
    if got == [] then true
    else
      CursorMovesDown(server, faults, k, till, size);
      !Splits(server(k), till, size) && NeverSplits(server, faults, k + 1, got[0].time - 1, size)
  }

  /** No page the loop receives does, unless the next request brings nothing. */
  ghost predicate NeverSplitsBefore<V>(server: Timeline<V>, faults: nat -> Fault, k: nat, till: int, size: nat)
    requires Appends(server, 1)
    decreases if till == NOT_SENT then 1 else 0, till
  {
    var got := Reply(server, faults, k, till, size);
    if got == [] then true
    else
      CursorMovesDown(server, faults, k, till, size);
      && (Splits(server(k), till, size) ==> Reply(server, faults, k + 1, got[0].time - 1, size) == [])
      && NeverSplitsBefore(server, faults, k + 1, got[0].time - 1, size)
  }

  ghost predicate Differ<V>(h: seq<Statistic<V>>, i: nat, j: nat)
    requires i < j < |h|
  {
    h[i] != h[j]
  }

  /** No two records of a history are the same, though their stamps may be. */
  ghost predicate NoTwins<V>(server: Timeline<V>) {
    forall k: nat, i: nat, j: nat :: i < j < |server(k)| ==> Differ(server(k), i, j)
  }

  /** A result that does not end with the newest wanted record is no newest part of the answer. */
  lemma OtherEnd<T>(s: seq<T>, whole: seq<T>)
    requires s != [] && whole != [] && s[|s| - 1] != whole[|whole| - 1]
    ensures !IsSuffix(s, whole) && s != whole
  {
    assert |s| <= |whole| ==> whole[|whole| - |s|..][|s| - 1] == whole[|whole| - 1];
  }

  /** What is gathered ends with a record that was asked for. */
  lemma LastGathered<V>(server: Timeline<V>, faults: nat -> Fault, k: nat, till: int, size: nat) returns (i: nat)
    requires Appends(server, 1) && size >= 1
    ensures Gathered(server, faults, k, till, size) == [] <==> Reply(server, faults, k, till, size) == []
    ensures var got := Gathered(server, faults, k, till, size);
            got != [] ==> i < Past(server(k), till) && got[|got| - 1] == server(k)[i]
  {
    hide Within, Page;
    assert Dated(server, 1, k);
    var lo, hi := PageUpTo(server(k), till, size);
    var got := Reply(server, faults, k, till, size);
    i := if got != [] then lo + |got| - 1 else 0;
  }

  /** A whole reply in positions of the history: the page is lo to hi, the next request asks for the first q. */
  lemma WholeTurn<V>(server: Timeline<V>, faults: nat -> Fault, k: nat, till: int, size: nat, next: int)
      returns (lo: nat, hi: nat, q: nat)
    requires Appends(server, 1) && size >= 1
    requires var got := Reply(server, faults, k, till, size);
             && got != [] && got == Page(server(k), NOT_SENT, till, size) && next == got[0].time - 1
    ensures q <= lo < hi <= |server(k)| && (Splits(server(k), till, size) <==> q < lo)
    ensures Gathered(server, faults, k, till, size)
            == Gathered(server, faults, k + 1, next, size) + server(k)[lo..hi]
    ensures Wanted(server, k, till) == server(k)[..lo] + server(k)[lo..hi]
    ensures q == Past(server(k + 1), next) && Wanted(server, k + 1, next) == server(k)[..q]
    ensures server(k) <= server(k + 1)
  {
    hide Within, Page;
    assert Dated(server, 1, k) && Extends(server, k, k + 1);
    var h := server(k);
    lo, hi := PageUpTo(h, till, size);
    q := PrefixStays(server, k, lo);
    assert server(k + 1)[..q] == h[..q];
    assert h[..hi] == h[..lo] + h[lo..hi];
    NoEarlierAfter(h, Earlier(h, h[lo].time));
  }

  /** What one whole reply contributes to the comparison with the true answer. */
  lemma WholeReply<V>(server: Timeline<V>, faults: nat -> Fault, k: nat, till: int, size: nat, next: int)
    requires Appends(server, 1) && NoTwins(server) && size >= 1
    requires var got := Reply(server, faults, k, till, size);
             && got != [] && got == Page(server(k), NOT_SENT, till, size) && next == got[0].time - 1
    ensures var rest, older := Gathered(server, faults, k + 1, next, size), Wanted(server, k + 1, next);
            && (IsSuffix(Gathered(server, faults, k, till, size), Wanted(server, k, till))
                <==> if Splits(server(k), till, size) then rest == [] else IsSuffix(rest, older))
            && (Gathered(server, faults, k, till, size) == Wanted(server, k, till)
                <==> !Splits(server(k), till, size) && rest == older)
  {
    hide Within, Page, Gathered, Wanted, Splits, Reply, Appends;
    var lo, hi, q := WholeTurn(server, faults, k, till, size, next);
    var rest, older := Gathered(server, faults, k + 1, next, size), server(k)[..lo];
    SuffixAppend(rest, older, server(k)[lo..hi]);
    if q < lo && rest != [] {
      var i := LastGathered(server, faults, k + 1, next, size);
      assert Differ(server(k), i, lo - 1);
      OtherEnd(rest, older);
    }
  }

  /** A reply cut midway misses the newest record of its page, and no later request asks for it again. */
  lemma CutReply<V>(server: Timeline<V>, faults: nat -> Fault, k: nat, till: int, size: nat)
    requires Appends(server, 1) && NoTwins(server) && size >= 1
    requires 0 < |Reply(server, faults, k, till, size)| < |Page(server(k), NOT_SENT, till, size)|
    ensures !IsSuffix(Gathered(server, faults, k, till, size), Wanted(server, k, till))
    ensures Gathered(server, faults, k, till, size) != Wanted(server, k, till)
  {
    hide Within, Page;
    assert Dated(server, 1, k);
    var lo, hi := PageUpTo(server(k), till, size);
    assert Differ(server(k), lo + |Reply(server, faults, k, till, size)| - 1, hi - 1);
    OtherEnd(Gathered(server, faults, k, till, size), Wanted(server, k, till));
  }

  lemma EmptyReply<V>(server: Timeline<V>, faults: nat -> Fault, k: nat, till: int, size: nat)
    requires Appends(server, 1) && size >= 1 && Reply(server, faults, k, till, size) == []
    ensures IsSuffix(Gathered(server, faults, k, till, size), Wanted(server, k, till))
    ensures Gathered(server, faults, k, till, size) == Wanted(server, k, till)
            <==> Page(server(k), NOT_SENT, till, size) == []
  {
    hide Within, Page;
    assert Dated(server, 1, k);
    var lo, hi := PageUpTo(server(k), till, size);
  }

  /** On stamps that may repeat, the loop returns a gap-free newest part of the true answer if and only if no request
      it issues fails midway and no page followed by more records splits records with the same stamp. */
  lemma {:induction false} SuffixOnRepeatedStamps<V>(server: Timeline<V>, faults: nat -> Fault, k: nat, till: int,
                                                     size: nat)
    requires Appends(server, 1) && NoTwins(server) && size >= 1
    ensures IsSuffix(Gathered(server, faults, k, till, size), Wanted(server, k, till))
            <==> NoneMidway(server, faults, k, till, size) && NeverSplitsBefore(server, faults, k, till, size)
    decreases if till == NOT_SENT then 1 else 0, till
  {
    hide Within, Page, Wanted, IsSuffix, Splits;
    var got, page := Reply(server, faults, k, till, size), Page(server(k), NOT_SENT, till, size);
    if got == [] {
      EmptyReply(server, faults, k, till, size);
    } else if |got| < |page| {
      CutReply(server, faults, k, till, size);
    } else {
      CursorMovesDown(server, faults, k, till, size);
      var next := got[0].time - 1;
      WholeReply(server, faults, k, till, size, next);
      var _ := LastGathered(server, faults, k + 1, next, size);
      SuffixOnRepeatedStamps(server, faults, k + 1, next, size);
    }
  }

  /** It returns the whole answer if and only if every request delivers its whole page and none splits. */
  lemma {:induction false} AllOnRepeatedStamps<V>(server: Timeline<V>, faults: nat -> Fault, k: nat, till: int,
                                                  size: nat)
    requires Appends(server, 1) && NoTwins(server) && size >= 1
    ensures Gathered(server, faults, k, till, size) == Wanted(server, k, till)
            <==> AllWhole(server, faults, k, till, size) && NeverSplits(server, faults, k, till, size)
    decreases if till == NOT_SENT then 1 else 0, till
  {
    hide Within, Page, Wanted, IsSuffix, Splits;
    var got, page := Reply(server, faults, k, till, size), Page(server(k), NOT_SENT, till, size);
    if got == [] {
      EmptyReply(server, faults, k, till, size);
    } else if |got| < |page| {
      CutReply(server, faults, k, till, size);
    } else {
      CursorMovesDown(server, faults, k, till, size);
      var next := got[0].time - 1;
      WholeReply(server, faults, k, till, size, next);
      var _ := LastGathered(server, faults, k + 1, next, size);
      AllOnRepeatedStamps(server, faults, k + 1, next, size);
    }
  }

  /** A request that fails leaves what it had converted: the result ends with the oldest n records of its page, and has
      a gap unless these are all or none. */
  lemma FailureKeepsConverted<V>(server: Timeline<V>, faults: nat -> Fault, k: nat, till: int, size: nat, n: nat)
    requires Appends(server, 1) && NoTwins(server) && size >= 1
    requires faults(k) == FailsAfter(n) && n <= |Page(server(k), NOT_SENT, till, size)|
    ensures var got, page := Gathered(server, faults, k, till, size), Page(server(k), NOT_SENT, till, size);
            && n <= |got| && got[|got| - n..] == page[..n]
            && (n == 0 ==> got == [])
            && (0 < n < |page| ==> !IsSuffix(got, Wanted(server, k, till)))
  {
    hide Within, Page, Wanted, IsSuffix;
    assert Reply(server, faults, k, till, size) == Page(server(k), NOT_SENT, till, size)[..n];
    if 0 < n < |Page(server(k), NOT_SENT, till, size)| {
      CutReply(server, faults, k, till, size);
    }
  }

  lemma RisingPageDoesNotSplit<V>(h: seq<Statistic<V>>, till: int, size: nat)
    requires Ascending(h) && size >= 1
    ensures !Splits(h, till, size)
  {
    hide Within, Page;
    AscendingIsSorted(h);
    var lo, hi := PageUpTo(h, till, size);
    if lo < hi {
      assert lo > 0 ==> Rises(h, lo - 1, lo);
      EarlierIs(h, h[lo].time, lo);
    }
  }

  lemma {:induction false} RisingNeverSplits<V>(server: Timeline<V>, faults: nat -> Fault, k: nat, till: int, size: nat)
    requires Grows(server, 1) && size >= 1
    ensures NeverSplits(server, faults, k, till, size) && NeverSplitsBefore(server, faults, k, till, size)
    decreases if till == NOT_SENT then 1 else 0, till
  {
    hide Reply, Splits;
    var got := Reply(server, faults, k, till, size);
    if got != [] {
      CursorMovesDown(server, faults, k, till, size);
      assert Stamped(server, 1, k);
      RisingPageDoesNotSplit(server(k), till, size);
      RisingNeverSplits(server, faults, k + 1, got[0].time - 1, size);
    }
  }

  /** On strictly increasing stamps only the failures matter. */
  lemma {:induction false} ContentUnderFailures<V>(server: Timeline<V>, faults: nat -> Fault, k: nat, till: int,
                                                   size: nat)
    requires Grows(server, 1) && size >= 1
    ensures IsSuffix(Gathered(server, faults, k, till, size), Wanted(server, k, till))
            <==> NoneMidway(server, faults, k, till, size)
    ensures Gathered(server, faults, k, till, size) == Wanted(server, k, till)
            <==> AllWhole(server, faults, k, till, size)
  {
    hide NoneMidway, AllWhole, NeverSplits, NeverSplitsBefore, Gathered, Wanted, IsSuffix;
    forall i: nat, a: nat, b: nat | a < b < |server(i)| ensures Differ(server(i), a, b) {
      assert Stamped(server, 1, i) && Rises(server(i), a, b);
    }
    RisingNeverSplits(server, faults, k, till, size);
    SuffixOnRepeatedStamps(server, faults, k, till, size);
    AllOnRepeatedStamps(server, faults, k, till, size);
  }

  lemma {:induction false} AnsweredIsWhole<V>(server: Timeline<V>, faults: nat -> Fault, k: nat, till: int, size: nat)
    requires Appends(server, 1) && forall i: nat :: faults(i) == Answered
    ensures AllWhole(server, faults, k, till, size)
    decreases if till == NOT_SENT then 1 else 0, till
  {
    var got := Reply(server, faults, k, till, size);
    if got != [] {
      CursorMovesDown(server, faults, k, till, size);
      AnsweredIsWhole(server, faults, k + 1, got[0].time - 1, size);
    }
  }

  /** With every request answered, the download is the range query at the first request: every record up to the
      asked time (or every record, when the time is the "not sent" value), once, in ascending order. */
  lemma DownloadIsRange<V>(server: Timeline<V>, faults: nat -> Fault, start: int, size: nat)
    requires Grows(server, 1) && size >= 1 && forall i: nat :: faults(i) == Answered
    ensures Gathered(server, faults, 0, start, size) == Within(server(0), NOT_SENT, start)
    ensures Ascending(Gathered(server, faults, 0, start, size))
  {
    AnsweredIsWhole(server, faults, 0, start, size);
    ContentUnderFailures(server, faults, 0, start, size);
    assert Stamped(server, 1, 0);
    AscendingIsSorted(server(0));
    WithinIsSlice(server(0), NOT_SENT, start);
    StretchAscends(server(0), 0, Past(server(0), start));
  }

  // ---- When stamps repeat ----------------------------------------------------------------------

  /** Cutting the first p records into pages from the newest on never separates records with the same stamp. */
  predicate CutsBetweenStamps<V>(h: seq<Statistic<V>>, p: nat, size: nat)
    requires p <= |h| && size >= 1
  {
    p <= size || (h[p - size - 1].time < h[p - size].time && CutsBetweenStamps(h, p - size, size))
  }

  /** The step to just before the oldest record of a page skips the older records with the same stamp, if there are
      any. */
  lemma {:induction false} GatheredUnlessCut<V>(server: Timeline<V>, faults: nat -> Fault, k: nat, till: int,
                                                size: nat, p: nat)
    requires Appends(server, 1) && size >= 1 && forall i: nat :: faults(i) == Answered
    requires p == Past(server(k), till) <= |server(0)|
    ensures |Gathered(server, faults, k, till, size)| <= p
    ensures Gathered(server, faults, k, till, size) == server(0)[..p] <==> CutsBetweenStamps(server(0), p, size)
    decreases if till == NOT_SENT then 1 else 0, till
  {
    hide Within, Page, Past;
    assert Dated(server, 1, k) && Extends(server, 0, k);
    var h := server(0);
    var lo, hi := PageUpTo(server(k), till, size);
    if p > 0 {
      var page := h[lo..p];
      CursorMovesDown(server, faults, k, till, size);
      var q := PrefixStays(server, k, lo);
      GatheredUnlessCut(server, faults, k + 1, h[lo].time - 1, size, q);
      var rest := Gathered(server, faults, k + 1, h[lo].time - 1, size);
      assert Gathered(server, faults, k, till, size) == rest + page;
      if q == lo {
        assert h[..p] == h[..lo] + page;
        SuffixAppend(rest, h[..lo], page);
      }
    }
  }

  /** With stamps that may repeat and every request answered, the download is complete if and only if no page
      boundary separates records with the same stamp. */
  lemma CompleteExactlyWhenCutsBetweenStamps<V>(server: Timeline<V>, faults: nat -> Fault, start: int, size: nat)
    requires Appends(server, 1) && size >= 1 && forall i: nat :: faults(i) == Answered
    ensures Gathered(server, faults, 0, start, size) == Within(server(0), NOT_SENT, start)
            <==> CutsBetweenStamps(server(0), Past(server(0), start), size)
  {
    assert Dated(server, 1, 0);
    WithinIsSlice(server(0), NOT_SENT, start);
    GatheredUnlessCut(server, faults, 0, start, size, Past(server(0), start));
  }

  // ---- How many requests it takes --------------------------------------------------------------

  ghost function Requests<V>(server: Timeline<V>, faults: nat -> Fault, k: nat, till: int, size: nat): nat
    requires Appends(server, 1)
    decreases if till == NOT_SENT then 1 else 0, till
  {
    var got := Reply(server, faults, k, till, size);
    if got == [] then 1
    else
      CursorMovesDown(server, faults, k, till, size);
      1 + Requests(server, faults, k + 1, got[0].time - 1, size)
  }

  /** Every page is full but the oldest, and one request more finds nothing. */
  lemma {:induction false} RequestCount<V>(server: Timeline<V>, faults: nat -> Fault, k: nat, till: int, size: nat)
    requires Grows(server, 1) && size >= 1 && forall i: nat :: faults(i) == Answered
    ensures Requests(server, faults, k, till, size) == CeilDiv(|Wanted(server, k, till)|, size) + 1
    decreases if till == NOT_SENT then 1 else 0, till
  {
    hide Within, Page;
    var page, next := OneTurn(server, faults, k, till, size);
    if page != [] {
      RequestCount(server, faults, k + 1, next, size);
    }
  }

  // ---- When the loop ends, for timestamps that may be zero ------------------------------------

  /** The loop ends within n further requests, the page in hand being `page` and the history standing still. */
  predicate EndsWithin<V>(h: seq<Statistic<V>>, page: seq<Statistic<V>>, size: nat, n: nat)
    decreases n
  {
    page == [] || (n > 0 && EndsWithin(h, Page(h, NOT_SENT, page[0].time - 1, size), size, n - 1))
  }

  ghost predicate Ends<V>(h: seq<Statistic<V>>, till: int, size: nat) {
    exists n: nat :: EndsWithin(h, Page(h, NOT_SENT, till, size), size, n)
  }

  /** On non-negative timestamps a page is empty only if nothing is asked for; its oldest record is asked for. */
  lemma PageHasOldest<V>(h: seq<Statistic<V>>, till: int, size: nat) returns (page: seq<Statistic<V>>)
    requires Sorted(h) && size >= 1
    ensures page == Page(h, NOT_SENT, till, size)
    ensures h != [] && (till == NOT_SENT || h[0].time <= till) ==> page != []
    ensures page != [] ==> h != [] && h[0].time <= page[0].time && (till != NOT_SENT ==> page[0].time <= till)
  {
    var lo, hi := PageUpTo(h, till, size);
    page := h[lo..hi];
    NoEarlierAfter(h, 0);
  }

  /** A record stamped zero sends the cursor to -1, which asks for the most recent records again. */
  lemma {:induction false} ZeroStampNeverEnds<V>(h: seq<Statistic<V>>, page: seq<Statistic<V>>, size: nat, n: nat)
    requires Sorted(h) && h != [] && h[0].time == 0 && size >= 1 && page != [] && page[0].time >= 0
    ensures !EndsWithin(h, page, size, n)
    decreases n
  {
    hide Within;
    if n > 0 {
      var next := PageHasOldest(h, page[0].time - 1, size);
      ZeroStampNeverEnds(h, next, size, n - 1);
    }
  }

  lemma {:induction false} PositiveStampsEnd<V>(h: seq<Statistic<V>>, page: seq<Statistic<V>>, size: nat)
      returns (n: nat)
    requires Sorted(h) && size >= 1 && (page != [] ==> page[0].time > 0 && h != [] && h[0].time > 0)
    ensures EndsWithin(h, page, size, n)
    decreases if page == [] then 0 else page[0].time
  {
    n := 0;
    if page != [] {
      var next := PageHasOldest(h, page[0].time - 1, size);
      n := PositiveStampsEnd(h, next, size);
      n := n + 1;
    }
  }

  /** With non-negative timestamps, which may repeat, and every request answered, the loop ends if and only if no
      record it asks for is stamped zero. */
  lemma EndsExactlyWhenNoZeroStamp<V>(h: seq<Statistic<V>>, till: int, size: nat)
    requires Sorted(h) && size >= 1 && (h != [] ==> h[0].time >= 0)
    ensures Ends(h, till, size) <==> till < NOT_SENT || h == [] || h[0].time != 0
  {
    var page := PageHasOldest(h, till, size);
    if page == [] {
      assert EndsWithin(h, page, size, 0);
    } else if h[0].time != 0 {
      var n := PositiveStampsEnd(h, page, size);
    } else {
      forall n: nat ensures !EndsWithin(h, page, size, n) {
        ZeroStampNeverEnds(h, page, size, n);
      }
    }
  }

  // ---- The loop --------------------------------------------------------------------------------

  lemma TurnUnfolds<V>(server: Timeline<V>, faults: nat -> Fault, k: nat, till: int, size: nat,
                       gathered: seq<Statistic<V>>)
    requires Appends(server, 1)
    ensures var got := Reply(server, faults, k, till, size);
            if got == [] then Gathered(server, faults, k, till, size) + gathered == gathered
            else Gathered(server, faults, k, till, size) + gathered
                 == Gathered(server, faults, k + 1, got[0].time - 1, size) + (got + gathered)
  {
    var got := Reply(server, faults, k, till, size);
    if got != [] {
      ConcatAssociates(Gathered(server, faults, k + 1, got[0].time - 1, size), got, gathered);
    }
  }

  /** What the content theorems say about the download from the first request on. */
  lemma WhatIsGathered<V>(server: Timeline<V>, faults: nat -> Fault, start: int)
    requires Appends(server, 1)
    ensures var got := Gathered(server, faults, 0, start, PAGE_SIZE);
            && (Grows(server, 1) && (forall i: nat :: faults(i) == Answered) ==>
                  got == Within(server(0), NOT_SENT, start) && Ascending(got))
            && (NoTwins(server) ==>
                  (IsSuffix(got, server(0)[..Past(server(0), start)])
                   <==> NoneMidway(server, faults, 0, start, PAGE_SIZE)
                        && NeverSplitsBefore(server, faults, 0, start, PAGE_SIZE)))
  {
    hide Within, Gathered, IsSuffix, NoneMidway, NeverSplitsBefore;
    if Grows(server, 1) && forall i: nat :: faults(i) == Answered {
      DownloadIsRange(server, faults, start, PAGE_SIZE);
    }
    if NoTwins(server) {
      SuffixOnRepeatedStamps(server, faults, 0, start, PAGE_SIZE);
    }
  }

  /** getOpenInterestStatistics, getLongShortRatio and getBuySellVolume: one loop, three kinds of value. */
  method DownloadBackwards<V>(server: Timeline<V>, faults: nat -> Fault, start: int) returns (r: seq<Statistic<V>>)
    requires Appends(server, 1)
    ensures r == Gathered(server, faults, 0, start, 500)
    ensures Grows(server, 1) && (forall i: nat :: faults(i) == Answered) ==>
              r == Within(server(0), -1, start) && Ascending(r)
    ensures NoTwins(server) ==>
              (IsSuffix(r, server(0)[..Past(server(0), start)])
               <==> NoneMidway(server, faults, 0, start, 500) && NeverSplitsBefore(server, faults, 0, start, 500))
  {
    hide Within, Gathered, IsSuffix, NoneMidway, NeverSplitsBefore;
    var till, issued: nat := start, 1;
    r := [];
    var statistics := Received(Page(server(0), NOT_SENT, till, PAGE_SIZE), faults(0));
    while statistics != []
      invariant issued > 0 && statistics == Reply(server, faults, issued - 1, till, PAGE_SIZE)
      invariant Gathered(server, faults, issued - 1, till, PAGE_SIZE) + r
                == Gathered(server, faults, 0, start, PAGE_SIZE)
      decreases if till == NOT_SENT then 1 else 0, till
    {
      TurnUnfolds(server, faults, issued - 1, till, PAGE_SIZE, r);
      CursorMovesDown(server, faults, issued - 1, till, PAGE_SIZE);
      r := statistics + r;
      till := statistics[0].time - 1;
      statistics := [];
      statistics, issued := Received(Page(server(issued), NOT_SENT, till, PAGE_SIZE), faults(issued)), issued + 1;
    }
    TurnUnfolds(server, faults, issued - 1, till, PAGE_SIZE, r);
    WhatIsGathered(server, faults, start);
  }
}
