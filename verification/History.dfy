/** Time-stamped records kept by the exchange, and the page the exchange returns for one REST query.
    Candles are stamped with their open time, funding rates with their funding time, and the
    statistics with their timestamp. */
module History {
  datatype Record<+V> = Record(time: int, value: V)

  /** The query builders leave a parameter out of the request when it holds this value. */
  const NOT_SENT := -1

  /** The orders below quantify over these named comparisons, so that a proof picks the positions it compares. */
  predicate InOrder<V>(h: seq<Record<V>>, i: nat, j: nat)
    requires i < j < |h|
  {
    h[i].time <= h[j].time
  }

  predicate Rises<V>(h: seq<Record<V>>, i: nat, j: nat)
    requires i < j < |h|
  {
    h[i].time < h[j].time
  }

  ghost predicate Sorted<V>(h: seq<Record<V>>) {
    forall i: nat, j: nat :: i < j < |h| ==> InOrder(h, i, j)
  }

  ghost predicate Ascending<V>(h: seq<Record<V>>) {
    forall i: nat, j: nat :: i < j < |h| ==> Rises(h, i, j)
  }

  lemma AscendingIsSorted<V>(h: seq<Record<V>>)
    requires Ascending(h)
    ensures Sorted(h)
  {
    forall i: nat, j: nat | i < j < |h| ensures InOrder(h, i, j) {
      assert Rises(h, i, j);
    }
  }

  predicate Asked(t: int, from: int, till: int) {
    && (from == NOT_SENT || from <= t)
    && (till == NOT_SENT || t <= till)
  }

  /** The one-shot range query: every record in the asked range, however many there are. */
  function Within<V>(h: seq<Record<V>>, from: int, till: int): seq<Record<V>> {
    if h == [] then []
    else (if Asked(h[0].time, from, till) then [h[0]] else []) + Within(h[1..], from, till)
  }

  /** Both ends of the range belong to it, and an end of -1 does not bound it. */
  lemma {:induction false} WithinExactly<V>(h: seq<Record<V>>, from: int, till: int)
    ensures forall r :: r in Within(h, from, till) <==>
              r in h && (from == -1 || from <= r.time) && (till == -1 || r.time <= till)
  {
    if h != [] {
      WithinExactly(h[1..], from, till);
      assert h == [h[0]] + h[1..];
    }
  }

  /** One bounded page: the earliest records of the range, or the most recent ones when no start is sent. */
  function Page<V>(h: seq<Record<V>>, from: int, till: int, size: nat): seq<Record<V>> {
    var hits := Within(h, from, till);
    if |hits| <= size then hits
    else if from == NOT_SENT then hits[|hits| - size..]
    else hits[..size]
  }

  /** Number of leading records stamped before t. */
  function Earlier<V>(h: seq<Record<V>>, t: int): (n: nat)
    ensures n <= |h|
    ensures forall i :: 0 <= i < n ==> h[i].time < t
    ensures n < |h| ==> t <= h[n].time
  {
    if h == [] || t <= h[0].time then 0 else 1 + Earlier(h[1..], t)
  }

  lemma EarlierIs<V>(h: seq<Record<V>>, t: int, n: nat)
    requires Sorted(h) && n <= |h|
    requires n > 0 ==> h[n - 1].time < t
    requires n < |h| ==> t <= h[n].time
    ensures Earlier(h, t) == n
  {
    var e := Earlier(h, t);
    assert e < n - 1 ==> InOrder(h, e, n - 1);
  }

  function First<V>(h: seq<Record<V>>, from: int): (n: nat)
    ensures n <= |h|
  {
    if from == NOT_SENT then 0 else Earlier(h, from)
  }

  function Past<V>(h: seq<Record<V>>, till: int): (n: nat)
    ensures n <= |h|
  {
    if till == NOT_SENT then |h| else Earlier(h, till + 1)
  }

  function Slice<V>(h: seq<Record<V>>, lo: nat, hi: nat): seq<Record<V>>
    requires hi <= |h|
  {
    if lo <= hi then h[lo..hi] else []
  }

  /** The asked stretch of a sorted history, found by position. */
  function Range<V>(h: seq<Record<V>>, from: int, till: int): seq<Record<V>> {
    Slice(h, First(h, from), Past(h, till))
  }

  /** Position at which the page starts. */
  function PageStart<V>(h: seq<Record<V>>, from: int, till: int, size: nat): nat {
    if from != NOT_SENT then Earlier(h, from)
    else if Past(h, till) < size then 0 else Past(h, till) - size
  }

  /** The query result is h[lo..hi] as soon as exactly those positions are asked for. */
  lemma {:induction false} WithinBetween<V>(h: seq<Record<V>>, from: int, till: int, lo: nat, hi: nat)
    requires lo <= hi <= |h|
    requires forall i :: 0 <= i < |h| ==> (lo <= i < hi <==> Asked(h[i].time, from, till))
    ensures Within(h, from, till) == h[lo..hi]
  {
    if h != [] {
      var tail, lo', hi' := h[1..], if lo > 0 then lo - 1 else 0, if hi > 0 then hi - 1 else 0;
      forall i | 0 <= i < |tail| ensures lo' <= i < hi' <==> Asked(tail[i].time, from, till) {
        assert tail[i] == h[i + 1];
      }
      WithinBetween(tail, from, till, lo', hi');
      assert lo > 0 ==> h[lo..hi] == tail[lo - 1..hi - 1];
      assert lo == 0 < hi ==> h[lo..hi] == [h[0]] + tail[..hi - 1];
    }
  }

  lemma NoEarlierAfter<V>(h: seq<Record<V>>, p: nat)
    requires Sorted(h)
    ensures forall i :: p < i < |h| ==> h[p].time <= h[i].time
  {
    forall i | p < i < |h| ensures h[p].time <= h[i].time {
      assert InOrder(h, p, i);
    }
  }

  /** On a sorted history a range query is a contiguous slice. */
  lemma WithinIsSlice<V>(h: seq<Record<V>>, from: int, till: int)
    requires Sorted(h)
    ensures Within(h, from, till) == Range(h, from, till)
  {
    var lo, hi := First(h, from), Past(h, till);
    NoEarlierAfter(h, lo);
    NoEarlierAfter(h, hi);
    if lo <= hi {
      WithinBetween(h, from, till, lo, hi);
    } else {
      WithinBetween(h, from, till, 0, 0);
    }
  }

  /** A page is the stretch of the history that starts at the cursor and is cut at `size` or at the range end. */
  lemma PageIsSlice<V>(h: seq<Record<V>>, from: int, till: int, size: nat) returns (lo: nat, hi: nat)
    requires Sorted(h)
    ensures lo <= hi <= |h| && Page(h, from, till, size) == h[lo..hi]
    ensures lo < hi ==> lo == PageStart(h, from, till, size) && hi <= Past(h, till)
    ensures hi - lo < size && lo < hi ==> hi == Past(h, till)
    ensures hi - lo <= size
    ensures size >= 1 ==> (lo == hi <==> Slice(h, PageStart(h, from, till, size), Past(h, till)) == [])
  {
    hide Within;
    WithinIsSlice(h, from, till);
    lo, hi := First(h, from), Past(h, till);
    if lo >= hi {
      hi := lo;
    } else if hi - lo > size {
      var all := h[lo..hi];
      if from == NOT_SENT {
        assert all[|all| - size..] == h[hi - size..hi];
        lo := hi - size;
      } else {
        assert all[..size] == h[lo..lo + size];
        hi := lo + size;
      }
    }
  }

  predicate TimeKept<V>(h: seq<Record<V>>, later: seq<Record<V>>, i: nat)
    requires i < |h| <= |later|
  {
    later[i].time == h[i].time
  }

  /** A later history keeps the times of the records it already had, at their positions. */
  ghost predicate TimesKept<V>(h: seq<Record<V>>, later: seq<Record<V>>) {
    |h| <= |later| && forall i: nat :: i < |h| ==> TimeKept(h, later, i)
  }

  /** Positions do not move: the first record at or after `from` keeps its index in later histories. */
  lemma EarlierIsStable<V>(h: seq<Record<V>>, later: seq<Record<V>>, from: int)
    requires Sorted(later) && TimesKept(h, later) && Earlier(h, from) < |h|
    ensures Earlier(later, from) == Earlier(h, from)
  {
    var p := Earlier(h, from);
    assert TimeKept(h, later, p);
    assert p > 0 ==> TimeKept(h, later, p - 1);
    EarlierIs(later, from, p);
  }

  /** Where a download starts: at the caller's start, or without one at the first record of the first page. */
  function Anchor<V>(h: seq<Record<V>>, start: int, end: int, size: nat): int {
    var page := Page(h, start, end, size);
    if start == NOT_SENT && page != [] then page[0].time else start
  }

  lemma AnchorIsPageStart<V>(h: seq<Record<V>>, later: seq<Record<V>>, start: int, end: int, size: nat)
    requires Ascending(h) && Ascending(later) && TimesKept(h, later) && size >= 1
    requires Page(h, start, end, size) != [] && forall r :: r in h ==> r.time >= 0
    ensures var anchor := Anchor(h, start, end, size);
            && anchor != NOT_SENT
            && Range(later, anchor, end) == Slice(later, PageStart(h, start, end, size), Past(later, end))
  {
    AscendingIsSorted(h);
    AscendingIsSorted(later);
    var lo, hi := PageIsSlice(h, start, end, size);
    var anchor := Anchor(h, start, end, size);
    assert h[lo] in h;
    if start == NOT_SENT {
      assert lo > 0 ==> Rises(h, lo - 1, lo);
      EarlierIs(h, anchor, lo);
    }
    EarlierIsStable(h, later, anchor);
  }

  lemma StretchAscends<V>(h: seq<Record<V>>, lo: nat, hi: nat)
    requires Ascending(h) && lo <= hi <= |h|
    ensures Ascending(h[lo..hi])
  {
    forall i: nat, j: nat | i < j < hi - lo ensures Rises(h[lo..hi], i, j) {
      assert Rises(h, lo + i, lo + j);
    }
  }

  // ---- The exchange during a download ----------------------------------------------------------

  /** The exchange as one download sees it: its history at the moment request i is answered. */
  type Timeline<V> = nat -> seq<Record<V>>

  /** An exchange whose history stands still during the download. */
  function Frozen<V>(h: seq<Record<V>>): Timeline<V> {
    _ => h
  }

  ghost predicate Dated<V>(server: Timeline<V>, least: int, i: nat) {
    Sorted(server(i)) && forall r :: r in server(i) ==> least <= r.time
  }

  ghost predicate Extends<V>(server: Timeline<V>, i: nat, j: nat) {
    server(i) <= server(j)
  }

  /** Records are only ever appended, in the order of their stamps, which are at least `least`. */
  ghost predicate Appends<V>(server: Timeline<V>, least: int) {
    && (forall i: nat :: Dated(server, least, i))
    && (forall i: nat, j: nat :: i <= j ==> Extends(server, i, j))
  }

  ghost predicate Stamped<V>(server: Timeline<V>, least: int, i: nat) {
    Ascending(server(i)) && forall r :: r in server(i) ==> least <= r.time
  }

  /** The same with strictly increasing stamps. */
  ghost predicate Grows<V>(server: Timeline<V>, least: int) {
    Appends(server, least) && forall i: nat :: Stamped(server, least, i)
  }

  /** None of the first n requests of a download throws. */
  ghost predicate AllAnswered(fails: nat -> bool, n: int) {
    forall i: nat :: i < n ==> !fails(i)
  }

  /** n divided by d, rounded up: the number of pages of size d that n records fill or start. */
  function CeilDiv(n: nat, d: nat): nat
    requires d >= 1
  {
    if n == 0 then 0 else if n <= d then 1 else 1 + CeilDiv(n - d, d)
  }

  lemma {:induction false} CeilDivRoundsUp(n: nat, d: nat)
    requires d >= 1
    ensures n == 0 ==> CeilDiv(n, d) == 0
    ensures n > 0 ==> (CeilDiv(n, d) - 1) * d < n <= CeilDiv(n, d) * d
  {
    if n > d {
      CeilDivRoundsUp(n - d, d);
      var q := CeilDiv(n - d, d);
      assert q * d == (q - 1) * d + d && (q + 1) * d == q * d + d;
    }
  }
}
