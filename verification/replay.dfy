/**
 * The replay helpers of src/replay.cpp: the strict CSV field parsers, the
 * cadence grid arithmetic, the aggregated LevelBook that quotes are sampled
 * from, and the event loop of Replayer::run that emits a quote row at every
 * grid time before applying the event that passes it.
 *
 * Prices and sizes are ordered keys and values (real), not doubles; the
 * engine half of apply_book_event and realtime sleeping are not modelled.
 */
module Replay {
  import opened Types
  import opened Ascii
  import opened Taq

  // ---------------------------------------------------------------------
  // trim
  // ---------------------------------------------------------------------

  /** The first index at or after i that is not whitespace (|s| if none): trim's i loop. */
  function SkipSpaces(s: string, i: nat): (r: nat)
    requires i <= |s|
    ensures i <= r <= |s|
    ensures forall k :: i <= k < r ==> IsSpace(s[k])
    ensures r == |s| || !IsSpace(s[r])
    decreases |s| - i
  {
    if i < |s| && IsSpace(s[i]) then SkipSpaces(s, i + 1) else i
  }

  /** The last index down from j, not below lo, that follows a non-space: trim's j loop. */
  function BackSpaces(s: string, lo: nat, j: nat): (r: nat)
    requires lo <= j <= |s|
    ensures lo <= r <= j
    ensures forall k :: r <= k < j ==> IsSpace(s[k])
    ensures r == lo || !IsSpace(s[r - 1])
  {
    if j > lo && IsSpace(s[j - 1]) then BackSpaces(s, lo, j - 1) else j
  }

  /** trim's result: s between its leading and its trailing whitespace. */
  function Trimmed(s: string): string {
    var a := SkipSpaces(s, 0);
    s[a..BackSpaces(s, a, |s|)]
  }

  /**
   * The trimmed string is an infix s[a..b] with only whitespace before a and
   * from b on, and it neither starts nor ends with whitespace.
   */
  lemma TrimmedShape(s: string)
    ensures var a := SkipSpaces(s, 0); var b := BackSpaces(s, a, |s|); var r := Trimmed(s);
      && 0 <= a <= b <= |s| && r == s[a..b]
      && (forall k :: 0 <= k < a ==> IsSpace(s[k]))
      && (forall k :: b <= k < |s| ==> IsSpace(s[k]))
      && (r == [] || (!IsSpace(r[0]) && !IsSpace(r[|r| - 1])))
  {
    var a := SkipSpaces(s, 0);
    var b := BackSpaces(s, a, |s|);
    if a < b {
      assert s[a..b][0] == s[a];
      assert s[a..b][b - a - 1] == s[b - 1];
    }
  }

  /** Trimming twice is trimming once. */
  lemma TrimmedIdempotent(s: string)
    ensures Trimmed(Trimmed(s)) == Trimmed(s)
  {
    var r := Trimmed(s);
    TrimmedShape(s);
    assert SkipSpaces(r, 0) == 0;
    assert BackSpaces(r, 0, |r|) == |r|;
    assert r[0..|r|] == r;
  }

  /** trim: advance i over leading whitespace, retreat j over trailing whitespace. */
  method Trim(s: string) returns (r: string)
    ensures r == Trimmed(s)
  {
    var i, j := 0, |s|;
    while i < j && IsSpace(s[i])
      invariant 0 <= i <= j == |s|
      invariant SkipSpaces(s, i) == SkipSpaces(s, 0)
    {
      i := i + 1;
    }
    while j > i && IsSpace(s[j - 1])
      invariant i <= j <= |s|
      invariant BackSpaces(s, i, j) == BackSpaces(s, i, |s|)
    {
      j := j - 1;
    }
    r := s[i..j];
  }

  // ---------------------------------------------------------------------
  // parse_type, parse_side
  // ---------------------------------------------------------------------

  datatype NormType = BookEvent | TradeEvent

  /** parse_type: "book" or "trade" in any letter case; None where the C++ returns false. */
  function ParseType(t: string): (r: Option<NormType>)
    ensures r == Some(BookEvent) <==> Lower(t) == "book"
    ensures r == Some(TradeEvent) <==> Lower(t) == "trade"
  {
    var x := Lower(t);
    if x == "book" then Some(BookEvent)
    else if x == "trade" then Some(TradeEvent)
    else None
  }

  /** The type field is read without regard to case, and nothing else is stripped. */
  lemma ParseTypeIgnoresCase(t: string)
    ensures ParseType(t) == ParseType(Lower(t))
    ensures ParseType("Trade") == Some(TradeEvent) && ParseType(" book") == None
  {
    LowerIdempotent(t);
    assert Lower(" book")[0] == ' ';
  }

  const BID_WORDS: set<string> := {"b", "bid", "buy"}
  const ASK_WORDS: set<string> := {"a", "ask", "sell", "s"}

  /** The sides parse_side accepts: empty is Ask, then the lower-cased word lists. */
  function SideWord(s: string): Option<Side> {
    if s == [] then Some(Ask)
    else if Lower(s) in BID_WORDS then Some(Bid)
    else if Lower(s) in ASK_WORDS then Some(Ask)
    else None
  }

  /** No word is both a bid word and an ask word, and every accepted word is read without regard to case. */
  lemma SideWordsDisjoint(s: string)
    ensures BID_WORDS !! ASK_WORDS
    ensures SideWord(s) == SideWord(Lower(s))
  {
    LowerIdempotent(s);
  }

  /** parse_side: lower-case the field into x, check one-letter forms, then the words. */
  method ParseSide(s: string) returns (r: Option<Side>)
    ensures r == SideWord(s)
  {
    if |s| == 0 {
      return Some(Ask);
    }
    var x: string := [];
    var i := 0;
    while i < |s|
      invariant 0 <= i <= |s|
      invariant x == Lower(s[..i])
    {
      assert s[..i + 1][..i] == s[..i];
      x := x + [LowerChar(s[i])];
      i := i + 1;
    }
    assert s[..i] == s;
    if |x| == 1 {
      if x[0] == 'b' {
        assert x == "b";
        return Some(Bid);
      }
      if x[0] == 'a' {
        assert x == "a";
        return Some(Ask);
      }
      if x[0] == 's' {
        assert x == "s";
        return Some(Ask);
      }
    }
    if x == "b" || x == "bid" || x == "buy" {
      return Some(Bid);
    }
    if x == "a" || x == "ask" || x == "sell" || x == "s" {
      return Some(Ask);
    }
    return None;
  }

  // ---------------------------------------------------------------------
  // align_up
  // ---------------------------------------------------------------------

  /**
   * C++ `%` on int64: truncating division, so the remainder takes the dividend's
   * sign. a - r is a multiple of b in both cases, and the range fixes r.
   */
  function CRem(a: int, b: int): (r: int)
    requires b > 0
    ensures (a - r) % b == 0
    ensures a >= 0 ==> 0 <= r < b
    ensures a < 0 ==> -b < r <= 0
  {
    if a >= 0 then
      assert a - a % b == b * (a / b);
      DivModUnique(b * (a / b), b, a / b, 0);
      a % b
    else
      var q := (-a) / b;
      assert a + (-a) % b == b * (-q);
      DivModUnique(b * (-q), b, -q, 0);
      -((-a) % b)
  }

  /** align_up exactly as written, with the truncating remainder. */
  function AlignUpAsWritten(ts: int, step: int): int {
    if step <= 0 then ts
    else
      var r := CRem(ts, step);
      if r != 0 then ts + (step - r) else ts
  }

  /** A multiple of a positive step strictly between -step and step is 0. */
  lemma MultipleNearZero(step: int, d: int)
    requires step > 0 && -step < step * d < step
    ensures d == 0
  {
  }

  /** Quotient and remainder are the unique q, r with a == step * q + r and 0 <= r < step. */
  lemma DivModUnique(a: int, step: int, q: int, r: int)
    requires step > 0 && a == step * q + r && 0 <= r < step
    ensures a / step == q && a % step == r
  {
    var q0, r0 := a / step, a % step;
    assert a == step * q0 + r0;
    assert step * (q - q0) == r0 - r;
    MultipleNearZero(step, q - q0);
  }

  /** align_up: the least multiple of step at or after ts; ts itself when step <= 0. */
  function AlignUp(ts: int, step: int): (r: int)
    ensures step <= 0 ==> r == ts
    ensures step > 0 ==> r % step == 0 && ts <= r < ts + step
  {
    if step <= 0 then ts
    else
      var r := ts % step;
      var q := ts / step;
      assert ts == step * q + r;
      if r != 0 then
        assert ts + (step - r) == step * (q + 1) + 0;
        DivModUnique(ts + (step - r), step, q + 1, 0);
        ts + (step - r)
      else ts
  }

  /** No multiple of step at or after ts lies below AlignUp(ts, step). */
  lemma AlignUpLeast(ts: int, step: int, m: int)
    requires step > 0 && m % step == 0 && ts <= m
    ensures AlignUp(ts, step) <= m
  {
    var r := AlignUp(ts, step);
    if m < r {
      var k, j := m / step, r / step;
      assert m == step * k && r == step * j;
      assert step * (j - k) == r - m;
      MultipleNearZero(step, j - k);
    }
  }

  /** For the non-negative timestamps of the Unix epoch the code computes the intended value. */
  lemma AlignUpAgreesOnNonNegative(ts: int, step: int)
    requires ts >= 0
    ensures AlignUpAsWritten(ts, step) == AlignUp(ts, step)
  {
  }

  /** For a negative ts off the grid the code lands one full step past the intended value. */
  lemma AlignUpNegativeOvershoots(ts: int, step: int)
    requires step > 0 && ts < 0 && ts % step != 0
    ensures AlignUpAsWritten(ts, step) == AlignUp(ts, step) + step
  {
    var q := (-ts) / step;
    var p := (-ts) % step;
    assert -ts == step * q + p;
    if p == 0 {
      assert ts == step * (-q) + 0;
      DivModUnique(ts, step, -q, 0);
    } else {
      assert ts == step * (-q - 1) + (step - p);
      DivModUnique(ts, step, -q - 1, step - p);
    }
  }

  /** The smallest witness: align_up(-5, 3) is 0, where the grid point -3 is meant. */
  lemma AlignUpMinusFive()
    ensures AlignUpAsWritten(-5, 3) == 0 && AlignUp(-5, 3) == -3
  {
    DivModUnique(-5, 3, -2, 1);
  }

  // ---------------------------------------------------------------------
  // LevelBook
  // ---------------------------------------------------------------------

  /** The aggregated size at each price of each side. */
  datatype Levels = Levels(bids: map<real, real>, asks: map<real, real>)

  function SideOf(l: Levels, s: Side): map<real, real> {
    if s == Bid then l.bids else l.asks
  }

  /** Every stored size is positive. */
  ghost predicate Positive(l: Levels) {
    (forall p :: p in l.bids ==> l.bids[p] > 0.0) && (forall p :: p in l.asks ==> l.asks[p] > 0.0)
  }

  /** set_level on a value: a total <= 0 removes px (if present), any other total stores it. */
  function SetLevelSpec(l: Levels, s: Side, px: real, total: real): Levels {
    var m := SideOf(l, s);
    var m' := if total <= 0.0 then m - {px} else m[px := total];
    if s == Bid then l.(bids := m') else l.(asks := m')
  }

  /** set_level changes only px on side s, and keeps every stored size positive. */
  lemma SetLevelEffect(l: Levels, s: Side, px: real, total: real, p: real)
    ensures var l' := SetLevelSpec(l, s, px, total);
      && SideOf(l', Opposite(s)) == SideOf(l, Opposite(s))
      && (p in SideOf(l', s) <==> if p == px then total > 0.0 else p in SideOf(l, s))
      && (p in SideOf(l', s) ==> SideOf(l', s)[p] == if p == px then total else SideOf(l, s)[p])
      && (Positive(l) ==> Positive(l'))
  {
  }

  /**
   * Every non-empty finite set of reals has a greatest element. This is the real
   * counterpart of the integer lemma in Types: the level view is keyed by
   * double prices, and Dafny has no ordering type parameter to share one proof.
   */
  lemma {:induction false} HighestExists(s: set<real>)
    requires s != {}
    ensures exists m :: m in s && forall x :: x in s ==> x <= m
  {
    assert (forall z :: z !in s) ==> s == {};
    var y :| y in s;
    if s == {y} {
      assert forall x :: x in s ==> x <= y;
    } else {
      var rest := s - {y};
      HighestExists(rest);
      var m :| m in rest && forall x :: x in rest ==> x <= m;
      var top := if m < y then y else m;
      forall x | x in s
        ensures x <= top
      {
        if x != y { assert x in rest; }
      }
      assert top in s;
    }
  }

  /**
   * Every non-empty finite set of reals has a least element. This is the real
   * counterpart of the integer lemma in Types: the level view is keyed by
   * double prices, and Dafny has no ordering type parameter to share one proof.
   */
  lemma {:induction false} LowestExists(s: set<real>)
    requires s != {}
    ensures exists m :: m in s && forall x :: x in s ==> m <= x
  {
    assert (forall z :: z !in s) ==> s == {};
    var y :| y in s;
    if s == {y} {
      assert forall x :: x in s ==> y <= x;
    } else {
      var rest := s - {y};
      LowestExists(rest);
      var m :| m in rest && forall x :: x in rest ==> m <= x;
      var low := if y < m then y else m;
      forall x | x in s
        ensures low <= x
      {
        if x != y { assert x in rest; }
      }
      assert low in s;
    }
  }

  /** best_px: the highest bid or the lowest ask; None (the NaN) on an empty side. */
  function BestPrice(l: Levels, s: Side): (r: Option<real>)
    ensures r.None? <==> SideOf(l, s) == map[]
    ensures r.Some? ==> r.value in SideOf(l, s)
    ensures r.Some? ==> forall p :: p in SideOf(l, s) ==> if s == Bid then p <= r.value else r.value <= p
  {
    var m := SideOf(l, s);
    if m == map[] then None
    else
      assert (forall z :: z !in m.Keys) ==> m == map[];
      if s == Bid then
        HighestExists(m.Keys);
        var top :| top in m && forall x :: x in m ==> x <= top; Some(top)
      else
        LowestExists(m.Keys);
        var low :| low in m && forall x :: x in m ==> low <= x; Some(low)
  }

  /** best_sz: the size at best_px, 0 on an empty side. */
  function BestSize(l: Levels, s: Side): (r: real)
    ensures SideOf(l, s) == map[] ==> r == 0.0
    ensures SideOf(l, s) != map[] ==> r == SideOf(l, s)[BestPrice(l, s).value]
  {
    match BestPrice(l, s)
    case None => 0.0
    case Some(px) => SideOf(l, s)[px]
  }

  /** With positive sizes, a side shows a positive best size exactly when it is not empty. */
  lemma BestSizePositive(l: Levels, s: Side)
    requires Positive(l)
    ensures BestSize(l, s) > 0.0 <==> SideOf(l, s) != map[]
  {
  }

  /** LevelBook: the two aggregated sides, updated in place. */
  class LevelBook {
    var bids: map<real, real>
    var asks: map<real, real>

    function View(): Levels
      reads this
    {
      Levels(bids, asks)
    }

    constructor ()
      ensures View() == Levels(map[], map[])
    {
      bids, asks := map[], map[];
    }

    /** set_level. */
    method SetLevel(s: Side, px: real, total: real)
      modifies this
      ensures View() == SetLevelSpec(old(View()), s, px, total)
    {
      if total <= 0.0 {
        if s == Bid {
          if px in bids { bids := bids - {px}; }
        } else {
          if px in asks { asks := asks - {px}; }
        }
        return;
      }
      if s == Bid {
        bids := bids[px := total];
      } else {
        asks := asks[px := total];
      }
    }

    /** clear. */
    method Clear()
      modifies this
      ensures View() == Levels(map[], map[])
    {
      bids, asks := map[], map[];
    }
  }

  // ---------------------------------------------------------------------
  // Replayer::run
  // ---------------------------------------------------------------------

  /** A normalised input event. */
  datatype NormEvent = NormEvent(ts: int, kind: NormType, side: Side, price: real, qty: real)

  /** A call the replayer makes on the TaqWriter. */
  datatype Call = QuoteCall(q: QuoteArgs) | TradeCall(ts: int, price: real, qty: real, side: char)

  function Perform(w: Writer, c: Call): Writer {
    match c
    case QuoteCall(q) => WriteQuote(w, q)
    case TradeCall(ts, price, qty, side) => WriteTrade(w, ts, price, qty, side)
  }

  /** The writer after the calls, in order. */
  function Feed(w: Writer, calls: seq<Call>): Writer
    decreases |calls|
  {
    if calls == [] then w else Feed(Perform(w, calls[0]), calls[1..])
  }

  lemma {:induction false} FeedConcat(w: Writer, a: seq<Call>, b: seq<Call>)
    ensures Feed(w, a + b) == Feed(Feed(w, a), b)
    decreases |a|
  {
    if a == [] {
      assert a + b == b;
    } else {
      assert (a + b)[1..] == a[1..] + b;
      FeedConcat(Perform(w, a[0]), a[1..], b);
    }
  }

  /** The quote row sampled at grid time g: best bid and ask price and size. */
  function Sample(l: Levels, g: int): QuoteArgs {
    QuoteArgs(g, BestPrice(l, Bid), BestSize(l, Bid), BestPrice(l, Ask), BestSize(l, Ask))
  }

  /** The quotes the inner loop writes before an event at t, from grid time next on. */
  function Samples(l: Levels, next: int, t: int, cadence: int): seq<QuoteArgs>
    requires cadence > 0
    decreases if t >= next then t - next + 1 else 0
  {
    if t >= next then [Sample(l, next)] + Samples(l, next + cadence, t, cadence) else []
  }

  /** next_sample_ns after the inner loop. */
  function NextAfter(next: int, t: int, cadence: int): int
    requires cadence > 0
    decreases if t >= next then t - next + 1 else 0
  {
    if t >= next then NextAfter(next + cadence, t, cadence) else next
  }

  /**
   * Before an event at t, the inner loop samples the grid times next,
   * next + cadence, ... in order, each from the book as it stands.
   */
  lemma {:induction false} SamplesOnGrid(l: Levels, next: int, t: int, cadence: int, i: nat)
    requires cadence > 0 && i < |Samples(l, next, t, cadence)|
    ensures Samples(l, next, t, cadence)[i] == Sample(l, next + i * cadence)
    decreases i
  {
    if i > 0 {
      SamplesOnGrid(l, next + cadence, t, cadence, i - 1);
      assert next + cadence + (i - 1) * cadence == next + i * cadence;
    }
  }

  /**
   * The samples are exactly the grid times up to t: next_sample_ns ends at the
   * first grid time after t, one cadence past the last sample.
   */
  lemma {:induction false} SamplesUpTo(l: Levels, next: int, t: int, cadence: int)
    requires cadence > 0
    ensures var n := |Samples(l, next, t, cadence)|;
      && NextAfter(next, t, cadence) == next + n * cadence
      && t < NextAfter(next, t, cadence)
      && (n > 0 ==> NextAfter(next, t, cadence) - cadence <= t)
    decreases if t >= next then t - next + 1 else 0
  {
    if t >= next {
      SamplesUpTo(l, next + cadence, t, cadence);
      var n := |Samples(l, next + cadence, t, cadence)|;
      assert next + cadence + n * cadence == next + (n + 1) * cadence;
    }
  }

  function QuoteCalls(qs: seq<QuoteArgs>): (cs: seq<Call>)
    ensures |cs| == |qs| && forall i :: 0 <= i < |qs| ==> cs[i] == QuoteCall(qs[i])
  {
    if qs == [] then [] else [QuoteCall(qs[0])] + QuoteCalls(qs[1..])
  }

  /** The replay's progress: the level view, next_sample_ns, and the writer calls so far. */
  datatype Progress = Progress(levels: Levels, next: int, calls: seq<Call>)

  /** One pass of the for loop: the due quote rows, then the event. */
  function StepEvent(p: Progress, e: NormEvent, cadence: int): Progress
    requires cadence > 0
  {
    var due := QuoteCalls(Samples(p.levels, p.next, e.ts, cadence));
    var next := NextAfter(p.next, e.ts, cadence);
    if e.kind == BookEvent then
      Progress(SetLevelSpec(p.levels, e.side, e.price, if e.qty < 0.0 then 0.0 else e.qty), next, p.calls + due)
    else
      Progress(p.levels, next, p.calls + due + [TradeCall(e.ts, e.price, e.qty, if e.side == Bid then 'B' else 'A')])
  }

  function ReplayEvents(p: Progress, events: seq<NormEvent>, cadence: int): Progress
    requires cadence > 0
  {
    if events == [] then p
    else StepEvent(ReplayEvents(p, events[..|events| - 1], cadence), events[|events| - 1], cadence)
  }

  /** The timestamps of the quote calls, in order. */
  function QuoteTimes(calls: seq<Call>): seq<int>
    decreases |calls|
  {
    if calls == [] then []
    else (if calls[0].QuoteCall? then [calls[0].q.ts] else []) + QuoteTimes(calls[1..])
  }

  lemma {:induction false} QuoteTimesConcat(a: seq<Call>, b: seq<Call>)
    ensures QuoteTimes(a + b) == QuoteTimes(a) + QuoteTimes(b)
    decreases |a|
  {
    if a == [] {
      assert a + b == b;
    } else {
      assert (a + b)[1..] == a[1..] + b;
      QuoteTimesConcat(a[1..], b);
    }
  }

  lemma {:induction false} QuoteTimesOfQuotes(qs: seq<QuoteArgs>)
    ensures |QuoteTimes(QuoteCalls(qs))| == |qs|
    ensures forall i :: 0 <= i < |qs| ==> QuoteTimes(QuoteCalls(qs))[i] == qs[i].ts
    decreases |qs|
  {
    if qs != [] {
      assert QuoteCalls(qs)[1..] == QuoteCalls(qs[1..]);
      QuoteTimesOfQuotes(qs[1..]);
    }
  }

  /** xs is start, start + cadence, start + 2 * cadence, ... */
  ghost predicate OnGrid(xs: seq<int>, start: int, cadence: int) {
    forall i :: 0 <= i < |xs| ==> xs[i] == start + i * cadence
  }

  lemma OnGridConcat(a: seq<int>, b: seq<int>, start: int, cadence: int)
    requires OnGrid(a, start, cadence) && OnGrid(b, start + |a| * cadence, cadence)
    ensures OnGrid(a + b, start, cadence)
  {
    forall i | |a| <= i < |a + b|
      ensures (a + b)[i] == start + i * cadence
    {
      var k := i - |a|;
      assert (a + b)[i] == b[k] == start + |a| * cadence + k * cadence;
      assert |a| * cadence + k * cadence == i * cadence;
    }
  }

  /** The quote calls before one event are written at consecutive grid times from next. */
  lemma SampleTimesOnGrid(l: Levels, next: int, t: int, cadence: int)
    requires cadence > 0
    ensures var qs := Samples(l, next, t, cadence);
      |QuoteTimes(QuoteCalls(qs))| == |qs| && OnGrid(QuoteTimes(QuoteCalls(qs)), next, cadence)
  {
    var qs := Samples(l, next, t, cadence);
    QuoteTimesOfQuotes(qs);
    forall i | 0 <= i < |qs|
      ensures QuoteTimes(QuoteCalls(qs))[i] == next + i * cadence
    {
      SamplesOnGrid(l, next, t, cadence, i);
    }
  }

  /** The replay is on the grid from start, and next_sample_ns is the grid time after its last quote. */
  ghost predicate GridSoFar(p: Progress, start: int, cadence: int) {
    OnGrid(QuoteTimes(p.calls), start, cadence) && p.next == start + |QuoteTimes(p.calls)| * cadence
  }

  /** The calls of one event: its due quotes, then its trade row if it is a trade. */
  lemma StepEventCalls(p: Progress, e: NormEvent, cadence: int)
    requires cadence > 0
    ensures QuoteTimes(StepEvent(p, e, cadence).calls) ==
            QuoteTimes(p.calls) + QuoteTimes(QuoteCalls(Samples(p.levels, p.next, e.ts, cadence)))
  {
    var due := QuoteCalls(Samples(p.levels, p.next, e.ts, cadence));
    QuoteTimesConcat(p.calls, due);
    if e.kind == TradeEvent {
      var tc := TradeCall(e.ts, e.price, e.qty, if e.side == Bid then 'B' else 'A');
      QuoteTimesConcat(p.calls + due, [tc]);
      assert QuoteTimes([tc]) == [] by {
        assert [tc][1..] == [];
      }
    }
  }

  lemma GridStep(p: Progress, e: NormEvent, start: int, cadence: int)
    requires cadence > 0 && GridSoFar(p, start, cadence)
    ensures GridSoFar(StepEvent(p, e, cadence), start, cadence)
  {
    var qs := Samples(p.levels, p.next, e.ts, cadence);
    var old_times := QuoteTimes(p.calls);
    SamplesUpTo(p.levels, p.next, e.ts, cadence);
    SampleTimesOnGrid(p.levels, p.next, e.ts, cadence);
    StepEventCalls(p, e, cadence);
    OnGridConcat(old_times, QuoteTimes(QuoteCalls(qs)), start, cadence);
    var n0, n1 := |old_times|, |qs|;
    assert n0 * cadence + n1 * cadence == (n0 + n1) * cadence;
  }

  /**
   * Over a whole replay started at grid time start, the quote rows are written
   * at start, start + cadence, start + 2 * cadence, ... with no time skipped or
   * repeated, and next_sample_ns is the grid time after the last of them.
   */
  lemma {:induction false} ReplayGrid(l: Levels, start: int, events: seq<NormEvent>, cadence: int)
    requires cadence > 0
    ensures GridSoFar(ReplayEvents(Progress(l, start, []), events, cadence), start, cadence)
  {
    if events == [] {
      assert QuoteTimes([]) == [];
    } else {
      var p := ReplayEvents(Progress(l, start, []), events[..|events| - 1], cadence);
      ReplayGrid(l, start, events[..|events| - 1], cadence);
      GridStep(p, events[|events| - 1], start, cadence);
    }
  }

  /** Replayer: the level view quotes are sampled from, and the TAQ writer. */
  class Replayer {
    const levels: LevelBook
    const writer: TaqWriter

    constructor (levels: LevelBook, writer: TaqWriter)
      ensures this.levels == levels && this.writer == writer
    {
      this.levels := levels;
      this.writer := writer;
    }

    /** The inner while loop: one quote row per grid time up to t. */
    method EmitDue(next0: int, t: int, cadence: int) returns (next: int)
      requires cadence > 0
      modifies writer
      ensures next == NextAfter(next0, t, cadence)
      ensures writer.Abs() == Feed(old(writer.Abs()), QuoteCalls(Samples(levels.View(), next0, t, cadence)))
    {
      ghost var l := levels.View();
      next := next0;
      while t >= next
        invariant Feed(old(writer.Abs()), QuoteCalls(Samples(l, next0, t, cadence))) ==
                  Feed(writer.Abs(), QuoteCalls(Samples(l, next, t, cadence)))
        invariant NextAfter(next0, t, cadence) == NextAfter(next, t, cadence)
        decreases t - next
      {
        var bidPx := BestPrice(levels.View(), Bid);
        var bidSz := BestSize(levels.View(), Bid);
        var askPx := BestPrice(levels.View(), Ask);
        var askSz := BestSize(levels.View(), Ask);
        assert QuoteCalls(Samples(l, next, t, cadence)) ==
               [QuoteCall(Sample(l, next))] + QuoteCalls(Samples(l, next + cadence, t, cadence));
        writer.WriteQuoteRow(next, bidPx, bidSz, askPx, askSz);
        next := next + cadence;
      }
    }

    /**
     * run with cadence > 0: false on no events; otherwise sample times start
     * at the corrected AlignUp of the first ts, and the writer and the level
     * view end as the replay of all events computes.
     */
    method Run(events: seq<NormEvent>, cadence: int) returns (ok: bool)
      requires cadence > 0
      modifies levels, writer
      ensures ok <==> events != []
      ensures events == [] ==> levels.View() == old(levels.View()) && writer.Abs() == old(writer.Abs())
      ensures events != [] ==>
        var r := ReplayEvents(Progress(old(levels.View()), AlignUp(events[0].ts, cadence), []), events, cadence);
        levels.View() == r.levels && writer.Abs() == Feed(old(writer.Abs()), r.calls)
    {
      if |events| == 0 {
        return false;
      }
      var next := AlignUp(events[0].ts, cadence);
      ghost var p0 := Progress(levels.View(), next, []);
      ghost var w0 := writer.Abs();
      for i := 0 to |events|
        invariant var r := ReplayEvents(p0, events[..i], cadence);
          levels.View() == r.levels && next == r.next && writer.Abs() == Feed(w0, r.calls)
      {
        var e := events[i];
        ghost var p := ReplayEvents(p0, events[..i], cadence);
        assert events[..i + 1][..i] == events[..i];
        ghost var due := QuoteCalls(Samples(p.levels, p.next, e.ts, cadence));
        next := EmitDue(next, e.ts, cadence);
        FeedConcat(w0, p.calls, due);
        if e.kind == BookEvent {
          levels.SetLevel(e.side, e.price, if e.qty < 0.0 then 0.0 else e.qty);
        } else {
          var sideChar := if e.side == Bid then 'B' else 'A';
          writer.WriteTradeRow(e.ts, e.price, e.qty, sideChar);
          FeedConcat(w0, p.calls + due, [TradeCall(e.ts, e.price, e.qty, sideChar)]);
        }
      }
      assert events[..|events|] == events;
      ok := true;
    }
  }
}
