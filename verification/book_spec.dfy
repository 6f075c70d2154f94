/**
 * The matching engine of BookCore (src/book_core.cpp) stated on values: a
 * book is the two ladders' views, the id index and the next node identity.
 * Each public operation (submit_market, submit_limit, cancel, modify) is a
 * function from a book to a book and a result; matching is the function
 * Match, one MatchStep per iteration of match_against's loop.
 *
 * The cached best prices are not part of a Book: they are always the
 * BestOf of their ladder, which Engine.BookCore proves of its own fields.
 */
module BookSpec {
  import opened Types
  import opened PriceLevels

  /** An id_index_ entry: the side and price the order rests at and its node. */
  datatype IdEntry = IdEntry(side: Side, px: int, node: nat)

  datatype Book = Book(bids: map<int, Level>, asks: map<int, Level>, index: map<int, IdEntry>, nextNode: nat)

  datatype NewOrder = NewOrder(seqNo: int, ts: int, id: int, user: int, side: Side, price: int, qty: int, flags: set<Flag>)

  datatype ExecResult = ExecResult(filled: int, remaining: int)

  function EmptyBook(): Book
  {
    Book(map[], map[], map[], 0)
  }

  /** bids_ or asks_. */
  function LadderOf(b: Book, s: Side): map<int, Level>
  {
    if s == Bid then b.bids else b.asks
  }

  function WithLadder(b: Book, s: Side, m: map<int, Level>): (r: Book)
    ensures LadderOf(r, s) == m && LadderOf(r, Opposite(s)) == LadderOf(b, Opposite(s))
    ensures r.index == b.index && r.nextNode == b.nextNode
  {
    if s == Bid then b.(bids := m) else b.(asks := m)
  }

  /** best_bid() or best_ask() of a book whose caches are exact. */
  function Best(b: Book, s: Side): int
  {
    BestOf(s, LadderOf(b, s))
  }

  /** Every resting order has a positive quantity and an already allocated node; non-empty levels sit at ticks. */
  ghost predicate LevelOk(L: Level, bound: nat)
  {
    forall i :: 0 <= i < |L| ==> L[i].qty > 0 && L[i].node < bound
  }

  ghost predicate WellFormedLadder(m: map<int, Level>, bound: nat)
  {
    forall p :: p in m ==> (m[p] != [] ==> IsTick(p)) && LevelOk(m[p], bound)
  }

  ghost predicate WellFormed(b: Book)
  {
    WellFormedLadder(b.bids, b.nextNode) && WellFormedLadder(b.asks, b.nextNode)
  }

  // ----- match_against -----

  /** The taker's side, user, whether its flags request STP, and px_limit. */
  datatype Taker = Taker(side: Side, user: int, stp: bool, limit: int)

  /** A trade against a resting order; match_against only sums them, the record is kept for stating properties. */
  datatype Fill = Fill(makerId: int, makerUser: int, px: int, qty: int)

  /** The loop state of match_against: the book, `want`, `filled`, and the trades made so far. */
  datatype MatchState = MatchState(book: Book, want: int, filled: int, fills: seq<Fill>)

  /** The `crosses` lambda: a buyer accepts asks at or below its limit, a seller bids at or above. */
  predicate Crosses(t: Taker, px: int)
  {
    if t.side == Bid then px <= t.limit else px >= t.limit
  }

  /** The loop's guard and its two breaks: quantity wanted, opposite best not the sentinel, best crosses. */
  predicate CanTrade(t: Taker, st: MatchState)
  {
    var best := Best(st.book, Opposite(t.side));
    st.want > 0 && best != Sentinel(Opposite(t.side)) && Crosses(t, best)
  }

  /**
   * One iteration on the head of the best opposite level: with STP and the
   * same owner the head is cancelled; otherwise min(want, qty) trades and a
   * head left at zero is removed. Either way a removed head leaves the index.
   */
  function MatchStep(t: Taker, st: MatchState): MatchState
    requires CanTrade(t, st)
  {
    var os := Opposite(t.side);
    var m: map<int, Level> := LadderOf(st.book, os);
    var px := BestOf(os, m);
    var L := m[px];
    var h := L[0];
    if t.stp && h.user == t.user then
      st.(book := WithLadder(st.book, os, m[px := L[1..]]).(index := st.book.index - {h.id}))
    else
      var tr := Min(st.want, h.qty);
      var rest := if h.qty - tr == 0 then L[1..] else [h.(qty := h.qty - tr)] + L[1..];
      var idx := if h.qty - tr == 0 then st.book.index - {h.id} else st.book.index;
      MatchState(WithLadder(st.book, os, m[px := rest]).(index := idx),
                 st.want - tr, st.filled + tr, st.fills + [Fill(h.id, h.user, px, tr)])
  }

  /** Each step empties a price level, shortens the best level, or ends the wanting. */
  lemma MatchStepDecreases(t: Taker, st: MatchState)
    requires CanTrade(t, st)
    ensures var os := Opposite(t.side);
            var m: map<int, Level> := LadderOf(st.book, os);
            var r := MatchStep(t, st);
            var m' := LadderOf(r.book, os);
            |NonEmptyPrices(m')| < |NonEmptyPrices(m)| ||
            (|NonEmptyPrices(m')| == |NonEmptyPrices(m)| &&
             (|LevelAt(m', BestOf(os, m'))| < |LevelAt(m, BestOf(os, m))| ||
              (|LevelAt(m', BestOf(os, m'))| == |LevelAt(m, BestOf(os, m))| && st.want > 0 && r.want <= 0)))
  {
    var os := Opposite(t.side);
    var m: map<int, Level> := LadderOf(st.book, os);
    var px := BestOf(os, m);
    var r := MatchStep(t, st);
    var m' := LadderOf(r.book, os);
    assert m' == m[px := m'[px]];
    BestAfterReplace(os, m, px, m'[px]);
    if m'[px] == [] {
      assert NonEmptyPrices(m') == NonEmptyPrices(m) - {px};
    } else {
      assert NonEmptyPrices(m') == NonEmptyPrices(m);
    }
  }

  /**
   * match_against from loop state st: it runs until nothing is wanted, the
   * opposite side shows its empty sentinel, or its best no longer crosses.
   * Quantity moves from `want` to `filled` and nothing else of the taker's
   * own side changes.
   */
  function Match(t: Taker, st: MatchState): (r: MatchState)
    ensures r.filled + r.want == st.filled + st.want
    ensures !CanTrade(t, r)
    ensures LadderOf(r.book, t.side) == LadderOf(st.book, t.side)
    ensures r.book.nextNode == st.book.nextNode
    ensures r.book.index.Keys <= st.book.index.Keys
    decreases |NonEmptyPrices(LadderOf(st.book, Opposite(t.side)))|,
              |LevelAt(LadderOf(st.book, Opposite(t.side)), Best(st.book, Opposite(t.side)))|,
              if st.want > 0 then 1 else 0
  {
    if !CanTrade(t, st) then st
    else
      MatchStepDecreases(t, st);
      Match(t, MatchStep(t, st))
  }

  /** Total quantity of a sequence of fills. */
  function SumFills(fs: seq<Fill>): int
  {
    if fs == [] then 0 else SumFills(fs[..|fs| - 1]) + fs[|fs| - 1].qty
  }

  /**
   * Price-time priority at one level: what is left of a level is a tail of
   * its queue, whose first order may have lost part of its quantity (and
   * nothing else).
   */
  ghost predicate FifoRemainder(before: Level, after: Level)
  {
    |after| <= |before| &&
    (after != [] ==>
       var k := |before| - |after|;
       after[1..] == before[k + 1..] &&
       after[0] == before[k].(qty := after[0].qty) && after[0].qty <= before[k].qty)
  }

  lemma FifoRemainderTrans(a: Level, b: Level, c: Level)
    requires FifoRemainder(a, b) && FifoRemainder(b, c)
    ensures FifoRemainder(a, c)
  {
    if c != [] {
      var k1, k2 := |a| - |b|, |b| - |c|;
      if k2 > 0 {
        assert c[1..] == b[1..][k2..];
        assert b[k2] == b[1..][k2 - 1] == a[k1 + 1..][k2 - 1] == a[k1 + k2];
      }
    }
  }

  /**
   * One step in plain terms: it works on the best opposite level, which
   * crosses; that level becomes a FIFO remainder of itself and no other level
   * changes; and either the head was cancelled by STP with no fill, or one
   * fill of min(want, head qty) against the head was recorded.
   */
  lemma StepFacts(t: Taker, st: MatchState)
    requires CanTrade(t, st)
    ensures var os := Opposite(t.side);
            var m: map<int, Level> := LadderOf(st.book, os);
            var px := Best(st.book, os);
            var s1 := MatchStep(t, st);
            var m1: map<int, Level> := LadderOf(s1.book, os);
            px in m && m[px] != [] && Crosses(t, px) &&
            px in m1 && m1 == m[px := m1[px]] && FifoRemainder(m[px], m1[px]) &&
            (forall n :: LevelOk(m[px], n) ==> LevelOk(m1[px], n)) &&
            LadderOf(s1.book, t.side) == LadderOf(st.book, t.side) &&
            s1.book.nextNode == st.book.nextNode &&
            s1.filled + s1.want == st.filled + st.want &&
            if t.stp && m[px][0].user == t.user then
              s1.fills == st.fills && s1.filled == st.filled
            else
              s1.fills == st.fills + [Fill(m[px][0].id, m[px][0].user, px, s1.filled - st.filled)] &&
              s1.filled - st.filled == Min(st.want, m[px][0].qty)
  {
    var os := Opposite(t.side);
    var m: map<int, Level> := LadderOf(st.book, os);
    var px := Best(st.book, os);
    assert px in NonEmptyPrices(m);
    var m1: map<int, Level> := LadderOf(MatchStep(t, st).book, os);
    var L, L1 := m[px], m1[px];
    var h := L[0];
    assert m1 == m[px := L1];
    if t.stp && h.user == t.user {
      assert L1 == L[1..];
    } else {
      var tr := Min(st.want, h.qty);
      if h.qty - tr == 0 {
        assert L1 == L[1..];
      } else {
        assert L1 == [h.(qty := h.qty - tr)] + L[1..];
        assert L1[1..] == L[1..];
      }
    }
  }

  /**
   * What one step takes out of the best opposite level: an STP head leaves
   * whole with no trade; otherwise a head that stays keeps its place with its
   * quantity reduced by exactly the traded amount; and the level's total falls
   * by the cancelled quantity or by the traded amount. A head that leaves the
   * level, cancelled or filled, also leaves the id index.
   */
  lemma StepLevelEffect(t: Taker, st: MatchState)
    requires CanTrade(t, st)
    ensures var os := Opposite(t.side);
            var m: map<int, Level> := LadderOf(st.book, os);
            var px := Best(st.book, os);
            var s1 := MatchStep(t, st);
            var m1: map<int, Level> := LadderOf(s1.book, os);
            px in m && m[px] != [] && px in m1 &&
            (t.stp && m[px][0].user == t.user ==> m1[px] == m[px][1..] && s1.filled == st.filled) &&
            (|m1[px]| == |m[px]| ==> m1[px][0] == m[px][0].(qty := m[px][0].qty - (s1.filled - st.filled))) &&
            TotalQty(m1[px]) == TotalQty(m[px]) -
              (if t.stp && m[px][0].user == t.user then m[px][0].qty else s1.filled - st.filled) &&
            s1.book.index == if |m1[px]| < |m[px]| then st.book.index - {m[px][0].id} else st.book.index
  {
    var os := Opposite(t.side);
    var m: map<int, Level> := LadderOf(st.book, os);
    var px := Best(st.book, os);
    StepFacts(t, st);
    var s1 := MatchStep(t, st);
    var L, L1 := m[px], LadderOf(s1.book, os)[px];
    var h := L[0];
    if t.stp && h.user == t.user {
      assert L1 == L[1..];
    } else {
      var tr := Min(st.want, h.qty);
      if h.qty - tr == 0 {
        assert L1 == L[1..];
      } else {
        assert L1 == [h.(qty := h.qty - tr)] + L[1..];
        assert L1[1..] == L[1..];
      }
    }
  }

  /** The quantity resting at the prices ks of a ladder. */
  ghost function QtyOver(m: map<int, Level>, ks: set<int>): int
    requires ks <= m.Keys
    decreases ks
  {
    if ks == {} then 0
    else
      var k := SetMin(ks);
      TotalQty(m[k]) + QtyOver(m, ks - {k})
  }

  /** Any price of ks can be the one taken out first. */
  lemma {:induction false} QtyOverPick(m: map<int, Level>, ks: set<int>, k: int)
    requires ks <= m.Keys && k in ks
    ensures QtyOver(m, ks) == TotalQty(m[k]) + QtyOver(m, ks - {k})
    decreases ks
  {
    var j := SetMin(ks);
    if j != k {
      QtyOverPick(m, ks - {j}, k);
      QtyOverPick(m, ks - {k}, j);
      assert ks - {j} - {k} == ks - {k} - {j};
    }
  }

  /** Two ladders that agree on ks hold the same quantity there. */
  lemma {:induction false} QtyOverAgree(m: map<int, Level>, m': map<int, Level>, ks: set<int>)
    requires ks <= m.Keys && ks <= m'.Keys
    requires forall k :: k in ks ==> m[k] == m'[k]
    ensures QtyOver(m, ks) == QtyOver(m', ks)
    decreases ks
  {
    if ks != {} {
      var k := SetMin(ks);
      QtyOverPick(m', ks, k);
      QtyOverAgree(m, m', ks - {k});
    }
  }

  /** The total quantity resting on one side of the book. */
  ghost function SideQty(m: map<int, Level>): int
  {
    QtyOver(m, m.Keys)
  }

  /** Replacing the level at px changes the side's quantity by the change in that level's total. */
  lemma SideQtyUpdate(m: map<int, Level>, px: int, L: Level)
    requires px in m
    ensures SideQty(m[px := L]) == SideQty(m) - TotalQty(m[px]) + TotalQty(L)
  {
    var m' := m[px := L];
    assert m'.Keys == m.Keys;
    QtyOverPick(m, m.Keys, px);
    QtyOverPick(m', m.Keys, px);
    QtyOverAgree(m, m', m.Keys - {px});
  }

  /** The quantity of the resting orders that matching cancels by self-trade prevention. */
  ghost function StpCancelled(t: Taker, st: MatchState): int
    decreases |NonEmptyPrices(LadderOf(st.book, Opposite(t.side)))|,
              |LevelAt(LadderOf(st.book, Opposite(t.side)), Best(st.book, Opposite(t.side)))|,
              if st.want > 0 then 1 else 0
  {
    if !CanTrade(t, st) then 0
    else
      var h := LadderOf(st.book, Opposite(t.side))[Best(st.book, Opposite(t.side))][0];
      MatchStepDecreases(t, st);
      (if t.stp && h.user == t.user then h.qty else 0) + StpCancelled(t, MatchStep(t, st))
  }

  /**
   * Quantity is conserved across the book: matching takes off the opposite
   * side exactly what it filled plus what self-trade prevention cancelled.
   */
  lemma {:induction false} MatchSideQty(t: Taker, st: MatchState)
    ensures var os := Opposite(t.side);
            SideQty(LadderOf(Match(t, st).book, os)) ==
              SideQty(LadderOf(st.book, os)) - (Match(t, st).filled - st.filled) - StpCancelled(t, st)
    decreases |NonEmptyPrices(LadderOf(st.book, Opposite(t.side)))|,
              |LevelAt(LadderOf(st.book, Opposite(t.side)), Best(st.book, Opposite(t.side)))|,
              if st.want > 0 then 1 else 0
  {
    if CanTrade(t, st) {
      var os := Opposite(t.side);
      var m: map<int, Level> := LadderOf(st.book, os);
      var px := Best(st.book, os);
      var s1 := MatchStep(t, st);
      StepFacts(t, st);
      StepLevelEffect(t, st);
      SideQtyUpdate(m, px, LadderOf(s1.book, os)[px]);
      MatchStepDecreases(t, st);
      MatchSideQty(t, s1);
    }
  }

  /** Without self-trade prevention the opposite side loses exactly what was filled. */
  lemma {:induction false} StpCancelledNone(t: Taker, st: MatchState)
    requires !t.stp
    ensures StpCancelled(t, st) == 0
    decreases |NonEmptyPrices(LadderOf(st.book, Opposite(t.side)))|,
              |LevelAt(LadderOf(st.book, Opposite(t.side)), Best(st.book, Opposite(t.side)))|,
              if st.want > 0 then 1 else 0
  {
    if CanTrade(t, st) {
      MatchStepDecreases(t, st);
      StpCancelledNone(t, MatchStep(t, st));
    }
  }

  /**
   * The loop body's handling of the head, as values: the level left behind
   * at the best price, whether the head left the book, and the new want,
   * filled and fill log. This is MatchStep taken apart into the values the
   * in-place loop body computes; it exists only so that Engine.BookCore.MatchHead
   * can be proved against MatchStep through HeadOutcomeStep.
   */
  ghost predicate HeadOutcome(t: Taker, st: MatchState, rest: Level, drop: bool, want: int, filled: int, fills: seq<Fill>)
    requires CanTrade(t, st)
  {
    var os := Opposite(t.side);
    var px := Best(st.book, os);
    var L := LadderOf(st.book, os)[px];
    var h := L[0];
    if t.stp && h.user == t.user then
      rest == L[1..] && drop && want == st.want && filled == st.filled && fills == st.fills
    else
      var tr := Min(st.want, h.qty);
      want == st.want - tr && filled == st.filled + tr && fills == st.fills + [Fill(h.id, h.user, px, tr)] &&
      drop == (h.qty - tr == 0) && rest == if drop then L[1..] else [h.(qty := h.qty - tr)] + L[1..]
  }

  /** A head handled as HeadOutcome describes is exactly one MatchStep. */
  lemma HeadOutcomeStep(t: Taker, st: MatchState, rest: Level, drop: bool, want: int, filled: int, fills: seq<Fill>)
    requires CanTrade(t, st) && HeadOutcome(t, st, rest, drop, want, filled, fills)
    ensures var os := Opposite(t.side);
            var m: map<int, Level> := LadderOf(st.book, os);
            var px := Best(st.book, os);
            var idx := if drop then st.book.index - {m[px][0].id} else st.book.index;
            MatchStep(t, st) == MatchState(WithLadder(st.book, os, m[px := rest]).(index := idx), want, filled, fills)
  {
  }

  /** One step keeps the book well formed. */
  lemma StepWellFormed(t: Taker, st: MatchState)
    requires WellFormed(st.book) && CanTrade(t, st)
    ensures WellFormed(MatchStep(t, st).book)
  {
    StepFacts(t, st);
    var os := Opposite(t.side);
    var m: map<int, Level> := LadderOf(st.book, os);
    var px := Best(st.book, os);
    var s1 := MatchStep(t, st);
    var m1: map<int, Level> := LadderOf(s1.book, os);
    forall p | p in m1
      ensures (m1[p] != [] ==> IsTick(p)) && LevelOk(m1[p], s1.book.nextNode)
    {
      if p == px {
        assert LevelOk(m[px], st.book.nextNode);
      } else {
        assert m1[p] == m[p];
      }
    }
    assert WellFormedLadder(m1, s1.book.nextNode);
    assert WellFormedLadder(LadderOf(s1.book, t.side), s1.book.nextNode);
    if t.side == Bid {
      assert s1.book.asks == m1 && s1.book.bids == st.book.bids;
    } else {
      assert s1.book.bids == m1 && s1.book.asks == st.book.asks;
    }
  }

  /** Matching keeps a book well formed. */
  lemma {:induction false} MatchWellFormed(t: Taker, st: MatchState)
    requires WellFormed(st.book)
    ensures WellFormed(Match(t, st).book)
    decreases |NonEmptyPrices(LadderOf(st.book, Opposite(t.side)))|,
              |LevelAt(LadderOf(st.book, Opposite(t.side)), Best(st.book, Opposite(t.side)))|,
              if st.want > 0 then 1 else 0
  {
    if CanTrade(t, st) {
      StepWellFormed(t, st);
      MatchStepDecreases(t, st);
      MatchWellFormed(t, MatchStep(t, st));
    }
  }

  /**
   * On a well-formed book, matching only adds to `filled` and never
   * overshoots `want`.
   */
  lemma {:induction false} MatchQty(t: Taker, st: MatchState)
    requires WellFormed(st.book) && st.want >= 0
    ensures st.filled <= Match(t, st).filled && Match(t, st).want >= 0
    decreases |NonEmptyPrices(LadderOf(st.book, Opposite(t.side)))|,
              |LevelAt(LadderOf(st.book, Opposite(t.side)), Best(st.book, Opposite(t.side)))|,
              if st.want > 0 then 1 else 0
  {
    if CanTrade(t, st) {
      var m: map<int, Level> := LadderOf(st.book, Opposite(t.side));
      var px := Best(st.book, Opposite(t.side));
      StepFacts(t, st);
      StepWellFormed(t, st);
      assert LevelOk(m[px], st.book.nextNode);
      MatchStepDecreases(t, st);
      MatchQty(t, MatchStep(t, st));
    }
  }

  /** One step appends at most one fill, and adds its quantity to `filled`. */
  lemma StepFillLog(t: Taker, st: MatchState)
    requires WellFormed(st.book) && CanTrade(t, st)
    ensures var s1 := MatchStep(t, st);
            |st.fills| <= |s1.fills| <= |st.fills| + 1 && s1.fills[..|st.fills|] == st.fills &&
            s1.filled - st.filled == SumFills(s1.fills) - SumFills(st.fills) &&
            forall i :: |st.fills| <= i < |s1.fills| ==>
              s1.fills[i].qty > 0 && Crosses(t, s1.fills[i].px) && (t.stp ==> s1.fills[i].makerUser != t.user)
  {
    var m: map<int, Level> := LadderOf(st.book, Opposite(t.side));
    var px := Best(st.book, Opposite(t.side));
    var s1 := MatchStep(t, st);
    StepFacts(t, st);
    assert LevelOk(m[px], st.book.nextNode);
    if |s1.fills| > |st.fills| {
      assert s1.fills[..|s1.fills| - 1] == st.fills;
    }
  }

  /**
   * The fills matching appends add up to what it adds to `filled`; each is
   * positive, crosses the taker's limit, and under STP is never against the
   * taker's own user.
   */
  lemma {:induction false} MatchFills(t: Taker, st: MatchState)
    requires WellFormed(st.book)
    ensures var r := Match(t, st);
            |st.fills| <= |r.fills| && r.fills[..|st.fills|] == st.fills &&
            r.filled - st.filled == SumFills(r.fills) - SumFills(st.fills) &&
            forall i :: |st.fills| <= i < |r.fills| ==>
              r.fills[i].qty > 0 && Crosses(t, r.fills[i].px) && (t.stp ==> r.fills[i].makerUser != t.user)
    decreases |NonEmptyPrices(LadderOf(st.book, Opposite(t.side)))|,
              |LevelAt(LadderOf(st.book, Opposite(t.side)), Best(st.book, Opposite(t.side)))|,
              if st.want > 0 then 1 else 0
  {
    if CanTrade(t, st) {
      var s1 := MatchStep(t, st);
      StepFillLog(t, st);
      StepWellFormed(t, st);
      MatchStepDecreases(t, st);
      MatchFills(t, s1);
      var r := Match(t, s1);
      assert r == Match(t, st);
      assert r.fills[..|st.fills|] == st.fills by {
        assert r.fills[..|s1.fills|][..|st.fills|] == r.fills[..|st.fills|];
      }
      forall i | |st.fills| <= i < |r.fills|
        ensures r.fills[i].qty > 0 && Crosses(t, r.fills[i].px) && (t.stp ==> r.fills[i].makerUser != t.user)
      {
        if i < |s1.fills| {
          assert r.fills[i] == r.fills[..|s1.fills|][i] == s1.fills[i];
        }
      }
    }
  }

  /**
   * Matching touches only the opposite ladder, keeps its set of prices, leaves
   * every level whose price does not cross untouched, and consumes every
   * level from its front.
   */
  lemma {:induction false} MatchFifo(t: Taker, st: MatchState)
    ensures var os := Opposite(t.side);
            var m: map<int, Level> := LadderOf(st.book, os);
            var m' := LadderOf(Match(t, st).book, os);
            m'.Keys == m.Keys &&
            (forall p :: p in m && !Crosses(t, p) ==> m'[p] == m[p]) &&
            (forall p :: p in m ==> FifoRemainder(m[p], m'[p]))
    decreases |NonEmptyPrices(LadderOf(st.book, Opposite(t.side)))|,
              |LevelAt(LadderOf(st.book, Opposite(t.side)), Best(st.book, Opposite(t.side)))|,
              if st.want > 0 then 1 else 0
  {
    var os := Opposite(t.side);
    var m: map<int, Level> := LadderOf(st.book, os);
    if CanTrade(t, st) {
      var px := Best(st.book, os);
      var s1 := MatchStep(t, st);
      var m1: map<int, Level> := LadderOf(s1.book, os);
      StepFacts(t, st);
      MatchStepDecreases(t, st);
      MatchFifo(t, s1);
      var m' := LadderOf(Match(t, s1).book, os);
      forall p | p in m
        ensures FifoRemainder(m[p], m'[p])
      {
        if p == px {
          FifoRemainderTrans(m[p], m1[p], m'[p]);
        } else {
          assert m1[p] == m[p];
        }
      }
    } else {
      forall p | p in m
        ensures FifoRemainder(m[p], m[p])
      {
      }
    }
  }

  /**
   * Fills come out in the order of the opposite side's prices: each fill is
   * at a price no better for the maker side than the one before (prices never
   * fall for a buyer, never rise for a seller). The first two requirements
   * say the fills already made are ordered and none is worse than the
   * current best; an empty history meets them.
   */
  lemma {:induction false} MatchFillsOrdered(t: Taker, st: MatchState)
    requires WellFormed(st.book)
    requires forall i :: 0 <= i < |st.fills| ==>
               !Better(Opposite(t.side), Best(st.book, Opposite(t.side)), st.fills[i].px)
    requires forall i, j :: 0 <= i < j < |st.fills| ==>
               !Better(Opposite(t.side), st.fills[j].px, st.fills[i].px)
    ensures var r := Match(t, st);
            forall i, j :: 0 <= i < j < |r.fills| ==> !Better(Opposite(t.side), r.fills[j].px, r.fills[i].px)
    decreases |NonEmptyPrices(LadderOf(st.book, Opposite(t.side)))|,
              |LevelAt(LadderOf(st.book, Opposite(t.side)), Best(st.book, Opposite(t.side)))|,
              if st.want > 0 then 1 else 0
  {
    if CanTrade(t, st) {
      var os := Opposite(t.side);
      var m: map<int, Level> := LadderOf(st.book, os);
      var px := Best(st.book, os);
      var s1 := MatchStep(t, st);
      var m1: map<int, Level> := LadderOf(s1.book, os);
      StepFacts(t, st);
      StepWellFormed(t, st);
      MatchStepDecreases(t, st);
      assert NonEmptyPrices(m1) <= NonEmptyPrices(m) by {
        forall p | p in NonEmptyPrices(m1)
          ensures p in NonEmptyPrices(m)
        {
          if p == px {
            assert m[px] != [];
          } else {
            assert m1[p] == m[p];
          }
        }
      }
      assert forall p :: p in NonEmptyPrices(m) ==> IsTick(p) by {
        assert WellFormedLadder(m, st.book.nextNode);
      }
      BestSubset(os, NonEmptyPrices(m1), NonEmptyPrices(m));
      var b1 := Best(s1.book, os);
      assert !Better(os, b1, px);
      forall i | 0 <= i < |s1.fills|
        ensures !Better(os, b1, s1.fills[i].px)
      {
        if i < |st.fills| {
          assert s1.fills[i] == st.fills[i];
        }
      }
      forall i, j | 0 <= i < j < |s1.fills|
        ensures !Better(os, s1.fills[j].px, s1.fills[i].px)
      {
        if j >= |st.fills| {
          assert s1.fills[i] == st.fills[i];
        } else {
          assert s1.fills[j] == st.fills[j] && s1.fills[i] == st.fills[i];
        }
      }
      MatchFillsOrdered(t, s1);
      assert forall i, j :: 0 <= i < j < |Match(t, s1).fills| ==> !Better(Opposite(t.side), Match(t, s1).fills[j].px, Match(t, s1).fills[i].px);
      var r := Match(t, s1);
      assert r == Match(t, st);
    }
  }

  /** Every best is a tick (a non-empty price, or a sentinel). */
  lemma BestIsTick(b: Book, s: Side)
    requires WellFormed(b)
    ensures IsTick(Best(b, s))
  {
    var m: map<int, Level> := LadderOf(b, s);
    if NonEmptyPrices(m) != {} {
      assert Best(b, s) in m;
      assert WellFormedLadder(m, b.nextNode);
    }
  }

  // ----- submit_market / submit_limit -----

  /** STP is requested by the order's flags. */
  function TakerOf(o: NewOrder, limit: int): Taker
  {
    Taker(o.side, o.user, STP in o.flags, limit)
  }

  /** The unbounded limit of a market order: +infinity for a buyer, -infinity for a seller. */
  function MarketBound(s: Side): int
  {
    if s == Bid then TICK_MAX else TICK_MIN
  }

  /** submit_market: a non-positive quantity does nothing; otherwise match without a price bound and never rest. */
  function SubmitMarket(b: Book, o: NewOrder): (Book, ExecResult)
  {
    if o.qty <= 0 then (b, ExecResult(0, 0))
    else
      var r := Match(TakerOf(o, MarketBound(o.side)), MatchState(b, o.qty, 0, []));
      (r.book, ExecResult(r.filled, o.qty - r.filled))
  }

  /** Rests qty of o at the tail of its price level under a fresh node, and indexes it by o.id. */
  function Rest(b: Book, o: NewOrder, qty: int): Book
  {
    var m := Touch(LadderOf(b, o.side), o.price);
    var n := Order(b.nextNode, o.id, o.user, qty, o.ts, o.flags);
    WithLadder(b, o.side, m[o.price := m[o.price] + [n]])
      .(index := b.index[o.id := IdEntry(o.side, o.price, b.nextNode)], nextNode := b.nextNode + 1)
  }

  /** submit_limit: match up to the order's price, then rest whatever is left at that price. */
  function SubmitLimit(b: Book, o: NewOrder): (Book, ExecResult)
  {
    if o.qty <= 0 then (b, ExecResult(0, 0))
    else
      var r := Match(TakerOf(o, o.price), MatchState(b, o.qty, 0, []));
      var leftover := o.qty - r.filled;
      if leftover <= 0 then (r.book, ExecResult(r.filled, 0))
      else (Rest(r.book, o, leftover), ExecResult(r.filled, leftover))
  }

  /**
   * A market order fills between zero and its quantity, the rest is reported
   * as remaining, the taker's own side is untouched (it never rests), and an
   * order left with something remaining has emptied the opposite side down
   * to its sentinel.
   */
  lemma SubmitMarketSound(b: Book, o: NewOrder)
    requires WellFormed(b)
    ensures var (b', r) := SubmitMarket(b, o);
            WellFormed(b') && 0 <= r.filled && 0 <= r.remaining &&
            (o.qty > 0 ==> r.filled + r.remaining == o.qty) &&
            (o.qty <= 0 ==> b' == b && r == ExecResult(0, 0)) &&
            LadderOf(b', o.side) == LadderOf(b, o.side) &&
            (r.remaining > 0 ==> Best(b', Opposite(o.side)) == Sentinel(Opposite(o.side)))
  {
    if o.qty > 0 {
      var t := TakerOf(o, MarketBound(o.side));
      var st := MatchState(b, o.qty, 0, []);
      MatchWellFormed(t, st);
      MatchQty(t, st);
      BestIsTick(Match(t, st).book, Opposite(o.side));
    }
  }

  /**
   * Resting qty of o puts a new order with a fresh node at the tail of the
   * level at o.price, indexes it, keeps the book well formed and the other
   * side untouched, and moves the side's best to o.price exactly when o.price
   * is better.
   */
  lemma RestFacts(b: Book, o: NewOrder, qty: int)
    requires WellFormed(b) && IsTick(o.price) && qty > 0
    ensures var b' := Rest(b, o, qty);
            var L := LadderOf(b', o.side)[o.price];
            WellFormed(b') &&
            L == LevelAt(LadderOf(b, o.side), o.price) + [Order(b.nextNode, o.id, o.user, qty, o.ts, o.flags)] &&
            TotalQty(L) == TotalQty(LevelAt(LadderOf(b, o.side), o.price)) + qty &&
            b'.index == b.index[o.id := IdEntry(o.side, o.price, b.nextNode)] &&
            LadderOf(b', Opposite(o.side)) == LadderOf(b, Opposite(o.side)) &&
            (forall p :: p in LadderOf(b, o.side) && p != o.price ==> LadderOf(b', o.side)[p] == LadderOf(b, o.side)[p]) &&
            Best(b', o.side) == (if Better(o.side, o.price, Best(b, o.side)) then o.price else Best(b, o.side))
  {
    var m0: map<int, Level> := LadderOf(b, o.side);
    var m := Touch(m0, o.price);
    var n := Order(b.nextNode, o.id, o.user, qty, o.ts, o.flags);
    var L := m[o.price] + [n];
    var b' := Rest(b, o, qty);
    var m' := m[o.price := L];
    assert LadderOf(b', o.side) == m';
    TotalQtyAppend(m[o.price], n);
    forall p | p in m'
      ensures (m'[p] != [] ==> IsTick(p)) && LevelOk(m'[p], b'.nextNode)
    {
      if p != o.price {
        assert p in m0 && m'[p] == m0[p];
        assert LevelOk(m0[p], b.nextNode);
      } else {
        assert LevelOk(LevelAt(m0, p), b.nextNode);
      }
    }
    var om: map<int, Level> := LadderOf(b, Opposite(o.side));
    forall p | p in om
      ensures (om[p] != [] ==> IsTick(p)) && LevelOk(om[p], b'.nextNode)
    {
      assert LevelOk(om[p], b.nextNode);
    }
    if o.side == Bid {
      assert b'.bids == m' && b'.asks == om;
    } else {
      assert b'.asks == m' && b'.bids == om;
    }
    assert m' == m0[o.price := L];
    BestAfterRest(o.side, m0, o.price, L);
  }

  /**
   * A limit order with positive quantity fills what the opposite side offers
   * up to its price, and either completes without resting, or rests exactly
   * its unfilled quantity at its price (RestFacts) after which the opposite
   * best is empty or no longer crosses it. A non-positive quantity does nothing.
   */
  lemma SubmitLimitSound(b: Book, o: NewOrder)
    requires WellFormed(b)
    ensures var (b', r) := SubmitLimit(b, o);
            var mt := Match(TakerOf(o, o.price), MatchState(b, o.qty, 0, []));
            (o.qty <= 0 ==> b' == b && r == ExecResult(0, 0)) &&
            (o.qty > 0 ==>
               0 <= r.filled <= o.qty && r.filled == mt.filled &&
               (r.remaining == 0 <==> r.filled == o.qty) &&
               (r.remaining == 0 ==> b' == mt.book) &&
               (r.remaining > 0 ==>
                  r.filled + r.remaining == o.qty && b' == Rest(mt.book, o, r.remaining) &&
                  (Best(mt.book, Opposite(o.side)) == Sentinel(Opposite(o.side)) ||
                   !Crosses(TakerOf(o, o.price), Best(mt.book, Opposite(o.side))))))
  {
    if o.qty > 0 {
      var t := TakerOf(o, o.price);
      var st := MatchState(b, o.qty, 0, []);
      MatchQty(t, st);
      var mt := Match(t, st);
      var leftover := o.qty - mt.filled;
      if leftover > 0 {
        assert SubmitLimit(b, o) == (Rest(mt.book, o, leftover), ExecResult(mt.filled, leftover));
      } else {
        assert SubmitLimit(b, o) == (mt.book, ExecResult(mt.filled, 0));
      }
    }
  }

  /** submit_limit keeps a book well formed. */
  lemma SubmitLimitWellFormed(b: Book, o: NewOrder)
    requires WellFormed(b) && IsTick(o.price)
    ensures WellFormed(SubmitLimit(b, o).0)
  {
    if o.qty > 0 {
      var t := TakerOf(o, o.price);
      var st := MatchState(b, o.qty, 0, []);
      MatchWellFormed(t, st);
      var mt := Match(t, st);
      var leftover := o.qty - mt.filled;
      if leftover > 0 {
        assert SubmitLimit(b, o).0 == Rest(mt.book, o, leftover);
        RestFacts(mt.book, o, leftover);
      }
    }
  }

  // ----- cancel / modify -----

  /** Where the node with identity n sits in the level, if it is there. */
  function Position(L: Level, n: nat): (r: Option<nat>)
    ensures r.Some? ==> r.value < |L| && L[r.value].node == n &&
                        forall j :: 0 <= j < r.value ==> L[j].node != n
    ensures r.None? ==> forall j :: 0 <= j < |L| ==> L[j].node != n
  {
    if L == [] then None
    else if L[0].node == n then Some(0)
    else match Position(L[1..], n)
         case None => None
         case Some(i) => Some(i + 1)
  }

  /** The book without the order at position i of the level at px of side s. */
  function EraseAt(b: Book, s: Side, px: int, i: nat): Book
    requires px in LadderOf(b, s) && i < |LadderOf(b, s)[px]|
  {
    var m: map<int, Level> := LadderOf(b, s);
    WithLadder(b, s, m[px := RemoveAt(m[px], i)])
  }

  /**
   * cancel: an unknown id, or an entry whose node is not in its level, answers
   * false; otherwise the node leaves its level and the index. The level is
   * looked up (and so created) before the node is checked.
   */
  function Cancel(b: Book, id: int): (Book, bool)
  {
    if id !in b.index then (b, false)
    else
      var e := b.index[id];
      var b1 := WithLadder(b, e.side, Touch(LadderOf(b, e.side), e.px));
      match Position(LadderOf(b1, e.side)[e.px], e.node)
      case None => (b1, false)
      case Some(i) => (EraseAt(b1, e.side, e.px, i).(index := b.index - {id}), true)
  }

  /**
   * modify: same price and a non-positive quantity cancels; same price and a
   * positive quantity rewrites qty, ts and flags in place; a new price cancels
   * and resubmits as a limit order on the original side.
   */
  function Modify(b: Book, o: NewOrder): (Book, ExecResult)
  {
    if o.id !in b.index then (b, ExecResult(0, 0))
    else
      var e := b.index[o.id];
      var b1 := WithLadder(b, e.side, Touch(LadderOf(b, e.side), e.px));
      var L := LadderOf(b1, e.side)[e.px];
      match Position(L, e.node)
      case None => (b1, ExecResult(0, 0))
      case Some(i) =>
        var removed := EraseAt(b1, e.side, e.px, i).(index := b.index - {o.id});
        if o.price == e.px then
          if o.qty <= 0 then (removed, ExecResult(0, 0))
          else
            var n := L[i].(qty := o.qty, ts := o.ts, flags := o.flags);
            (WithLadder(b1, e.side, LadderOf(b1, e.side)[e.px := L[i := n]]), ExecResult(0, 0))
        else SubmitLimit(removed, o.(side := e.side))
  }

  /**
   * b' holds the same resting orders as b: the index and node counter are
   * the same, every level of either side is kept, and any price b' has in
   * addition holds an empty level (one that get_level created).
   */
  ghost predicate SameOrders(b: Book, b': Book)
  {
    b'.index == b.index && b'.nextNode == b.nextNode &&
    (forall p :: p in b.bids ==> p in b'.bids && b'.bids[p] == b.bids[p]) &&
    (forall p :: p in b.asks ==> p in b'.asks && b'.asks[p] == b.asks[p]) &&
    (forall p :: p in b'.bids && p !in b.bids ==> b'.bids[p] == []) &&
    (forall p :: p in b'.asks && p !in b.asks ==> b'.asks[p] == [])
  }

  /**
   * A successful cancel removes exactly one order, the one the id's entry
   * points at, from its level (taking its quantity off the level's total),
   * drops the id from the index, and changes nothing else; a failed one
   * changes no resting order, and one for an unknown id changes nothing.
   */
  lemma CancelSound(b: Book, id: int)
    ensures var (b', ok) := Cancel(b, id);
            (ok <==> id in b.index &&
                     var e := b.index[id];
                     var L := LevelAt(LadderOf(b, e.side), e.px);
                     exists j :: 0 <= j < |L| && L[j].node == e.node) &&
            (id !in b.index ==> b' == b && !ok) &&
            (!ok ==> SameOrders(b, b') &&
                     NonEmptyPrices(b'.bids) == NonEmptyPrices(b.bids) &&
                     NonEmptyPrices(b'.asks) == NonEmptyPrices(b.asks)) &&
            (ok ==>
               var e := b.index[id];
               var L := LevelAt(LadderOf(b, e.side), e.px);
               var i := Position(L, e.node).value;
               var L' := LadderOf(b', e.side)[e.px];
               L[i].node == e.node && L' == RemoveAt(L, i) &&
               TotalQty(L') == TotalQty(L) - L[i].qty &&
               (WellFormed(b) ==> TotalQty(L') < TotalQty(L)) &&
               b'.index == b.index - {id} &&
               LadderOf(b', Opposite(e.side)) == LadderOf(b, Opposite(e.side)) &&
               forall p :: p in LadderOf(b, e.side) && p != e.px ==> LadderOf(b', e.side)[p] == LadderOf(b, e.side)[p])
  {
    if id in b.index {
      var e := b.index[id];
      var L := LevelAt(LadderOf(b, e.side), e.px);
      match Position(L, e.node)
      case None =>
      case Some(i) =>
        TotalQtyRemove(L, i);
        if WellFormed(b) {
          assert e.px in LadderOf(b, e.side);
          assert L[i].qty > 0;
        }
    }
  }

  /**
   * modify of an unknown id is a no-op answering (0, 0); of an indexed id
   * whose node is not in its level it answers (0, 0) and changes no resting
   * order.
   */
  lemma ModifyUnknownId(b: Book, o: NewOrder)
    ensures o.id !in b.index ==> Modify(b, o) == (b, ExecResult(0, 0))
    ensures o.id in b.index &&
            Position(LevelAt(LadderOf(b, b.index[o.id].side), b.index[o.id].px), b.index[o.id].node).None? ==>
              Modify(b, o).1 == ExecResult(0, 0) && SameOrders(b, Modify(b, o).0)
  {
  }

  /** A cancel keeps a book well formed. */
  lemma CancelWellFormed(b: Book, id: int)
    requires WellFormed(b)
    ensures WellFormed(Cancel(b, id).0)
  {
    if id in b.index {
      var e := b.index[id];
      var m0: map<int, Level> := LadderOf(b, e.side);
      var m := Touch(m0, e.px);
      var L := m[e.px];
      assert LevelOk(L, b.nextNode) by {
        if e.px in m0 {
          assert WellFormedLadder(m0, b.nextNode);
        }
      }
      var b' := Cancel(b, id).0;
      var m': map<int, Level> := LadderOf(b', e.side);
      forall p | p in m'
        ensures (m'[p] != [] ==> IsTick(p)) && LevelOk(m'[p], b'.nextNode)
      {
        if p != e.px {
          assert p in m0 && m'[p] == m0[p];
        }
      }
      assert LadderOf(b', Opposite(e.side)) == LadderOf(b, Opposite(e.side));
      if e.side == Bid {
        assert b'.bids == m' && b'.asks == b.asks;
      } else {
        assert b'.asks == m' && b'.bids == b.bids;
      }
    }
  }

  /**
   * modify at the order's current price with a non-positive quantity is
   * exactly a cancel of its id, and reports no execution.
   */
  lemma ModifyToZeroIsCancel(b: Book, o: NewOrder)
    requires o.id in b.index && o.price == b.index[o.id].px && o.qty <= 0
    ensures Modify(b, o) == (Cancel(b, o.id).0, ExecResult(0, 0))
  {
  }

  /**
   * modify to a new price is a cancel followed by a fresh submit_limit on the
   * original order's side, which can trade; when the cancel finds no node,
   * nothing is resubmitted.
   */
  lemma ModifyNewPriceIsCancelThenLimit(b: Book, o: NewOrder)
    requires o.id in b.index && o.price != b.index[o.id].px
    ensures var (bc, ok) := Cancel(b, o.id);
            Modify(b, o) == if ok then SubmitLimit(bc, o.(side := b.index[o.id].side))
                            else (bc, ExecResult(0, 0))
  {
  }

  /**
   * modify at the same price with a positive quantity keeps the order's place
   * in its queue (time priority), node, id and user, sets its quantity, ts and
   * flags, changes the level's total by the quantity difference, and leaves
   * every other order, the index and the set of non-empty prices alone.
   */
  lemma ModifyInPlace(b: Book, o: NewOrder)
    requires o.id in b.index && o.price == b.index[o.id].px && o.qty > 0
    requires var e := b.index[o.id];
             exists j :: 0 <= j < |LevelAt(LadderOf(b, e.side), e.px)| && LevelAt(LadderOf(b, e.side), e.px)[j].node == e.node
    ensures var e := b.index[o.id];
            var L := LevelAt(LadderOf(b, e.side), e.px);
            var (b', r) := Modify(b, o);
            var L' := LadderOf(b', e.side)[e.px];
            var i := Position(L, e.node).value;
            r == ExecResult(0, 0) && |L'| == |L| &&
            (forall j :: 0 <= j < |L| && j != i ==> L'[j] == L[j]) &&
            L'[i].node == e.node && L'[i].id == L[i].id && L'[i].user == L[i].user &&
            L'[i].qty == o.qty && L'[i].ts == o.ts && L'[i].flags == o.flags &&
            TotalQty(L') == TotalQty(L) + o.qty - L[i].qty &&
            b'.index == b.index && b'.nextNode == b.nextNode &&
            LadderOf(b', Opposite(e.side)) == LadderOf(b, Opposite(e.side)) &&
            NonEmptyPrices(LadderOf(b', e.side)) == NonEmptyPrices(LadderOf(b, e.side)) &&
            (WellFormed(b) ==> WellFormed(b'))
  {
    var e := b.index[o.id];
    var m0: map<int, Level> := LadderOf(b, e.side);
    var L := LevelAt(m0, e.px);
    var i := Position(L, e.node).value;
    var n := L[i].(qty := o.qty, ts := o.ts, flags := o.flags);
    TotalQtyUpdate(L, i, n);
    var b' := Modify(b, o).0;
    var m': map<int, Level> := LadderOf(b', e.side);
    assert m' == Touch(m0, e.px)[e.px := L[i := n]];
    assert NonEmptyPrices(m') == NonEmptyPrices(m0) by {
      assert e.px in NonEmptyPrices(m0);
    }
    if WellFormed(b) {
      assert e.px in m0;
      assert WellFormedLadder(m0, b.nextNode);
      forall p | p in m'
        ensures (m'[p] != [] ==> IsTick(p)) && LevelOk(m'[p], b'.nextNode)
      {
        if p != e.px {
          assert m'[p] == m0[p];
        } else {
          assert LevelOk(m0[p], b.nextNode);
        }
      }
      if e.side == Bid {
        assert b'.bids == m' && b'.asks == b.asks;
      } else {
        assert b'.asks == m' && b'.bids == b.bids;
      }
    }
  }

  /** A node newer than every node of a level is found at the tail it was appended to. */
  lemma {:induction false} PositionOfFresh(L: Level, n: Order, bound: nat)
    requires LevelOk(L, bound) && n.node == bound
    ensures Position(L + [n], bound) == Some(|L|)
  {
    if L != [] {
      assert (L + [n])[1..] == L[1..] + [n];
      PositionOfFresh(L[1..], n, bound);
    }
  }

  /** cancel of an id whose node is found at position i of its (existing) level. */
  lemma CancelFound(b: Book, id: int, i: nat)
    requires id in b.index && b.index[id].px in LadderOf(b, b.index[id].side)
    requires Position(LadderOf(b, b.index[id].side)[b.index[id].px], b.index[id].node) == Some(i)
    ensures Cancel(b, id) == (EraseAt(b, b.index[id].side, b.index[id].px, i).(index := b.index - {id}), true)
  {
    var e := b.index[id];
    assert WithLadder(b, e.side, Touch(LadderOf(b, e.side), e.px)) == b;
  }

  /** Cancelling the order Rest just placed removes it again, leaving the touched level behind. */
  lemma CancelAfterRest(b: Book, o: NewOrder, qty: int)
    requires WellFormed(b)
    ensures Cancel(Rest(b, o, qty), o.id) ==
              (WithLadder(b, o.side, Touch(LadderOf(b, o.side), o.price))
                 .(index := b.index - {o.id}, nextNode := b.nextNode + 1), true)
  {
    var b1 := Rest(b, o, qty);
    var m0: map<int, Level> := LadderOf(b, o.side);
    var L := LevelAt(m0, o.price);
    var n := Order(b.nextNode, o.id, o.user, qty, o.ts, o.flags);
    assert LevelOk(L, b.nextNode) by {
      if o.price in m0 {
        assert WellFormedLadder(m0, b.nextNode);
      }
    }
    PositionOfFresh(L, n, b.nextNode);
    var m1 := Touch(m0, o.price);
    RestShape(b, o, qty);
    CancelFound(b1, o.id, |L|);
    assert RemoveAt(L + [n], |L|) == L;
    EraseRestored(b1, o.side, o.price, m1, L, n);
    assert m1[o.price := L] == m1;
    assert b1.index - {o.id} == b.index - {o.id};
    assert WithLadder(b1, o.side, m1).(index := b.index - {o.id}) ==
           WithLadder(b, o.side, m1).(index := b.index - {o.id}, nextNode := b.nextNode + 1);
  }

  /** What Rest writes: the new order at the tail of the touched level, and its index entry. */
  lemma RestShape(b: Book, o: NewOrder, qty: int)
    ensures var m1 := Touch(LadderOf(b, o.side), o.price);
            var b1 := Rest(b, o, qty);
            LadderOf(b1, o.side) ==
              m1[o.price := LevelAt(LadderOf(b, o.side), o.price) + [Order(b.nextNode, o.id, o.user, qty, o.ts, o.flags)]] &&
            b1.index[o.id] == IdEntry(o.side, o.price, b.nextNode) &&
            b1.index == b.index[o.id := IdEntry(o.side, o.price, b.nextNode)] &&
            b1 == WithLadder(b, o.side, LadderOf(b1, o.side)).(index := b1.index, nextNode := b.nextNode + 1)
  {
  }

  /** Erasing the order just appended to a level gives the level back. */
  lemma EraseRestored(b1: Book, s: Side, px: int, m1: map<int, Level>, L: Level, n: Order)
    requires LadderOf(b1, s) == m1[px := L + [n]]
    ensures EraseAt(b1, s, px, |L|) == WithLadder(b1, s, m1[px := L])
  {
    assert RemoveAt(L + [n], |L|) == L;
  }

  /** Looking the level up first (as the engine does) does not change what modify computes. */
  lemma ModifyAfterTouch(b: Book, o: NewOrder)
    requires o.id in b.index
    ensures var e := b.index[o.id];
            Modify(WithLadder(b, e.side, Touch(LadderOf(b, e.side), e.px)), o) == Modify(b, o)
  {
    var e := b.index[o.id];
    var bt := WithLadder(b, e.side, Touch(LadderOf(b, e.side), e.px));
    assert WithLadder(bt, e.side, Touch(LadderOf(bt, e.side), e.px)) == bt;
  }

  /** modify on a book whose entry's level exists and holds the node at position i, branch by branch. */
  lemma ModifyFound(b: Book, o: NewOrder, i: nat)
    requires o.id in b.index && b.index[o.id].px in LadderOf(b, b.index[o.id].side)
    requires Position(LadderOf(b, b.index[o.id].side)[b.index[o.id].px], b.index[o.id].node) == Some(i)
    ensures var e := b.index[o.id];
            var removed := EraseAt(b, e.side, e.px, i).(index := b.index - {o.id});
            var L := LadderOf(b, e.side)[e.px];
            Modify(b, o) ==
              if o.price != e.px then SubmitLimit(removed, o.(side := e.side))
              else if o.qty <= 0 then (removed, ExecResult(0, 0))
              else (WithLadder(b, e.side, LadderOf(b, e.side)[e.px := L[i := L[i].(qty := o.qty, ts := o.ts, flags := o.flags)]]),
                    ExecResult(0, 0))
  {
    var e := b.index[o.id];
    assert WithLadder(b, e.side, Touch(LadderOf(b, e.side), e.px)) == b;
  }
}
