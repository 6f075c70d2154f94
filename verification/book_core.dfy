/**
 * BookCore (src/book_core.cpp) as a class over two mutable price ladders and
 * an id index. Every method is proved to leave the object in the state the
 * corresponding BookSpec function computes from the old state, and to keep
 * the cached best prices exact.
 */
module Engine {
  import opened Types
  import opened PriceLevels
  import opened BookSpec

  class BookCore {
    const bids: SparseLadder
    const asks: SparseLadder
    /** id_index_. */
    var index: map<int, IdEntry>
    /** The identity the next `new OrderNode` receives. */
    var nextNode: nat

    ghost function Abs(): Book
      reads this, bids, asks
    {
      Book(bids.levels, asks.levels, index, nextNode)
    }

    /** bids_ or asks_. */
    function Ladder(s: Side): (l: SparseLadder)
      ensures l == if s == Bid then bids else asks
    {
      if s == Bid then bids else asks
    }

    /** best_bid() of the bid ladder or best_ask() of the ask ladder. */
    function CachedBest(s: Side): int
      reads this, bids, asks
    {
      if s == Bid then bids.bestBid else asks.bestAsk
    }

    /** Both cached bests are the exact best of their ladder. */
    ghost predicate CacheExact()
      reads this, bids, asks
    {
      CachedBest(Bid) == BestOf(Bid, bids.levels) && CachedBest(Ask) == BestOf(Ask, asks.levels)
    }

    ghost predicate Valid()
      reads this, bids, asks
    {
      bids != asks && CacheExact() && WellFormed(Abs())
    }

    /** A book over two fresh, empty ladders whose bests show the empty sentinels. */
    constructor (bids: SparseLadder, asks: SparseLadder)
      requires bids != asks
      requires bids.levels == map[] && asks.levels == map[]
      requires bids.bestBid == TICK_MIN && asks.bestAsk == TICK_MAX
      ensures this.bids == bids && this.asks == asks
      ensures Valid() && Abs() == EmptyBook()
    {
      this.bids := bids;
      this.asks := asks;
      index := map[];
      nextNode := 0;
    }

    /**
     * Writes L at the non-empty price px of side s and, when that leaves the
     * level empty and px was the cached best, moves the best to the next
     * non-empty price beyond px (the `!L.head && was_best` blocks).
     */
    method ReplaceLevel(s: Side, px: int, L: Level)
      requires bids != asks && CacheExact() && px in NonEmptyPrices(Ladder(s).levels)
      modifies bids, asks
      ensures Ladder(s).levels == old(Ladder(s).levels)[px := L]
      ensures Ladder(Opposite(s)).levels == old(Ladder(Opposite(s)).levels)
      ensures CacheExact()
    {
      var ladder := Ladder(s);
      ghost var m := ladder.levels;
      var wasBest := CachedBest(s) == px;
      ladder.PutLevel(px, L);
      if L == [] && wasBest {
        if s == Bid {
          var nxt := ladder.NextBidBefore(px);
          ladder.SetBestBid(nxt);
        } else {
          var nxt := ladder.NextAskAfter(px);
          ladder.SetBestAsk(nxt);
        }
      }
      BestAfterReplace(s, m, px, L);
    }

    /** Stores the head's level back at its price and, when the head left the book, erases its id. */
    method UpdateHead(s: Side, px: int, rest: Level, drop: bool, id: int)
      requires bids != asks && CacheExact() && px in NonEmptyPrices(Ladder(s).levels)
      modifies this, bids, asks
      ensures bids != asks && CacheExact()
      ensures Abs() == WithLadder(old(Abs()), s, old(Ladder(s).levels)[px := rest])
                         .(index := if drop then old(index) - {id} else old(index))
    {
      ghost var b := Abs();
      ReplaceLevel(s, px, rest);
      if drop {
        index := index - {id};
      }
      ghost var b' := WithLadder(b, s, old(Ladder(s).levels)[px := rest]).(index := index);
      assert Abs() == b' by {
        assert LadderOf(Abs(), s) == LadderOf(b', s);
        assert LadderOf(Abs(), Opposite(s)) == LadderOf(b', Opposite(s));
      }
    }

    /**
     * One pass of match_against's loop body past its two breaks: the head of
     * the best opposite level is cancelled (STP, same owner) or traded
     * against, and an emptied best level moves the cached best on.
     */
    method MatchHead(t: Taker, rem: int, filled: int, ghost fills: seq<Fill>)
        returns (rem': int, filled': int, ghost fills': seq<Fill>)
      requires Valid() && CanTrade(t, MatchState(Abs(), rem, filled, fills))
      modifies this, bids, asks
      ensures Valid()
      ensures MatchState(Abs(), rem', filled', fills') == MatchStep(t, MatchState(old(Abs()), rem, filled, fills))
    {
      ghost var st := MatchState(Abs(), rem, filled, fills);
      var os := Opposite(t.side);
      var opp := Ladder(os);
      var bestPx := CachedBest(os);
      assert bestPx in NonEmptyPrices(opp.levels);
      var L := opp.GetLevel(bestPx);
      assert L == opp.levels[bestPx] && opp.levels == LadderOf(st.book, os);
      var h := L[0];
      rem', filled', fills' := rem, filled, fills;
      var rest: Level;
      var drop: bool;
      if t.stp && h.user == t.user {
        rest, drop := L[1..], true;
      } else {
        var tr := Min(rem, h.qty);
        var left := h.qty - tr;
        filled' := filled + tr;
        rem' := rem - tr;
        fills' := fills + [Fill(h.id, h.user, bestPx, tr)];
        if left == 0 {
          rest, drop := L[1..], true;
        } else {
          rest, drop := [h.(qty := left)] + L[1..], false;
        }
      }
      assert HeadOutcome(t, st, rest, drop, rem', filled', fills');
      HeadOutcomeStep(t, st, rest, drop, rem', filled', fills');
      UpdateHead(os, bestPx, rest, drop, h.id);
      StepWellFormed(t, st);
    }

    /**
     * match_against: trades the taker against the opposite ladder until it
     * wants nothing, that side is empty, or its best no longer crosses.
     */
    method MatchAgainst(t: Taker, want: int) returns (filled: int)
      requires Valid()
      modifies this, bids, asks
      ensures Valid()
      ensures var r := Match(t, MatchState(old(Abs()), want, 0, []));
              Abs() == r.book && filled == r.filled
    {
      var os := Opposite(t.side);
      filled := 0;
      var rem := want;
      ghost var fills: seq<Fill> := [];
      while rem > 0
        invariant Valid()
        invariant Match(t, MatchState(Abs(), rem, filled, fills)) ==
                  Match(t, MatchState(old(Abs()), want, 0, []))
        decreases |NonEmptyPrices(LadderOf(Abs(), os))|,
                  |LevelAt(LadderOf(Abs(), os), Best(Abs(), os))|,
                  if rem > 0 then 1 else 0
      {
        var bestPx := CachedBest(os);
        if bestPx == Sentinel(os) {
          break;
        }
        if !Crosses(t, bestPx) {
          break;
        }
        ghost var st := MatchState(Abs(), rem, filled, fills);
        MatchStepDecreases(t, st);
        rem, filled, fills := MatchHead(t, rem, filled, fills);
      }
    }

    /** submit_market. */
    method SubmitMarket(o: NewOrder) returns (r: ExecResult)
      requires Valid()
      modifies this, bids, asks
      ensures Valid()
      ensures (Abs(), r) == BookSpec.SubmitMarket(old(Abs()), o)
    {
      if o.qty <= 0 {
        return ExecResult(0, 0);
      }
      var filled := MatchAgainst(TakerOf(o, MarketBound(o.side)), o.qty);
      r := ExecResult(filled, o.qty - filled);
    }

    /** submit_limit. */
    method SubmitLimit(o: NewOrder) returns (r: ExecResult)
      requires Valid() && IsTick(o.price)
      modifies this, bids, asks
      ensures Valid()
      ensures (Abs(), r) == BookSpec.SubmitLimit(old(Abs()), o)
    {
      if o.qty <= 0 {
        return ExecResult(0, 0);
      }
      ghost var b := Abs();
      var filled := MatchAgainst(TakerOf(o, o.price), o.qty);
      ghost var mt := Match(TakerOf(o, o.price), MatchState(b, o.qty, 0, []));
      var leftover := o.qty - filled;
      if leftover <= 0 {
        assert BookSpec.SubmitLimit(b, o) == (mt.book, ExecResult(filled, 0));
        return ExecResult(filled, 0);
      }
      assert BookSpec.SubmitLimit(b, o) == (Rest(mt.book, o, leftover), ExecResult(filled, leftover));
      RestOrder(o, leftover);
      r := ExecResult(filled, leftover);
    }

    /** The resting half of submit_limit: enqueue a new node, improve the top of book, index it. */
    method RestOrder(o: NewOrder, leftover: int)
      requires Valid() && IsTick(o.price) && leftover > 0
      modifies this, bids, asks
      ensures Valid()
      ensures Abs() == Rest(old(Abs()), o, leftover)
    {
      ghost var b := Abs();
      var same := Ladder(o.side);
      var L := same.GetLevel(o.price);
      var n := Order(nextNode, o.id, o.user, leftover, o.ts, o.flags);
      same.PutLevel(o.price, L + [n]);
      if o.side == Bid {
        if o.price > same.bestBid {
          same.SetBestBid(o.price);
        }
      } else {
        if o.price < same.bestAsk {
          same.SetBestAsk(o.price);
        }
      }
      index := index[o.id := IdEntry(o.side, o.price, nextNode)];
      nextNode := nextNode + 1;
      RestFacts(b, o, leftover);
      assert Abs() == Rest(b, o, leftover);
    }

    /**
     * Unlinks the order at position i of the level at e.px (erase, delete,
     * id_index_.erase), repricing the side when that level empties at the best.
     */
    method EraseResting(id: int, e: IdEntry, i: nat)
      requires Valid() && id in index && index[id] == e
      requires e.px in Ladder(e.side).levels && Position(Ladder(e.side).levels[e.px], e.node) == Some(i)
      modifies this, bids, asks
      ensures Valid()
      ensures Abs() == EraseAt(old(Abs()), e.side, e.px, i).(index := old(index) - {id})
    {
      ghost var b := Abs();
      var L := Ladder(e.side).levels[e.px];
      ReplaceLevel(e.side, e.px, RemoveAt(L, i));
      index := index - {id};
      assert Abs() == EraseAt(b, e.side, e.px, i).(index := b.index - {id});
      assert Touch(LadderOf(b, e.side), e.px) == LadderOf(b, e.side);
      CancelWellFormed(b, id);
    }

    /** cancel. */
    method Cancel(id: int) returns (ok: bool)
      requires Valid()
      modifies this, bids, asks
      ensures Valid()
      ensures (Abs(), ok) == BookSpec.Cancel(old(Abs()), id)
    {
      if id !in index {
        return false;
      }
      var e := index[id];
      var book := Ladder(e.side);
      var L := book.GetLevel(e.px);
      match Position(L, e.node)
      case None =>
        ok := false;
      case Some(i) =>
        EraseResting(id, e, i);
        ok := true;
    }

    /** modify's same-price branch with a positive quantity: rewrite the node where it stands. */
    method Requantify(o: NewOrder, e: IdEntry, i: nat)
      requires Valid() && o.id in index && index[o.id] == e && o.price == e.px && o.qty > 0
      requires e.px in Ladder(e.side).levels && Position(Ladder(e.side).levels[e.px], e.node) == Some(i)
      modifies bids, asks
      ensures Valid()
      ensures (Abs(), ExecResult(0, 0)) == BookSpec.Modify(old(Abs()), o)
    {
      ghost var b := Abs();
      var L := Ladder(e.side).levels[e.px];
      var n := L[i].(qty := o.qty, ts := o.ts, flags := o.flags);
      ReplaceLevel(e.side, e.px, L[i := n]);
      ModifyFound(b, o, i);
      ModifyInPlace(b, o);
    }

    /** modify. */
    method Modify(o: NewOrder) returns (r: ExecResult)
      requires Valid() && IsTick(o.price)
      modifies this, bids, asks
      ensures Valid()
      ensures (Abs(), r) == BookSpec.Modify(old(Abs()), o)
    {
      if o.id !in index {
        return ExecResult(0, 0);
      }
      ghost var b := Abs();
      var e := index[o.id];
      var sideBook := Ladder(e.side);
      var L := sideBook.GetLevel(e.px);
      ModifyAfterTouch(b, o);
      ghost var bt := Abs();
      match Position(L, e.node)
      case None =>
        r := ExecResult(0, 0);
      case Some(i) =>
        ModifyFound(bt, o, i);
        if o.price == e.px {
          if o.qty <= 0 {
            EraseResting(o.id, e, i);
            r := ExecResult(0, 0);
          } else {
            Requantify(o, e, i);
            r := ExecResult(0, 0);
          }
        } else {
          EraseResting(o.id, e, i);
          r := SubmitLimit(o.(side := e.side));
        }
    }
  }
}
