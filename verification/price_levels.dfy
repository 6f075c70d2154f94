/**
 * A side's price ladder (lob/price_levels.hpp): one FIFO of resting orders
 * per price, a cached best bid and best ask whose "empty" values are the
 * extremes of the tick range, and searches for the next non-empty price
 * strictly beyond a given one.
 *
 * The specification is stated on the ladder's abstract view, a map from price
 * to level; both implementations (a contiguous array over a tick band and a
 * sparse ordered map) answer their searches as the functions below say.
 */
module PriceLevels {
  import opened Types

  /** The order flag bits (IOC, FOK, POST_ONLY, STP) as a set of names. */
  datatype Flag = IOC | FOK | PostOnly | STP

  /**
   * An OrderNode without its links: its place in the FIFO is its index in a
   * Level, and `node` stands for the node's address (the identity `new`
   * hands out and the id index points at).
   */
  datatype Order = Order(node: nat, id: int, user: int, qty: int, ts: int, flags: set<Flag>)

  /**
   * A LevelFIFO: the head is element 0 and the tail the last element, so
   * `head == nullptr` holds exactly when the level is the empty sequence.
   */
  type Level = seq<Order>

  /** LevelFIFO::total_qty, taken as the sum of the quantities resting in the level. */
  function TotalQty(L: Level): int
  {
    if L == [] then 0 else L[0].qty + TotalQty(L[1..])
  }

  /** The level without its i-th order (erase of a node from the FIFO). */
  function RemoveAt(L: Level, i: nat): (r: Level)
    requires i < |L|
    ensures |r| == |L| - 1
    ensures forall j :: 0 <= j < i ==> r[j] == L[j]
    ensures forall j :: i <= j < |r| ==> r[j] == L[j + 1]
  {
    L[..i] + L[i + 1..]
  }

  /** Appending an order (enqueue at the tail) adds its quantity to the level's total. */
  lemma {:induction false} TotalQtyAppend(L: Level, o: Order)
    ensures TotalQty(L + [o]) == TotalQty(L) + o.qty
  {
    if L != [] {
      assert (L + [o])[1..] == L[1..] + [o];
      TotalQtyAppend(L[1..], o);
    }
  }

  /** Erasing the i-th order takes exactly its quantity off the level's total. */
  lemma {:induction false} TotalQtyRemove(L: Level, i: nat)
    requires i < |L|
    ensures TotalQty(RemoveAt(L, i)) == TotalQty(L) - L[i].qty
  {
    if i > 0 {
      assert RemoveAt(L, i)[1..] == RemoveAt(L[1..], i - 1);
      TotalQtyRemove(L[1..], i - 1);
    } else {
      assert RemoveAt(L, 0) == L[1..];
    }
  }

  /** Rewriting the i-th order's quantity to q changes the total by q minus its old quantity. */
  lemma {:induction false} TotalQtyUpdate(L: Level, i: nat, o: Order)
    requires i < |L|
    ensures TotalQty(L[i := o]) == TotalQty(L) + o.qty - L[i].qty
  {
    if i > 0 {
      assert L[i := o][1..] == L[1..][i - 1 := o];
      TotalQtyUpdate(L[1..], i - 1, o);
    } else {
      assert L[0 := o][1..] == L[1..];
    }
  }

  /** The prices whose level has a non-null head. */
  function NonEmptyPrices(m: map<int, Level>): (s: set<int>)
    ensures forall p :: p in s <==> p in m && m[p] != []
  {
    set p | p in m && m[p] != []
  }

  /** The level a ladder holds at px; a price never touched holds an empty level. */
  function LevelAt(m: map<int, Level>, px: int): Level
  {
    if px in m then m[px] else []
  }

  /** std::map::operator[]: looking a price up creates an empty level there if there was none. */
  function Touch(m: map<int, Level>, px: int): (r: map<int, Level>)
    ensures r.Keys == m.Keys + {px} && r[px] == LevelAt(m, px)
    ensures forall p :: p in m ==> r[p] == m[p]
    ensures NonEmptyPrices(r) == NonEmptyPrices(m)
  {
    if px in m then m else m[px := []]
  }

  /** The least element of s strictly greater than px, or TICK_MAX when there is none. */
  function LeastAbove(s: set<int>, px: int): (r: int)
    ensures (forall p :: p in s ==> p <= px) ==> r == TICK_MAX
    ensures (exists p :: p in s && px < p) ==>
              r in s && px < r && forall p :: p in s && px < p ==> r <= p
  {
    var above := set p | p in s && px < p;
    assert forall p :: p in s && px < p ==> p in above;
    if above == {} then TICK_MAX else SetMin(above)
  }

  /** The greatest element of s strictly less than px, or TICK_MIN when there is none. */
  function GreatestBelow(s: set<int>, px: int): (r: int)
    ensures (forall p :: p in s ==> px <= p) ==> r == TICK_MIN
    ensures (exists p :: p in s && p < px) ==>
              r in s && r < px && forall p :: p in s && p < px ==> p <= r
  {
    var below := set p | p in s && p < px;
    assert forall p :: p in s && p < px ==> p in below;
    if below == {} then TICK_MIN else SetMax(below)
  }

  /** What next_ask_after(px) must answer for a ladder whose view is m. */
  function NextAbove(m: map<int, Level>, px: int): int
  {
    LeastAbove(NonEmptyPrices(m), px)
  }

  /** What next_bid_before(px) must answer for a ladder whose view is m. */
  function NextBelow(m: map<int, Level>, px: int): int
  {
    GreatestBelow(NonEmptyPrices(m), px)
  }

  /** The value meaning "this side is empty": TICK_MIN for bids, TICK_MAX for asks. */
  function Sentinel(s: Side): int
  {
    if s == Bid then TICK_MIN else TICK_MAX
  }

  /** Price a is strictly better than price b for side s (higher bid, lower ask). */
  predicate Better(s: Side, a: int, b: int)
  {
    if s == Bid then a > b else a < b
  }

  /** The best price among the non-empty prices ne of side s, or the side's sentinel. */
  function BestIn(s: Side, ne: set<int>): (r: int)
    ensures ne == {} ==> r == Sentinel(s)
    ensures ne != {} ==> r in ne && forall p :: p in ne ==> !Better(s, p, r)
  {
    if ne == {} then Sentinel(s) else if s == Bid then SetMax(ne) else SetMin(ne)
  }

  /** The exact value of the cached best_bid (s == Bid) or best_ask (s == Ask) of ladder m. */
  function BestOf(s: Side, m: map<int, Level>): int
  {
    BestIn(s, NonEmptyPrices(m))
  }

  /** The search the book uses to move side s's best past an emptied level. */
  function NextOf(s: Side, m: map<int, Level>, px: int): int
  {
    if s == Bid then NextBelow(m, px) else NextAbove(m, px)
  }

  /** Two non-empty-price sets whose best elements agree: the best is unique. */
  lemma BestInUnique(s: Side, ne: set<int>, b: int)
    requires b in ne && forall p :: p in ne ==> !Better(s, p, b)
    ensures BestIn(s, ne) == b
  {
    var r := BestIn(s, ne);
    assert !Better(s, b, r) && !Better(s, r, b);
  }

  /** Removing prices never makes a side's best better, as long as every price is a tick. */
  lemma BestSubset(s: Side, a: set<int>, b: set<int>)
    requires a <= b && forall p :: p in b ==> IsTick(p)
    ensures !Better(s, BestIn(s, a), BestIn(s, b))
  {
    if a != {} {
      assert BestIn(s, a) in b;
    }
  }

  /**
   * Rewriting the level at a non-empty price px leaves the best where it was,
   * except when px was the best and its level is now empty: then the best is
   * the next non-empty price beyond px, which is what BookCore stores.
   */
  lemma BestAfterReplace(s: Side, m: map<int, Level>, px: int, L: Level)
    requires px in NonEmptyPrices(m)
    ensures BestOf(s, m[px := L]) ==
              if L == [] && px == BestOf(s, m) then NextOf(s, m[px := L], px) else BestOf(s, m)
  {
    var m' := m[px := L];
    var ne, ne' := NonEmptyPrices(m), NonEmptyPrices(m');
    var b := BestOf(s, m);
    if L != [] {
      assert ne' == ne;
    } else {
      assert ne' == ne - {px};
      if px == b {
        if s == Bid {
          assert (set p | p in ne' && p < px) == ne';
        } else {
          assert (set p | p in ne' && px < p) == ne';
        }
      } else {
        assert b in ne';
        BestInUnique(s, ne', b);
      }
    }
  }

  /**
   * Making the level at px non-empty moves the best to px exactly when px is
   * strictly better than the old best (submit_limit's top-of-book update).
   */
  lemma BestAfterRest(s: Side, m: map<int, Level>, px: int, L: Level)
    requires L != [] && IsTick(px)
    ensures BestOf(s, m[px := L]) == if Better(s, px, BestOf(s, m)) then px else BestOf(s, m)
  {
    var ne, ne' := NonEmptyPrices(m), NonEmptyPrices(m[px := L]);
    assert ne' == ne + {px};
    var b := BestOf(s, m);
    if ne == {} {
      assert ne' == {px};
      BestInUnique(s, ne', px);
    } else if Better(s, px, b) {
      BestInUnique(s, ne', px);
    } else {
      BestInUnique(s, ne', b);
    }
  }

  /** PriceLevelsSparse: an ordered map from price to level. */
  class SparseLadder {
    var levels: map<int, Level>
    var bestBid: int
    var bestAsk: int

    constructor ()
      ensures levels == map[] && bestBid == TICK_MIN && bestAsk == TICK_MAX
    {
      levels := map[];
      bestBid := TICK_MIN;
      bestAsk := TICK_MAX;
    }

    /** get_level reads the level at px, creating an empty one when the price is new. */
    method GetLevel(px: int) returns (L: Level)
      modifies this
      ensures levels == Touch(old(levels), px) && L == LevelAt(old(levels), px)
      ensures bestBid == old(bestBid) && bestAsk == old(bestAsk)
    {
      if px !in levels {
        levels := levels[px := []];
      }
      L := levels[px];
    }

    /** Stores L at px: what BookCore does through the reference get_level returns. */
    method PutLevel(px: int, L: Level)
      modifies this
      ensures levels == old(levels)[px := L]
      ensures bestBid == old(bestBid) && bestAsk == old(bestAsk)
    {
      levels := levels[px := L];
    }

    method HasLevel(px: int) returns (b: bool)
      ensures b <==> px in NonEmptyPrices(levels)
    {
      b := px in levels && levels[px] != [];
    }

    method SetBestBid(px: int)
      modifies this
      ensures bestBid == px && bestAsk == old(bestAsk) && levels == old(levels)
    {
      bestBid := px;
    }

    method SetBestAsk(px: int)
      modifies this
      ensures bestAsk == px && bestBid == old(bestBid) && levels == old(levels)
    {
      bestAsk := px;
    }

    /** Walks the keys above px in increasing order (upper_bound, then ++it). */
    method NextAskAfter(px: int) returns (r: int)
      ensures r == NextAbove(levels, px)
    {
      var rest := set k | k in levels && px < k;
      while rest != {}
        invariant forall k :: k in rest ==> k in levels && px < k
        invariant forall k :: k in levels && px < k && k !in rest ==>
                    levels[k] == [] && forall j :: j in rest ==> k < j
        decreases |rest|
      {
        var k := SetMin(rest);
        if levels[k] != [] {
          return k;
        }
        rest := rest - {k};
      }
      return TICK_MAX;
    }

    /** Walks the keys below px in decreasing order (lower_bound, then --it). */
    method NextBidBefore(px: int) returns (r: int)
      ensures r == NextBelow(levels, px)
    {
      var rest := set k | k in levels && k < px;
      while rest != {}
        invariant forall k :: k in rest ==> k in levels && k < px
        invariant forall k :: k in levels && k < px && k !in rest ==>
                    levels[k] == [] && forall j :: j in rest ==> j < k
        decreases |rest|
      {
        var k := SetMax(rest);
        if levels[k] != [] {
          return k;
        }
        rest := rest - {k};
      }
      return TICK_MIN;
    }
  }

  /** PriceLevelsContig: one slot per tick of the band [minTick, maxTick]; px lives in slot px - minTick. */
  class ContigLadder {
    const minTick: int
    const maxTick: int
    const levels: array<Level>
    var bestBid: int
    var bestAsk: int

    ghost predicate Valid()
    {
      minTick <= maxTick && levels.Length == maxTick - minTick + 1
    }

    predicate InBand(px: int)
    {
      minTick <= px <= maxTick
    }

    /** The slot holding price px. */
    ghost function Slot(px: int): Level
      reads this, levels
      requires Valid() && InBand(px)
    {
      levels[px - minTick]
    }

    /** The ladder as a map from each price of the band to its level. */
    ghost function View(): (m: map<int, Level>)
      reads this, levels
      requires Valid()
      ensures forall p :: p in m <==> InBand(p)
      ensures forall p :: p in m ==> m[p] == Slot(p)
    {
      map p | minTick <= p <= maxTick :: Slot(p)
    }

    constructor (minTick: int, maxTick: int)
      requires minTick <= maxTick
      ensures Valid() && fresh(levels)
      ensures this.minTick == minTick && this.maxTick == maxTick
      ensures NonEmptyPrices(View()) == {}
      ensures bestBid == TICK_MIN && bestAsk == TICK_MAX
    {
      this.minTick := minTick;
      this.maxTick := maxTick;
      levels := new Level[maxTick - minTick + 1](_ => []);
      bestBid := TICK_MIN;
      bestAsk := TICK_MAX;
      new;
      assert forall p :: p in View() ==> View()[p] == levels[p - minTick] == [];
    }

    method GetLevel(px: int) returns (L: Level)
      requires Valid() && InBand(px)
      ensures L == View()[px]
    {
      L := levels[px - minTick];
    }

    /** Stores L at px: what BookCore does through the reference get_level returns. */
    method PutLevel(px: int, L: Level)
      requires Valid() && InBand(px)
      modifies levels
      ensures View() == old(View())[px := L]
    {
      levels[px - minTick] := L;
    }

    method HasLevel(px: int) returns (b: bool)
      requires Valid() && InBand(px)
      ensures b <==> px in NonEmptyPrices(View())
    {
      b := levels[px - minTick] != [];
    }

    method SetBestBid(px: int)
      modifies this
      ensures bestBid == px && bestAsk == old(bestAsk) && (Valid() ==> View() == old(View()))
    {
      bestBid := px;
    }

    method SetBestAsk(px: int)
      modifies this
      ensures bestAsk == px && bestBid == old(bestBid) && (Valid() ==> View() == old(View()))
    {
      bestAsk := px;
    }

    /** Scans the slots above px's slot upward. */
    method NextAskAfter(px: int) returns (r: int)
      requires Valid() && InBand(px)
      ensures r == NextAbove(View(), px)
    {
      var i := px - minTick + 1;
      while i < levels.Length
        invariant px - minTick + 1 <= i <= levels.Length
        invariant forall j :: px - minTick + 1 <= j < i ==> levels[j] == []
      {
        if levels[i] != [] {
          r := minTick + i;
          assert View()[r] == levels[i];
          return;
        }
        i := i + 1;
      }
      r := TICK_MAX;
      forall p | p in NonEmptyPrices(View())
        ensures p <= px
      {
        assert View()[p] == levels[p - minTick];
      }
    }

    /** Scans the slots below px's slot downward; slot 0 has nothing below it. */
    method NextBidBefore(px: int) returns (r: int)
      requires Valid() && InBand(px)
      ensures r == NextBelow(View(), px)
    {
      var i := px - minTick;
      if i == 0 {
        r := TICK_MIN;
        forall p | p in NonEmptyPrices(View())
          ensures px <= p
        {
        }
        return;
      }
      var k := i;
      while k > 0
        invariant 0 <= k <= i
        invariant forall j :: k <= j < i ==> levels[j] == []
      {
        k := k - 1;
        if levels[k] != [] {
          r := minTick + k;
          assert View()[r] == levels[k];
          return;
        }
      }
      r := TICK_MIN;
      forall p | p in NonEmptyPrices(View())
        ensures px <= p
      {
        assert View()[p] == levels[p - minTick];
      }
    }
  }

  /**
   * The shared IPriceLevels contract: two ladders holding the same non-empty
   * prices answer has_level, next_ask_after and next_bid_before alike.
   */
  method LaddersAgree(c: ContigLadder, sp: SparseLadder, px: int)
      returns (hasC: bool, hasS: bool, askC: int, askS: int, bidC: int, bidS: int)
    requires c.Valid() && c.InBand(px)
    requires NonEmptyPrices(c.View()) == NonEmptyPrices(sp.levels)
    ensures hasC == hasS && askC == askS && bidC == bidS
  {
    ghost var ne := NonEmptyPrices(sp.levels);
    assert NextAbove(c.View(), px) == LeastAbove(ne, px) == NextAbove(sp.levels, px);
    assert NextBelow(c.View(), px) == GreatestBelow(ne, px) == NextBelow(sp.levels, px);
    hasC := c.HasLevel(px);
    hasS := sp.HasLevel(px);
    askC := c.NextAskAfter(px);
    askS := sp.NextAskAfter(px);
    bidC := c.NextBidBefore(px);
    bidS := sp.NextBidBefore(px);
  }
}
