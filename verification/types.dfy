/**
 * Shared vocabulary of the order-book code (the parts of lob/types.hpp that
 * the modelled files rely on): the two book sides, the 64-bit tick range whose
 * extremes serve as "empty side" sentinels, an Option type, and the least and
 * greatest element of a finite set of prices.
 */
module Types {

  datatype Side = Bid | Ask

  function Opposite(s: Side): (r: Side)
    ensures r != s
  {
    if s == Bid then Ask else Bid
  }

  /** std::numeric_limits<Tick>::min() and ::max() for the signed 64-bit Tick. */
  const TICK_MIN: int := -0x8000_0000_0000_0000
  const TICK_MAX: int := 0x7FFF_FFFF_FFFF_FFFF

  predicate IsTick(x: int) {
    TICK_MIN <= x <= TICK_MAX
  }

  datatype Option<T> = None | Some(value: T)

  function Min(a: int, b: int): int {
    if a <= b then a else b
  }

  /** Every non-empty finite set of integers has a least element. */
  lemma {:induction false} LeastExists(s: set<int>)
    requires s != {}
    ensures exists m :: m in s && forall x :: x in s ==> m <= x
  {
    assert (forall z :: z !in s) ==> s == {};
    var y :| y in s;
    if s == {y} {
      assert forall x :: x in s ==> y <= x;
    } else {
      var rest := s - {y};
      LeastExists(rest);
      var m :| m in rest && forall x :: x in rest ==> m <= x;
      var least := if y < m then y else m;
      forall x | x in s
        ensures least <= x
      {
        if x != y { assert x in rest; }
      }
      assert least in s;
    }
  }

  /** Every non-empty finite set of integers has a greatest element. */
  lemma {:induction false} GreatestExists(s: set<int>)
    requires s != {}
    ensures exists m :: m in s && forall x :: x in s ==> x <= m
  {
    assert (forall z :: z !in s) ==> s == {};
    var y :| y in s;
    if s == {y} {
      assert forall x :: x in s ==> x <= y;
    } else {
      var rest := s - {y};
      GreatestExists(rest);
      var m :| m in rest && forall x :: x in rest ==> x <= m;
      var greatest := if m < y then y else m;
      forall x | x in s
        ensures x <= greatest
      {
        if x != y { assert x in rest; }
      }
      assert greatest in s;
    }
  }

  /** The least element of a non-empty set (std::map::begin on its keys). */
  function SetMin(s: set<int>): (m: int)
    requires s != {}
    ensures m in s && forall x :: x in s ==> m <= x
  {
    LeastExists(s);
    var m :| m in s && forall x :: x in s ==> m <= x; m
  }

  /** The greatest element of a non-empty set (std::map::rbegin on its keys). */
  function SetMax(s: set<int>): (m: int)
    requires s != {}
    ensures m in s && forall x :: x in s ==> x <= m
  {
    GreatestExists(s);
    var m :| m in s && forall x :: x in s ==> x <= m; m
  }
}
