/**
  Amounts of money, in millionths of a dollar. Balances and ledger columns hold whole millionths; an
  amount handed to the ledger may be any number. Two roundings meet there: the program rounds a new
  balance half to even, the database rounds a stored amount half away from zero.
 */
module Money {
  import opened Wrappers

  function RoundHalfEven(x: real): int {
    var f := x.Floor;
    var part := x - f as real;
    if part < 0.5 || (part == 0.5 && f % 2 == 0) then f else f + 1
  }

  function RoundHalfAway(x: real): int {
    var f := x.Floor;
    var part := x - f as real;
    if part < 0.5 || (part == 0.5 && x < 0.0) then f else f + 1
  }

  predicate IsTie(x: real) {
    x - x.Floor as real == 0.5
  }

  predicate IsWhole(x: real) {
    x == x.Floor as real
  }

  /** Half to even is the nearest whole number, and of two nearest ones the even one. */
  lemma RoundHalfEvenIs(x: real, n: int)
    ensures n == RoundHalfEven(x) <==>
      -0.5 <= n as real - x <= 0.5 && ((n as real - x == 0.5 || n as real - x == -0.5) ==> n % 2 == 0)
  {
  }

  /** Half away from zero is the nearest whole number, and of two nearest ones the one with the larger size. */
  lemma RoundHalfAwayIs(x: real, n: int)
    ensures n == RoundHalfAway(x) <==>
      -0.5 <= n as real - x <= 0.5 && (n as real - x == 0.5 ==> x > 0.0) && (n as real - x == -0.5 ==> x < 0.0)
  {
  }

  lemma FloorShift(b: int, x: real)
    ensures (b as real + x).Floor == b + x.Floor
  {
  }

  /** A change and the balance it leads to round alike unless a tie falls on the wrong parity. */
  lemma RoundingsAgreeExactlyWhen(b: int, x: real)
    ensures RoundHalfEven(b as real + x) == b + RoundHalfAway(x) <==>
      (IsTie(x) ==> (x > 0.0 <==> (b + x.Floor) % 2 == 1))
  {
    FloorShift(b, x);
  }

  /** They never differ by more than one millionth. */
  lemma RoundingsAreClose(b: int, x: real)
    ensures -1 <= RoundHalfEven(b as real + x) - (b + RoundHalfAway(x)) <= 1
  {
    FloorShift(b, x);
  }

  lemma RoundingKeepsSign(x: real)
    ensures x >= 0.0 ==> RoundHalfEven(x) >= 0 && RoundHalfAway(x) >= 0
  {
  }

  lemma WholeStays(b: int, x: real)
    requires IsWhole(x)
    ensures RoundHalfEven(x) == RoundHalfAway(x) == x.Floor
    ensures RoundHalfEven(b as real + x) == b + x.Floor
  {
    FloorShift(b, x);
  }

  lemma IntsSubtract(b: int, a: int)
    ensures RoundHalfEven(b as real + -(a as real)) == b - a
  {
    assert b as real + -(a as real) == (b - a) as real;
  }

  /** `usd`: dollars to an amount with six decimals; what has no decimal form becomes zero. */
  function Usd(dollars: Option<real>): real {
    if dollars.None? then 0.0 else RoundHalfEven(dollars.value * 1000000.0) as real
  }

  /** An amount made by `usd` is whole millionths, as near to the dollars as can be, and reconciles with any balance. */
  lemma UsdIsExact(dollars: Option<real>, b: int)
    ensures IsWhole(Usd(dollars)) && !IsTie(Usd(dollars)) && !IsTie(-Usd(dollars))
    ensures dollars.Some? ==> -0.5 <= Usd(dollars) - dollars.value * 1000000.0 <= 0.5
    ensures RoundHalfEven(b as real + Usd(dollars)) == b + RoundHalfAway(Usd(dollars))
  {
    var n := Usd(dollars).Floor;
    assert (-Usd(dollars)).Floor == -n;
    WholeStays(b, Usd(dollars));
  }

  lemma IntsAreWhole(b: int, a: int)
    ensures RoundHalfEven(b as real + a as real) == b + a
    ensures RoundHalfAway(b as real + a as real) == b + a
    ensures RoundHalfAway(a as real) == a && RoundHalfAway(-(a as real)) == -a
  {
    assert b as real + a as real == (b + a) as real;
    assert -(a as real) == (-a) as real;
  }
}
