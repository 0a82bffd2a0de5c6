/**
 * Identifiers the store hands out. The database generates a fresh opaque
 * string id for every row; the model generates "c" followed by the decimal
 * digits of a counter, and proves distinct counters give distinct ids.
 */
module Ids {

  type Id = string

  function Digit(d: nat): char
    requires d < 10
  {
    (48 + d) as char
  }

  /** Decimal digits of n, most significant first. */
  function Digits(n: nat): (r: string)
    ensures |r| >= 1
    ensures n < 10 <==> |r| == 1
  {
    if n < 10 then [Digit(n)] else Digits(n / 10) + [Digit(n % 10)]
  }

  /** The id of the row created with counter value n. */
  function IdOf(n: nat): Id {
    "c" + Digits(n)
  }

  lemma {:induction false} DigitsInjective(a: nat, b: nat)
    requires Digits(a) == Digits(b)
    ensures a == b
    decreases a
  {
    if a >= 10 {
      var da, db := Digits(a), Digits(b);
      assert da[..|da| - 1] == Digits(a / 10);
      assert db[..|db| - 1] == Digits(b / 10);
      assert Digit(a % 10) == da[|da| - 1] == db[|db| - 1] == Digit(b % 10);
      DigitsInjective(a / 10, b / 10);
    }
  }

  /** Distinct counter values never produce the same id. */
  lemma IdOfInjective(a: nat, b: nat)
    ensures IdOf(a) == IdOf(b) ==> a == b
  {
    if IdOf(a) == IdOf(b) {
      assert Digits(a) == IdOf(a)[1..];
      assert Digits(b) == IdOf(b)[1..];
      DigitsInjective(a, b);
    }
  }
}
