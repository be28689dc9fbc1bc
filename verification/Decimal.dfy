/** Decimal numerals, as `std::to_string` prints them. */
module Decimal {
  import opened Bytes

  function Print(n: nat): (s: bytes)
    ensures s != [] && NulFree(s)
  {
    if n < 10 then [48 + n] else Print(n / 10) + [48 + n % 10]
  }

  /** The number a numeral stands for. */
  function Value(s: bytes): int {
    if s == [] then 0 else 10 * Value(s[..|s| - 1]) + s[|s| - 1] - 48
  }

  /** Printing is undone by `Value`, so different numbers print differently. */
  lemma {:induction false} PrintIsInjective(n: nat)
    ensures Value(Print(n)) == n
  {
    if n < 10 {
      assert Print(n)[..0] == [];
    } else {
      PrintIsInjective(n / 10);
      assert Print(n)[..|Print(n)| - 1] == Print(n / 10);
    }
  }

  /** The keys that can still get in the way of a search starting at `next`. */
  ghost function Blocking(keys: set<bytes>, next: nat): set<bytes> {
    set k <- keys | Value(k) >= next
  }

  lemma BlockingShrinks(keys: set<bytes>, next: nat)
    requires Print(next) in keys
    ensures Blocking(keys, next + 1) < Blocking(keys, next)
  {
    PrintIsInjective(next);
    assert Print(next) in Blocking(keys, next) && Print(next) !in Blocking(keys, next + 1);
  }

  /** The least number from `next` on whose numeral is not taken. */
  function FreshFrom(keys: set<bytes>, next: nat): (n: nat)
    ensures n >= next && Print(n) !in keys
    ensures forall m | next <= m < n :: Print(m) in keys
    decreases Blocking(keys, next)
  {
    if Print(next) !in keys then next else
      BlockingShrinks(keys, next);
      FreshFrom(keys, next + 1)
  }

  method FindFresh(keys: set<bytes>, start: nat) returns (next: nat)
    ensures next == FreshFrom(keys, start)
  {
    next := start;
    while Print(next) in keys
      invariant FreshFrom(keys, start) == FreshFrom(keys, next)
      decreases Blocking(keys, next)
    {
      BlockingShrinks(keys, next);
      next := next + 1;
    }
  }
}
