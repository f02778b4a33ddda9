/**
 * The limiter's documented behaviour, driven through the imperative
 * operations: a limiter built from a policy text, checks on one key, and the
 * cleaning job run between them where the interval elapses.
 */
module Scenarios {
  import opened GoStrings
  import opened PatternParser
  import opened RateLimit
  import opened Cleaner

  /** "1r/s": the first check is admitted, the second is rejected reporting
      one hit; after the interval's sweep the key is admitted again and holds
      one hit. */
  method OnePerSecond(key: string) returns (first: HitResult, second: HitResult, third: HitResult, hits: nat)
    ensures first == Admitted && second == Rejected(1) && third == Admitted
    ensures hits == 1
  {
    ParsedRateOnly(1, 's');
    assert Decimal(1) + "r/" + ['s'] == "1r/s";
    var r := CreateLimit("1r/s");
    var l := r.value;
    first := l.Hit(key);
    second := l.Hit(key);
    Sweep(l);
    third := l.Hit(key);
    hits := l.Rates[key];
  }

  /** `n` checks in a row on one key, all within the allowance. */
  method HitRepeatedly(l: Limit, key: string, n: nat) returns (results: seq<HitResult>)
    requires l.Valid() && CountOf(l.Rates, key) + n <= l.MaxRequests
    modifies l
    ensures l.Valid() && results == seq(n, _ => Admitted)
    ensures CountOf(l.Rates, key) == old(CountOf(l.Rates, key)) + n
  {
    results := [];
    var i := 0;
    while i < n
      invariant 0 <= i <= n && l.Valid()
      invariant CountOf(l.Rates, key) == old(CountOf(l.Rates, key)) + i
      invariant results == seq(i, _ => Admitted)
    {
      var h := l.Hit(key);
      results := results + [h];
      i := i + 1;
    }
  }

  /** "3r/m": three checks are admitted and the key holds three hits; after
      the interval's sweep the next check is admitted and the key holds one
      hit. */
  method ThreePerMinute(key: string) returns (admitted: seq<HitResult>, before: nat, after: HitResult, hits: nat)
    ensures admitted == [Admitted, Admitted, Admitted] && before == 3
    ensures after == Admitted && hits == 1
  {
    ParsedRateOnly(3, 'm');
    assert Decimal(3) + "r/" + ['m'] == "3r/m";
    var r := CreateLimit("3r/m");
    var l := r.value;
    admitted := HitRepeatedly(l, key, 3);
    before := l.Rates[key];
    Sweep(l);
    after := l.Hit(key);
    hits := l.Rates[key];
  }
}
