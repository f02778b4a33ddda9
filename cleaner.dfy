/**
 * The leaky-bucket drain that runs once per interval: every record loses
 * `MaxRequests` hits, and never goes below zero. The scheduler that calls it
 * is replaced by an explicit call to `Sweep`.
 */
module Cleaner {
  import opened RateLimit

  /** One record's drain: above the allowance it loses the allowance, a
      positive count within the allowance becomes 0, and 0 stays 0. */
  function Decayed(hits: nat, max: nat): (d: nat)
    ensures d <= hits
    ensures d == 0 <==> hits <= max
  {
    if hits > 0 && hits > max then hits - max
    else if hits > 0 && hits <= max then 0
    else hits
  }

  /** Every record drained on its own. */
  function DecayAll(hits: map<string, nat>, max: nat): (r: map<string, nat>)
    ensures r.Keys == hits.Keys
    ensures forall k :: k in r ==> r[k] <= hits[k] && (r[k] == 0 <==> hits[k] <= max)
  {
    map k | k in hits :: Decayed(hits[k], max)
  }

  /** The three branches are the clamped subtraction max(0, hits - max), so a
      count never grows and never goes negative. */
  lemma DecayedIsClampedSubtraction(hits: nat, max: nat)
    ensures Decayed(hits, max) == if hits > max then hits - max else 0
    ensures Decayed(hits, max) <= hits
  {
  }

  /** A sweep keeps the set of keys, never raises a count, and gives each key
      a count that depends only on its own old count. */
  lemma DecayAllPerRecord(hits: map<string, nat>, other: map<string, nat>, max: nat)
    ensures DecayAll(hits, max).Keys == hits.Keys
    ensures forall k :: k in hits ==> DecayAll(hits, max)[k] <= hits[k]
    ensures forall k :: k in hits && k in other && hits[k] == other[k] ==>
              DecayAll(hits, max)[k] == DecayAll(other, max)[k]
  {
  }

  /** Counts that stay within the allowance are all 0 after one sweep. */
  lemma DecayClearsBounded(hits: map<string, nat>, max: nat)
    requires Bounded(hits, max)
    ensures forall k :: k in DecayAll(hits, max) ==> DecayAll(hits, max)[k] == 0
  {
  }

  /** A sweep keeps a limiter's state consistent. */
  lemma DecayKeepsConsistent(pol: Policy, t: Tracker)
    requires Consistent(pol, t)
    ensures Consistent(pol, t.(hits := DecayAll(t.hits, pol.maxRequests)))
  {
  }

  /** The cleaning job's body: each record is drained in place. It works on
      any limiter, and keeps a valid one valid. */
  method Sweep(l: Limit)
    modifies l
    ensures l.Rates == DecayAll(old(l.Rates), l.MaxRequests)
    ensures l.Offenses == old(l.Offenses) && l.Blocked == old(l.Blocked)
    ensures old(l.Valid()) ==> l.Valid()
  {
    ghost var wasValid := l.Valid();
    ghost var before := l.State();
    var todo := l.Rates.Keys;
    while todo != {}
      invariant todo <= l.Rates.Keys == old(l.Rates).Keys
      invariant forall k :: k in l.Rates ==>
        l.Rates[k] == if k in todo then old(l.Rates)[k] else Decayed(old(l.Rates)[k], l.MaxRequests)
      invariant l.Offenses == old(l.Offenses) && l.Blocked == old(l.Blocked)
      decreases todo
    {
      var key :| key in todo;
      var hits := l.Rates[key];
      if hits > 0 && hits > l.MaxRequests {
        l.Rates := l.Rates[key := hits - l.MaxRequests];
      } else if hits > 0 && hits <= l.MaxRequests {
        l.Rates := l.Rates[key := 0];
      }
      todo := todo - {key};
    }
    assert l.Rates == DecayAll(old(l.Rates), l.MaxRequests);
    if wasValid {
      DecayKeepsConsistent(PolicyOf(l), before);
      assert l.State() == before.(hits := DecayAll(before.hits, l.MaxRequests));
    }
  }

  /** After a sweep a key whose count was within the allowance is admitted
      again: with an allowance of at least one, the next check on it is
      admitted and leaves it with one hit. */
  lemma SweepReadmits(pol: Policy, t: Tracker, key: string)
    requires CountOf(t.hits, key) <= pol.maxRequests && pol.maxRequests >= 1
    ensures var s := Admit(pol, t.(hits := DecayAll(t.hits, pol.maxRequests)), key);
      s.result == Admitted && s.after.hits[key] == 1
  {
  }

  /** A full allowance used from a fresh key, one check rejected, a sweep,
      then the key is admitted again with one hit, as with "1r/s" and
      "3r/m". */
  lemma BurstSweepBurst(pol: Policy, t: Tracker, key: string)
    requires Consistent(pol, t) && pol.maxRequests >= 1 && CountOf(t.hits, key) == 0
    ensures var run := Repeat(pol, t, key, pol.maxRequests);
      var rejected := Admit(pol, run.after, key);
      var s := Admit(pol, rejected.after.(hits := DecayAll(rejected.after.hits, pol.maxRequests)), key);
      && (forall i :: 0 <= i < pol.maxRequests ==> run.results[i] == Admitted)
      && rejected.result == Rejected(pol.maxRequests)
      && s.result == Admitted && s.after.hits[key] == 1
  {
    FreshKeyBurst(pol, t, key);
    var run := Repeat(pol, t, key, pol.maxRequests);
    RepeatKeepsConsistent(pol, t, key, pol.maxRequests);
    AdmitKeepsConsistent(pol, run.after, key);
    SweepReadmits(pol, Admit(pol, run.after, key).after, key);
  }

  lemma {:induction false} RepeatKeepsConsistent(pol: Policy, t: Tracker, key: string, n: nat)
    requires Consistent(pol, t)
    ensures Consistent(pol, Repeat(pol, t, key, n).after)
    decreases n
  {
    if n > 0 {
      AdmitKeepsConsistent(pol, t, key);
      RepeatKeepsConsistent(pol, Admit(pol, t, key).after, key, n - 1);
    }
  }
}
