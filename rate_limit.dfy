/**
 * The limiter: a table from key to hit-count record, the admission check
 * `Hit`, and the escalation it drives on a rejection. The two escalation
 * collaborators are abstract: the spammer keeps an offense count per key and
 * the blocker a set of blocked keys; each is present only when the policy
 * enables it.
 */
module RateLimit {
  import opened PatternParser

  /** What `Limit.Hit` reports: admitted, or rejected with the count it saw. */
  datatype HitResult = Admitted | Rejected(hits: nat)

  /** The part of a limiter that `Hit` reads and never changes: the
      allowance, the spam threshold, and which collaborators exist. */
  datatype Policy = Policy(maxRequests: nat, maxSpam: nat, spammer: bool, blocker: bool)

  /** The state `Hit` changes: the hit count per key, the spammer's offense
      count per key, and the keys handed to the blocker. */
  datatype Tracker = Tracker(hits: map<string, nat>, offenses: map<string, nat>, blocked: set<string>)

  /** One admission check: its result and the state after it. */
  datatype Step = Step(result: HitResult, after: Tracker)

  /** The count stored for `key`, 0 when there is none. */
  function CountOf(m: map<string, nat>, key: string): nat
  {
    if key in m then m[key] else 0
  }

  /** Every stored hit count is within the allowance. */
  ghost predicate Bounded(hits: map<string, nat>, max: nat)
  {
    forall k :: k in hits ==> hits[k] <= max
  }

  /** What a limiter keeps true between calls: counts within the allowance,
      collaborators' state only for keys seen and only when the collaborator
      is present, and a key blocked only once its offenses reached the
      threshold. */
  ghost predicate Consistent(pol: Policy, t: Tracker)
  {
    && Bounded(t.hits, pol.maxRequests)
    && t.offenses.Keys <= t.hits.Keys
    && (!pol.spammer ==> t.offenses == map[])
    && (!(pol.spammer && pol.blocker) ==> t.blocked == {})
    && (forall k :: k in t.blocked ==> k in t.offenses && t.offenses[k] >= pol.maxSpam)
  }

  /** A rejection's escalation: one more offense when the spammer is present;
      the key handed to the blocker when both collaborators are present and
      its offense count has reached the threshold. */
  function Escalate(pol: Policy, t: Tracker, key: string): (r: Tracker)
    ensures r.hits == t.hits
    ensures r.offenses == t.offenses || r.offenses == t.offenses[key := CountOf(t.offenses, key) + 1]
    ensures t.blocked <= r.blocked <= t.blocked + {key}
    ensures key in r.blocked - t.blocked ==> CountOf(r.offenses, key) >= pol.maxSpam
  {
    var offenses := if pol.spammer then t.offenses[key := CountOf(t.offenses, key) + 1] else t.offenses;
    var blocked :=
      if pol.spammer && pol.blocker && CountOf(offenses, key) >= pol.maxSpam then t.blocked + {key}
      else t.blocked;
    t.(offenses := offenses, blocked := blocked)
  }

  /** `Limit.Hit` on the abstract state: the key is stored with count 0 if it
      is new; a count below the allowance goes up by one and is admitted;
      otherwise the count is kept, reported, and escalated. */
  function Admit(pol: Policy, t: Tracker, key: string): (s: Step)
    ensures key in s.after.hits
    ensures s.result.Admitted? <==> CountOf(t.hits, key) < pol.maxRequests
  {
    var hits := CountOf(t.hits, key);
    if hits >= pol.maxRequests then
      Step(Rejected(hits), Escalate(pol, t.(hits := t.hits[key := hits]), key))
    else
      Step(Admitted, t.(hits := t.hits[key := hits + 1]))
  }

  /** An admission check keeps the state consistent; in particular no count
      is ever raised above the allowance. */
  lemma AdmitKeepsConsistent(pol: Policy, t: Tracker, key: string)
    requires Consistent(pol, t)
    ensures Consistent(pol, Admit(pol, t, key).after)
  {
    var hits := CountOf(t.hits, key);
    if hits >= pol.maxRequests {
      var t1 := t.(hits := t.hits[key := hits]);
      var t2 := Escalate(pol, t1, key);
      assert Bounded(t2.hits, pol.maxRequests);
      forall k | k in t2.blocked
        ensures k in t2.offenses && t2.offenses[k] >= pol.maxSpam
      {
        if k != key {
          assert k in t.blocked;
        }
      }
    }
  }

  /** A check on one key leaves every other key's count, offense count and
      blocked status as they were. */
  lemma AdmitOnlyTouchesKey(pol: Policy, t: Tracker, key: string, other: string)
    requires other != key
    ensures var a := Admit(pol, t, key).after;
      && (other in a.hits <==> other in t.hits)
      && CountOf(a.hits, other) == CountOf(t.hits, other)
      && (other in a.offenses <==> other in t.offenses)
      && CountOf(a.offenses, other) == CountOf(t.offenses, other)
      && (other in a.blocked <==> other in t.blocked)
  {
  }

  /** Admission raises the key's count by exactly one and touches neither
      collaborator; rejection reports the current count and leaves it as it
      was. */
  lemma AdmitOutcome(pol: Policy, t: Tracker, key: string)
    ensures var s := Admit(pol, t, key);
      if CountOf(t.hits, key) < pol.maxRequests then
        && s.result == Admitted
        && s.after.hits[key] == CountOf(t.hits, key) + 1
        && s.after.offenses == t.offenses && s.after.blocked == t.blocked
      else
        && s.result == Rejected(CountOf(t.hits, key))
        && s.after.hits[key] == CountOf(t.hits, key)
  {
  }

  /** On a rejection the offense count goes up by one exactly when the spammer
      is present, and the key is blocked afterwards exactly when it was
      already blocked or both collaborators are present and the new offense
      count has reached the threshold. */
  lemma RejectionEscalates(pol: Policy, t: Tracker, key: string)
    requires CountOf(t.hits, key) >= pol.maxRequests
    ensures var a := Admit(pol, t, key).after;
      && CountOf(a.offenses, key) == CountOf(t.offenses, key) + (if pol.spammer then 1 else 0)
      && (key in a.blocked <==>
            key in t.blocked || (pol.spammer && pol.blocker && CountOf(a.offenses, key) >= pol.maxSpam))
      && a.blocked <= t.blocked + {key}
  {
  }

  /** Asking the blocker to block a key it already holds changes nothing. */
  lemma BlockIdempotent(pol: Policy, t: Tracker, key: string)
    requires key in t.blocked
    ensures Admit(pol, t, key).after.blocked == t.blocked
  {
  }

  /** The results of `n` checks in a row on one key, and the state after. */
  datatype Run = Run(results: seq<HitResult>, after: Tracker)

  function Repeat(pol: Policy, t: Tracker, key: string, n: nat): (run: Run)
    ensures |run.results| == n
    decreases n
  {
    if n == 0 then Run([], t)
    else
      var s := Admit(pol, t, key);
      var rest := Repeat(pol, s.after, key, n - 1);
      Run([s.result] + rest.results, rest.after)
  }

  /** While the allowance lasts every check is admitted, each adds one to the
      count, and the collaborators are never touched. */
  lemma {:induction false} BurstAdmitted(pol: Policy, t: Tracker, key: string, n: nat)
    requires CountOf(t.hits, key) + n <= pol.maxRequests
    ensures var run := Repeat(pol, t, key, n);
      && (forall i :: 0 <= i < n ==> run.results[i] == Admitted)
      && CountOf(run.after.hits, key) == CountOf(t.hits, key) + n
      && run.after.offenses == t.offenses && run.after.blocked == t.blocked
    decreases n
  {
    if n > 0 {
      var s := Admit(pol, t, key);
      BurstAdmitted(pol, s.after, key, n - 1);
      var rest := Repeat(pol, s.after, key, n - 1);
      assert Repeat(pol, t, key, n).results == [Admitted] + rest.results;
    }
  }

  /** From a key with no hits, `maxRequests` checks in a row are admitted and
      the next one is rejected, reporting `maxRequests`. */
  lemma FreshKeyBurst(pol: Policy, t: Tracker, key: string)
    requires CountOf(t.hits, key) == 0
    ensures var run := Repeat(pol, t, key, pol.maxRequests);
      && (forall i :: 0 <= i < pol.maxRequests ==> run.results[i] == Admitted)
      && Admit(pol, run.after, key).result == Rejected(pol.maxRequests)
  {
    BurstAdmitted(pol, t, key, pol.maxRequests);
  }

  /** With one request allowed, spam threshold 2 and blocking on: the first
      check is admitted, the next two are rejected, and the second rejection
      (offense count 2) blocks the key; a third rejection leaves the blocked
      set as it was. */
  lemma EscalationScenario(t: Tracker, key: string)
    requires CountOf(t.hits, key) == 0 && key !in t.offenses && key !in t.blocked
    ensures var pol := Policy(1, 2, true, true);
      var run := Repeat(pol, t, key, 3);
      && run.results == [Admitted, Rejected(1), Rejected(1)]
      && CountOf(run.after.offenses, key) == 2
      && key in run.after.blocked
      && key !in Repeat(pol, t, key, 2).after.blocked
      && Admit(pol, run.after, key).after.blocked == run.after.blocked
  {
    var pol := Policy(1, 2, true, true);
    var s1 := Admit(pol, t, key);
    var s2 := Admit(pol, s1.after, key);
    var s3 := Admit(pol, s2.after, key);
    assert s1.result == Admitted && s1.after.hits[key] == 1;
    assert s2.result == Rejected(1) && key !in s2.after.blocked;
    assert s3.result == Rejected(1) && key in s3.after.blocked;
    assert Repeat(pol, s2.after, key, 1) == Run([s3.result], s3.after);
    assert Repeat(pol, s1.after, key, 2) == Run([s2.result, s3.result], s3.after);
    assert Repeat(pol, s1.after, key, 1) == Run([s2.result], s2.after);
  }

  /** The limiter. Each key's record (`RateLimit` in the source) is held as
      its hit count. */
  class Limit {
    const MaxRequests: nat
    const Per: nat
    const Block: int
    const MaxSpam: nat
    /** Whether the spammer and the blocker were created. */
    const HasSpammer: bool
    const HasBlocker: bool
    var Rates: map<string, nat>
    /** The spammer's offense count per key. */
    var Offenses: map<string, nat>
    /** The keys the blocker holds. */
    var Blocked: set<string>

    ghost function State(): Tracker
      reads this
    {
      Tracker(Rates, Offenses, Blocked)
    }

    /** The collaborators exist exactly when the policy enables them, and the
        state is consistent. */
    ghost predicate Valid()
      reads this
    {
      && HasSpammer == (MaxSpam != 0)
      && HasBlocker == (Block != 0)
      && Consistent(PolicyOf(this), State())
    }

    /** The struct `CreateLimit` builds from parsed options: no records yet,
        and the collaborators attached as the options enable them. */
    constructor (op: Options)
      ensures MaxRequests == op.Max && Per == op.Per
      ensures Block == op.Block && MaxSpam == op.MaxToSpam
      ensures HasSpammer == (op.MaxToSpam != 0) && HasBlocker == (op.Block != 0)
      ensures Rates == map[] && Offenses == map[] && Blocked == {}
      ensures Valid()
    {
      MaxRequests := op.Max;
      Per := op.Per;
      Block := op.Block;
      MaxSpam := op.MaxToSpam;
      HasSpammer := op.MaxToSpam != 0;
      HasBlocker := op.Block != 0;
      Rates := map[];
      Offenses := map[];
      Blocked := {};
    }

    /** The admission check: the record of a new key is created with no hits;
        a count below `MaxRequests` goes up by one (`RateLimit.Hit`);
        otherwise the count is reported and the collaborators are driven. */
    method Hit(key: string) returns (r: HitResult)
      requires Valid()
      modifies this
      ensures Valid()
      ensures Step(r, State()) == Admit(PolicyOf(this), old(State()), key)
    {
      ghost var before := State();
      ghost var step := Admit(PolicyOf(this), before, key);
      AdmitKeepsConsistent(PolicyOf(this), before, key);
      if key !in Rates {
        Rates := Rates[key := 0];
      }
      var hits := Rates[key];
      assert hits == CountOf(before.hits, key) && Rates == before.hits[key := hits];
      if hits >= MaxRequests {
        if HasSpammer {
          Offenses := Offenses[key := CountOf(Offenses, key) + 1];
        }
        if HasSpammer && HasBlocker {
          if Offenses[key] >= MaxSpam {
            Blocked := Blocked + {key};
          }
        }
        assert State() == Escalate(PolicyOf(this), before.(hits := Rates), key);
        return Rejected(hits);
      }
      Rates := Rates[key := hits + 1];
      assert State() == step.after;
      return Admitted;
    }
  }

  /** A limiter's policy, read from its fields. */
  function PolicyOf(l: Limit): Policy
  {
    Policy(l.MaxRequests, l.MaxSpam, l.HasSpammer, l.HasBlocker)
  }

  /** `CreateLimit`: a policy that does not parse is fatal; otherwise the
      limiter carries the parsed values and starts with no records. */
  method CreateLimit(policy: string) returns (r: Result<Limit>)
    ensures r.Err? <==> Parsed(policy).Err?
    ensures r.Err? ==> r.error == Parsed(policy).error
    ensures r.Ok? ==>
      && fresh(r.value) && r.value.Valid()
      && r.value.MaxRequests == Parsed(policy).value.Max
      && r.value.Per == Parsed(policy).value.Per
      && r.value.Block == Parsed(policy).value.Block
      && r.value.MaxSpam == Parsed(policy).value.MaxToSpam
      && r.value.HasSpammer == (r.value.MaxSpam != 0)
      && r.value.HasBlocker == (r.value.Block != 0)
      && r.value.Rates == map[]
  {
    var op := Parse(policy);
    if op.Err? {
      return Err(op.error);
    }
    var l := new Limit(op.value);
    return Ok(l);
  }
}
