/**
 * The policy parser: a text such as "1r/s,spam:2,block:15d" becomes an
 * `Options` record (maximum requests, interval, block duration, spam
 * threshold) or one of the parser's errors. Durations are whole seconds.
 */
module PatternParser {
  import opened GoStrings

  const Second: nat := 1
  const Minute: nat := 60 * Second
  const Hour: nat := 60 * Minute
  const Day: nat := 24 * Hour

  /** Values of Go's `uint32` are taken modulo this. */
  const Uint32Modulus: nat := 0x1_0000_0000

  /** The parsed policy. `Max` and `MaxToSpam` hold `uint32` values; `Block`
      may be negative, since its count is read with `Atoi`. */
  datatype Options = Options(Max: nat, Per: nat, Block: int, MaxToSpam: nat)

  /** The parser's error outcomes, each carrying the text or value it reports.
      `RateUnitMissing` and `BlockValueEmpty` stand for inputs on which the
      parser itself fails with an out-of-range slice instead of an error. */
  datatype ParseError =
    | InvalidMax(maxValue: int)
    | InvalidLimit(per: string)
    | CantParse(modifier: string)
    | UnsupportedModule(name: string)
    | InvalidSpam(spamValue: int)
    | UnsupportedDuration(duration: string)
    | RateUnitMissing
    | BlockValueEmpty

  datatype Result<T> = Ok(value: T) | Err(error: ParseError)

  /** Go's conversion `uint32(v)`: the low 32 bits of `v`. */
  function Uint32(v: int): (r: nat)
    ensures r < Uint32Modulus
    ensures 0 <= v < Uint32Modulus ==> r == v
  {
    v % Uint32Modulus
  }

  /** `getDuration`: `max` days, hours, minutes, or seconds for any other unit. */
  function GetDuration(max: int, unit: string): (r: int)
    ensures r in {max * Second, max * Minute, max * Hour, max * Day}
    ensures unit != "d" && unit != "h" && unit != "m" ==> r == max * Second
  {
    if unit == "d" then max * Day
    else if unit == "h" then max * Hour
    else if unit == "m" then max * Minute
    else max * Second
  }

  /** A duration is the count times the length of one unit, and a unit other
      than d, h or m counts in seconds. */
  lemma DurationScales(max: int, unit: string)
    ensures GetDuration(max, unit) == max * GetDuration(1, unit)
    ensures GetDuration(1, unit) in {Second, Minute, Hour, Day}
    ensures unit != "d" && unit != "h" && unit != "m" ==> GetDuration(max, unit) == max
  {
  }

  /** The rate segment, the text before the first comma: "<n>r/<unit>". */
  function ParseRate(segment: string): (r: Result<Options>)
    ensures r.Ok? ==> Contains(segment, "r/")
    ensures r.Ok? ==> r.value.Per in {Second, Minute, Hour, Day} && r.value.Max < Uint32Modulus
    ensures r.Ok? ==> r.value.Block == 0 && r.value.MaxToSpam == 0
  {
    var p := Split(segment, "r/");
    var maxValue := Atoi(p[0]);
    if maxValue < 1 then Err(InvalidMax(maxValue))
    else if |p| < 2 then Err(RateUnitMissing)
    else
      SplitPieces(segment, "r/");
      var per := p[1];
      var lower := ToLower(per);
      if lower == "s" then Ok(Options(Uint32(maxValue), Second, 0, 0))
      else if lower == "m" then Ok(Options(Uint32(maxValue), Minute, 0, 0))
      else if lower == "h" then Ok(Options(Uint32(maxValue), Hour, 0, 0))
      else if lower == "d" then Ok(Options(Uint32(maxValue), Day, 0, 0))
      else Err(InvalidLimit(per))
  }

  /** One modifier, "spam:<n>" or "block:<n><unit>", applied to `op`. A spam
      modifier also sets `Block` back to 0. */
  function ApplyModifier(op: Options, modifier: string): (r: Result<Options>)
    ensures r.Ok? ==> r.value.Max == op.Max && r.value.Per == op.Per
    ensures r.Ok? && op.MaxToSpam < Uint32Modulus ==> r.value.MaxToSpam < Uint32Modulus
  {
    var s := Split(modifier, ":");
    if |s| != 2 then Err(CantParse(modifier))
    else if s[0] != "spam" && s[0] != "block" then Err(UnsupportedModule(s[0]))
    else if s[0] == "spam" then
      var value := Atoi(s[1]);
      if value < 1 then Err(InvalidSpam(value))
      else Ok(op.(MaxToSpam := Uint32(value), Block := 0))
    else
      var v := s[1];
      if |v| == 0 then Err(BlockValueEmpty)
      else
        var max := Atoi(v[..|v| - 1]);
        var duration := v[|v| - 1..];
        if duration != "d" && duration != "h" && duration != "m" && duration != "s" then
          Err(UnsupportedDuration(duration))
        else Ok(op.(Block := GetDuration(max, duration)))
  }

  /** The modifiers applied left to right; the first failure is the result. */
  function ApplyModifiers(op: Options, modifiers: seq<string>): (r: Result<Options>)
    ensures r.Ok? ==> r.value.Max == op.Max && r.value.Per == op.Per
    ensures r.Ok? && op.MaxToSpam < Uint32Modulus ==> r.value.MaxToSpam < Uint32Modulus
    decreases |modifiers|
  {
    if modifiers == [] then Ok(op)
    else match ApplyModifier(op, modifiers[0])
      case Err(e) => Err(e)
      case Ok(next) => ApplyModifiers(next, modifiers[1..])
  }

  /** What `parse` yields for a policy text. */
  function Parsed(s: string): (r: Result<Options>)
    ensures r.Ok? ==> r.value.Per in {Second, Minute, Hour, Day}
    ensures r.Ok? ==> r.value.Max < Uint32Modulus && r.value.MaxToSpam < Uint32Modulus
  {
    var parsed := Split(s, ",");
    match ParseRate(parsed[0])
    case Err(e) => Err(e)
    case Ok(op) => ApplyModifiers(op, parsed[1..])
  }

  /** `parse`: the rate segment, then a loop over the modifiers that updates
      `op` in place and returns on the first error. */
  method Parse(s: string) returns (r: Result<Options>)
    ensures r == Parsed(s)
  {
    var parsed := Split(s, ",");
    var p := Split(parsed[0], "r/");
    var maxValue := Atoi(p[0]);
    if maxValue < 1 {
      return Err(InvalidMax(maxValue));
    }
    if |p| < 2 {
      return Err(RateUnitMissing);
    }
    var per := p[1];
    var perDuration: nat;
    var lower := ToLower(per);
    if lower == "s" {
      perDuration := Second;
    } else if lower == "m" {
      perDuration := Minute;
    } else if lower == "h" {
      perDuration := Hour;
    } else if lower == "d" {
      perDuration := Day;
    } else {
      return Err(InvalidLimit(per));
    }
    var op := Options(Uint32(maxValue), perDuration, 0, 0);

    var i := 1;
    while i < |parsed|
      invariant 1 <= i <= |parsed|
      invariant Parsed(s) == ApplyModifiers(op, parsed[i..])
    {
      var modifier := parsed[i];
      assert parsed[i..][0] == modifier && parsed[i..][1..] == parsed[i + 1..];
      var parts := Split(modifier, ":");
      if |parts| != 2 {
        return Err(CantParse(modifier));
      }
      if parts[0] != "spam" && parts[0] != "block" {
        return Err(UnsupportedModule(parts[0]));
      }
      if parts[0] == "spam" {
        var value := Atoi(parts[1]);
        if value < 1 {
          return Err(InvalidSpam(value));
        }
        op := op.(MaxToSpam := Uint32(value));
      }
      if parts[0] == "block" {
        var v := parts[1];
        if |v| == 0 {
          return Err(BlockValueEmpty);
        }
        var max := Atoi(v[..|v| - 1]);
        var duration := v[|v| - 1..];
        if duration != "d" && duration != "h" && duration != "m" && duration != "s" {
          return Err(UnsupportedDuration(duration));
        }
        op := op.(Block := GetDuration(max, duration));
      } else {
        op := op.(Block := 0);
      }
      i := i + 1;
    }
    return Ok(op);
  }

  // ---------------------------------------------------------------------
  // The rate segment
  // ---------------------------------------------------------------------

  /** "<n>r/<u>" with n >= 1 and u one of s, m, h, d in either case is
      accepted, with `Max` the low 32 bits of n and `Per` the unit's length. */
  lemma RateAccepted(n: nat, u: char)
    requires n >= 1 && u in "smhdSMHD"
    ensures ParseRate(Decimal(n) + "r/" + [u]) ==
      Ok(Options(Uint32(n),
                 if u in "sS" then Second else if u in "mM" then Minute
                 else if u in "hH" then Hour else Day,
                 0, 0))
  {
    SplitPrefix(Decimal(n), "r/", [u]);
    AtoiDecimal(n);
    LowerLetter(u, 's');
    LowerLetter(u, 'm');
    LowerLetter(u, 'h');
    LowerLetter(u, 'd');
  }

  /** A count before "r/" that reads as less than 1 (non-numeric text reads as
      0) is reported with the value read. */
  lemma RateInvalidMax(text: string, unit: string)
    requires !Contains(text, "r/") && Atoi(text) < 1
    ensures ParseRate(text + "r/" + unit) == Err(InvalidMax(Atoi(text)))
  {
    SplitPairPrefix(text, "r/", unit);
  }

  /** A unit that does not lower to s, m, h or d is reported as written. */
  lemma RateInvalidUnit(n: nat, unit: string)
    requires n >= 1 && !Contains(unit, "r/")
    requires ToLower(unit) != "s" && ToLower(unit) != "m"
    requires ToLower(unit) != "h" && ToLower(unit) != "d"
    ensures ParseRate(Decimal(n) + "r/" + unit) == Err(InvalidLimit(unit))
  {
    SplitPrefix(Decimal(n), "r/", unit);
    SplitAbsent(unit, "r/");
    AtoiDecimal(n);
  }

  /** A valid count with no "r/" after it leaves no unit to read. */
  lemma RateWithoutSeparator(text: string)
    requires !Contains(text, "r/") && Atoi(text) >= 1
    ensures ParseRate(text) == Err(RateUnitMissing)
  {
    SplitAbsent(text, "r/");
  }

  /** The count passes the "at least 1" check before it is cut to 32 bits,
      so a count that is a multiple of 2^32 is accepted with an allowance of
      0 requests. */
  lemma RateCountWraps(n: nat)
    requires n >= 1 && n % Uint32Modulus == 0
    ensures ParseRate(Decimal(n) + "r/s") == Ok(Options(0, Second, 0, 0))
  {
    RatePerSecond(n);
  }

  /** The block units and the rate units agree on the length of s, m, h, d. */
  lemma BlockUnitsMatchRateUnits(u: char)
    requires u in "smhd"
    ensures ParseRate("1r/" + [u]).Ok?
    ensures ParseRate("1r/" + [u]).value.Per == GetDuration(1, [u])
  {
    RateAccepted(1, u);
    assert Decimal(1) + "r/" + [u] == "1r/" + [u];
  }

  // ---------------------------------------------------------------------
  // Modifiers
  // ---------------------------------------------------------------------

  /** A modifier is rejected as unparsable exactly when it does not hold
      exactly one ':'. */
  lemma ModifierMalformed(op: Options, modifier: string)
    ensures ApplyModifier(op, modifier) == Err(CantParse(modifier))
        <==> multiset(modifier)[':'] != 1
  {
    SplitCount(modifier, ':');
  }

  lemma SplitModifier(name: string, v: string)
    requires ':' !in name && ':' !in v
    ensures Split(name + ":" + v, ":") == [name, v]
  {
    SplitPrefix(name, ":", v);
    SplitWhole(v, ":");
  }

  /** A name other than spam or block is reported by name. */
  lemma ModifierUnsupported(op: Options, name: string, v: string)
    requires ':' !in name && ':' !in v && name != "spam" && name != "block"
    ensures ApplyModifier(op, name + ":" + v) == Err(UnsupportedModule(name))
  {
    SplitModifier(name, v);
  }

  /** "spam:<v>": a value below 1 is an error; otherwise it becomes
      `MaxToSpam` and `Block` goes back to 0. */
  lemma ModifierSpam(op: Options, v: string)
    requires ':' !in v
    ensures ApplyModifier(op, "spam:" + v) ==
      if Atoi(v) < 1 then Err(InvalidSpam(Atoi(v)))
      else Ok(Options(op.Max, op.Per, 0, Uint32(Atoi(v))))
  {
    assert "spam:" + v == "spam" + ":" + v;
    SplitModifier("spam", v);
  }

  /** "block:<n><c>": c must be d, h, m or s (lower case only), and `Block`
      becomes n such units; nothing else changes. */
  lemma ModifierBlock(op: Options, v: string)
    requires ':' !in v
    ensures ApplyModifier(op, "block:" + v) ==
      if v == [] then Err(BlockValueEmpty)
      else if v[|v| - 1] !in "dhms" then Err(UnsupportedDuration([v[|v| - 1]]))
      else
        var unit := match v[|v| - 1]
          case 'd' => 86400 case 'h' => 3600 case 'm' => 60 case _ => 1;
        Ok(Options(op.Max, op.Per, Atoi(v[..|v| - 1]) * unit, op.MaxToSpam))
  {
    assert "block:" + v == "block" + ":" + v;
    SplitModifier("block", v);
    if v != [] {
      assert v[|v| - 1..] == [v[|v| - 1]];
    }
  }

  /** Whether a modifier succeeds, and the `Block` it leaves, do not depend on
      the options it is applied to. */
  lemma ModifierBlockIgnoresState(o1: Options, o2: Options, modifier: string)
    ensures ApplyModifier(o1, modifier).Ok? == ApplyModifier(o2, modifier).Ok?
    ensures ApplyModifier(o1, modifier).Ok? ==>
      ApplyModifier(o1, modifier).value.Block == ApplyModifier(o2, modifier).value.Block
  {
  }

  /** Modifiers run left to right: the first part's result feeds the second,
      and an error in the first part is the error of the whole. */
  lemma {:induction false} ModifiersCompose(op: Options, a: seq<string>, b: seq<string>)
    ensures ApplyModifiers(op, a + b) ==
      if ApplyModifiers(op, a).Err? then ApplyModifiers(op, a)
      else ApplyModifiers(ApplyModifiers(op, a).value, b)
    decreases |a|
  {
    if a != [] {
      assert (a + b)[0] == a[0] && (a + b)[1..] == a[1..] + b;
      var r := ApplyModifier(op, a[0]);
      if r.Ok? {
        ModifiersCompose(r.value, a[1..], b);
      }
    } else {
      assert a + b == b;
    }
  }

  /** After all modifiers succeed, `Block` is what the last modifier alone
      gives: a block modifier's duration, or 0 after a spam modifier. */
  lemma {:induction false} LastModifierDecidesBlock(op: Options, modifiers: seq<string>, o: Options)
    requires modifiers != [] && ApplyModifiers(op, modifiers).Ok?
    ensures ApplyModifier(o, modifiers[|modifiers| - 1]).Ok?
    ensures ApplyModifiers(op, modifiers).value.Block ==
            ApplyModifier(o, modifiers[|modifiers| - 1]).value.Block
    decreases |modifiers|
  {
    var r := ApplyModifier(op, modifiers[0]);
    ModifierBlockIgnoresState(op, o, modifiers[0]);
    if |modifiers| > 1 {
      LastModifierDecidesBlock(r.value, modifiers[1..], o);
    }
  }

  // ---------------------------------------------------------------------
  // Whole policies
  // ---------------------------------------------------------------------

  /** A policy is its rate segment and its modifiers joined by commas. */
  lemma ParsedParts(rate: string, modifiers: seq<string>)
    requires ',' !in rate
    requires forall i :: 0 <= i < |modifiers| ==> ',' !in modifiers[i]
    ensures Parsed(Join([rate] + modifiers, ",")) ==
      if ParseRate(rate).Err? then ParseRate(rate)
      else ApplyModifiers(ParseRate(rate).value, modifiers)
  {
    var parts := [rate] + modifiers;
    forall i | 0 <= i < |parts| ensures ','  !in parts[i] {
      if i > 0 {
        assert parts[i] == modifiers[i - 1];
      }
    }
    SplitJoin(parts, ",");
    assert parts[1..] == modifiers;
  }

  /** A bare rate leaves spam and block disabled. */
  lemma ParsedRateOnly(n: nat, u: char)
    requires n >= 1 && u in "smhdSMHD"
    ensures Parsed(Decimal(n) + "r/" + [u]).Ok?
    ensures Parsed(Decimal(n) + "r/" + [u]).value.Max == Uint32(n)
    ensures Parsed(Decimal(n) + "r/" + [u]).value.Per ==
      if u in "sS" then Second else if u in "mM" then Minute
      else if u in "hH" then Hour else Day
    ensures Parsed(Decimal(n) + "r/" + [u]).value.Block == 0
    ensures Parsed(Decimal(n) + "r/" + [u]).value.MaxToSpam == 0
  {
    var text := Decimal(n) + "r/" + [u];
    assert ',' !in text;
    SplitWhole(text, ",");
    RateAccepted(n, u);
  }

  /** An error after some successful modifiers is the result, whatever
      follows it. */
  lemma FirstErrorWins(op: Options, done: seq<string>, bad: string, rest: seq<string>)
    requires ApplyModifiers(op, done).Ok?
    requires ApplyModifier(ApplyModifiers(op, done).value, bad).Err?
    ensures ApplyModifiers(op, done + [bad] + rest) ==
            ApplyModifier(ApplyModifiers(op, done).value, bad)
  {
    assert done + [bad] + rest == done + ([bad] + rest);
    ModifiersCompose(op, done, [bad] + rest);
    assert ([bad] + rest)[0] == bad;
  }

  // ---------------------------------------------------------------------
  // Policies as the tests write them
  // ---------------------------------------------------------------------

  /** "spam:<n>" with n >= 1. */
  lemma SpamValue(op: Options, n: nat)
    requires n >= 1
    ensures ApplyModifier(op, "spam:" + Decimal(n)) == Ok(Options(op.Max, op.Per, 0, Uint32(n)))
  {
    ModifierSpam(op, Decimal(n));
    AtoiDecimal(n);
  }

  /** "block:<n><c>" with c one of d, h, m, s. */
  lemma BlockValue(op: Options, n: nat, c: char)
    requires c in "dhms"
    ensures ApplyModifier(op, "block:" + Decimal(n) + [c]) ==
      Ok(Options(op.Max, op.Per, n * GetDuration(1, [c]), op.MaxToSpam))
  {
    var v := Decimal(n) + [c];
    assert "block:" + Decimal(n) + [c] == "block:" + v;
    ModifierBlock(op, v);
    assert v[..|v| - 1] == Decimal(n);
    AtoiDecimal(n);
  }

  /** A policy of one accepted rate segment and two accepted modifiers. */
  lemma ParsedTwoModifiers(rate: string, m0: string, m1: string, op: Options, op1: Options, op2: Options)
    requires ',' !in rate && ',' !in m0 && ',' !in m1
    requires ParseRate(rate) == Ok(op)
    requires ApplyModifier(op, m0) == Ok(op1) && ApplyModifier(op1, m1) == Ok(op2)
    ensures Parsed(Join([rate, m0, m1], ",")) == Ok(op2)
  {
    var mods := [m0, m1];
    assert [rate] + mods == [rate, m0, m1];
    ParsedParts(rate, mods);
    assert mods[1..] == [m1];
    assert ApplyModifiers(op1, [m1]) == Ok(op2);
  }

  lemma NoCommas(n: nat, k: nat, d: nat)
    ensures ',' !in Decimal(n) + "r/s"
    ensures ',' !in "spam:" + Decimal(k)
    ensures ',' !in "block:" + Decimal(d) + "d"
  {
    NotInDecimal(',', n);
    NotInDecimal(',', k);
    NotInDecimal(',', d);
    assert ',' !in "r/s" && ',' !in "spam:" && ',' !in "block:" && ',' !in "d";
  }

  /** "<n>r/s" is accepted with one request per second. */
  lemma RatePerSecond(n: nat)
    requires n >= 1
    ensures ParseRate(Decimal(n) + "r/s") == Ok(Options(Uint32(n), Second, 0, 0))
  {
    RateAccepted(n, 's');
    assert Decimal(n) + "r/s" == Decimal(n) + "r/" + ['s'];
  }

  /** "<n>r/s,spam:<k>,block:<d>d" sets all four fields. */
  lemma PolicySpamThenBlock(n: nat, k: nat, d: nat)
    requires n >= 1 && k >= 1
    ensures Parsed(Join([Decimal(n) + "r/s", "spam:" + Decimal(k), "block:" + Decimal(d) + "d"], ","))
         == Ok(Options(Uint32(n), Second, d * Day, Uint32(k)))
  {
    var op := Options(Uint32(n), Second, 0, 0);
    var op1 := Options(Uint32(n), Second, 0, Uint32(k));
    RatePerSecond(n);
    SpamValue(op, k);
    BlockValue(op1, d, 'd');
    assert GetDuration(1, ['d']) == Day;
    NoCommas(n, k, d);
    ParsedTwoModifiers(Decimal(n) + "r/s", "spam:" + Decimal(k), "block:" + Decimal(d) + "d",
      op, op1, Options(Uint32(n), Second, d * Day, Uint32(k)));
  }

  /** "<n>r/s,block:<d>d,spam:<k>": the spam modifier after the block modifier
      turns blocking off again. */
  lemma PolicyBlockThenSpam(n: nat, k: nat, d: nat)
    requires n >= 1 && k >= 1
    ensures Parsed(Join([Decimal(n) + "r/s", "block:" + Decimal(d) + "d", "spam:" + Decimal(k)], ","))
         == Ok(Options(Uint32(n), Second, 0, Uint32(k)))
  {
    var op := Options(Uint32(n), Second, 0, 0);
    var op1 := Options(Uint32(n), Second, d * Day, 0);
    RatePerSecond(n);
    BlockValue(op, d, 'd');
    assert GetDuration(1, ['d']) == Day;
    SpamValue(op1, k);
    NoCommas(n, k, d);
    ParsedTwoModifiers(Decimal(n) + "r/s", "block:" + Decimal(d) + "d", "spam:" + Decimal(k),
      op, op1, Options(Uint32(n), Second, 0, Uint32(k)));
  }

  /** "1t/s": the count does not read as a number, so it is 0. */
  lemma PolicyBadCount()
    ensures Parsed("1t/s") == Err(InvalidMax(0))
  {
    SplitWhole("1t/s", ",");
    SplitWhole("1t/s", "r/");
    AtoiNonNumeric("1t/s", 1);
  }

  /** "1r/q": q is not an interval unit. */
  lemma PolicyBadUnit()
    ensures Parsed("1r/q") == Err(InvalidLimit("q"))
  {
    SplitWhole("1r/q", ",");
    assert ToLower("q")[0] == 'q';
    CharAbsent("q", "r/", 0);
    RateInvalidUnit(1, "q");
    assert Decimal(1) + "r/" + "q" == "1r/q";
  }

  /** "1r/hour": a unit holding an 'r' is still read whole, and rejected. */
  lemma PolicyLongUnit()
    ensures Parsed("1r/hour") == Err(InvalidLimit("hour"))
  {
    assert Decimal(1) == "1";
    assert Decimal(1) + "r/" + "hour" == "1r/hour";
    assert |ToLower("hour")| == 4;
    CharAbsent("hour", "r/", 1);
    RateInvalidUnit(1, "hour");
    SplitWhole("1r/hour", ",");
  }

  /** "1rr/s": the count is the text before the first "r/", "1r", which
      reads as 0. */
  lemma PolicyCountWithR()
    ensures Parsed("1rr/s") == Err(InvalidMax(0))
  {
    SplitWhole("1rr/s", ",");
    CharAbsent("1r", "r/", 1);
    AtoiNonNumeric("1r", 1);
    RateInvalidMax("1r", "s");
    assert "1r" + "r/" + "s" == "1rr/s";
  }
}
