/**
 * The parts of Go's `strings` and `strconv` packages that the policy parser
 * relies on: `strings.Split` with a non-empty separator, `strings.ToLower`
 * (restricted to ASCII letters) and `strconv.Atoi` with its error ignored.
 * Strings are sequences of characters.
 */
module GoStrings {

  /** `strings.Split(s, sep)`: the pieces of `s` between the leftmost,
      non-overlapping occurrences of `sep`, found scanning left to right. */
  function Split(s: string, sep: string): (parts: seq<string>)
    requires |sep| > 0
    ensures |parts| >= 1
    decreases |s|
  {
    if |s| < |sep| then [s]
    else if s[..|sep|] == sep then [""] + Split(s[|sep|..], sep)
    else
      var rest := Split(s[1..], sep);
      [[s[0]] + rest[0]] + rest[1..]
  }

  /** `strings.Join(parts, sep)`, the inverse of `Split`. */
  function Join(parts: seq<string>, sep: string): string
    requires |parts| >= 1
    decreases |parts|
  {
    if |parts| == 1 then parts[0] else parts[0] + sep + Join(parts[1..], sep)
  }

  /** Joining the pieces back with the separator gives the original text. */
  lemma {:induction false} JoinSplit(s: string, sep: string)
    requires |sep| > 0
    ensures Join(Split(s, sep), sep) == s
    decreases |s|
  {
    if |s| < |sep| {
    } else if s[..|sep|] == sep {
      var rest := Split(s[|sep|..], sep);
      JoinSplit(s[|sep|..], sep);
      JoinEmptyFirst(rest, sep);
      assert s == s[..|sep|] + s[|sep|..];
    } else {
      var rest := Split(s[1..], sep);
      JoinSplit(s[1..], sep);
      JoinExtendFirst(s[0], rest, sep);
      assert s == [s[0]] + s[1..];
    }
  }

  /** An empty first piece joins to the separator in front of the rest. */
  lemma JoinEmptyFirst(rest: seq<string>, sep: string)
    requires |rest| >= 1
    ensures Join([""] + rest, sep) == sep + Join(rest, sep)
  {
    var parts := [""] + rest;
    assert parts[1..] == rest;
    assert "" + sep == sep;
  }

  /** A character put in front of the first piece comes first in the join. */
  lemma JoinExtendFirst(c: char, rest: seq<string>, sep: string)
    requires |rest| >= 1
    ensures Join([[c] + rest[0]] + rest[1..], sep) == [c] + Join(rest, sep)
  {
    var parts := [[c] + rest[0]] + rest[1..];
    if |rest| > 1 {
      assert parts[1..] == rest[1..];
      assert [c] + rest[0] + sep + Join(rest[1..], sep) == [c] + (rest[0] + sep + Join(rest[1..], sep));
    }
  }

  /** A piece that does not contain the separator's first character is cut off
      exactly at the separator that follows it. */
  lemma {:induction false} SplitPrefix(p: string, sep: string, rest: string)
    requires |sep| > 0 && sep[0] !in p
    ensures Split(p + sep + rest, sep) == [p] + Split(rest, sep)
    decreases |p|
  {
    var s := p + sep + rest;
    if p == [] {
      assert s[..|sep|] == sep;
      assert s[|sep|..] == rest;
    } else {
      assert s[..|sep|] != sep by {
        assert s[..|sep|][0] == p[0];
      }
      SplitPrefix(p[1..], sep, rest);
      assert s[1..] == p[1..] + sep + rest;
      var tail := Split(s[1..], sep);
      assert tail == [p[1..]] + Split(rest, sep);
      assert Split(s, sep) == [[s[0]] + tail[0]] + tail[1..];
      assert [s[0]] + p[1..] == p;
    }
  }

  /** Text that does not contain the separator's first character is one piece. */
  lemma {:induction false} SplitWhole(p: string, sep: string)
    requires |sep| > 0 && sep[0] !in p
    ensures Split(p, sep) == [p]
    decreases |p|
  {
    if |p| >= |sep| {
      assert p[..|sep|] != sep by {
        assert p[..|sep|][0] == p[0];
      }
      SplitWhole(p[1..], sep);
      assert p == [p[0]] + p[1..];
    }
  }

  /** `sub` occurs in `s` starting at index `i`. */
  predicate OccursAt(s: string, sub: string, i: int)
  {
    0 <= i && i + |sub| <= |s| && s[i..i + |sub|] == sub
  }

  /** `strings.Contains(s, sub)`: `sub` occurs somewhere in `s`. */
  predicate Contains(s: string, sub: string)
  {
    exists i :: 0 <= i <= |s| && OccursAt(s, sub, i)
  }

  /** A text that lacks one of the separator's characters does not hold the
      separator. */
  lemma CharAbsent(s: string, sep: string, j: nat)
    requires j < |sep| && sep[j] !in s
    ensures !Contains(s, sep)
  {
  }

  /** Dropping the first character keeps the separator absent. */
  lemma AbsentInTail(s: string, sep: string)
    requires |s| > 0 && !Contains(s, sep)
    ensures !Contains(s[1..], sep)
  {
    if Contains(s[1..], sep) {
      var i :| 0 <= i <= |s[1..]| && OccursAt(s[1..], sep, i);
      assert s[i + 1..i + 1 + |sep|] == s[1..][i..i + |sep|];
      assert OccursAt(s, sep, i + 1);
    }
  }

  /** Text in which the separator does not occur is a single piece. */
  lemma {:induction false} SplitAbsent(p: string, sep: string)
    requires |sep| > 0 && !Contains(p, sep)
    ensures Split(p, sep) == [p]
    decreases |p|
  {
    if |p| >= |sep| {
      assert p[..|sep|] != sep by {
        assert !OccursAt(p, sep, 0);
        assert p[0..0 + |sep|] == p[..|sep|];
      }
      AbsentInTail(p, sep);
      SplitAbsent(p[1..], sep);
      assert p == [p[0]] + p[1..];
    }
  }

  /** More than one piece means the separator occurs in the text. */
  lemma {:induction false} SplitPieces(s: string, sep: string)
    requires |sep| > 0 && |Split(s, sep)| > 1
    ensures Contains(s, sep)
    decreases |s|
  {
    if s[..|sep|] == sep {
      assert OccursAt(s, sep, 0);
    } else {
      SplitPieces(s[1..], sep);
      if !Contains(s, sep) {
        AbsentInTail(s, sep);
      }
    }
  }

  /** With a two-character separator whose characters differ, a piece in
      which the separator does not occur is cut off exactly at the separator
      that follows it. */
  lemma {:induction false} SplitPairPrefix(p: string, sep: string, rest: string)
    requires |sep| == 2 && sep[0] != sep[1] && !Contains(p, sep)
    ensures Split(p + sep + rest, sep) == [p] + Split(rest, sep)
    decreases |p|
  {
    var s := p + sep + rest;
    if p == [] {
      assert s[..|sep|] == sep;
      assert s[|sep|..] == rest;
    } else {
      assert s[..|sep|] != sep by {
        if |p| >= 2 {
          assert !OccursAt(p, sep, 0);
          assert s[..|sep|] == p[0..0 + |sep|];
        } else {
          assert s[..|sep|][1] == sep[0];
        }
      }
      AbsentInTail(p, sep);
      SplitPairPrefix(p[1..], sep, rest);
      assert s[1..] == p[1..] + sep + rest;
      var tail := Split(s[1..], sep);
      assert tail == [p[1..]] + Split(rest, sep);
      assert Split(s, sep) == [[s[0]] + tail[0]] + tail[1..];
      assert [s[0]] + p[1..] == p;
    }
  }

  /** Splitting a join gives the parts back, when no part holds the
      separator's first character. */
  lemma {:induction false} SplitJoin(parts: seq<string>, sep: string)
    requires |parts| >= 1 && |sep| > 0
    requires forall i :: 0 <= i < |parts| ==> sep[0] !in parts[i]
    ensures Split(Join(parts, sep), sep) == parts
    decreases |parts|
  {
    if |parts| == 1 {
      SplitWhole(parts[0], sep);
    } else {
      SplitJoin(parts[1..], sep);
      SplitPrefix(parts[0], sep, Join(parts[1..], sep));
    }
  }

  /** Splitting on one character gives one piece more than there are
      occurrences of that character. */
  lemma {:induction false} SplitCount(s: string, c: char)
    ensures |Split(s, [c])| == multiset(s)[c] + 1
    decreases |s|
  {
    if |s| >= 1 {
      SplitCount(s[1..], c);
      assert s == [s[0]] + s[1..];
      assert multiset(s) == multiset([s[0]]) + multiset(s[1..]);
      if s[..1] == [c] {
        assert s[0] == c;
      } else {
        assert s[0] != c;
      }
    }
  }

  /** `unicode.ToLower` on ASCII letters; every other character is kept. */
  function LowerChar(c: char): char
  {
    if 'A' <= c <= 'Z' then (c as int - 'A' as int + 'a' as int) as char else c
  }

  /** `strings.ToLower`, character by character. */
  function ToLower(s: string): (t: string)
    ensures |t| == |s|
  {
    seq(|s|, i requires 0 <= i < |s| => LowerChar(s[i]))
  }

  /** A one-letter string lowers to a given lower-case letter exactly when it
      is that letter in either case. */
  lemma LowerLetter(c: char, l: char)
    requires 'a' <= l <= 'z'
    ensures ToLower([c]) == [l] <==> c == l || c as int == l as int - 'a' as int + 'A' as int
  {
    assert ToLower([c])[0] == LowerChar(c);
  }

  predicate IsDigit(c: char)
  {
    '0' <= c <= '9'
  }

  predicate AllDigits(s: string)
  {
    forall i :: 0 <= i < |s| ==> IsDigit(s[i])
  }

  /** One or more decimal digits. */
  predicate IsDecimal(s: string)
  {
    |s| > 0 && AllDigits(s)
  }

  /** The value of a string of decimal digits, read left to right. */
  function DigitsValue(s: string): nat
    requires AllDigits(s)
    decreases |s|
  {
    if s == [] then 0
    else DigitsValue(s[..|s| - 1]) * 10 + (s[|s| - 1] as int - '0' as int)
  }

  /** `strconv.Atoi(s)` with its error discarded: an optionally signed decimal
      number gives its value, anything else gives 0. */
  function Atoi(s: string): (r: int)
    ensures r < 0 ==> |s| > 0 && s[0] == '-'
  {
    if |s| > 0 && (s[0] == '+' || s[0] == '-') then
      if IsDecimal(s[1..]) then
        var v: int := DigitsValue(s[1..]);
        if s[0] == '-' then -v else v
      else 0
    else if IsDecimal(s) then DigitsValue(s)
    else 0
  }

  /** The decimal digit for 0..9. */
  function Digit(d: nat): char
    requires d < 10
  {
    ('0' as int + d) as char
  }

  /** The shortest decimal text of a natural number. */
  function Decimal(n: nat): (s: string)
    ensures IsDecimal(s)
    decreases n
  {
    if n < 10 then [Digit(n)] else Decimal(n / 10) + [Digit(n % 10)]
  }

  /** Decimal text holds nothing but digits. */
  lemma NotInDecimal(c: char, n: nat)
    requires !IsDigit(c)
    ensures c !in Decimal(n)
  {
  }

  /** Decimal text, with a leading '-' for negative numbers. */
  function SignedDecimal(n: int): string
  {
    if n < 0 then "-" + Decimal(-n) else Decimal(n)
  }

  lemma {:induction false} DecimalValue(n: nat)
    ensures DigitsValue(Decimal(n)) == n
    decreases n
  {
    if n >= 10 {
      DecimalValue(n / 10);
      var s := Decimal(n);
      assert s[..|s| - 1] == Decimal(n / 10);
    }
  }

  /** Atoi reads back every number written in decimal. */
  lemma AtoiDecimal(n: int)
    ensures Atoi(SignedDecimal(n)) == n
  {
    if n < 0 {
      DecimalValue(-n);
      assert SignedDecimal(n)[1..] == Decimal(-n);
    } else {
      DecimalValue(n);
    }
  }

  /** Text that holds a character which is neither a digit nor a leading sign
      reads as 0. */
  lemma AtoiNonNumeric(s: string, i: nat)
    requires i < |s| && !IsDigit(s[i])
    requires i == 0 ==> s[0] != '+' && s[0] != '-'
    ensures Atoi(s) == 0
  {
    if i > 0 {
      assert s[1..][i - 1] == s[i];
    }
  }
}
