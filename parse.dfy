/** Duration parsing: the two `parseTimeString` variants. The character
    scanner of src/util.ts keeps a pending run of digits and settles it at the
    next non-digit; the variant of src/index.ts sums the matches of
    `/(\d+)([smhd])/g`. Both are given here, each as the loop the source runs
    and a function that specifies it, and are proved to agree on every string. */
module TimeParse {
  import opened Decimal
  import opened Time

  predicate IsUnit(c: char) {
    c == 's' || c == 'm' || c == 'h' || c == 'd'
  }

  /** Milliseconds per unit letter; any other character counts for nothing
      (the `switch` has no default branch). */
  function UnitMs(c: char): (ms: nat)
    ensures IsUnit(c) <==> ms > 0
    ensures c == 's' ==> ms == 1000
    ensures c == 'm' ==> ms == 60 * 1000
    ensures c == 'h' ==> ms == 60 * 60 * 1000
    ensures c == 'd' ==> ms == 24 * 60 * 60 * 1000
  {
    match c
    case 's' => 1000
    case 'm' => 1000 * 60
    case 'h' => 1000 * 60 * 60
    case 'd' => 1000 * 60 * 60 * 24
    case _ => 0
  }

  // ---------------------------------------------------------------------------
  // The scanner (src/util.ts).

  /** What the scanner adds for the characters `s` when the digits `pending`
      have been read and not yet settled. */
  function Scan(s: string, pending: string): nat
    requires AllDigits(pending)
  {
    if s == [] then 0
    else if IsDigit(s[0]) then Scan(s[1..], pending + [s[0]])
    else if pending != [] then DigitsValue(pending) * UnitMs(s[0]) + Scan(s[1..], [])
    else Scan(s[1..], [])
  }

  /** The milliseconds the scanner variant returns. */
  function ScanParse(s: string): nat {
    Scan(s, [])
  }

  /** `parseTimeString` of src/util.ts: one pass over the characters, with
      `currentNumber` the pending digits and `time` the running total. */
  method ParseTimeString(timeString: string) returns (time: nat)
    ensures time == ScanParse(timeString)
    ensures time == MatchParse(timeString)
  {
    time := 0;
    var currentNumber: string := "";
    var i := 0;
    while i < |timeString|
      invariant 0 <= i <= |timeString|
      invariant AllDigits(currentNumber)
      invariant time + Scan(timeString[i..], currentNumber) == ScanParse(timeString)
    {
      var currentChar := timeString[i];
      assert timeString[i..][1..] == timeString[i + 1..];
      if IsDigit(currentChar) {
        currentNumber := currentNumber + [currentChar];
      } else if currentNumber != "" {
        var amount := DigitsValue(currentNumber);
        match currentChar {
          case 's' => time := time + amount * 1000;
          case 'm' => time := time + amount * 1000 * 60;
          case 'h' => time := time + amount * 1000 * 60 * 60;
          case 'd' => time := time + amount * 1000 * 60 * 60 * 24;
          case _ =>
        }
        currentNumber := "";
      }
      i := i + 1;
    }
    VariantsAgree(timeString);
  }

  // ---------------------------------------------------------------------------
  // The regular-expression variant (src/index.ts).

  /** One match of `(\d+)([smhd])`: the number `parseInt` reads from the
      digits, and the unit letter. */
  datatype Match = Match(amount: nat, unit: char)

  /** The length of the run of digits `s` starts with. */
  function DigitRun(s: string): (k: nat)
    ensures k <= |s|
    ensures AllDigits(s[..k])
    ensures k < |s| ==> !IsDigit(s[k])
  {
    if s == [] || !IsDigit(s[0]) then 0
    else
      var k := 1 + DigitRun(s[1..]);
      assert s[..k] == [s[0]] + s[1..][..k - 1];
      k
  }

  /** `s.matchAll(/(\d+)([smhd])/g)`. At each position the greedy `\d+` takes
      the whole run of digits there; since backing off leaves a digit where a
      unit letter is needed, a match starts here exactly when that run is
      non-empty and followed by a unit letter, and the search then resumes after
      the letter. Otherwise the search moves on by one character. */
  function Matches(s: string): (ms: seq<Match>)
    ensures forall i :: 0 <= i < |ms| ==> IsUnit(ms[i].unit)
    decreases |s|
  {
    if s == [] then []
    else
      var k := DigitRun(s);
      if 0 < k < |s| && IsUnit(s[k]) then [Match(DigitsValue(s[..k]), s[k])] + Matches(s[k + 1..])
      else Matches(s[1..])
  }

  /** The sum of `amount * unit` over a list of matches, first to last. */
  function Sum(ms: seq<Match>): nat {
    if ms == [] then 0 else Sum(ms[..|ms| - 1]) + ms[|ms| - 1].amount * UnitMs(ms[|ms| - 1].unit)
  }

  /** The milliseconds the regular-expression variant returns. */
  function MatchParse(s: string): nat {
    Sum(Matches(s))
  }

  /** `parseTimeString` of src/index.ts: a loop over the matches. */
  method ParseTimeStringByMatches(timeString: string) returns (time: nat)
    ensures time == MatchParse(timeString)
    ensures time == ScanParse(timeString)
  {
    var timeMatches := Matches(timeString);
    time := 0;
    for k := 0 to |timeMatches|
      invariant time == Sum(timeMatches[..k])
    {
      var amount := timeMatches[k].amount;
      assert timeMatches[..k + 1][..k] == timeMatches[..k];
      match timeMatches[k].unit {
        case 's' => time := time + amount * 1000;
        case 'm' => time := time + amount * 1000 * 60;
        case 'h' => time := time + amount * 1000 * 60 * 60;
        case 'd' => time := time + amount * 1000 * 60 * 60 * 24;
        case _ =>
      }
    }
    assert timeMatches[..|timeMatches|] == timeMatches;
    VariantsAgree(timeString);
  }

  // ---------------------------------------------------------------------------
  // The two variants agree.

  lemma {:induction false} SumCons(m: Match, ms: seq<Match>)
    ensures Sum([m] + ms) == m.amount * UnitMs(m.unit) + Sum(ms)
    decreases |ms|
  {
    if ms != [] {
      var all := [m] + ms;
      assert all[..|all| - 1] == [m] + ms[..|ms| - 1];
      SumCons(m, ms[..|ms| - 1]);
    } else {
      assert [m] + ms == [m];
      assert [m][..0] == [];
    }
  }

  lemma {:induction false} DigitRunPrefix(p: string, t: string)
    requires AllDigits(p)
    ensures DigitRun(p + t) == |p| + DigitRun(t)
    decreases |p|
  {
    if p != [] {
      assert (p + t)[1..] == p[1..] + t;
      DigitRunPrefix(p[1..], t);
    } else {
      assert p + t == t;
    }
  }

  /** Digits alone hold no match. */
  lemma {:induction false} DigitsHaveNoMatch(p: string)
    requires AllDigits(p)
    ensures Matches(p) == []
    decreases |p|
  {
    if p != [] {
      DigitsHaveNoMatch(p[1..]);
    }
  }

  /** A run of digits followed by a character that is neither a digit nor a
      unit letter starts no match, wherever within the run the search
      begins. */
  lemma {:induction false} NonUnitSkipped(q: string, c: char, rest: string)
    requires AllDigits(q) && !IsDigit(c) && !IsUnit(c)
    ensures Matches(q + [c] + rest) == Matches(rest)
    decreases |q|
  {
    var s := q + ([c] + rest);
    assert q + [c] + rest == s;
    DigitRunPrefix(q, [c] + rest);
    assert DigitRun([c] + rest) == 0;
    assert s[|q|] == c;
    assert Matches(s) == Matches(s[1..]);
    if q == [] {
      assert s[1..] == rest;
    } else {
      assert s[1..] == q[1..] + [c] + rest;
      NonUnitSkipped(q[1..], c, rest);
    }
  }

  /** The matches of pending digits, a non-digit and the rest: one match
      for the digits when the non-digit is a unit letter, then the matches of
      the rest. */
  lemma PendingSettled(p: string, s: string)
    requires AllDigits(p) && p != [] && s != [] && !IsDigit(s[0])
    ensures Sum(Matches(p + s)) == DigitsValue(p) * UnitMs(s[0]) + Sum(Matches(s[1..]))
  {
    var c, rest := s[0], s[1..];
    var all := p + s;
    if IsUnit(c) {
      DigitRunPrefix(p, s);
      assert DigitRun(s) == 0;
      assert all[..|p|] == p;
      assert all[|p|] == c;
      assert all[|p| + 1..] == rest;
      assert Matches(all) == [Match(DigitsValue(p), c)] + Matches(rest);
      SumCons(Match(DigitsValue(p), c), Matches(rest));
    } else {
      assert s == [c] + rest;
      assert all == p + [c] + rest;
      NonUnitSkipped(p, c, rest);
    }
  }

  /** A search that starts at a non-digit moves on by one character. */
  lemma NonDigitSkipped(s: string)
    requires s != [] && !IsDigit(s[0])
    ensures Matches(s) == Matches(s[1..])
  {
    assert DigitRun(s) == 0;
  }

  /** The scanner, with the digits `p` pending, adds what the matches of
      `p + s` add. */
  lemma {:induction false} ScanIsMatchSum(s: string, p: string)
    requires AllDigits(p)
    ensures Scan(s, p) == Sum(Matches(p + s))
    decreases |s|
  {
    if s == [] {
      assert p + s == p;
      DigitsHaveNoMatch(p);
    } else if IsDigit(s[0]) {
      var p' := p + [s[0]];
      ScanIsMatchSum(s[1..], p');
      ScanDigit(s, p);
    } else {
      ScanIsMatchSum(s[1..], []);
      assert [] + s[1..] == s[1..];
      ScanNonDigit(s, p);
    }
  }

  /** A digit joins the pending digits. */
  lemma ScanDigit(s: string, p: string)
    requires AllDigits(p) && s != [] && IsDigit(s[0])
    ensures Scan(s, p) == Scan(s[1..], p + [s[0]])
    ensures p + s == (p + [s[0]]) + s[1..]
  {
  }

  /** A non-digit settles the pending digits, if any. */
  lemma ScanNonDigit(s: string, p: string)
    requires AllDigits(p) && s != [] && !IsDigit(s[0])
    requires Scan(s[1..], []) == Sum(Matches(s[1..]))
    ensures Scan(s, p) == Sum(Matches(p + s))
  {
    if p == [] {
      assert p + s == s;
      NonDigitSkipped(s);
    } else {
      PendingSettled(p, s);
    }
  }

  /** The scanner of src/util.ts and the match loop of src/index.ts return the
      same total on every string: a run of digits counts exactly when a unit
      letter follows it, and for the number of that unit. */
  lemma VariantsAgree(s: string)
    ensures ScanParse(s) == MatchParse(s)
  {
    ScanIsMatchSum(s, []);
    assert [] + s == s;
  }

  // ---------------------------------------------------------------------------
  // Properties of the parse.

  /** A run of digits, a non-digit, and anything after: the run counts for its
      number of the non-digit's unit (nothing when it is no unit letter) and the
      rest is scanned afresh. */
  lemma {:induction false} ScanToken(q: string, c: char, rest: string, p: string)
    requires AllDigits(q) && AllDigits(p) && !IsDigit(c)
    ensures AllDigits(p + q)
    ensures Scan(q + [c] + rest, p) == DigitsValue(p + q) * UnitMs(c) + Scan(rest, [])
    decreases |q|
  {
    var s := q + [c] + rest;
    if q == [] {
      assert p + q == p;
      assert s[1..] == rest;
    } else {
      assert s[1..] == q[1..] + [c] + rest;
      ScanToken(q[1..], c, rest, p + [q[0]]);
      assert p + [q[0]] + q[1..] == p + q;
    }
  }

  /** A number and a unit letter parse to that many units' milliseconds. */
  lemma SingleToken(n: nat, c: char, rest: string)
    requires !IsDigit(c)
    ensures ScanParse(NatToString(n) + [c] + rest) == n * UnitMs(c) + ScanParse(rest)
  {
    ScanToken(NatToString(n), c, rest, []);
    assert [] + NatToString(n) == NatToString(n);
  }

  /** Parsing is additive across a split after a non-digit: no digits are then
      pending, so repeated units accumulate. */
  lemma {:induction false} ScanSplit(a: string, b: string, p: string)
    requires AllDigits(p) && a != [] && !IsDigit(a[|a| - 1])
    ensures Scan(a + b, p) == Scan(a, p) + Scan(b, [])
    decreases |a|
  {
    assert (a + b)[0] == a[0];
    assert (a + b)[1..] == a[1..] + b;
    if |a| == 1 {
      assert a[1..] == [];
      assert a[1..] + b == b;
    } else {
      var p' := if IsDigit(a[0]) then p + [a[0]] else [];
      ScanSplit(a[1..], b, p');
    }
  }

  lemma ParseAdditive(a: string, b: string)
    requires a == [] || !IsDigit(a[|a| - 1])
    ensures ScanParse(a + b) == ScanParse(a) + ScanParse(b)
  {
    if a == [] {
      assert a + b == b;
    } else {
      ScanSplit(a, b, []);
    }
  }

  /** A number followed by a unit letter, as in "5s". */
  function Token(n: nat, unit: char): string {
    NatToString(n) + [unit]
  }

  lemma TokenParses(n: nat, unit: char)
    requires !IsDigit(unit)
    ensures ScanParse(Token(n, unit)) == n * UnitMs(unit)
    ensures Token(n, unit) != [] && Token(n, unit)[|Token(n, unit)| - 1] == unit
  {
    SingleToken(n, unit, []);
    assert Token(n, unit) + [] == Token(n, unit);
  }

  /** The compact form "<d>d<h>h<m>m<s>s" of a time record. */
  function Compact(t: TimeObject): string {
    Token(t.d, 'd') + Token(t.h, 'h') + Token(t.m, 'm') + Token(t.s, 's')
  }

  /** The compact form of a record parses back to its milliseconds. */
  lemma CompactParses(t: TimeObject)
    ensures ScanParse(Compact(t)) == TotalSeconds(t) * 1000
  {
    var a, b, c, e := Token(t.d, 'd'), Token(t.h, 'h'), Token(t.m, 'm'), Token(t.s, 's');
    TokenParses(t.d, 'd');
    TokenParses(t.h, 'h');
    TokenParses(t.m, 'm');
    TokenParses(t.s, 's');
    assert Compact(t) == a + (b + (c + e));
    ParseAdditive(c, e);
    ParseAdditive(b, c + e);
    ParseAdditive(a, b + (c + e));
    assert ScanParse(Compact(t)) == ScanParse(a) + ScanParse(b) + ScanParse(c) + ScanParse(e);
    UnitSum(t);
  }

  /** The milliseconds of each field add up to the record's. */
  lemma UnitSum(t: TimeObject)
    ensures t.d * UnitMs('d') + t.h * UnitMs('h') + t.m * UnitMs('m') + t.s * UnitMs('s')
      == TotalSeconds(t) * 1000
  {
    assert UnitMs('d') == 86400000 && UnitMs('h') == 3600000;
    assert UnitMs('m') == 60000 && UnitMs('s') == 1000;
  }

  /** Decomposing a millisecond count, writing the record compactly and parsing
      it gives the count back to whole seconds. */
  lemma DecomposeRenderParse(ms: nat)
    ensures var back := ScanParse(Compact(MsToTime(ms, None).obj));
      back == ms / 1000 * 1000 && back <= ms < back + 1000
  {
    CompactParses(MsToTime(ms, None).obj);
  }

  /** The single-unit examples of the test suite. */
  lemma ParseSingleUnitExamples()
    ensures ScanParse("1s") == 1000 && ScanParse("1m") == 60000
    ensures ScanParse("1h") == 3600000 && ScanParse("1d") == 86400000
  {
    assert NatToString(1) == "1";
    TokenParses(1, 's');
    TokenParses(1, 'm');
    TokenParses(1, 'h');
    TokenParses(1, 'd');
    assert "1s" == Token(1, 's') && "1m" == Token(1, 'm');
    assert "1h" == Token(1, 'h') && "1d" == Token(1, 'd');
  }

  /** The mixed-unit examples of the test suite. */
  lemma ParseMixedUnitExamples()
    ensures ScanParse("1h1m1s") == 3661000
    ensures ScanParse("2d3h4m5s") == 183845000
  {
    ParseSingleUnitExamples();
    ParseAdditive("1m", "1s");
    ParseAdditive("1h", "1m1s");
    assert "1h1m1s" == "1h" + ("1m" + "1s");
    assert NatToString(2) == "2" && NatToString(3) == "3";
    assert NatToString(4) == "4" && NatToString(5) == "5";
    CompactParses(TimeObject(2, 3, 4, 5));
    assert Compact(TimeObject(2, 3, 4, 5)) == "2d3h4m5s";
  }

  /** The repeated-unit and unit-less examples of the test suite. */
  lemma ParseRepeatedUnitExamples()
    ensures ScanParse("2s2s") == 4000
    ensures ScanParse("3m3m3m") == 540000
    ensures ScanParse("0") == 0
  {
    assert NatToString(2) == "2" && NatToString(3) == "3";
    TokenParses(2, 's');
    assert "2s" == Token(2, 's');
    ParseAdditive("2s", "2s");
    assert "2s2s" == "2s" + "2s";
    TokenParses(3, 'm');
    assert "3m" == Token(3, 'm');
    ParseAdditive("3m", "3m");
    ParseAdditive("3m", "3m3m");
    assert "3m3m3m" == "3m" + ("3m" + "3m");
    assert "0"[1..] == [];
  }

  /** The documented example with units in sequence. */
  lemma ParseSequenceExample()
    ensures ScanParse("1m1s") == 61000
  {
    ParseSingleUnitExamples();
    ParseAdditive("1m", "1s");
    assert "1m1s" == "1m" + "1s";
  }

  /** The documented example with units separated by spaces. */
  lemma ParseSpacedExample()
    ensures ScanParse("1h 1m 1s") == 3661000
  {
    ParseSingleUnitExamples();
    assert ScanParse(" ") == 0;
    ParseAdditive(" ", "1s");
    ParseAdditive("1m", " 1s");
    ParseAdditive(" ", "1m 1s");
    ParseAdditive("1h", " 1m 1s");
    assert "1h 1m 1s" == "1h" + (" " + ("1m" + (" " + "1s")));
  }

  /** The documented example with a unit amid other words. */
  lemma ParseAmidWordsExample()
    ensures ScanParse("foo 1s bar") == 1000
  {
    ParseSingleUnitExamples();
    assert ScanParse("foo ") == 0 && ScanParse(" bar") == 0;
    ParseAdditive("1s", " bar");
    ParseAdditive("foo ", "1s bar");
    assert "foo 1s bar" == "foo " + ("1s" + " bar");
  }
}
