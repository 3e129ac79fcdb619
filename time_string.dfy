/** Duration rendering: `msToTimeString`, in its simple (clock) and detailed
    (comma-separated clauses) forms. */
module TimeString {
  import opened Decimal
  import opened Time

  /** The sentinel the simple form returns for a duration of a day or more. */
  const MoreThanADay: string := "MORE_THAN_A_DAY"

  /** `msToTimeString(msObject, simple)`. */
  function MsToTimeString(t: TimeObject, simple: bool): (r: string)
    ensures simple ==> (r == MoreThanADay <==> t.d > 0)
    ensures !simple ==> (r == "" <==> t == TimeObject(0, 0, 0, 0))
  {
    if simple then SimpleString(t) else DetailedString(t)
  }

  /** The simple form: the sentinel when there are days, otherwise `H:MM:SS`
      when there are hours and `M:SS` when there are none. */
  function SimpleString(t: TimeObject): (r: string)
    ensures r == MoreThanADay <==> t.d > 0
  {
    if t.d > 0 then MoreThanADay
    else
      var r := (if t.h > 0 then NatToString(t.h) + ":" else "")
        + (if t.h > 0 then PadTwo(NatToString(t.m)) else NatToString(t.m))
        + ":" + PadTwo(NatToString(t.s));
      assert IsDigit(r[0]) && !IsDigit(MoreThanADay[0]);
      r
  }

  /** One clause of the detailed form: the number, a space, the unit, and an
      "s" unless the number is exactly 1. */
  function Clause(n: nat, unit: string): string {
    NatToString(n) + " " + unit + (if n == 1 then "" else "s")
  }

  /** A clause reads as the number, then a space, then the unit, and ends in
      "s" exactly when the number is not 1 (for a unit not itself ending in
      "s", as none of "day", "hr", "min" and "sec" does). */
  lemma ClauseShape(n: nat, unit: string)
    requires unit != [] && unit[|unit| - 1] != 's'
    ensures var c, k := Clause(n, unit), |NatToString(n)|;
      k < |c| && AllDigits(c[..k]) && DigitsValue(c[..k]) == n && c[k] == ' ' &&
      (c[|c| - 1] == 's' <==> n != 1)
  {
    var c, k := Clause(n, unit), |NatToString(n)|;
    assert c[..k] == NatToString(n);
  }

  /** The clause and its ", " separator when the number is positive, nothing
      otherwise. */
  function Piece(n: nat, unit: string): string {
    if n > 0 then Clause(n, unit) + ", " else ""
  }

  /** `slice(0, -2)`: all but the last two characters, or nothing when there
      are fewer than two. */
  function DropLastTwo(s: string): (r: string)
    ensures |s| >= 2 ==> s == r + s[|s| - 2..]
    ensures |s| < 2 ==> r == ""
  {
    if |s| >= 2 then s[..|s| - 2] else ""
  }

  /** The detailed form as the source builds it: every positive field's clause
      followed by ", ", with the last two characters cut off. */
  function DetailedString(t: TimeObject): (r: string)
    ensures r == "" <==> t == TimeObject(0, 0, 0, 0)
  {
    var pieces := Piece(t.d, "day") + Piece(t.h, "hr") + Piece(t.m, "min") + Piece(t.s, "sec");
    assert t != TimeObject(0, 0, 0, 0) ==> |pieces| > 2;
    DropLastTwo(pieces)
  }

  // ---------------------------------------------------------------------------
  // Reference reading of the detailed form: the clauses of the positive fields,
  // in the order days, hours, minutes, seconds, joined by ", ".

  function NonZeroClauses(t: TimeObject): (cs: seq<string>)
    ensures |cs| <= 4
    ensures cs == [] <==> t == TimeObject(0, 0, 0, 0)
  {
    (if t.d > 0 then [Clause(t.d, "day")] else [])
      + (if t.h > 0 then [Clause(t.h, "hr")] else [])
      + (if t.m > 0 then [Clause(t.m, "min")] else [])
      + (if t.s > 0 then [Clause(t.s, "sec")] else [])
  }

  /** The parts separated by `sep`, with no separator after the last. */
  function Join(parts: seq<string>, sep: string): string {
    if parts == [] then ""
    else if |parts| == 1 then parts[0]
    else parts[0] + sep + Join(parts[1..], sep)
  }

  lemma JoinThree(a: string, b: string, c: string, sep: string)
    ensures Join([a, b, c], sep) == a + sep + b + sep + c
  {
    assert [a, b, c][1..] == [b, c];
    assert [b, c][1..] == [c];
    assert Join([b, c], sep) == b + sep + c;
    assert a + sep + (b + sep + c) == a + sep + b + sep + c;
  }

  lemma JoinFour(a: string, b: string, c: string, e: string, sep: string)
    ensures Join([a, b, c, e], sep) == a + sep + b + sep + c + sep + e
  {
    assert [a, b, c, e][1..] == [b, c, e];
    JoinThree(b, c, e, sep);
    assert a + sep + (b + sep + c + sep + e) == a + sep + b + sep + c + sep + e;
  }

  /** Each part followed by ", ". */
  function Terminated(parts: seq<string>): string {
    if parts == [] then "" else parts[0] + ", " + Terminated(parts[1..])
  }

  lemma {:induction false} TerminatedAppend(a: seq<string>, b: seq<string>)
    ensures Terminated(a + b) == Terminated(a) + Terminated(b)
  {
    if a == [] {
      assert a + b == b;
    } else {
      assert (a + b)[1..] == a[1..] + b;
      TerminatedAppend(a[1..], b);
    }
  }

  lemma {:induction false} TerminatedDropIsJoin(parts: seq<string>)
    ensures DropLastTwo(Terminated(parts)) == Join(parts, ", ")
  {
    if |parts| == 1 {
      assert Terminated(parts) == parts[0] + ", ";
    } else if |parts| > 1 {
      TerminatedDropIsJoin(parts[1..]);
      var rest := Terminated(parts[1..]);
      assert |rest| >= 2 by { assert rest == parts[1] + ", " + Terminated(parts[2..]); }
      assert Terminated(parts) == (parts[0] + ", ") + rest;
    }
  }

  /** The clause of a field, as a list of at most one part. */
  function ClauseList(n: nat, unit: string): seq<string> {
    if n > 0 then [Clause(n, unit)] else []
  }

  lemma PieceTerminated(n: nat, unit: string)
    ensures Terminated(ClauseList(n, unit)) == Piece(n, unit)
  {
    if n > 0 {
      assert ClauseList(n, unit)[1..] == [];
    }
  }

  /** The detailed form lists exactly the positive fields, in the order days,
      hours, minutes, seconds, joined by ", " with no trailing separator. */
  lemma DetailedIsJoinedClauses(t: TimeObject)
    ensures DetailedString(t) == Join(NonZeroClauses(t), ", ")
  {
    var cd, ch := ClauseList(t.d, "day"), ClauseList(t.h, "hr");
    var cm, cs := ClauseList(t.m, "min"), ClauseList(t.s, "sec");
    assert NonZeroClauses(t) == cd + ch + cm + cs;
    PieceTerminated(t.d, "day");
    PieceTerminated(t.h, "hr");
    PieceTerminated(t.m, "min");
    PieceTerminated(t.s, "sec");
    TerminatedAppend(cd, ch);
    TerminatedAppend(cd + ch, cm);
    TerminatedAppend(cd + ch + cm, cs);
    assert Terminated(cd + ch + cm + cs) == Piece(t.d, "day") + Piece(t.h, "hr") + Piece(t.m, "min") + Piece(t.s, "sec");
    TerminatedDropIsJoin(NonZeroClauses(t));
  }

  // ---------------------------------------------------------------------------
  // Reading the simple form back: split at ':' and read every field as digits.

  /** The pieces of `s` between occurrences of `sep` (`s.split(sep)`). */
  function Split(s: string, sep: char): (parts: seq<string>)
    ensures |parts| >= 1
  {
    if s == [] then [""]
    else if s[0] == sep then [""] + Split(s[1..], sep)
    else
      var rest := Split(s[1..], sep);
      [[s[0]] + rest[0]] + rest[1..]
  }

  /** The numbers the fields of a colon-separated clock denote, or None when
      some field is not a digit string. */
  function ReadFields(parts: seq<string>): Option<seq<nat>> {
    if parts == [] then Some([])
    else if !AllDigits(parts[0]) then None
    else match ReadFields(parts[1..])
      case None => None
      case Some(rest) => Some([DigitsValue(parts[0])] + rest)
  }

  lemma ReadFieldsCons(p: string, rest: seq<string>, vs: seq<nat>)
    requires AllDigits(p) && ReadFields(rest) == Some(vs)
    ensures ReadFields([p] + rest) == Some([DigitsValue(p)] + vs)
  {
    assert ([p] + rest)[1..] == rest;
  }

  lemma ReadFieldsOne(p: string)
    requires AllDigits(p)
    ensures ReadFields([p]) == Some([DigitsValue(p)])
  {
    assert [p][1..] == [];
    assert ReadFields([]) == Some([]);
    assert [DigitsValue(p)] + [] == [DigitsValue(p)];
  }

  function ReadClock(r: string): Option<seq<nat>> {
    ReadFields(Split(r, ':'))
  }

  lemma {:induction false} SplitNoSep(a: string, sep: char)
    requires forall i :: 0 <= i < |a| ==> a[i] != sep
    ensures Split(a, sep) == [a]
  {
    if a != [] {
      SplitNoSep(a[1..], sep);
      assert [a[0]] + a[1..] == a;
    }
  }

  lemma {:induction false} SplitAt(a: string, sep: char, b: string)
    requires forall i :: 0 <= i < |a| ==> a[i] != sep
    ensures Split(a + [sep] + b, sep) == [a] + Split(b, sep)
  {
    if a == [] {
      assert a + [sep] + b == [sep] + b;
      assert ([sep] + b)[1..] == b;
    } else {
      assert (a + [sep] + b)[1..] == a[1..] + [sep] + b;
      SplitAt(a[1..], sep, b);
      assert [a[0]] + a[1..] == a;
    }
  }

  lemma DigitsHaveNoColon(s: string)
    requires AllDigits(s)
    ensures NoColon(s)
  {
  }

  predicate NoColon(s: string) {
    forall i :: 0 <= i < |s| ==> s[i] != ':'
  }

  lemma SplitTwo(a: string, b: string)
    requires NoColon(a) && NoColon(b)
    ensures Split(a + ":" + b, ':') == [a, b]
  {
    SplitNoSep(b, ':');
    SplitAt(a, ':', b);
  }

  lemma SplitThree(a: string, b: string, c: string)
    requires NoColon(a) && NoColon(b) && NoColon(c)
    ensures Split(a + ":" + b + ":" + c, ':') == [a, b, c]
  {
    SplitTwo(b, c);
    assert a + ":" + b + ":" + c == a + [':'] + (b + ":" + c);
    SplitAt(a, ':', b + ":" + c);
  }

  /** Below a day the simple form splits at ':' into the rendered hours
      (only when positive), minutes and padded seconds. */
  lemma SimpleFields(t: TimeObject)
    requires t.d == 0
    ensures Split(SimpleString(t), ':') ==
      if t.h > 0 then [NatToString(t.h), PadTwo(NatToString(t.m)), PadTwo(NatToString(t.s))]
      else [NatToString(t.m), PadTwo(NatToString(t.s))]
  {
    var sh := NatToString(t.h);
    var sm := NatToString(t.m);
    var ss := PadTwo(NatToString(t.s));
    PadTwoValue(NatToString(t.s));
    DigitsHaveNoColon(ss);
    if t.h > 0 {
      var pm := PadTwo(sm);
      PadTwoValue(sm);
      DigitsHaveNoColon(sh);
      DigitsHaveNoColon(pm);
      assert SimpleString(t) == sh + ":" + pm + ":" + ss;
      SplitThree(sh, pm, ss);
    } else {
      DigitsHaveNoColon(sm);
      assert SimpleString(t) == sm + ":" + ss;
      SplitTwo(sm, ss);
    }
  }

  lemma ReadTwo(a: string, b: string)
    requires AllDigits(a) && AllDigits(b)
    ensures ReadClock(a + ":" + b) == Some([DigitsValue(a), DigitsValue(b)])
  {
    DigitsHaveNoColon(a);
    DigitsHaveNoColon(b);
    SplitTwo(a, b);
    ReadFieldsTwo(a, b);
  }

  lemma ReadThree(a: string, b: string, c: string)
    requires AllDigits(a) && AllDigits(b) && AllDigits(c)
    ensures ReadClock(a + ":" + b + ":" + c) == Some([DigitsValue(a), DigitsValue(b), DigitsValue(c)])
  {
    DigitsHaveNoColon(a);
    DigitsHaveNoColon(b);
    DigitsHaveNoColon(c);
    SplitThree(a, b, c);
    ReadFieldsThree(a, b, c);
  }

  lemma ReadFieldsTwo(b: string, c: string)
    requires AllDigits(b) && AllDigits(c)
    ensures ReadFields([b, c]) == Some([DigitsValue(b), DigitsValue(c)])
  {
    ReadFieldsOne(c);
    ReadFieldsCons(b, [c], [DigitsValue(c)]);
    assert [b] + [c] == [b, c];
    assert [DigitsValue(b)] + [DigitsValue(c)] == [DigitsValue(b), DigitsValue(c)];
  }

  lemma ReadFieldsThree(a: string, b: string, c: string)
    requires AllDigits(a) && AllDigits(b) && AllDigits(c)
    ensures ReadFields([a, b, c]) == Some([DigitsValue(a), DigitsValue(b), DigitsValue(c)])
  {
    ReadFieldsTwo(b, c);
    ReadFieldsCons(a, [b, c], [DigitsValue(b), DigitsValue(c)]);
    assert [a] + [b, c] == [a, b, c];
    assert [DigitsValue(a)] + [DigitsValue(b), DigitsValue(c)] == [DigitsValue(a), DigitsValue(b), DigitsValue(c)];
  }

  /** Below a day the simple form is a clock whose fields read back as the
      hours (only when positive), minutes and seconds. */
  lemma SimpleReadsBack(t: TimeObject)
    requires t.d == 0
    ensures ReadClock(SimpleString(t)) == Some(if t.h > 0 then [t.h, t.m, t.s] else [t.m, t.s])
  {
    var sm := NatToString(t.m);
    var ss := PadTwo(NatToString(t.s));
    PadTwoValue(NatToString(t.s));
    if t.h > 0 {
      var pm := PadTwo(sm);
      PadTwoValue(sm);
      assert SimpleString(t) == NatToString(t.h) + ":" + pm + ":" + ss;
      ReadThree(NatToString(t.h), pm, ss);
    } else {
      assert SimpleString(t) == sm + ":" + ss;
      ReadTwo(sm, ss);
    }
  }

  /** In the simple form seconds always take at least two digits; minutes take
      at least two when hours are shown and exactly their own digits
      otherwise, so `M:SS` has a one-digit minute field below ten minutes. */
  lemma SimplePadding(t: TimeObject)
    requires t.d == 0
    ensures var parts := Split(SimpleString(t), ':');
      |parts| == (if t.h > 0 then 3 else 2) &&
      |parts[|parts| - 1]| >= 2 &&
      (t.h > 0 ==> |parts[1]| >= 2) &&
      (t.h == 0 ==> (|parts[0]| == 1 <==> t.m < 10))
  {
    SimpleFields(t);
  }

  /** The simple-form examples of the test suite. */
  lemma SimpleExamples()
    ensures MsToTimeString(TimeObject(0, 0, 0, 5), true) == "0:05"
    ensures MsToTimeString(TimeObject(0, 0, 5, 5), true) == "5:05"
    ensures MsToTimeString(TimeObject(0, 5, 5, 5), true) == "5:05:05"
    ensures MsToTimeString(TimeObject(1, 0, 0, 0), true) == MoreThanADay
    ensures MsToTimeString(TimeObject(2, 0, 0, 0), true) == MoreThanADay
    ensures MsToTimeString(TimeObject(1, 5, 5, 5), true) == MoreThanADay
  {
    assert NatToString(0) == "0" && NatToString(5) == "5";
  }

  /** The documented simple-form examples. */
  lemma SimpleDocumentedExamples()
    ensures MsToTimeString(TimeObject(0, 2, 3, 4), true) == "2:03:04"
    ensures MsToTimeString(TimeObject(0, 0, 3, 4), true) == "3:04"
    ensures MsToTimeString(TimeObject(0, 0, 0, 4), true) == "0:04"
    ensures MsToTimeString(TimeObject(2, 3, 4, 5), true) == MoreThanADay
  {
    assert NatToString(0) == "0" && NatToString(2) == "2";
    assert NatToString(3) == "3" && NatToString(4) == "4";
  }

  /** The clauses the detailed-form examples use. */
  lemma ExampleClauses()
    ensures Clause(1, "day") == "1 day" && Clause(2, "day") == "2 days"
    ensures Clause(1, "hr") == "1 hr" && Clause(5, "hr") == "5 hrs"
    ensures Clause(1, "min") == "1 min" && Clause(5, "min") == "5 mins"
    ensures Clause(1, "sec") == "1 sec" && Clause(5, "sec") == "5 secs"
  {
    assert NatToString(1) == "1" && NatToString(2) == "2" && NatToString(5) == "5";
  }

  /** The detailed-form examples of the test suite in minutes and seconds. */
  lemma DetailedExamples()
    ensures MsToTimeString(TimeObject(0, 0, 0, 5), false) == "5 secs"
    ensures MsToTimeString(TimeObject(0, 0, 5, 5), false) == "5 mins, 5 secs"
  {
    ExampleClauses();
    assert MsToTimeString(TimeObject(0, 0, 0, 5), false) == "5 secs" by {
      DetailedIsJoinedClauses(TimeObject(0, 0, 0, 5));
      assert NonZeroClauses(TimeObject(0, 0, 0, 5)) == ["5 secs"];
    }
    assert MsToTimeString(TimeObject(0, 0, 5, 5), false) == "5 mins, 5 secs" by {
      DetailedIsJoinedClauses(TimeObject(0, 0, 5, 5));
      assert NonZeroClauses(TimeObject(0, 0, 5, 5)) == ["5 mins", "5 secs"];
    }
  }

  /** The detailed-form example of the test suite with plural hours. */
  lemma DetailedHourExample()
    ensures MsToTimeString(TimeObject(0, 5, 5, 5), false) == "5 hrs, 5 mins, 5 secs"
  {
    ExampleClauses();
    DetailedIsJoinedClauses(TimeObject(0, 5, 5, 5));
    assert NonZeroClauses(TimeObject(0, 5, 5, 5)) == ["5 hrs", "5 mins", "5 secs"];
    JoinThree("5 hrs", "5 mins", "5 secs", ", ");
  }

  /** The detailed-form example of the test suite where every unit is
      singular. */
  lemma DetailedSingularExample()
    ensures MsToTimeString(TimeObject(0, 1, 1, 1), false) == "1 hr, 1 min, 1 sec"
  {
    ExampleClauses();
    DetailedIsJoinedClauses(TimeObject(0, 1, 1, 1));
    assert NonZeroClauses(TimeObject(0, 1, 1, 1)) == ["1 hr", "1 min", "1 sec"];
    JoinThree("1 hr", "1 min", "1 sec", ", ");
  }

  /** The detailed-form examples of the test suite with days. */
  lemma DetailedDayExamples()
    ensures MsToTimeString(TimeObject(1, 0, 0, 0), false) == "1 day"
    ensures MsToTimeString(TimeObject(2, 0, 0, 0), false) == "2 days"
  {
    ExampleClauses();
    assert MsToTimeString(TimeObject(1, 0, 0, 0), false) == "1 day" by {
      DetailedIsJoinedClauses(TimeObject(1, 0, 0, 0));
      assert NonZeroClauses(TimeObject(1, 0, 0, 0)) == ["1 day"];
    }
    assert MsToTimeString(TimeObject(2, 0, 0, 0), false) == "2 days" by {
      DetailedIsJoinedClauses(TimeObject(2, 0, 0, 0));
      assert NonZeroClauses(TimeObject(2, 0, 0, 0)) == ["2 days"];
    }
  }

  /** The detailed-form example of the test suite with every field. */
  lemma DetailedFullExample()
    ensures MsToTimeString(TimeObject(1, 5, 5, 5), false) == "1 day, 5 hrs, 5 mins, 5 secs"
  {
    ExampleClauses();
    DetailedIsJoinedClauses(TimeObject(1, 5, 5, 5));
    assert NonZeroClauses(TimeObject(1, 5, 5, 5)) == ["1 day", "5 hrs", "5 mins", "5 secs"];
    JoinFour("1 day", "5 hrs", "5 mins", "5 secs", ", ");
  }
}
