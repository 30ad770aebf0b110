/** The month arithmetic of the inventory recommendation tool: the list of
    month names and the cyclic successor used to pick the month for which a
    recommendation is made. */
module InvRec {
  import opened ListIndex

  /** The twelve full month names, in calendar order. */
  const MONTHS: seq<string> := [
    "January", "February", "March", "April", "May", "June",
    "July", "August", "September", "October", "November", "December"
  ]

  /** What a call of the successor ends in: the next month's name, the
      `ValueError` raised for a name that is not in the list, or the
      `IndexError` (which the function does not catch) raised when the
      wrapped position lies beyond the end of a list shorter than twelve. */
  datatype Outcome =
    | Month(name: string)
    | InvalidMonth(value: string)
    | IndexOutOfRange(index: nat)

  const MESSAGE_PREFIX: string := "Invalid month name: "
  const MESSAGE_SUFFIX: string := ". Please provide a full month name like 'March'."

  /** The text of the `ValueError` raised for an unrecognised name. */
  function InvalidMonthMessage(value: string): (m: string)
    ensures |m| == |MESSAGE_PREFIX| + |value| + |MESSAGE_SUFFIX|
    ensures m[..|MESSAGE_PREFIX|] == MESSAGE_PREFIX
    ensures m[|MESSAGE_PREFIX|..|MESSAGE_PREFIX| + |value|] == value
    ensures m[|MESSAGE_PREFIX| + |value|..] == MESSAGE_SUFFIX
  {
    MESSAGE_PREFIX + value + MESSAGE_SUFFIX
  }

  /** The message determines the offending value: two different names never
      produce the same error text. */
  lemma InvalidMonthMessageInjective(a: string, b: string)
    requires InvalidMonthMessage(a) == InvalidMonthMessage(b)
    ensures a == b
  {
  }

  /** The successor of `current` in `months`: find its first occurrence,
      step forward modulo twelve and read the name at that position. */
  function GetNextMonth(months: seq<string>, current: string): (r: Outcome)
    ensures r.InvalidMonth? <==> current !in months
    ensures r.InvalidMonth? ==> r.value == current
    ensures r.Month? ==> r.name in months
    ensures forall i: nat :: IsFirstIndex(months, current, i) ==>
      var n := (i + 1) % 12;
      r == if n < |months| then Month(months[n]) else IndexOutOfRange(n)
  {
    match IndexOf(months, current)
    case None => InvalidMonth(current)
    case Some(idx) =>
      var nextIdx := (idx + 1) % 12;
      if nextIdx < |months| then Month(months[nextIdx]) else IndexOutOfRange(nextIdx)
  }

  /** A list the successor treats as a true cycle: exactly twelve names,
      none repeated. */
  ghost predicate ValidMonthList(months: seq<string>) {
    |months| == 12 && Distinct(months)
  }

  /** `n` applications of the successor, starting from `current`; the first
      error stops the chain. */
  function Iterate(months: seq<string>, current: string, n: nat): Outcome
    decreases n
  {
    if n == 0 then Month(current)
    else match Iterate(months, current, n - 1)
      case Month(m) => GetNextMonth(months, m)
      case e => e
  }

  /** In a valid list the successor of the entry at `k` is the entry at
      `k + 1`, wrapping from the last entry to the first. */
  lemma NextAt(months: seq<string>, k: nat)
    requires ValidMonthList(months) && k < |months|
    ensures GetNextMonth(months, months[k]) == Month(months[(k + 1) % 12])
  {
    IndexOfDistinct(months, k);
  }

  /** Every name in a valid list has a successor, and it is in the list. */
  lemma NextTotal(months: seq<string>, x: string)
    requires ValidMonthList(months) && x in months
    ensures GetNextMonth(months, x).Month?
    ensures GetNextMonth(months, x).name in months
  {
  }

  /** The successor never returns its own input. */
  lemma NextNeverSelf(months: seq<string>, x: string)
    requires ValidMonthList(months) && x in months
    ensures GetNextMonth(months, x) != Month(x)
  {
    var k :| 0 <= k < |months| && months[k] == x;
    NextAt(months, k);
    assert (k + 1) % 12 != k;
    assert DistinctAt(months, (k + 1) % 12, k);
  }

  /** Different names have different successors. */
  lemma NextInjective(months: seq<string>, x: string, y: string)
    requires ValidMonthList(months) && x in months && y in months
    requires GetNextMonth(months, x) == GetNextMonth(months, y)
    ensures x == y
  {
    var i :| 0 <= i < |months| && months[i] == x;
    var j :| 0 <= j < |months| && months[j] == y;
    NextAt(months, i);
    NextAt(months, j);
    assert DistinctAt(months, (i + 1) % 12, (j + 1) % 12);
    ModStepInjective(i, j);
  }

  /** Every name in the list is the successor of some name in the list, so
      with `NextTotal` and `NextInjective` the successor is a permutation. */
  lemma NextSurjective(months: seq<string>, y: string)
    requires ValidMonthList(months) && y in months
    ensures exists x :: x in months && GetNextMonth(months, x) == Month(y)
  {
    var k :| 0 <= k < |months| && months[k] == y;
    var p := (k + 12 - 1) % 12;
    NextAt(months, p);
    assert (p + 1) % 12 == k;
  }

  /** The list moved one place to the left, its first name going to the end:
      a rearrangement of the same names. */
  function RotateLeft(s: seq<string>): (r: seq<string>)
    ensures |r| == |s|
    ensures multiset(r) == multiset(s)
  {
    if s == [] then [] else
      assert s == [s[0]] + s[1..];
      s[1..] + [s[0]]
  }

  /** Applied to each name of a valid list in turn, the successor yields the
      list rotated one place, so it permutes the list's names. */
  lemma NextIsRotation(months: seq<string>)
    requires ValidMonthList(months)
    ensures forall i :: 0 <= i < |months| ==>
      GetNextMonth(months, months[i]) == Month(RotateLeft(months)[i])
  {
    forall i | 0 <= i < |months|
      ensures GetNextMonth(months, months[i]) == Month(RotateLeft(months)[i])
    {
      NextAt(months, i);
      if i < 11 {
        ModStepBelow(i);
      }
    }
  }

  // Facts about the position arithmetic `% 12`, each stated in the exact
  // shape the proofs below use, so that they do not search for it.

  lemma ModStep(k: nat, n: nat)
    requires n > 0
    ensures ((k + (n - 1)) % 12 + 1) % 12 == (k + n) % 12
  {
  }

  lemma ModStepBelow(i: nat)
    requires i < 11
    ensures (i + 1) % 12 == i + 1
  {
  }

  lemma ModStepInjective(i: nat, j: nat)
    requires i < 12 && j < 12 && (i + 1) % 12 == (j + 1) % 12
    ensures i == j
  {
  }

  lemma ModFull(k: nat, m: nat)
    requires k < 12 && m == 12
    ensures (k + m) % 12 == k
  {
  }

  lemma ModCycle(k: nat, n: nat, m: nat)
    requires m == 12
    ensures (k + (n + m)) % 12 == (k + n) % 12
  {
  }

  /** One more step from the entry at position `k + n - 1` (modulo twelve)
      reaches the entry at `k + n`. */
  lemma IterateStep(months: seq<string>, k: nat, n: nat)
    requires ValidMonthList(months) && k < |months| && n > 0
    requires Iterate(months, months[k], n - 1) == Month(months[(k + (n - 1)) % 12])
    ensures Iterate(months, months[k], n) == Month(months[(k + n) % 12])
  {
    NextAt(months, (k + (n - 1)) % 12);
    ModStep(k, n);
  }

  /** `n` steps from the entry at `k` reach the entry at `k + n`, modulo twelve. */
  lemma {:induction false} IterateAt(months: seq<string>, k: nat, n: nat)
    requires ValidMonthList(months) && k < |months|
    ensures Iterate(months, months[k], n) == Month(months[(k + n) % 12])
    decreases n
  {
    if n == 0 {
      assert (k + n) % 12 == k;
    } else {
      IterateAt(months, k, n - 1);
      IterateStep(months, k, n);
    }
  }

  /** Twelve steps (the length of a valid list) from any name of the list
      return to that name. */
  lemma PeriodTwelve(months: seq<string>, x: string)
    requires ValidMonthList(months) && x in months
    ensures Iterate(months, x, |months|) == Month(x)
  {
    var k :| 0 <= k < |months| && months[k] == x;
    IterateAt(months, k, |months|);
    ModFull(k, |months|);
  }

  /** Twelve more steps change nothing: the step count matters only modulo
      twelve. */
  lemma Periodic(months: seq<string>, x: string, n: nat)
    requires ValidMonthList(months) && x in months
    ensures Iterate(months, x, n + |months|) == Iterate(months, x, n)
  {
    var k :| 0 <= k < |months| && months[k] == x;
    IterateAt(months, k, n + |months|);
    IterateAt(months, k, n);
    ModCycle(k, n, |months|);
  }

  /** No positive number of steps below twelve returns to the start, so
      twelve is the exact period. */
  lemma NoShorterPeriod(months: seq<string>, x: string, n: nat)
    requires ValidMonthList(months) && x in months && 0 < n < 12
    ensures Iterate(months, x, n) != Month(x)
  {
    var k :| 0 <= k < |months| && months[k] == x;
    IterateAt(months, k, n);
    var q := (k + n) % 12;
    assert q != k;
    assert DistinctAt(months, q, k);
  }

  /** An unrecognised name stops any positive number of steps with the
      invalid-month error for that name. */
  lemma {:induction false} IterateInvalid(months: seq<string>, x: string, n: nat)
    requires x !in months && n > 0
    ensures Iterate(months, x, n) == InvalidMonth(x)
    decreases n
  {
    if n > 1 {
      IterateInvalid(months, x, n - 1);
    }
  }

  /** The month-name constant is a valid month list. */
  lemma MonthsValid()
    ensures ValidMonthList(MONTHS)
  {
  }

  /** The successor table of the constant: each month is followed by the next
      calendar month. */
  lemma MonthsSuccessor(i: nat)
    requires i < 11
    ensures GetNextMonth(MONTHS, MONTHS[i]) == Month(MONTHS[i + 1])
  {
    MonthsValid();
    NextAt(MONTHS, i);
    ModStepBelow(i);
  }

  /** The wrap-around from the end of the year to its start: December is
      followed by January. */
  lemma DecemberToJanuary()
    ensures GetNextMonth(MONTHS, MONTHS[11]) == Month(MONTHS[0])
    ensures GetNextMonth(MONTHS, "December") == Month("January")
  {
    MonthsValid();
    NextAt(MONTHS, 11);
    assert (11 + 1) % 12 == 0;
  }

  /** "Frobuary" is not a month name: the only eight-letter names are
      February, November and December, and their second letters differ. */
  lemma FrobuaryNotAMonth()
    ensures "Frobuary" !in MONTHS
  {
  }

  /** A name outside the constant, such as a misspelling, is rejected with
      the invalid-month error naming it. */
  lemma FrobuaryRejected()
    ensures GetNextMonth(MONTHS, "Frobuary") == InvalidMonth("Frobuary")
  {
  }

  /** The month the recommendation is made for: the tool offers only the
      names of the constant, and every one of them has a successor there. */
  lemma SelectedMonthHasSuccessor(prev: string)
    requires prev in MONTHS
    ensures GetNextMonth(MONTHS, prev).Month?
    ensures GetNextMonth(MONTHS, prev).name in MONTHS
    ensures GetNextMonth(MONTHS, prev).name != prev
  {
    MonthsValid();
    NextTotal(MONTHS, prev);
    NextNeverSelf(MONTHS, prev);
  }

  /** Because the modulus is fixed at twelve, in a list shorter than twelve
      names the last name has no successor: the position after it is past
      the end, and the `IndexError` escapes the function. */
  lemma ShortListLastFails(months: seq<string>)
    requires 0 < |months| < 12 && Distinct(months)
    ensures GetNextMonth(months, months[|months| - 1]) == IndexOutOfRange(|months|)
  {
    IndexOfDistinct(months, |months| - 1);
  }

  /** Because the modulus is fixed at twelve, in a list longer than twelve
      names every successor lies among the first twelve entries: the names
      after them are never reached. */
  lemma LongListStaysInFirstTwelve(months: seq<string>, x: string)
    requires |months| >= 12 && x in months
    ensures GetNextMonth(months, x).Month?
    ensures GetNextMonth(months, x).name in months[..12]
  {
  }
}
