/**
 * The monthly report: at most once per month the history is copied into an
 * array, bubble-sorted by how often each course was booked (most booked
 * first), and written out with the three most booked courses in a section
 * of their own.
 */
module Report {
  import opened Wrappers
  import opened DateTime
  import opened BoundedArray
  import opened LinkedList
  import opened Courses
  import opened History
  import opened Renewal

  // ----- Ordering by times booked -----

  /** The booking counts of a sequence of entries, in order. */
  ghost function Times(s: seq<Frequentation>): (t: seq<int>)
    reads s
    ensures |t| == |s| && forall k :: 0 <= k < |s| ==> t[k] == s[k].timesBooked
  {
    if s == [] then [] else Times(s[..|s| - 1]) + [s[|s| - 1].timesBooked]
  }

  ghost predicate NonIncreasing(t: seq<int>) {
    forall a, b :: 0 <= a < b < |t| ==> t[a] >= t[b]
  }

  /** p sends each position of the result to a distinct position of the
      input. */
  ghost predicate IsPermutation(p: seq<nat>, n: nat) {
    |p| == n
    && (forall k :: 0 <= k < n ==> p[k] < n)
    && (forall a, b :: 0 <= a < b < n ==> p[a] != p[b])
  }

  /** Entries with equal counts keep the order they had in the input. */
  ghost predicate Stable(t: seq<int>, p: seq<nat>)
    requires |p| == |t|
  {
    forall a, b :: 0 <= a < b < |t| && t[a] == t[b] ==> p[a] < p[b]
  }

  /** A sorted permutation puts a course booked at least as often as any
      other entry of the input at every place before it: in particular
      the first `top` entries are booked at least as often as every input
      entry not among them. */
  lemma {:induction false} LeadingEntriesAreMostBooked(s: seq<Frequentation>, ordered: seq<Frequentation>, top: nat)
    requires multiset(ordered) == multiset(s) && NonIncreasing(Times(ordered))
    requires top <= |ordered|
    ensures forall a, k :: 0 <= a < top && 0 <= k < |s| && s[k] !in ordered[..top] ==>
              ordered[a].timesBooked >= s[k].timesBooked
  {
    forall a, k | 0 <= a < top && 0 <= k < |s| && s[k] !in ordered[..top]
      ensures ordered[a].timesBooked >= s[k].timesBooked
    {
      assert s[k] in multiset(s);
      assert s[k] in ordered;
      assert forall x :: 0 <= x < top ==> ordered[..top][x] == ordered[x];
      var m :| 0 <= m < |ordered| && ordered[m] == s[k];
      assert Times(ordered)[a] >= Times(ordered)[m];
    }
  }

  /** t holds the current counts of the entries. */
  ghost predicate Tracked(items: seq<Frequentation>, t: seq<int>)
    reads items
  {
    |t| == |items| && forall k :: 0 <= k < |items| ==> items[k].timesBooked == t[k]
  }

  /** items is orig rearranged, and perm says where each entry came from. */
  ghost predicate Arranged(items: seq<Frequentation>, orig: seq<Frequentation>, perm: seq<nat>) {
    |items| == |orig| && multiset(items) == multiset(orig)
    && IsPermutation(perm, |items|)
    && forall k :: 0 <= k < |items| ==> items[k] == orig[perm[k]]
  }

  /** The counts from position m on are in non-increasing order, and none of
      them exceeds a count before m. */
  ghost predicate SettledFrom(t: seq<int>, m: nat) {
    (forall a, b :: m <= a < b < |t| ==> t[a] >= t[b])
    && (forall a, b :: 0 <= a < m <= b < |t| ==> t[a] >= t[b])
  }

  /** Exchanging positions j and j + 1 of a sequence. */
  function SwapNext<T>(s: seq<T>, j: nat): (r: seq<T>)
    requires j + 1 < |s|
    ensures |r| == |s| && r[j] == s[j + 1] && r[j + 1] == s[j]
    ensures forall k :: 0 <= k < |s| && k != j && k != j + 1 ==> r[k] == s[k]
    ensures multiset(r) == multiset(s)
  {
    assert s == s[..j] + [s[j], s[j + 1]] + s[j + 2..];
    assert s[j := s[j + 1]][j + 1 := s[j]] == s[..j] + [s[j + 1], s[j]] + s[j + 2..];
    s[j := s[j + 1]][j + 1 := s[j]]
  }

  /** Swapping two neighbours keeps the arrangement. */
  lemma SwapKeepsArrangement(items: seq<Frequentation>, orig: seq<Frequentation>, perm: seq<nat>, j: nat)
    requires Arranged(items, orig, perm) && j + 1 < |items|
    ensures Arranged(SwapNext(items, j), orig, SwapNext(perm, j))
  {
    var p := SwapNext(perm, j);
    assert forall a, b :: 0 <= a < b < |items| ==> p[a] != p[b] by {
      forall a, b | 0 <= a < b < |items|
        ensures p[a] != p[b]
      {
        var oa := if a == j then j + 1 else if a == j + 1 then j else a;
        var ob := if b == j then j + 1 else if b == j + 1 then j else b;
        assert p[a] == perm[oa] && p[b] == perm[ob] && oa != ob;
      }
    }
  }

  /** Swapping two neighbours whose counts are out of order keeps the order
      of equal counts. */
  lemma SwapKeepsStability(t: seq<int>, perm: seq<nat>, j: nat)
    requires |t| == |perm| && j + 1 < |t| && Stable(t, perm) && t[j] < t[j + 1]
    ensures Stable(SwapNext(t, j), SwapNext(perm, j))
  {
    var t', p := SwapNext(t, j), SwapNext(perm, j);
    forall a, b | 0 <= a < b < |t'| && t'[a] == t'[b]
      ensures p[a] < p[b]
    {
      var oa := if a == j then j + 1 else if a == j + 1 then j else a;
      var ob := if b == j then j + 1 else if b == j + 1 then j else b;
      assert t'[a] == t[oa] && t'[b] == t[ob] && p[a] == perm[oa] && p[b] == perm[ob];
    }
  }

  /** Swapping inside the unsettled prefix keeps the settled tail, and the
      smaller count moves right. */
  lemma SwapKeepsSettled(t: seq<int>, j: nat, end: nat)
    requires j + 1 < end <= |t| && SettledFrom(t, end) && t[j] < t[j + 1]
    requires forall a :: 0 <= a <= j ==> t[a] >= t[j]
    ensures SettledFrom(SwapNext(t, j), end)
    ensures var t' := SwapNext(t, j); forall a :: 0 <= a <= j + 1 ==> t'[a] >= t'[j + 1]
  {
  }

  /** Swapping two entries swaps their counts. */
  lemma SwapKeepsTracked(items: seq<Frequentation>, t: seq<int>, j: nat)
    requires Tracked(items, t) && j + 1 < |items|
    ensures Tracked(SwapNext(items, j), SwapNext(t, j))
  {
  }

  /**
   * The body of the inner loop at position j: the neighbours are swapped
   * when the left one was booked fewer times. Afterwards position j + 1
   * holds the smallest count of the first j + 2.
   */
  method CompareAndSwap(arr: BoundedArray<Frequentation>, end: nat, j: nat, ghost orig: seq<Frequentation>,
                        ghost t0: seq<int>, ghost p0: seq<nat>)
    returns (ghost t: seq<int>, ghost perm: seq<nat>)
    requires arr.Valid() && j + 1 < end <= |arr.items|
    requires Tracked(arr.items, t0) && Arranged(arr.items, orig, p0) && Stable(t0, p0)
    requires SettledFrom(t0, end) && forall a :: 0 <= a <= j ==> t0[a] >= t0[j]
    modifies arr
    ensures arr.Valid() && Tracked(arr.items, t) && Arranged(arr.items, orig, perm) && Stable(t, perm)
    ensures SettledFrom(t, end) && forall a :: 0 <= a <= j + 1 ==> t[a] >= t[j + 1]
  {
    t, perm := t0, p0;
    if arr.items[j].timesBooked < arr.items[j + 1].timesBooked {
      SwapKeepsArrangement(arr.items, orig, perm, j);
      SwapKeepsStability(t, perm, j);
      SwapKeepsSettled(t, j, end);
      SwapKeepsTracked(arr.items, t, j);
      ghost var swapped := SwapNext(arr.items, j);
      arr.Swap(j, j + 1);
      assert arr.items == swapped;
      t, perm := SwapNext(t, j), SwapNext(perm, j);
    }
  }

  /**
   * One pass of the inner loop over the first `end` slots: it leaves the
   * smallest count of the prefix at position end - 1.
   */
  method BubblePass(arr: BoundedArray<Frequentation>, end: nat, ghost orig: seq<Frequentation>,
                    ghost t0: seq<int>, ghost p0: seq<nat>)
    returns (ghost t: seq<int>, ghost perm: seq<nat>)
    requires arr.Valid() && 1 <= end <= |arr.items|
    requires Tracked(arr.items, t0) && Arranged(arr.items, orig, p0) && Stable(t0, p0)
    requires SettledFrom(t0, end)
    modifies arr
    ensures arr.Valid() && Tracked(arr.items, t) && Arranged(arr.items, orig, perm) && Stable(t, perm)
    ensures SettledFrom(t, end - 1)
  {
    t, perm := t0, p0;
    var j := 0;
    while j < end - 1
      invariant 0 <= j <= end - 1
      invariant arr.Valid() && Tracked(arr.items, t) && Arranged(arr.items, orig, perm) && Stable(t, perm)
      invariant SettledFrom(t, end)
      invariant forall a :: 0 <= a <= j ==> t[a] >= t[j]
    {
      t, perm := CompareAndSwap(arr, end, j, orig, t, perm);
      j := j + 1;
    }
  }

  /**
   * The bubble sort of the report: passes over a shrinking prefix, swapping
   * neighbours whose left entry was booked fewer times than the right one.
   * `perm` records where each entry came from.
   */
  method SortByTimes(arr: BoundedArray<Frequentation>) returns (ghost perm: seq<nat>)
    requires arr.Valid()
    modifies arr
    ensures arr.Valid() && Arranged(arr.items, old(arr.items), perm)
    ensures NonIncreasing(Times(arr.items)) && Stable(Times(arr.items), perm)
  {
    var n := |arr.items|;
    ghost var orig := arr.items;
    ghost var t := Times(arr.items);
    perm := Identity(n);
    IdentityArranges(orig, t);
    var i := 0;
    while i < n - 1
      invariant 0 <= i <= n && (n >= 1 ==> i <= n - 1)
      invariant arr.Valid() && Tracked(arr.items, t) && Arranged(arr.items, orig, perm) && Stable(t, perm)
      invariant SettledFrom(t, n - i)
    {
      t, perm := BubblePass(arr, n - i, orig, t, perm);
      i := i + 1;
    }
    SettledIsSorted(t, n - i);
    TrackedIsTimes(arr.items, t);
  }

  /** The arrangement that leaves every entry in place. */
  function Identity(n: nat): (p: seq<nat>)
    ensures |p| == n && forall k :: 0 <= k < n ==> p[k] == k
  {
    seq(n, k => k)
  }

  lemma IdentityArranges(s: seq<Frequentation>, t: seq<int>)
    requires |t| == |s|
    ensures Arranged(s, s, Identity(|s|)) && Stable(t, Identity(|s|))
  {
  }

  /** Once at most the first position is unsettled, the counts are sorted. */
  lemma SettledIsSorted(t: seq<int>, m: nat)
    requires m <= 1 && SettledFrom(t, m)
    ensures NonIncreasing(t)
  {
  }

  lemma TrackedIsTimes(items: seq<Frequentation>, t: seq<int>)
    requires Tracked(items, t)
    ensures Times(items) == t
  {
  }

  // ----- Gating -----

  /** The gate as the code writes it: the last report's year is not after
      this year and its month number is smaller than this month's. */
  predicate ReportDue(last: DateTime, today: DateTime) {
    last.year <= today.year && last.month < today.month
  }

  /** The evidently intended gate: today falls in a later month than the
      last report. */
  predicate ReportDueFixed(last: DateTime, today: DateTime) {
    last.year < today.year || (last.year == today.year && last.month < today.month)
  }

  /** The gate never opens early: whenever it lets a report through, today
      is in a later month than the last report. */
  lemma ReportDueIsNotEarly(last: DateTime, today: DateTime)
    requires ReportDue(last, today)
    ensures ReportDueFixed(last, today)
    ensures last.year * 12 + last.month < today.year * 12 + today.month
  {
  }

  /** In a later year the gate stays shut up to and including the month of
      the last report; after a December report it never opens again. */
  lemma ReportDueMissesLaterYears(last: DateTime, today: DateTime)
    requires last.year < today.year && today.month <= last.month
    ensures !ReportDue(last, today) && ReportDueFixed(last, today)
  {
  }

  /** A report made in December 2024 blocks the one of January 2025. */
  lemma ReportAfterDecemberCounterexample()
    ensures !ReportDue(DateTime(0, 0, 1, 12, 2024), DateTime(0, 0, 10, 1, 2025))
    ensures ReportDueFixed(DateTime(0, 0, 1, 12, 2024), DateTime(0, 0, 10, 1, 2025))
  {
  }

  /** After a December report the gate stays shut for good: no month of any
      year is after December. */
  lemma ReportAfterDecemberNeverDue(last: DateTime, today: DateTime)
    requires last.month == 12 && today.month <= 12
    ensures !ReportDue(last, today)
    ensures last.year < today.year ==> ReportDueFixed(last, today)
  {
  }

  /** For months in 1..12 the corrected gate opens exactly when today lies
      in a later calendar month. */
  lemma ReportDueFixedIsLaterMonth(last: DateTime, today: DateTime)
    requires 1 <= last.month <= 12 && 1 <= today.month <= 12
    ensures ReportDueFixed(last, today) <==> last.year * 12 + last.month < today.year * 12 + today.month
  {
    if last.year < today.year {
      assert last.year * 12 + 12 <= today.year * 12;
    } else if last.year > today.year {
      assert today.year * 12 + 12 <= last.year * 12;
    }
  }

  // ----- Text -----

  const TopHeading := "Top tree courses followed:\n"
  const OtherHeading := "Other courses:\n"

  /** Pieces written one after the other. */
  function Join<T>(ls: seq<seq<T>>): seq<T> {
    if ls == [] then [] else Join(ls[..|ls| - 1]) + ls[|ls| - 1]
  }

  /** The printed line of each entry, as the print callback writes it. */
  function PrintTexts(s: seq<Frequentation>): (ls: seq<string>)
    reads s
    ensures |ls| == |s|
  {
    if s == [] then [] else PrintTexts(s[..|s| - 1]) + [s[|s| - 1].PrintText()]
  }

  lemma {:induction false} JoinAppend<T>(u: seq<seq<T>>, v: seq<seq<T>>)
    ensures Join(u + v) == Join(u) + Join(v)
    decreases |v|
  {
    if v == [] {
      assert u + v == u;
    } else {
      var w := v[..|v| - 1];
      assert (u + v)[..|u + v| - 1] == u + w;
      JoinAppend(u, w);
    }
  }

  /** Writing one more piece after a prefix of the pieces. */
  lemma JoinSnoc<T>(prefix: seq<T>, ls: seq<seq<T>>, i: nat)
    requires i < |ls|
    ensures prefix + Join(ls[..i]) + ls[i] == prefix + Join(ls[..i + 1])
  {
    assert ls[..i + 1][..i] == ls[..i];
  }

  /** How many entries go into the top section. */
  function TopCount(n: nat): (top: nat)
    ensures top <= n && top <= 3 && (n >= 3 ==> top == 3)
  {
    if n < 3 then n else 3
  }

  /** The report file: the date of the report, the top section and the
      other courses. */
  function ReportText(today: DateTime, ordered: seq<Frequentation>): string
    reads ordered
  {
    ReportBody(ReportHeader(today), ordered)
  }

  /** What follows the header: the lines of the top entries, the second
      heading and the lines of the others. */
  function ReportBody(header: string, ordered: seq<Frequentation>): string
    reads ordered
  {
    var top := TopCount(|ordered|);
    var lines := PrintTexts(ordered);
    header + Join(lines[..top]) + OtherHeading + Join(lines[top..])
  }

  /** The date of the report on a line of its own, then the top heading. */
  function ReportHeader(today: DateTime): string {
    FormatDateTime(today) + "\n" + TopHeading
  }

  /** Writing the lines in two parts writes them all, each once, in order:
      the two sections of the report together hold every entry's line. */
  lemma JoinSplit<T>(ls: seq<seq<T>>, k: nat)
    requires k <= |ls|
    ensures Join(ls[..k]) + Join(ls[k..]) == Join(ls)
  {
    assert ls[..k] + ls[k..] == ls;
    JoinAppend(ls[..k], ls[k..]);
  }

  /** A loop of the report: appends the lines from position `from` up to
      `to`, one print callback at a time. */
  method AppendLines(prefix: string, lines: seq<string>, from: nat, to: nat) returns (text: string)
    requires from <= to <= |lines|
    ensures text == prefix + Join(lines[from..to])
    ensures from == 0 ==> text == prefix + Join(lines[..to])
    ensures to == |lines| ==> text == prefix + Join(lines[from..])
  {
    ghost var part := lines[from..to];
    text := prefix;
    var i := from;
    while i < to
      invariant from <= i <= to
      invariant text == prefix + Join(part[..i - from])
    {
      JoinSnoc(prefix, part, i - from);
      assert part[i - from] == lines[i];
      text := text + lines[i];
      i := i + 1;
    }
    assert part[..to - from] == part;
    assert from == 0 ==> part == lines[..to];
    assert to == |lines| ==> part == lines[from..];
  }

  /** The text of the report after its header: the lines of the (at most)
      three most booked entries, the second heading, the other lines. The
      first loop of the source stops at min(n, 3). */
  method WriteReport(header: string, ordered: seq<Frequentation>) returns (text: string)
    ensures text == ReportBody(header, ordered)
  {
    var top := TopCount(|ordered|);
    var lines := PrintTexts(ordered);
    text := AppendLines(header, lines, 0, top);
    text := text + OtherHeading;
    text := AppendLines(text, lines, top, |lines|);
  }

  /** The history copied into a fresh array and sorted there; the list itself
      keeps its order. */
  method SortedCopy(history: List<Frequentation>) returns (ordered: seq<Frequentation>, ghost perm: seq<nat>)
    requires history.Valid()
    ensures Arranged(ordered, history.Contents, perm)
    ensures NonIncreasing(Times(ordered)) && Stable(Times(ordered), perm)
  {
    var size := history.ElementCount();
    var temp := new BoundedArray<Frequentation>(size);
    history.CopyToArray(temp);
    perm := SortByTimes(temp);
    ordered := temp.items;
  }

  /** The report once the gate has opened: sorts, moves the last report
      date, writes the text. */
  method ReportOnce(user: User, history: List<Frequentation>, today: DateTime)
    returns (text: string, ordered: seq<Frequentation>, ghost perm: seq<nat>)
    requires history.Valid()
    modifies user
    ensures user.lastReportDate == today
    ensures text == ReportText(today, ordered)
    ensures Arranged(ordered, history.Contents, perm)
    ensures NonIncreasing(Times(ordered)) && Stable(Times(ordered), perm)
  {
    ordered, perm := SortedCopy(history);
    ghost var counts := Times(ordered);
    ghost var entries := history.Contents;
    text := StampAndWrite(user, today, ordered);
    assert Times(ordered) == counts && history.Contents == entries;
  }

  /** set_user_last_report_date, then the text of the report. */
  method StampAndWrite(user: User, today: DateTime, ordered: seq<Frequentation>) returns (text: string)
    modifies user
    ensures user.lastReportDate == today
    ensures text == ReportText(today, ordered)
  {
    user.lastReportDate := today;
    text := WriteReport(ReportHeader(today), ordered);
  }

  /**
   * report: when the gate opens, sorts a copy of the history, moves the
   * user's last report date to the start of today and produces the text of
   * the report; otherwise produces nothing and changes nothing.
   */
  method MakeReport(user: User, history: List<Frequentation>, now: DateTime)
    returns (output: Option<string>, ordered: seq<Frequentation>, ghost perm: seq<nat>)
    requires history.Valid()
    modifies user
    ensures var today := StartOfDay(now);
      !ReportDue(old(user.lastReportDate), today) ==>
        output == None && user.lastReportDate == old(user.lastReportDate)
    ensures var today := StartOfDay(now);
      ReportDue(old(user.lastReportDate), today) ==>
        user.lastReportDate == today
        && output == Some(ReportText(today, ordered))
        && Arranged(ordered, history.Contents, perm)
        && NonIncreasing(Times(ordered)) && Stable(Times(ordered), perm)
  {
    var today := DateTime(0, 0, now.day, now.month, now.year);
    var last := user.lastReportDate;
    var flagYear := last.year <= today.year;
    var flagMonth := last.month < today.month;
    if !flagYear || !flagMonth {
      return None, [], [];
    }
    var text;
    text, ordered, perm := ReportOnce(user, history, today);
    output := Some(text);
  }
}
