/**
 * The user-facing operations on the shared state: booking a course,
 * cancelling a booking, checking and renewing the subscription, and the
 * monthly report. "Now" is an input; what the program prints is returned
 * as an outcome or as text.
 */
module Workflow {
  import opened Wrappers
  import opened DateTime
  import opened BoundedArray
  import opened LinkedList
  import opened HashMap
  import opened Courses
  import opened History

  /** A history entry as a value. */
  datatype Entry = Entry(id: Key, name: string, times: Key)

  predicate EntryIdIs(e: Entry, id: Key) {
    e.id == id
  }

  /** The history list read as values. */
  ghost function View(s: seq<Frequentation>): (es: seq<Entry>)
    reads s
    ensures |es| == |s|
    ensures forall i :: 0 <= i < |s| ==>
      es[i] == Entry(s[i].courseId, s[i].courseName, s[i].timesBooked)
  {
    if s == [] then [] else [Entry(s[0].courseId, s[0].courseName, s[0].timesBooked)] + View(s[1..])
  }

  /** Searching the entries by id finds the same position as searching their
      values. */
  lemma {:induction false} SearchView(s: seq<Frequentation>, id: Key)
    ensures FirstMatch(s, id, EntryHasId) == FirstMatch(View(s), id, EntryIdIs)
    decreases |s|
  {
    if s != [] {
      assert View(s)[1..] == View(s[1..]);
      SearchView(s[1..], id);
    }
  }

  /** Appending an entry to the history appends its value to the view. */
  lemma ViewAppend(s: seq<Frequentation>, f: Frequentation)
    ensures View(s + [f]) == View(s) + [Entry(f.courseId, f.courseName, f.timesBooked)]
  {
    assert forall i :: 0 <= i < |s| ==> (s + [f])[i] == s[i];
  }

  /** No two elements of the sequence are the same object. */
  ghost predicate DistinctObjects<T>(s: seq<T>) {
    forall i, j :: 0 <= i < j < |s| ==> s[i] != s[j]
  }

  /** No two entries have the same id. */
  ghost predicate DistinctIds(h: seq<Entry>) {
    forall i, j :: 0 <= i < j < |h| ==> h[i].id != h[j].id
  }

  /** No two booked courses have the same id. */
  ghost predicate DistinctCourseIds(b: seq<Course>) {
    forall i, j :: 0 <= i < j < |b| ==> b[i].id != b[j].id
  }

  /** A count raised by one and stored back in 16 bits. */
  function Raise(times: Key): (r: Key)
    ensures times < 0xFFFF ==> r == times + 1
    ensures times == 0xFFFF ==> r == 0
  {
    (times + 1) % 0x1_0000
  }

  /** A count lowered by one and stored back in 16 bits. */
  function Lower(times: Key): (r: Key)
    ensures times > 0 ==> r == times - 1
    ensures times == 0 ==> r == 0xFFFF
  {
    (times - 1) % 0x1_0000
  }

  /** In 16 bits, lowering undoes raising. */
  lemma LowerUndoesRaise(times: Key)
    ensures Lower(Raise(times)) == times
  {
  }

  /** The history after a successful booking of course (id, name): a new
      entry with count 1, or the count of the existing entry raised by one
      (stored in 16 bits). */
  function HistoryAfterBook(h: seq<Entry>, id: Key, name: string): seq<Entry> {
    var k := FirstMatch(h, id, EntryIdIs);
    if k == -1 then h + [Entry(id, name, 1)]
    else h[k := h[k].(times := Raise(h[k].times))]
  }

  /** The history after cancelling a booking of course id: the entry's count
      lowered by one, and the entry removed once that count is zero or
      less. */
  function HistoryAfterCancel(h: seq<Entry>, id: Key): seq<Entry> {
    var k := FirstMatch(h, id, EntryIdIs);
    if k == -1 then h
    else if h[k].times - 1 <= 0 then RemoveAt(h, k)
    else h[k := h[k].(times := h[k].times - 1)]
  }

  /** Booking leaves every other entry as it was and ends with exactly one
      entry for the course when there was at most one before. */
  lemma BookKeepsDistinctIds(h: seq<Entry>, id: Key, name: string)
    requires DistinctIds(h)
    ensures DistinctIds(HistoryAfterBook(h, id, name))
    ensures FirstMatch(HistoryAfterBook(h, id, name), id, EntryIdIs) != -1
  {
    var k := FirstMatch(h, id, EntryIdIs);
    if k == -1 {
      var r := h + [Entry(id, name, 1)];
      assert r[|h|].id == id;
    } else {
      var r := h[k := h[k].(times := Raise(h[k].times))];
      assert r[k].id == id;
    }
  }

  lemma CancelKeepsDistinctIds(h: seq<Entry>, id: Key)
    requires DistinctIds(h)
    ensures DistinctIds(HistoryAfterCancel(h, id))
  {
  }

  /** Booking a course whose entry is at k raises that entry's count. */
  lemma BookAt(h: seq<Entry>, id: Key, name: string, k: nat)
    requires k < |h| && FirstMatch(h, id, EntryIdIs) == k
    ensures HistoryAfterBook(h, id, name) == h[k := h[k].(times := Raise(h[k].times))]
  {
  }

  /** Cancelling a course whose entry is at k lowers or removes that entry. */
  lemma CancelAt(h: seq<Entry>, id: Key, k: nat)
    requires k < |h| && FirstMatch(h, id, EntryIdIs) == k
    ensures HistoryAfterCancel(h, id) ==
      if h[k].times - 1 <= 0 then RemoveAt(h, k) else h[k := h[k].(times := h[k].times - 1)]
  {
  }

  /** A booking followed by the cancellation of the same course gives the
      history back, unless the count was 0 (the cancellation then deletes
      the entry) or 65535 (raising it wraps to 0). */
  lemma BookThenCancelRestoresHistory(h: seq<Entry>, id: Key, name: string)
    requires var k := FirstMatch(h, id, EntryIdIs); k != -1 ==> 1 <= h[k].times < 0xFFFF
    ensures HistoryAfterCancel(HistoryAfterBook(h, id, name), id) == h
  {
    var k := FirstMatch(h, id, EntryIdIs);
    if k == -1 {
      var b := h + [Entry(id, name, 1)];
      FirstMatchAppend(h, Entry(id, name, 1), id, EntryIdIs);
      CancelAt(b, id, |h|);
      assert RemoveAt(b, |h|) == h;
    } else {
      var e := h[k].(times := Raise(h[k].times));
      assert e.times == h[k].times + 1;
      BookAt(h, id, name, k);
      FirstMatchUpdate(h, k, e, id, EntryIdIs);
      CancelAt(h[k := e], id, k);
      assert h[k := e][k := e.(times := e.times - 1)] == h;
    }
  }

  /** An entry with count 0 does not survive a booking and a cancellation:
      the cancellation deletes it. */
  lemma BookThenCancelDropsZeroEntry(h: seq<Entry>, id: Key, name: string)
    requires var k := FirstMatch(h, id, EntryIdIs); k != -1 && h[k].times == 0
    ensures HistoryAfterCancel(HistoryAfterBook(h, id, name), id)
      == RemoveAt(h, FirstMatch(h, id, EntryIdIs))
  {
    var k := FirstMatch(h, id, EntryIdIs);
    var e := h[k].(times := Raise(h[k].times));
    assert e.times == 1;
    BookAt(h, id, name, k);
    FirstMatchUpdate(h, k, e, id, EntryIdIs);
    CancelAt(h[k := e], id, k);
    RemoveAtUpdate(h, k, e);
  }

  /** A booking appends the course; a cancellation of the same id then removes
      exactly that course again. */
  lemma BookThenCancelRestoresBooked(b: seq<Course>, c: Course)
    requires FirstMatch(b, c.id, CourseHasId) == -1
    ensures FirstMatch(b + [c], c.id, CourseHasId) == |b|
    ensures RemoveAt(b + [c], |b|) == b
  {
    FirstMatchAppend(b, c, c.id, CourseHasId);
  }

  /** A first booking of the course: a new entry with count 1 at the end. */
  method AppendEntry(history: List<Frequentation>, course: Course)
    requires history.Valid() && |history.Contents| < MaxCount
    requires DistinctObjects(history.Contents)
    modifies history.Repr
    ensures history.Valid() && fresh(history.Repr - old(history.Repr))
    ensures DistinctObjects(history.Contents)
    ensures View(history.Contents) == old(View(history.Contents)) + [Entry(course.id, course.name, 1)]
  {
    ghost var s := history.Contents;
    ghost var h := View(s);
    var f := new Frequentation(course.id, course.name, 1);
    assert forall i :: 0 <= i < |s| ==> s[i] != f && s[i] !in history.Repr;
    history.Add(f);
    assert View(s) == h && history.Contents == s + [f];
    assert DistinctObjects(history.Contents);
    ViewAppend(s, f);
  }

  /** A further booking of a course whose entry is at idx: that entry's
      count goes up by one, in 16 bits, and no other entry changes. */
  method RaiseEntry(history: List<Frequentation>, idx: nat)
    requires history.Valid() && idx < |history.Contents|
    requires DistinctObjects(history.Contents)
    modifies history.Contents[idx]
    ensures history.Valid()
    ensures var h := old(View(history.Contents));
      View(history.Contents) == h[idx := h[idx].(times := Raise(h[idx].times))]
  {
    ghost var s := history.Contents;
    ghost var h := View(s);
    var slot := history.GetAt(idx);
    var f := slot.element;
    f.SetTimesBooked(f.timesBooked + 1);
    assert history.Valid();
    ghost var raised := h[idx := h[idx].(times := Raise(h[idx].times))];
    forall i | 0 <= i < |s|
      ensures View(s)[i] == raised[i]
    {
      if i != idx {
        assert s[i] != f;
      }
    }
    assert View(s) == raised && history.Contents == s;
  }

  /** Records one more booking of the course in the history: a new entry
      with count 1 when none has its id, otherwise that entry's count raised
      by one. */
  method RecordBooking(history: List<Frequentation>, course: Course)
    requires history.Valid() && |history.Contents| < MaxCount
    requires DistinctObjects(history.Contents)
    modifies history.Repr, history.Contents
    ensures history.Valid() && fresh(history.Repr - old(history.Repr))
    ensures DistinctObjects(history.Contents)
    ensures View(history.Contents) == HistoryAfterBook(old(View(history.Contents)), course.id, course.name)
  {
    ghost var h := View(history.Contents);
    SearchView(history.Contents, course.id);
    var idx := history.Search(course.id, EntryHasId);
    if idx == -1 {
      AppendEntry(history, course);
    } else {
      BookAt(h, course.id, course.name, idx);
      RaiseEntry(history, idx);
    }
  }

  /** Lines 57-59 of action_book_course: the course goes to the end of the
      booked list and one more of its seats is taken. */
  method TakeSeat(booked: List<Course>, course: Course)
    requires booked.Valid() && |booked.Contents| < MaxCount
    requires course.seatsBooked < course.seatsTotal
    modifies booked.Repr, course
    ensures booked.Valid() && fresh(booked.Repr - old(booked.Repr))
    ensures booked.Contents == old(booked.Contents) + [course]
    ensures course.seatsBooked == old(course.seatsBooked) + 1
  {
    booked.Add(course);
    course.SetSeatsBooked(course.seatsBooked + 1);
  }

  /** The effect of an accepted booking: the course goes to the end of the
      booked list, one more of its seats is taken, and the history records
      it. */
  method CommitBooking(booked: List<Course>, history: List<Frequentation>, course: Course)
    requires booked.Valid() && history.Valid() && booked.Repr !! history.Repr
    requires |booked.Contents| < MaxCount && |history.Contents| < MaxCount
    requires DistinctObjects(history.Contents)
    requires course.seatsBooked < course.seatsTotal
    modifies booked.Repr, history.Repr, history.Contents, course
    ensures booked.Valid() && history.Valid()
    ensures fresh(booked.Repr - old(booked.Repr)) && fresh(history.Repr - old(history.Repr))
    ensures booked.Repr !! history.Repr && DistinctObjects(history.Contents)
    ensures booked.Contents == old(booked.Contents) + [course]
    ensures course.seatsBooked == old(course.seatsBooked) + 1
    ensures View(history.Contents) == HistoryAfterBook(old(View(history.Contents)), course.id, course.name)
  {
    ghost var h := View(history.Contents);
    ghost var entries: seq<object> := history.Contents;
    assert forall i :: 0 <= i < |entries| ==> entries[i] !in booked.Repr;
    assert history !in booked.Repr;
    TakeSeat(booked, course);
    assert history.Valid() && View(history.Contents) == h;
    assert forall o :: o in booked.Repr ==> o !in history.Contents && o !in history.Repr;
    assert booked !in history.Repr && course !in history.Repr && course !in entries;
    label recorded:
    RecordBooking(history, course);
    assert booked.Repr == old@recorded(booked.Repr) && unchanged@recorded(booked.Repr);
  }

  /** What action_book_course reports. */
  datatype BookResult = Expired | NotFound | AlreadyBooked | NoSeats | Booked

  /** The part of action_book_course after the course is found: refused when
      the course is already booked or has no free seat, committed
      otherwise. */
  method BookFound(courseId: Key, course: Course, booked: List<Course>, history: List<Frequentation>)
    returns (result: BookResult)
    requires booked.Valid() && history.Valid() && booked.Repr !! history.Repr
    requires |booked.Contents| < MaxCount && |history.Contents| < MaxCount
    requires DistinctObjects(history.Contents)
    modifies booked.Repr, history.Repr, history.Contents, course
    ensures booked.Valid() && history.Valid()
    ensures fresh(booked.Repr - old(booked.Repr)) && fresh(history.Repr - old(history.Repr))
    ensures booked.Repr !! history.Repr && DistinctObjects(history.Contents)
    ensures result in {AlreadyBooked, NoSeats, Booked}
    ensures result == AlreadyBooked <==> FirstMatch(old(booked.Contents), courseId, CourseHasId) != -1
    ensures result == NoSeats <==> result != AlreadyBooked && old(course.seatsBooked) >= course.seatsTotal
    ensures result != Booked ==>
      booked.Contents == old(booked.Contents) && history.Contents == old(history.Contents)
      && View(history.Contents) == old(View(history.Contents)) && course.seatsBooked == old(course.seatsBooked)
    ensures result == Booked ==>
      booked.Contents == old(booked.Contents) + [course]
      && course.seatsBooked == old(course.seatsBooked) + 1 <= course.seatsTotal
      && View(history.Contents) == HistoryAfterBook(old(View(history.Contents)), course.id, course.name)
  {
    var duplicate := booked.Search(courseId, CourseHasId);
    if duplicate != -1 {
      return AlreadyBooked;
    }
    if course.seatsBooked >= course.seatsTotal {
      return NoSeats;
    }
    CommitBooking(booked, history, course);
    return Booked;
  }

  /** The conversion of an int id to the uint16_t that get_course and
      create_course take: the value modulo 65536, so 65537 is id 1 and -1 is
      id 65535. */
  function KeyOf(id: int): (k: Key)
    ensures 0 <= id < 0x1_0000 ==> k == id
    ensures (id - k) % 0x1_0000 == 0
  {
    id % 0x1_0000
  }

  /** Ids outside 0..65535 book the course whose id they wrap to. */
  lemma KeyOfWraps()
    ensures KeyOf(0x1_0001) == 1 && KeyOf(-1) == 0xFFFF
  {
  }

  /** action_book_course: refused, in this order, when the subscription ended
      before now, when the id is not in the course table, when the course is
      already booked, and when it has no free seat; otherwise the course is
      appended to the booked list, its booked seats go up by one, and the
      history records the booking. Of the courses in the table, only the one
      with the id may change. The id is an int that the code hands to
      get_course and create_course, whose parameters are uint16_t: it is
      looked up modulo 65536. */
  method BookCourse(courseId: int, booked: List<Course>, history: List<Frequentation>,
                    courses: HashMap<Course>, user: User, now: DateTime)
    returns (result: BookResult)
    requires booked.Valid() && history.Valid() && courses.Valid()
    requires booked.Repr !! history.Repr
    requires |booked.Contents| < MaxCount && |history.Contents| < MaxCount
    requires DistinctObjects(history.Contents)
    modifies booked.Repr, history.Repr, history.Contents
    modifies if KeyOf(courseId) in courses.Contents then {courses.Contents[KeyOf(courseId)]} else {}
    ensures booked.Valid() && history.Valid()
    ensures fresh(booked.Repr - old(booked.Repr)) && fresh(history.Repr - old(history.Repr))
    ensures booked.Repr !! history.Repr && DistinctObjects(history.Contents)
    ensures result == Expired <==> CompareDateTime(now, old(user.subscription.endDate)) == 1
    ensures result == NotFound <==> result != Expired && KeyOf(courseId) !in old(courses.Contents)
    ensures result == AlreadyBooked <==>
      result !in {Expired, NotFound} && FirstMatch(old(booked.Contents), KeyOf(courseId), CourseHasId) != -1
    ensures result == NoSeats <==>
      result !in {Expired, NotFound, AlreadyBooked}
      && old(courses.Contents[KeyOf(courseId)].seatsBooked >= courses.Contents[KeyOf(courseId)].seatsTotal)
    ensures result != Booked ==>
      booked.Contents == old(booked.Contents) && history.Contents == old(history.Contents)
      && View(history.Contents) == old(View(history.Contents))
      && (KeyOf(courseId) in old(courses.Contents) ==>
            old(courses.Contents)[KeyOf(courseId)].seatsBooked == old(courses.Contents[KeyOf(courseId)].seatsBooked))
    ensures result == Booked ==>
      var c := old(courses.Contents)[KeyOf(courseId)];
      booked.Contents == old(booked.Contents) + [c]
      && c.seatsBooked == old(c.seatsBooked) + 1 <= c.seatsTotal
      && View(history.Contents) == HistoryAfterBook(old(View(history.Contents)), c.id, c.name)
  {
    if CompareDateTime(now, user.subscription.endDate) == 1 {
      return Expired;
    }
    var key := KeyOf(courseId);
    var found := courses.Get(key);
    if found.None? {
      return NotFound;
    }
    var course := found.value;
    ghost var entries: seq<object> := history.Contents;
    assert course !in booked.Repr && course !in history.Repr && course !in entries;
    result := BookFound(key, course, booked, history);
  }

  /** The first step of a cancellation in the history: the entry at idx
      gets its count minus one, stored in 16 bits; `times` is that count
      before the store. */
  method LowerEntry(history: List<Frequentation>, idx: nat) returns (times: int)
    requires history.Valid() && idx < |history.Contents|
    requires DistinctObjects(history.Contents)
    modifies history.Contents[idx]
    ensures history.Valid()
    ensures var h := old(View(history.Contents));
      times == h[idx].times - 1
      && View(history.Contents) == h[idx := h[idx].(times := Lower(h[idx].times))]
  {
    ghost var s := history.Contents;
    ghost var h := View(s);
    var slot := history.GetAt(idx);
    var freq := slot.element;
    assert freq == s[idx] && freq.timesBooked == h[idx].times;
    times := freq.timesBooked - 1;
    freq.SetTimesBooked(times);
    assert history.Valid() && freq.timesBooked == Lower(h[idx].times);
    ghost var lowered := h[idx := h[idx].(times := Lower(h[idx].times))];
    forall i | 0 <= i < |s|
      ensures View(s)[i] == lowered[i]
    {
      if i != idx {
        assert s[i] != freq;
      }
    }
    assert View(s) == lowered && history.Contents == s;
  }

  /** Removes the history entry at idx; the entry goes to
      delete_frequentation. */
  method DropEntry(history: List<Frequentation>, idx: nat)
    requires history.Valid() && idx < |history.Contents|
    requires DistinctObjects(history.Contents)
    modifies history.Repr
    ensures history.Valid() && history.Repr <= old(history.Repr)
    ensures DistinctObjects(history.Contents)
    ensures View(history.Contents) == RemoveAt(old(View(history.Contents)), idx)
  {
    ghost var s := history.Contents;
    ghost var h := View(s);
    assert forall i :: 0 <= i < |s| ==> s[i] !in history.Repr;
    var disposed := history.DeleteAt(idx, true);
    assert forall i :: 0 <= i < |s| ==> s[i].timesBooked == h[i].times;
    forall i | 0 <= i < |history.Contents|
      ensures View(history.Contents)[i] == RemoveAt(h, idx)[i]
    {
      if i < idx {
        assert history.Contents[i] == s[i];
      } else {
        assert history.Contents[i] == s[i + 1];
      }
    }
  }

  /** A cancellation of the course whose history entry is at hidx: the
      count is lowered, and the entry removed when that count is zero or
      less. */
  method CancelEntry(history: List<Frequentation>, id: Key, hidx: nat)
    requires history.Valid() && DistinctObjects(history.Contents)
    requires hidx < |history.Contents| && FirstMatch(View(history.Contents), id, EntryIdIs) == hidx
    modifies history.Repr, history.Contents
    ensures history.Valid() && history.Repr <= old(history.Repr)
    ensures DistinctObjects(history.Contents)
    ensures View(history.Contents) == HistoryAfterCancel(old(View(history.Contents)), id)
  {
    ghost var h := View(history.Contents);
    ghost var lowered := h[hidx].(times := Lower(h[hidx].times));
    CancelAt(h, id, hidx);
    var times := LowerEntry(history, hidx);
    assert View(history.Contents) == h[hidx := lowered];
    if times <= 0 {
      DropEntry(history, hidx);
      RemoveAtUpdate(h, hidx, lowered);
    } else {
      assert lowered == h[hidx].(times := h[hidx].times - 1);
    }
  }

  /** Lines 102-111 of action_cancel_course: the course's history entry, if
      any, has its count lowered by one and is removed once the count is
      zero or less. */
  method RecordCancellation(history: List<Frequentation>, id: Key)
    requires history.Valid() && DistinctObjects(history.Contents)
    modifies history.Repr, history.Contents
    ensures history.Valid() && history.Repr <= old(history.Repr)
    ensures DistinctObjects(history.Contents)
    ensures View(history.Contents) == HistoryAfterCancel(old(View(history.Contents)), id)
  {
    SearchView(history.Contents, id);
    var hidx := history.Search(id, EntryHasId);
    if hidx != -1 {
      CancelEntry(history, id, hidx);
    }
  }

  /** What action_cancel_course reports. */
  datatype CancelResult = NotBooked | Cancelled

  /** action_cancel_course after the id is read: nothing happens when no
      booked course has the id; otherwise the first such course leaves the
      booked list, one of its seats is freed (in 16 bits), and the history
      records the cancellation. Of the booked courses, only that one may
      change. */
  method CancelCourse(courseId: Key, booked: List<Course>, history: List<Frequentation>)
    returns (result: CancelResult)
    requires booked.Valid() && history.Valid() && booked.Repr !! history.Repr
    requires DistinctObjects(history.Contents)
    modifies booked.Repr, history.Repr, history.Contents
    modifies var k := FirstMatch(booked.Contents, courseId, CourseHasId);
      if k == -1 then {} else {booked.Contents[k]}
    ensures booked.Valid() && history.Valid()
    ensures booked.Repr <= old(booked.Repr) && history.Repr <= old(history.Repr)
    ensures DistinctObjects(history.Contents)
    ensures result == NotBooked <==> FirstMatch(old(booked.Contents), courseId, CourseHasId) == -1
    ensures result == NotBooked ==>
      booked.Contents == old(booked.Contents) && history.Contents == old(history.Contents)
      && View(history.Contents) == old(View(history.Contents))
    ensures result == Cancelled ==>
      var k := FirstMatch(old(booked.Contents), courseId, CourseHasId);
      var c := old(booked.Contents)[k];
      booked.Contents == RemoveAt(old(booked.Contents), k)
      && c.seatsBooked == Lower(old(c.seatsBooked))
      && View(history.Contents) == HistoryAfterCancel(old(View(history.Contents)), courseId)
  {
    var idx := booked.Search(courseId, CourseHasId);
    if idx == -1 {
      return NotBooked;
    }
    var slot := booked.GetAt(idx);
    var course := slot.element;
    assert course == old(booked.Contents)[idx];
    ghost var h := old(View(history.Contents));
    assert View(history.Contents) == h;
    CommitCancellation(booked, history, idx, course);
    assert View(history.Contents) == HistoryAfterCancel(h, courseId);
    return Cancelled;
  }

  /** Lines 97-100 of action_cancel_course: the booked course at idx leaves
      the list, without a delete callback, and one of its seats is freed. */
  method ReleaseBooking(booked: List<Course>, idx: nat, course: Course)
    requires booked.Valid() && idx < |booked.Contents| && course == booked.Contents[idx]
    modifies booked.Repr, course
    ensures booked.Valid() && booked.Repr <= old(booked.Repr)
    ensures booked.Contents == RemoveAt(old(booked.Contents), idx)
    ensures course.seatsBooked == Lower(old(course.seatsBooked))
  {
    var disposed := booked.DeleteAt(idx, false);
    assert booked.Contents == RemoveAt(old(booked.Contents), idx);
    course.SetSeatsBooked(course.seatsBooked - 1);
  }

  /** The effect of a cancellation of the booked course at idx. */
  method CommitCancellation(booked: List<Course>, history: List<Frequentation>, idx: nat, course: Course)
    requires booked.Valid() && history.Valid() && booked.Repr !! history.Repr
    requires DistinctObjects(history.Contents)
    requires idx < |booked.Contents| && course == booked.Contents[idx]
    modifies booked.Repr, history.Repr, history.Contents, course
    ensures booked.Valid() && history.Valid()
    ensures booked.Repr <= old(booked.Repr) && history.Repr <= old(history.Repr)
    ensures DistinctObjects(history.Contents)
    ensures booked.Contents == RemoveAt(old(booked.Contents), idx)
    ensures course.seatsBooked == Lower(old(course.seatsBooked))
    ensures View(history.Contents) == HistoryAfterCancel(old(View(history.Contents)), course.id)
  {
    ghost var h := View(history.Contents);
    ghost var entries: seq<object> := history.Contents;
    assert forall i :: 0 <= i < |entries| ==> entries[i] !in booked.Repr;
    assert history !in booked.Repr;
    ReleaseBooking(booked, idx, course);
    assert history.Valid() && View(history.Contents) == h;
    assert forall o :: o in booked.Repr ==> o !in history.Contents && o !in history.Repr;
    assert booked !in history.Repr && course !in history.Repr && course !in entries;
    label recorded:
    RecordCancellation(history, course.id);
    assert booked.Repr == old@recorded(booked.Repr) && unchanged@recorded(booked.Repr);
  }
}
