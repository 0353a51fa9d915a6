/**
 * A history entry: how many times the user has booked a course, with the
 * course's id and a private copy of its name, and the two text forms the
 * program writes (the saved record and the printed line).
 */
module History {
  import opened Decimal
  import opened HashMap

  /** The saved record: "<id>,<name>,<times>," */
  function SaveLine(id: Key, name: string, times: Key): string {
    IntToStr(id) + ("," + (name + ("," + (IntToStr(times) + ","))))
  }

  const PrintPrefix := "History Entry - ID: "

  /** The printed line: "History Entry - ID: <id>, Name: <name>, Times Booked: <times>\n" */
  function PrintLine(id: Key, name: string, times: Key): string {
    PrintPrefix + (IntToStr(id) + (", Name: " + (name + (", Times Booked: " + (IntToStr(times) + "\n")))))
  }

  class Frequentation {
    const courseId: Key
    const courseName: string
    var timesBooked: Key

    /** create_frequentation: the name is copied, so later changes to the
        caller's string do not reach the entry. */
    constructor (courseId: Key, courseName: string, timesBooked: Key)
      ensures this.courseId == courseId && this.courseName == courseName
      ensures this.timesBooked == timesBooked
    {
      this.courseId := courseId;
      this.courseName := courseName;
      this.timesBooked := timesBooked;
    }

    /** set_frequentation_times_booked: the int argument lands in a uint16
        field; nothing else changes. */
    method SetTimesBooked(value: int)
      modifies this
      ensures timesBooked == value % 0x1_0000
    {
      timesBooked := value % 0x1_0000;
    }

    /** save_frequentation_callback. */
    function SaveText(): string
      reads this
    {
      SaveLine(courseId, courseName, timesBooked)
    }

    /** print_frequentation_callback. */
    function PrintText(): string
      reads this
    {
      PrintLine(courseId, courseName, timesBooked)
    }
  }

  /** compare_course_id on history entries: equality of the course id. */
  predicate EntryHasId(f: Frequentation, id: Key) {
    f.courseId == id
  }

  /** The fields of a line separated by `sep`, as the reloader's successive
      separator calls cut it. */
  function Split(s: string, sep: char): (parts: seq<string>)
    ensures |parts| >= 1
    decreases |s|
  {
    if s == [] then [""]
    else if s[0] == sep then [""] + Split(s[1..], sep)
    else
      var rest := Split(s[1..], sep);
      [[s[0]] + rest[0]] + rest[1..]
  }

  /** A field without the separator followed by the separator is cut off as
      the first field. */
  lemma {:induction false} SplitField(a: string, sep: char, b: string)
    requires sep !in a
    ensures Split(a + ([sep] + b), sep) == [a] + Split(b, sep)
    decreases |a|
  {
    if a == [] {
      assert a + ([sep] + b) == [sep] + b;
      assert ([sep] + b)[1..] == b;
    } else {
      assert (a + ([sep] + b))[1..] == a[1..] + ([sep] + b);
      SplitField(a[1..], sep, b);
      assert [a[0]] + a[1..] == a;
    }
  }

  lemma NoCommaInDigits(s: string)
    requires AllDigits(s)
    ensures ',' !in s
  {
  }

  /** Cutting a saved record at its commas gives back the id, the name and
      the count, provided the name holds no comma. */
  lemma SaveLineRoundTrip(id: Key, name: string, times: Key)
    requires ',' !in name
    ensures Split(SaveLine(id, name, times), ',') == [IntToStr(id), name, IntToStr(times), ""]
    ensures DigitsValue(IntToStr(id)) == id && DigitsValue(IntToStr(times)) == times
  {
    NoCommaInDigits(IntToStr(id));
    NoCommaInDigits(IntToStr(times));
    assert Split("", ',') == [""];
    assert IntToStr(times) + "," == IntToStr(times) + ([','] + "");
    SplitField(IntToStr(times), ',', "");
    SplitField(name, ',', IntToStr(times) + ",");
    SplitField(IntToStr(id), ',', name + ("," + (IntToStr(times) + ",")));
    DigitsValueOfNatToStr(id);
    DigitsValueOfNatToStr(times);
  }

  /** The first comma-separated field of a printed line, after the fixed
      prefix, is the id. */
  lemma PrintLineIdField(id: Key, name: string, times: Key)
    ensures |PrintPrefix| <= |PrintLine(id, name, times)|
    ensures Split(PrintLine(id, name, times)[|PrintPrefix|..], ',')[0] == IntToStr(id)
  {
    var rest := " Name: " + (name + (", Times Booked: " + (IntToStr(times) + "\n")));
    assert ", Name: " + (name + (", Times Booked: " + (IntToStr(times) + "\n"))) == [','] + rest;
    var tail := IntToStr(id) + ([','] + rest);
    assert PrintLine(id, name, times) == PrintPrefix + tail;
    assert (PrintPrefix + tail)[|PrintPrefix|..] == tail;
    NoCommaInDigits(IntToStr(id));
    SplitField(IntToStr(id), ',', rest);
  }

  /** The printed line identifies the course: two lines that are equal come
      from entries with the same id. */
  lemma PrintLineDeterminesId(id1: Key, name1: string, times1: Key, id2: Key, name2: string, times2: Key)
    requires PrintLine(id1, name1, times1) == PrintLine(id2, name2, times2)
    ensures id1 == id2
  {
    PrintLineIdField(id1, name1, times1);
    PrintLineIdField(id2, name2, times2);
    NatToStrInjective(id1, id2);
  }
}
