# Gym course booking: a verified model of its core

The program manages a user's gym subscription and course bookings. Courses sit in
an open-addressing hash map keyed by a 16-bit course id. A user's booked courses
and booking history are generic singly linked lists. Dates are five-field
records. Booking or cancelling a course updates seats, the booked list and the
history. An expired subscription is renewed on request. At most once a month, a
report sorts the history by how often each course was booked.

The model is written in Dafny. Every part of the C code that changes state in
place is a class with methods:
- the generic linked list;
- the hash map over its slot array;
- the course, history-entry, subscription and user records the workflow mutates;
- the report's array and its bubble sort;
- the older id-only booking list.

Each method is proved against a specification function or a ghost view of the
state. The parts of the C code that only compute a value are functions and
lemmas:
- the datetime comparisons and the text layout of a datetime;
- the hash function;
- the string utilities that parse and compare "dd/mm/yyyy" and "mm:hh" texts.

Modules, one per concern:

| file | module | models |
|---|---|---|
| wrappers.dfy | `Wrappers` | the option type |
| decimal.dfy | `Decimal` | decimal digit strings as `printf("%d")` writes them |
| datetime.dfy | `DateTime` | `source/datetime.c`: comparisons, print layout, the loaders' `sscanf` |
| bounded_array.dfy | `BoundedArray` | the fixed-capacity array of references the report sorts |
| linked_list.dfy | `LinkedList` | `source/linked_list.c` |
| hash_map.dfy | `HashMap` | `source/hash_map.c` |
| course.dfy | `Courses` | the course, subscription and user records the workflow changes |
| frequentation.dfy | `History` | `source/frequentation.c` |
| workflow.dfy | `Workflow` | `action_book_course`, `action_cancel_course` in `source/main_function.c` |
| renewal.dfy | `Renewal` | `action_check_subscription` in `source/main_function.c` |
| report.dfy | `Report` | `report` in `source/main_function.c` |
| booking.dfy | `Booking` | `source/booking.c` |
| date_strings.dfy | `DateStrings` | `source/utils.c` |

How the C code maps to Dafny:
- Each reading of the clock is a parameter (`now`; `checked` for the first of the two readings in `action_check_subscription`).
- The outcome of each core operation is returned as a value, and the report's
  text is returned.
- A `uint16` that the code increments, decrements or assigns from an `int` is
  reduced modulo 65536 explicitly. So is the `int` course id that
  `action_book_course` hands to the `uint16_t` parameters of `get_course` and
  `create_course` (`Workflow.KeyOf`).
- C's truncating `%` is written out as `CRem`.
- The callbacks the lists receive are modelled in one of two ways. A comparison
  callback becomes a total function; `compare_course_id` becomes id equality. A
  delete callback becomes the value it would be handed.

Where a comment in a header and the code disagree, the model follows the code:
- `delete_booking` crashes on an absent id, contrary to its header comment.
- `compare_date` in `source/utils.c` does not follow the before/after contract in
  `include/utils.h`.

The renewal month follows the code's `(month + 1) % 12`:
- November gives month 0;
- December gives January of the same year.

Each of these is listed under Findings.

## Model

| member | source | states |
|---|---|---|
| Decimal.IntToStr | source/datetime.c:230-236 | `%d` text of a number: at least one character; the digits of n when n >= 0, otherwise a minus sign followed by digits |
| Decimal.DigitsValueOfNatToStr | source/main_function.c:366 | reading back the digits written for n gives n |
| Decimal.NatToStrInjective | source/frequentation.c:33-37 | two numbers with the same decimal text are equal |
| DateTime.CompareFields | source/datetime.c:54-63 | the comparison loop over equally long field lists answers -1, 0 or 1, and 0 exactly when the lists are equal |
| DateTime.CompareDate | source/datetime.c:37-64 | -1 exactly when the first date is strictly before the second (year, then month, then day), 1 exactly when after, 0 exactly when the dates are equal |
| DateTime.CompareTime | source/datetime.c:86-111 | -1 exactly when the first time is strictly before the second (hour, then minute), 1 exactly when after, 0 exactly when hour and minute agree |
| DateTime.CompareDateTime | source/datetime.c:131-137 | -1 exactly when the first datetime is strictly before the second, 1 exactly when after, 0 exactly when all five fields are equal |
| DateTime.CompareFieldsConcat | source/datetime.c:131-137 | comparing concatenated field lists is the prefix comparison, falling through to the suffixes only on a tie |
| DateTime.CompareFieldsAntisymmetric | source/datetime.c:37-64 | swapping the arguments negates the answer |
| DateTime.CompareFieldsTransitive | source/datetime.c:37-64 | "not after" is transitive |
| DateTime.CompareDateTimeIsLexicographic | source/datetime.c:131-137 | compare_datetime is the lexicographic order on (year, month, day, hour, minute) |
| DateTime.CompareDateTimeAntisymmetric | source/datetime.c:131-137 | swapping the datetimes negates the answer |
| DateTime.CompareDateTimeTransitive | source/datetime.c:131-137 | "not after" on datetimes is transitive |
| DateTime.ClockReading | source/datetime.c:156-176 | a clock reading has minute 1..60, hour 1..24, day 1..31 and month 1..12 |
| DateTime.ClockReadingKeepsOrder | source/datetime.c:169-173 | compare_datetime on two readings answers -1 exactly when the first local time is earlier, and 0 exactly when they are the same minute |
| DateTime.SkipSpaces | source/main_function.c:366 | a white-space directive leaves a suffix that is empty or starts with a non-space |
| DateTime.DigitRun | source/main_function.c:366 | a `%<w>d` conversion reads at most w characters, all digits, and stops early only at a non-digit |
| DateTime.Scan | source/main_function.c:366 | `sscanf` converts at most as many numbers as the format has conversions |
| DateTime.LoadDateTime | source/main_function.c:366-371 | a line loads exactly when all five numbers convert; the first number becomes the hour |
| DateTime.ScanRender | source/main_function.c:366 | scanning a text rendered from numbers that fit their widths gives those numbers back, for any unambiguous format |
| DateTime.DigitRunExact | source/main_function.c:366 | a digit run followed by a non-digit is read in full |
| DateTime.DateTimeFormatUnambiguous | source/main_function.c:366 | the loaders' format "%2d:%2d %2d/%2d/%4d" is unambiguous |
| DateTime.LayoutIsRendered | source/datetime.c:229-237 | the printed text "a:b c/d/e" is the loaders' format filled with a, b, c, d, e |
| DateTime.LayoutFits | source/datetime.c:229-237 | two-digit fields and a four-digit year fit the format's widths |
| DateTime.ScanLayout | source/datetime.c:229-237 | the loader reads a printed "a:b c/d/e" back as a, b, c, d, e |
| DateTime.PrintThenLoadSwapsHourAndMinute | source/datetime.c:229-237 | printing a datetime and loading it back exchanges hour and minute |
| DateTime.PrintThenLoadCounterexample | source/datetime.c:230-236 | 10:30 on 15/6/2025 comes back as 30:10 |
| DateTime.PrintHourFirstThenLoad | source/main_function.c:366-371 | with the hour printed first, print then load is the identity |
| BoundedArray.BoundedArray.Add | include/array.h:29-46 | the element goes to the next free slot, after the existing ones, when capacity remains (the `array_add` that `ll_copy_list_to_array` calls) |
| BoundedArray.BoundedArray.Swap | source/main_function.c:646 | exactly the two slots exchange their references |
| LinkedList.FirstMatch | source/linked_list.c:87-100 | -1 exactly when no element matches; otherwise the index of a matching element with no match before it |
| LinkedList.FirstMatchAppend | source/linked_list.c:50-67 | appending keeps an earlier first match; without one, the new element is the match exactly when it matches |
| LinkedList.FirstMatchUpdate | source/linked_list.c:87-100 | replacing the first match by another matching element keeps its index |
| LinkedList.RemoveAt | source/linked_list.c:126-155 | removing index i shortens by one, keeps the elements before i and shifts the ones after it down by one |
| LinkedList.RemoveAtUpdate | source/linked_list.c:126-155 | removing a position makes an earlier update of it irrelevant |
| LinkedList.List.constructor | source/linked_list.c:23-31 | a new list is valid and empty, with a null head and count 0 |
| LinkedList.List.ElementCount | source/linked_list.c:114-116 | the count is the number of elements |
| LinkedList.List.Add | source/linked_list.c:50-67 | contents become old contents followed by the element; the count rises by one; the chain stays valid |
| LinkedList.List.Search | source/linked_list.c:87-100 | returns the index of the first element the callback matches, or -1 |
| LinkedList.List.GetAt | source/linked_list.c:102-112 | the node at the index when it exists; null past the count |
| LinkedList.List.CopyToArray | source/linked_list.c:118-124 | the array receives every element in list order after what it held |
| LinkedList.List.UnlinkHead | source/linked_list.c:136-139 | the head node leaves the chain; contents lose their first element; the count drops by one |
| LinkedList.List.UnlinkAfter | source/linked_list.c:140-147 | the node after position k - 1 leaves the chain; contents lose element k; the count drops by one |
| LinkedList.List.DeleteAt | source/linked_list.c:126-155 | an index below the count removes that element and hands it to the callback when one is given; any other index changes nothing |
| LinkedList.List.DeleteElement | source/linked_list.c:177-203 | the first matching element is removed and handed to the callback; with no match nothing changes |
| LinkedList.List.DeleteList | source/linked_list.c:222-233 | every element is handed to the callback, in list order |
| HashMap.Hash | source/hash_map.c:37-43 | the home slot lies inside the table |
| HashMap.ProbeIndex | source/hash_map.c:96-98 | the d-th probe from home h is (h + d) mod size, inside the table |
| HashMap.ProbeIndexInjective | source/hash_map.c:97-98 | different probe counts below the size reach different slots |
| HashMap.OccupiedValues | source/hash_map.c:182-186 | the values of the occupied slots, one per occupied slot, each stored value among them |
| HashMap.FindAbsent | source/hash_map.c:135-153 | a key held by no slot is not found |
| HashMap.FindPresent | source/hash_map.c:135-153 | a key held at some slot is found with that slot's value by probing from its home |
| HashMap.FindIsLookup | source/hash_map.c:135-153 | on a well-formed table, the probe search returns exactly the map's value for the key |
| HashMap.OccupiedCountUpdate | source/hash_map.c:101-105 | changing one slot changes the occupied count by that slot's change |
| HashMap.AllOccupiedCount | source/hash_map.c:91-94 | when every slot is occupied the count equals the size |
| HashMap.FillKeepsWf | source/hash_map.c:101-106 | filling the first empty slot on a new key's probe path keeps the table well formed and adds the pair |
| HashMap.ReplaceKeepsWf | source/hash_map.c:109-112 | overwriting the value of a key's slot keeps the table well formed and updates the pair |
| HashMap.FindPast | source/hash_map.c:97-113 | probes that passed other keys do not change what the search finds |
| HashMap.ProbeCoversAll | source/hash_map.c:97-114 | size probes from any home visit every slot |
| HashMap.HashMap.constructor | source/hash_map.c:60-68 | size empty slots, count 0, no pairs |
| HashMap.HashMap.Get | source/hash_map.c:135-153 | the value stored under the key, or none |
| HashMap.HashMap.Insert | source/hash_map.c:88-117 | refused with nothing changed when the count has reached the size, even for a present key; a new key fills the first empty slot of its probe path after occupied ones and raises the count; a present key has its value replaced and the old one is returned |
| HashMap.HashMap.Fill | source/hash_map.c:101-106 | the key was absent; it now maps to the value; the count rises by one; only the probed slot changes |
| HashMap.HashMap.Overwrite | source/hash_map.c:109-112 | the key keeps its slot with the new value; the old value is returned; the count is unchanged |
| HashMap.HashMap.Dispose | source/hash_map.c:173-190 | with element deletion, every stored value is handed over, one per occupied slot; without it, none |
| Courses.Course.SetSeatsBooked | source/main_function.c:58-59 | the int argument is stored modulo 65536 |
| Courses.Subscription.SetRenew | source/main_function.c:140-143 | both dates are replaced |
| History.Frequentation.constructor | source/frequentation.c:11-23 | the entry holds the id, a copy of the name and the count |
| History.Frequentation.SetTimesBooked | source/frequentation.c:51-53 | the int argument is stored modulo 65536 |
| History.Split | source/main_function.c:431-446 | cutting a line at a separator gives at least one field |
| History.SplitField | source/main_function.c:433-443 | a field without the separator, followed by the separator, is cut off first |
| History.SaveLineRoundTrip | source/frequentation.c:25-31 | cutting a saved "id,name,times," record at its commas gives back the id, name and count texts, whose digits read back as the numbers (for names without commas) |
| History.PrintLineIdField | source/frequentation.c:33-37 | the printed line carries the id text right after its fixed prefix |
| History.PrintLineDeterminesId | source/frequentation.c:33-37 | equal printed lines come from the same course id |
| Renewal.CRem | source/main_function.c:137 | C's remainder: below the divisor in magnitude, equal to Dafny's for non-negative dividends, never positive for non-positive ones |
| Renewal.StartOfDay | source/main_function.c:126-132 | midnight of the same date, not after now |
| Renewal.RenewalEndMonth | source/main_function.c:133-139 | the renewal ends on day 1 of the same year, in month + 1 up to October, in month 0 in November, in January in December |
| Renewal.RenewalCoversNowUntilOctober | source/main_function.c:133-139 | from January to October the renewed subscription ends after now |
| Renewal.RenewalInNovemberOrDecemberIsExpired | source/main_function.c:133-139 | in November and December the renewed subscription already ended before now |
| Renewal.RenewalInDecemberCounterexample | source/main_function.c:137-138 | a renewal on 15/12/2025 ends on 1/1/2025 |
| Renewal.RenewalEndFixed | source/main_function.c:133-139 | the corrected end is day 1 of the next calendar month (December rolls into January of the next year) at 23:59 |
| Renewal.RenewalEndFixedCoversNow | source/main_function.c:133-139 | the corrected renewal ends after now in every month |
| Renewal.RenewalEndFixedAgreesUntilOctober | source/main_function.c:133-139 | the correction changes nothing from January to October |
| Renewal.CheckSubscription | source/main_function.c:117-146 | renews exactly when the end date is strictly before the first clock reading; then the start becomes 00:00 on the day of the second reading and the end the renewal end computed from that second reading; otherwise both dates stay |
| Report.LeadingEntriesAreMostBooked | source/main_function.c:655-663 | after the sort, each of the top entries is booked at least as often as every course left out of the top |
| Report.SwapNext | source/main_function.c:643-647 | exchanging neighbours j and j + 1 swaps exactly those two and keeps the multiset |
| Report.SwapKeepsArrangement | source/main_function.c:646 | a neighbour swap keeps the items a rearrangement of the original |
| Report.SwapKeepsStability | source/main_function.c:645-646 | swapping only strictly out-of-order neighbours keeps equal counts in input order |
| Report.SwapKeepsSettled | source/main_function.c:641-648 | a swap below the sorted tail keeps the tail and carries the pass maximum forward |
| Report.CompareAndSwap | source/main_function.c:642-647 | one inner step: the rearrangement, stability and sorted tail are kept and position j + 1 holds the maximum of the pass so far |
| Report.BubblePass | source/main_function.c:641-648 | after a pass over the first `end` slots, the sorted tail grows by one |
| Report.SortByTimes | source/main_function.c:640-649 | the array ends as a permutation of the input, ordered by non-increasing count, with equal counts in input order |
| Report.ReportDueIsNotEarly | source/main_function.c:623-630 | whenever the gate opens, today is in a later month than the last report |
| Report.ReportDueMissesLaterYears | source/main_function.c:623-630 | in a later year the gate stays shut up to the month of the last report, though a month has passed |
| Report.ReportAfterDecemberCounterexample | source/main_function.c:623-630 | a report of December 2024 blocks the one of January 2025 |
| Report.ReportAfterDecemberNeverDue | source/main_function.c:623-630 | after a December report the gate never opens again, in any later month of any year |
| Report.ReportDueFixedIsLaterMonth | source/main_function.c:623-630 | the corrected gate opens exactly when today lies in a later month |
| Report.PrintTexts | source/main_function.c:660-670 | one printed line per entry |
| Report.JoinAppend | source/main_function.c:657-670 | writing two lists of pieces one after the other writes their concatenation |
| Report.TopCount | source/main_function.c:658 | the top section holds three entries, or all of them when there are fewer |
| Report.JoinSplit | source/main_function.c:657-670 | the two loops together write every line once, in order |
| Report.AppendLines | source/main_function.c:657-670 | a printing loop appends exactly the lines from `from` up to `to` |
| Report.WriteReport | source/main_function.c:657-671 | the text after the header is the top lines, the second heading, then the remaining lines |
| Report.SortedCopy | source/main_function.c:633-649 | the sorted copy is a permutation of the history, by non-increasing count, stable |
| Report.ReportOnce | source/main_function.c:633-671 | the last report date becomes today; the text is the report of the sorted copy |
| Report.StampAndWrite | source/main_function.c:652-656 | the last report date becomes today and the text starts with today's date |
| Report.MakeReport | source/main_function.c:612-675 | when the gate is shut nothing changes and no text is produced; otherwise the stamp and the sorted report as above |
| Workflow.View | source/main_function.c:62-77 | the history read as values, entry by entry |
| Workflow.SearchView | source/main_function.c:62 | searching entries by id finds the same position as searching their values |
| Workflow.Raise | source/main_function.c:73-76 | a count below 65535 goes up by one; 65535 wraps to 0 |
| Workflow.Lower | source/main_function.c:106-107 | a positive count goes down by one; 0 wraps to 65535 |
| Workflow.LowerUndoesRaise | source/main_function.c:73-107 | in 16 bits, lowering undoes raising |
| Workflow.BookKeepsDistinctIds | source/main_function.c:62-77 | booking keeps history ids distinct and leaves an entry for the course |
| Workflow.CancelKeepsDistinctIds | source/main_function.c:102-111 | cancelling keeps history ids distinct |
| Workflow.BookAt | source/main_function.c:70-77 | booking a course with an entry at k raises exactly that entry's count |
| Workflow.CancelAt | source/main_function.c:102-111 | cancelling a course with an entry at k lowers that entry, or removes it when the count falls to 0 or below |
| Workflow.BookThenCancelRestoresHistory | source/main_function.c:62-111 | booking then cancelling the same course restores the history, unless its count was 0 or 65535 |
| Workflow.BookThenCancelDropsZeroEntry | source/main_function.c:62-111 | an entry with count 0 is deleted by a booking followed by a cancellation |
| Workflow.BookThenCancelRestoresBooked | source/main_function.c:57-98 | a booking followed by a cancellation of the same id restores the booked list |
| Workflow.AppendEntry | source/main_function.c:63-69 | a first booking appends an entry with count 1 |
| Workflow.RaiseEntry | source/main_function.c:70-77 | the entry at idx has its count raised in 16 bits; no other entry changes |
| Workflow.RecordBooking | source/main_function.c:62-77 | the history becomes HistoryAfterBook of the old history |
| Workflow.TakeSeat | source/main_function.c:57-59 | the course is appended to the booked list and its booked seats rise by one |
| Workflow.CommitBooking | source/main_function.c:56-77 | the booked list, the seats and the history all change as one booking says |
| Workflow.BookFound | source/main_function.c:41-77 | refused when already booked, then when full; otherwise committed; refusals change nothing |
| Workflow.KeyOf | source/main_function.c:35-42 | the int id as the uint16_t key: the id itself when it lies in 0..65535, otherwise the key congruent to it modulo 65536 |
| Workflow.KeyOfWraps | source/main_function.c:35-42 | id 65537 looks up course 1 and id -1 course 65535 |
| Workflow.BookCourse | source/main_function.c:22-80 | the int id is looked up as its 16-bit key; the four refusals in the code's order, each exactly when its condition holds and the earlier ones do not, changing nothing; otherwise the course is appended, its seats rise by one and the history records it |
| Workflow.LowerEntry | source/main_function.c:104-107 | the entry's count is lowered in 16 bits; the pre-store value is returned |
| Workflow.DropEntry | source/main_function.c:108-110 | the entry at idx is removed and the others keep their order |
| Workflow.CancelEntry | source/main_function.c:103-111 | the history becomes HistoryAfterCancel of the old history |
| Workflow.RecordCancellation | source/main_function.c:102-111 | the history becomes HistoryAfterCancel, unchanged when the course has no entry |
| Workflow.CancelCourse | source/main_function.c:91-114 | nothing changes exactly when no booked course has the id; otherwise the first such course leaves the list, one seat is freed in 16 bits and the history records the cancellation |
| Workflow.ReleaseBooking | source/main_function.c:97-100 | the course at idx leaves the booked list and one of its seats is freed |
| Workflow.CommitCancellation | source/main_function.c:97-111 | the booked list, the seats and the history all change as one cancellation says |
| Booking.WalkFromRemovesFirst | source/booking.c:75-84 | the loop from position i removes the first later occurrence of the id, and fails exactly when there is none |
| Booking.DeleteWalkRemovesFirst | source/booking.c:66-86 | as written, the delete completes exactly when the id is present, and then removes its first occurrence |
| Booking.DeleteAbsentCrashes | source/booking.c:69-76 | an absent id, whether or not the list is empty, ends in a null dereference |
| Booking.DeleteFixed | include/booking.h:57-76 | the intended delete: as written when the id is present, the ids unchanged when it is absent |
| Booking.AddThenDelete | source/booking.c:27-86 | adding an id not yet booked and then deleting it restores the ids |
| Booking.BookingList.constructor | source/booking.c:17-25 | a new list is valid and empty, with a null head and count 0 |
| Booking.BookingList.AddBooking | source/booking.c:27-45 | ids become old ids followed by the id; the count rises by one |
| Booking.BookingList.SearchBooking | source/booking.c:47-64 | the first index holding the id, or -1 exactly when it is absent; the list is not changed |
| Booking.BookingList.UnlinkHead | source/booking.c:69-73 | the head node leaves the chain and the count drops by one |
| Booking.BookingList.UnlinkAfter | source/booking.c:76-81 | the node after `current` leaves the chain and the count drops by one |
| Booking.BookingList.DeleteBooking | source/booking.c:66-86 | with the id present, the ids become what the walk as written gives (the first occurrence removed) and the count drops by one |
| Booking.BookingList.DeleteBookingFixed | include/booking.h:57-76 | the first occurrence of a present id is removed; an absent id leaves the list unchanged; the count matches the ids |
| DateStrings.ToInt32 | source/utils.c:11 | the cast to int keeps values in the int range and otherwise wraps modulo 2^32 |
| DateStrings.ConvertToInt | source/utils.c:8-30 | success only for text with at least one digit; the value is always in the int range |
| DateStrings.ConvertToIntFixed | source/utils.c:8-30 | the corrected conversion succeeds only with a value in the int range, and fails wherever the original fails |
| DateStrings.DigitsParse | source/utils.c:11-22 | a digit string parses in full |
| DateStrings.ConvertNatToStr | source/utils.c:8-30 | the text of m up to LONG_MAX converts to m cast to int; the corrected conversion gives m or reports out of range |
| DateStrings.ConvertIntToStr | source/utils.c:8-30 | the text of any int converts back to it, in both versions |
| DateStrings.ConvertWrapsCounterexample | source/utils.c:11 | a number just above INT_MAX converts to a negative int; the corrected conversion rejects it |
| DateStrings.ConvertFixedIsExact | source/utils.c:8-30 | for the decimal text of m up to LONG_MAX, the corrected conversion succeeds exactly when m fits an int, and then returns m |
| DateStrings.ConvertOfParts | source/utils.c:11-27 | on white space, an optional sign, a whole digit run and a rest: not entirely read when the rest is non-empty; otherwise out of range when the signed value overflows a long, else that value cast to int (the corrected version: checked against int, not cast) |
| DateStrings.ConvertParts | source/utils.c:11-17 | every text either yields no digits or splits into white space, a sign, a whole digit run and a rest that does not start with a digit |
| DateStrings.ConvertToIntIsStrtol | source/utils.c:8-30 | for every text: success exactly on white space, an optional sign and digits whose value fits a long, returning that value cast to int; "no digits" exactly when no digit follows the white space and sign; "not entirely read" exactly when a non-digit follows the digits; "out of range" exactly when the whole text is a number outside the long range |
| DateStrings.ConvertToIntFixedIsStrtol | source/utils.c:8-30 | the corrected conversion succeeds exactly on white space, an optional sign and digits whose value fits an int, and returns that value |
| DateStrings.RunUntil | source/utils.c:47-51 | the prefix before the first separator, with no separator in it |
| DateStrings.Tokens | source/utils.c:47-58 | strtok's tokens are non-empty and contain no separator |
| DateStrings.TokensJoinWith | source/utils.c:47-58 | joining non-empty separator-free tokens and tokenising the result gives them back |
| DateStrings.ConvertAll | source/utils.c:48-51 | on success, one value per token, each the conversion of its token |
| DateStrings.Pad | source/utils.c:34-35 | the converted fields followed by the zeros the arrays start with |
| DateStrings.LoopDecidedByFirst | source/utils.c:60-71 | the loop without a break ends with the sign of the first field's difference |
| DateStrings.CompareFieldsAsWrittenIsFirstField | source/utils.c:60-71 | as written, the comparison depends on the first field alone |
| DateStrings.CompareText | source/utils.c:32-78 | the answer is always -1, 0 or 1 |
| DateStrings.CompareDateStr | source/utils.c:32-78 | compare_date as written answers -1, 0 or 1 |
| DateStrings.CompareTimeStr | source/utils.c:80-126 | compare_time as written answers -1, 0 or 1 |
| DateStrings.CompareDateStrFixed | source/utils.c:32-78 | the corrected compare_date answers -1, 0 or 1 and exits exactly when the original does |
| DateStrings.CompareTimeStrFixed | source/utils.c:80-126 | the corrected compare_time answers -1, 0 or 1 and exits exactly when the original does |
| DateStrings.FieldsOfText | source/utils.c:47-58 | numbers joined at the separator are tokenised and converted back to themselves |
| DateStrings.DateTextFields | source/utils.c:47-58 | the text "d/m/y" of a date splits into its three fields |
| DateStrings.TimeTextFields | source/utils.c:95-106 | the text "m:h" of a time splits into its two fields |
| DateStrings.CompareDateStrIsByDay | source/utils.c:60-71 | on date texts, compare_date as written answers the sign of the day difference |
| DateStrings.CompareTimeStrIsByMinute | source/utils.c:108-119 | on time texts, compare_time as written answers the sign of the minute difference |
| DateStrings.CompareDateStrCounterexample | source/utils.c:60-71 | 2/1/2020 is before 1/1/2021, yet compare_date answers 1 |
| DateStrings.CompareTimeStrCounterexample | source/utils.c:108-119 | 05:10 (minute 5 of hour 10) is after 12:09, yet compare_time answers -1 |
| DateStrings.CompareDateStrFixedAgrees | include/utils.h:15-20 | on date texts, the corrected compare_date is the date comparison of the two dates |
| DateStrings.CompareTimeStrFixedAgrees | source/utils.c:80-126 | on time texts, the corrected compare_time is the time comparison of the two times |

## Left out

- Clock reads (`get_datetime`) are parameters. `action_book_course` and `report` read the clock once each and take one `now`. Renewal.CheckSubscription takes both of its readings, `checked` for the expiry test and `now` for the new dates. The reading itself (`time`, `localtime`) is not modelled. `DateTime.ClockReading` models the offsets `get_datetime` adds, so a real reading has minute 1..60 and hour 1..24. The other members accept any datetime.
- File I/O is not modelled: the `fopen`/`fclose` calls, writing the report file, and the loaders' `fgets`. The report's text is returned instead, and only the datetime and history-line layouts are modelled.
- Console output is not modelled: the `printf` messages and `print_booking_list`.
- Memory allocation and freeing are not modelled: `malloc`, `free`, `CHECK_NULL` exits, `delete_booking_list`, `delete_course` and `delete_frequentation`. A delete callback is modelled as the value it receives.
- `ll_print` is not modelled: its callback body is not available.
- The reading of the course id in `action_cancel_course` (lines 86-89) is not modelled. The model starts from the id.
- LinkedList.List.DeleteList: `ll_delete_list` calls its callback even when the callers pass NULL (source/main_function.c:188-189), which would crash. The model always hands over the elements.
- LinkedList.List.GetAt: an index equal to the count passes the guard and dereferences NULL. The model excludes that index by precondition.
- LinkedList.List.Add and Booking.BookingList.AddBooking: the `uint16` count would wrap at 65535 elements. The precondition keeps the lists below that size.
- Booking.BookingList.DeleteBooking: on an empty list or an absent id the code dereferences NULL. The precondition requires the id to be present. The crash is exhibited by `Booking.DeleteAbsentCrashes` (see Findings).
- Report.SortByTimes: the ordering of equal counts is stated as stability, following the strict `<` comparison.
- DateStrings.ConvertToInt: the cast from `long` to `int` is modelled as the usual two's-complement wrap. The C standard leaves it implementation-defined.
- DateStrings.ConvertToInt: `long` is taken to be 64 bits (`LongMin`, `LongMax`), as on the usual 64-bit targets. Where `long` is 32 bits, strtol itself reports "3000000000" as out of range, and the cast finding does not arise.
- DateStrings.CompareDateStr and DateStrings.CompareTimeStr require 1 to 3 (respectively 1 to 2) fields. More fields would write past the arrays, and no field at all would pass NULL to the conversion.
- DateTime.Scan: its `%<w>d` conversions read digits only. sscanf also accepts a sign within the width, and the model does not. The data files this program writes hold no signs.
- BoundedArray.BoundedArray: the array API the report uses (`array_create`, `array_add`, `get_at`, `ptr_swap`) is declared in none of the files of this model. It is modelled after the contract that include/array.h:9-46 gives its older counterparts, `create_array` and `add_element`. source/array.c holds only a draft of those two: `add_element` advances `last_element` before writing, so slot 0 is never used, and `elements` is never allocated.
- Strings are sequences of characters without an embedded NUL. `strtol`'s leading white space and sign are modelled, but not its handling of bases other than 10.
- Booking.BookingList.SearchBooking, LinkedList.List.Search: the index returned is an unbounded integer. The C `int` cannot overflow, because the lists hold fewer than 65536 elements.
- The course, subscription and user records are reduced to the fields the core reads and writes. Their own source files are not part of this model beyond the setters used.
- Renewal.CheckSubscription and Report.MakeReport model the code as written. The corrected renewal end and report gate are proved beside them (`Renewal.RenewalEndFixed`, `Report.ReportDueFixed`) but not substituted.

## Findings

| source | as written | input that shows it | evidently intended | confidence | as-written member | corrected member |
|---|---|---|---|---|---|---|
| source/datetime.c:229-237 | `print_datetime` writes the minute first. The loaders read the first number as the hour (source/main_function.c:366-371). | 10:30 on 15/6/2025 is saved as "30:10 15/6/2025" and reloaded as 30:10 | hour printed first, so that saving and loading is the identity | high, not executed | DateTime.PrintThenLoadCounterexample | DateTime.PrintHourFirstThenLoad |
| source/main_function.c:137-138 | the renewal ends in month `(month + 1) % 12` of the same year | a renewal on 15/12/2025 ends on 1/1/2025, before it starts; November gives month 0 | the first day of the next calendar month, in the next year after December | high, not executed | Renewal.RenewalInDecemberCounterexample | Renewal.RenewalEndFixedCoversNow |
| source/main_function.c:623-630 | the report gate requires both last year <= this year and last month < this month | after a report made in December (2024, say) no month of any year opens the gate again, so every later report is blocked; January 2025 is the first one missed | a report once today is in a later month than the last report | high, not executed | Report.ReportAfterDecemberNeverDue | Report.ReportDueFixedIsLaterMonth |
| source/utils.c:60-71 | the comparison loop has no `break`, so the last step (the day) overwrites the year's and month's answers | "2/1/2020" versus "1/1/2021" answers 1 | the before/after contract of include/utils.h:15-20: year, then month, then day | high, not executed | DateStrings.CompareDateStrCounterexample | DateStrings.CompareDateStrFixedAgrees |
| source/utils.c:108-119 | the same loop in compare_time, so the minute decides alone | "5:10" versus "12:9" (minute:hour) answers -1 | hour first, then minute | high, not executed | DateStrings.CompareTimeStrCounterexample | DateStrings.CompareTimeStrFixedAgrees |
| source/utils.c:11-27 | `strtol` reports overflow of `long` only, and the result is then cast to `int` | "3000000000" converts to -1294967296 | reject values outside the int range | medium, not executed | DateStrings.ConvertWrapsCounterexample | DateStrings.ConvertToIntFixedIsStrtol |
| source/booking.c:66-86 | the head is dereferenced unchecked, and the loop reads `current->next->id` without testing `current->next` | deleting any id from an empty list, or an id absent from a non-empty list, dereferences NULL | "If not found, no error occurs" (include/booking.h:63): leave the list unchanged | high, not executed | Booking.DeleteAbsentCrashes | Booking.BookingList.DeleteBookingFixed |
