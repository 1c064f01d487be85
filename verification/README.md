# Thesis-defense scheduler: the assignment core

A Dafny model of the scheduling engine behind the `/asignaciones` handler of
the Asignador service. The handler assigns thesis defenses. Each student it
schedules gets a 40-minute slot. The slot falls on the date the student asked
for. No other event uses its room, or its committee member (professor), at
the same start time. Occupancy is recorded by start time only, so
overlapping availability windows of one room or one professor can book it
for two overlapping slots. A student who cannot be placed without a clash gets no event and is
silently dropped. The model covers the four pure stages of that
handler. It leaves out the web, database and dataframe layers around them.

- **Slot segmentation** (`Slots`): `dividir_en_slots` cuts an availability
  window into back-to-back slots of one fixed length. A trailing remainder
  shorter than one slot is dropped. `Segment` is the functional definition.
  `SplitIntoSlots` is the source's `while` loop, proved equal to it.
- **Slot tables and candidate matching** (`Matching`): every room window and
  every professor window is segmented. For each student, the nested loops
  emit one combination for each (room slot, professor slot) pair that lies on
  the student's date and has the same start and the same end.
- **Ordering** (`Sorting`): the combinations are sorted by start time. The
  source's sort does not promise to keep equal starts in their original
  order. So the greedy properties are proved for every ordering that is
  sorted by start. `SortByStart` (insertion sort) is one such ordering.
- **Greedy assignment** (`Greedy`): one pass over the sorted combinations. It
  keeps the set of students already placed and, per professor and per room,
  the set of start times already occupied. A combination is skipped on any
  conflict. Otherwise it is committed as an event with the next id, counting
  from 1. `Step`/`Run` follow the source's bookkeeping exactly. `Reference`
  states the same pass over the event list alone, without the sets. The two
  are proved equal, and the properties are proved on `Reference`.
- **Calendar tag** (`Calendar`): a stored assignment in state 1 is tagged
  `"Success"`; any other state is tagged `"Danger"`.
- **Pipeline** (`Schedule`): the loaded tables go through segmentation,
  matching, sorting and the greedy pass.

Instants are whole minutes (`Time.Minute`). The date of an instant is
`t / 1440`. Student, professor and room identifiers are integers. A student's
requested date is a day number on the same scale.

Points where the model follows the code rather than what a reader might expect:

- A stable tie order among combinations with equal starts might be
  expected. The code uses the dataframe's default sort, which does not give
  one. The model assumes only non-decreasing start.
- There is a single assignment strategy, the time-ordered greedy pass. No
  load-balancing of professors takes place.
- The tag tests `estado == 1` literally. `CalendarTag` does the same.

## Model

| member | source | states |
|---|---|---|
| Slots.Segment | app.py:21-27 | the number of slots is (end - start) / duration, or 0 when end < start; every slot lasts exactly `duration`, lies inside the window, the first starts at the window start, and each slot ends where the next begins |
| Slots.SplitIntoSlots | app.py:21-27 | the source's loop, which advances while a whole slot still fits, returns exactly the slots of `Segment`, so every property of `Segment` holds of it |
| Slots.SegmentIndexed | app.py:21-27 | slot k of a segmented window is the k-th step of `duration` from the window start |
| Slots.InSegmentIff | app.py:21-27 | a slot is produced if and only if it is some k-th step of `duration` from the start that ends no later than the window end |
| Slots.NineToTenExample | app.py:21-27 | a one-hour window with 40-minute slots gives only its first 40 minutes; the remaining 20 minutes give no slot |
| Matching.WindowSlots | app.py:64-82 | the slot rows of one window are exactly its segmented slots under the window's owner, one per slot |
| Matching.AllSlots | app.py:64-82 | a slot row is in the room (or professor) slot table if and only if it is a segmented slot of one of the loaded windows |
| Matching.ProfessorPass | app.py:94-105 | for one student and one room slot, a combination is emitted if and only if some professor slot is on the student's date with the same start and end |
| Matching.RoomPass | app.py:91-105 | room slots of another date produce nothing; a combination is emitted if and only if some room slot and some professor slot satisfy the full matching condition |
| Matching.Combinations | app.py:87-105 | a combination is emitted if and only if some student, room slot and professor slot match on the room date, the professor date, the start and the end |
| Sorting.Insert | app.py:107 | inserting into a start-ordered list keeps it start-ordered and adds exactly one copy of the new combination |
| Sorting.SortByStart | app.py:107 | the result is a rearrangement of the combinations, with the same multiset, in non-decreasing start order |
| Sorting.SortKeepsMembers | app.py:107 | any start-ordered rearrangement holds exactly the same combinations |
| Calendar.CalendarTag | app.py:188 | the tag is "Success" exactly when the state is 1, and "Danger" otherwise |
| Greedy.Step | app.py:117-145 | one iteration of the loop either leaves the state unchanged or appends the event for the combination under the current id, advances the counter, and records its student and its professor's and room's start time; the full characterisation is `Greedy.StepFollowsReference` |
| Greedy.Run | app.py:110-145 | the loop from the initial state: the counter is always one past the number of events and there are no more events than combinations; its full contract is `Greedy.RunIsReference` and `Greedy.GreedyCorrect` |
| Greedy.Reference | app.py:110-145 | the same pass over the event list alone, committing each combination that clashes with no earlier event: never more events than combinations; its properties are the `Greedy.Reference*` lemmas |
| Greedy.SetTestsDecideBlocked | app.py:123-130 | with the occupancy sets describing the events so far, the three membership tests skip a combination exactly when it clashes with an earlier event on student, professor-and-start or room-and-start |
| Greedy.CommitKeepsTracks | app.py:132-145 | committing appends the event with id = number of earlier events + 1, and the updated student set, occupancy maps and id counter still describe the events exactly |
| Greedy.StepFollowsReference | app.py:116-145 | one iteration of the source's loop commits or skips exactly as the set-free reference does, and keeps its bookkeeping in step |
| Greedy.RunIsReference | app.py:110-145 | the whole loop, with its sets and counter, produces exactly the reference event list |
| Greedy.ReferenceNumbered | app.py:114-142 | event ids are 1, 2, …, n in emission order, and n is at most the number of combinations |
| Greedy.ReferenceDrawnFrom | app.py:132-140 | every event is a "Success"-tagged copy of one of the combinations walked |
| Greedy.ReferenceConflictFree | app.py:123-145 | no student appears in two events, and no professor and no room appears in two events with the same start |
| Greedy.ReferenceMaximal | app.py:123-130 | every combination walked clashes with some event of the final list on student, professor-start or room-start, so none could be added to the result |
| Greedy.OverlapNotExcluded | app.py:126-130 | two combinations for one room at starts 540 and 560, each 40 minutes long, are both committed: occupancy keyed by start time does not exclude overlapping bookings |
| Greedy.ReferenceOrdered | app.py:107-145 | walking start-ordered combinations once gives events in non-decreasing start order |
| Greedy.GreedyCorrect | app.py:110-145 | the source's loop over any order: ids 1..n, at most one event per combination, final counter n + 1, each event a committed combination, no double booking, nothing left that could still be added, and start order whenever the input is start-ordered |
| Greedy.GreedyOverAnySort | app.py:107-145 | for whichever start-ordered rearrangement the sort picks, the same guarantees hold relative to the unsorted combinations |
| Schedule.CandidateBacked | app.py:63-105 | every combination is a 40-minute slot cut from a room window of its room and from a professor window of its professor, for a student who asked for that date |
| Schedule.EventsBacked | app.py:63-145 | every event drawn from the combinations lasts 40 minutes, lies in a window of its room and of its professor, and is on the date its student requested |
| Schedule.ScheduleAsWritten | app.py:63-145 | the handler as written fails exactly when no student has a room slot and a professor slot that match on the requested date; when it succeeds it returns a non-empty list, equal to the intended events |
| Schedule.Candidates | app.py:63-105 | models the slot generation and the combination loops over the loaded tables; its contract is carried by `Schedule.CandidateBacked` and by `Matching.Combinations` |
| Schedule.HandlerAsWritten | app.py:107-145 | models the sort and greedy pass as written, including the failure on an empty combination table; its contract is carried by `Schedule.ScheduleAsWritten` and `Schedule.NoOverlapFails` |
| Schedule.ScheduleEvents | app.py:107-145 | models the handler with an empty result where nothing can be scheduled; its contract is carried by `Schedule.ScheduleSound` and `Schedule.ScheduleGrounded` |
| Schedule.NoOverlapFails | app.py:107 | one student with a room at 09:00 and a professor at 10:00 on the requested day: the handler as written fails, while the intended result is an empty schedule |
| Schedule.ScheduleSound | app.py:63-145 | the intended handler's events are numbered 1..n, conflict-free, start-ordered and maximal, at most one per combination, and there are some if and only if some combination exists |
| Schedule.ScheduleGrounded | app.py:63-145 | each of the intended handler's events is a "Success" 40-minute slot that a window of its room and a window of its professor both contain, on the date its student requested |
| Schedule.TwoStudentsOneSlot | app.py:63-145 | two students on the same day with a single matching room and professor slot: exactly one is scheduled |

## Left out

- Flask routing, CORS, the database configuration and the connections (app.py:1-18, 29-31, 168-175, 196-197). These are transport and I/O.
- The SQL reads and the dataframe plumbing (app.py:35-37, 84-85). The three tables are given as sequences of records.
- `convertir_dt`, `strptime` and `to_datetime` (app.py:48-61). These are library date parsing. Windows arrive with integer start and end instants, and requests arrive with a day number. Malformed time strings are therefore out of scope.
- Seconds. `convertir_dt` parses times with seconds (app.py:52). The model's instants are whole minutes, so windows that start or end on a fractional minute are not represented.
- The weekday-name map (app.py:41-46). It is computed but never used in matching.
- The ISO-8601 rendering of start and end with `strftime` (app.py:135-136, 182-183). This is library formatting. Events keep integer instants.
- The persistence loop (app.py:149-163), with its lookups by title and start and its UPDATE/INSERT. Events instead carry their student, professor and room directly. The source's lookups take the first combination with the event's title and start, not the committed one. So the stored professor and room, and the student when two theses share a title, can differ from what the greedy pass committed. For example, a student may have two professors free at one time, where the first is already booked then by someone else. The model's `professor` and `room` fields are the committed ones, which the source never stores.
- The rest of the saved-events endpoint (app.py:177-192). It copies stored columns into output records. Only its status tag rule is modelled, as `CalendarTag`.
- A load-balanced strategy, a report of unassigned students, and transactional persistence. The handler has no code for any of them.
- Slots.Segment: requires a positive duration. For a zero or negative duration the source loop never ends once its guard holds (it either does not advance or moves backwards), so no result exists to model there; when the guard fails at once the source returns an empty list, a case the model does not cover. The handler always passes the default of 40.
- Sorting.SortByStart: it breaks ties by insertion order, which is only one of the orders the source's sort may produce. The guarantees that matter are stated for every start-ordered rearrangement, in `Greedy.GreedyOverAnySort`.

## Findings

| source | as written | input that shows it | evidently intended | confidence | as-written member | corrected member |
|---|---|---|---|---|---|---|
| app.py:107 | the combination table is sorted by its start column even when no combination was produced; a frame built from an empty list has no such column, so the sort raises and the request fails | one student on day 0, room window 09:00-09:40, professor window 10:00-10:40 on the same day | an empty event list ("nothing to schedule") | high; not executed | Schedule.NoOverlapFails | Schedule.ScheduleSound |
