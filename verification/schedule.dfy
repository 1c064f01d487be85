/** The whole assignment computation of the `/asignaciones` handler, from
    the three loaded tables to the list of events: segment room and
    professor windows, match them against the students, sort the
    combinations by start, and run the greedy pass. */
module Schedule {
  import opened Time
  import opened Slots
  import opened Matching
  import opened Sorting
  import opened Greedy
  import opened Calendar

  /** Sorting an empty combination table fails: a frame built from no rows
      has no start column to sort by, and the handler stops there. */
  datatype ScheduleError = NoCombinations

  datatype Result<T> = Ok(value: T) | Err(error: ScheduleError)

  /** The combinations for the loaded students, room windows and professor
      windows, in the order the nested loops emit them. */
  function Candidates(qs: seq<Request>, roomWindows: seq<Window>, profWindows: seq<Window>): seq<Candidate> {
    Combinations(qs, AllSlots(roomWindows), AllSlots(profWindows))
  }

  /** The handler as written: the sort of an empty combination table
      fails before the greedy pass runs. */
  function HandlerAsWritten(qs: seq<Request>, roomWindows: seq<Window>, profWindows: seq<Window>): Result<seq<Event>> {
    var cs := Candidates(qs, roomWindows, profWindows);
    if |cs| == 0 then Err(NoCombinations)
    else Ok(Run(SortByStart(cs)).events)
  }

  /** The handler as intended: nothing to schedule yields no events. */
  function ScheduleEvents(qs: seq<Request>, roomWindows: seq<Window>, profWindows: seq<Window>): seq<Event> {
    Run(SortByStart(Candidates(qs, roomWindows, profWindows))).events
  }

  /** Event `e` is for a student who asked for the date it falls on. */
  predicate ForRequest(e: Event, qs: seq<Request>) {
    exists q :: q in qs && q.id == e.student && q.title == e.title && q.date == DateOf(e.start)
  }

  /** Event `e` occupies one whole slot cut from one of its owner's windows. */
  predicate InWindowOf(owner: Id, e: Event, ws: seq<Window>) {
    exists w :: w in ws && SlotOfWindow(OwnedSlot(owner, e.start, e.end), w)
  }

  /** A combination is exactly a matching (student, room slot, professor slot)
      triple drawn from the loaded tables. */
  lemma CandidateBacked(qs: seq<Request>, roomWindows: seq<Window>, profWindows: seq<Window>, c: Candidate)
    requires c in Candidates(qs, roomWindows, profWindows)
    ensures exists q :: q in qs && q.id == c.student && q.title == c.title && q.date == DateOf(c.start)
    ensures exists w :: w in roomWindows && SlotOfWindow(OwnedSlot(c.room, c.start, c.end), w)
    ensures exists w :: w in profWindows && SlotOfWindow(OwnedSlot(c.professor, c.start, c.end), w)
    ensures c.end - c.start == DefaultDuration
  {
    var rooms, profs := AllSlots(roomWindows), AllSlots(profWindows);
    var q, a, p :| q in qs && a in rooms && p in profs && Matches(q, a, p) && c == Combine(q, a, p);
    assert OwnedSlot(c.room, c.start, c.end) == a;
    assert OwnedSlot(c.professor, c.start, c.end) == p;
    var rw :| rw in roomWindows && SlotOfWindow(a, rw);
    var k :| 0 <= k < |Segment(rw.start, rw.end, DefaultDuration)| && Segment(rw.start, rw.end, DefaultDuration)[k] == Slot(a.start, a.end);
  }

  /** Events drawn from the combinations inherit what every combination
      guarantees. */
  lemma EventsBacked(qs: seq<Request>, roomWindows: seq<Window>, profWindows: seq<Window>, ev: seq<Event>)
    requires DrawnFrom(ev, Candidates(qs, roomWindows, profWindows))
    ensures forall i :: 0 <= i < |ev| ==> ev[i].end - ev[i].start == DefaultDuration
    ensures forall i :: 0 <= i < |ev| ==> ForRequest(ev[i], qs)
    ensures forall i :: 0 <= i < |ev| ==> InWindowOf(ev[i].room, ev[i], roomWindows)
    ensures forall i :: 0 <= i < |ev| ==> InWindowOf(ev[i].professor, ev[i], profWindows)
  {
    forall i | 0 <= i < |ev|
      ensures ev[i].end - ev[i].start == DefaultDuration
      ensures ForRequest(ev[i], qs)
      ensures InWindowOf(ev[i].room, ev[i], roomWindows)
      ensures InWindowOf(ev[i].professor, ev[i], profWindows)
    {
      CandidateBacked(qs, roomWindows, profWindows, CandidateOf(ev[i]));
    }
  }

  /** No combination exists exactly when no student, room slot and
      professor slot of the tables match. */
  lemma {:induction false} CombinationsEmptyIff(qs: seq<Request>, rooms: seq<OwnedSlot>, profs: seq<OwnedSlot>)
    ensures |Combinations(qs, rooms, profs)| == 0 <==>
              !exists q, a, p :: q in qs && a in rooms && p in profs && Matches(q, a, p)
  {
    var cs := Combinations(qs, rooms, profs);
    if |cs| > 0 {
      assert cs[0] in cs;
    }
    if exists q, a, p :: q in qs && a in rooms && p in profs && Matches(q, a, p) {
      var q, a, p :| q in qs && a in rooms && p in profs && Matches(q, a, p);
      assert Combine(q, a, p) in cs;
    }
  }

  /** The handler as written fails exactly when no student has a room slot
      and a professor slot that match on the requested date; when it
      succeeds it returns a non-empty list of the intended events. */
  lemma ScheduleAsWritten(qs: seq<Request>, roomWindows: seq<Window>, profWindows: seq<Window>)
    ensures HandlerAsWritten(qs, roomWindows, profWindows).Err? <==>
              !exists q, a, p :: q in qs && a in AllSlots(roomWindows) && p in AllSlots(profWindows)
                                 && Matches(q, a, p)
    ensures HandlerAsWritten(qs, roomWindows, profWindows).Ok? ==>
              && |HandlerAsWritten(qs, roomWindows, profWindows).value| > 0
              && HandlerAsWritten(qs, roomWindows, profWindows).value == ScheduleEvents(qs, roomWindows, profWindows)
  {
    CombinationsEmptyIff(qs, AllSlots(roomWindows), AllSlots(profWindows));
    ScheduleSound(qs, roomWindows, profWindows);
  }

  /** A student with a room and a professor available on the requested date, but
      never at the same time, leaves no combination: the handler as
      written fails where an empty schedule is due. */
  lemma NoOverlapFails()
    ensures var qs, rws, pws := [Request(1, "A", 0)], [Window(10, 540, 580)], [Window(20, 600, 640)];
            HandlerAsWritten(qs, rws, pws) == Err(NoCombinations) && ScheduleEvents(qs, rws, pws) == []
  {
    var qs, rws, pws := [Request(1, "A", 0)], [Window(10, 540, 580)], [Window(20, 600, 640)];
    assert Segment(540, 580, DefaultDuration) == [Slot(540, 580)];
    assert Segment(600, 640, DefaultDuration) == [Slot(600, 640)];
    var room, prof := OwnedSlot(10, 540, 580), OwnedSlot(20, 600, 640);
    assert AllSlots(rws) == [room];
    assert AllSlots(pws) == [prof];
    assert room.Date() == 0 && prof.Date() == 0;
    assert [prof][1..] == [] && [room][1..] == [] && qs[1..] == [];
    assert ProfessorPass(qs[0], room, [prof]) == [];
    assert RoomPass(qs[0], [room], [prof]) == [];
    assert Candidates(qs, rws, pws) == [];
  }

  /** The intended handler's events are numbered 1..n, never double-book a
      student, a professor or a room, come in start order, and leave no
      combination that could still be added, so there are some whenever
      there is a combination. */
  lemma ScheduleSound(qs: seq<Request>, roomWindows: seq<Window>, profWindows: seq<Window>)
    ensures var ev := ScheduleEvents(qs, roomWindows, profWindows);
            var cs := Candidates(qs, roomWindows, profWindows);
            && |ev| <= |cs|
            && (|ev| == 0 <==> |cs| == 0)
            && NumberedFromOne(ev)
            && ConflictFree(ev)
            && StartOrdered(ev)
            && Maximal(ev, cs)
  {
    var cs := Candidates(qs, roomWindows, profWindows);
    var order := SortByStart(cs);
    var ev := Run(order).events;
    GreedyOverAnySort(order, cs);
    if |cs| > 0 {
      NonEmptyWhenSomeCombination(ev, cs);
    }
  }

  /** Each of the intended handler's events is a "Success" 40-minute slot
      that a window of its room and a window of its professor both contain,
      on the date its student asked for. */
  lemma ScheduleGrounded(qs: seq<Request>, roomWindows: seq<Window>, profWindows: seq<Window>)
    ensures var ev := ScheduleEvents(qs, roomWindows, profWindows);
            && (forall i :: 0 <= i < |ev| ==> ev[i].calendar == Success)
            && (forall i :: 0 <= i < |ev| ==> ev[i].end - ev[i].start == DefaultDuration)
            && (forall i :: 0 <= i < |ev| ==> ForRequest(ev[i], qs))
            && (forall i :: 0 <= i < |ev| ==> InWindowOf(ev[i].room, ev[i], roomWindows))
            && (forall i :: 0 <= i < |ev| ==> InWindowOf(ev[i].professor, ev[i], profWindows))
  {
    var cs := Candidates(qs, roomWindows, profWindows);
    var order := SortByStart(cs);
    var ev := Run(order).events;
    GreedyOverAnySort(order, cs);
    EventsBacked(qs, roomWindows, profWindows, ev);
  }

  lemma NonEmptyWhenSomeCombination(ev: seq<Event>, cs: seq<Candidate>)
    requires |cs| > 0 && Maximal(ev, cs)
    ensures |ev| > 0
  {
    assert cs[0] in cs;
    assert Blocked(ev, cs[0]);
  }

  /** Two students asking for the same day, with a single 40-minute room
      window and a single matching professor window: exactly one of them
      is scheduled. */
  lemma TwoStudentsOneSlot()
    ensures var r := HandlerAsWritten([Request(1, "A", 0), Request(2, "B", 0)],
                              [Window(10, 540, 580)], [Window(20, 540, 580)]);
            r.Ok? && |r.value| == 1
  {
    var qs := [Request(1, "A", 0), Request(2, "B", 0)];
    var rws, pws := [Window(10, 540, 580)], [Window(20, 540, 580)];
    assert Segment(540, 580, DefaultDuration) == [Slot(540, 580)];
    var room, prof := OwnedSlot(10, 540, 580), OwnedSlot(20, 540, 580);
    assert AllSlots(rws) == [room];
    assert AllSlots(pws) == [prof];
    var c1, c2 := Combine(qs[0], room, prof), Combine(qs[1], room, prof);
    assert room.Date() == 0 && prof.Date() == 0;
    assert [prof][1..] == [] && [room][1..] == [];
    assert ProfessorPass(qs[1], room, [prof]) == [c2];
    assert ProfessorPass(qs[0], room, [prof]) == [c1];
    assert RoomPass(qs[1], [room], [prof]) == [c2];
    assert Combinations(qs[1..], [room], [prof]) == [c2];
    assert RoomPass(qs[0], [room], [prof]) == [c1];
    assert Candidates(qs, rws, pws) == [c1, c2];
    assert SortByStart([c2]) == [c2];
    assert SortByStart([c1, c2]) == [c1, c2];
    assert [c1, c2][..1] == [c1];
    assert Run([c1]).events == [EventFor(1, c1)];
    assert Run([c1, c2]).events == [EventFor(1, c1)];
  }
}
