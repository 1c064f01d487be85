/** The greedy assignment pass: walk the combinations once, in the given
    order, committing a combination unless its student is already placed
    or its professor or room is already busy at its start time. */
module Greedy {
  import opened Time
  import opened Matching
  import opened Sorting
  import opened Calendar

  /** One calendar event. The source's event record keeps the id, title,
      start, end and tag; the student, professor and room of the committed
      combination are carried along so that the properties can name them. */
  datatype Event = Event(id: int, title: string, start: Minute, end: Minute, calendar: string,
                         student: Id, professor: Id, room: Id)

  /** The event committed for combination `c` under event id `id`. */
  function EventFor(id: int, c: Candidate): Event {
    Event(id, c.title, c.start, c.end, Success, c.student, c.professor, c.room)
  }

  /** The combination an event was committed from. */
  function CandidateOf(e: Event): Candidate {
    Candidate(e.student, e.title, e.start, e.end, e.professor, e.room)
  }

  /** The bookkeeping of the pass: the students already placed, the start
      times each professor and each room is occupied at (absent key = none),
      the next event id, and the events so far. */
  datatype State = State(usedStudents: set<Id>,
                         professorBusy: map<Id, set<Minute>>,
                         roomBusy: map<Id, set<Minute>>,
                         nextId: int,
                         events: seq<Event>)

  const Initial: State := State({}, map[], map[], 1, [])

  /** The occupied start times of `k`, empty when `k` has none yet. */
  function Busy(m: map<Id, set<Minute>>, k: Id): set<Minute> {
    if k in m then m[k] else {}
  }

  /** Mark `k` occupied at `t`, creating its entry when missing. */
  function Occupy(m: map<Id, set<Minute>>, k: Id, t: Minute): map<Id, set<Minute>> {
    m[k := Busy(m, k) + {t}]
  }

  /** One iteration of the pass over combination `c`. */
  function Step(st: State, c: Candidate): (r: State)
    ensures r == st
            || (&& r.events == st.events + [EventFor(st.nextId, c)]
                && r.nextId == st.nextId + 1
                && c.student in r.usedStudents
                && c.start in Busy(r.professorBusy, c.professor)
                && c.start in Busy(r.roomBusy, c.room))
  {
    if c.student in st.usedStudents then st
    else if c.start in Busy(st.professorBusy, c.professor) then st
    else if c.start in Busy(st.roomBusy, c.room) then st
    else
      State(st.usedStudents + {c.student},
            Occupy(st.professorBusy, c.professor, c.start),
            Occupy(st.roomBusy, c.room, c.start),
            st.nextId + 1,
            st.events + [EventFor(st.nextId, c)])
  }

  /** The state after walking `cs` from the first element to the last. */
  function Run(cs: seq<Candidate>): (r: State)
    ensures r.nextId == |r.events| + 1
    ensures |r.events| <= |cs|
  {
    if |cs| == 0 then Initial
    else Step(Run(cs[..|cs| - 1]), cs[|cs| - 1])
  }

  // ---------------------------------------------------------------------
  // The same pass stated over the event list alone, without occupancy sets

  /** Committing `c` next to event `e` would double-book a student, a
      professor at one start time, or a room at one start time. */
  predicate Clashes(e: Event, c: Candidate) {
    || e.student == c.student
    || (e.professor == c.professor && e.start == c.start)
    || (e.room == c.room && e.start == c.start)
  }

  predicate Blocked(events: seq<Event>, c: Candidate) {
    exists e :: e in events && Clashes(e, c)
  }

  /** Reference greedy: commit each combination that clashes with no event
      committed before it, numbering events from 1. */
  function Reference(cs: seq<Candidate>): (r: seq<Event>)
    ensures |r| <= |cs|
  {
    if |cs| == 0 then []
    else
      var ev := Reference(cs[..|cs| - 1]);
      var c := cs[|cs| - 1];
      if Blocked(ev, c) then ev else ev + [EventFor(|ev| + 1, c)]
  }

  function StudentsOf(events: seq<Event>): set<Id> {
    set e | e in events :: e.student
  }

  function ProfessorStarts(events: seq<Event>): set<(Id, Minute)> {
    set e | e in events :: (e.professor, e.start)
  }

  function RoomStarts(events: seq<Event>): set<(Id, Minute)> {
    set e | e in events :: (e.room, e.start)
  }

  /** The occupancy sets and the id counter describe exactly the events. */
  ghost predicate Tracks(st: State) {
    && st.nextId == |st.events| + 1
    && st.usedStudents == StudentsOf(st.events)
    && (forall p, t :: t in Busy(st.professorBusy, p) <==> (p, t) in ProfessorStarts(st.events))
    && (forall r, t :: t in Busy(st.roomBusy, r) <==> (r, t) in RoomStarts(st.events))
  }

  lemma OccupyBusy(m: map<Id, set<Minute>>, k: Id, t: Minute, p: Id)
    ensures Busy(Occupy(m, k, t), p) == if p == k then Busy(m, k) + {t} else Busy(m, p)
  {
  }

  lemma AppendSets(ev: seq<Event>, e: Event)
    ensures StudentsOf(ev + [e]) == StudentsOf(ev) + {e.student}
    ensures ProfessorStarts(ev + [e]) == ProfessorStarts(ev) + {(e.professor, e.start)}
    ensures RoomStarts(ev + [e]) == RoomStarts(ev) + {(e.room, e.start)}
  {
    assert forall x :: x in ev + [e] <==> x in ev || x == e;
  }

  /** With the sets in step, the three membership tests of `Step` together
      say exactly whether `c` clashes with an earlier event. */
  lemma SetTestsDecideBlocked(st: State, c: Candidate)
    requires Tracks(st)
    ensures Blocked(st.events, c) <==>
              || c.student in st.usedStudents
              || c.start in Busy(st.professorBusy, c.professor)
              || c.start in Busy(st.roomBusy, c.room)
  {
    var ev := st.events;
    if c.student in st.usedStudents {
      var e :| e in ev && e.student == c.student;
      assert Clashes(e, c);
    } else if c.start in Busy(st.professorBusy, c.professor) {
      assert (c.professor, c.start) in ProfessorStarts(ev);
      var e :| e in ev && (e.professor, e.start) == (c.professor, c.start);
      assert Clashes(e, c);
    } else if c.start in Busy(st.roomBusy, c.room) {
      assert (c.room, c.start) in RoomStarts(ev);
      var e :| e in ev && (e.room, e.start) == (c.room, c.start);
      assert Clashes(e, c);
    } else {
      forall e | e in ev ensures !Clashes(e, c) {
        assert e.student in StudentsOf(ev);
        assert (e.professor, e.start) in ProfessorStarts(ev);
        assert (e.room, e.start) in RoomStarts(ev);
      }
    }
  }

  /** A committing step keeps the sets in step with the events. */
  lemma CommitKeepsTracks(st: State, c: Candidate)
    requires Tracks(st)
    requires !Blocked(st.events, c)
    ensures Tracks(Step(st, c))
    ensures Step(st, c).events == st.events + [EventFor(|st.events| + 1, c)]
  {
    SetTestsDecideBlocked(st, c);
    var e := EventFor(st.nextId, c);
    var st' := Step(st, c);
    assert st'.events == st.events + [e];
    AppendSets(st.events, e);
    forall p, t ensures t in Busy(st'.professorBusy, p) <==> (p, t) in ProfessorStarts(st'.events) {
      OccupyBusy(st.professorBusy, c.professor, c.start, p);
    }
    forall r, t ensures t in Busy(st'.roomBusy, r) <==> (r, t) in RoomStarts(st'.events) {
      OccupyBusy(st.roomBusy, c.room, c.start, r);
    }
  }

  /** One step of the set-based pass commits exactly when the reference
      would, and keeps the occupancy sets in step with the events. */
  lemma StepFollowsReference(st: State, c: Candidate)
    requires Tracks(st)
    ensures Tracks(Step(st, c))
    ensures Step(st, c).events ==
              if Blocked(st.events, c) then st.events else st.events + [EventFor(|st.events| + 1, c)]
  {
    SetTestsDecideBlocked(st, c);
    if !Blocked(st.events, c) {
      CommitKeepsTracks(st, c);
    }
  }

  /** The set-based pass produces exactly the reference events. */
  lemma {:induction false} RunIsReference(cs: seq<Candidate>)
    ensures Tracks(Run(cs))
    ensures Run(cs).events == Reference(cs)
  {
    if |cs| > 0 {
      RunIsReference(cs[..|cs| - 1]);
      StepFollowsReference(Run(cs[..|cs| - 1]), cs[|cs| - 1]);
    }
  }

  // ---------------------------------------------------------------------
  // Properties of the reference pass

  /** No student twice; no professor and no room twice at one start time. */
  predicate ConflictFree(ev: seq<Event>) {
    forall i, j :: 0 <= i < j < |ev| ==>
      && ev[i].student != ev[j].student
      && (ev[i].professor == ev[j].professor ==> ev[i].start != ev[j].start)
      && (ev[i].room == ev[j].room ==> ev[i].start != ev[j].start)
  }

  predicate NumberedFromOne(ev: seq<Event>) {
    forall i :: 0 <= i < |ev| ==> ev[i].id == i + 1
  }

  /** Every event is a success-tagged copy of one of the combinations. */
  predicate DrawnFrom(ev: seq<Event>, cs: seq<Candidate>) {
    forall i :: 0 <= i < |ev| ==> ev[i].calendar == Success && CandidateOf(ev[i]) in cs
  }

  predicate StartOrdered(ev: seq<Event>) {
    forall i, j :: 0 <= i < j < |ev| ==> ev[i].start <= ev[j].start
  }

  /** No combination could be added without a clash. */
  predicate Maximal(ev: seq<Event>, cs: seq<Candidate>) {
    forall c :: c in cs ==> Blocked(ev, c)
  }

  /** Events are numbered 1, 2, ..., n and there are no more events than
      combinations. */
  lemma {:induction false} ReferenceNumbered(cs: seq<Candidate>)
    ensures |Reference(cs)| <= |cs|
    ensures NumberedFromOne(Reference(cs))
  {
    if |cs| > 0 {
      ReferenceNumbered(cs[..|cs| - 1]);
    }
  }

  /** Every event comes from one of the combinations walked. */
  lemma {:induction false} ReferenceDrawnFrom(cs: seq<Candidate>)
    ensures DrawnFrom(Reference(cs), cs)
  {
    if |cs| > 0 {
      var pre := cs[..|cs| - 1];
      ReferenceDrawnFrom(pre);
      assert forall c :: c in pre ==> c in cs;
    }
  }

  /** The pass never double-books a student, a professor or a room. */
  lemma {:induction false} ReferenceConflictFree(cs: seq<Candidate>)
    ensures ConflictFree(Reference(cs))
  {
    if |cs| > 0 {
      var pre := cs[..|cs| - 1];
      var c := cs[|cs| - 1];
      var ev := Reference(pre);
      ReferenceConflictFree(pre);
      if !Blocked(ev, c) {
        var r := ev + [EventFor(|ev| + 1, c)];
        forall i, j | 0 <= i < j < |r|
          ensures r[i].student != r[j].student
          ensures r[i].professor == r[j].professor ==> r[i].start != r[j].start
          ensures r[i].room == r[j].room ==> r[i].start != r[j].start
        {
          if j == |ev| {
            assert r[i] in ev && !Clashes(r[i], c);
          }
        }
      }
    }
  }

  /** Every combination walked, committed or skipped, clashes with some
      event: a skipped one was blocked by an earlier commit. */
  lemma {:induction false} ReferenceMaximal(cs: seq<Candidate>)
    ensures Maximal(Reference(cs), cs)
  {
    if |cs| > 0 {
      var pre := cs[..|cs| - 1];
      var c := cs[|cs| - 1];
      var ev := Reference(pre);
      ReferenceMaximal(pre);
      var r := Reference(cs);
      assert forall e :: e in ev ==> e in r;
      forall x | x in cs ensures Blocked(r, x) {
        if x in pre {
          var e :| e in ev && Clashes(e, x);
          assert e in r;
        } else if !Blocked(ev, c) {
          assert x == c;
          assert Clashes(r[|ev|], c);
        }
      }
    }
  }

  /** Walking combinations sorted by start yields events in start order. */
  lemma {:induction false} ReferenceOrdered(cs: seq<Candidate>)
    requires SortedByStart(cs)
    ensures StartOrdered(Reference(cs))
  {
    if |cs| > 0 {
      var pre := cs[..|cs| - 1];
      var c := cs[|cs| - 1];
      var ev := Reference(pre);
      ReferenceOrdered(pre);
      ReferenceDrawnFrom(pre);
      if !Blocked(ev, c) {
        var r := ev + [EventFor(|ev| + 1, c)];
        forall i, j | 0 <= i < j < |r| ensures r[i].start <= r[j].start {
          if j == |ev| {
            var k :| 0 <= k < |pre| && pre[k] == CandidateOf(ev[i]);
            assert cs[k].start <= cs[|cs| - 1].start;
          }
        }
      }
    }
  }

  /** The source's pass, with its occupancy sets and id counter, over
      combinations in any order: ids 1..n, at most one event per
      combination, each event a committed combination, no double booking,
      no combination left that could still be added, and start order
      whenever the combinations are in start order. */
  lemma GreedyCorrect(cs: seq<Candidate>)
    ensures var ev := Run(cs).events;
      && |ev| <= |cs|
      && NumberedFromOne(ev)
      && Run(cs).nextId == |ev| + 1
      && DrawnFrom(ev, cs)
      && ConflictFree(ev)
      && Maximal(ev, cs)
      && (SortedByStart(cs) ==> StartOrdered(ev))
  {
    RunIsReference(cs);
    ReferenceNumbered(cs);
    ReferenceDrawnFrom(cs);
    ReferenceConflictFree(cs);
    ReferenceMaximal(cs);
    if SortedByStart(cs) {
      ReferenceOrdered(cs);
    }
  }

  /** The same guarantees for whatever order an unstable sort by start
      picks: they hold relative to the unsorted combinations. */
  lemma GreedyOverAnySort(order: seq<Candidate>, cs: seq<Candidate>)
    requires IsSortOf(order, cs)
    ensures var ev := Run(order).events;
      && |ev| <= |cs|
      && NumberedFromOne(ev)
      && DrawnFrom(ev, cs)
      && ConflictFree(ev)
      && Maximal(ev, cs)
      && StartOrdered(ev)
  {
    GreedyCorrect(order);
    SortKeepsMembers(order, cs);
    assert |order| == |multiset(order)| == |multiset(cs)| == |cs|;
  }

  /** Occupancy is keyed by start time only: one room booked for [540, 580)
      and for [560, 600) passes every test, though the two overlap. */
  lemma OverlapNotExcluded()
    ensures var ev := Run([Candidate(1, "A", 540, 580, 20, 10), Candidate(2, "B", 560, 600, 21, 10)]).events;
            && |ev| == 2
            && ev[0].room == ev[1].room
            && ev[0].start < ev[1].start < ev[0].end
  {
    var c1, c2 := Candidate(1, "A", 540, 580, 20, 10), Candidate(2, "B", 560, 600, 21, 10);
    assert [c1, c2][..1] == [c1];
    assert [c1][..0] == [];
    assert Run([c1]).events == [EventFor(1, c1)];
  }
}
