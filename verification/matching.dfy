/** Slot generation for rooms and professors, and candidate matching:
    for each student, every (room slot, professor slot) pair on the
    student's date with identical start and end. */
module Matching {
  import opened Time
  import opened Slots

  /** Identifiers of students (`id_disponibilidad`), professors
      (`id_tribunal`) and rooms (`id_sala`). */
  type Id = int

  /** One availability row of a room or a professor, its date and times
      already combined into two instants. */
  datatype Window = Window(owner: Id, start: Minute, end: Minute)

  /** One generated slot row: the owner, start and end; its date is the
      date of its start. */
  datatype OwnedSlot = OwnedSlot(owner: Id, start: Minute, end: Minute) {
    function Date(): int {
      DateOf(start)
    }
  }

  /** One student awaiting a defense: the request id, the thesis title and
      the requested date (a day number). */
  datatype Request = Request(id: Id, title: string, date: int)

  /** One combination row: a student together with a room slot and a
      professor slot of the same start and end. */
  datatype Candidate = Candidate(student: Id, title: string, start: Minute, end: Minute,
                                 professor: Id, room: Id)

  /** `s` is one of the slots the segmenter cuts from window `w`. */
  predicate SlotOfWindow(s: OwnedSlot, w: Window) {
    s.owner == w.owner && Slot(s.start, s.end) in Segment(w.start, w.end, DefaultDuration)
  }

  /** The slot rows generated from one window, in order. */
  function WindowSlots(w: Window): (r: seq<OwnedSlot>)
    ensures |r| == SlotCount(w.start, w.end, DefaultDuration)
    ensures forall s :: s in r <==> SlotOfWindow(s, w)
  {
    var slots := Segment(w.start, w.end, DefaultDuration);
    var r := seq(|slots|, i requires 0 <= i < |slots| => OwnedSlot(w.owner, slots[i].start, slots[i].end));
    assert forall s :: SlotOfWindow(s, w) ==> s in r by {
      forall s | SlotOfWindow(s, w) ensures s in r {
        var i :| 0 <= i < |slots| && slots[i] == Slot(s.start, s.end);
        assert r[i] == s;
      }
    }
    r
  }

  /** The slot rows of a whole table of windows, window by window. */
  function AllSlots(ws: seq<Window>): (r: seq<OwnedSlot>)
    ensures forall s :: s in r <==> exists w :: w in ws && SlotOfWindow(s, w)
  {
    if |ws| == 0 then []
    else
      var rest := AllSlots(ws[1..]);
      assert forall w :: w in ws <==> w == ws[0] || w in ws[1..];
      WindowSlots(ws[0]) + rest
  }

  /** The matching condition: the room slot's date and the professor slot's
      date are the student's date, and the two slots start and end together. */
  predicate Matches(q: Request, room: OwnedSlot, prof: OwnedSlot) {
    && room.Date() == q.date
    && prof.Date() == q.date
    && prof.start == room.start
    && prof.end == room.end
  }

  /** The combination row emitted for a matching triple. */
  function Combine(q: Request, room: OwnedSlot, prof: OwnedSlot): Candidate {
    Candidate(q.id, q.title, room.start, room.end, prof.owner, room.owner)
  }

  /** Innermost loop: every professor slot of the student's date that starts
      and ends with the given room slot. */
  function ProfessorPass(q: Request, room: OwnedSlot, profs: seq<OwnedSlot>): (r: seq<Candidate>)
    ensures forall c :: c in r <==>
              exists p :: p in profs && p.Date() == q.date && p.start == room.start
                          && p.end == room.end && c == Combine(q, room, p)
  {
    if |profs| == 0 then []
    else
      var p := profs[0];
      var rest := ProfessorPass(q, room, profs[1..]);
      assert forall x :: x in profs <==> x == p || x in profs[1..];
      if p.Date() == q.date && p.start == room.start && p.end == room.end then
        [Combine(q, room, p)] + rest
      else
        rest
  }

  /** Middle loop: room slots of another date are skipped; each remaining
      one is paired with the professor slots. */
  function RoomPass(q: Request, rooms: seq<OwnedSlot>, profs: seq<OwnedSlot>): (r: seq<Candidate>)
    ensures forall c :: c in r <==>
              exists a, p :: a in rooms && p in profs && Matches(q, a, p) && c == Combine(q, a, p)
  {
    if |rooms| == 0 then []
    else
      var a := rooms[0];
      var rest := RoomPass(q, rooms[1..], profs);
      assert forall x :: x in rooms <==> x == a || x in rooms[1..];
      if a.Date() != q.date then
        rest
      else
        ProfessorPass(q, a, profs) + rest
  }

  /** Outer loop: the combinations of every student, student by student. */
  function Combinations(qs: seq<Request>, rooms: seq<OwnedSlot>, profs: seq<OwnedSlot>): (r: seq<Candidate>)
    ensures forall c :: c in r <==>
              exists q, a, p :: q in qs && a in rooms && p in profs && Matches(q, a, p)
                                && c == Combine(q, a, p)
  {
    if |qs| == 0 then []
    else
      var rest := Combinations(qs[1..], rooms, profs);
      assert forall x :: x in qs <==> x == qs[0] || x in qs[1..];
      RoomPass(qs[0], rooms, profs) + rest
  }
}
