/** Ordering the combinations by start time. The source sorts with a
    sort that does not promise to keep the order of equal starts, so the
    assignment properties are stated for every ordering sorted by start;
    `SortByStart` is one such ordering. */
module Sorting {
  import opened Matching

  predicate SortedByStart(cs: seq<Candidate>) {
    forall i, j :: 0 <= i < j < |cs| ==> cs[i].start <= cs[j].start
  }

  /** `sorted` is `cs` rearranged into non-decreasing start order. */
  predicate IsSortOf(sorted: seq<Candidate>, cs: seq<Candidate>) {
    multiset(sorted) == multiset(cs) && SortedByStart(sorted)
  }

  function Insert(c: Candidate, s: seq<Candidate>): (r: seq<Candidate>)
    requires SortedByStart(s)
    ensures IsSortOf(r, [c] + s)
  {
    if |s| == 0 || c.start <= s[0].start then
      [c] + s
    else
      var rest := Insert(c, s[1..]);
      InsertBehindHead(c, s, rest);
      [s[0]] + rest
  }

  /** Inserting behind a smaller head: the head stays first. */
  lemma InsertBehindHead(c: Candidate, s: seq<Candidate>, rest: seq<Candidate>)
    requires SortedByStart(s) && |s| > 0 && s[0].start < c.start
    requires IsSortOf(rest, [c] + s[1..])
    ensures IsSortOf([s[0]] + rest, [c] + s)
  {
    assert s == [s[0]] + s[1..];
    LowerBoundByMembers(s[0].start, rest, [c] + s[1..]);
    SortedCons(s[0], rest);
    assert multiset([s[0]] + rest) == multiset([s[0]]) + multiset([c] + s[1..]);
    assert multiset([c] + s) == multiset([c]) + multiset([s[0]] + s[1..]);
  }

  /** Every member of a rearrangement of `orig` starts no earlier than `lo`
      when every member of `orig` does. */
  lemma LowerBoundByMembers(lo: int, perm: seq<Candidate>, orig: seq<Candidate>)
    requires multiset(perm) == multiset(orig)
    requires forall i :: 0 <= i < |orig| ==> lo <= orig[i].start
    ensures forall i :: 0 <= i < |perm| ==> lo <= perm[i].start
  {
    forall i | 0 <= i < |perm| ensures lo <= perm[i].start {
      assert perm[i] in multiset(orig);
      var j :| 0 <= j < |orig| && orig[j] == perm[i];
    }
  }

  lemma SortedCons(x: Candidate, s: seq<Candidate>)
    requires SortedByStart(s)
    requires forall i :: 0 <= i < |s| ==> x.start <= s[i].start
    ensures SortedByStart([x] + s)
  {
    var r := [x] + s;
    forall i, j | 0 <= i < j < |r| ensures r[i].start <= r[j].start {
      if i > 0 { assert r[i] == s[i - 1] && r[j] == s[j - 1]; }
    }
  }

  function SortByStart(cs: seq<Candidate>): (r: seq<Candidate>)
    ensures IsSortOf(r, cs)
  {
    if |cs| == 0 then []
    else
      var rest := SortByStart(cs[1..]);
      assert cs == [cs[0]] + cs[1..];
      Insert(cs[0], rest)
  }

  /** Rearranging keeps exactly the same candidates. */
  lemma SortKeepsMembers(sorted: seq<Candidate>, cs: seq<Candidate>)
    requires IsSortOf(sorted, cs)
    ensures forall c :: c in sorted <==> c in cs
  {
    assert forall c :: c in sorted <==> c in multiset(sorted);
    assert forall c :: c in cs <==> c in multiset(cs);
  }
}
