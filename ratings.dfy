/** Aggregation of the rating history: the latest rating of each event, the
    events still without a rating, and the join of ratings with events. */
module Ratings {
  import opened Models
  import opened Sequences

  /** The set of events that some rating of rs refers to. */
  function EventIds(rs: seq<Rating>): set<Uuid> {
    set r | r in rs :: r.eventId
  }

  /** No two ratings of rs refer to the same event. */
  predicate DistinctEventIds(rs: seq<Rating>) {
    forall i, j :: 0 <= i < j < |rs| ==> rs[i].eventId != rs[j].eventId
  }

  /** rs is ordered by timestamp, latest first. */
  predicate SortedDesc(rs: seq<Rating>) {
    forall i, j :: 0 <= i < j < |rs| ==> rs[i].timestamp >= rs[j].timestamp
  }

  // ---------------------------------------------------------------------
  // Stable sort by timestamp, latest first (the library sort the source
  // calls with reverse=True keeps equal timestamps in input order).
  // ---------------------------------------------------------------------

  /** Puts r in front of the first rating of s that is not later than r. */
  function Insert(r: Rating, s: seq<Rating>): seq<Rating> {
    if s == [] || s[0].timestamp <= r.timestamp then [r] + s
    else [s[0]] + Insert(r, s[1..])
  }

  /** Stable sort of rs by timestamp, descending. */
  function SortDesc(rs: seq<Rating>): seq<Rating> {
    if rs == [] then [] else Insert(rs[0], SortDesc(rs[1..]))
  }

  lemma {:induction false} InsertPermutes(r: Rating, s: seq<Rating>)
    ensures multiset(Insert(r, s)) == multiset([r] + s)
  {
    if s != [] && s[0].timestamp > r.timestamp {
      InsertPermutes(r, s[1..]);
      assert s == [s[0]] + s[1..];
    }
  }

  lemma {:induction false} InsertSorted(r: Rating, s: seq<Rating>)
    requires SortedDesc(s)
    ensures SortedDesc(Insert(r, s))
  {
    if s != [] && s[0].timestamp > r.timestamp {
      InsertSorted(r, s[1..]);
      InsertPermutes(r, s[1..]);
      var t := Insert(r, s[1..]);
      forall x | x in t ensures x.timestamp <= s[0].timestamp {
        assert x in multiset(t);
      }
    }
  }

  /** The sort yields a permutation of its input, ordered latest first. */
  lemma {:induction false} SortDescSpec(rs: seq<Rating>)
    ensures multiset(SortDesc(rs)) == multiset(rs) && |SortDesc(rs)| == |rs|
    ensures SortedDesc(SortDesc(rs))
  {
    if rs != [] {
      SortDescSpec(rs[1..]);
      InsertPermutes(rs[0], SortDesc(rs[1..]));
      InsertSorted(rs[0], SortDesc(rs[1..]));
      assert rs == [rs[0]] + rs[1..];
      assert |multiset(SortDesc(rs))| == |multiset(rs)|;
    }
  }

  /** Sorting an already sorted sequence changes nothing. */
  lemma {:induction false} SortDescOfSorted(rs: seq<Rating>)
    requires SortedDesc(rs)
    ensures SortDesc(rs) == rs
  {
    if rs != [] {
      SortDescOfSorted(rs[1..]);
      assert rs == [rs[0]] + rs[1..];
    }
  }

  /** The ratings of rs whose timestamp is t, in their order in rs. */
  function WithTimestamp(rs: seq<Rating>, t: Instant): seq<Rating> {
    if rs == [] then []
    else (if rs[0].timestamp == t then [rs[0]] else []) + WithTimestamp(rs[1..], t)
  }

  lemma WithTimestampCons(x: Rating, s: seq<Rating>, t: Instant)
    ensures WithTimestamp([x] + s, t) == (if x.timestamp == t then [x] else []) + WithTimestamp(s, t)
  {
    assert ([x] + s)[0] == x && ([x] + s)[1..] == s;
  }

  lemma {:induction false} InsertStable(r: Rating, s: seq<Rating>, t: Instant)
    ensures WithTimestamp(Insert(r, s), t) ==
      (if r.timestamp == t then [r] else []) + WithTimestamp(s, t)
  {
    if s == [] || s[0].timestamp <= r.timestamp {
      WithTimestampCons(r, s, t);
    } else {
      InsertStable(r, s[1..], t);
      WithTimestampCons(s[0], Insert(r, s[1..]), t);
      WithTimestampCons(s[0], s[1..], t);
      assert s == [s[0]] + s[1..];
    }
  }

  /** The sort is stable: for every timestamp, the ratings carrying it come
      out in the order they went in. */
  lemma {:induction false} SortDescStable(rs: seq<Rating>, t: Instant)
    ensures WithTimestamp(SortDesc(rs), t) == WithTimestamp(rs, t)
  {
    if rs != [] {
      SortDescStable(rs[1..], t);
      InsertStable(rs[0], SortDesc(rs[1..]), t);
    }
  }

  // ---------------------------------------------------------------------
  // The specification of the latest rating of one event.
  // ---------------------------------------------------------------------

  /** The latest rating of event id in rs; among equally late ones, the one
      that comes first in rs. */
  function LatestOf(rs: seq<Rating>, id: Uuid): Option<Rating> {
    if rs == [] then None
    else
      var rest := LatestOf(rs[1..], id);
      if rs[0].eventId != id then rest
      else if rest.None? || rest.value.timestamp <= rs[0].timestamp then Some(rs[0])
      else rest
  }

  /** LatestOf finds a rating exactly for the events rated in rs; it is a
      rating of rs for that event, no rating of the event is later, and no
      equally late one comes before it. */
  lemma {:induction false} LatestOfSpec(rs: seq<Rating>, id: Uuid)
    ensures LatestOf(rs, id).Some? <==> id in EventIds(rs)
    ensures LatestOf(rs, id).Some? ==>
      var w := LatestOf(rs, id).value;
      && w.eventId == id
      && (exists k :: 0 <= k < |rs| && rs[k] == w &&
            forall j :: 0 <= j < k && rs[j].eventId == id ==> rs[j].timestamp < w.timestamp)
      && forall q :: q in rs && q.eventId == id ==> q.timestamp <= w.timestamp
  {
    if rs != [] {
      LatestOfSpec(rs[1..], id);
      assert EventIds(rs) == {rs[0].eventId} + EventIds(rs[1..]) by {
        assert forall r :: r in rs <==> r == rs[0] || r in rs[1..];
      }
      var rest := LatestOf(rs[1..], id);
      if LatestOf(rs, id) == Some(rs[0]) {
        assert rs[0] == rs[0];
      } else if rest.Some? {
        var w := rest.value;
        var k :| 0 <= k < |rs[1..]| && rs[1..][k] == w &&
          forall j :: 0 <= j < k && rs[1..][j].eventId == id ==> rs[1..][j].timestamp < w.timestamp;
        assert rs[k + 1] == w;
        forall j | 0 <= j < k + 1 && rs[j].eventId == id
          ensures rs[j].timestamp < w.timestamp
        {
          if j > 0 { assert rs[j] == rs[1..][j - 1]; }
        }
      }
    }
  }

  /** The first rating of s for event id. */
  function FirstFor(s: seq<Rating>, id: Uuid): Option<Rating> {
    if s == [] then None
    else if s[0].eventId == id then Some(s[0])
    else FirstFor(s[1..], id)
  }

  lemma {:induction false} FirstForIn(s: seq<Rating>, id: Uuid)
    ensures FirstFor(s, id).Some? ==> FirstFor(s, id).value in s && FirstFor(s, id).value.eventId == id
    ensures FirstFor(s, id).None? ==> id !in EventIds(s)
  {
    if s != [] {
      FirstForIn(s[1..], id);
      assert s == [s[0]] + s[1..];
    }
  }

  lemma {:induction false} FirstForInsert(r: Rating, s: seq<Rating>, id: Uuid)
    requires SortedDesc(s)
    ensures FirstFor(Insert(r, s), id) ==
      if r.eventId != id then FirstFor(s, id)
      else if FirstFor(s, id).None? || FirstFor(s, id).value.timestamp <= r.timestamp then Some(r)
      else FirstFor(s, id)
  {
    if s == [] || s[0].timestamp <= r.timestamp {
      if r.eventId == id && FirstFor(s, id).Some? {
        FirstForIn(s, id);
        var k :| 0 <= k < |s| && s[k] == FirstFor(s, id).value;
      }
    } else if s[0].eventId != id {
      FirstForInsert(r, s[1..], id);
    }
  }

  /** In the sorted ratings, the first one for each event is its latest. */
  lemma {:induction false} FirstForSortDesc(rs: seq<Rating>, id: Uuid)
    ensures FirstFor(SortDesc(rs), id) == LatestOf(rs, id)
  {
    if rs != [] {
      FirstForSortDesc(rs[1..], id);
      SortDescSpec(rs[1..]);
      FirstForInsert(rs[0], SortDesc(rs[1..]), id);
    }
  }

  // ---------------------------------------------------------------------
  // Keeping the first rating seen for each event.
  // ---------------------------------------------------------------------

  /** Scans s from the front and keeps each rating whose event has not been
      kept yet. */
  function KeepFirst(s: seq<Rating>): seq<Rating> {
    if s == [] then []
    else
      var kept := KeepFirst(s[..|s| - 1]);
      if s[|s| - 1].eventId in EventIds(kept) then kept else kept + [s[|s| - 1]]
  }

  lemma {:induction false} KeepFirstIds(s: seq<Rating>)
    ensures DistinctEventIds(KeepFirst(s))
    ensures EventIds(KeepFirst(s)) == EventIds(s)
  {
    if s != [] {
      var p, x := s[..|s| - 1], s[|s| - 1];
      assert s == p + [x];
      KeepFirstIds(p);
      var kept := KeepFirst(p);
      assert EventIds(s) == EventIds(p) + {x.eventId} by {
        assert forall r :: r in s <==> r in p || r == x;
      }
      if x.eventId !in EventIds(kept) {
        var k := kept + [x];
        assert EventIds(k) == EventIds(kept) + {x.eventId} by {
          assert forall r :: r in k <==> r in kept || r == x;
        }
        forall i, j | 0 <= i < j < |k| ensures k[i].eventId != k[j].eventId {
          if j == |kept| { assert k[i] in kept; }
        }
      }
    }
  }

  lemma {:induction false} KeepFirstSubMultiset(s: seq<Rating>)
    ensures multiset(KeepFirst(s)) <= multiset(s)
    ensures |KeepFirst(s)| <= |s|
  {
    if s != [] {
      var p, x := s[..|s| - 1], s[|s| - 1];
      assert s == p + [x];
      KeepFirstSubMultiset(p);
    }
  }

  lemma {:induction false} KeepFirstFirst(s: seq<Rating>)
    ensures forall r :: r in KeepFirst(s) ==> FirstFor(s, r.eventId) == Some(r)
  {
    if s != [] {
      var p, x := s[..|s| - 1], s[|s| - 1];
      assert s == p + [x];
      KeepFirstFirst(p);
      KeepFirstIds(p);
      var kept := KeepFirst(p);
      forall r | r in kept ensures FirstFor(s, r.eventId) == Some(r) {
        FirstForAppend(p, x, r.eventId);
      }
      if x.eventId !in EventIds(kept) {
        FirstForIn(p, x.eventId);
        FirstForAppend(p, x, x.eventId);
      }
    }
  }

  lemma {:induction false} KeepFirstSorted(s: seq<Rating>)
    requires SortedDesc(s)
    ensures SortedDesc(KeepFirst(s))
  {
    if s != [] {
      var p, x := s[..|s| - 1], s[|s| - 1];
      assert s == p + [x];
      KeepFirstSorted(p);
      KeepFirstSubMultiset(p);
      var kept := KeepFirst(p);
      if x.eventId !in EventIds(kept) {
        var k := kept + [x];
        forall i, j | 0 <= i < j < |k| ensures k[i].timestamp >= k[j].timestamp {
          if j == |kept| {
            assert k[i] in multiset(p);
            var m :| 0 <= m < |p| && p[m] == k[i];
            assert s[m] == k[i];
          }
        }
      }
    }
  }

  lemma {:induction false} FirstForAppend(p: seq<Rating>, x: Rating, id: Uuid)
    ensures FirstFor(p + [x], id) ==
      if FirstFor(p, id).Some? then FirstFor(p, id) else if x.eventId == id then Some(x) else None
  {
    if p != [] {
      FirstForAppend(p[1..], x, id);
      assert (p + [x])[1..] == p[1..] + [x];
    }
  }

  /** Keeping the first of each event changes nothing when no event repeats. */
  lemma {:induction false} KeepFirstOfDistinct(s: seq<Rating>)
    requires DistinctEventIds(s)
    ensures KeepFirst(s) == s
  {
    if s != [] {
      var p, x := s[..|s| - 1], s[|s| - 1];
      KeepFirstOfDistinct(p);
      assert s == p + [x];
    }
  }

  // ---------------------------------------------------------------------
  // The latest rating of every event.
  // ---------------------------------------------------------------------

  /** The latest ratings: sort latest first, then keep the first per event. */
  function LatestRatings(rs: seq<Rating>): seq<Rating> {
    KeepFirst(SortDesc(rs))
  }

  /** The latest ratings are ratings of the input, one per rated event and
      every rated event covered, each the latest (ties: the earliest in the
      input) for its event, ordered latest first. */
  lemma LatestRatingsSpec(rs: seq<Rating>)
    ensures DistinctEventIds(LatestRatings(rs))
    ensures EventIds(LatestRatings(rs)) == EventIds(rs)
    ensures multiset(LatestRatings(rs)) <= multiset(rs)
    ensures |LatestRatings(rs)| <= |rs|
    ensures forall r :: r in LatestRatings(rs) ==> LatestOf(rs, r.eventId) == Some(r)
    ensures forall r, q :: r in LatestRatings(rs) && q in rs && q.eventId == r.eventId ==>
      q.timestamp <= r.timestamp
    ensures SortedDesc(LatestRatings(rs))
  {
    LatestRatingsElements(rs);
    LatestRatingsChoice(rs);
    KeepFirstSorted(SortDesc(rs));
  }

  lemma LatestRatingsElements(rs: seq<Rating>)
    ensures SortedDesc(SortDesc(rs))
    ensures DistinctEventIds(LatestRatings(rs))
    ensures EventIds(LatestRatings(rs)) == EventIds(rs)
    ensures multiset(LatestRatings(rs)) <= multiset(rs)
    ensures |LatestRatings(rs)| <= |rs|
  {
    var s := SortDesc(rs);
    SortDescSpec(rs);
    KeepFirstIds(s);
    KeepFirstSubMultiset(s);
    PermutationSameIds(s, rs);
  }

  lemma PermutationSameIds(a: seq<Rating>, b: seq<Rating>)
    requires multiset(a) == multiset(b)
    ensures EventIds(a) == EventIds(b)
  {
    forall r ensures r in a <==> r in b {
      assert r in a <==> r in multiset(a);
      assert r in b <==> r in multiset(b);
    }
  }

  lemma LatestRatingsChoice(rs: seq<Rating>)
    ensures forall r :: r in LatestRatings(rs) ==> LatestOf(rs, r.eventId) == Some(r)
    ensures forall r, q :: r in LatestRatings(rs) && q in rs && q.eventId == r.eventId ==>
      q.timestamp <= r.timestamp
  {
    KeepFirstFirst(SortDesc(rs));
    forall r | r in LatestRatings(rs) ensures LatestOf(rs, r.eventId) == Some(r) {
      FirstForSortDesc(rs, r.eventId);
    }
    forall r, q | r in LatestRatings(rs) && q in rs && q.eventId == r.eventId
      ensures q.timestamp <= r.timestamp
    {
      LatestOfSpec(rs, r.eventId);
    }
  }

  /** Filtering the latest ratings again returns them unchanged. */
  lemma LatestRatingsIdempotent(rs: seq<Rating>)
    ensures LatestRatings(LatestRatings(rs)) == LatestRatings(rs)
  {
    var once := LatestRatings(rs);
    LatestRatingsSpec(rs);
    SortDescOfSorted(once);
    KeepFirstOfDistinct(once);
  }

  /** The latest rating of each event, as the source computes it: a stable
      sort latest first, then a loop that appends a rating when its event
      has not been kept yet. */
  method FilterLatestRatings(ratings: seq<Rating>) returns (latest: seq<Rating>)
    ensures latest == LatestRatings(ratings)
    ensures DistinctEventIds(latest) && EventIds(latest) == EventIds(ratings)
    ensures forall r, q :: r in latest && q in ratings && q.eventId == r.eventId ==>
      q.timestamp <= r.timestamp
  {
    var sorted := SortDesc(ratings);
    latest := [];
    for i := 0 to |sorted|
      invariant latest == KeepFirst(sorted[..i])
    {
      assert sorted[..i + 1][..i] == sorted[..i];
      var rating := sorted[i];
      if rating.eventId !in EventIds(latest) {
        latest := latest + [rating];
      }
    }
    assert sorted[..|sorted|] == sorted;
    LatestRatingsSpec(ratings);
  }

  /** No ratings give no latest ratings; one rating is its own latest; of
      two ratings of one event on consecutive days, the later one is kept. */
  lemma LatestRatingsExamples()
    ensures LatestRatings([]) == []
    ensures LatestRatings([Rating(1, 8, 20230101)]) == [Rating(1, 8, 20230101)]
    ensures LatestRatings([Rating(1, 8, 20230101), Rating(1, 10, 20230102)]) == [Rating(1, 10, 20230102)]
  {
  }

  // ---------------------------------------------------------------------
  // Events without a rating.
  // ---------------------------------------------------------------------

  /** The events, in input order, whose id no rating refers to. */
  function UnratedEvents(events: seq<Event>, ratings: seq<Rating>): (r: seq<Event>)
    ensures forall e :: e in r <==> e in events && e.id !in EventIds(ratings)
    ensures forall e :: multiset(r)[e] == if e.id in EventIds(ratings) then 0 else multiset(events)[e]
  {
    if events == [] then []
    else
      var rest := UnratedEvents(events[1..], ratings);
      assert events == [events[0]] + events[1..];
      if events[0].id in EventIds(ratings) then rest else [events[0]] + rest
  }

  /** The unrated events keep their input order. */
  lemma {:induction false} UnratedEventsInOrder(events: seq<Event>, ratings: seq<Rating>)
    ensures IsSubsequence(UnratedEvents(events, ratings), events)
  {
    if events != [] {
      UnratedEventsInOrder(events[1..], ratings);
    }
  }

  /** Without ratings every event is unrated. */
  lemma {:induction false} UnratedEventsNoRatings(events: seq<Event>)
    ensures UnratedEvents(events, []) == events
  {
    if events != [] {
      UnratedEventsNoRatings(events[1..]);
      assert events == [events[0]] + events[1..];
    }
  }

  // ---------------------------------------------------------------------
  // Join of ratings with events (as the command line does it before
  // optimizing).
  // ---------------------------------------------------------------------

  /** The first event with the given id. */
  function EventWithId(events: seq<Event>, id: Uuid): (r: Option<Event>)
    ensures r.Some? ==> r.value in events && r.value.id == id
    ensures r.None? ==> forall e :: e in events ==> e.id != id
    ensures r.Some? ==> exists k ::
      0 <= k < |events| && events[k] == r.value && forall l :: 0 <= l < k ==> events[l].id != id
  {
    if events == [] then None
    else if events[0].id == id then Some(events[0])
    else
      var r := EventWithId(events[1..], id);
      if r.Some? then
        var k :|
          0 <= k < |events[1..]| && events[1..][k] == r.value && forall l :: 0 <= l < k ==> events[1..][l].id != id;
        assert events[k + 1] == r.value;
        assert forall l :: 0 <= l < k + 1 ==> events[l].id != id by {
          forall l | 0 <= l < k + 1 ensures events[l].id != id {
            if l > 0 { assert events[l] == events[1..][l - 1]; }
          }
        }
        r
      else r
  }

  /** Pairs each rating, in order, with the first event it refers to; fails
      (an index error in the source) when a rating refers to no event. */
  function JoinRatings(events: seq<Event>, ratings: seq<Rating>): (r: Option<seq<EventRating>>)
    ensures r.None? <==> exists q :: q in ratings && EventWithId(events, q.eventId).None?
    ensures r.Some? ==> |r.value| == |ratings|
    ensures r.Some? ==> forall k :: 0 <= k < |ratings| ==>
      && r.value[k].rating == ratings[k]
      && r.value[k].event in events
      && r.value[k].event.id == ratings[k].eventId
      && Some(r.value[k].event) == EventWithId(events, ratings[k].eventId)
  {
    if ratings == [] then Some([])
    else
      match EventWithId(events, ratings[0].eventId)
      case None => None
      case Some(e) =>
        match JoinRatings(events, ratings[1..])
        case None => None
        case Some(rest) => Some([EventRating(e, ratings[0])] + rest)
  }
}
