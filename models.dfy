/** Records of the conference schedule: rooms, events, ratings and the
    (event, rating) pairs handed to the optimizer, with the overlap test
    between two events and the derived names of an event. */
module Models {

  /** Opaque stable identifiers (UUIDs in the system) are modelled as integers. */
  type Uuid = int

  /** Instants are modelled as integers on one time line; only their order is used. */
  type Instant = int

  datatype Option<T> = None | Some(value: T)

  datatype Event = Event(
    id: Uuid,
    name: string,
    slug: string,
    track: Option<string>,
    assembly: string,
    room: Option<Uuid>,
    description: string,
    scheduleStart: Instant,
    scheduleEnd: Instant)

  /** A utility score given to an event at some instant; higher is better. */
  datatype Rating = Rating(eventId: Uuid, score: int, timestamp: Instant)

  /** The scores of the ratings, position by position. */
  function Scores(ratings: seq<Rating>): (scores: seq<int>)
    ensures |scores| == |ratings|
    ensures forall k :: 0 <= k < |ratings| ==> scores[k] == ratings[k].score
  {
    seq(|ratings|, k requires 0 <= k < |ratings| => ratings[k].score)
  }

  /** One event paired with the rating the optimizer uses for it. */
  datatype EventRating = EventRating(event: Event, rating: Rating)

  /** Base of the public event pages (optimal_congress/config.py). */
  const HubEventRoute: string := "https://events.ccc.de/congress/2023/hub/en/event"

  /** The page of an event: the hub route, a slash, then the slug. */
  function Url(e: Event): (u: string)
    ensures |u| == |HubEventRoute| + 1 + |e.slug|
    ensures u[..|HubEventRoute|] == HubEventRoute && u[|HubEventRoute|] == '/'
    ensures u[|HubEventRoute| + 1..] == e.slug
  {
    HubEventRoute + "/" + e.slug
  }

  /** Two events share a page exactly when they share a slug. */
  lemma UrlInjective(a: Event, b: Event)
    ensures Url(a) == Url(b) <==> a.slug == b.slug
  {
  }

  /** Two events overlap when their half-open intervals
      [scheduleStart, scheduleEnd) intersect. */
  predicate EventsOverlap(a: Event, b: Event) {
    a.scheduleStart < b.scheduleEnd && b.scheduleStart < a.scheduleEnd
  }

  /** The order of the arguments does not matter. */
  lemma OverlapSymmetric(a: Event, b: Event)
    ensures EventsOverlap(a, b) == EventsOverlap(b, a)
  {
  }

  /** Only the two instants of each event matter; id, slug, name, room and
      every other field are irrelevant. */
  lemma OverlapDependsOnlyOnSchedule(a: Event, b: Event, a': Event, b': Event)
    requires a.scheduleStart == a'.scheduleStart && a.scheduleEnd == a'.scheduleEnd
    requires b.scheduleStart == b'.scheduleStart && b.scheduleEnd == b'.scheduleEnd
    ensures EventsOverlap(a, b) == EventsOverlap(a', b')
  {
  }

  /** The instant t lies within the event. */
  predicate Covers(e: Event, t: Instant) {
    e.scheduleStart <= t < e.scheduleEnd
  }

  /** For events of positive length, overlapping means sharing some instant. */
  lemma OverlapIffCommonInstant(a: Event, b: Event)
    requires a.scheduleStart < a.scheduleEnd && b.scheduleStart < b.scheduleEnd
    ensures EventsOverlap(a, b) <==> exists t: Instant :: Covers(a, t) && Covers(b, t)
  {
    if EventsOverlap(a, b) {
      var t := if a.scheduleStart < b.scheduleStart then b.scheduleStart else a.scheduleStart;
      assert Covers(a, t) && Covers(b, t);
    }
  }

  /** An event of positive length overlaps itself, which is why the
      optimizer never compares an event with itself. */
  lemma OverlapReflexive(a: Event)
    requires a.scheduleStart < a.scheduleEnd
    ensures EventsOverlap(a, a)
  {
  }

  /** An event named after its slug, from hour start to hour end of one day. */
  function At(id: Uuid, slug: string, start: Instant, end: Instant): Event {
    Event(id, slug, slug, Some(slug), slug, None, slug, start, end)
  }

  /** The fixed cases: [12,14) and [13,15) overlap, [12,14) and [15,17) do
      not, and [12,13) and [13,14) only touch, so they do not overlap. */
  lemma OverlapExamples()
    ensures EventsOverlap(At(1, "foo", 12, 14), At(2, "bar", 13, 15))
    ensures !EventsOverlap(At(1, "foo", 12, 14), At(2, "bar", 15, 17))
    ensures !EventsOverlap(At(1, "foo", 12, 13), At(2, "bar", 13, 14))
    ensures !EventsOverlap(At(2, "bar", 13, 14), At(1, "foo", 12, 13))
  {
  }

  /** Touching intervals never overlap. */
  lemma TouchingDoNotOverlap(a: Event, b: Event)
    requires a.scheduleEnd == b.scheduleStart
    ensures !EventsOverlap(a, b) && !EventsOverlap(b, a)
  {
  }

  /** The name the solver library gives to the variable of an event: the
      slug with every '-' replaced by '_'. */
  function VarName(slug: string): (n: string)
    ensures |n| == |slug|
    ensures forall k :: 0 <= k < |slug| ==> n[k] == if slug[k] == '-' then '_' else slug[k]
    ensures '-' !in n
  {
    if slug == [] then []
    else [if slug[0] == '-' then '_' else slug[0]] + VarName(slug[1..])
  }

  /** A slug without '-' is its own variable name. */
  lemma VarNameWithoutDash(slug: string)
    requires '-' !in slug
    ensures VarName(slug) == slug
  {
  }

  /** Distinct slugs may still share a variable name, which is why the
      optimizer needs the names distinct after the replacement. */
  lemma VarNameCollision()
    ensures "a-b" != "a_b" && VarName("a-b") == VarName("a_b")
  {
  }
}
