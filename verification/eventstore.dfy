/**
 * The calendar's in-memory event store (develop/dev11/storage.go).
 *
 * Events live in a map keyed by id; ids come from a counter that starts at
 * one and only ever grows. Times are integers (an instant on a single
 * clock), with `ZeroTime` standing for Go's zero `time.Time`. The mutex is
 * left out: every operation here is one atomic step on an immutable value.
 */
module EventStore {

  /** An instant; the order of integers is the order of time. */
  type Time = int

  /** The instant `time.Time{}` denotes, the one `IsZero` recognises. */
  const ZeroTime: Time := 0

  datatype Event = Event(id: int, date: Time, text: string)

  /** The zero value of Event, which a failed Load returns. */
  const ZeroEvent: Event := Event(0, ZeroTime, "")

  datatype Store = Store(m: map<int, Event>, nextId: int)

  /**
   * The store's invariant: every key is the id of its event and lies below
   * the counter, which never drops below one.
   */
  predicate Valid(s: Store) {
    && s.nextId >= 1
    && forall k | k in s.m :: s.m[k].id == k && 1 <= k < s.nextId
  }

  /** NewEventStore: no events, and the first id handed out will be one. */
  function NewEventStore(): (r: Store)
    ensures Valid(r)
    ensures |r.m| == 0 && r.nextId == 1
  {
    Store(map[], 1)
  }

  /**
   * Save: store the event under the counter's value as its id, then advance
   * the counter. The events already stored stay as they were.
   */
  function Save(s: Store, text: string, date: Time): (r: Store)
    ensures r.nextId == s.nextId + 1
    ensures s.nextId in r.m && r.m[s.nextId] == Event(s.nextId, date, text)
    ensures r.m.Keys == s.m.Keys + {s.nextId}
    ensures forall k | k in s.m && k != s.nextId :: r.m[k] == s.m[k]
    ensures Valid(s) ==> Valid(r) && s.nextId !in s.m && |r.m| == |s.m| + 1
    ensures Valid(s) ==> forall k | k in s.m :: r.m[k] == s.m[k]
  {
    Store(s.m[s.nextId := Event(s.nextId, date, text)], s.nextId + 1)
  }

  /** Load: the event and true when the id is stored, the zero event and false otherwise. */
  function Load(s: Store, id: int): (r: (Event, bool))
    ensures r.1 <==> id in s.m
    ensures r.1 ==> r.0 == s.m[id]
    ensures !r.1 ==> r.0 == ZeroEvent
  {
    if id in s.m then (s.m[id], true) else (ZeroEvent, false)
  }

  /**
   * Change: for a stored id, replace the event, keeping the old text when
   * the new one is empty and the old date when the new one is the zero
   * time; report whether the id was stored.
   */
  function Change(s: Store, id: int, text: string, date: Time): (r: (Store, bool))
    ensures r.1 <==> id in s.m
    ensures !r.1 ==> r.0 == s
    ensures r.0.nextId == s.nextId && r.0.m.Keys == s.m.Keys
    ensures forall k | k in s.m && k != id :: r.0.m[k] == s.m[k]
    ensures r.1 ==> r.0.m[id].id == id
    ensures r.1 ==> r.0.m[id].text == (if text == "" then s.m[id].text else text)
    ensures r.1 ==> r.0.m[id].date == (if date == ZeroTime then s.m[id].date else date)
    ensures Valid(s) ==> Valid(r.0)
  {
    var (el, ok) := Load(s, id);
    if !ok then (s, false)
    else
      var date' := if date == ZeroTime then el.date else date;
      var text' := if text == "" then el.text else text;
      (Store(s.m[id := Event(id, date', text')], s.nextId), true)
  }

  /** Delete: remove a stored id and report whether it was stored. */
  function Delete(s: Store, id: int): (r: (Store, bool))
    ensures r.1 <==> id in s.m
    ensures !r.1 ==> r.0 == s
    ensures r.0.nextId == s.nextId
    ensures r.0.m.Keys == s.m.Keys - {id}
    ensures forall k | k in r.0.m :: r.0.m[k] == s.m[k]
    ensures Valid(s) ==> Valid(r.0)
  {
    var (_, ok) := Load(s, id);
    if !ok then (s, false) else (Store(s.m - {id}, s.nextId), true)
  }

  /**
   * inTimeSpan: the check lies between the two bounds, both included,
   * whichever order they are given in.
   */
  function InTimeSpan(start: Time, end: Time, check: Time): (r: bool)
    ensures r <==> (start <= check <= end || end <= check <= start)
  {
    var (lo, hi) := if start > end then (end, start) else (start, end);
    !(check < lo) && !(check > hi)
  }

  /** The keys whose events fall in the span. */
  function InSpan(s: Store, start: Time, end: Time): set<int> {
    set k | k in s.m && InTimeSpan(start, end, s.m[k].date)
  }

  /** `order` lists every key of the map exactly once: one walk of a Go map. */
  ghost predicate WalkOrder(s: Store, order: seq<int>) {
    && (forall k :: k in s.m <==> k in order)
    && (forall i, j | 0 <= i < j < |order| :: order[i] != order[j])
  }

  /**
   * getBetween: the stored events whose date lies in the span, each once,
   * in the order the map is walked. Go leaves that order unspecified, so
   * it is a parameter: any walk of the map will do.
   */
  method GetBetween(s: Store, start: Time, end: Time, order: seq<int>) returns (result: seq<Event>)
    requires WalkOrder(s, order)
    ensures forall i | 0 <= i < |result| :: InTimeSpan(start, end, result[i].date) && result[i] in s.m.Values
    ensures forall k | k in s.m && InTimeSpan(start, end, s.m[k].date) :: s.m[k] in result
    ensures |result| == |InSpan(s, start, end)|
    ensures Valid(s) ==> forall i, j | 0 <= i < j < |result| :: result[i].id != result[j].id
  {
    result := [];
    ghost var taken: seq<int> := [];
    ghost var chosen: set<int> := {};
    for n := 0 to |order|
      invariant |taken| == |result|
      invariant forall i | 0 <= i < |taken| :: taken[i] in s.m && taken[i] in order[..n] && result[i] == s.m[taken[i]]
      invariant forall i | 0 <= i < |result| :: InTimeSpan(start, end, result[i].date)
      invariant forall i, j | 0 <= i < j < |taken| :: taken[i] != taken[j]
      invariant chosen <= s.m.Keys
      invariant forall x | x in s.m :: x in chosen <==> x in order[..n] && InTimeSpan(start, end, s.m[x].date)
      invariant |chosen| == |result|
      invariant forall x | x in chosen :: s.m[x] in result
    {
      var k := order[n];
      assert order[..n + 1] == order[..n] + [k];
      var v := s.m[k];
      if InTimeSpan(start, end, v.date) {
        assert k !in order[..n];
        result := result + [v];
        taken := taken + [k];
        chosen := chosen + {k};
      }
    }
    assert order[..|order|] == order;
    forall x
      ensures x in chosen <==> x in InSpan(s, start, end)
    {
    }
    assert chosen == InSpan(s, start, end);
    forall i | 0 <= i < |result|
      ensures result[i] in s.m.Values
    {
      assert s.m[taken[i]] == result[i];
    }
  }

  // ------------------------------------------------------------- properties

  /** The bounds are part of the span, and their order does not matter. */
  lemma SpanInclusiveSymmetric(a: Time, b: Time, c: Time)
    ensures InTimeSpan(a, b, a) && InTimeSpan(a, b, b)
    ensures InTimeSpan(a, b, c) == InTimeSpan(b, a, c)
  {
  }

  /** What was saved loads back, with the id it was given. */
  lemma SaveLoad(s: Store, text: string, date: Time)
    ensures Load(Save(s, text, date), s.nextId) == (Event(s.nextId, date, text), true)
  {
  }

  /** Changing a stored event with an empty text and the zero time leaves the store as it was. */
  lemma ChangeNothing(s: Store, id: int)
    requires Valid(s)
    ensures Change(s, id, "", ZeroTime).0 == s
  {
    if id in s.m {
      var r := Change(s, id, "", ZeroTime).0;
      assert r.m[id] == s.m[id];
      assert r.m == s.m;
    }
  }

  /** A deleted id no longer loads. */
  lemma DeleteLoad(s: Store, id: int)
    ensures Load(Delete(s, id).0, id) == (ZeroEvent, false)
  {
  }

  /** The operations a client can apply to the store. */
  datatype Op = SaveOp(text: string, date: Time) | ChangeOp(id: int, newText: string, newDate: Time) | DeleteOp(key: int)

  function Apply(s: Store, op: Op): Store {
    match op
    case SaveOp(text, date) => Save(s, text, date)
    case ChangeOp(id, text, date) => Change(s, id, text, date).0
    case DeleteOp(id) => Delete(s, id).0
  }

  function Run(s: Store, ops: seq<Op>): Store
    decreases |ops|
  {
    if |ops| == 0 then s else Run(Apply(s, ops[0]), ops[1..])
  }

  /**
   * Ids are never reused: whatever happens after a moment, the store stays
   * valid, its counter never goes back, and so the id the next Save hands
   * out differs from every id issued up to that moment, deleted or not.
   */
  lemma {:induction false} NeverReused(s: Store, ops: seq<Op>)
    requires Valid(s)
    ensures Valid(Run(s, ops))
    ensures s.nextId <= Run(s, ops).nextId
    ensures Run(s, ops).nextId !in Run(s, ops).m
    decreases |ops|
  {
    if |ops| > 0 {
      NeverReused(Apply(s, ops[0]), ops[1..]);
    }
  }

  /** Two saves into a new store hold two events; the first loads under id one. */
  lemma TwoSaves(text: string, date: Time)
    ensures var s := Save(Save(NewEventStore(), text, date), text, date);
            |s.m| == 2 && Load(s, 1).1 && Load(s, 1).0.id == 1
  {
  }

  /** Changing only the text keeps the date and stores the new text. */
  lemma ChangeText(text: string, date: Time, newText: string)
    requires newText != ""
    ensures var s := Change(Save(NewEventStore(), text, date), 1, newText, ZeroTime);
            s.1 && Load(s.0, 1) == (Event(1, date, newText), true)
  {
  }
}
