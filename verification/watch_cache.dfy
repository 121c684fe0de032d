/**
 * The watch cache of the API server's cacher, as its tests pin it down: a
 * keyed store of pods with Add, Update, Delete, Get, List and Replace, a
 * fixed-capacity ring of the change events that produced it, the "events
 * since a revision" query a watcher starts from, and the choice of a
 * secondary index when listing.
 *
 * Objects are pods reduced to what the tests look at. Resource versions are
 * natural numbers (the source parses them from decimal strings).
 */
module WatchCache {

  import opened Wrappers
  import opened Strs

  // ---------------------------------------------------------------------
  // Objects, store elements and events
  // ---------------------------------------------------------------------

  /** A pod: namespace, name, resource version, node name and labels. */
  datatype Pod = Pod(namespace: string, name: string, resourceVersion: nat, nodeName: string, labels: map<string, string>)

  /** What the store holds for an object: its key, the object, and its extracted labels and fields. */
  datatype StoreElement = StoreElement(key: string, obj: Pod, labels: map<string, string>, fields: map<string, string>)

  datatype EventType = Added | Modified | Deleted

  /** A change event: its type, the new object, the object it replaced if any, its key and revision. */
  datatype Event = Event(kind: EventType, obj: Pod, prevObject: Option<Pod>, key: string, resourceVersion: nat)

  /**
   * The errors of the model: a revision older than the event window can
   * serve (a ResourceExpired status error), a window with nothing to start
   * from, and a revision the cache has not reached.
   */
  datatype CacheError =
    | TooOld(requested: nat, oldest: nat)
    | NotInitialized
    | TooLarge(requested: nat, current: nat)

  /** The field name the pod attribute function extracts. */
  const NodeNameField := "spec.nodeName"

  /** The namespace key function: the key prefix, the namespace and the name, joined by slashes. */
  function KeyOf(prefix: string, pod: Pod): string
  {
    prefix + "/" + pod.namespace + "/" + pod.name
  }

  /** The store element of a pod: its key, labels and node name field. */
  function ElementOf(prefix: string, pod: Pod): (e: StoreElement)
    ensures e.key == KeyOf(prefix, pod) && e.obj == pod
    ensures e.labels == pod.labels && NodeNameField in e.fields && e.fields[NodeNameField] == pod.nodeName
  {
    StoreElement(KeyOf(prefix, pod), pod, pod.labels, map[NodeNameField := pod.nodeName])
  }

  /** Two pods of one namespace have one key exactly when they have one name. */
  lemma KeyOfInjective(prefix: string, p1: Pod, p2: Pod)
    requires p1.namespace == p2.namespace
    ensures KeyOf(prefix, p1) == KeyOf(prefix, p2) <==> p1.name == p2.name
  {
    var head := prefix + "/" + p1.namespace + "/";
    assert KeyOf(prefix, p1) == head + p1.name;
    assert KeyOf(prefix, p2) == head + p2.name;
    if KeyOf(prefix, p1) == KeyOf(prefix, p2) {
      assert p1.name == (head + p1.name)[|head|..];
      assert p2.name == (head + p2.name)[|head|..];
    }
  }

  /** The store Replace builds: one element per object, a later object winning its key. */
  function StoreOf(prefix: string, pods: seq<Pod>): (store: map<string, StoreElement>)
    ensures forall k | k in store :: store[k].key == k
  {
    if |pods| == 0 then map[]
    else StoreOf(prefix, pods[..|pods| - 1])[KeyOf(prefix, pods[|pods| - 1]) := ElementOf(prefix, pods[|pods| - 1])]
  }

  /** The store after Replace holds exactly the keys of the objects. */
  lemma {:induction false} StoreOfKeys(prefix: string, pods: seq<Pod>)
    ensures forall i | 0 <= i < |pods| :: KeyOf(prefix, pods[i]) in StoreOf(prefix, pods)
    ensures forall k | k in StoreOf(prefix, pods) :: exists i | 0 <= i < |pods| :: KeyOf(prefix, pods[i]) == k
  {
    if |pods| > 0 {
      var front := pods[..|pods| - 1];
      StoreOfKeys(prefix, front);
      forall i | 0 <= i < |pods| - 1
        ensures KeyOf(prefix, pods[i]) in StoreOf(prefix, pods)
      {
        assert pods[i] == front[i];
      }
      forall k | k in StoreOf(prefix, pods)
        ensures exists i | 0 <= i < |pods| :: KeyOf(prefix, pods[i]) == k
      {
        if k != KeyOf(prefix, pods[|pods| - 1]) {
          var i :| 0 <= i < |front| && KeyOf(prefix, front[i]) == k;
          assert pods[i] == front[i];
        }
      }
    }
  }

  /** Each key holds the element of the last object with that key. */
  lemma {:induction false} StoreOfLastWins(prefix: string, pods: seq<Pod>, i: nat)
    requires i < |pods|
    requires forall j | i < j < |pods| :: KeyOf(prefix, pods[j]) != KeyOf(prefix, pods[i])
    ensures KeyOf(prefix, pods[i]) in StoreOf(prefix, pods)
    ensures StoreOf(prefix, pods)[KeyOf(prefix, pods[i])] == ElementOf(prefix, pods[i])
  {
    if i < |pods| - 1 {
      var front := pods[..|pods| - 1];
      assert front[i] == pods[i];
      assert forall j | i < j < |front| :: front[j] == pods[j];
      StoreOfLastWins(prefix, front, i);
    }
  }

  // ---------------------------------------------------------------------
  // The event window
  // ---------------------------------------------------------------------

  /** Revisions strictly increase along the window. */
  predicate Increasing(events: seq<Event>)
  {
    forall i, j | 0 <= i < j < |events| :: events[i].resourceVersion < events[j].resourceVersion
  }

  /** The window after recording an event: when the ring is full the oldest event is evicted. */
  function Push(events: seq<Event>, e: Event, capacity: nat): (r: seq<Event>)
    requires |events| <= capacity
    ensures |r| <= capacity + 1
  {
    if |events| == capacity && capacity > 0 then events[1..] + [e] else events + [e]
  }

  /** Recording keeps the window within the ring, ending with the new event. */
  lemma PushBounds(events: seq<Event>, e: Event, capacity: nat)
    requires 0 < capacity && |events| <= capacity
    ensures |Push(events, e, capacity)| <= capacity
    ensures Push(events, e, capacity)[|Push(events, e, capacity)| - 1] == e
    ensures |events| < capacity ==> Push(events, e, capacity) == events + [e]
    ensures |events| == capacity ==> Push(events, e, capacity) == events[1..] + [e]
  {
  }

  /** The window after recording is the newest capacity events of the old window and the new event. */
  lemma PushKeepsNewest(events: seq<Event>, e: Event, capacity: nat)
    requires 0 < capacity && |events| <= capacity
    ensures var all := events + [e];
      Push(events, e, capacity) == all[if |all| > capacity then |all| - capacity else 0..]
  {
    var all := events + [e];
    if |events| == capacity {
      assert all[1..] == events[1..] + [e];
    } else {
      assert all[0..] == all;
    }
  }

  /** Recording an event newer than every event in the window keeps revisions increasing. */
  lemma PushIncreasing(events: seq<Event>, e: Event, capacity: nat)
    requires 0 < capacity && |events| <= capacity && Increasing(events)
    requires forall i | 0 <= i < |events| :: events[i].resourceVersion < e.resourceVersion
    ensures Increasing(Push(events, e, capacity))
  {
    var r := Push(events, e, capacity);
    if |events| == capacity {
      assert forall i | 0 <= i < |r| - 1 :: r[i] == events[i + 1];
    } else {
      assert forall i | 0 <= i < |r| - 1 :: r[i] == events[i];
    }
  }

  /** Dropping the oldest event keeps revisions increasing. */
  lemma IncreasingTail(events: seq<Event>)
    requires |events| > 0 && Increasing(events)
    ensures Increasing(events[1..])
  {
    forall i, j | 0 <= i < j < |events| - 1
      ensures events[1..][i].resourceVersion < events[1..][j].resourceVersion
    {
      assert events[1..][i] == events[i + 1] && events[1..][j] == events[j + 1];
    }
  }

  /** Recording an event newer than the window keeps every revision after lo and no later than the event's. */
  lemma PushRange(events: seq<Event>, e: Event, capacity: nat, lo: nat)
    requires 0 < capacity && |events| <= capacity && lo < e.resourceVersion
    requires forall i | 0 <= i < |events| :: lo < events[i].resourceVersion < e.resourceVersion
    ensures forall i | 0 <= i < |Push(events, e, capacity)| ::
      lo < Push(events, e, capacity)[i].resourceVersion <= e.resourceVersion
  {
    var r := Push(events, e, capacity);
    forall i | 0 <= i < |r|
      ensures lo < r[i].resourceVersion <= e.resourceVersion
    {
      if i < |r| - 1 {
        assert r[i] == if |events| == capacity then events[i + 1] else events[i];
      }
    }
  }

  /**
   * The oldest revision a watcher may start after: the revision after the
   * last relist while nothing has been evicted since, otherwise the first
   * event's revision; none when the window is empty and there was no relist.
   */
  function Oldest(events: seq<Event>, listResourceVersion: nat, removedSinceRelist: bool): Option<nat>
  {
    if listResourceVersion > 0 && !removedSinceRelist then Some(listResourceVersion + 1)
    else if |events| > 0 then Some(events[0].resourceVersion)
    else None
  }

  /** The number of leading events at or before rv: where sort.Search stops. */
  function CountUpTo(events: seq<Event>, rv: nat): (n: nat)
    ensures n <= |events|
  {
    if |events| == 0 || events[0].resourceVersion > rv then 0 else 1 + CountUpTo(events[1..], rv)
  }

  /** In an increasing window, the events up to rv come first and the later ones after them. */
  lemma {:induction false} CountUpToSplits(events: seq<Event>, rv: nat)
    requires Increasing(events)
    ensures forall i | 0 <= i < CountUpTo(events, rv) :: events[i].resourceVersion <= rv
    ensures forall i | CountUpTo(events, rv) <= i < |events| :: events[i].resourceVersion > rv
  {
    if |events| > 0 && events[0].resourceVersion <= rv {
      assert Increasing(events[1..]);
      CountUpToSplits(events[1..], rv);
      forall i | 1 <= i < CountUpTo(events, rv)
        ensures events[i].resourceVersion <= rv
      {
        assert events[i] == events[1..][i - 1];
      }
      forall i | CountUpTo(events, rv) <= i < |events|
        ensures events[i].resourceVersion > rv
      {
        assert events[i] == events[1..][i - 1];
      }
    }
  }

  /** A split point with everything before at or below rv and everything after above it is the count. */
  lemma {:induction false} CountUpToUnique(events: seq<Event>, rv: nat, k: nat)
    requires k <= |events|
    requires forall i | 0 <= i < k :: events[i].resourceVersion <= rv
    requires forall i | k <= i < |events| :: events[i].resourceVersion > rv
    ensures CountUpTo(events, rv) == k
  {
    if |events| > 0 {
      if k == 0 {
        assert events[0].resourceVersion > rv;
      } else {
        assert events[0].resourceVersion <= rv;
        assert forall i | 0 <= i < |events| - 1 :: events[1..][i] == events[i + 1];
        CountUpToUnique(events[1..], rv, k - 1);
      }
    }
  }

  /**
   * The events a watcher starting after rv receives: an error when the
   * cache has nothing to start from or rv is before the oldest revision it
   * can serve, otherwise every event of the window after rv.
   */
  function Since(events: seq<Event>, listResourceVersion: nat, removedSinceRelist: bool, rv: nat): Result<seq<Event>, CacheError>
  {
    match Oldest(events, listResourceVersion, removedSinceRelist)
    case None => Failure(NotInitialized)
    case Some(oldest) =>
      if rv + 1 < oldest then Failure(TooOld(rv, oldest - 1))
      else Success(events[CountUpTo(events, rv)..])
  }

  /**
   * A successful answer holds exactly the window's events after rv, in
   * increasing order of revision: none is skipped and none repeated.
   */
  lemma SinceExactlyNewer(events: seq<Event>, listResourceVersion: nat, removedSinceRelist: bool, rv: nat)
    requires Increasing(events)
    requires Since(events, listResourceVersion, removedSinceRelist, rv).Success?
    ensures var r := Since(events, listResourceVersion, removedSinceRelist, rv).value;
      Increasing(r) &&
      (forall i | 0 <= i < |r| :: r[i].resourceVersion > rv && r[i] in events) &&
      (forall i | 0 <= i < |events| :: events[i].resourceVersion > rv ==> events[i] in r)
  {
    var n := CountUpTo(events, rv);
    CountUpToSplits(events, rv);
    SuffixAbove(events, n, rv);
    var r := Since(events, listResourceVersion, removedSinceRelist, rv).value;
    assert r == events[n..];
  }

  /** The suffix after a split point of an increasing window is increasing and holds every event above rv. */
  lemma SuffixAbove(events: seq<Event>, n: nat, rv: nat)
    requires Increasing(events) && n <= |events|
    requires forall i | 0 <= i < n :: events[i].resourceVersion <= rv
    requires forall i | n <= i < |events| :: events[i].resourceVersion > rv
    ensures Increasing(events[n..])
    ensures forall i | 0 <= i < |events[n..]| :: events[n..][i].resourceVersion > rv && events[n..][i] in events
    ensures forall i | 0 <= i < |events| :: events[i].resourceVersion > rv ==> events[i] in events[n..]
  {
    var r := events[n..];
    assert forall i | 0 <= i < |r| :: r[i] == events[n + i];
    forall i | 0 <= i < |events| && events[i].resourceVersion > rv
      ensures events[i] in r
    {
      assert r[i - n] == events[i];
    }
  }

  /** The query fails as too old exactly when rv is before the revision before the oldest. */
  lemma SinceTooOldIff(events: seq<Event>, listResourceVersion: nat, removedSinceRelist: bool, rv: nat)
    ensures (Since(events, listResourceVersion, removedSinceRelist, rv).Failure?
      && Since(events, listResourceVersion, removedSinceRelist, rv).error.TooOld?)
      <==> (Oldest(events, listResourceVersion, removedSinceRelist).Some?
        && rv + 1 < Oldest(events, listResourceVersion, removedSinceRelist).value)
  {
  }

  /**
   * Right after a relist at listResourceVersion, with nothing evicted since,
   * a watch from before that revision is too old and a watch from it or
   * later receives exactly the events after it.
   */
  lemma SinceAfterRelist(events: seq<Event>, listResourceVersion: nat, rv: nat)
    requires listResourceVersion > 0
    ensures rv < listResourceVersion ==> Since(events, listResourceVersion, false, rv) == Failure(TooOld(rv, listResourceVersion))
    ensures rv >= listResourceVersion ==> Since(events, listResourceVersion, false, rv) == Success(events[CountUpTo(events, rv)..])
  {
  }

  // ---------------------------------------------------------------------
  // Index selection
  // ---------------------------------------------------------------------

  /** A secondary index: over a label ("l:" name) or over a field ("f:" name). */
  datatype IndexName = LabelIndex(labelKey: string) | FieldIndex(fieldPath: string)

  /** The name an index is registered and reported under. */
  function IndexText(index: IndexName): string
  {
    match index
    case LabelIndex(l) => "l:" + l
    case FieldIndex(f) => "f:" + f
  }

  /**
   * A selection predicate: exact-match label and field selectors (an empty
   * one selects everything) and the labels and fields the caller offers
   * as index candidates.
   */
  datatype Predicate = Predicate(
    labels: map<string, string>, fields: map<string, string>, indexLabels: seq<string>, indexFields: seq<string>)

  /** A candidate: an index and the one value the predicate pins it to. */
  datatype MatchValue = MatchValue(index: IndexName, value: string)

  /** The label candidates the predicate pins, in the order offered. */
  function LabelMatches(labelSel: map<string, string>, names: seq<string>): seq<MatchValue>
  {
    if |names| == 0 then []
    else
      (if names[0] in labelSel then [MatchValue(LabelIndex(names[0]), labelSel[names[0]])] else [])
      + LabelMatches(labelSel, names[1..])
  }

  /** The field candidates the predicate pins, in the order offered. */
  function FieldMatches(fieldSel: map<string, string>, names: seq<string>): seq<MatchValue>
  {
    if |names| == 0 then []
    else
      (if names[0] in fieldSel then [MatchValue(FieldIndex(names[0]), fieldSel[names[0]])] else [])
      + FieldMatches(fieldSel, names[1..])
  }

  /** All candidates: label indexes before field indexes. */
  function MatchValues(pred: Predicate): seq<MatchValue>
  {
    LabelMatches(pred.labels, pred.indexLabels) + FieldMatches(pred.fields, pred.indexFields)
  }

  /** Every candidate names an offered index and the value its selector pins. */
  lemma {:induction false} LabelMatchesPinned(labelSel: map<string, string>, names: seq<string>)
    ensures forall m | m in LabelMatches(labelSel, names) ::
      m.index.LabelIndex? && m.index.labelKey in names && m.index.labelKey in labelSel && m.value == labelSel[m.index.labelKey]
  {
    if |names| > 0 {
      LabelMatchesPinned(labelSel, names[1..]);
    }
  }

  lemma {:induction false} FieldMatchesPinned(fieldSel: map<string, string>, names: seq<string>)
    ensures forall m | m in FieldMatches(fieldSel, names) ::
      m.index.FieldIndex? && m.index.fieldPath in names && m.index.fieldPath in fieldSel && m.value == fieldSel[m.index.fieldPath]
  {
    if |names| > 0 {
      FieldMatchesPinned(fieldSel, names[1..]);
    }
  }

  /** The first candidate whose index is registered, if any. */
  function ChooseIndex(candidates: seq<MatchValue>, registered: set<IndexName>): (r: Option<MatchValue>)
    ensures r.Some? ==> r.value in candidates && r.value.index in registered
    ensures r.None? <==> forall m | m in candidates :: m.index !in registered
  {
    if |candidates| == 0 then None
    else if candidates[0].index in registered then Some(candidates[0])
    else ChooseIndex(candidates[1..], registered)
  }

  /** Choosing over two lists of candidates: the first list's choice, if it has one. */
  lemma {:induction false} ChooseIndexAppend(a: seq<MatchValue>, b: seq<MatchValue>, registered: set<IndexName>)
    ensures ChooseIndex(a + b, registered) ==
      if ChooseIndex(a, registered).Some? then ChooseIndex(a, registered) else ChooseIndex(b, registered)
  {
    if |a| > 0 {
      assert (a + b)[1..] == a[1..] + b;
      ChooseIndexAppend(a[1..], b, registered);
    } else {
      assert a + b == b;
    }
  }

  /** A label candidate the selector pins to a registered index always wins over every field index. */
  lemma LabelIndexPreferred(pred: Predicate, registered: set<IndexName>, l: string)
    requires l in pred.indexLabels && l in pred.labels && LabelIndex(l) in registered
    ensures ChooseIndex(MatchValues(pred), registered).Some?
    ensures ChooseIndex(MatchValues(pred), registered).value.index.LabelIndex?
  {
    ChooseIndexAppend(LabelMatches(pred.labels, pred.indexLabels), FieldMatches(pred.fields, pred.indexFields), registered);
    LabelMatchesPinned(pred.labels, pred.indexLabels);
    LabelMatchesComplete(pred.labels, pred.indexLabels, l);
  }

  /** Every offered label the selector pins is a candidate. */
  lemma {:induction false} LabelMatchesComplete(labels: map<string, string>, names: seq<string>, l: string)
    requires l in names && l in labels
    ensures MatchValue(LabelIndex(l), labels[l]) in LabelMatches(labels, names)
  {
    if names[0] != l {
      LabelMatchesComplete(labels, names[1..], l);
    }
  }

  /** The value an element has for an index, if any. */
  function Extract(e: StoreElement, index: IndexName): Option<string>
  {
    match index
    case LabelIndex(l) => if l in e.labels then Some(e.labels[l]) else None
    case FieldIndex(f) => if f in e.fields then Some(e.fields[f]) else None
  }

  /** An element is in the chosen index's bucket, or no index was chosen. */
  predicate InBucket(e: StoreElement, choice: Option<MatchValue>)
  {
    choice.None? || Extract(e, choice.value.index) == Some(choice.value.value)
  }

  /** The keys a listing returns: those under the prefix, and in the chosen index's bucket if one was chosen. */
  function Selected(store: map<string, StoreElement>, prefix: string, choice: Option<MatchValue>): set<string>
  {
    set k | k in store && HasPrefix(k, prefix) && InBucket(store[k], choice)
  }

  /** What a listing returns: the items in key order, the revision, and the index used ("" for a full scan). */
  datatype ListResult = ListResult(items: seq<StoreElement>, resourceVersion: nat, indexUsed: string)

  /** The keys of a list of elements. */
  function Keys(items: seq<StoreElement>): seq<string>
  {
    seq(|items|, i requires 0 <= i < |items| => items[i].key)
  }

  // ---------------------------------------------------------------------
  // The cache
  // ---------------------------------------------------------------------

  /** A positive multiple of a positive number is at least that number. */
  lemma {:induction false} MulAtLeast(d: int, c: int)
    requires d >= 1 && c > 0
    ensures d * c >= c
  {
    if d > 1 {
      MulAtLeast(d - 1, c);
      assert d * c == (d - 1) * c + c;
    }
  }

  /** Distinct positions less than the capacity apart fall on distinct ring slots. */
  lemma SlotsDistinct(a: nat, b: nat, capacity: nat)
    requires 0 < capacity && a < b < a + capacity
    ensures a % capacity != b % capacity
  {
    if a % capacity == b % capacity {
      var d := b / capacity - a / capacity;
      assert b - a == d * capacity;
      if d >= 1 {
        MulAtLeast(d, capacity);
      }
    }
  }

  /** The ring holds the window: position start + i sits in slot (start + i) mod the ring's length. */
  ghost predicate Ring(slots: seq<Option<Event>>, start: nat, events: seq<Event>)
  {
    && |slots| > 0 && |events| <= |slots|
    && forall i | 0 <= i < |events| :: slots[(start + i) % |slots|] == Some(events[i])
  }

  /** Clearing the oldest slot and advancing the start drops the oldest event from the window. */
  lemma RingEvict(slots: seq<Option<Event>>, start: nat, events: seq<Event>)
    requires Ring(slots, start, events) && |events| > 0
    ensures Ring(slots[start % |slots| := None], start + 1, events[1..])
  {
    var cap := |slots|;
    var s := slots[start % cap := None];
    forall i | 0 <= i < |events| - 1
      ensures s[(start + 1 + i) % cap] == Some(events[1..][i])
    {
      SlotsDistinct(start, start + 1 + i, cap);
      assert slots[(start + (i + 1)) % cap] == Some(events[i + 1]);
    }
  }

  /** Writing the slot after the window appends the event to the window. */
  lemma RingPush(slots: seq<Option<Event>>, start: nat, events: seq<Event>, e: Event)
    requires Ring(slots, start, events) && |events| < |slots|
    ensures Ring(slots[(start + |events|) % |slots| := Some(e)], start, events + [e])
  {
    var cap := |slots|;
    var s := slots[(start + |events|) % cap := Some(e)];
    forall i | 0 <= i < |events|
      ensures s[(start + i) % cap] == Some(events[i])
    {
      SlotsDistinct(start + i, start + |events|, cap);
    }
  }

  class WatchCache {

    /** The prefix of every key. */
    const keyPrefix: string
    /** The number of events the ring holds. */
    const capacity: nat
    /** The ring: slot i % capacity holds the event at position i, for startIndex <= i < endIndex. */
    const cache: array<Option<Event>>
    /** The indexes registered at construction. */
    const indexes: set<IndexName>

    var startIndex: nat
    var endIndex: nat
    var store: map<string, StoreElement>
    var resourceVersion: nat
    var listResourceVersion: nat
    var removedEventSinceRelist: bool

    /** The events in the ring, oldest first. */
    ghost var events: seq<Event>

    /** The ring holds the window, whose revisions increase. */
    ghost predicate RingValid()
      reads this, cache
    {
      && cache.Length == capacity
      && Ring(cache[..], startIndex, events)
      && endIndex == startIndex + |events|
      && Increasing(events)
    }

    /**
     * The cache invariant: the ring holds the window, every element is
     * stored under its own key, and the window's events lie after the last
     * relist and no later than the cache's revision.
     */
    ghost predicate Valid()
      reads this, cache
    {
      && RingValid()
      && (forall k | k in store :: store[k].key == k)
      && (forall i | 0 <= i < |events| :: listResourceVersion < events[i].resourceVersion <= resourceVersion)
      && listResourceVersion <= resourceVersion
    }

    /** newTestWatchCache: an empty store and a ring of the given capacity. */
    constructor (keyPrefix: string, capacity: nat, indexes: set<IndexName>)
      requires capacity > 0
      ensures Valid() && fresh(cache)
      ensures this.keyPrefix == keyPrefix && this.capacity == capacity && this.indexes == indexes
      ensures events == [] && store == map[] && resourceVersion == 0 && listResourceVersion == 0
      ensures !removedEventSinceRelist
    {
      this.keyPrefix := keyPrefix;
      this.capacity := capacity;
      this.indexes := indexes;
      cache := new Option<Event>[capacity](_ => None);
      startIndex, endIndex := 0, 0;
      store := map[];
      resourceVersion, listResourceVersion := 0, 0;
      removedEventSinceRelist := false;
      events := [];
    }

    /** Clears the oldest slot and advances the start: the window loses its oldest event. */
    method EvictOldest()
      requires RingValid() && |events| == capacity
      modifies this, cache
      ensures events == old(events)[1..]
      ensures startIndex == old(startIndex) + 1 && endIndex == old(endIndex)
      ensures removedEventSinceRelist
      ensures store == old(store) && resourceVersion == old(resourceVersion)
      ensures listResourceVersion == old(listResourceVersion)
      ensures RingValid()
    {
      RingEvict(cache[..], startIndex, events);
      IncreasingTail(events);
      cache[startIndex % capacity] := None;
      startIndex := startIndex + 1;
      removedEventSinceRelist := true;
      events := events[1..];
    }

    /** Writes the slot after the window: the window gains e as its newest event. */
    method AppendEvent(e: Event)
      requires RingValid() && |events| < capacity
      requires forall i | 0 <= i < |events| :: events[i].resourceVersion < e.resourceVersion
      modifies this, cache
      ensures events == old(events) + [e]
      ensures startIndex == old(startIndex) && endIndex == old(endIndex) + 1
      ensures removedEventSinceRelist == old(removedEventSinceRelist)
      ensures store == old(store) && resourceVersion == old(resourceVersion)
      ensures listResourceVersion == old(listResourceVersion)
      ensures RingValid()
    {
      RingPush(cache[..], startIndex, events, e);
      PushIncreasing(events, e, capacity);
      cache[endIndex % capacity] := Some(e);
      endIndex := endIndex + 1;
      events := events + [e];
    }

    /** updateCache: evict the oldest event when the ring is full, then record e. */
    method UpdateCache(e: Event)
      requires Valid()
      requires e.resourceVersion > resourceVersion
      modifies this, cache
      ensures events == Push(old(events), e, capacity)
      ensures removedEventSinceRelist == (old(removedEventSinceRelist) || |old(events)| == capacity)
      ensures store == old(store) && resourceVersion == old(resourceVersion)
      ensures listResourceVersion == old(listResourceVersion)
      ensures RingValid()
      ensures forall i | 0 <= i < |events| :: listResourceVersion < events[i].resourceVersion <= e.resourceVersion
    {
      PushBounds(events, e, capacity);
      PushRange(events, e, capacity, listResourceVersion);
      if endIndex == startIndex + capacity {
        EvictOldest();
        assert forall i | 0 <= i < |events| :: events[i] == old(events)[i + 1];
      }
      AppendEvent(e);
    }

    /**
     * processEvent: the event carries the stored object it replaces as its
     * previous object; the store and the revision follow the event.
     */
    method ProcessEvent(kind: EventType, pod: Pod)
      requires Valid()
      requires pod.resourceVersion > resourceVersion
      modifies this, cache
      ensures var key := KeyOf(keyPrefix, pod);
        var prev := if key in old(store) then Some(old(store)[key].obj) else None;
        events == Push(old(events), Event(kind, pod, prev, key, pod.resourceVersion), capacity)
      ensures store == if kind == Deleted then old(store) - {KeyOf(keyPrefix, pod)}
        else old(store)[KeyOf(keyPrefix, pod) := ElementOf(keyPrefix, pod)]
      ensures resourceVersion == pod.resourceVersion
      ensures listResourceVersion == old(listResourceVersion)
      ensures removedEventSinceRelist == (old(removedEventSinceRelist) || |old(events)| == capacity)
      ensures Valid()
    {
      var elem := ElementOf(keyPrefix, pod);
      var prev := None;
      if elem.key in store {
        prev := Some(store[elem.key].obj);
      }
      UpdateCache(Event(kind, pod, prev, elem.key, pod.resourceVersion));
      if kind == Deleted {
        store := store - {elem.key};
      } else {
        store := store[elem.key := elem];
      }
      resourceVersion := pod.resourceVersion;
    }

    /** Add: an Added event; the store holds the pod's element under its key. */
    method Add(pod: Pod)
      requires Valid()
      requires pod.resourceVersion > resourceVersion
      modifies this, cache
      ensures var key := KeyOf(keyPrefix, pod);
        var prev := if key in old(store) then Some(old(store)[key].obj) else None;
        events == Push(old(events), Event(Added, pod, prev, key, pod.resourceVersion), capacity)
      ensures store == old(store)[KeyOf(keyPrefix, pod) := ElementOf(keyPrefix, pod)]
      ensures resourceVersion == pod.resourceVersion && listResourceVersion == old(listResourceVersion)
      ensures removedEventSinceRelist == (old(removedEventSinceRelist) || |old(events)| == capacity)
      ensures Valid()
    {
      ProcessEvent(Added, pod);
    }

    /** Update: a Modified event; the store holds the pod's new element under its key. */
    method Update(pod: Pod)
      requires Valid()
      requires pod.resourceVersion > resourceVersion
      modifies this, cache
      ensures var key := KeyOf(keyPrefix, pod);
        var prev := if key in old(store) then Some(old(store)[key].obj) else None;
        events == Push(old(events), Event(Modified, pod, prev, key, pod.resourceVersion), capacity)
      ensures store == old(store)[KeyOf(keyPrefix, pod) := ElementOf(keyPrefix, pod)]
      ensures resourceVersion == pod.resourceVersion && listResourceVersion == old(listResourceVersion)
      ensures removedEventSinceRelist == (old(removedEventSinceRelist) || |old(events)| == capacity)
      ensures Valid()
    {
      ProcessEvent(Modified, pod);
    }

    /** Delete: a Deleted event carrying the deleted pod; the key leaves the store. */
    method Delete(pod: Pod)
      requires Valid()
      requires pod.resourceVersion > resourceVersion
      modifies this, cache
      ensures var key := KeyOf(keyPrefix, pod);
        var prev := if key in old(store) then Some(old(store)[key].obj) else None;
        events == Push(old(events), Event(Deleted, pod, prev, key, pod.resourceVersion), capacity)
      ensures store == old(store) - {KeyOf(keyPrefix, pod)}
      ensures resourceVersion == pod.resourceVersion && listResourceVersion == old(listResourceVersion)
      ensures removedEventSinceRelist == (old(removedEventSinceRelist) || |old(events)| == capacity)
      ensures Valid()
    {
      ProcessEvent(Deleted, pod);
    }

    /** Get: the element stored under the pod's key, if any. */
    method Get(pod: Pod) returns (item: Option<StoreElement>)
      requires Valid()
      ensures item.Some? <==> KeyOf(keyPrefix, pod) in store
      ensures item.Some? ==> item.value == store[KeyOf(keyPrefix, pod)] && item.value.key == KeyOf(keyPrefix, pod)
    {
      var key := KeyOf(keyPrefix, pod);
      if key in store {
        item := Some(store[key]);
      } else {
        item := None;
      }
    }

    /** List: every stored element. */
    method List() returns (items: set<StoreElement>)
      requires Valid()
      ensures items == store.Values
    {
      items := store.Values;
    }

    /**
     * Replace: a full resync. The store becomes the given objects, the event
     * window is emptied, and both revisions become the resync's.
     */
    method Replace(pods: seq<Pod>, version: nat)
      requires Valid()
      modifies this
      ensures store == StoreOf(keyPrefix, pods)
      ensures events == [] && listResourceVersion == version && resourceVersion == version
      ensures !removedEventSinceRelist
      ensures Valid()
    {
      var replaced := map[];
      for i := 0 to |pods|
        invariant replaced == StoreOf(keyPrefix, pods[..i])
      {
        assert pods[..i + 1][..i] == pods[..i];
        replaced := replaced[KeyOf(keyPrefix, pods[i]) := ElementOf(keyPrefix, pods[i])];
      }
      assert pods[..|pods|] == pods;
      startIndex := endIndex;
      removedEventSinceRelist := false;
      store := replaced;
      listResourceVersion := version;
      resourceVersion := version;
      events := [];
    }

    /** The event at position i of the window, read from its ring slot. */
    method EventAt(i: nat) returns (e: Event)
      requires Valid() && i < |events|
      ensures e == events[i]
    {
      assert cache[..][(startIndex + i) % capacity] == Some(events[i]);
      e := cache[(startIndex + i) % capacity].value;
    }

    /** sort.Search over the window: the first position whose event is after rv. */
    method SearchAfter(rv: nat) returns (first: nat)
      requires Valid()
      ensures first == CountUpTo(events, rv)
    {
      var size := endIndex - startIndex;
      var lo, hi := 0, size;
      while lo < hi
        invariant 0 <= lo <= hi <= size
        invariant forall i | 0 <= i < lo :: events[i].resourceVersion <= rv
        invariant forall i | hi <= i < size :: events[i].resourceVersion > rv
        decreases hi - lo
      {
        var h := (lo + hi) / 2;
        var e := EventAt(h);
        if e.resourceVersion <= rv {
          lo := h + 1;
        } else {
          hi := h;
        }
      }
      CountUpToUnique(events, rv, lo);
      first := lo;
    }

    /** The events of the window from position first on, copied slot by slot. */
    method CollectFrom(first: nat) returns (result: seq<Event>)
      requires Valid() && first <= |events|
      ensures result == events[first..]
    {
      result := [];
      for i := first to endIndex - startIndex
        invariant result == events[first..i]
      {
        var e := EventAt(i);
        result := result + [e];
      }
    }

    /**
     * getAllEventsSince: the interval from the first event after rv to the
     * newest; "too old" when rv precedes the revision before the oldest one
     * the window can serve.
     */
    method EventsSince(rv: nat) returns (r: Result<seq<Event>, CacheError>)
      requires Valid() && rv > 0
      ensures r == Since(events, listResourceVersion, removedEventSinceRelist, rv)
    {
      var oldest: nat;
      if listResourceVersion > 0 && !removedEventSinceRelist {
        oldest := listResourceVersion + 1;
      } else if endIndex > startIndex {
        var e := EventAt(0);
        oldest := e.resourceVersion;
      } else {
        return Failure(NotInitialized);
      }
      if rv + 1 < oldest {
        return Failure(TooOld(rv, oldest - 1));
      }
      var first := SearchAfter(rv);
      var result := CollectFrom(first);
      return Success(result);
    }

    /** The first candidate whose index is registered, tried in order. */
    method FirstRegistered(candidates: seq<MatchValue>) returns (choice: Option<MatchValue>)
      ensures choice == ChooseIndex(candidates, indexes)
    {
      for i := 0 to |candidates|
        invariant ChooseIndex(candidates[i..], indexes) == ChooseIndex(candidates, indexes)
      {
        assert candidates[i..][1..] == candidates[i + 1..];
        if candidates[i].index in indexes {
          return Some(candidates[i]);
        }
      }
      return None;
    }

    /** The selected elements of the store, in key order. */
    method ListSelected(prefix: string, choice: Option<MatchValue>) returns (items: seq<StoreElement>)
      requires Valid()
      ensures StrictlySorted(Keys(items))
      ensures Elements(Keys(items)) == Selected(store, prefix, choice)
      ensures forall i | 0 <= i < |items| :: items[i].key in store && store[items[i].key] == items[i]
    {
      var selected := set k | k in store && HasPrefix(k, prefix) && InBucket(store[k], choice);
      var sorted := SortedKeys(selected);
      assert forall i | 0 <= i < |sorted| :: sorted[i] in Elements(sorted);
      var elements := store;
      items := seq(|sorted|, i requires 0 <= i < |sorted| => elements[sorted[i]]);
      assert forall i | 0 <= i < |sorted| :: Keys(items)[i] == sorted[i];
      assert Keys(items) == sorted;
    }

    /**
     * WaitUntilFreshAndList once the cache has reached rv: the elements
     * under the key prefix, in key order, taken from the bucket of the first
     * registered index the predicate pins, or from a full scan when there is
     * none; an unreached rv is refused as too large.
     */
    method WaitUntilFreshAndList(rv: nat, prefix: string, pred: Predicate) returns (r: Result<ListResult, CacheError>)
      requires Valid()
      ensures rv > resourceVersion ==> r == Failure(TooLarge(rv, resourceVersion))
      ensures rv <= resourceVersion ==>
        var choice := ChooseIndex(MatchValues(pred), indexes);
        && r.Success? && r.value.resourceVersion == resourceVersion
        && r.value.indexUsed == (if choice.Some? then IndexText(choice.value.index) else "")
        && StrictlySorted(Keys(r.value.items))
        && Elements(Keys(r.value.items)) == Selected(store, prefix, choice)
        && (forall i | 0 <= i < |r.value.items| :: r.value.items[i].key in store && store[r.value.items[i].key] == r.value.items[i])
    {
      if rv > resourceVersion {
        return Failure(TooLarge(rv, resourceVersion));
      }
      var choice := FirstRegistered(MatchValues(pred));
      var items := ListSelected(prefix, choice);
      var used := if choice.Some? then IndexText(choice.value.index) else "";
      return Success(ListResult(items, resourceVersion, used));
    }
  }
}

/**
 * The cache's tests replayed against the model: each method drives a fresh
 * cache through the steps of one test and states what the test observes.
 */
module WatchCacheScenarios {

  import opened Wrappers
  import opened Strs
  import opened WatchCache

  /** makeTestPodDetails: a pod of namespace "ns". */
  function TestPodDetails(name: string, rv: nat, nodeName: string, labels: map<string, string>): Pod
  {
    Pod("ns", name, rv, nodeName, labels)
  }

  /** makeTestPod: a pod on "some-node" labelled k8s-app=my-app. */
  function TestPod(name: string, rv: nat): Pod
  {
    TestPodDetails(name, rv, "some-node", map["k8s-app" := "my-app"])
  }

  /** The key the tests expect for a pod of namespace "ns". */
  function TestKey(name: string): string
  {
    "prefix/ns/" + name
  }

  /** makeTestStoreElement: the element the tests expect for a pod. */
  function TestStoreElement(pod: Pod): StoreElement
  {
    StoreElement(TestKey(pod.name), pod, pod.labels, map["spec.nodeName" := pod.nodeName])
  }

  /** The cache's key function and attribute function give the key and element the tests expect. */
  lemma ElementOfTestPod(pod: Pod)
    requires pod.namespace == "ns"
    ensures KeyOf("prefix", pod) == TestKey(pod.name)
    ensures ElementOf("prefix", pod) == TestStoreElement(pod)
  {
    assert KeyOf("prefix", pod) == ("prefix" + "/" + "ns" + "/") + pod.name;
    assert "prefix" + "/" + "ns" + "/" == "prefix/ns/";
  }

  /**
   * TestWatchCacheBasic, first half: Get finds the added and then the
   * updated element, and not the deleted one.
   */
  method GetScenario() returns (added: Option<StoreElement>, updated: Option<StoreElement>, deleted: Option<StoreElement>)
    ensures added == Some(TestStoreElement(TestPod("pod", 1)))
    ensures updated == Some(TestStoreElement(TestPod("pod", 2)))
    ensures deleted == None
  {
    var c := new WatchCache("prefix", 2, {});
    ElementOfTestPod(TestPod("pod", 1));
    ElementOfTestPod(TestPod("pod", 2));
    c.Add(TestPod("pod", 1));
    added := c.Get(TestPod("pod", 1));
    c.Update(TestPod("pod", 2));
    updated := c.Get(TestPod("pod", 2));
    c.Delete(TestPod("pod", 3));
    deleted := c.Get(TestPod("pod", 3));
  }

  /** The values of a map of two distinct keys. */
  lemma ValuesOfTwo(k1: string, k2: string, v1: StoreElement, v2: StoreElement)
    requires k1 != k2
    ensures map[k1 := v1, k2 := v2].Values == {v1, v2}
  {
    var m := map[k1 := v1, k2 := v2];
    assert m[k1] == v1 && m[k2] == v2;
    forall v | v in m.Values
      ensures v == v1 || v == v2
    {
      var k :| k in m && m[k] == v;
    }
  }

  /** The values of a map of three distinct keys. */
  lemma ValuesOfThree(k1: string, k2: string, k3: string, v1: StoreElement, v2: StoreElement, v3: StoreElement)
    requires k1 != k2 && k1 != k3 && k2 != k3
    ensures map[k1 := v1, k2 := v2, k3 := v3].Values == {v1, v2, v3}
  {
    var m := map[k1 := v1, k2 := v2, k3 := v3];
    assert m[k1] == v1 && m[k2] == v2 && m[k3] == v3;
    forall v | v in m.Values
      ensures v == v1 || v == v2 || v == v3
    {
      var k :| k in m && m[k] == v;
    }
  }

  /** TestWatchCacheBasic, List: after three Adds List returns the three elements. */
  method ListScenario() returns (listed: set<StoreElement>)
    ensures listed == {TestStoreElement(TestPod("pod1", 4)), TestStoreElement(TestPod("pod2", 5)), TestStoreElement(TestPod("pod3", 6))}
  {
    var c := new WatchCache("prefix", 2, {});
    var p1, p2, p3 := TestPod("pod1", 4), TestPod("pod2", 5), TestPod("pod3", 6);
    ElementOfTestPod(p1);
    ElementOfTestPod(p2);
    ElementOfTestPod(p3);
    KeyOfInjective("prefix", p1, p2);
    KeyOfInjective("prefix", p1, p3);
    KeyOfInjective("prefix", p2, p3);
    var k1, k2, k3 := KeyOf("prefix", p1), KeyOf("prefix", p2), KeyOf("prefix", p3);
    c.Add(p1);
    c.Add(p2);
    c.Add(p3);
    assert c.store == map[k1 := ElementOf("prefix", p1), k2 := ElementOf("prefix", p2), k3 := ElementOf("prefix", p3)];
    ValuesOfThree(k1, k2, k3, ElementOf("prefix", p1), ElementOf("prefix", p2), ElementOf("prefix", p3));
    listed := c.List();
  }

  /** The store replaced by two objects maps each one's key to its element. */
  lemma StoreOfTwo(prefix: string, p: Pod, q: Pod)
    ensures StoreOf(prefix, [p, q]) == map[KeyOf(prefix, p) := ElementOf(prefix, p), KeyOf(prefix, q) := ElementOf(prefix, q)]
  {
    assert [p, q][..1] == [p] && [p][..0] == [];
    assert StoreOf(prefix, [p]) == map[KeyOf(prefix, p) := ElementOf(prefix, p)];
  }

  /** TestWatchCacheBasic, Replace: List returns exactly the replaced elements and no earlier one. */
  method ReplaceScenario() returns (replaced: set<StoreElement>)
    ensures replaced == {TestStoreElement(TestPod("pod4", 7)), TestStoreElement(TestPod("pod5", 8))}
  {
    var c := new WatchCache("prefix", 2, {});
    c.Add(TestPod("pod1", 4));
    c.Add(TestPod("pod2", 5));
    c.Add(TestPod("pod3", 6));
    var p4, p5 := TestPod("pod4", 7), TestPod("pod5", 8);
    ElementOfTestPod(p4);
    ElementOfTestPod(p5);
    KeyOfInjective("prefix", p4, p5);
    c.Replace([p4, p5], 8);
    StoreOfTwo("prefix", p4, p5);
    ValuesOfTwo(KeyOf("prefix", p4), KeyOf("prefix", p5), ElementOf("prefix", p4), ElementOf("prefix", p5));
    replaced := c.List();
  }

  /**
   * TestEvents, Added: with one Add at revision 3 in a ring of 5, a watch
   * from 1 is too old and a watch from 2 receives exactly that Added event,
   * with no previous object.
   */
  method AddedEventsScenario() returns (from1: Result<seq<Event>, CacheError>, from2: Result<seq<Event>, CacheError>)
    ensures from1 == Failure(TooOld(1, 2))
    ensures from2 == Success([Event(Added, TestPod("pod", 3), None, TestKey("pod"), 3)])
  {
    var c := new WatchCache("prefix", 5, {});
    ElementOfTestPod(TestPod("pod", 3));
    c.Add(TestPod("pod", 3));
    from1 := c.EventsSince(1);
    from2 := c.EventsSince(2);
  }

  /** The event the tests expect for the pod named "pod" at revision rv. */
  function PodEvent(kind: EventType, rv: nat, prev: Option<Pod>): Event
  {
    Event(kind, TestPod("pod", rv), prev, TestKey("pod"), rv)
  }

  /** The event TestEvents records at revision rv: the Add at 3, then an Update per revision. */
  function RecordedEvent(rv: nat): Event
  {
    if rv <= 3 then PodEvent(Added, rv, None) else PodEvent(Modified, rv, Some(TestPod("pod", rv - 1)))
  }

  /** The ring of 5 holds the recorded events before revision next, at most five of them. */
  predicate RecordedWindow(events: seq<Event>, next: nat)
  {
    && |events| == (if next <= 8 then next - 3 else 5)
    && forall i | 0 <= i < |events| :: events[i] == RecordedEvent(next - |events| + i)
  }

  /** Recording the event at revision next extends the window by one revision. */
  lemma RecordedStep(events: seq<Event>, next: nat)
    requires next >= 4 && RecordedWindow(events, next)
    ensures RecordedWindow(Push(events, RecordedEvent(next), 5), next + 1)
  {
    var r := Push(events, RecordedEvent(next), 5);
    if |events| == 5 {
      assert forall i | 0 <= i < 4 :: r[i] == events[i + 1];
    } else {
      assert forall i | 0 <= i < |events| :: r[i] == events[i];
    }
  }

  /** The state of the TestEvents cache once every revision before next is recorded. */
  ghost predicate RecordedUpTo(c: WatchCache, next: nat)
    reads c, c.cache
  {
    && c.Valid() && c.keyPrefix == "prefix" && c.capacity == 5
    && c.listResourceVersion == 0 && c.resourceVersion + 1 == next
    && c.store == map[TestKey("pod") := TestStoreElement(TestPod("pod", c.resourceVersion))]
    && RecordedWindow(c.events, next)
  }

  /** The Update of TestEvents at revision next. */
  method RecordUpdate(c: WatchCache, next: nat)
    requires next >= 4 && RecordedUpTo(c, next)
    modifies c, c.cache
    ensures RecordedUpTo(c, next + 1)
  {
    ElementOfTestPod(TestPod("pod", next));
    RecordedStep(c.events, next);
    c.Update(TestPod("pod", next));
  }

  /** The cache of TestEvents after its Add at revision 3. */
  method AddedCache() returns (c: WatchCache)
    ensures fresh(c) && fresh(c.cache) && RecordedUpTo(c, 4)
  {
    c := new WatchCache("prefix", 5, {});
    ElementOfTestPod(TestPod("pod", 3));
    c.Add(TestPod("pod", 3));
    assert c.events == [RecordedEvent(3)];
  }

  /**
   * The cache of TestEvents after the Add at 3 and Updates up to last: a
   * ring of 5 holding the last (at most five) recorded events.
   */
  method TestEventsCache(last: nat) returns (c: WatchCache)
    requires last >= 3
    ensures fresh(c) && fresh(c.cache) && RecordedUpTo(c, last + 1)
  {
    c := AddedCache();
    for next := 4 to last + 1
      invariant fresh(c) && fresh(c.cache) && RecordedUpTo(c, next)
    {
      RecordUpdate(c, next);
    }
  }

  /**
   * TestEvents, Modified: after Updates at 4 and 5 a watch from 1 is still
   * too old, and a watch from 3 receives two Modified events, each carrying
   * the version it replaced.
   */
  method ModifiedEventsScenario() returns (from1: Result<seq<Event>, CacheError>, from3: Result<seq<Event>, CacheError>)
    ensures from1 == Failure(TooOld(1, 2))
    ensures from3 == Success([PodEvent(Modified, 4, Some(TestPod("pod", 3))), PodEvent(Modified, 5, Some(TestPod("pod", 4)))])
  {
    var c := TestEventsCache(5);
    CountUpToUnique(c.events, 3, 1);
    from1 := c.EventsSince(1);
    from3 := c.EventsSince(3);
    assert from3.value == [RecordedEvent(4), RecordedEvent(5)];
  }

  /**
   * TestEvents, eviction: once Updates 6 to 9 fill the ring of 5 it holds
   * revisions 5 to 9; a watch from 3 is too old and a watch from 4
   * receives exactly revisions 5 to 9 in order.
   */
  method EvictedEventsScenario() returns (from3: Result<seq<Event>, CacheError>, from4: Result<seq<Event>, CacheError>)
    ensures from3 == Failure(TooOld(3, 4))
    ensures from4.Success? && |from4.value| == 5
    ensures forall i | 0 <= i < 5 :: from4.value[i].obj == TestPod("pod", i + 5)
  {
    var c := TestEventsCache(9);
    CountUpToUnique(c.events, 4, 0);
    from3 := c.EventsSince(3);
    from4 := c.EventsSince(4);
  }

  /**
   * TestEvents, Deleted: after a Delete at 10 a watch from 9 receives one
   * Deleted event carrying the deleted pod and, as previous object, the
   * version at 9.
   */
  method DeletedEventsScenario() returns (from9: Result<seq<Event>, CacheError>)
    ensures from9 == Success([Event(Deleted, TestPod("pod", 10), Some(TestPod("pod", 9)), TestKey("pod"), 10)])
  {
    var c := TestEventsCache(9);
    ElementOfTestPod(TestPod("pod", 10));
    c.Delete(TestPod("pod", 10));
    CountUpToUnique(c.events, 9, 4);
    from9 := c.EventsSince(9);
  }

  /**
   * TestMarker: after a Replace at revision 9 in a ring of 3, a watch from
   * 8 is too old, a watch from 9 receives nothing, and after an Add at 12 a
   * watch from 9 receives exactly that event.
   */
  method MarkerScenario() returns (from8: Result<seq<Event>, CacheError>, from9: Result<seq<Event>, CacheError>,
                                   later: Result<seq<Event>, CacheError>)
    ensures from8 == Failure(TooOld(8, 9))
    ensures from9 == Success([])
    ensures later.Success? && |later.value| == 1 && later.value[0].obj == TestPod("pods", 12)
  {
    var c := new WatchCache("prefix", 3, {});
    c.Replace([TestPod("pod1", 5), TestPod("pod2", 9)], 9);
    from8 := c.EventsSince(8);
    from9 := c.EventsSince(9);
    c.Add(TestPod("pods", 12));
    CountUpToUnique(c.events, 9, 0);
    later := c.EventsSince(9);
  }

  /** Go's string order on two keys of one namespace is the order of the names. */
  lemma {:induction false} LessCommonPrefix(p: string, a: string, b: string)
    ensures Less(p + a, p + b) == Less(a, b)
  {
    if |p| == 0 {
      assert p + a == a && p + b == b;
    } else {
      assert (p + a)[0] == (p + b)[0];
      assert (p + a)[1..] == p[1..] + a && (p + b)[1..] == p[1..] + b;
      LessCommonPrefix(p[1..], a, b);
    }
  }

  /** Every test key lies under "prefix/". */
  lemma TestKeyUnderPrefix(name: string)
    ensures HasPrefix(TestKey(name), "prefix/")
  {
    assert "prefix/ns/" == "prefix/" + "ns/";
    assert TestKey(name) == "prefix/" + ("ns/" + name);
  }

  /** The labels TestWaitUntilFreshAndList gives its pods. */
  function LabelValue(v: string): map<string, string>
  {
    map["label" := v]
  }

  /** The elements of TestWaitUntilFreshAndList, by key. */
  function IndexedStore(): map<string, StoreElement>
  {
    map[
      TestKey("pod1") := TestStoreElement(TestPodDetails("pod1", 2, "node1", LabelValue("value1"))),
      TestKey("pod2") := TestStoreElement(TestPodDetails("pod2", 3, "node1", LabelValue("value1"))),
      TestKey("pod3") := TestStoreElement(TestPodDetails("pod3", 5, "node2", LabelValue("value2")))]
  }

  /** The store of TestWaitUntilFreshAndList: pod1 and pod2 on node1 labelled value1, pod3 on node2 labelled value2. */
  method IndexedCache() returns (c: WatchCache)
    ensures fresh(c) && fresh(c.cache) && c.Valid() && c.resourceVersion == 5
    ensures c.indexes == {LabelIndex("label"), FieldIndex("spec.nodeName")}
    ensures c.store == IndexedStore()
  {
    c := new WatchCache("prefix", 3, {LabelIndex("label"), FieldIndex("spec.nodeName")});
    var p1 := TestPodDetails("pod1", 2, "node1", LabelValue("value1"));
    var p2 := TestPodDetails("pod2", 3, "node1", LabelValue("value1"));
    var p3 := TestPodDetails("pod3", 5, "node2", LabelValue("value2"));
    ElementOfTestPod(p1);
    ElementOfTestPod(p2);
    ElementOfTestPod(p3);
    c.Add(p1);
    c.Add(p2);
    c.Add(p3);
  }

  /** The keys of the three pods of TestWaitUntilFreshAndList are in Go string order. */
  lemma TestKeysSorted()
    ensures Less(TestKey("pod1"), TestKey("pod2")) && Less(TestKey("pod1"), TestKey("pod3")) && Less(TestKey("pod2"), TestKey("pod3"))
    ensures StrictlySorted([TestKey("pod1"), TestKey("pod2"), TestKey("pod3")])
  {
    assert Less("pod1", "pod2") && Less("pod1", "pod3") && Less("pod2", "pod3");
    LessCommonPrefix("prefix/ns/", "pod1", "pod2");
    LessCommonPrefix("prefix/ns/", "pod1", "pod3");
    LessCommonPrefix("prefix/ns/", "pod2", "pod3");
  }

  /** The names the two indexes of TestWaitUntilFreshAndList are reported under. */
  lemma IndexTexts()
    ensures IndexText(LabelIndex("label")) == "l:label"
    ensures IndexText(FieldIndex("spec.nodeName")) == "f:spec.nodeName"
  {
  }

  /** The selection from a store of three keys under the prefix: those whose elements are in the bucket. */
  lemma SelectedOfThree(k1: string, k2: string, k3: string, e1: StoreElement, e2: StoreElement, e3: StoreElement,
                        prefix: string, choice: Option<MatchValue>)
    requires k1 != k2 && k1 != k3 && k2 != k3
    requires HasPrefix(k1, prefix) && HasPrefix(k2, prefix) && HasPrefix(k3, prefix)
    ensures Selected(map[k1 := e1, k2 := e2, k3 := e3], prefix, choice) ==
      (if InBucket(e1, choice) then {k1} else {}) + (if InBucket(e2, choice) then {k2} else {})
        + (if InBucket(e3, choice) then {k3} else {})
  {
  }

  /** The three keys of the indexed store are distinct and under "prefix/". */
  lemma IndexedKeys()
    ensures TestKey("pod1") != TestKey("pod2") && TestKey("pod1") != TestKey("pod3") && TestKey("pod2") != TestKey("pod3")
    ensures HasPrefix(TestKey("pod1"), "prefix/") && HasPrefix(TestKey("pod2"), "prefix/") && HasPrefix(TestKey("pod3"), "prefix/")
  {
    TestKeysSorted();
    LessIrreflexive(TestKey("pod1"));
    LessIrreflexive(TestKey("pod2"));
    TestKeyUnderPrefix("pod1");
    TestKeyUnderPrefix("pod2");
    TestKeyUnderPrefix("pod3");
  }

  /** A full scan of the indexed store selects all three keys. */
  lemma IndexedScan()
    ensures Selected(IndexedStore(), "prefix/", None) == Elements([TestKey("pod1"), TestKey("pod2"), TestKey("pod3")])
  {
    var k1, k2, k3 := TestKey("pod1"), TestKey("pod2"), TestKey("pod3");
    var store := IndexedStore();
    IndexedKeys();
    SelectedOfThree(k1, k2, k3, store[k1], store[k2], store[k3], "prefix/", None);
    assert Elements([k1, k2, k3]) == {k1, k2, k3};
  }

  /** The label bucket of value1 holds pod1 and pod2. */
  lemma IndexedLabelBucket()
    ensures Selected(IndexedStore(), "prefix/", Some(MatchValue(LabelIndex("label"), "value1")))
      == Elements([TestKey("pod1"), TestKey("pod2")])
  {
    var k1, k2, k3 := TestKey("pod1"), TestKey("pod2"), TestKey("pod3");
    var e1 := TestStoreElement(TestPodDetails("pod1", 2, "node1", LabelValue("value1")));
    var e2 := TestStoreElement(TestPodDetails("pod2", 3, "node1", LabelValue("value1")));
    var e3 := TestStoreElement(TestPodDetails("pod3", 5, "node2", LabelValue("value2")));
    var choice := Some(MatchValue(LabelIndex("label"), "value1"));
    IndexedKeys();
    SelectedOfThree(k1, k2, k3, e1, e2, e3, "prefix/", choice);
    assert "value2" != "value1";
    assert InBucket(e1, choice) && InBucket(e2, choice) && !InBucket(e3, choice);
    assert Elements([k1, k2]) == {k1, k2};
  }

  /** The node bucket of node2 holds pod3. */
  lemma IndexedFieldBucket()
    ensures Selected(IndexedStore(), "prefix/", Some(MatchValue(FieldIndex("spec.nodeName"), "node2")))
      == Elements([TestKey("pod3")])
  {
    var k1, k2, k3 := TestKey("pod1"), TestKey("pod2"), TestKey("pod3");
    var e1 := TestStoreElement(TestPodDetails("pod1", 2, "node1", LabelValue("value1")));
    var e2 := TestStoreElement(TestPodDetails("pod2", 3, "node1", LabelValue("value1")));
    var e3 := TestStoreElement(TestPodDetails("pod3", 5, "node2", LabelValue("value2")));
    var choice := Some(MatchValue(FieldIndex("spec.nodeName"), "node2"));
    IndexedKeys();
    SelectedOfThree(k1, k2, k3, e1, e2, e3, "prefix/", choice);
    assert "node1" != "node2";
    assert !InBucket(e1, choice) && !InBucket(e2, choice) && InBucket(e3, choice);
    assert Elements([k3]) == {k3};
  }

  /** A selector pinning the offered label to value1 chooses the label index, with that value. */
  lemma LabelPinnedChoice()
    ensures var pred := Predicate(LabelValue("value1"), map["spec.nodeName" := "node2"], ["label"], []);
      ChooseIndex(MatchValues(pred), {LabelIndex("label"), FieldIndex("spec.nodeName")})
        == Some(MatchValue(LabelIndex("label"), "value1"))
  {
    var pred := Predicate(LabelValue("value1"), map["spec.nodeName" := "node2"], ["label"], []);
    assert MatchValues(pred) == [MatchValue(LabelIndex("label"), "value1")];
  }

  /** A selector pinning the offered field to node2 chooses the field index, with that value. */
  lemma FieldPinnedChoice()
    ensures var pred := Predicate(map["not-exist-label" := "whatever"], map["spec.nodeName" := "node2"], [], ["spec.nodeName"]);
      ChooseIndex(MatchValues(pred), {LabelIndex("label"), FieldIndex("spec.nodeName")})
        == Some(MatchValue(FieldIndex("spec.nodeName"), "node2"))
  {
    var pred := Predicate(map["not-exist-label" := "whatever"], map["spec.nodeName" := "node2"], [], ["spec.nodeName"]);
    assert MatchValues(pred) == [MatchValue(FieldIndex("spec.nodeName"), "node2")];
  }

  /**
   * TestWaitUntilFreshAndList, match everything: no index is used and all
   * three elements come back, in key order, at revision 5.
   */
  method ListEverythingScenario() returns (r: Result<ListResult, CacheError>)
    ensures r.Success? && r.value.resourceVersion == 5 && r.value.indexUsed == ""
    ensures Keys(r.value.items) == [TestKey("pod1"), TestKey("pod2"), TestKey("pod3")]
  {
    var c := IndexedCache();
    r := c.WaitUntilFreshAndList(5, "prefix/", Predicate(map[], map[], [], []));
    TestKeysSorted();
    IndexedScan();
    SortedUnique(Keys(r.value.items), [TestKey("pod1"), TestKey("pod2"), TestKey("pod3")]);
  }

  /**
   * TestWaitUntilFreshAndList, label index: the selector pins the indexed
   * label to value1, so the "l:label" bucket is listed: pod1 and pod2.
   * WaitUntilFreshAndList does not filter the bucket by the field
   * selector; that is left to its caller.
   */
  method ListByLabelScenario() returns (r: Result<ListResult, CacheError>)
    ensures r.Success? && r.value.resourceVersion == 5 && r.value.indexUsed == "l:label"
    ensures Keys(r.value.items) == [TestKey("pod1"), TestKey("pod2")]
  {
    var c := IndexedCache();
    var pred := Predicate(LabelValue("value1"), map["spec.nodeName" := "node2"], ["label"], []);
    LabelPinnedChoice();
    IndexTexts();
    r := c.WaitUntilFreshAndList(5, "prefix/", pred);
    TestKeysSorted();
    IndexedLabelBucket();
    SortedUnique(Keys(r.value.items), [TestKey("pod1"), TestKey("pod2")]);
  }

  /**
   * TestWaitUntilFreshAndList, field index: the selector pins the indexed
   * node name to node2, so the "f:spec.nodeName" bucket is listed: pod3.
   */
  method ListByFieldScenario() returns (r: Result<ListResult, CacheError>)
    ensures r.Success? && r.value.resourceVersion == 5 && r.value.indexUsed == "f:spec.nodeName"
    ensures Keys(r.value.items) == [TestKey("pod3")]
  {
    var c := IndexedCache();
    var pred := Predicate(map["not-exist-label" := "whatever"], map["spec.nodeName" := "node2"], [], ["spec.nodeName"]);
    FieldPinnedChoice();
    IndexTexts();
    r := c.WaitUntilFreshAndList(5, "prefix/", pred);
    IndexedFieldBucket();
    SortedUnique(Keys(r.value.items), [TestKey("pod3")]);
  }

  /**
   * TestWaitUntilFreshAndList, index not pinned: the selector does not pin
   * the offered label, so there is a full scan with no index and all three
   * elements come back.
   */
  method ListUnpinnedScenario() returns (r: Result<ListResult, CacheError>)
    ensures r.Success? && r.value.resourceVersion == 5 && r.value.indexUsed == ""
    ensures Keys(r.value.items) == [TestKey("pod1"), TestKey("pod2"), TestKey("pod3")]
  {
    var c := IndexedCache();
    var pred := Predicate(map["not-exist-label" := "whatever"], map[], ["label"], []);
    assert "label" != "not-exist-label";
    assert MatchValues(pred) == [];
    r := c.WaitUntilFreshAndList(5, "prefix/", pred);
    TestKeysSorted();
    IndexedScan();
    SortedUnique(Keys(r.value.items), [TestKey("pod1"), TestKey("pod2"), TestKey("pod3")]);
  }
}
