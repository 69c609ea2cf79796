/**
 * PreSplitter of presplitter.py: once per day, the chunks of the day's key
 * range are divided among the shards ahead of the inserts, and the markers
 * of the day are logged so that the work is not done twice.
 *
 * A date is given as its number of days since 1970-01-01, midnight as UTC
 * seconds. The optional logger (mongo_logger.py) is a collection of logged
 * markers; it is modelled as a map from marker to the count saved with it,
 * and a marker is checked when the map holds it.
 */
module PreSplitters {
  import opened Wrappers
  import opened ObjectIds
  import opened Chunks
  import opened FakeBalancer
  import opened Balancer

  /** The days whose next midnight still has a 4-byte timestamp. */
  const DayCount: nat := 49710

  /** The UTC seconds of a day's midnight. */
  function Midnight(day: nat): (t: Seconds)
    requires day < DayCount
    ensures t + 86400 < 0x1_0000_0000
  {
    day * 86400
  }

  /** The three markers of a day: the min-rounded keys of its midnight, its
      noon and the next midnight. */
  function Markers(day: nat): (r: seq<ObjectId>)
    requires day < DayCount
    ensures |r| == 3
    ensures Int(r[0]) <= Int(r[1]) <= Int(r[2])
    ensures forall m :: m in r ==> Int(m) % Width10 == 0
  {
    var t0 := Midnight(day);
    var t1, t2 := t0 + 43200, t0 + 86400;
    KeyMinMonotone(t0, t1);
    KeyMinMonotone(t1, t2);
    KeysAligned(t0);
    KeysAligned(t1);
    KeysAligned(t2);
    [KeyMin(t0), KeyMin(t1), KeyMin(t2)]
  }

  /** The end of the range balanced for a day: the max-rounded key of the
      next midnight. */
  function EndKey(day: nat): (r: ObjectId)
    requires day < DayCount
    ensures Int(r) % Width10 == Width10 - 1
    ensures Less(Markers(day)[2], r)
  {
    var t2 := Midnight(day) + 86400;
    KeysAligned(t2);
    KeyMinBelowKeyMax(t2);
    KeyMax(t2)
  }

  /** `_check_id`: with no logger every id counts as done; otherwise the ids
      the logger holds are. */
  predicate Checked(hasLogger: bool, logged: map<ObjectId, Option<nat>>, id: ObjectId)
  {
    !hasLogger || id in logged
  }

  /** The markers not checked yet, in their order. */
  function Pending(ids: seq<ObjectId>, hasLogger: bool, logged: map<ObjectId, Option<nat>>): (r: seq<ObjectId>)
    ensures forall x :: x in r <==> x in ids && !Checked(hasLogger, logged, x)
    ensures |r| <= |ids|
    ensures (forall x :: x in ids ==> Checked(hasLogger, logged, x)) ==> r == []
  {
    if ids == [] then []
    else
      var rest := Pending(ids[1..], hasLogger, logged);
      assert forall x :: x in ids <==> x == ids[0] || x in ids[1..];
      if Checked(hasLogger, logged, ids[0]) then rest else [ids[0]] + rest
  }

  /** Python's `min` on a list of ids: the first of the least ids. */
  function MinId(ids: seq<ObjectId>): ObjectId
    requires ids != []
  {
    if |ids| == 1 then ids[0]
    else
      var m := MinId(ids[..|ids| - 1]);
      if Less(ids[|ids| - 1], m) then ids[|ids| - 1] else m
  }

  /** Logging one more id of the list. */
  lemma RecordedNext(logged: map<ObjectId, Option<nat>>, ids: seq<ObjectId>, i: nat, start: ObjectId, count: Option<nat>)
    requires i < |ids|
    ensures Recorded(logged, ids[..i + 1], start, count) == Recorded(logged, ids[..i], start, count)[ids[i] := LoggedCount(ids[i], start, count)]
  {
    assert ids[..i + 1][..i] == ids[..i];
  }

  /** The least id is one of the ids and no id is less than it. */
  lemma {:induction false} MinIdLeast(ids: seq<ObjectId>)
    requires ids != []
    ensures MinId(ids) in ids
    ensures forall x :: x in ids ==> !Less(x, MinId(ids))
  {
    if |ids| > 1 {
      var init := ids[..|ids| - 1];
      MinIdLeast(init);
      assert forall x :: x in ids ==> x in init || x == ids[|ids| - 1];
    }
  }

  /** The count logged with a pending marker: the count of the balancer for
      the start marker, and 0 for the others. */
  function LoggedCount(id: ObjectId, start: ObjectId, count: Option<nat>): Option<nat>
  {
    if id == start then count else Some(0)
  }

  /** The logger after each id of ids has been logged in turn. */
  function Recorded(logged: map<ObjectId, Option<nat>>, ids: seq<ObjectId>, start: ObjectId, count: Option<nat>): map<ObjectId, Option<nat>>
  {
    if ids == [] then logged
    else
      var last := ids[|ids| - 1];
      Recorded(logged, ids[..|ids| - 1], start, count)[last := LoggedCount(last, start, count)]
  }

  /** Logging ids adds exactly those ids, each with the count presplit gives
      it, and leaves every other entry as it was. */
  lemma {:induction false} RecordedSpec(logged: map<ObjectId, Option<nat>>, ids: seq<ObjectId>, start: ObjectId, count: Option<nat>)
    ensures forall id :: id in Recorded(logged, ids, start, count) <==> id in logged || id in ids
    ensures forall id :: id in ids ==> Recorded(logged, ids, start, count)[id] == LoggedCount(id, start, count)
    ensures forall id :: id in logged && id !in ids ==> Recorded(logged, ids, start, count)[id] == logged[id]
  {
    if ids != [] {
      var init := ids[..|ids| - 1];
      RecordedSpec(logged, init, start, count);
      assert forall x :: x in ids <==> x in init || x == ids[|ids| - 1];
    }
  }

  /** Once the pending markers are logged, none is pending any more: a
      second presplit of the same day finds nothing to do. */
  lemma SecondPresplitIdle(markers: seq<ObjectId>, hasLogger: bool, logged: map<ObjectId, Option<nat>>,
                           start: ObjectId, count: Option<nat>)
    ensures Pending(markers, hasLogger, Recorded(logged, Pending(markers, hasLogger, logged), start, count)) == []
  {
    var p := Pending(markers, hasLogger, logged);
    var after := Recorded(logged, p, start, count);
    RecordedSpec(logged, p, start, count);
    assert forall x :: x in markers ==> Checked(hasLogger, after, x);
  }

  /** The markers follow the order of their instants, and all lie below the
      end key: every range presplit balances is non-empty. */
  lemma MarkersBelowEnd(day: nat)
    requires day < DayCount
    ensures Int(Markers(day)[0]) <= Int(Markers(day)[1]) <= Int(Markers(day)[2])
    ensures forall m :: m in Markers(day) ==> Less(m, EndKey(day))
  {
    var t0 := Midnight(day);
    var t1, t2 := t0 + 43200, t0 + 86400;
    var ms, e := Markers(day), EndKey(day);
    assert ms == [KeyMin(t0), KeyMin(t1), KeyMin(t2)] && e == KeyMax(t2);
    KeyMinMonotone(t0, t1);
    KeyMinMonotone(t1, t2);
    KeyMinBelowLaterKeyMax(t0, t2);
    KeyMinBelowLaterKeyMax(t1, t2);
    KeyMinBelowLaterKeyMax(t2, t2);
    assert forall m :: m in ms ==> m == ms[0] || m == ms[1] || m == ms[2];
  }

  /** The least pending marker lies below the end key, so presplit never
      asks balance_range for an empty range. */
  lemma StartBelowEnd(day: nat, hasLogger: bool, logged: map<ObjectId, Option<nat>>)
    requires day < DayCount
    requires Pending(Markers(day), hasLogger, logged) != []
    ensures Int(MinId(Pending(Markers(day), hasLogger, logged))) < Int(EndKey(day))
  {
    var p := Pending(Markers(day), hasLogger, logged);
    MinIdLeast(p);
    MarkersBelowEnd(day);
  }

  /** What presplit leaves, from what its balance_range call and its
      logging loop leave. */
  lemma PresplitOutcome(day: nat, hasLogger: bool, m0: map<ObjectId, Option<nat>>, m1: map<ObjectId, Option<nat>>,
                        c0: seq<Chunk>, c1: seq<Chunk>, ns: string, field: string, docs: (ShardId, Key, Key) -> nat,
                        divided: seq<Chunk>, shards: seq<ShardId>, count: Option<nat>)
    requires day < DayCount
    requires Pending(Markers(day), hasLogger, m0) != []
    requires var p := Pending(Markers(day), hasLogger, m0);
      && m1 == Recorded(m0, p, MinId(p), count)
      && RangeBalanced(c1, c0, ns, field, docs, Int(MinId(p)), Int(EndKey(day)), count, divided, shards)
    ensures var p := Pending(Markers(day), hasLogger, m0);
      && Int(MinId(p)) < Int(EndKey(day))
      && MinId(p) in m1
      && m1 == Recorded(m0, p, MinId(p), m1[MinId(p)])
      && RangeBalanced(c1, c0, ns, field, docs, Int(MinId(p)), Int(EndKey(day)), m1[MinId(p)], divided, shards)
    ensures forall m :: m in Markers(day) ==> Checked(hasLogger, m1, m)
  {
    var p := Pending(Markers(day), hasLogger, m0);
    StartBelowEnd(day, hasLogger, m0);
    MinIdLeast(p);
    RecordedSpec(m0, p, MinId(p), count);
    SecondPresplitIdle(Markers(day), hasLogger, m0, MinId(p), count);
  }

  class PreSplitter {
    /** The balancer, here the fake one with its catalog. */
    const balancer: Catalog
    const shards: seq<ShardId>
    /** Whether a logger was given. */
    const hasLogger: bool
    /** The logger's collection: the markers logged and their counts. */
    var marks: map<ObjectId, Option<nat>>

    ghost predicate Valid()
      reads this, balancer
    {
      balancer.Valid()
    }

    constructor (balancer: Catalog, shards: seq<ShardId>, hasLogger: bool, marks: map<ObjectId, Option<nat>>)
      requires balancer.Valid()
      ensures Valid()
      ensures this.balancer == balancer && this.shards == shards && this.hasLogger == hasLogger && this.marks == marks
    {
      this.balancer := balancer;
      this.shards := shards;
      this.hasLogger := hasLogger;
      this.marks := marks;
    }

    /** `_check_id`. */
    predicate CheckId(id: ObjectId)
      reads this
    {
      Checked(hasLogger, marks, id)
    }

    /** `_log_id(id, count)`: the logger saves id with count; with no logger
        nothing happens. */
    method LogId(id: ObjectId, count: Option<nat>)
      modifies this
      ensures marks == if hasLogger then old(marks)[id := count] else old(marks)
      ensures hasLogger ==> CheckId(id)
    {
      if hasLogger {
        marks := marks[id := count];
      }
    }

    /** The logging loop of presplit: each id of mins is logged in turn,
        start with count and the others with 0. */
    method LogMarkers(mins: seq<ObjectId>, start: ObjectId, count: Option<nat>)
      requires hasLogger
      modifies this
      ensures marks == Recorded(old(marks), mins, start, count)
    {
      var i := 0;
      while i < |mins|
        invariant 0 <= i <= |mins|
        invariant marks == Recorded(old(marks), mins[..i], start, count)
      {
        RecordedNext(old(marks), mins, i, start, count);
        if mins[i] == start {
          LogId(mins[i], count);
        } else {
          LogId(mins[i], Some(0));
        }
        i := i + 1;
      }
      assert mins[..i] == mins;
    }

    /** presplit(date): the markers of the day not yet checked are found;
        if there are none, nothing happens. Otherwise balance_range is run
        once, from the least of them to the max-rounded key of the next
        midnight, and each of them is logged, the least with the count
        balance_range returned and the others with 0. */
    method Presplit(day: nat) returns (ghost divided: seq<Chunk>)
      requires Valid() && day < DayCount
      modifies this, balancer
      ensures Valid()
      ensures var p := Pending(Markers(day), hasLogger, old(marks));
        && (p == [] ==> marks == old(marks) && balancer.chunks == old(balancer.chunks))
        && (p != [] ==>
          && Int(MinId(p)) < Int(EndKey(day))
          && MinId(p) in marks
          && marks == Recorded(old(marks), p, MinId(p), marks[MinId(p)])
          && RangeBalanced(balancer.chunks, old(balancer.chunks), balancer.ns, balancer.field, balancer.docCount,
                           Int(MinId(p)), Int(EndKey(day)), marks[MinId(p)], divided, shards))
      ensures forall m :: m in Markers(day) ==> Checked(hasLogger, marks, m)
    {
      var mins := Markers(day);
      mins := Pending(mins, hasLogger, marks);
      if mins == [] {
        return [];
      }
      var start := MinId(mins);
      var end := EndKey(day);
      StartBelowEnd(day, hasLogger, marks);
      ghost var c0 := balancer.chunks;
      var count;
      count, divided := BalanceRange(balancer, Int(start), Int(end), shards);
      ghost var m0 := marks;
      LogMarkers(mins, start, count);
      PresplitOutcome(day, hasLogger, m0, marks, c0, balancer.chunks, balancer.ns, balancer.field, balancer.docCount,
                      divided, shards, count);
    }
  }
}
