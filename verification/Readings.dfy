/** Battery and cluster readings, and the algebra of merging them. */
module Readings {
  import opened Bytes
  import opened Wrappers
  import opened Payloads

  /** An opaque point in time. */
  type Stamp = nat

  datatype Battery = Battery(
    serial: Text, position: word, cells: seq<word>, summary: Option<Summary>, temperatures: seq<int>,
    model: Option<Text>, alarmBits: Option<seq<byte>>, relayRoutes: seq<byte>,
    switchRoutes: seq<byte>, cellsAt: Option<Stamp>, updatedAt: Stamp)

  type Batteries = map<Text, Battery>

  /** `order` is the order in which the source's dict of batteries lists its keys. */
  datatype Cluster = Cluster(
    address: Text, masterSerial: Option<Text>, batteries: Batteries, order: seq<Text>,
    rosterCount: Option<nat>, updatedAt: Stamp)

  predicate Distinct(order: seq<Text>) {
    forall i, j :: 0 <= i < j < |order| ==> order[i] != order[j]
  }

  /** The order lists exactly the keys, each once, as it does for any dict. */
  ghost predicate Lists(order: seq<Text>, keys: set<Text>) {
    && (forall s :: s in order <==> s in keys)
    && Distinct(order)
  }

  function Elements(order: seq<Text>): set<Text> {
    set s | s in order
  }

  ghost predicate DictOrdered(c: Cluster) {
    Lists(c.order, c.batteries.Keys)
  }

  /** Everything a reading says except when it was made. */
  function Undated(c: Cluster): Cluster {
    c.(batteries := map s | s in c.batteries :: c.batteries[s].(updatedAt := 0), updatedAt := 0)
  }

  // ---- Python's `or` at the types it is used on ----

  function OrSeq<T>(a: seq<T>, b: seq<T>): seq<T> {
    if |a| > 0 then a else b
  }

  function OrOption<T>(a: Option<T>, b: Option<T>): Option<T> {
    if a.Some? then a else b
  }

  /** An absent string and an empty one are both falsy. */
  function OrText(a: Option<Text>, b: Option<Text>): Option<Text> {
    if a.Some? && a.value != [] then a else b
  }

  function OrCount(a: Option<nat>, b: Option<nat>): Option<nat> {
    if a.Some? && a.value != 0 then a else b
  }

  function OrWord(a: word, b: word): word {
    if a != 0 then a else b
  }

  // ---- the merge ----

  function MergeBattery(serial: Text, recent: Battery, prior: Battery): Battery {
    Battery(
      serial,
      OrWord(recent.position, prior.position),
      OrSeq(recent.cells, prior.cells),
      OrOption(recent.summary, prior.summary),
      OrSeq(recent.temperatures, prior.temperatures),
      OrText(recent.model, prior.model),
      OrOption(recent.alarmBits, prior.alarmBits),
      OrSeq(recent.relayRoutes, prior.relayRoutes),
      OrSeq(recent.switchRoutes, prior.switchRoutes),
      if |recent.cells| > 0 then recent.cellsAt else prior.cellsAt,
      recent.updatedAt)
  }

  function MergeBatteries(previous: Batteries, latest: Batteries): Batteries {
    map s | s in previous.Keys + latest.Keys ::
      if s !in latest then previous[s]
      else if s !in previous then latest[s]
      else MergeBattery(s, latest[s], previous[s])
  }

  /** The order of a dict after assigning the keys of another one to it: new keys go to the end. */
  function MergeOrder(previous: seq<Text>, latest: seq<Text>): seq<Text>
    decreases |latest|
  {
    if latest == [] then previous
    else
      var before, s := MergeOrder(previous, latest[..|latest| - 1]), latest[|latest| - 1];
      if s in before then before else before + [s]
  }

  function Merge(previous: Option<Cluster>, latest: Cluster): Cluster {
    match previous
    case None => latest
    case Some(p) =>
      Cluster(latest.address, OrText(latest.masterSerial, p.masterSerial),
              MergeBatteries(p.batteries, latest.batteries), MergeOrder(p.order, latest.order),
              OrCount(latest.rosterCount, p.rosterCount), latest.updatedAt)
  }

  lemma MergedAt(previous: Batteries, latest: Batteries, s: Text)
    ensures MergeBatteries(previous, latest).Keys == previous.Keys + latest.Keys
    ensures s in latest.Keys ==>
              MergeBatteries(previous, latest)[s] ==
              if s in previous then MergeBattery(s, latest[s], previous[s]) else latest[s]
    ensures s in previous.Keys && s !in latest.Keys ==>
              MergeBatteries(previous, latest)[s] == previous[s]
  {
    hide MergeBattery;
  }

  lemma FoldNone(previous: Batteries, latest: Batteries)
    ensures MergeBatteries(previous, latest - latest.Keys) == previous
  {}

  /** One turn of the loop moves one battery from the unread to the merged ones. */
  lemma FoldOne(previous: Batteries, latest: Batteries, todo: set<Text>, s: Text)
    requires s in todo && todo <= latest.Keys
    ensures var before := MergeBatteries(previous, latest - todo);
            && (s in before <==> s in previous)
            && MergeBatteries(previous, latest - (todo - {s})) ==
               before[s := if s in before then MergeBattery(s, latest[s], before[s]) else latest[s]]
  {
    hide MergeBattery;
  }

  lemma ListsOneMore(order: seq<Text>, keys: set<Text>, s: Text)
    requires Lists(order, keys)
    ensures Lists(if s in order then order else order + [s], keys + {s})
  {}

  /** `merge_readings`: copy the previous batteries, then fold in the latest ones one at a time. */
  method MergeReadings(previous: Option<Cluster>, latest: Cluster) returns (r: Cluster)
    requires DictOrdered(latest) && (previous.Some? ==> DictOrdered(previous.value))
    ensures r == Merge(previous, latest)
    ensures DictOrdered(r)
  {
    hide MergeBattery, MergeBatteries, OrText, OrCount, Lists;
    if previous.None? {
      return latest;
    }
    var prior := previous.value.batteries;
    var merged, order := prior, previous.value.order;
    ghost var todo := latest.batteries.Keys;
    FoldNone(prior, latest.batteries);
    ListedAre(latest, 0);
    assert latest.order[..0] == [];
    for i := 0 to |latest.order|
      invariant todo == Elements(latest.order[i..])
      invariant todo <= latest.batteries.Keys
      invariant merged == MergeBatteries(prior, latest.batteries - todo)
      invariant order == MergeOrder(previous.value.order, latest.order[..i])
      invariant Lists(order, merged.Keys)
    {
      var serial := latest.order[i];
      NextListed(latest, i);
      FoldOne(prior, latest.batteries, todo, serial);
      ListsOneMore(order, merged.Keys, serial);
      ListsMembers(order, merged.Keys, serial);
      assert latest.order[..i + 1][..i] == latest.order[..i];
      var recent := latest.batteries[serial];
      if serial !in merged {
        merged := merged[serial := recent];
        order := order + [serial];
      } else {
        merged := merged[serial := MergeBattery(serial, recent, merged[serial])];
      }
      assert merged.Keys == MergeBatteries(prior, latest.batteries - todo).Keys + {serial};
      todo := todo - {serial};
    }
    assert todo == {} && latest.batteries - {} == latest.batteries;
    assert latest.order[..|latest.order|] == latest.order;
    return Cluster(latest.address, OrText(latest.masterSerial, previous.value.masterSerial), merged, order,
                   OrCount(latest.rosterCount, previous.value.rosterCount), latest.updatedAt);
  }

  lemma ListsMembers(order: seq<Text>, keys: set<Text>, s: Text)
    requires Lists(order, keys)
    ensures s in order <==> s in keys
  {}

  lemma ListedAre(c: Cluster, i: nat)
    requires DictOrdered(c) && i <= |c.order|
    ensures Elements(c.order[i..]) <= c.batteries.Keys
    ensures i == 0 ==> Elements(c.order[i..]) == c.batteries.Keys
  {
    assert c.order[0..] == c.order;
  }

  /** The keys still to come are the one at hand and those after it. */
  lemma NextListed(c: Cluster, i: nat)
    requires DictOrdered(c) && i < |c.order|
    ensures c.order[i] in c.batteries && c.order[i] in c.order[i..]
    ensures Elements(c.order[i..]) - {c.order[i]} == Elements(c.order[i + 1..])
  {
    assert c.order[i..] == [c.order[i]] + c.order[i + 1..];
    assert c.order[i] in c.order;
    assert c.order[i] !in c.order[i + 1..];
  }

  // ---- the algebra of merging ----

  lemma MergeBatteryAssociative(s: Text, a: Battery, b: Battery, c: Battery)
    ensures MergeBattery(s, c, MergeBattery(s, b, a)) == MergeBattery(s, MergeBattery(s, c, b), a)
  {}

  lemma MergeBatteriesAssociative(x: Batteries, y: Batteries, z: Batteries)
    ensures MergeBatteries(MergeBatteries(x, y), z) == MergeBatteries(x, MergeBatteries(y, z))
  {
    hide MergeBattery, MergeBatteries;
    var l, r := MergeBatteries(MergeBatteries(x, y), z), MergeBatteries(x, MergeBatteries(y, z));
    forall s
      ensures s in l <==> s in r
      ensures s in l ==> l[s] == r[s]
    {
      MergedAt(x, y, s);
      MergedAt(y, z, s);
      MergedAt(MergeBatteries(x, y), z, s);
      MergedAt(x, MergeBatteries(y, z), s);
      if s in x && s in y && s in z {
        MergeBatteryAssociative(s, x[s], y[s], z[s]);
      }
    }
  }

  lemma {:induction false} MergeOrderHas(x: seq<Text>, y: seq<Text>, s: Text)
    ensures s in MergeOrder(x, y) <==> s in x || s in y
    decreases |y|
  {
    if y != [] {
      MergeOrderHas(x, y[..|y| - 1], s);
      assert y == y[..|y| - 1] + [y[|y| - 1]];
    }
  }

  lemma {:induction false} MergeOrderAssociative(x: seq<Text>, y: seq<Text>, z: seq<Text>)
    ensures MergeOrder(MergeOrder(x, y), z) == MergeOrder(x, MergeOrder(y, z))
    decreases |z|
  {
    if z != [] {
      var before, s := z[..|z| - 1], z[|z| - 1];
      MergeOrderAssociative(x, y, before);
      var inner := MergeOrder(y, before);
      if s in inner {
        MergeOrderHas(x, inner, s);
      } else {
        assert (inner + [s])[..|inner|] == inner;
      }
    }
  }

  lemma {:induction false} MergeOrderKnown(x: seq<Text>, y: seq<Text>)
    requires forall s :: s in y ==> s in x
    ensures MergeOrder(x, y) == x
    decreases |y|
  {
    if y != [] {
      MergeOrderKnown(x, y[..|y| - 1]);
    }
  }

  /** One serial is listed somewhere before the other. */
  predicate Before(order: seq<Text>, s: Text, t: Text) {
    exists i, j :: 0 <= i < j < |order| && order[i] == s && order[j] == t
  }

  lemma BeforeLast(order: seq<Text>, last: Text, s: Text, t: Text)
    ensures Before(order + [last], s, t) <==> Before(order, s, t) || (s in order && t == last)
  {
    var longer := order + [last];
    if i, j :| 0 <= i < j < |longer| && longer[i] == s && longer[j] == t {
      if j < |order| {
        assert order[i] == s && order[j] == t;
      }
    }
    if i, j :| 0 <= i < j < |order| && order[i] == s && order[j] == t {
      assert longer[i] == s && longer[j] == t;
    }
    if s in order && t == last {
      var i :| 0 <= i < |order| && order[i] == s;
      assert longer[i] == s && longer[|order|] == t;
    }
  }

  /** Of two serials in a list, one stands before the other. */
  lemma BeforeIsTotal(order: seq<Text>, s: Text, t: Text)
    requires Distinct(order) && s in order && t in order && s != t
    ensures Before(order, s, t) <==> !Before(order, t, s)
  {
    var i :| 0 <= i < |order| && order[i] == s;
    var j :| 0 <= j < |order| && order[j] == t;
    if i < j {
      assert Before(order, s, t);
    } else {
      assert Before(order, t, s);
    }
  }

  lemma {:induction false} MergeOrderDistinct(x: seq<Text>, y: seq<Text>)
    requires Distinct(x)
    ensures Distinct(MergeOrder(x, y))
    decreases |y|
  {
    if y != [] {
      MergeOrderDistinct(x, y[..|y| - 1]);
    }
  }

  /** In the merged order the earlier list comes first, and the new serials follow in their own order. */
  lemma {:induction false} BeforeInMerge(x: seq<Text>, y: seq<Text>, s: Text, t: Text)
    requires Distinct(x) && Distinct(y)
    ensures Before(MergeOrder(x, y), s, t) <==>
            if s in x then (if t in x then Before(x, s, t) else t in y)
            else t !in x && Before(y, s, t)
    decreases |y|
  {
    hide Before, Distinct;
    if y == [] {
      BeforeNeedsListed(x, s, t);
      BeforeNeedsListed([], s, t);
    } else {
      var front, last := y[..|y| - 1], y[|y| - 1];
      var m := MergeOrder(x, front);
      assert y == front + [last];
      DistinctFront(front, last);
      BeforeInMerge(x, front, s, t);
      MergeOrderHas(x, front, last);
      MergeOrderHas(x, front, s);
      BeforeLast(front, last, s, t);
      BeforeLast(m, last, s, t);
      BeforeNeedsListed(x, s, t);
      BeforeNeedsListed(front, s, t);
    }
  }

  lemma BeforeNeedsListed(order: seq<Text>, s: Text, t: Text)
    ensures Before(order, s, t) ==> s in order && t in order
  {}

  lemma DistinctFront(front: seq<Text>, last: Text)
    requires Distinct(front + [last])
    ensures Distinct(front) && last !in front
  {
    var y := front + [last];
    assert forall i :: 0 <= i < |front| ==> y[i] == front[i];
    assert y[|front|] == last;
  }

  /** A duplicate-free list is its elements and who stands before whom. */
  lemma {:induction false} SameOrder(x: seq<Text>, y: seq<Text>)
    requires Distinct(x) && Distinct(y)
    requires forall s :: s in x <==> s in y
    requires forall s, t :: Before(x, s, t) <==> Before(y, s, t)
    ensures x == y
    decreases |x|
  {
    if x == [] {
      FirstIsListed(y);
    } else {
      assert x[|x| - 1] in y;
      var front, last := x[..|x| - 1], x[|x| - 1];
      var i :| 0 <= i < |y| && y[i] == last;
      if i < |y| - 1 {
        assert Before(y, last, y[|y| - 1]);
        NothingAfterLast(x, y[|y| - 1]);
      }
      var back := y[..|y| - 1];
      assert x == front + [last] && y == back + [last];
      DistinctFront(front, last);
      DistinctFront(back, last);
      forall s
        ensures s in front <==> s in back
      {
        assert s in x <==> s in front || s == last;
        assert s in y <==> s in back || s == last;
      }
      forall s, t
        ensures Before(front, s, t) <==> Before(back, s, t)
      {
        BeforeLast(front, last, s, t);
        BeforeLast(back, last, s, t);
        BeforeNeedsListed(front, s, t);
        BeforeNeedsListed(back, s, t);
      }
      SameOrder(front, back);
    }
  }

  lemma FirstIsListed(x: seq<Text>)
    ensures x != [] ==> x[0] in x
  {}

  lemma NothingAfterLast(x: seq<Text>, t: Text)
    requires Distinct(x) && x != []
    ensures !Before(x, x[|x| - 1], t)
  {}

  /** Merging polls in any grouping gives one result, with "no previous poll" as the left identity. */
  lemma MergeAssociative(a: Option<Cluster>, b: Cluster, c: Cluster)
    ensures Merge(Some(Merge(a, b)), c) == Merge(a, Merge(Some(b), c))
    ensures Merge(None, b) == b
  {
    hide MergeBatteries;
    if a.Some? {
      MergeBatteriesAssociative(a.value.batteries, b.batteries, c.batteries);
      MergeOrderAssociative(a.value.order, b.order, c.order);
    }
  }

  /** Every battery sits under its own serial. */
  predicate Keyed(b: Batteries) {
    forall s :: s in b ==> b[s].serial == s
  }

  lemma MergeKeepsKeyed(previous: Batteries, latest: Batteries)
    requires Keyed(previous) && Keyed(latest)
    ensures Keyed(MergeBatteries(previous, latest))
  {}

  lemma MergeBatterySelf(s: Text, b: Battery)
    ensures MergeBattery(s, b, b) == b.(serial := s)
  {}

  /** Merging a reading onto itself changes nothing exactly when its batteries are properly keyed. */
  lemma MergeIdempotentIff(a: Cluster)
    ensures Merge(Some(a), a) == a <==> Keyed(a.batteries)
  {
    hide MergeBattery;
    var m := MergeBatteries(a.batteries, a.batteries);
    MergeOrderKnown(a.order, a.order);
    forall s | s in a.batteries
      ensures m[s] == a.batteries[s].(serial := s)
    {
      MergeBatterySelf(s, a.batteries[s]);
    }
    if Keyed(a.batteries) {
      assert m == a.batteries;
    }
  }

  /** What the merge promises for one battery: present fields win if new, survive if only old. */
  predicate NewestWins(merged: Battery, recent: Battery, prior: Battery) {
    && (recent.summary.Some? ==> merged.summary == recent.summary)
    && (recent.summary.None? ==> merged.summary == prior.summary)
    && (recent.alarmBits.Some? ==> merged.alarmBits == recent.alarmBits)
    && (recent.alarmBits.None? ==> merged.alarmBits == prior.alarmBits)
    && (recent.temperatures != [] ==> merged.temperatures == recent.temperatures)
    && (recent.temperatures == [] ==> merged.temperatures == prior.temperatures)
    && (recent.relayRoutes != [] ==> merged.relayRoutes == recent.relayRoutes)
    && (recent.relayRoutes == [] ==> merged.relayRoutes == prior.relayRoutes)
    && (recent.switchRoutes != [] ==> merged.switchRoutes == recent.switchRoutes)
    && (recent.switchRoutes == [] ==> merged.switchRoutes == prior.switchRoutes)
    && (recent.position != 0 ==> merged.position == recent.position)
    && (recent.position == 0 ==> merged.position == prior.position)
    && (recent.cells != [] ==> (merged.cells, merged.cellsAt) == (recent.cells, recent.cellsAt))
    && (recent.cells == [] ==> (merged.cells, merged.cellsAt) == (prior.cells, prior.cellsAt))
    && (recent.model.Some? && recent.model.value != [] ==> merged.model == recent.model)
    && (!(recent.model.Some? && recent.model.value != []) ==> merged.model == prior.model)
    && merged.updatedAt == recent.updatedAt
  }

  /** No battery and no present field is ever lost, cells always keep their own age, and all that both polls
      speak of carries the time of the later one. */
  lemma MergeLosesNothing(previous: Cluster, latest: Cluster)
    ensures var m := Merge(Some(previous), latest).batteries;
            && m.Keys == previous.batteries.Keys + latest.batteries.Keys
            && (forall s :: s in previous.batteries && s !in latest.batteries ==>
                  m[s] == previous.batteries[s])
            && (forall s :: s in latest.batteries && s !in previous.batteries ==>
                  m[s] == latest.batteries[s])
            && (forall s :: s in latest.batteries && s in previous.batteries ==>
                  NewestWins(m[s], latest.batteries[s], previous.batteries[s]) && m[s].serial == s)
    ensures var r := Merge(Some(previous), latest);
            && r.address == latest.address && r.updatedAt == latest.updatedAt
            && (latest.rosterCount.Some? && latest.rosterCount != Some(0) ==> r.rosterCount == latest.rosterCount)
            && (latest.rosterCount.None? || latest.rosterCount == Some(0) ==>
                  r.rosterCount == previous.rosterCount)
            && (latest.masterSerial.Some? && latest.masterSerial != Some([]) ==>
                  r.masterSerial == latest.masterSerial)
            && (latest.masterSerial.None? || latest.masterSerial == Some([]) ==>
                  r.masterSerial == previous.masterSerial)
  {}
}
