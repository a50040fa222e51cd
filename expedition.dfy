/**
 * The greedy refuelling simulation of `problems/20190819-expedition.js`. A
 * truck starts at position 0 with `p` units of fuel and drives towards
 * position `l`, one unit of fuel per unit of distance. Passing a station puts
 * it into a priority queue ordered by fuel, largest first; when the tank is
 * empty the truck refuels from the head of that queue. The answer is the
 * number of refuels, or -1 when the tank is empty and the queue too.
 */
module Expedition {

  datatype Station = Station(pos: int, fuel: int)

  /** Non-increasing fuel, the order the queue's comparator asks for. */
  predicate ByFuel(q: seq<Station>) {
    forall a, b :: 0 <= a < b < |q| ==> q[a].fuel >= q[b].fuel
  }

  /**
   * One step of a stable insertion sort by descending fuel: `s` goes after
   * every element of `q` with at least its fuel and before the rest.
   */
  function Insert(q: seq<Station>, s: Station): (r: seq<Station>)
    requires ByFuel(q)
    ensures ByFuel(r)
    ensures multiset(r) == multiset(q) + multiset{s}
    ensures |r| == |q| + 1
    ensures forall x :: x in r ==> x in q || x == s
  {
    if q == [] || q[|q| - 1].fuel >= s.fuel then q + [s]
    else
      var front := q[..|q| - 1];
      var last := q[|q| - 1];
      var inserted := Insert(front, s);
      assert front + [last] == q;
      ByFuelAppend(inserted, last);
      inserted + [last]
  }

  /** A station with no more fuel than any in a queue in fuel order may follow them all. */
  lemma ByFuelAppend(q: seq<Station>, s: Station)
    requires ByFuel(q)
    requires forall x :: x in q ==> x.fuel >= s.fuel
    ensures ByFuel(q + [s])
  {
    forall a, b | 0 <= a < b < |q| + 1 ensures (q + [s])[a].fuel >= (q + [s])[b].fuel {
      assert q[a] in q;
    }
  }

  /** A stable sort by descending fuel, as `sort` with the comparator `-(a.fuel - b.fuel)` leaves the queue. */
  function SortByFuel(q: seq<Station>): (r: seq<Station>)
    ensures ByFuel(r)
    ensures multiset(r) == multiset(q)
    ensures |r| == |q|
  {
    if q == [] then []
    else
      var front := q[..|q| - 1];
      assert front + [q[|q| - 1]] == q;
      Insert(SortByFuel(front), q[|q| - 1])
  }

  /** `addToPriQueue`: push the station, then sort the queue. */
  function AddToPriQueue(q: seq<Station>, s: Station): (r: seq<Station>)
    ensures ByFuel(r)
    ensures multiset(r) == multiset(q) + multiset{s}
    ensures |r| == |q| + 1
  {
    SortByFuel(q + [s])
  }

  /** Sorting a queue that is already in fuel order changes nothing. */
  lemma {:induction false} SortSortedUnchanged(q: seq<Station>)
    requires ByFuel(q)
    ensures SortByFuel(q) == q
  {
    if q != [] {
      var front := q[..|q| - 1];
      SortSortedUnchanged(front);
      assert front + [q[|q| - 1]] == q;
    }
  }

  /** On a queue in fuel order, adding a station places it after every station with at least its fuel. */
  lemma AddToSortedQueue(q: seq<Station>, s: Station)
    requires ByFuel(q)
    ensures AddToPriQueue(q, s) == Insert(q, s)
  {
    var front := (q + [s])[..|q|];
    assert front == q;
    SortSortedUnchanged(q);
  }

  /** The head of a queue in fuel order has the most fuel of all queued stations. */
  lemma HeadHasMostFuel(q: seq<Station>)
    requires ByFuel(q)
    requires q != []
    ensures forall s :: s in q ==> q[0].fuel >= s.fuel
  {
  }

  /** Taking the head off a queue in fuel order leaves a queue in fuel order. */
  lemma ByFuelTail(q: seq<Station>)
    requires ByFuel(q) && q != []
    ensures ByFuel(q[1..])
  {
  }

  /** Every station of `q` lies at or before `pos`. */
  predicate Passed(q: seq<Station>, pos: int) {
    forall s :: s in q ==> s.pos <= pos
  }

  /** A station reached at `pos` joins a queue of passed stations, and they all stay passed. */
  lemma EnqueuePassed(q: seq<Station>, s: Station, pos: int)
    requires Passed(q, pos) && s.pos <= pos
    ensures Passed(AddToPriQueue(q, s), pos)
  {
    var r := AddToPriQueue(q, s);
    forall x | x in r
      ensures x.pos <= pos
    {
      assert x in multiset(r);
    }
  }

  /** Every station is still waiting on the road, queued, or refuelled from, exactly once. */
  ghost predicate Accounted(stations: seq<Station>, waiting: seq<Station>, queue: seq<Station>, refuelled: seq<Station>) {
    multiset(stations) == multiset(waiting) + multiset(queue) + multiset(refuelled)
  }

  lemma AccountedEnqueue(stations: seq<Station>, waiting: seq<Station>, queue: seq<Station>, refuelled: seq<Station>)
    requires Accounted(stations, waiting, queue, refuelled)
    requires waiting != []
    ensures Accounted(stations, waiting[1..], AddToPriQueue(queue, waiting[0]), refuelled)
  {
    assert waiting == [waiting[0]] + waiting[1..];
  }

  lemma AccountedRefuel(stations: seq<Station>, waiting: seq<Station>, queue: seq<Station>, refuelled: seq<Station>)
    requires Accounted(stations, waiting, queue, refuelled)
    requires queue != []
    ensures Accounted(stations, waiting, queue[1..], refuelled + [queue[0]])
  {
    assert queue == [queue[0]] + queue[1..];
  }

  lemma AccountedBound(stations: seq<Station>, waiting: seq<Station>, queue: seq<Station>, refuelled: seq<Station>)
    requires Accounted(stations, waiting, queue, refuelled)
    ensures multiset(refuelled) <= multiset(stations)
  {
  }

  /** The total fuel of a list of stations. */
  function FuelSum(used: seq<Station>): int {
    if used == [] then 0 else FuelSum(used[..|used| - 1]) + used[|used| - 1].fuel
  }

  /** Refuelling from one more station adds its fuel to the total. */
  lemma FuelSumAppend(used: seq<Station>, s: Station)
    ensures FuelSum(used + [s]) == FuelSum(used) + s.fuel
  {
    assert (used + [s])[..|used|] == used;
  }

  /** Stations listed along the road: positions not negative and strictly increasing. */
  predicate InOrder(stations: seq<Station>) {
    && (forall i :: 0 <= i < |stations| ==> stations[i].pos >= 0)
    && (forall i, j :: 0 <= i < j < |stations| ==> stations[i].pos < stations[j].pos)
  }

  /**
   * What the loop keeps about the stations still on the road: they are what
   * is left of the list after the stations taken from its front, and, for a
   * list in road order, the next one lies at or beyond the truck.
   */
  ghost predicate Ahead(stations: seq<Station>, waiting: seq<Station>, pos: int) {
    && |waiting| <= |stations|
    && waiting == stations[|stations| - |waiting|..]
    && (InOrder(stations) ==> InOrder(waiting) && (waiting == [] || waiting[0].pos >= pos))
  }

  /**
   * What the loop keeps about the stations at position `pos`: the queue is in
   * fuel order, every station is on the road, queued or used exactly once,
   * only stations already passed are queued or used, and the stations on the
   * road are `Ahead`.
   */
  ghost predicate Loaded(stations: seq<Station>, waiting: seq<Station>, queue: seq<Station>, refuelled: seq<Station>, pos: int) {
    var kept := ByFuel(queue) && Accounted(stations, waiting, queue, refuelled)
      && Passed(queue, pos) && Passed(refuelled, pos) && Ahead(stations, waiting, pos);
    kept
  }

  /** Taking the station at the truck's position off the road: for a list in road order the next one lies beyond the truck. */
  lemma AheadArrive(stations: seq<Station>, waiting: seq<Station>, pos: int)
    requires Ahead(stations, waiting, pos)
    requires waiting != [] && waiting[0].pos == pos
    ensures Ahead(stations, waiting[1..], pos)
    ensures InOrder(stations) ==> waiting[1..] == [] || waiting[1..][0].pos > pos
  {
    assert stations[|stations| - |waiting[1..]|..] == stations[|stations| - |waiting|..][1..];
    if InOrder(stations) && |waiting| > 1 {
      assert waiting[0].pos < waiting[1].pos;
    }
  }

  /** Moving the station at the truck's position into the queue. */
  lemma LoadedArrive(stations: seq<Station>, waiting: seq<Station>, queue: seq<Station>, refuelled: seq<Station>, pos: int)
    requires Loaded(stations, waiting, queue, refuelled, pos)
    requires waiting != [] && waiting[0].pos == pos
    ensures Loaded(stations, waiting[1..], AddToPriQueue(queue, waiting[0]), refuelled, pos)
    ensures InOrder(stations) ==> waiting[1..] == [] || waiting[1..][0].pos != pos
  {
    AccountedEnqueue(stations, waiting, queue, refuelled);
    EnqueuePassed(queue, waiting[0], pos);
    AheadArrive(stations, waiting, pos);
  }

  /** Driving one unit further; for a list in road order, no station is left at the position behind. */
  lemma LoadedAdvance(stations: seq<Station>, waiting: seq<Station>, queue: seq<Station>, refuelled: seq<Station>, pos: int)
    requires Loaded(stations, waiting, queue, refuelled, pos)
    requires InOrder(stations) ==> waiting == [] || waiting[0].pos != pos
    ensures Loaded(stations, waiting, queue, refuelled, pos + 1)
  {
  }

  /** Refuelling from the head of the queue. */
  lemma LoadedRefuel(stations: seq<Station>, waiting: seq<Station>, queue: seq<Station>, refuelled: seq<Station>, pos: int)
    requires Loaded(stations, waiting, queue, refuelled, pos)
    requires queue != []
    ensures Loaded(stations, waiting, queue[1..], refuelled + [queue[0]], pos)
  {
    AccountedRefuel(stations, waiting, queue, refuelled);
    ByFuelTail(queue);
  }

  /**
   * Where the loop leaves the stations: the ones on the road are what is left
   * of the list, the refuelled ones come from it and lie behind the truck.
   * When the truck stops with an empty queue and no station at its position,
   * the list is split between the road and the refuels, and for a list in
   * road order every station on the road lies beyond the truck.
   */
  lemma LoadedEnd(stations: seq<Station>, waiting: seq<Station>, queue: seq<Station>, refuelled: seq<Station>, pos: int)
    requires Loaded(stations, waiting, queue, refuelled, pos)
    ensures |waiting| <= |stations| && waiting == stations[|stations| - |waiting|..]
    ensures multiset(refuelled) <= multiset(stations) && Passed(refuelled, pos)
    ensures queue == [] ==> multiset(stations) == multiset(waiting) + multiset(refuelled)
    ensures queue == [] && (waiting == [] || waiting[0].pos != pos) && InOrder(stations) ==>
      forall s :: s in waiting ==> s.pos > pos
  {
    AccountedBound(stations, waiting, queue, refuelled);
    if queue == [] && (waiting == [] || waiting[0].pos != pos) && InOrder(stations) {
      forall s | s in waiting ensures s.pos > pos {
        var k :| 0 <= k < |waiting| && waiting[k] == s;
        if k > 0 {
          assert waiting[0].pos < waiting[k].pos;
        }
      }
    }
  }

  /** The position at which a trip that never runs dry stops: `l`, or 0 when `l` is not positive. */
  function Destination(l: int): nat {
    if l < 0 then 0 else l
  }

  /** Neither the initial tank nor any station holds a negative amount of fuel. */
  predicate NoNegativeFuel(stations: seq<Station>, p: int) {
    p >= 0 && forall s :: s in stations ==> s.fuel >= 0
  }

  /**
   * Every refuel is a feasible step of a plan: the last station used lies
   * within reach of the initial fuel plus the fuel of the stations used
   * before it, and the truck used it with an empty tank at that position,
   * short of the destination; and so, in turn, for the refuels before it.
   */
  ghost predicate OnEmptyTank(p: int, l: int, refuelled: seq<Station>) {
    refuelled == [] ||
      var before := refuelled[..|refuelled| - 1];
      && OnEmptyTank(p, l, before)
      && refuelled[|refuelled| - 1].pos <= p + FuelSum(before) < Destination(l)
  }

  /** Refuelling at `pos`, with the tank empty there, from a station already passed. */
  lemma OnEmptyTankAppend(p: int, l: int, refuelled: seq<Station>, s: Station, pos: int)
    requires OnEmptyTank(p, l, refuelled)
    requires s.pos <= pos && pos == p + FuelSum(refuelled) && pos < Destination(l)
    ensures OnEmptyTank(p, l, refuelled + [s])
  {
    assert (refuelled + [s])[..|refuelled|] == refuelled;
  }

  /**
   * The `k`-th refuel, for every `k`: the station lies within reach of the
   * initial fuel plus the fuel of the `k` stations used before it, and that
   * reach is short of the destination.
   */
  lemma {:induction false} OnEmptyTankAt(p: int, l: int, refuelled: seq<Station>, k: int)
    requires OnEmptyTank(p, l, refuelled)
    requires 0 <= k < |refuelled|
    ensures refuelled[k].pos <= p + FuelSum(refuelled[..k]) < Destination(l)
  {
    var before := refuelled[..|refuelled| - 1];
    if k < |refuelled| - 1 {
      OnEmptyTankAt(p, l, before, k);
      assert before[..k] == refuelled[..k];
    } else {
      assert refuelled[..k] == before;
    }
  }

  /** A queued station comes from the list. */
  lemma QueuedFromList(stations: seq<Station>, waiting: seq<Station>, queue: seq<Station>, refuelled: seq<Station>)
    requires Accounted(stations, waiting, queue, refuelled)
    requires queue != []
    ensures queue[0] in stations
  {
    assert queue[0] in multiset(queue);
    assert queue[0] in multiset(stations);
  }

  /**
   * The truck's progress in `Drive`: the position stays on the road, the
   * count is the number of refuels, the distance driven plus the tank is the
   * fuel taken in, and a truck that has reached a positive `l` has a
   * non-negative tank. When no fuel amount is negative the tank never is,
   * and every refuel so far happened `OnEmptyTank`.
   */
  ghost predicate Progress(stations: seq<Station>, l: int, p: int, refuelled: seq<Station>, refuelCount: int, pos: int, fuel: int) {
    var kept := 0 <= pos <= Destination(l) && refuelCount == |refuelled|
      && pos + fuel == p + FuelSum(refuelled) && (pos >= l && l > 0 ==> fuel >= 0)
      && (NoNegativeFuel(stations, p) ==> fuel >= 0 && OnEmptyTank(p, l, refuelled));
    kept
  }

  /**
   * The loop invariant of `Drive`: the truck makes `Progress` and the
   * stations are `Loaded`.
   */
  ghost predicate Driving(stations: seq<Station>, l: int, p: int, waiting: seq<Station>, queue: seq<Station>,
                          refuelled: seq<Station>, refuelCount: int, pos: int, fuel: int) {
    && Progress(stations, l, p, refuelled, refuelCount, pos, fuel)
    && Loaded(stations, waiting, queue, refuelled, pos)
  }

  /** The station at the truck's position enters the queue. */
  lemma DrivingArrive(stations: seq<Station>, l: int, p: int, waiting: seq<Station>, queue: seq<Station>,
                      refuelled: seq<Station>, refuelCount: int, pos: int, fuel: int)
    requires Driving(stations, l, p, waiting, queue, refuelled, refuelCount, pos, fuel)
    requires waiting != [] && waiting[0].pos == pos
    ensures Driving(stations, l, p, waiting[1..], AddToPriQueue(queue, waiting[0]), refuelled, refuelCount, pos, fuel)
    ensures InOrder(stations) ==> waiting[1..] == [] || waiting[1..][0].pos != pos
  {
    LoadedArrive(stations, waiting, queue, refuelled, pos);
  }

  /** The truck burns one unit of fuel to drive one unit further. */
  lemma DrivingAdvance(stations: seq<Station>, l: int, p: int, waiting: seq<Station>, queue: seq<Station>,
                       refuelled: seq<Station>, refuelCount: int, pos: int, fuel: int)
    requires Driving(stations, l, p, waiting, queue, refuelled, refuelCount, pos, fuel)
    requires pos < l && fuel > 0
    requires InOrder(stations) ==> waiting == [] || waiting[0].pos != pos
    ensures Driving(stations, l, p, waiting, queue, refuelled, refuelCount, pos + 1, fuel - 1)
  {
    LoadedAdvance(stations, waiting, queue, refuelled, pos);
  }

  /** The truck refuels from the head of the queue. */
  lemma DrivingRefuel(stations: seq<Station>, l: int, p: int, waiting: seq<Station>, queue: seq<Station>,
                      refuelled: seq<Station>, refuelCount: int, pos: int, fuel: int)
    requires Driving(stations, l, p, waiting, queue, refuelled, refuelCount, pos, fuel)
    requires pos < l && fuel <= 0 && queue != []
    ensures Driving(stations, l, p, waiting, queue[1..], refuelled + [queue[0]], refuelCount + 1, pos, fuel + queue[0].fuel)
  {
    LoadedRefuel(stations, waiting, queue, refuelled, pos);
    FuelSumAppend(refuelled, queue[0]);
    if NoNegativeFuel(stations, p) && fuel <= 0 {
      QueuedFromList(stations, waiting, queue, refuelled);
      OnEmptyTankAppend(p, l, refuelled, queue[0], pos);
    }
  }

  /** Where a truck that reached the end of the road stands. */
  lemma DrivingArrived(stations: seq<Station>, l: int, p: int, waiting: seq<Station>, queue: seq<Station>,
                       refuelled: seq<Station>, refuelCount: int, pos: int, fuel: int)
    requires Driving(stations, l, p, waiting, queue, refuelled, refuelCount, pos, fuel)
    requires pos >= l
    ensures pos == Destination(l) && refuelCount == |refuelled| && (l > 0 ==> fuel >= 0)
    ensures pos + fuel == p + FuelSum(refuelled)
    ensures NoNegativeFuel(stations, p) ==> OnEmptyTank(p, l, refuelled)
    ensures |waiting| <= |stations| && waiting == stations[|stations| - |waiting|..]
    ensures multiset(refuelled) <= multiset(stations) && Passed(refuelled, pos)
  {
    LoadedEnd(stations, waiting, queue, refuelled, pos);
  }

  /** Where a truck stuck with an empty tank, an empty queue and no station at hand stands. */
  lemma DrivingStuck(stations: seq<Station>, l: int, p: int, waiting: seq<Station>,
                     refuelled: seq<Station>, refuelCount: int, pos: int, fuel: int)
    requires Driving(stations, l, p, waiting, [], refuelled, refuelCount, pos, fuel)
    requires waiting == [] || waiting[0].pos != pos
    ensures 0 <= pos <= Destination(l) && pos + fuel == p + FuelSum(refuelled)
    ensures NoNegativeFuel(stations, p) ==> OnEmptyTank(p, l, refuelled)
    ensures |waiting| <= |stations| && waiting == stations[|stations| - |waiting|..]
    ensures multiset(refuelled) <= multiset(stations) && Passed(refuelled, pos)
    ensures multiset(stations) == multiset(waiting) + multiset(refuelled)
    ensures InOrder(stations) ==> forall s :: s in waiting ==> s.pos > pos
  {
    LoadedEnd(stations, waiting, [], refuelled, pos);
  }

  /**
   * What `Drive` returns: the answer is -1 exactly when the truck stopped
   * short of `l`, with an empty tank; otherwise it is a count, and the truck
   * stands at the destination with a tank that is not negative when `l > 0`.
   */
  predicate Reported(l: int, refuelCount: int, pos: int, fuel: int) {
    && (refuelCount == -1 <==> pos < l)
    && (refuelCount == -1 ==> fuel <= 0)
    && (refuelCount != -1 ==> refuelCount >= 0 && pos == Destination(l))
    && (refuelCount != -1 && l > 0 ==> fuel >= 0)
    && 0 <= pos <= Destination(l)
  }

  /**
   * What the stations used (`refuelled`) and the stations never queued
   * (`left`) say about the run. A count is the number of refuels. The
   * position and fuel account for the stations used, which come from the
   * list and were passed, and when no fuel amount is negative every refuel
   * happened `OnEmptyTank`. At a -1 every station was either used or is
   * still on the road (`left`, what remains of the list), none stands at the
   * truck, and for a list in road order all of them lie beyond it.
   */
  ghost predicate Answered(stations: seq<Station>, l: int, p: int, refuelCount: int, pos: int, fuel: int,
                           refuelled: seq<Station>, left: seq<Station>) {
    && (refuelCount != -1 ==> refuelCount == |refuelled|)
    && pos + fuel == p + FuelSum(refuelled)
    && multiset(refuelled) <= multiset(stations)
    && Passed(refuelled, pos)
    && (NoNegativeFuel(stations, p) ==> OnEmptyTank(p, l, refuelled))
    && |left| <= |stations| && left == stations[|stations| - |left|..]
    && (refuelCount == -1 ==> multiset(stations) == multiset(left) + multiset(refuelled))
    && (refuelCount == -1 ==> left == [] || left[0].pos != pos)
    && (refuelCount == -1 && InOrder(stations) ==> forall s :: s in left ==> s.pos > pos)
  }

  /** The loop's state when it ends, stuck or at the destination, gives the answer. */
  lemma DriveAnswer(stations: seq<Station>, l: int, p: int, waiting: seq<Station>, queue: seq<Station>,
                    refuelled: seq<Station>, count: int, pos: int, fuel: int, stuck: bool, refuelCount: int)
    requires Driving(stations, l, p, waiting, queue, refuelled, count, pos, fuel)
    requires stuck ==> pos < l && fuel <= 0 && queue == [] && (waiting == [] || waiting[0].pos != pos)
    requires !stuck ==> pos >= l
    requires refuelCount == if stuck then -1 else count
    ensures Reported(l, refuelCount, pos, fuel)
    ensures Answered(stations, l, p, refuelCount, pos, fuel, refuelled, waiting)
  {
    if stuck {
      DrivingStuck(stations, l, p, waiting, refuelled, count, pos, fuel);
    } else {
      DrivingArrived(stations, l, p, waiting, queue, refuelled, count, pos, fuel);
    }
  }

  /**
   * The top-level loop. `refuelled` lists, in order, the stations the truck
   * refuelled from, and `left` the stations it never queued. The final
   * position and fuel are returned with the count.
   */
  method Drive(stations: seq<Station>, l: int, p: int)
    returns (refuelCount: int, pos: int, fuel: int, ghost refuelled: seq<Station>, ghost left: seq<Station>)
    ensures Reported(l, refuelCount, pos, fuel)
    ensures Answered(stations, l, p, refuelCount, pos, fuel, refuelled, left)
  {
    var waiting := stations;
    var priQueue: seq<Station> := [];
    refuelCount, pos, fuel := 0, 0, p;
    refuelled := [];
    var stuck := false;
    assert Driving(stations, l, p, waiting, priQueue, refuelled, refuelCount, pos, fuel);
    while pos < l
      invariant Driving(stations, l, p, waiting, priQueue, refuelled, refuelCount, pos, fuel) && !stuck
      decreases l - pos, |waiting| + |priQueue|
    {
      if |waiting| > 0 && waiting[0].pos == pos {
        DrivingArrive(stations, l, p, waiting, priQueue, refuelled, refuelCount, pos, fuel);
        priQueue := AddToPriQueue(priQueue, waiting[0]);
        waiting := waiting[1..];
      }
      if fuel > 0 {
        DrivingAdvance(stations, l, p, waiting, priQueue, refuelled, refuelCount, pos, fuel);
        pos := pos + 1;
        fuel := fuel - 1;
        continue;
      }
      if |priQueue| == 0 {
        stuck := true;  // the source sets the answer to -1 here; that is done right after the loop
        break;
      }
      var station := priQueue[0];
      DrivingRefuel(stations, l, p, waiting, priQueue, refuelled, refuelCount, pos, fuel);
      priQueue := priQueue[1..];
      fuel := fuel + station.fuel;
      refuelCount := refuelCount + 1;
      refuelled := refuelled + [station];
    }
    ghost var count := refuelCount;
    if stuck {
      refuelCount := -1;
    }
    DriveAnswer(stations, l, p, waiting, priQueue, refuelled, count, pos, fuel, stuck, refuelCount);
    left := waiting;
  }
}
