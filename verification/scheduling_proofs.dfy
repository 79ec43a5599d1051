/**
 * Properties of a whole scheduling pass: every row is the greedy decision
 * against the fleet state the earlier bookings left; assigned rows are
 * served by a vehicle of the right type whose shift covers the request;
 * and, when no committed service runs past midnight, each vehicle's next
 * availability only moves forward, its jobs lie inside its shift and never
 * overlap.
 */
module SchedulingProofs {
  import opened Wrappers
  import opened TimeOfDay
  import opened Scheduling

  /** The row says the booking went to vehicle `v`. */
  predicate AssignedTo(row: Assignment, v: Resource)
  {
    row.status == Assigned && row.vehicleId == Some(v.id)
  }

  /** What an assigned row promises about the vehicle serving it. */
  ghost predicate ServedBy(row: Assignment, v: Resource)
  {
    && row.driver == Some(v.driver)
    && v.vehicleType == row.request.requiredType
    && Minutes(v.availableUntil) >= Minutes(row.request.requested)
    && row.request.service.Some?
    && row.actualPickup.Some?
    && row.delay >= 0
    && Minutes(row.actualPickup.value) == Minutes(row.request.requested) + row.delay
  }

  function PickupMinutes(row: Assignment): nat
  {
    if row.actualPickup.Some? then Minutes(row.actualPickup.value) else 0
  }

  /** End of service of a row, as `calculate_end_time` computes it. */
  function EndMinutes(row: Assignment): nat
  {
    Minutes(CalculateEndTime(row.actualPickup, row.request.service))
  }

  /** The fleet `f` is `f0` with, at most, other next-availability times. */
  ghost predicate SameVehicles(f0: seq<Resource>, f: seq<Resource>)
  {
    |f| == |f0| && forall k :: 0 <= k < |f0| ==> f[k] == f0[k].(nextAvailable := f[k].nextAvailable)
  }

  lemma SameVehiclesKeepIds(f0: seq<Resource>, f: seq<Resource>)
    requires SameVehicles(f0, f) && UniqueIds(f0)
    ensures UniqueIds(f)
  {
    assert forall k :: 0 <= k < |f| ==> f[k].id == f0[k].id;
  }

  // ---------------------------------------------------------------------
  // The pass, row by row
  // ---------------------------------------------------------------------

  /** Running over a prefix of the bookings yields a prefix of the table. */
  lemma {:induction false} AssignPrefix(f0: seq<Resource>, qs: seq<Request>, i: nat)
    requires i <= |qs|
    ensures Assign(f0, qs[..i]).table == Assign(f0, qs).table[..i]
    decreases |qs|
  {
    if i < |qs| {
      var n := |qs| - 1;
      assert qs[..n][..i] == qs[..i];
      AssignPrefix(f0, qs[..n], i);
      assert Assign(f0, qs).table[..n] == Assign(f0, qs[..n]).table;
    } else {
      assert qs[..i] == qs;
    }
  }

  /**
   * Row `i` of the table is the step for booking `i` against the fleet
   * state the bookings before it left: decisions are taken one booking at a
   * time and never revised.
   */
  lemma RowIsStep(f0: seq<Resource>, qs: seq<Request>, i: nat)
    requires i < |qs|
    ensures Assign(f0, qs).table[i] == Step(Assign(f0, qs[..i]).fleet, qs[i]).row
  {
    AssignPrefix(f0, qs, i + 1);
    assert qs[..i + 1][..i] == qs[..i];
    assert Assign(f0, qs[..i + 1]).table[i] == Assign(f0, qs).table[i];
  }

  /**
   * Greedy choice: an assigned row's delay is no larger than the lateness
   * of any vehicle eligible for that booking at that point of the pass.
   */
  lemma GreedyChoice(f0: seq<Resource>, qs: seq<Request>, i: nat, j: nat)
    requires i < |qs|
    requires Assign(f0, qs).table[i].status == Assigned
    requires j < |f0| && IsCandidate(Assign(f0, qs[..i]).fleet[j], qs[i])
    ensures Assign(f0, qs).table[i].delay <= Lateness(Assign(f0, qs[..i]).fleet[j], qs[i])
  {
    RowIsStep(f0, qs, i);
  }

  // ---------------------------------------------------------------------
  // Soundness of every row
  // ---------------------------------------------------------------------

  /**
   * Every row of a pass is either the untouched NON ASSEGNATO row or an
   * ASSEGNATO row naming a vehicle of the fleet; with unique vehicle ids,
   * that vehicle has the requested type, a shift ending no earlier than the
   * requested time, and its pickup is the requested time plus a
   * non-negative delay.
   */
  lemma {:induction false} AssignSound(f0: seq<Resource>, qs: seq<Request>, i: nat)
    requires UniqueIds(f0)
    requires i < |qs|
    ensures var row := Assign(f0, qs).table[i];
            row.status == NotAssigned ==> row == Pending(qs[i])
    ensures var row := Assign(f0, qs).table[i];
            row.status == Assigned ==> exists k :: 0 <= k < |f0| && AssignedTo(row, f0[k])
    ensures var row := Assign(f0, qs).table[i];
            forall k :: 0 <= k < |f0| && AssignedTo(row, f0[k]) ==> ServedBy(row, f0[k])
  {
    RowIsStep(f0, qs, i);
    var f := Assign(f0, qs[..i]).fleet;
    var row := Assign(f0, qs).table[i];
    if row.status == Assigned {
      var d := Decide(f, qs[i]);
      assert f[d.k].id == f0[d.k].id;
      assert AssignedTo(row, f0[d.k]);
      forall k | 0 <= k < |f0| && AssignedTo(row, f0[k])
        ensures ServedBy(row, f0[k])
      {
        assert f0[k].id == f0[d.k].id;
        assert k == d.k;
      }
    }
  }

  // ---------------------------------------------------------------------
  // The timeline of each vehicle
  // ---------------------------------------------------------------------

  /** Every vehicle starts the pass available from its shift start. */
  ghost predicate AtShiftStart(f0: seq<Resource>)
  {
    forall k :: 0 <= k < |f0| ==> f0[k].nextAvailable == ShiftStart(f0[k])
  }

  /**
   * Booking `q`, committed against fleet state `f`, ends on the day it
   * starts: its service time is non-negative and pickup plus service stays
   * before midnight.
   */
  ghost predicate SameDayCommit(f: seq<Resource>, q: Request)
  {
    Decide(f, q).Commit? ==>
      0 <= q.service.value && Minutes(Decide(f, q).pickup) + q.service.value < MinutesPerDay
  }

  /** No booking the pass over `qs` commits runs past midnight. */
  ghost predicate NoWrap(f0: seq<Resource>, qs: seq<Request>)
  {
    forall i :: 0 <= i < |qs| ==> SameDayCommit(Assign(f0, qs[..i]).fleet, qs[i])
  }

  /** The no-wrap condition of a pass holds for every prefix of it. */
  lemma NoWrapPrefix(f0: seq<Resource>, qs: seq<Request>, n: nat)
    requires n <= |qs| && NoWrap(f0, qs)
    ensures NoWrap(f0, qs[..n])
  {
    forall i | 0 <= i < n
      ensures SameDayCommit(Assign(f0, qs[..n][..i]).fleet, qs[..n][i])
    {
      assert qs[..n][..i] == qs[..i];
    }
  }

  /**
   * Shift containment: every job starts no earlier than its vehicle's shift
   * start and ends, after it starts, no later than its shift end.
   */
  ghost predicate WithinShifts(f0: seq<Resource>, t: seq<Assignment>)
  {
    forall i, k :: 0 <= i < |t| && 0 <= k < |f0| && AssignedTo(t[i], f0[k]) ==>
      Minutes(ShiftStart(f0[k])) <= PickupMinutes(t[i]) <= EndMinutes(t[i]) <= Minutes(f0[k].availableUntil)
  }

  /** No double booking: of two jobs of one vehicle, the later starts after the earlier ends. */
  ghost predicate NoOverlap(f0: seq<Resource>, t: seq<Assignment>)
  {
    forall i, j, k {:trigger AssignedTo(t[i], f0[k]), AssignedTo(t[j], f0[k])} ::
      0 <= i < j < |t| && 0 <= k < |f0| && AssignedTo(t[i], f0[k]) && AssignedTo(t[j], f0[k]) ==>
      EndMinutes(t[i]) <= PickupMinutes(t[j])
  }

  /**
   * The invariant of the pass: no vehicle's next availability lies before
   * its initial availability; each job a vehicle has been given starts no
   * earlier than its initial availability and ends no later than its next
   * availability and its shift end; and of two jobs of one vehicle, the
   * later one starts after the earlier one ends.
   */
  ghost predicate Timeline(f0: seq<Resource>, f: seq<Resource>, table: seq<Assignment>)
  {
    && SameVehicles(f0, f)
    && NeverEarlier(f0, f)
    && JobsBeforeAvailability(f0, f, table)
    && NoOverlap(f0, table)
  }

  ghost predicate NeverEarlier(f0: seq<Resource>, f: seq<Resource>)
    requires |f| == |f0|
  {
    forall k :: 0 <= k < |f0| ==> Minutes(f0[k].nextAvailable) <= Minutes(f[k].nextAvailable)
  }

  ghost predicate JobsBeforeAvailability(f0: seq<Resource>, f: seq<Resource>, table: seq<Assignment>)
    requires |f| == |f0|
  {
    forall i, k {:trigger AssignedTo(table[i], f0[k])} ::
      0 <= i < |table| && 0 <= k < |f0| && AssignedTo(table[i], f0[k]) ==>
      && Minutes(f0[k].nextAvailable) <= PickupMinutes(table[i]) <= EndMinutes(table[i]) <= Minutes(f[k].nextAvailable)
      && EndMinutes(table[i]) <= Minutes(f0[k].availableUntil)
  }

  /** One booking keeps the invariant, and no vehicle's availability moves back. */
  lemma StepKeepsTimeline(f0: seq<Resource>, f: seq<Resource>, table: seq<Assignment>, q: Request)
    requires UniqueIds(f0)
    requires Timeline(f0, f, table)
    requires SameDayCommit(f, q)
    ensures var o := Step(f, q);
            Timeline(f0, o.fleet, table + [o.row])
    ensures var o := Step(f, q);
            forall k :: 0 <= k < |f| ==> Minutes(f[k].nextAvailable) <= Minutes(o.fleet[k].nextAvailable)
  {
    var o := Step(f, q);
    if o.row.status == NotAssigned {
      SkipKeepsTimeline(f0, f, table, o.row);
    } else {
      CommitKeepsTimeline(f0, f, table, q);
    }
  }

  lemma SkipKeepsTimeline(f0: seq<Resource>, f: seq<Resource>, table: seq<Assignment>, row: Assignment)
    requires Timeline(f0, f, table)
    requires row.status == NotAssigned
    ensures Timeline(f0, f, table + [row])
  {
    var t := table + [row];
    assert forall i :: 0 <= i < |table| ==> t[i] == table[i];
    assert forall k :: 0 <= k < |f0| ==> !AssignedTo(t[|table|], f0[k]);
  }

  lemma CommitKeepsTimeline(f0: seq<Resource>, f: seq<Resource>, table: seq<Assignment>, q: Request)
    requires UniqueIds(f0)
    requires Timeline(f0, f, table)
    requires Decide(f, q).Commit?
    requires 0 <= q.service.value && Minutes(Decide(f, q).pickup) + q.service.value < MinutesPerDay
    ensures var o := Step(f, q);
            Timeline(f0, o.fleet, table + [o.row])
    ensures var o := Step(f, q);
            forall k :: 0 <= k < |f| ==> Minutes(f[k].nextAvailable) <= Minutes(o.fleet[k].nextAvailable)
  {
    CommitFacts(f0, f, q);
    var d := Decide(f, q);
    ExtendTimeline(f0, f, table, Step(f, q).row, d.k, d.end);
  }

  /** What a committed booking does, in the terms of the invariant. */
  lemma CommitFacts(f0: seq<Resource>, f: seq<Resource>, q: Request)
    requires UniqueIds(f0)
    requires SameVehicles(f0, f)
    requires Decide(f, q).Commit?
    requires 0 <= q.service.value && Minutes(Decide(f, q).pickup) + q.service.value < MinutesPerDay
    ensures var d, o := Decide(f, q), Step(f, q);
            && d.k < |f0|
            && o.fleet == f[d.k := f[d.k].(nextAvailable := d.end)]
            && AssignedTo(o.row, f0[d.k])
            && (forall k :: 0 <= k < |f0| && AssignedTo(o.row, f0[k]) ==> k == d.k)
            && Minutes(f[d.k].nextAvailable) <= PickupMinutes(o.row) <= EndMinutes(o.row)
            && EndMinutes(o.row) == Minutes(d.end) <= Minutes(f0[d.k].availableUntil)
  {
    SameVehiclesKeepIds(f0, f);
    CommitTarget(f0, f, q);
    CommitTimes(f0, f, q);
    CommitRow(f, q);
  }

  lemma CommitTarget(f0: seq<Resource>, f: seq<Resource>, q: Request)
    requires UniqueIds(f0) && UniqueIds(f)
    requires SameVehicles(f0, f)
    requires Decide(f, q).Commit?
    ensures var d, o := Decide(f, q), Step(f, q);
            && d.k < |f0|
            && o.fleet == f[d.k := f[d.k].(nextAvailable := d.end)]
            && AssignedTo(o.row, f0[d.k])
            && (forall k :: 0 <= k < |f0| && AssignedTo(o.row, f0[k]) ==> k == d.k)
  {
    var d, o := Decide(f, q), Step(f, q);
    var k := d.k;
    assert o.row.vehicleId == Some(f[k].id);
    assert f[k].id == f0[k].id;
    forall k' | 0 <= k' < |f0| && AssignedTo(o.row, f0[k'])
      ensures k' == k
    {
      assert f0[k'].id == f0[k].id;
    }
  }

  lemma CommitTimes(f0: seq<Resource>, f: seq<Resource>, q: Request)
    requires SameVehicles(f0, f)
    requires Decide(f, q).Commit?
    requires 0 <= q.service.value && Minutes(Decide(f, q).pickup) + q.service.value < MinutesPerDay
    ensures var d := Decide(f, q);
            && d.k < |f0|
            && Minutes(f[d.k].nextAvailable) <= Minutes(d.pickup) <= Minutes(d.end) <= Minutes(f0[d.k].availableUntil)
  {
    var d := Decide(f, q);
    var k := d.k;
    assert f[k].availableUntil == f0[k].availableUntil;
    var pickup := Minutes(d.pickup);
    SmallModulo(pickup + q.service.value);
  }

  lemma CommitRow(f: seq<Resource>, q: Request)
    requires Decide(f, q).Commit?
    ensures var d, row := Decide(f, q), Step(f, q).row;
            PickupMinutes(row) == Minutes(d.pickup) && EndMinutes(row) == Minutes(d.end)
  {
  }

  lemma SmallModulo(x: int)
    requires 0 <= x < MinutesPerDay
    ensures x % MinutesPerDay == x
  {
  }

  /** Giving vehicle `k` one more job, from its next availability up to `end`, keeps the invariant. */
  lemma ExtendTimeline(f0: seq<Resource>, f: seq<Resource>, table: seq<Assignment>, row: Assignment, k: nat, end: Clock)
    requires Timeline(f0, f, table)
    requires k < |f0|
    requires AssignedTo(row, f0[k])
    requires forall k' :: 0 <= k' < |f0| && AssignedTo(row, f0[k']) ==> k' == k
    requires Minutes(f[k].nextAvailable) <= PickupMinutes(row) <= EndMinutes(row)
    requires EndMinutes(row) == Minutes(end) <= Minutes(f0[k].availableUntil)
    ensures Timeline(f0, f[k := f[k].(nextAvailable := end)], table + [row])
    ensures forall k' :: 0 <= k' < |f| ==> Minutes(f[k'].nextAvailable) <= Minutes(f[k := f[k].(nextAvailable := end)][k'].nextAvailable)
  {
    var g := f[k := f[k].(nextAvailable := end)];
    assert SameVehicles(f0, g);
    assert NeverEarlier(f0, g);
    ExtendJobs(f0, f, table, row, k, end);
    ExtendNoOverlap(f0, f, table, row, k);
  }

  lemma ExtendJobs(f0: seq<Resource>, f: seq<Resource>, table: seq<Assignment>, row: Assignment, k: nat, end: Clock)
    requires |f| == |f0| && k < |f0|
    requires NeverEarlier(f0, f)
    requires JobsBeforeAvailability(f0, f, table)
    requires forall k' :: 0 <= k' < |f0| && AssignedTo(row, f0[k']) ==> k' == k
    requires Minutes(f[k].nextAvailable) <= PickupMinutes(row) <= EndMinutes(row)
    requires EndMinutes(row) == Minutes(end) <= Minutes(f0[k].availableUntil)
    ensures JobsBeforeAvailability(f0, f[k := f[k].(nextAvailable := end)], table + [row])
  {
    var g := f[k := f[k].(nextAvailable := end)];
    var t := table + [row];
    forall i, k' | 0 <= i < |t| && 0 <= k' < |f0| && AssignedTo(t[i], f0[k'])
      ensures Minutes(f0[k'].nextAvailable) <= PickupMinutes(t[i]) <= EndMinutes(t[i]) <= Minutes(g[k'].nextAvailable)
      ensures EndMinutes(t[i]) <= Minutes(f0[k'].availableUntil)
    {
      if i == |table| {
        assert k' == k;
      } else {
        assert t[i] == table[i];
      }
    }
  }

  lemma ExtendNoOverlap(f0: seq<Resource>, f: seq<Resource>, table: seq<Assignment>, row: Assignment, k: nat)
    requires |f| == |f0| && k < |f0|
    requires JobsBeforeAvailability(f0, f, table)
    requires NoOverlap(f0, table)
    requires forall k' :: 0 <= k' < |f0| && AssignedTo(row, f0[k']) ==> k' == k
    requires Minutes(f[k].nextAvailable) <= PickupMinutes(row)
    ensures NoOverlap(f0, table + [row])
  {
    var t := table + [row];
    forall i, j, k' | 0 <= i < j < |t| && 0 <= k' < |f0| && AssignedTo(t[i], f0[k']) && AssignedTo(t[j], f0[k'])
      ensures EndMinutes(t[i]) <= PickupMinutes(t[j])
    {
      assert t[i] == table[i];
      if j == |table| {
        assert k' == k;
      } else {
        assert t[j] == table[j];
      }
    }
  }

  /** The invariant holds after any pass in which no commit runs past midnight. */
  lemma {:induction false} AssignTimeline(f0: seq<Resource>, qs: seq<Request>)
    requires UniqueIds(f0) && NoWrap(f0, qs)
    ensures Timeline(f0, Assign(f0, qs).fleet, Assign(f0, qs).table)
    decreases |qs|
  {
    if qs != [] {
      var n := |qs| - 1;
      NoWrapPrefix(f0, qs, n);
      AssignTimeline(f0, qs[..n]);
      var before := Assign(f0, qs[..n]);
      assert SameDayCommit(before.fleet, qs[n]);
      StepKeepsTimeline(f0, before.fleet, before.table, qs[n]);
    }
  }

  /**
   * When no commit runs past midnight, the jobs of a pass from a fleet at
   * its shift starts lie inside their shifts and never overlap.
   */
  lemma JobsFitShifts(f0: seq<Resource>, qs: seq<Request>)
    requires UniqueIds(f0) && AtShiftStart(f0) && NoWrap(f0, qs)
    ensures WithinShifts(f0, Assign(f0, qs).table)
    ensures NoOverlap(f0, Assign(f0, qs).table)
  {
    AssignTimeline(f0, qs);
    var s := Assign(f0, qs);
    forall i, k | 0 <= i < |s.table| && 0 <= k < |f0| && AssignedTo(s.table[i], f0[k])
      ensures Minutes(ShiftStart(f0[k])) <= PickupMinutes(s.table[i]) <= EndMinutes(s.table[i]) <= Minutes(f0[k].availableUntil)
    {
      assert f0[k].nextAvailable == ShiftStart(f0[k]);
    }
  }

  /** Along a pass with no midnight wrap, a vehicle's next availability never moves backwards. */
  lemma {:induction false} AvailabilityNeverDecreases(f0: seq<Resource>, qs: seq<Request>, i: nat, j: nat, k: nat)
    requires UniqueIds(f0) && NoWrap(f0, qs)
    requires i <= j <= |qs| && k < |f0|
    ensures Minutes(Assign(f0, qs[..i]).fleet[k].nextAvailable) <= Minutes(Assign(f0, qs[..j]).fleet[k].nextAvailable)
    decreases j
  {
    if i < j {
      AvailabilityNeverDecreases(f0, qs, i, j - 1, k);
      var pre := qs[..j - 1];
      assert qs[..j][..j - 1] == pre;
      NoWrapPrefix(f0, qs, j - 1);
      AssignTimeline(f0, pre);
      var before := Assign(f0, pre);
      assert SameDayCommit(before.fleet, qs[j - 1]);
      StepKeepsTimeline(f0, before.fleet, before.table, qs[j - 1]);
    }
  }

  // ---------------------------------------------------------------------
  // The whole of run_scheduling
  // ---------------------------------------------------------------------

  function Requests(t: seq<Assignment>): (qs: seq<Request>)
    ensures |qs| == |t|
  {
    seq(|t|, i requires 0 <= i < |t| => t[i].request)
  }

  /**
   * The assignment table has one row per booking, every booking exactly
   * once, in order of requested pickup time.
   */
  lemma RunSchedulingOrder(clients: seq<ClientRow>, vehicles: seq<VehicleRow>)
    ensures var t := RunScheduling(clients, vehicles).table;
            && |t| == |clients|
            && multiset(Requests(t)) == multiset(PrepareClients(clients))
            && forall i, j :: 0 <= i < j < |t| ==> Minutes(t[i].request.requested) <= Minutes(t[j].request.requested)
  {
    var qs := SortByRequest(PrepareClients(clients));
    var t := RunScheduling(clients, vehicles).table;
    assert Requests(t) == qs;
    assert |qs| == |clients| by {
      assert |multiset(qs)| == |multiset(PrepareClients(clients))|;
    }
  }

  /**
   * For a fleet with unique vehicle ids, when no booking `run_scheduling`
   * commits runs past midnight, every job it commits lies within its
   * vehicle's shift, and two jobs of one vehicle never overlap.
   */
  lemma RunSchedulingFitsShifts(clients: seq<ClientRow>, vehicles: seq<VehicleRow>)
    requires UniqueIds(PrepareFleet(vehicles))
    requires NoWrap(PrepareFleet(vehicles), SortByRequest(PrepareClients(clients)))
    ensures WithinShifts(PrepareFleet(vehicles), RunScheduling(clients, vehicles).table)
    ensures NoOverlap(PrepareFleet(vehicles), RunScheduling(clients, vehicles).table)
  {
    JobsFitShifts(PrepareFleet(vehicles), SortByRequest(PrepareClients(clients)));
  }

  /**
   * The no-wrap condition admits late shifts: a Sedan free from 08:00 with
   * a shift until 23:30 takes a 30-minute booking requested at 09:00.
   */
  lemma LateShiftNoWrap()
    ensures var v := Resource("V1", "Andrea", "Sedan", TimeCell(HourMinute(8, 0)), HourMinute(23, 30), HourMinute(8, 0));
            var q := Request(TimeCell(HourMinute(9, 0)), HourMinute(9, 0), "Sedan", Some(30));
            && NoWrap([v], [q])
            && Step([v], q).row.status == Assigned
  {
    var v := Resource("V1", "Andrea", "Sedan", TimeCell(HourMinute(8, 0)), HourMinute(23, 30), HourMinute(8, 0));
    var q := Request(TimeCell(HourMinute(9, 0)), HourMinute(9, 0), "Sedan", Some(30));
    assert Lateness(v, q) == 0;
    assert Best([v], q) == Some(0);
    assert Minutes(ShiftBy(q.requested, 30)) == 570;
    assert Decide([v], q) == Commit(0, 0, ShiftBy(q.requested, 0), ShiftBy(q.requested, 30));
    assert [q][..0] == [];
  }

  /**
   * Only the best candidate is tried: a Sedan booking at 10:00 for 30
   * minutes, whose least-late Sedan (free at 10:00) ends its shift at
   * 10:20, stays unassigned although the other Sedan (free at 10:10,
   * shift until 18:00) could serve it.
   */
  lemma OnlyBestIsTried()
    ensures var first := Resource("V1", "Andrea", "Sedan", TimeCell(HourMinute(9, 0)), HourMinute(10, 20), HourMinute(10, 0));
            var second := Resource("V2", "Carlo", "Sedan", TimeCell(HourMinute(9, 0)), HourMinute(18, 0), HourMinute(10, 10));
            var q := Request(TimeCell(HourMinute(10, 0)), HourMinute(10, 0), "Sedan", Some(30));
            && Step([first, second], q).row == Pending(q)
            && Step([second], q).row.status == Assigned
  {
    var first := Resource("V1", "Andrea", "Sedan", TimeCell(HourMinute(9, 0)), HourMinute(10, 20), HourMinute(10, 0));
    var second := Resource("V2", "Carlo", "Sedan", TimeCell(HourMinute(9, 0)), HourMinute(18, 0), HourMinute(10, 10));
    var q := Request(TimeCell(HourMinute(10, 0)), HourMinute(10, 0), "Sedan", Some(30));
    assert Lateness(first, q) == 0 && Lateness(second, q) == 10;
    assert Best([first, second], q) == Some(0);
    assert Minutes(ShiftBy(q.requested, 30)) == 630;
    assert Decide([first, second], q) == ExceedsShift(0);
    assert Best([second], q) == Some(0);
    assert Minutes(ShiftBy(q.requested, 40)) == 640;
    assert Decide([second], q).Commit?;
  }

  /**
   * Without the no-wrap condition the shift check compares times of day: a
   * vehicle free at 22:50 with a shift until 23:00 takes a 120-minute
   * booking requested at 22:30, because its end, 00:50, reads as earlier
   * than 23:00; its next availability then moves back to 00:50.
   */
  lemma MidnightWrapCommits()
    ensures var v := Resource("V1", "Andrea", "Sedan", TimeCell(HourMinute(8, 0)), HourMinute(23, 0), HourMinute(22, 50));
            var q := Request(TimeCell(HourMinute(22, 30)), HourMinute(22, 30), "Sedan", Some(120));
            var o := Step([v], q);
            && o.row.status == Assigned
            && o.row.actualPickup == Some(HourMinute(22, 50))
            && o.fleet[0].nextAvailable == HourMinute(0, 50)
            && Minutes(o.fleet[0].nextAvailable) < Minutes(v.nextAvailable)
            && !SameDayCommit([v], q)
  {
    var v := Resource("V1", "Andrea", "Sedan", TimeCell(HourMinute(8, 0)), HourMinute(23, 0), HourMinute(22, 50));
    var q := Request(TimeCell(HourMinute(22, 30)), HourMinute(22, 30), "Sedan", Some(120));
    assert Lateness(v, q) == 20;
    assert Best([v], q) == Some(0);
    assert ShiftBy(q.requested, 20) == HourMinute(22, 50);
    assert ShiftBy(q.requested, 140) == HourMinute(0, 50);
    assert Decide([v], q) == Commit(0, 20, HourMinute(22, 50), HourMinute(0, 50));
    assert Minutes(HourMinute(22, 50)) + 120 == 1490;
  }
}
