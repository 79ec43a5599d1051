/**
 * `run_scheduling` as the program runs it: the assignment table and the
 * fleet table are arrays updated in place, booking by booking, and the
 * result is exactly the pass `Scheduling.RunScheduling` describes.
 */
module Scheduler {
  import opened Wrappers
  import opened TimeOfDay
  import opened Scheduling

  /**
   * `df_risorse.loc[df_risorse['ID Veicolo'] == id, 'Prossima Disponibilità'] = end`:
   * a masked update of every vehicle carrying `id`.
   */
  method Retime(fleet: array<Resource>, id: string, end: Clock)
    modifies fleet
    ensures fleet[..] == Retimed(old(fleet[..]), id, end)
  {
    forall k | 0 <= k < fleet.Length && fleet[k].id == id {
      fleet[k] := fleet[k].(nextAvailable := end);
    }
  }

  /**
   * One iteration of the loop: booking `q`, whose row is `table[i]`, is
   * assigned to the best eligible vehicle when that vehicle can finish it
   * within its shift; otherwise both tables stay as they are.
   */
  method Book(table: array<Assignment>, fleet: array<Resource>, i: nat, q: Request)
    requires i < table.Length && table[i] == Pending(q)
    modifies table, fleet
    ensures table[..] == old(table[..])[i := Step(old(fleet[..]), q).row]
    ensures fleet[..] == Step(old(fleet[..]), q).fleet
  {
    ghost var f := fleet[..];
    if q.service.None? {
      assert Decide(f, q) == MissingService;
      return;
    }
    var service := q.service.value;
    // the eligible vehicles, ordered by 'Ritardo Min', first one taken
    var best := Best(fleet[..], q);
    if best.None? {
      assert Decide(f, q) == NoCandidate;
      return;
    }
    var chosen := fleet[best.value];
    var delay := Lateness(chosen, q);
    var pickup := ShiftBy(q.requested, delay);
    var end := ShiftBy(q.requested, delay + service);
    if Later(end, chosen.availableUntil) {
      assert Decide(f, q) == ExceedsShift(best.value);
      return;
    }
    assert Decide(f, q) == Commit(best.value, delay, pickup, end);
    table[i] := Assignment(q, Some(chosen.id), Some(chosen.driver), Assigned, Some(pickup), delay);
    Retime(fleet, chosen.id, end);
  }

  /**
   * The loop over the bookings `qs`, already ordered, from fleet state
   * `f0`: the tables it leaves are those of the functional pass.
   */
  method Pass(f0: seq<Resource>, qs: seq<Request>) returns (table: array<Assignment>, fleet: array<Resource>)
    ensures fresh(table) && fresh(fleet)
    ensures table[..] == Assign(f0, qs).table
    ensures fleet[..] == Assign(f0, qs).fleet
  {
    fleet := new Resource[|f0|](k requires 0 <= k < |f0| => f0[k]);
    table := new Assignment[|qs|](i requires 0 <= i < |qs| => Pending(qs[i]));
    var i := 0;
    while i < |qs|
      invariant 0 <= i <= |qs| == table.Length
      invariant table[..i] == Assign(f0, qs[..i]).table
      invariant forall j :: i <= j < |qs| ==> table[j] == Pending(qs[j])
      invariant fleet[..] == Assign(f0, qs[..i]).fleet
    {
      ghost var before := Assign(f0, qs[..i]);
      Book(table, fleet, i, qs[i]);
      assert qs[..i + 1][..i] == qs[..i];
      assert Assign(f0, qs[..i + 1]).table == before.table + [Step(before.fleet, qs[i]).row];
      assert table[..i + 1] == table[..i] + [table[i]];
      i := i + 1;
    }
    assert qs[..i] == qs;
  }

  /**
   * `run_scheduling`: prepares both tables, orders the bookings by
   * requested pickup time and runs the loop.
   */
  method Run(clients: seq<ClientRow>, vehicles: seq<VehicleRow>) returns (table: array<Assignment>, fleet: array<Resource>)
    ensures fresh(table) && fresh(fleet)
    ensures table[..] == RunScheduling(clients, vehicles).table
    ensures fleet[..] == RunScheduling(clients, vehicles).fleet
  {
    var f0 := PrepareFleet(vehicles);
    var qs := SortByRequest(PrepareClients(clients));
    table, fleet := Pass(f0, qs);
  }
}
