/**
 * The greedy earliest-available scheduler of `run_scheduling`, as
 * functions: the rows it reads, the decision it takes for one booking,
 * the assignment row and fleet state that decision leaves, and the whole
 * pass over the bookings in order of requested pickup time.
 */
module Scheduling {
  import opened Wrappers
  import opened TimeOfDay
  import opened Casing

  /** A row of the fleet sheet. */
  datatype VehicleRow = VehicleRow(
    id: string,               // ID Veicolo
    driver: string,           // Autista
    vehicleType: string,      // Tipo Veicolo
    availableFrom: Cell,      // Disponibile Da (hh:mm)
    availableUntil: Cell)     // Disponibile Fino (hh:mm)

  /** A row of the bookings sheet. */
  datatype ClientRow = ClientRow(
    arrival: Cell,            // Ora Arrivo
    requiredType: string,     // Tipo Veicolo Richiesto
    service: Option<int>)     // Tempo Servizio Totale (Minuti); None when absent or NaN

  /**
   * A fleet row as the scheduler keeps it: type capitalised, shift end
   * parsed, and the rolling `Prossima Disponibilità`. The shift start
   * column keeps its raw value.
   */
  datatype Resource = Resource(
    id: string,
    driver: string,
    vehicleType: string,
    availableFrom: Cell,
    availableUntil: Clock,
    nextAvailable: Clock)

  /** A booking as the scheduler reads it: `Ora Prelievo Richiesta` added, type capitalised. */
  datatype Request = Request(
    arrival: Cell,
    requested: Clock,
    requiredType: string,
    service: Option<int>)

  datatype Status = Assigned | NotAssigned   // ASSEGNATO, NON ASSEGNATO

  /** A row of the assignment table: the booking and the columns the scheduler fills in. */
  datatype Assignment = Assignment(
    request: Request,
    vehicleId: Option<string>,    // ID Veicolo Assegnato
    driver: Option<string>,       // Autista Assegnato
    status: Status,               // Stato Assegnazione
    actualPickup: Option<Clock>,  // Ora Effettiva Prelievo
    delay: int)                   // Ritardo Prelievo (min)

  /** The two tables a run leaves behind. */
  datatype Schedule = Schedule(table: seq<Assignment>, fleet: seq<Resource>)

  /** Shift start of a vehicle, in the time the scheduler first gives its availability. */
  function ShiftStart(r: Resource): Clock
  {
    ToTime(r.availableFrom)
  }

  // ---------------------------------------------------------------------
  // Preparation (the column conversions before the loop)
  // ---------------------------------------------------------------------

  function PrepareVehicle(v: VehicleRow): (r: Resource)
  {
    Resource(v.id, v.driver, Capitalize(v.vehicleType), v.availableFrom, ToTime(v.availableUntil), ToTime(v.availableFrom))
  }

  function PrepareFleet(rows: seq<VehicleRow>): (f: seq<Resource>)
    ensures |f| == |rows|
    ensures forall k :: 0 <= k < |rows| ==> f[k] == PrepareVehicle(rows[k])
    ensures forall k :: 0 <= k < |f| ==> f[k].nextAvailable == ShiftStart(f[k])
  {
    seq(|rows|, k requires 0 <= k < |rows| => PrepareVehicle(rows[k]))
  }

  function PrepareClient(c: ClientRow): Request
  {
    Request(c.arrival, ToTime(c.arrival), Capitalize(c.requiredType), c.service)
  }

  function PrepareClients(rows: seq<ClientRow>): (qs: seq<Request>)
    ensures |qs| == |rows|
    ensures forall i :: 0 <= i < |rows| ==> qs[i] == PrepareClient(rows[i])
    ensures forall i :: 0 <= i < |qs| ==> qs[i].requested == ToTime(qs[i].arrival)
  {
    seq(|rows|, i requires 0 <= i < |rows| => PrepareClient(rows[i]))
  }

  // ---------------------------------------------------------------------
  // Ordering the bookings by requested pickup time
  // ---------------------------------------------------------------------

  ghost predicate SortedByRequest(qs: seq<Request>)
  {
    forall i, j :: 0 <= i < j < |qs| ==> Minutes(qs[i].requested) <= Minutes(qs[j].requested)
  }

  /** Places `q` after every booking of `qs` requested no later than it. */
  function Insert(qs: seq<Request>, q: Request): (r: seq<Request>)
    requires SortedByRequest(qs)
    ensures SortedByRequest(r)
    ensures multiset(r) == multiset(qs) + multiset{q}
    ensures |r| == |qs| + 1
    ensures r[|r| - 1] == q || (qs != [] && r[|r| - 1] == qs[|qs| - 1])
    decreases |qs|
  {
    if qs == [] || Minutes(qs[|qs| - 1].requested) <= Minutes(q.requested) then qs + [q]
    else
      var front, last := qs[..|qs| - 1], qs[|qs| - 1];
      assert qs == front + [last];
      var r' := Insert(front, q);
      assert Minutes(r'[|r'| - 1].requested) <= Minutes(last.requested);
      r' + [last]
  }

  /**
   * `sort_values(by = 'Ora Prelievo Richiesta')`: the bookings ordered by
   * requested pickup time, a permutation of the input.
   */
  function SortByRequest(qs: seq<Request>): (r: seq<Request>)
    ensures SortedByRequest(r)
    ensures multiset(r) == multiset(qs)
    decreases |qs|
  {
    if qs == [] then []
    else
      assert qs == qs[..|qs| - 1] + [qs[|qs| - 1]];
      Insert(SortByRequest(qs[..|qs| - 1]), qs[|qs| - 1])
  }

  // ---------------------------------------------------------------------
  // One booking
  // ---------------------------------------------------------------------

  /** The eligibility filter: same capitalised type, shift ending at or after the requested time. */
  predicate IsCandidate(r: Resource, q: Request): (b: bool)
    ensures b <==> r.vehicleType == q.requiredType && !Later(q.requested, r.availableUntil)
  {
    LaterIsMinuteOrder(q.requested, r.availableUntil);
    r.vehicleType == q.requiredType && Minutes(r.availableUntil) >= Minutes(q.requested)
  }

  /** `Ritardo Min`: minutes from the requested time to the vehicle's next availability, clipped at 0. */
  function Lateness(r: Resource, q: Request): (late: nat)
    ensures late == 0 ==> Minutes(r.nextAvailable) <= Minutes(q.requested)
    ensures late > 0 ==> Minutes(q.requested) + late == Minutes(r.nextAvailable)
  {
    var late := Minutes(r.nextAvailable) - Minutes(q.requested);
    if late < 0 then 0 else late
  }

  /**
   * The vehicle `sort_values(by = 'Ritardo Min').iloc[0]` picks among the
   * candidates: one of least lateness, the first such in fleet order; None
   * when there is no candidate.
   */
  function Best(f: seq<Resource>, q: Request): (b: Option<nat>)
    ensures b.None? <==> forall j :: 0 <= j < |f| ==> !IsCandidate(f[j], q)
    ensures b.Some? ==> b.value < |f| && IsCandidate(f[b.value], q)
    ensures b.Some? ==> forall j :: 0 <= j < |f| && IsCandidate(f[j], q) ==> Lateness(f[b.value], q) <= Lateness(f[j], q)
    ensures b.Some? ==> forall j :: 0 <= j < b.value && IsCandidate(f[j], q) ==> Lateness(f[b.value], q) < Lateness(f[j], q)
    decreases |f|
  {
    if f == [] then None
    else
      var last := |f| - 1;
      var prev := Best(f[..last], q);
      assert forall j :: 0 <= j < last ==> f[..last][j] == f[j];
      if IsCandidate(f[last], q) && (prev.None? || Lateness(f[last], q) < Lateness(f[prev.value], q)) then Some(last)
      else prev
  }

  /** What the loop body does with one booking. */
  datatype Decision =
    | MissingService                                            // no service time: skipped
    | NoCandidate                                               // no eligible vehicle: skipped
    | ExceedsShift(k: nat)                                      // the best vehicle would end after its shift
    | Commit(k: nat, delay: nat, pickup: Clock, end: Clock)     // booking assigned to vehicle k

  function Max(a: int, b: int): int
  {
    if a < b then b else a
  }

  /**
   * The decision for booking `q` against fleet state `f`. Only the best
   * candidate is ever tried: when its service would end after its shift,
   * the booking is not assigned, whatever the other candidates could do.
   */
  function Decide(f: seq<Resource>, q: Request): (d: Decision)
    ensures d.MissingService? <==> q.service.None?
    ensures d.NoCandidate? <==> q.service.Some? && forall j :: 0 <= j < |f| ==> !IsCandidate(f[j], q)
    ensures d.ExceedsShift? ==> d.k < |f| && Best(f, q) == Some(d.k)
    ensures d.ExceedsShift? ==>
              (Max(Minutes(q.requested), Minutes(f[d.k].nextAvailable)) + q.service.value) % MinutesPerDay
                > Minutes(f[d.k].availableUntil)
    ensures d.Commit? ==> d.k < |f| && Best(f, q) == Some(d.k) && IsCandidate(f[d.k], q)
    ensures d.Commit? ==> forall j :: 0 <= j < |f| && IsCandidate(f[j], q) ==> d.delay <= Lateness(f[j], q)
    ensures d.Commit? ==>
              Minutes(d.pickup) == Max(Minutes(q.requested), Minutes(f[d.k].nextAvailable)) &&
              Minutes(d.pickup) == Minutes(q.requested) + d.delay
    ensures d.Commit? ==>
              Minutes(d.end) == (Minutes(d.pickup) + q.service.value) % MinutesPerDay &&
              Minutes(d.end) <= Minutes(f[d.k].availableUntil)
  {
    match q.service
    case None => MissingService
    case Some(service) =>
      match Best(f, q)
      case None => NoCandidate
      case Some(k) =>
        var delay := Lateness(f[k], q);
        assert Minutes(q.requested) + delay == Max(Minutes(q.requested), Minutes(f[k].nextAvailable));
        var pickup := ShiftBy(q.requested, delay);
        ShiftWithinDay(q.requested, delay);
        var end := ShiftBy(q.requested, delay + service);
        ShiftTwice(q.requested, delay, service);
        assert Minutes(end) == Minutes(ClockAt((Minutes(pickup) + service) % MinutesPerDay));
        LaterIsMinuteOrder(end, f[k].availableUntil);
        if Later(end, f[k].availableUntil) then ExceedsShift(k) else Commit(k, delay, pickup, end)
  }

  /** The row of a booking the loop skips or leaves unassigned. */
  function Pending(q: Request): Assignment
  {
    Assignment(q, None, None, NotAssigned, None, 0)
  }

  ghost predicate UniqueIds(f: seq<Resource>)
  {
    forall i, j :: 0 <= i < j < |f| ==> f[i].id != f[j].id
  }

  /**
   * `df_risorse.loc[df_risorse['ID Veicolo'] == id, 'Prossima Disponibilità'] = end`:
   * every vehicle carrying `id` becomes available at `end`; nothing else
   * changes.
   */
  function Retimed(f: seq<Resource>, id: string, end: Clock): (g: seq<Resource>)
    ensures |g| == |f|
    ensures forall k :: 0 <= k < |f| ==> g[k] == f[k].(nextAvailable := g[k].nextAvailable)
    ensures forall k :: 0 <= k < |f| && f[k].id == id ==> g[k].nextAvailable == end
    ensures forall k :: 0 <= k < |f| && f[k].id != id ==> g[k] == f[k]
  {
    seq(|f|, k requires 0 <= k < |f| => if f[k].id == id then f[k].(nextAvailable := end) else f[k])
  }

  /** The result of processing one booking: its row and the new fleet state. */
  datatype StepResult = StepResult(row: Assignment, fleet: seq<Resource>)

  /**
   * One iteration of the loop over the bookings. A booking that is not
   * assigned keeps its initial row and leaves the fleet as it was; an
   * assigned one records the chosen vehicle, its driver, the pickup time
   * and the delay, and (with unique vehicle ids) moves only that vehicle's
   * next availability, to the end of the service `calculate_end_time`
   * gives for the row.
   */
  function Step(f: seq<Resource>, q: Request): (o: StepResult)
    ensures o.row.request == q
    ensures o.row.status == Assigned <==> Decide(f, q).Commit?
    ensures o.row.status == NotAssigned ==> o.row == Pending(q) && o.fleet == f
    ensures o.row.status == Assigned ==>
              var d := Decide(f, q);
              o.row == Assignment(q, Some(f[d.k].id), Some(f[d.k].driver), Assigned, Some(d.pickup), d.delay) &&
              CalculateEndTime(o.row.actualPickup, q.service) == d.end
    ensures |o.fleet| == |f|
    ensures forall k :: 0 <= k < |f| ==> o.fleet[k] == f[k].(nextAvailable := o.fleet[k].nextAvailable)
    ensures o.row.status == Assigned && UniqueIds(f) ==>
              var d := Decide(f, q);
              o.fleet == f[d.k := f[d.k].(nextAvailable := d.end)]
  {
    match Decide(f, q)
    case Commit(k, delay, pickup, end) =>
      var row := Assignment(q, Some(f[k].id), Some(f[k].driver), Assigned, Some(pickup), delay);
      var g := Retimed(f, f[k].id, end);
      ShiftTwice(q.requested, delay, q.service.value);
      assert UniqueIds(f) ==> g == f[k := f[k].(nextAvailable := end)];
      StepResult(row, g)
    case _ => StepResult(Pending(q), f)
  }

  // ---------------------------------------------------------------------
  // The pass over all bookings
  // ---------------------------------------------------------------------

  /**
   * The loop `for index, cliente in assegnazioni_df.iterrows()` over the
   * bookings `qs`, from fleet state `f0`: one row per booking, in order,
   * and a fleet whose vehicles differ from `f0` at most in their next
   * availability.
   */
  function Assign(f0: seq<Resource>, qs: seq<Request>): (s: Schedule)
    ensures |s.table| == |qs|
    ensures forall i :: 0 <= i < |qs| ==> s.table[i].request == qs[i]
    ensures |s.fleet| == |f0|
    ensures forall k :: 0 <= k < |f0| ==> s.fleet[k] == f0[k].(nextAvailable := s.fleet[k].nextAvailable)
    decreases |qs|
  {
    if qs == [] then Schedule([], f0)
    else
      var before := Assign(f0, qs[..|qs| - 1]);
      var o := Step(before.fleet, qs[|qs| - 1]);
      Schedule(before.table + [o.row], o.fleet)
  }

  /** `run_scheduling(df_clienti, df_flotta)`: the assignment table and the final fleet. */
  function RunScheduling(clients: seq<ClientRow>, vehicles: seq<VehicleRow>): (s: Schedule)
    ensures |s.table| == |clients|
    ensures |s.fleet| == |vehicles|
    ensures forall k :: 0 <= k < |vehicles| ==>
              s.fleet[k] == PrepareVehicle(vehicles[k]).(nextAvailable := s.fleet[k].nextAvailable)
  {
    var qs := SortByRequest(PrepareClients(clients));
    assert |qs| == |clients| by {
      assert |multiset(qs)| == |multiset(PrepareClients(clients))|;
    }
    Assign(PrepareFleet(vehicles), qs)
  }
}
