# EmiTrekAI scheduler — a Dafny model

EmiTrekAI assigns airport-transfer bookings to a fleet of vehicles with
drivers. The scheduling core is `run_scheduling` in `app.py`, with its time
helpers. It makes one greedy pass over the bookings, in order of requested
pickup time (`Ora Prelievo Richiesta`). For each booking it takes these steps:

- It keeps the vehicles whose capitalised type (`Tipo Veicolo`) matches the
  booking's and whose shift end (`Disponibile Fino`) is not before the
  requested time.
- It picks the vehicle with the least delay, where the delay is the time
  from the request until the vehicle is next free (`Prossima Disponibilità`),
  floored at 0.
- It computes the actual pickup time and the end of service.
- If the service would end after that vehicle's shift, the booking stays
  `NON ASSEGNATO` and no other vehicle is tried.
- Otherwise it fills in the booking's row (`ASSEGNATO`, vehicle, driver,
  pickup, delay) and moves that vehicle's next availability to the end of
  service.

Bookings with no service time, or with no eligible vehicle, are skipped.
They stay `NON ASSEGNATO` with delay 0.

The project has these modules:

- `wrappers.dfy`: the `Option` type. An absent value or a NaN cell is `None`.
- `time_of_day.dfy`: `TimeOfDay`. Times are valid `(hour, minute)` pairs.
  The module holds `time_to_minutes` (`Minutes`), the clock arithmetic of
  `datetime.combine(...) + timedelta(...)` then `.time()` (`ShiftBy`, which
  wraps at midnight), `calculate_end_time`, and `to_time`. For `to_time`,
  the behaviour of `strptime` with `%H:%M` and `%H.%M` is written out: one
  or two digits per field, hour at most 23, minute at most 59, and the whole
  string must be consumed.
- `casing.dfy`: `Casing`, which is `str.capitalize` on ASCII letters.
- `scheduling.dfy`: `Scheduling`. It holds the rows and the per-booking
  decision (`Decide`, `Step`). It also holds the pass over all bookings
  (`Assign`) and the whole of `run_scheduling` as a function
  (`RunScheduling`).
- `scheduling_proofs.dfy`: `SchedulingProofs`, the properties of a whole
  pass.
- `scheduler.dfy`: `Scheduler`, the same pass written as the program runs
  it. The assignment table and the fleet are arrays updated in place. The
  commit is the masked update of every fleet row carrying the chosen id.
  Each method is proved to leave exactly the tables the functional pass
  gives.

Some modelling choices:

- **Tie-break.** pandas' `sort_values(...).iloc[0]` does not fix which vehicle
  wins a tie on delay. The model takes the first such vehicle in fleet order
  (`Best`). Its contract proves that the delay is minimal among the eligible
  vehicles.
- **Booking order.** Bookings with equal requested times are kept in input
  order by a stable insertion sort. This is a modelling choice. pandas'
  default quicksort does not guarantee any order among ties.
- **Commit.** The commit updates every fleet row whose id is the chosen one.
  With unique ids it changes only the chosen vehicle (`Step`).
- **Midnight wrap.** The end of service is a time of day and wraps past
  midnight, as in the code. The shift-containment, no-overlap and
  monotonicity properties are proved under `NoWrap`: every booking the pass
  commits has a non-negative service time, and its pickup plus that service
  stays before midnight. Nothing is asked of the bookings the pass does not
  commit, or of the shifts. `MidnightWrapCommits` shows a commit that breaks
  the condition and what it does to the vehicle's availability.

`app.py` has only the two statuses `ASSEGNATO` and `NON ASSEGNATO`. It uses
no travel times and does not pool bookings. It never tries a second-best
vehicle.

## Model

| member | source | states |
|---|---|---|
| `TimeOfDay.Minutes` | app.py:35-36 | minutes since midnight lie in [0, 1440); their quotient and remainder by 60 are the hour and the minute |
| `TimeOfDay.ClockAt` | app.py:35-36 | the clock `m` minutes after midnight has exactly `m` minutes |
| `TimeOfDay.ClockRoundTrip` | app.py:35-36 | `ClockAt` inverts `time_to_minutes` |
| `TimeOfDay.LaterIsMinuteOrder` | app.py:108 | comparing `time` values (lexicographic on hour, minute) is comparing their minute counts |
| `TimeOfDay.ShiftWithinDay` | app.py:102-106 | `ShiftBy`, moving a clock by `d` minutes, adds `d` to its minute count when that does not cross midnight |
| `TimeOfDay.ShiftTwice` | app.py:102-106 | `ShiftBy` twice is `ShiftBy` once by the sum: the end of service computed from the pickup `datetime` equals the end computed from the pickup `time` |
| `TimeOfDay.CalculateEndTime` | app.py:48-54 | with a pickup and a service time, the end is `(pickup + service) mod 1440` in minutes; with either missing, midnight |
| `TimeOfDay.FieldSpellings` | app.py:42-44 | a `%H`/`%M` field reads as `n` iff it is `n` zero-padded or unpadded |
| `TimeOfDay.Strptime` | app.py:42-45 | any time `strptime` reads from a string is one the string spells, with the given separator between the fields |
| `TimeOfDay.StrptimeSpellings` | app.py:42-45 | `strptime(s, '%H<sep>%M')` gives `t` iff `s` is one of the spellings of `t` with that separator |
| `TimeOfDay.ToTimeOfText` | app.py:38-46 | `to_time` of any spelling of `t` with ':' or '.' is `t`; a string that gives `t` is such a spelling, or spells no time at all and `t` is midnight |
| `TimeOfDay.ToTime` | app.py:38-46 | a `datetime` or `time` cell gives its own time of day; a string gives midnight or a time it spells with ':' or '.'; any other cell gives midnight |
| `Casing.Capitalize` | app.py:72 | the capitalised type has the same length and the same letters ignoring case, begins with no lower-case letter and has no upper-case letter after that |
| `Casing.CapitalizeIdempotent` | app.py:72-75 | capitalising twice is capitalising once |
| `Casing.CapitalizedMatch` | app.py:89 | a fleet type and a booking type match after capitalisation iff they are the same word up to letter case |
| `Scheduling.PrepareFleet` | app.py:70-72 | each vehicle becomes available from its parsed shift start, its shift end is parsed and its type capitalised; so every prepared vehicle starts at its shift start |
| `Scheduling.PrepareClients` | app.py:74-75 | each booking gets its parsed requested time and its capitalised required type; every requested time is `to_time` of the booking's arrival cell |
| `Scheduling.Insert` | app.py:77 | inserting a booking into a list ordered by requested time keeps it ordered and adds exactly that booking |
| `Scheduling.SortByRequest` | app.py:77 | the bookings come out ordered by requested time, as a permutation of the input |
| `Scheduling.IsCandidate` | app.py:88-91 | a vehicle is eligible iff its type equals the requested type and, as `time` values, the requested time is not after its shift end |
| `Scheduling.Lateness` | app.py:97 | a delay of 0 means the vehicle is free by the requested time; a positive delay is exactly the wait from the requested time to the vehicle's next availability |
| `Scheduling.Best` | app.py:88-98 | the chosen vehicle is eligible (same type, shift end not before the request), its delay is no larger than any eligible vehicle's, and no earlier vehicle in fleet order ties with it; there is none iff no vehicle is eligible |
| `Scheduling.Decide` | app.py:84-108 | skip iff no service time; "no candidate" iff no eligible vehicle; otherwise only the best vehicle is tried; on commit the delay is minimal, the pickup is max(requested, next availability) = requested + delay, the end is (pickup + service) mod 1440 and not after the shift end; the booking is rejected only when that end is after it |
| `Scheduling.Retimed` | app.py:118 | every vehicle with the chosen id gets the new next availability; every other field and every other vehicle stays the same |
| `Scheduling.Step` | app.py:79-118 | an unassigned booking keeps its initial row (no vehicle, no driver, no pickup, delay 0) and leaves the fleet unchanged; an assigned one records the chosen vehicle, driver, pickup and delay; its end per `calculate_end_time` is the decided end; with unique ids only that vehicle's next availability changes, to that end |
| `Scheduling.Assign` | app.py:79-118 | one row per booking, in booking order, and the vehicles differ from the initial fleet only in next availability |
| `Scheduling.RunScheduling` | app.py:57-118 | one row per booking of the input sheet, and one fleet row per vehicle of the input sheet, which keeps every prepared column except the next availability |
| `SchedulingProofs.AssignPrefix` | app.py:79-118 | processing a prefix of the bookings gives a prefix of the table: earlier rows are never revised |
| `SchedulingProofs.RowIsStep` | app.py:79-118 | row `i` is the decision for booking `i` against the fleet state the earlier bookings left |
| `SchedulingProofs.GreedyChoice` | app.py:97-100 | an assigned row's delay is at most the delay of every vehicle eligible at that step |
| `SchedulingProofs.AssignSound` | app.py:88-115 | a row is either untouched `NON ASSEGNATO` or `ASSEGNATO` to a vehicle of the fleet; with unique ids that vehicle has the required type, its shift end is not before the request, its driver is recorded, and pickup = requested + delay with delay ≥ 0 |
| `SchedulingProofs.StepKeepsTimeline` | app.py:97-118 | a booking whose commit, if any, ends on the day it starts keeps the invariant and moves no availability backwards. The invariant: no next availability is before the vehicle's initial availability; every job starts no earlier than that initial availability and ends by both the vehicle's next availability and its shift end; no two jobs of a vehicle overlap |
| `SchedulingProofs.AssignTimeline` | app.py:79-118 | the invariant holds after every pass in which no commit runs past midnight |
| `SchedulingProofs.JobsFitShifts` | app.py:102-118 | when no commit runs past midnight, every committed job starts at or after its shift start and ends by its shift end, and the jobs of one vehicle do not overlap |
| `SchedulingProofs.AvailabilityNeverDecreases` | app.py:118 | when no commit runs past midnight, a vehicle's next availability never decreases along the pass |
| `SchedulingProofs.RunSchedulingOrder` | app.py:57-79 | the table of `run_scheduling` holds every booking exactly once, ordered by requested time |
| `SchedulingProofs.RunSchedulingFitsShifts` | app.py:57-118 | for a fleet with unique ids, when no booking `run_scheduling` commits runs past midnight, its jobs fit their shifts and do not overlap |
| `SchedulingProofs.OnlyBestIsTried` | app.py:98-108 | a booking whose best vehicle would overrun its shift stays unassigned although another vehicle could serve it |
| `SchedulingProofs.LateShiftNoWrap` | app.py:97-108 | a vehicle whose shift ends at 23:30 is assigned a 09:00 booking of 30 minutes, and that pass meets the no-wrap condition |
| `SchedulingProofs.MidnightWrapCommits` | app.py:105-108 | a service running past midnight passes the shift check, breaks the no-wrap condition and moves the vehicle's availability backwards |
| `Scheduler.Retime` | app.py:118 | the in-place masked update leaves the fleet array equal to `Retimed` of its old contents |
| `Scheduler.Book` | app.py:81-118 | one loop iteration updates the booking's row and the fleet array exactly as `Step` does |
| `Scheduler.Pass` | app.py:79-118 | the loop over the ordered bookings leaves new table and fleet arrays equal to those of `Assign` |
| `Scheduler.Run` | app.py:57-118 | `run_scheduling` leaves new arrays holding the assignment table and the fleet table of `Scheduling.RunScheduling` |

## Left out

- Streamlit plumbing (app.py:5-21, 121-204) is not modelled. This covers page setup, session state, `experimental_rerun`, buttons, the dashboard and the driver colour table. The two tables are the result of the pass instead of being stored in the session.
- `read_excel_file` (app.py:24-33) is not modelled. Reading the sheets is file I/O. The model starts from rows already read, with each time cell given as a `datetime`, a `time`, a string or another value.
- The history pages are not part of this model. Their copies of `calculate_end_time` are the same as app.py:48-54.
- Seconds and microseconds of `time` and `datetime` values are not modelled. Times have minute resolution. String inputs never carry seconds.
- `TimeOfDay.Strptime` reads ASCII digits only. Python's `\d` also accepts other Unicode decimal digits.
- `Casing.Capitalize` maps ASCII letters only. Python's `str.capitalize` applies Unicode title-casing and lower-casing.
- Vehicle types that are NaN are not modelled, because types are strings. In pandas such a type matches nothing.
- Service times are modelled as integers or absent. `int()` of a fractional value truncates it toward zero. A non-numeric value makes `int()` raise, which aborts the whole run. A service time so large that `datetime` overflows also aborts the run. None of these cases is modelled.
- Columns of the bookings sheet that the scheduler does not read are not modelled. The code carries them through unchanged.
- `datetime.today()` is not modelled. The results keep only the time of day, and naive `datetime` arithmetic gives the same time of day whatever the date.
- Scheduling.Best: fixes the tie-break among vehicles with equal delay to the first in fleet order, where pandas leaves it unspecified.
- Scheduling.SortByRequest: keeps bookings with equal requested time in input order, where pandas' default sort leaves their order unspecified.
- SchedulingProofs.JobsFitShifts: proved under `NoWrap`, which asks only of the bookings the pass commits. A commit that runs past midnight can break shift containment and overlap (`MidnightWrapCommits`), so those runs are not covered.
- A blank `ID Veicolo` is not modelled, because ids are strings. In pandas the id is NaN, so the masked update at app.py:118 matches no row: that vehicle's availability never moves, and it can be given overlapping jobs.
- A blank cell in a time column that pandas reads as datetimes is not modelled. Such a cell is `NaT`, which `to_time` treats as a `datetime` (app.py:39); calling `.time()` on it raises, which aborts the whole run. The model's `OtherCell` is a number or a NaN cell, which gives midnight.
- SchedulingProofs.AssignSound: the facts about the serving vehicle are stated for unique vehicle ids. With duplicate ids, the commit updates every row with that id (modelled in `Retimed`).
