/**
 * The vacation ledger of data/db_operations.py: the `staff` and `vacations`
 * tables as two id-keyed maps, the four mutators as methods of `Ledger`, and
 * the read queries as functions of the two tables.
 *
 * Each mutator is one atomic step: a path that the source ends with
 * `rollback()` (or returns from before writing) leaves both tables as they
 * were. "Today" is a parameter of the queries that read the clock.
 */
module DbOperations {
  import opened Text
  import opened Dates
  import opened Tables

  /** A row of `staff`; `managerFio` is NULL-able. */
  datatype Staff = Staff(
    fio: string,
    ipn: string,
    role: string,
    managerFio: Option<string>,
    annualDays: int,
    remainingDays: int)

  /** A row of `vacations`; `staffId` refers to a `staff` row. */
  datatype Vacation = Vacation(staffId: int, start: CalendarDate, end: CalendarDate, totalDays: int)

  /** A `vacations` row together with its id. */
  datatype Booking = Booking(id: int, vacation: Vacation)

  // ---------------------------------------------------------------------
  // Table invariants
  // ---------------------------------------------------------------------

  /** `ipn TEXT UNIQUE`: no two staff rows share an ipn. */
  predicate IpnUnique(staff: map<int, Staff>) {
    forall a, b :: a in staff && b in staff && staff[a].ipn == staff[b].ipn ==> a == b
  }

  /**
   * The schema's constraints: AUTOINCREMENT ids are positive and below the
   * next id to hand out, every booking's `staff_id` names a staff row
   * (FOREIGN KEY), and ipn is UNIQUE.
   */
  predicate Keyed(staff: map<int, Staff>, vacations: map<int, Vacation>, nextStaffId: int, nextVacationId: int) {
    1 <= nextStaffId && 1 <= nextVacationId &&
    (forall id :: id in staff ==> 1 <= id < nextStaffId) &&
    (forall id :: id in vacations ==> 1 <= id < nextVacationId) &&
    (forall id :: id in vacations ==> vacations[id].staffId in staff) &&
    IpnUnique(staff)
  }

  predicate IpnTaken(staff: map<int, Staff>, ipn: string) {
    exists k :: k in staff && staff[k].ipn == ipn
  }

  /** What one booking contributes to the days booked by `staffId`. */
  function Share(v: Vacation, staffId: int): int {
    if v.staffId == staffId then v.totalDays else 0
  }

  lemma MapHasMember(m: map<int, Vacation>)
    requires m != map[]
    ensures exists k :: k in m
  {
    if forall k :: k !in m {
      assert false;
    }
  }

  /** The sum of `total_days` over the bookings of `staffId`. */
  ghost function Booked(vacations: map<int, Vacation>, staffId: int): int
    decreases |vacations|
  {
    if vacations == map[] then 0
    else
      MapHasMember(vacations);
      var k :| k in vacations;
      Share(vacations[k], staffId) + Booked(vacations - {k}, staffId)
  }

  /** The sum may be taken apart at any booking. */
  lemma {:induction false} BookedRemove(vacations: map<int, Vacation>, k: int, staffId: int)
    requires k in vacations
    ensures Booked(vacations, staffId) == Share(vacations[k], staffId) + Booked(vacations - {k}, staffId)
    decreases |vacations|
  {
    var j :| j in vacations && Booked(vacations, staffId) == Share(vacations[j], staffId) + Booked(vacations - {j}, staffId);
    if j != k {
      var rest := vacations - {j};
      BookedRemove(rest, k, staffId);
      BookedRemove(vacations - {k}, j, staffId);
      assert rest - {k} == (vacations - {k}) - {j};
    }
  }

  /** A new booking adds its share. */
  lemma BookedInsert(vacations: map<int, Vacation>, k: int, v: Vacation, staffId: int)
    requires k !in vacations
    ensures Booked(vacations[k := v], staffId) == Booked(vacations, staffId) + Share(v, staffId)
  {
    BookedRemove(vacations[k := v], k, staffId);
    assert vacations[k := v] - {k} == vacations;
  }

  /** Replacing a booking trades its old share for its new one. */
  lemma BookedReplace(vacations: map<int, Vacation>, k: int, v: Vacation, staffId: int)
    requires k in vacations
    ensures Booked(vacations[k := v], staffId) == Booked(vacations, staffId) - Share(vacations[k], staffId) + Share(v, staffId)
  {
    BookedRemove(vacations[k := v], k, staffId);
    BookedRemove(vacations, k, staffId);
    assert vacations[k := v] - {k} == vacations - {k};
  }

  /** Someone without bookings has booked nothing. */
  lemma {:induction false} BookedNothing(vacations: map<int, Vacation>, staffId: int)
    requires forall k :: k in vacations ==> vacations[k].staffId != staffId
    ensures Booked(vacations, staffId) == 0
    decreases |vacations|
  {
    if vacations != map[] {
      MapHasMember(vacations);
      var k :| k in vacations;
      BookedRemove(vacations, k, staffId);
      BookedNothing(vacations - {k}, staffId);
    }
  }

  /** The bookings left after deleting those of `staffId` (`DELETE FROM vacations WHERE staff_id = ?`). */
  function Without(vacations: map<int, Vacation>, staffId: int): (r: map<int, Vacation>)
    ensures forall k :: k in r <==> k in vacations && vacations[k].staffId != staffId
    ensures forall k :: k in r ==> r[k] == vacations[k]
  {
    map k | k in vacations && vacations[k].staffId != staffId :: vacations[k]
  }

  lemma WithoutDropsOwned(vacations: map<int, Vacation>, staffId: int, k: int)
    requires k in vacations && vacations[k].staffId == staffId
    ensures Without(vacations, staffId) == Without(vacations - {k}, staffId)
  {
  }

  lemma WithoutKeepsOther(vacations: map<int, Vacation>, staffId: int, k: int)
    requires k in vacations && vacations[k].staffId != staffId
    ensures k !in Without(vacations - {k}, staffId)
    ensures Without(vacations, staffId) == Without(vacations - {k}, staffId)[k := vacations[k]]
  {
  }

  /** Deleting one employee's bookings leaves everybody else's sum as it was. */
  lemma {:induction false} BookedWithout(vacations: map<int, Vacation>, staffId: int, other: int)
    requires other != staffId
    ensures Booked(Without(vacations, staffId), other) == Booked(vacations, other)
    decreases |vacations|
  {
    if vacations == map[] {
      assert Without(vacations, staffId) == map[];
    } else {
      MapHasMember(vacations);
      var k :| k in vacations;
      var rest := vacations - {k};
      BookedRemove(vacations, k, other);
      BookedWithout(rest, staffId, other);
      if vacations[k].staffId == staffId {
        WithoutDropsOwned(vacations, staffId, k);
      } else {
        WithoutKeepsOther(vacations, staffId, k);
        BookedInsert(Without(rest, staffId), k, vacations[k], other);
      }
    }
  }

  /**
   * How far an employee's stored balance is from the bookings:
   * `annual - remaining - Σ total_days`. Every mutator keeps it for every
   * employee it does not create or delete.
   */
  ghost function Drift(staff: map<int, Staff>, vacations: map<int, Vacation>, id: int): int
    requires id in staff
  {
    staff[id].annualDays - staff[id].remainingDays - Booked(vacations, id)
  }

  /** The balance invariant: `annual - remaining == Σ total_days` of the employee's bookings. */
  ghost predicate Balanced(staff: map<int, Staff>, vacations: map<int, Vacation>) {
    forall id :: id in staff ==> Drift(staff, vacations, id) == 0
  }

  /** Every booking's `total_days` is the inclusive length of its period. */
  predicate SpansExact(vacations: map<int, Vacation>) {
    forall id :: id in vacations ==> vacations[id].totalDays == DaysSpanned(vacations[id].start, vacations[id].end)
  }

  // ---------------------------------------------------------------------
  // update_employee_data_and_vacation: arguments and outcomes
  // ---------------------------------------------------------------------

  /** The `updates` dict; the three optional entries are read with `.get`. */
  datatype Updates = Updates(
    fio: string,
    ipn: string,
    role: string,
    managerFio: Option<string>,
    annualDays: int,
    vacationStart: Option<string>,
    vacationEnd: Option<string>,
    targetVacationId: Option<int>)

  datatype UpdateOutcome =
    | Updated
    | EmployeeNotFound   // "Сотрудник не найден."
    | InvalidPeriod      // "Некорректный период отпуска."
    | DateError          // ValueError from calculate_days, caught as Exception
    | DuplicateIpn       // IntegrityError on the UNIQUE ipn

  /** Python truthiness of an optional string: None and "" are false. */
  predicate Truthy(t: Option<string>) {
    t.Some? && t.value != ""
  }

  /** Python truthiness of an optional id: None and 0 are false. */
  predicate TruthyId(t: Option<int>) {
    t.Some? && t.value != 0
  }

  /**
   * The edit re-dates a booking: the target id and both dates are truthy and
   * the target is a booking of this employee. Otherwise the dates are ignored.
   */
  predicate Retargets(vacations: map<int, Vacation>, employeeId: int, u: Updates) {
    TruthyId(u.targetVacationId) && Truthy(u.vacationStart) && Truthy(u.vacationEnd) &&
    u.targetVacationId.value in vacations && vacations[u.targetVacationId.value].staffId == employeeId
  }

  /** The new dates of a re-dating edit, as `calculate_days` sees them. */
  function NewSpan(u: Updates): (r: Option<int>)
    requires Truthy(u.vacationStart) && Truthy(u.vacationEnd)
    ensures r.Some? ==> ParseDate(u.vacationStart.value).Some? && ParseDate(u.vacationEnd.value).Some?
    ensures r.Some? ==> (r.value >= 1 <==> !Precedes(ParseDate(u.vacationEnd.value).value, ParseDate(u.vacationStart.value).value))
  {
    CalculateDays(u.vacationStart.value, u.vacationEnd.value)
  }

  predicate IpnTakenByOther(staff: map<int, Staff>, employeeId: int, ipn: string) {
    exists k :: k in staff && k != employeeId && staff[k].ipn == ipn
  }

  /** Overwriting one employee's row with an ipn nobody else holds, and re-dating bookings in place, keeps the key constraints. */
  lemma KeyedAfterEdit(staff: map<int, Staff>, vacations: map<int, Vacation>, nextStaffId: int, nextVacationId: int,
                       employeeId: int, row: Staff, newVacations: map<int, Vacation>)
    requires Keyed(staff, vacations, nextStaffId, nextVacationId)
    requires employeeId in staff && !IpnTakenByOther(staff, employeeId, row.ipn)
    requires newVacations.Keys == vacations.Keys
    requires forall k :: k in newVacations ==> newVacations[k].staffId in staff
    ensures Keyed(staff[employeeId := row], newVacations, nextStaffId, nextVacationId)
  {
    var edited := staff[employeeId := row];
    forall a, b | a in edited && b in edited && edited[a].ipn == edited[b].ipn
      ensures a == b
    {
      if a != employeeId && b != employeeId {
        assert staff[a].ipn == staff[b].ipn;
      }
    }
  }

  /**
   * Overwriting one employee's row keeps every drift when the remaining days
   * move by the change in annual days less the change in that employee's
   * booked days, and nobody else's booked days move.
   */
  lemma DriftAfterEdit(staff: map<int, Staff>, vacations: map<int, Vacation>, newVacations: map<int, Vacation>,
                       employeeId: int, row: Staff)
    requires employeeId in staff
    requires forall k :: k in staff && k != employeeId ==> Booked(newVacations, k) == Booked(vacations, k)
    requires row.remainingDays == staff[employeeId].remainingDays + (row.annualDays - staff[employeeId].annualDays) -
      (Booked(newVacations, employeeId) - Booked(vacations, employeeId))
    ensures forall k :: k in staff ==> Drift(staff[employeeId := row], newVacations, k) == Drift(staff, vacations, k)
  {
  }

  /** Re-dating one booking with its exact span keeps every span exact. */
  lemma SpansExactAfterRedate(vacations: map<int, Vacation>, k: int, v: Vacation)
    requires v.totalDays == DaysSpanned(v.start, v.end)
    ensures SpansExact(vacations) ==> SpansExact(vacations[k := v])
  {
  }

  /** `UPDATE staff SET remaining_vacation_days = remaining_vacation_days - ? WHERE id = ?`: one balance lowered, every other field and row kept. */
  function Debited(staff: map<int, Staff>, id: int, days: int): map<int, Staff>
    requires id in staff
  {
    staff[id := staff[id].(remainingDays := staff[id].remainingDays - days)]
  }

  /** `UPDATE staff SET manager_fio = NULL WHERE manager_fio = ?` applied to one row. */
  function Released(s: Staff, fio: string): (r: Staff)
    ensures r.managerFio != Some(fio)
    ensures r == s || (s.managerFio == Some(fio) && r == s.(managerFio := None))
  {
    if s.managerFio == Some(fio) then s.(managerFio := None) else s
  }

  // ---------------------------------------------------------------------
  // The ledger
  // ---------------------------------------------------------------------

  class Ledger {
    var staff: map<int, Staff>
    var vacations: map<int, Vacation>
    /** The next AUTOINCREMENT id of each table. */
    var nextStaffId: int
    var nextVacationId: int

    ghost predicate Valid()
      reads this
    {
      Keyed(staff, vacations, nextStaffId, nextVacationId)
    }

    /** The empty tables that `_ensure_tables_exist` creates. */
    constructor ()
      ensures Valid()
      ensures staff == map[] && vacations == map[]
      ensures Balanced(staff, vacations) && SpansExact(vacations)
    {
      staff := map[];
      vacations := map[];
      nextStaffId := 1;
      nextVacationId := 1;
    }

    /**
     * `add_employee`: a missing remaining balance defaults to the annual
     * days; an ipn that is already taken is refused (None) and nothing is
     * inserted.
     */
    method AddEmployee(fio: string, ipn: string, managerFio: Option<string>, role: string,
                       annualDays: int, remainingDays: Option<int>) returns (id: Option<int>)
      requires Valid()
      modifies this
      ensures Valid()
      ensures id.None? <==> IpnTaken(old(staff), ipn)
      ensures id.None? ==> staff == old(staff) && nextStaffId == old(nextStaffId)
      ensures id.Some? ==> id.value == old(nextStaffId) && id.value !in old(staff) && id.value >= 1
      ensures id.Some? ==> (nextStaffId == old(nextStaffId) + 1 &&
        staff == old(staff)[id.value := Staff(fio, ipn, role, managerFio, annualDays,
                                              if remainingDays.None? then annualDays else remainingDays.value)])
      ensures vacations == old(vacations) && nextVacationId == old(nextVacationId)
      ensures forall k :: k in old(staff) ==> Drift(staff, vacations, k) == Drift(old(staff), old(vacations), k)
      ensures id.Some? ==> Drift(staff, vacations, id.value) == staff[id.value].annualDays - staff[id.value].remainingDays
      ensures (Balanced(old(staff), old(vacations)) && (remainingDays.None? || remainingDays == Some(annualDays))) ==>
        Balanced(staff, vacations)
    {
      var remaining := annualDays;
      if remainingDays.Some? {
        remaining := remainingDays.value;
      }
      if IpnTaken(staff, ipn) {
        return None;
      }
      var newId := nextStaffId;
      staff := staff[newId := Staff(fio, ipn, role, managerFio, annualDays, remaining)];
      nextStaffId := nextStaffId + 1;
      BookedNothing(vacations, newId);
      id := Some(newId);
    }

    /**
     * `add_vacation`: check, then debit. Refused (False, nothing changes)
     * when the employee is missing or has fewer remaining days than
     * `totalDays`; otherwise one booking with exactly the given `totalDays` is
     * inserted and that employee's remaining days drop by it.
     */
    method AddVacation(employeeId: int, start: CalendarDate, end: CalendarDate, totalDays: int) returns (ok: bool)
      requires Valid()
      modifies this
      ensures Valid()
      ensures ok <==> employeeId in old(staff) && old(staff)[employeeId].remainingDays >= totalDays
      ensures !ok ==> staff == old(staff) && vacations == old(vacations) && nextVacationId == old(nextVacationId)
      ensures ok ==> (old(nextVacationId) !in old(vacations) && nextVacationId == old(nextVacationId) + 1 &&
        vacations == old(vacations)[old(nextVacationId) := Vacation(employeeId, start, end, totalDays)])
      ensures ok ==> staff == Debited(old(staff), employeeId, totalDays)
      ensures nextStaffId == old(nextStaffId)
      ensures forall k :: k in old(staff) ==> k in staff && Drift(staff, vacations, k) == Drift(old(staff), old(vacations), k)
      ensures Balanced(old(staff), old(vacations)) ==> Balanced(staff, vacations)
      ensures SpansExact(old(vacations)) && totalDays == DaysSpanned(start, end) ==> SpansExact(vacations)
    {
      if employeeId !in staff || staff[employeeId].remainingDays < totalDays {
        return false;
      }
      var employee := staff[employeeId];
      ghost var before := vacations;
      var vacationId := nextVacationId;
      var booking := Vacation(employeeId, start, end, totalDays);
      vacations := vacations[vacationId := booking];
      nextVacationId := nextVacationId + 1;
      var newRemaining := employee.remainingDays - totalDays;
      staff := staff[employeeId := employee.(remainingDays := newRemaining)];
      forall k | k in staff
        ensures Booked(vacations, k) == Booked(before, k) + Share(booking, k)
      {
        BookedInsert(before, vacationId, booking, k);
      }
      ok := true;
    }

    /**
     * The reads and checks of `update_employee_data_and_vacation`, before
     * anything is written. When the edit names one of the employee's
     * bookings and both dates, that booking is re-dated with its
     * `total_days` recomputed; the balance is rebuilt as
     * `annual_new - booked`, where `booked` starts as
     * `annual_old - remaining_old` and follows the change to the booking.
     */
    method PlanEdit(employeeId: int, u: Updates) returns (outcome: UpdateOutcome, row: Staff, newVacations: map<int, Vacation>)
      requires Valid()
      ensures outcome == EmployeeNotFound <==> employeeId !in staff
      ensures outcome == DateError <==>
        employeeId in staff && Retargets(vacations, employeeId, u) && NewSpan(u).None?
      ensures outcome == InvalidPeriod <==>
        employeeId in staff && Retargets(vacations, employeeId, u) && NewSpan(u).Some? && NewSpan(u).value <= 0
      ensures outcome == DuplicateIpn <==>
        employeeId in staff && !(Retargets(vacations, employeeId, u) && (NewSpan(u).None? || NewSpan(u).value <= 0)) &&
        IpnTakenByOther(staff, employeeId, u.ipn)
      ensures outcome == Updated && Retargets(vacations, employeeId, u) ==>
        var start, end := ParseDate(u.vacationStart.value).value, ParseDate(u.vacationEnd.value).value;
        !Precedes(end, start) &&
        newVacations == vacations[u.targetVacationId.value := Vacation(employeeId, start, end, DaysSpanned(start, end))]
      ensures outcome == Updated && !Retargets(vacations, employeeId, u) ==> newVacations == vacations
      ensures outcome == Updated ==>
        employeeId in staff &&
        row == staff[employeeId].(fio := u.fio, ipn := u.ipn, role := u.role, managerFio := u.managerFio,
                                  annualDays := u.annualDays, remainingDays := row.remainingDays) &&
        row.remainingDays == staff[employeeId].remainingDays + (u.annualDays - staff[employeeId].annualDays) -
          (Booked(newVacations, employeeId) - Booked(vacations, employeeId)) &&
        (forall k :: k in staff && k != employeeId ==> Booked(newVacations, k) == Booked(vacations, k))
      ensures outcome == Updated ==>
        Keyed(staff[employeeId := row], newVacations, nextStaffId, nextVacationId) &&
        (forall k :: k in staff ==> Drift(staff[employeeId := row], newVacations, k) == Drift(staff, vacations, k)) &&
        (SpansExact(vacations) ==> SpansExact(newVacations))
    {
      row, newVacations := Staff(u.fio, u.ipn, u.role, u.managerFio, u.annualDays, 0), vacations;
      if employeeId !in staff {
        return EmployeeNotFound, row, newVacations;
      }
      var current := staff[employeeId];
      var booked := current.annualDays - current.remainingDays;
      if TruthyId(u.targetVacationId) && Truthy(u.vacationStart) && Truthy(u.vacationEnd) {
        var target := u.targetVacationId.value;
        if target in vacations && vacations[target].staffId == employeeId {
          var oldTotal := vacations[target].totalDays;
          var newTotal := CalculateDays(u.vacationStart.value, u.vacationEnd.value);
          if newTotal.None? {
            return DateError, row, newVacations;
          }
          if newTotal.value <= 0 {
            return InvalidPeriod, row, newVacations;
          }
          var start, end := ParseDate(u.vacationStart.value).value, ParseDate(u.vacationEnd.value).value;
          var redated := Vacation(employeeId, start, end, newTotal.value);
          newVacations := newVacations[target := redated];
          booked := booked - oldTotal + newTotal.value;
          forall k | k in staff
            ensures Booked(newVacations, k) == Booked(vacations, k) + (if k == employeeId then newTotal.value - oldTotal else 0)
          {
            BookedReplace(vacations, target, redated, k);
          }
          SpansExactAfterRedate(vacations, target, redated);
        }
      }
      if IpnTakenByOther(staff, employeeId, u.ipn) {
        return DuplicateIpn, row, newVacations;
      }
      row := current.(fio := u.fio, ipn := u.ipn, role := u.role,
                      managerFio := u.managerFio, annualDays := u.annualDays, remainingDays := u.annualDays - booked);
      KeyedAfterEdit(staff, vacations, nextStaffId, nextVacationId, employeeId, row, newVacations);
      DriftAfterEdit(staff, vacations, newVacations, employeeId, row);
      outcome := Updated;
    }

    /**
     * `update_employee_data_and_vacation`: overwrite the employee's details
     * and re-date the named booking as `PlanEdit` decides, in one
     * transaction. Every failure rolls back both tables.
     */
    method UpdateEmployeeDataAndVacation(employeeId: int, u: Updates) returns (outcome: UpdateOutcome)
      requires Valid()
      modifies this
      ensures Valid()
      ensures nextStaffId == old(nextStaffId) && nextVacationId == old(nextVacationId)
      ensures outcome == EmployeeNotFound <==> employeeId !in old(staff)
      ensures outcome == DateError <==>
        employeeId in old(staff) && Retargets(old(vacations), employeeId, u) && NewSpan(u).None?
      ensures outcome == InvalidPeriod <==>
        employeeId in old(staff) && Retargets(old(vacations), employeeId, u) && NewSpan(u).Some? && NewSpan(u).value <= 0
      ensures outcome == DuplicateIpn <==>
        employeeId in old(staff) && !(Retargets(old(vacations), employeeId, u) && (NewSpan(u).None? || NewSpan(u).value <= 0)) &&
        IpnTakenByOther(old(staff), employeeId, u.ipn)
      ensures outcome != Updated ==> staff == old(staff) && vacations == old(vacations)
      ensures outcome == Updated && Retargets(old(vacations), employeeId, u) ==>
        var start, end := ParseDate(u.vacationStart.value).value, ParseDate(u.vacationEnd.value).value;
        !Precedes(end, start) &&
        vacations == old(vacations)[u.targetVacationId.value := Vacation(employeeId, start, end, DaysSpanned(start, end))]
      ensures outcome == Updated && !Retargets(old(vacations), employeeId, u) ==> vacations == old(vacations)
      ensures outcome == Updated ==>
        staff.Keys == old(staff).Keys &&
        (forall k :: k in staff && k != employeeId ==> staff[k] == old(staff)[k]) &&
        staff[employeeId].fio == u.fio && staff[employeeId].ipn == u.ipn && staff[employeeId].role == u.role &&
        staff[employeeId].managerFio == u.managerFio && staff[employeeId].annualDays == u.annualDays
      ensures forall k :: k in old(staff) ==> k in staff && Drift(staff, vacations, k) == Drift(old(staff), old(vacations), k)
      ensures Balanced(old(staff), old(vacations)) ==> Balanced(staff, vacations)
      ensures SpansExact(old(vacations)) ==> SpansExact(vacations)
    {
      var row, newVacations;
      outcome, row, newVacations := PlanEdit(employeeId, u);
      if outcome != Updated {
        return;
      }
      vacations := newVacations;
      staff := staff[employeeId := row];
    }

    /**
     * `delete_employee`: an unknown id is refused with no change. Otherwise
     * every staff row whose manager_fio is the deleted employee's fio gets
     * NULL, all of the employee's bookings go, then the row itself; nothing
     * else changes.
     */
    method DeleteEmployee(employeeId: int) returns (ok: bool)
      requires Valid()
      modifies this
      ensures Valid()
      ensures ok <==> employeeId in old(staff)
      ensures !ok ==> staff == old(staff) && vacations == old(vacations)
      ensures ok ==> staff.Keys == old(staff).Keys - {employeeId}
      ensures ok ==> forall k :: k in staff ==> staff[k] == Released(old(staff)[k], old(staff)[employeeId].fio)
      ensures ok ==> vacations == Without(old(vacations), employeeId)
      ensures nextStaffId == old(nextStaffId) && nextVacationId == old(nextVacationId)
      ensures forall k :: k in staff ==> k in old(staff) && Drift(staff, vacations, k) == Drift(old(staff), old(vacations), k)
      ensures Balanced(old(staff), old(vacations)) ==> Balanced(staff, vacations)
      ensures SpansExact(old(vacations)) ==> SpansExact(vacations)
    {
      if employeeId !in staff {
        return false;
      }
      var deletedFio := staff[employeeId].fio;
      ghost var before := vacations;
      staff := map k | k in staff :: Released(staff[k], deletedFio);
      vacations := Without(vacations, employeeId);
      staff := staff - {employeeId};
      forall k | k in staff
        ensures Booked(vacations, k) == Booked(before, k)
      {
        BookedWithout(before, employeeId, k);
      }
      forall a, b | a in staff && b in staff && staff[a].ipn == staff[b].ipn
        ensures a == b
      {
        assert old(staff)[a].ipn == staff[a].ipn && old(staff)[b].ipn == staff[b].ipn;
      }
      ok := true;
    }
  }

  // ---------------------------------------------------------------------
  // Read queries
  // ---------------------------------------------------------------------

  /** `get_employee_by_id`: the row with that id, if there is one. */
  function EmployeeById(staff: map<int, Staff>, id: int): (r: Option<Staff>)
    ensures r.Some? <==> id in staff
    ensures r.Some? ==> r.value == staff[id]
  {
    if id in staff then Some(staff[id]) else None
  }

  /** `get_employee_by_ipn`: the id of a row whose ipn is exactly `ipn` (the first in rowid order). */
  function EmployeeByIpn(staff: map<int, Staff>, ipn: string): (r: Option<int>)
    ensures r.None? <==> !IpnTaken(staff, ipn)
    ensures r.Some? ==> r.value in staff && staff[r.value].ipn == ipn
  {
    var ids := set k | k in staff && staff[k].ipn == ipn;
    assert forall k :: k in staff ==> (staff[k].ipn == ipn ==> k in ids);
    if ids == {} then None else Some(LeastId(ids))
  }

  /** With ipn UNIQUE, looking up an employee's ipn finds that employee. */
  lemma EmployeeByIpnFindsOwner(staff: map<int, Staff>, id: int)
    requires IpnUnique(staff) && id in staff
    ensures EmployeeByIpn(staff, staff[id].ipn) == Some(id)
  {
    assert IpnTaken(staff, staff[id].ipn);
  }

  /** The bookings `ids`, in rowid order. */
  function Bookings(vacations: map<int, Vacation>, ids: set<int>): (r: seq<Booking>)
    requires ids <= vacations.Keys
    ensures |r| == |ids|
    ensures forall b :: b in r <==> b.id in ids && b.vacation == vacations[b.id]
  {
    ScanRows(ids, k requires k in vacations => Booking(k, vacations[k]))
  }

  /** `ORDER BY key LIMIT 1` over the bookings `ids`. */
  function LeastBooking(vacations: map<int, Vacation>, ids: set<int>, key: Booking -> int): (r: Option<Booking>)
    requires ids <= vacations.Keys
    ensures r.None? <==> ids == {}
    ensures r.Some? ==> r.value.id in ids && r.value.vacation == vacations[r.value.id]
    ensures r.Some? ==> forall k :: k in ids ==> key(r.value) <= key(Booking(k, vacations[k]))
  {
    var rows := Bookings(vacations, ids);
    var r := FirstLeast(rows, key);
    assert r.Some? ==> forall k :: k in ids ==> key(r.value) <= key(Booking(k, vacations[k])) by {
      if r.Some? {
        forall k | k in ids
          ensures key(r.value) <= key(Booking(k, vacations[k]))
        {
          var b := Booking(k, vacations[k]);
          assert b in rows;
          var i :| 0 <= i < |rows| && rows[i] == b;
        }
      }
    }
    r
  }

  /** The manager drop-down: the ids of the rows with role 'Manager'. */
  function ManagerIds(staff: map<int, Staff>): set<int> {
    set k | k in staff && staff[k].role == "Manager"
  }

  /** `get_managers`: the fio of every Manager, one per row, in `ORDER BY fio` order. */
  function Managers(staff: map<int, Staff>): (r: seq<string>)
    ensures |r| == |ManagerIds(staff)|
    ensures forall f :: f in r <==> exists k :: k in ManagerIds(staff) && staff[k].fio == f
    ensures SortedBy(r, LexLe)
    ensures forall f :: multiset(r)[f] == |set k | k in ManagerIds(staff) && staff[k].fio == f|
  {
    LexLeTotalOrder();
    var ids, fioOf := ManagerIds(staff), k requires k in staff => staff[k].fio;
    var r := OrderedScan(ids, fioOf, LexLe);
    assert forall f :: multiset(r)[f] == |set k | k in ids && staff[k].fio == f| by {
      forall f ensures multiset(r)[f] == |set k | k in ids && staff[k].fio == f| {
        MatchesAre(ids, fioOf, f, set k | k in ids && staff[k].fio == f);
      }
    }
    r
  }

  /** A row of `get_vacation_history`. */
  datatype HistoryRow = HistoryRow(fio: string, managerFio: Option<string>, start: CalendarDate, end: CalendarDate, totalDays: int)

  function HistoryRowOf(staff: map<int, Staff>, v: Vacation): HistoryRow
    requires v.staffId in staff
  {
    HistoryRow(staff[v.staffId].fio, staff[v.staffId].managerFio, v.start, v.end, v.totalDays)
  }

  /** `strftime('%Y', d) = str(year)`: SQLite's four-digit year against Python's `str`. */
  predicate YearIs(d: CalendarDate, year: int) {
    Padded(d.year, 4) == IntText(year)
  }

  /**
   * The year test holds exactly for the date's own year, and only from 1000
   * on: below that `str(year)` has fewer than four digits.
   */
  lemma YearIsMeaning(d: CalendarDate, year: int)
    ensures YearIs(d, year) <==> d.year == year && year >= 1000
  {
    assert Pow10(3) == 1000 && Pow10(4) == 10000;
    if year < 0 {
      assert IntText(year)[0] == '-';
      assert !YearIs(d, year);
    } else if YearIs(d, year) {
      NatTextValue(year);
      PaddedValue(d.year, 4);
      if year < 1000 {
        NatTextShort(year, 3);
      }
    } else if d.year == year && year >= 1000 {
      NatTextIsPadded(year, 4);
    }
  }

  /** The bookings `get_vacation_history(year)` returns: joined to a staff row, starting or ending in `year`. */
  function HistoryIds(staff: map<int, Staff>, vacations: map<int, Vacation>, year: int): set<int> {
    set k | k in vacations && vacations[k].staffId in staff && (YearIs(vacations[k].start, year) || YearIs(vacations[k].end, year))
  }

  /** `ORDER BY v.start_date DESC`. */
  predicate StartDescending(a: HistoryRow, b: HistoryRow) {
    Ordinal(b.start) <= Ordinal(a.start)
  }

  /** `get_vacation_history(year)`: one row per booking in `HistoryIds`, latest start first. */
  function VacationHistory(staff: map<int, Staff>, vacations: map<int, Vacation>, year: int): (r: seq<HistoryRow>)
    ensures |r| == |HistoryIds(staff, vacations, year)|
    ensures forall x :: x in r <==> exists k :: k in HistoryIds(staff, vacations, year) && x == HistoryRowOf(staff, vacations[k])
    ensures SortedBy(r, StartDescending)
    ensures forall x :: multiset(r)[x] == |set k | k in HistoryIds(staff, vacations, year) && HistoryRowOf(staff, vacations[k]) == x|
  {
    var ids := HistoryIds(staff, vacations, year);
    var rowOf := k requires k in vacations && vacations[k].staffId in staff => HistoryRowOf(staff, vacations[k]);
    var r := OrderedScan(ids, rowOf, StartDescending);
    assert forall x :: multiset(r)[x] == |set k | k in ids && HistoryRowOf(staff, vacations[k]) == x| by {
      forall x ensures multiset(r)[x] == |set k | k in ids && HistoryRowOf(staff, vacations[k]) == x| {
        MatchesAre(ids, rowOf, x, set k | k in ids && HistoryRowOf(staff, vacations[k]) == x);
      }
    }
    r
  }

  /** A booking of a listed employee is in the history of `year` exactly when it starts or ends in `year`, for years from 1000 on. */
  lemma HistoryByYear(staff: map<int, Staff>, vacations: map<int, Vacation>, year: int, k: int)
    requires k in vacations && vacations[k].staffId in staff
    ensures k in HistoryIds(staff, vacations, year) <==>
      year >= 1000 && (vacations[k].start.year == year || vacations[k].end.year == year)
  {
    YearIsMeaning(vacations[k].start, year);
    YearIsMeaning(vacations[k].end, year);
  }

  /** A row of `get_subordinates_vacation_details`. */
  datatype SubordinateRow = SubordinateRow(
    fio: string, ipn: string, role: string,
    start: CalendarDate, end: CalendarDate, totalDays: int, remainingDays: int)

  function SubordinateRowOf(staff: map<int, Staff>, v: Vacation): SubordinateRow
    requires v.staffId in staff
  {
    var s := staff[v.staffId];
    SubordinateRow(s.fio, s.ipn, s.role, v.start, v.end, v.totalDays, s.remainingDays)
  }

  /** The bookings of the direct reports of `managerFio`: employees whose manager_fio is that text. */
  function SubordinateIds(staff: map<int, Staff>, vacations: map<int, Vacation>, managerFio: string): set<int> {
    set k | k in vacations && vacations[k].staffId in staff && staff[vacations[k].staffId].managerFio == Some(managerFio)
  }

  /** `ORDER BY s.fio, v.start_date`. */
  predicate FioThenStart(a: SubordinateRow, b: SubordinateRow) {
    LexLess(a.fio, b.fio) || (a.fio == b.fio && Ordinal(a.start) <= Ordinal(b.start))
  }

  lemma FioThenStartTotal()
    ensures Total(FioThenStart)
  {
    forall a, b ensures FioThenStart(a, b) || FioThenStart(b, a) {
      LexLessTotal(a.fio, b.fio);
    }
  }

  /** `get_subordinates_vacation_details(manager_fio)`: one row per booking of a direct report. */
  function SubordinatesVacationDetails(staff: map<int, Staff>, vacations: map<int, Vacation>, managerFio: string): (r: seq<SubordinateRow>)
    ensures |r| == |SubordinateIds(staff, vacations, managerFio)|
    ensures forall x :: x in r <==> exists k :: k in SubordinateIds(staff, vacations, managerFio) && x == SubordinateRowOf(staff, vacations[k])
    ensures SortedBy(r, FioThenStart)
    ensures forall x :: multiset(r)[x] == |set k | k in SubordinateIds(staff, vacations, managerFio) && SubordinateRowOf(staff, vacations[k]) == x|
  {
    FioThenStartTotal();
    var ids := SubordinateIds(staff, vacations, managerFio);
    var rowOf := k requires k in vacations && vacations[k].staffId in staff => SubordinateRowOf(staff, vacations[k]);
    var r := OrderedScan(ids, rowOf, FioThenStart);
    assert forall x :: multiset(r)[x] == |set k | k in ids && SubordinateRowOf(staff, vacations[k]) == x| by {
      forall x ensures multiset(r)[x] == |set k | k in ids && SubordinateRowOf(staff, vacations[k]) == x| {
        MatchesAre(ids, rowOf, x, set k | k in ids && SubordinateRowOf(staff, vacations[k]) == x);
      }
    }
    r
  }

  /** The bookings of `staffId` ending on or after day `cutoff` (`date(end_date) >= date('now', '-N days')`). */
  function RecentIds(vacations: map<int, Vacation>, staffId: int, cutoff: int): set<int> {
    set k | k in vacations && vacations[k].staffId == staffId && Ordinal(vacations[k].end) >= cutoff
  }

  /**
   * `ROW_NUMBER() OVER (PARTITION BY staff_id ORDER BY end_date DESC) = 1`
   * within the window: a recent booking with the latest end, or None.
   */
  function LatestEnding(vacations: map<int, Vacation>, staffId: int, cutoff: int): (r: Option<Vacation>)
    ensures r.None? <==> RecentIds(vacations, staffId, cutoff) == {}
    ensures r.Some? ==> exists k :: k in RecentIds(vacations, staffId, cutoff) && vacations[k] == r.value
    ensures r.Some? ==> forall k :: k in RecentIds(vacations, staffId, cutoff) ==> Ordinal(vacations[k].end) <= Ordinal(r.value.end)
  {
    var b := LeastBooking(vacations, RecentIds(vacations, staffId, cutoff), (b: Booking) => -Ordinal(b.vacation.end));
    if b.None? then None else Some(b.value.vacation)
  }

  /** Widening the window does not change which end date is latest, once the narrow window holds a booking. */
  lemma WiderWindowSameLatest(vacations: map<int, Vacation>, staffId: int, narrow: int, wide: int)
    requires wide <= narrow
    requires LatestEnding(vacations, staffId, narrow).Some?
    ensures LatestEnding(vacations, staffId, wide).Some?
    ensures Ordinal(LatestEnding(vacations, staffId, wide).value.end) == Ordinal(LatestEnding(vacations, staffId, narrow).value.end)
  {
    var narrowIds, wideIds := RecentIds(vacations, staffId, narrow), RecentIds(vacations, staffId, wide);
    var n := LatestEnding(vacations, staffId, narrow).value;
    var k :| k in narrowIds && vacations[k] == n;
    assert k in wideIds;
    var w := LatestEnding(vacations, staffId, wide).value;
    var j :| j in wideIds && vacations[j] == w;
    assert Ordinal(n.end) <= Ordinal(w.end);
    assert j in narrowIds;
  }

  /** A row of `get_employees_for_hr_table` and of `get_employee_vacation_summary_by_ipn`. */
  datatype HrRow = HrRow(
    id: int, fio: string, ipn: string, role: string, managerFio: Option<string>, remainingDays: int,
    current: Option<Vacation>)

  function HrRowOf(staff: map<int, Staff>, vacations: map<int, Vacation>, id: int, cutoff: int): HrRow
    requires id in staff
  {
    var s := staff[id];
    HrRow(id, s.fio, s.ipn, s.role, s.managerFio, s.remainingDays, LatestEnding(vacations, id, cutoff))
  }

  /** The row builder of both HR queries, as a partial function of the employee id. */
  function HrRowAt(staff: map<int, Staff>, vacations: map<int, Vacation>, cutoff: int): (f: int --> HrRow)
    ensures forall k :: k in staff ==> f.requires(k) && f(k) == HrRowOf(staff, vacations, k, cutoff)
  {
    k requires k in staff => HrRowOf(staff, vacations, k, cutoff)
  }

  /** `ORDER BY s.fio`. */
  predicate FioOrder(a: HrRow, b: HrRow) {
    LexLe(a.fio, b.fio)
  }

  lemma FioOrderTotal()
    ensures Total(FioOrder)
  {
    forall a, b ensures FioOrder(a, b) || FioOrder(b, a) {
      LexLessTotal(a.fio, b.fio);
    }
  }

  /**
   * `get_employees_for_hr_table`: one row per employee, with the booking
   * that ends last among those ending no earlier than 30 days before today.
   */
  function EmployeesForHrTable(staff: map<int, Staff>, vacations: map<int, Vacation>, today: CalendarDate): (r: seq<HrRow>)
    ensures |r| == |staff|
    ensures forall x :: x in r <==> exists k :: k in staff && x == HrRowOf(staff, vacations, k, Ordinal(today) - 30)
    ensures SortedBy(r, FioOrder)
  {
    FioOrderTotal();
    OrderedScan(staff.Keys, HrRowAt(staff, vacations, Ordinal(today) - 30), FioOrder)
  }

  /**
   * `get_employee_vacation_summary_by_ipn`: the row of the employee with
   * that ipn, with a 90-day window, or None when no row has it.
   */
  function EmployeeVacationSummaryByIpn(staff: map<int, Staff>, vacations: map<int, Vacation>, ipn: string, today: CalendarDate): (r: Option<HrRow>)
    ensures r.None? <==> !IpnTaken(staff, ipn)
    ensures r.Some? ==> (r.value.id in staff && r.value.ipn == ipn &&
      r.value == HrRowOf(staff, vacations, r.value.id, Ordinal(today) - 90))
  {
    match EmployeeByIpn(staff, ipn)
    case None => None
    case Some(id) => Some(HrRowOf(staff, vacations, id, Ordinal(today) - 90))
  }

  /** The result of `get_employee_details_for_edit`: the row and its "most relevant" booking. */
  datatype EditDetails = EditDetails(employee: Staff, target: Option<Booking>)

  /** The bookings of `staffId` starting today or later. */
  function UpcomingIds(vacations: map<int, Vacation>, staffId: int, today: CalendarDate): set<int> {
    set k | k in vacations && vacations[k].staffId == staffId && Ordinal(vacations[k].start) >= Ordinal(today)
  }

  /** The bookings of `staffId` that ended before today. */
  function PastIds(vacations: map<int, Vacation>, staffId: int, today: CalendarDate): set<int> {
    set k | k in vacations && vacations[k].staffId == staffId && Ordinal(vacations[k].end) < Ordinal(today)
  }

  /** A booking under way today: started before today, ends today or later. */
  predicate InProgress(v: Vacation, today: CalendarDate) {
    Ordinal(v.start) < Ordinal(today) <= Ordinal(v.end)
  }

  /**
   * `get_employee_details_for_edit`: None for an unknown id; otherwise the
   * row, with the upcoming booking that starts first, or failing that the past
   * booking that ended last, or no booking.
   */
  function EmployeeDetailsForEdit(staff: map<int, Staff>, vacations: map<int, Vacation>, employeeId: int, today: CalendarDate): (r: Option<EditDetails>)
    ensures r.None? <==> employeeId !in staff
    ensures r.Some? ==> r.value.employee == staff[employeeId]
    ensures r.Some? ==> (r.value.target.None? <==>
      UpcomingIds(vacations, employeeId, today) == {} && PastIds(vacations, employeeId, today) == {})
    ensures r.Some? && r.value.target.Some? ==>
      var b := r.value.target.value;
      b.id in vacations && vacations[b.id] == b.vacation && b.vacation.staffId == employeeId && !InProgress(b.vacation, today)
    ensures r.Some? && UpcomingIds(vacations, employeeId, today) != {} ==>
      r.value.target.Some? && r.value.target.value.id in UpcomingIds(vacations, employeeId, today) &&
      forall k :: k in UpcomingIds(vacations, employeeId, today) ==> Ordinal(r.value.target.value.vacation.start) <= Ordinal(vacations[k].start)
    ensures r.Some? && UpcomingIds(vacations, employeeId, today) == {} && PastIds(vacations, employeeId, today) != {} ==>
      r.value.target.Some? && r.value.target.value.id in PastIds(vacations, employeeId, today) &&
      forall k :: k in PastIds(vacations, employeeId, today) ==> Ordinal(vacations[k].end) <= Ordinal(r.value.target.value.vacation.end)
  {
    if employeeId !in staff then None
    else
      var next := LeastBooking(vacations, UpcomingIds(vacations, employeeId, today), (b: Booking) => Ordinal(b.vacation.start));
      var target :=
        if next.Some? then next
        else LeastBooking(vacations, PastIds(vacations, employeeId, today), (b: Booking) => -Ordinal(b.vacation.end));
      Some(EditDetails(staff[employeeId], target))
  }
}
