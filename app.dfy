/**
 * The decisions app.py makes around the ledger: the page router
 * (`display_page_content`), the login callback (`process_login`), the two
 * live previews of the add-vacation form, and the gates of the four form
 * handlers, which decide whether a request reaches the ledger and with which
 * arguments.
 *
 * The Flask `session` holds three keys (user_ipn, user_role, user_fio); it is
 * the field of `WebApp` that the router and the login callback update. Dash
 * alerts and layouts are reduced to tagged outcomes. Every callback is taken
 * as fired by its button (`n_clicks` truthy).
 */
module App {
  import opened Text
  import opened Dates
  import opened DbOperations

  // ---------------------------------------------------------------------
  // Session and routing
  // ---------------------------------------------------------------------

  /** The Flask session: each key is absent (None) or holds text. */
  datatype Session = Session(userIpn: Option<string>, userRole: Option<string>, userFio: Option<string>)

  /** `session.clear()`. */
  const NoSession := Session(None, None, None)

  /** `ROLE_PATHS`: each role's own dashboard. */
  const RolePaths: map<string, string> := map["Employee" := "/employee", "Manager" := "/manager", "HR Manager" := "/hr"]

  /** `ROLE_PATHS.values()`. */
  const DashboardPaths: set<string> := RolePaths.Values

  /** No two roles share a dashboard. */
  lemma RolePathsOneToOne()
    ensures forall a, b :: a in RolePaths && b in RolePaths && RolePaths[a] == RolePaths[b] ==> a == b
  {
  }

  /** `ROLE_PATHS.get(role)`. */
  function RolePathOf(role: Option<string>): (p: Option<string>)
    ensures p.Some? <==> role.Some? && role.value in RolePaths
    ensures p.Some? ==> p.value in DashboardPaths && p.value == RolePaths[role.value]
  {
    if role.Some? && role.value in RolePaths then Some(RolePaths[role.value]) else None
  }

  /** `path if path else '/'`. */
  function OrRoot(path: Option<string>): (r: string)
    ensures path.Some? ==> r == path.value
    ensures path.None? ==> r == "/"
  {
    if path.Some? then path.value else "/"
  }

  /** What `page-content` becomes: unchanged, the login form, or the dashboard of a role. */
  datatype Page = KeepPage | LoginPage | Dashboard(role: string)

  /** What `url.pathname` becomes: unchanged, or set (possibly to None). */
  datatype UrlChange = KeepUrl | SetUrl(path: Option<string>)

  datatype Routed = Routed(page: Page, url: UrlChange, session: Session)

  /** A user is logged in when `session.get('user_ipn')` is truthy. */
  predicate LoggedIn(s: Session) {
    Truthy(s.userIpn)
  }

  /**
   * `display_page_content`: `/logout` clears the session and shows the login
   * form at `/login`; a logged-in user sees a dashboard only on their own role
   * path and is sent there from anywhere else; without a session only
   * `/login` stays put, every other path goes to `/login`.
   */
  function Route(session: Session, pathname: string): (r: Routed)
    ensures pathname == "/logout" ==> r == Routed(LoginPage, SetUrl(Some("/login")), NoSession)
    ensures pathname != "/logout" ==> r.session == session
    ensures r.page.Dashboard? <==>
      (pathname != "/logout" && LoggedIn(session) && RolePathOf(session.userRole) == Some(pathname))
    ensures r.page.Dashboard? ==> r.page.role == session.userRole.value && r.url == KeepUrl
    ensures (pathname != "/logout" && LoggedIn(session) && RolePathOf(session.userRole).Some? &&
             RolePathOf(session.userRole) != Some(pathname)) ==>
      r.page == KeepPage && r.url == SetUrl(RolePathOf(session.userRole))
    ensures (pathname != "/logout" && LoggedIn(session) && RolePathOf(session.userRole).None?) ==>
      r.page == KeepPage && r.url == SetUrl(if pathname in DashboardPaths then None else Some("/"))
    ensures (pathname != "/logout" && !LoggedIn(session)) ==>
      r.page == LoginPage && r.url == (if pathname == "/login" then KeepUrl else SetUrl(Some("/login")))
  {
    if pathname == "/logout" then Routed(LoginPage, SetUrl(Some("/login")), NoSession)
    else if LoggedIn(session) then
      var home := RolePathOf(session.userRole);
      if pathname == "/login" || pathname == "/" then Routed(KeepPage, SetUrl(Some(OrRoot(home))), session)
      else if pathname in DashboardPaths then
        if home == Some(pathname) then Routed(Dashboard(session.userRole.value), KeepUrl, session)
        else Routed(KeepPage, SetUrl(home), session)
      else Routed(KeepPage, SetUrl(Some(OrRoot(home))), session)
    else if pathname == "/login" then Routed(LoginPage, KeepUrl, session)
    else Routed(LoginPage, SetUrl(Some("/login")), session)
  }

  /**
   * One redirect is enough: for a visitor without a session, or a user whose
   * role has a path, following the redirect lands on a page that stays put.
   */
  lemma RouteSettles(session: Session, pathname: string)
    requires !LoggedIn(session) || RolePathOf(session.userRole).Some?
    ensures var r := Route(session, pathname);
      r.url.SetUrl? ==> (r.url.path.Some? &&
        Route(r.session, r.url.path.value).url == KeepUrl &&
        Route(r.session, r.url.path.value).page != KeepPage)
  {
    var r := Route(session, pathname);
    if r.url.SetUrl? && pathname != "/logout" && LoggedIn(session) {
      assert Route(r.session, r.url.path.value).page.Dashboard?;
    }
  }

  /** What `process_login` reports. */
  datatype LoginOutcome =
    | EmptyIpn          // "Будь ласка, введіть ІПН."
    | UnknownIpn        // no employee has that ipn
    | LoggedInAt(path: string)
    | RoleWithoutPath   // the role is not in ROLE_PATHS: the session is cleared

  class WebApp {
    var session: Session

    /** A logged-in session always carries a role that has a dashboard. */
    ghost predicate Valid()
      reads this
    {
      LoggedIn(session) ==> RolePathOf(session.userRole).Some?
    }

    constructor ()
      ensures Valid() && session == NoSession
    {
      session := NoSession;
    }

    /** `display_page_content`, which clears the session on `/logout`. */
    method DisplayPageContent(pathname: string) returns (page: Page, url: UrlChange)
      requires Valid()
      modifies this
      ensures Valid()
      ensures Routed(page, url, session) == Route(old(session), pathname)
      ensures url.SetUrl? ==> url.path.Some? && Route(session, url.path.value).url == KeepUrl
      ensures pathname == "/logout" ==> session == NoSession
      ensures pathname != "/logout" ==> session == old(session)
    {
      if pathname == "/logout" {
        session := NoSession;
        return LoginPage, SetUrl(Some("/login"));
      }
      var routed := Route(session, pathname);
      RouteSettles(session, pathname);
      page, url := routed.page, routed.url;
    }

    /**
     * `process_login`: an empty or unknown ipn leaves the session as it was;
     * a known one stores the employee's ipn, role and fio and sends the user
     * to the role's path, or clears the session when the role has none.
     */
    method ProcessLogin(ipn: Option<string>, ledger: Ledger) returns (outcome: LoginOutcome)
      requires Valid() && ledger.Valid()
      modifies this
      ensures Valid()
      ensures !Truthy(ipn) ==> outcome == EmptyIpn && session == old(session)
      ensures (Truthy(ipn) && !IpnTaken(ledger.staff, ipn.value)) ==> outcome == UnknownIpn && session == old(session)
      ensures (Truthy(ipn) && IpnTaken(ledger.staff, ipn.value)) ==> (outcome.LoggedInAt? || outcome == RoleWithoutPath)
      ensures outcome.LoggedInAt? ==> (
        exists k :: k in ledger.staff && ledger.staff[k].ipn == ipn.value &&
          session == Session(ipn, Some(ledger.staff[k].role), Some(ledger.staff[k].fio)) &&
          RolePathOf(Some(ledger.staff[k].role)) == Some(outcome.path))
      ensures outcome.LoggedInAt? ==> Route(session, outcome.path).page == Dashboard(session.userRole.value)
      ensures outcome == RoleWithoutPath ==> (
        session == NoSession &&
        exists k :: k in ledger.staff && ledger.staff[k].ipn == ipn.value && RolePathOf(Some(ledger.staff[k].role)).None?)
    {
      if !Truthy(ipn) {
        return EmptyIpn;
      }
      var found := EmployeeByIpn(ledger.staff, ipn.value);
      if found.None? {
        return UnknownIpn;
      }
      var employee := ledger.staff[found.value];
      session := Session(Some(employee.ipn), Some(employee.role), Some(employee.fio));
      var path := RolePathOf(Some(employee.role));
      if path.Some? {
        outcome := LoggedInAt(path.value);
      } else {
        session := NoSession;
        outcome := RoleWithoutPath;
      }
    }
  }

  // ---------------------------------------------------------------------
  // Form gates
  // ---------------------------------------------------------------------

  /** The text `calculate_vacation_total_days` shows under the two date pickers. */
  datatype TotalDaysText =
    | NoDates              // "Всего дней: -"
    | TotalDays(days: int)
    | EndBeforeStart       // the span is not positive
    | BadDates             // ValueError

  /** `calculate_vacation_total_days`. */
  function TotalDaysPreview(start: Option<string>, end: Option<string>): (r: TotalDaysText)
    ensures r == NoDates <==> !(Truthy(start) && Truthy(end))
    ensures r == BadDates <==>
      (Truthy(start) && Truthy(end) && (ParseDate(start.value).None? || ParseDate(end.value).None?))
    ensures r.TotalDays? ==> (Truthy(start) && Truthy(end) &&
      ParseDate(start.value).Some? && ParseDate(end.value).Some? &&
      !Precedes(ParseDate(end.value).value, ParseDate(start.value).value) &&
      r.days == DaysSpanned(ParseDate(start.value).value, ParseDate(end.value).value) && r.days >= 1)
    ensures r == EndBeforeStart ==>
      (ParseDate(start.value).Some? && ParseDate(end.value).Some? &&
       Precedes(ParseDate(end.value).value, ParseDate(start.value).value))
  {
    if Truthy(start) && Truthy(end) then
      match CalculateDays(start.value, end.value)
      case None => BadDates
      case Some(days) => if days > 0 then TotalDays(days) else EndBeforeStart
    else NoDates
  }

  /** The text `calculate_vacation_remaining_days` shows. */
  datatype RemainingText =
    | NoEmployee           // "Остаток дней: -"
    | LoadFailed           // the employee could not be loaded
    | AfterThis(days: int) // the balance once this vacation is booked
    | CurrentBalance(days: int)

  /**
   * `calculate_vacation_remaining_days`: the chosen employee's balance, less
   * the selected period when that is a positive span. The preview does not
   * flag a balance that would go negative.
   */
  function RemainingPreview(staff: map<int, Staff>, employeeId: Option<int>, start: Option<string>, end: Option<string>): (r: RemainingText)
    ensures r == NoEmployee <==> !TruthyId(employeeId)
    ensures r == LoadFailed <==> TruthyId(employeeId) && employeeId.value !in staff
    ensures r.AfterThis? <==> (TruthyId(employeeId) && employeeId.value in staff && TotalDaysPreview(start, end).TotalDays?)
    ensures r.AfterThis? ==> r.days == staff[employeeId.value].remainingDays - TotalDaysPreview(start, end).days
    ensures r.CurrentBalance? ==> r.days == staff[employeeId.value].remainingDays
  {
    if !TruthyId(employeeId) then NoEmployee
    else match EmployeeById(staff, employeeId.value)
      case None => LoadFailed
      case Some(employee) =>
        match TotalDaysPreview(start, end)
        case TotalDays(days) => AfterThis(employee.remainingDays - days)
        case _ => CurrentBalance(employee.remainingDays)
  }

  /** What `handle_add_vacation` decides before it calls `add_vacation`. */
  datatype AddVacationDecision =
    | MissingVacationFields   // employee or a date not given
    | InvalidDates            // ValueError
    | InvalidSpan             // total_days <= 0
    | BookVacation(employeeId: int, start: CalendarDate, end: CalendarDate, totalDays: int)

  /**
   * The gate of `handle_add_vacation`: the ledger is called only for a chosen
   * employee and two parseable dates whose inclusive span is positive, with
   * that span as `total_days`.
   */
  function AddVacationGate(employeeId: Option<int>, start: Option<string>, end: Option<string>): (d: AddVacationDecision)
    ensures d == MissingVacationFields <==> !(TruthyId(employeeId) && Truthy(start) && Truthy(end))
    ensures d.BookVacation? ==> (
      TruthyId(employeeId) && d.employeeId == employeeId.value &&
      Some(d.start) == ParseDate(start.value) && Some(d.end) == ParseDate(end.value) &&
      d.totalDays == DaysSpanned(d.start, d.end) && d.totalDays >= 1)
    ensures TruthyId(employeeId) ==> (
      (d == InvalidDates <==> TotalDaysPreview(start, end) == BadDates) &&
      (d == InvalidSpan <==> TotalDaysPreview(start, end) == EndBeforeStart) &&
      (d.BookVacation? <==> TotalDaysPreview(start, end).TotalDays?))
    ensures d.BookVacation? ==> TotalDaysPreview(start, end) == TotalDays(d.totalDays)
  {
    if !(TruthyId(employeeId) && Truthy(start) && Truthy(end)) then MissingVacationFields
    else match CalculateDays(start.value, end.value)
      case None => InvalidDates
      case Some(total) =>
        if total <= 0 then InvalidSpan
        else BookVacation(employeeId.value, ParseDate(start.value).value, ParseDate(end.value).value, total)
  }

  /** Python's `int()` on text: an optional sign and at least one digit. */
  function ParseInt(t: string): (r: Option<int>)
    ensures r.Some? ==> t != [] && (AllDigits(t) || (|t| >= 2 && (t[0] == '-' || t[0] == '+') && AllDigits(t[1..])))
    ensures (t != [] && AllDigits(t)) ==> r == Some(DigitsValue(t))
  {
    if t == [] then None
    else if (t[0] == '-' || t[0] == '+') && |t| >= 2 && AllDigits(t[1..]) then
      Some(if t[0] == '-' then 0 - DigitsValue(t[1..]) else DigitsValue(t[1..]))
    else if AllDigits(t) then Some(DigitsValue(t))
    else None
  }

  /** `int(str(n)) == n`. */
  lemma ParseIntText(n: int)
    ensures ParseInt(IntText(n)) == Some(n)
  {
    if n < 0 {
      assert IntText(n) == ['-'] + NatText(-n);
      ParseIntNegative(NatText(-n));
      NatTextValue(-n);
    } else {
      NatTextValue(n);
    }
  }

  /** A minus sign before a run of digits negates their value. */
  lemma ParseIntNegative(d: string)
    requires d != [] && AllDigits(d)
    ensures ParseInt(['-'] + d) == Some(0 - DigitsValue(d))
  {
    assert (['-'] + d)[1..] == d;
  }

  /** A selected row id of the HR table, as Dash hands it back. */
  datatype RowId = IntId(n: int) | TextId(t: string)

  /** `int(row_id)`. */
  function RowIdValue(id: RowId): (r: Option<int>)
    ensures id.IntId? ==> r == Some(id.n)
    ensures id.TextId? ==> r == ParseInt(id.t)
  {
    match id
    case IntId(n) => Some(n)
    case TextId(t) => ParseInt(t)
  }

  /** What `handle_delete_employee` decides before it calls `delete_employee`. */
  datatype DeleteDecision =
    | NothingSelected   // PreventUpdate
    | SelectExactlyOne
    | InvalidRowId      // ValueError from int()
    | DeleteRow(id: int)

  /** The gate of `handle_delete_employee`: exactly one selected row whose id reads as an integer. */
  function DeleteGate(selected: Option<seq<RowId>>): (d: DeleteDecision)
    ensures d == NothingSelected <==> selected.None? || selected.value == []
    ensures d == SelectExactlyOne <==> selected.Some? && |selected.value| >= 2
    ensures d.DeleteRow? <==> selected.Some? && |selected.value| == 1 && RowIdValue(selected.value[0]).Some?
    ensures d.DeleteRow? ==> RowIdValue(selected.value[0]) == Some(d.id)
  {
    if selected.None? || selected.value == [] then NothingSelected
    else if |selected.value| != 1 then SelectExactlyOne
    else match RowIdValue(selected.value[0])
      case None => InvalidRowId
      case Some(id) => DeleteRow(id)
  }

  /** What `handle_add_employee` decides before it calls `add_employee`. */
  datatype AddEmployeeDecision =
    | MissingEmployeeFields
    | Hire(fio: string, ipn: string, role: string, annualDays: int)

  /**
   * The gate of `handle_add_employee`: fio, ipn, role and the yearly days
   * must all be truthy, so a yearly allowance of 0 is refused as missing
   * while a negative one passes.
   */
  function AddEmployeeGate(fio: Option<string>, ipn: Option<string>, role: Option<string>, vacationDays: Option<int>): (d: AddEmployeeDecision)
    ensures d.Hire? <==> Truthy(fio) && Truthy(ipn) && Truthy(role) && TruthyId(vacationDays)
    ensures d.Hire? ==> (d.fio == fio.value && d.ipn == ipn.value && d.role == role.value &&
      d.annualDays == vacationDays.value && d.annualDays != 0)
  {
    if Truthy(fio) && Truthy(ipn) && Truthy(role) && TruthyId(vacationDays) then
      Hire(fio.value, ipn.value, role.value, vacationDays.value)
    else MissingEmployeeFields
  }

  /** What `handle_save_employee_data` decides before it calls `update_employee_data_and_vacation`. */
  datatype SaveDecision =
    | NoEmployeeChosen     // PreventUpdate
    | EmployeeMissing
    | MissingSaveFields
    | NegativeAnnualDays
    | OneDateOnly
    | EndDateFirst         // vac_end < vac_start as text
    | Save(employeeId: int, u: Updates)

  /**
   * The gate of `handle_save_employee_data`: the employee must exist, ipn
   * and role must be given, the yearly days must be given and not negative,
   * the dates must come both or neither, and the end must not sort before
   * the start. The `updates` it builds keep the stored fio.
   */
  function SaveGate(staff: map<int, Staff>, employeeId: Option<int>, targetVacationId: Option<int>,
                    ipn: Option<string>, role: Option<string>, manager: Option<string>, annualDays: Option<int>,
                    vacStart: Option<string>, vacEnd: Option<string>): (d: SaveDecision)
    ensures d == NoEmployeeChosen <==> !TruthyId(employeeId)
    ensures d == EmployeeMissing <==> TruthyId(employeeId) && employeeId.value !in staff
    ensures d.Save? <==> (
      TruthyId(employeeId) && employeeId.value in staff &&
      Truthy(ipn) && Truthy(role) && annualDays.Some? && annualDays.value >= 0 &&
      (Truthy(vacStart) <==> Truthy(vacEnd)) &&
      !(Truthy(vacStart) && LexLess(vacEnd.value, vacStart.value)))
    ensures d.Save? ==> (
      d.employeeId == employeeId.value &&
      d.u.fio == staff[d.employeeId].fio && d.u.ipn == ipn.value && d.u.role == role.value &&
      d.u.managerFio == manager && d.u.annualDays == annualDays.value &&
      (Truthy(d.u.vacationStart) <==> Truthy(vacStart)) && (Truthy(d.u.vacationEnd) <==> Truthy(vacEnd)) &&
      (Truthy(vacStart) ==> d.u.vacationStart == vacStart && d.u.vacationEnd == vacEnd) &&
      (TruthyId(d.u.targetVacationId) <==> TruthyId(targetVacationId)) &&
      (TruthyId(targetVacationId) ==> d.u.targetVacationId == targetVacationId))
  {
    if !TruthyId(employeeId) then NoEmployeeChosen
    else if employeeId.value !in staff then EmployeeMissing
    else if !(Truthy(ipn) && Truthy(role) && annualDays.Some?) then MissingSaveFields
    else if annualDays.value < 0 then NegativeAnnualDays
    else if (Truthy(vacStart) || Truthy(vacEnd)) && !(Truthy(vacStart) && Truthy(vacEnd)) then OneDateOnly
    else if Truthy(vacStart) && Truthy(vacEnd) && LexLess(vacEnd.value, vacStart.value) then EndDateFirst
    else
      Save(employeeId.value, Updates(
        staff[employeeId.value].fio, ipn.value, role.value, manager, annualDays.value,
        if Truthy(vacStart) then vacStart else None,
        if Truthy(vacEnd) then vacEnd else None,
        if TruthyId(targetVacationId) then targetVacationId else None))
  }

  /**
   * For dates written in ISO form the text test of the gate is the calendar
   * test: the gate refuses exactly the edits whose end precedes their start,
   * so an edit it lets through never meets the ledger's invalid-period check.
   */
  lemma SaveGateIsCalendarOrder(staff: map<int, Staff>, employeeId: Option<int>, targetVacationId: Option<int>,
                                ipn: Option<string>, role: Option<string>, manager: Option<string>, annualDays: Option<int>,
                                start: CalendarDate, end: CalendarDate)
    requires TruthyId(employeeId) && employeeId.value in staff
    requires Truthy(ipn) && Truthy(role) && annualDays.Some? && annualDays.value >= 0
    ensures var d := SaveGate(staff, employeeId, targetVacationId, ipn, role, manager, annualDays,
                              Some(IsoFormat(start)), Some(IsoFormat(end)));
      (d == EndDateFirst <==> Precedes(end, start)) &&
      (d.Save? ==> NewSpan(d.u) == Some(DaysSpanned(start, end)) && DaysSpanned(start, end) >= 1)
  {
    IsoFormatOrder(end, start);
    ParseIsoFormat(start);
    ParseIsoFormat(end);
  }

  // ---------------------------------------------------------------------
  // Form handlers: gate, then ledger
  // ---------------------------------------------------------------------

  /**
   * `handle_add_vacation`: when the gate lets the request through, the
   * booking is added with its exact inclusive span, so the ledger keeps every
   * booking's `total_days` equal to its period and the balance reads what the
   * remaining-days preview showed.
   */
  method HandleAddVacation(ledger: Ledger, employeeId: Option<int>, start: Option<string>, end: Option<string>)
    returns (d: AddVacationDecision, ok: bool)
    requires ledger.Valid()
    modifies ledger
    ensures ledger.Valid()
    ensures d == AddVacationGate(employeeId, start, end)
    ensures !d.BookVacation? ==> !ok && ledger.staff == old(ledger.staff) && ledger.vacations == old(ledger.vacations)
    ensures d.BookVacation? ==> (ok <==> d.employeeId in old(ledger.staff) && old(ledger.staff)[d.employeeId].remainingDays >= d.totalDays)
    ensures ok ==>
      ledger.vacations == old(ledger.vacations)[old(ledger.nextVacationId) := Vacation(d.employeeId, d.start, d.end, d.totalDays)]
    ensures ok ==> ledger.staff == Debited(old(ledger.staff), d.employeeId, d.totalDays)
    ensures ok ==> RemainingPreview(old(ledger.staff), employeeId, start, end) == AfterThis(ledger.staff[d.employeeId].remainingDays)
    ensures !ok ==> ledger.staff == old(ledger.staff) && ledger.vacations == old(ledger.vacations)
    ensures Balanced(old(ledger.staff), old(ledger.vacations)) ==> Balanced(ledger.staff, ledger.vacations)
    ensures SpansExact(old(ledger.vacations)) ==> SpansExact(ledger.vacations)
  {
    d := AddVacationGate(employeeId, start, end);
    if !d.BookVacation? {
      return d, false;
    }
    if d.employeeId in ledger.staff {
      PreviewOfBooking(ledger.staff, employeeId, start, end);
    }
    ok := ledger.AddVacation(d.employeeId, d.start, d.end, d.totalDays);
  }

  /** For a request the gate lets through, the remaining-days preview shows the balance the booking leaves. */
  lemma PreviewOfBooking(staff: map<int, Staff>, employeeId: Option<int>, start: Option<string>, end: Option<string>)
    requires AddVacationGate(employeeId, start, end).BookVacation?
    requires employeeId.Some? && employeeId.value in staff
    ensures RemainingPreview(staff, employeeId, start, end) ==
      AfterThis(staff[employeeId.value].remainingDays - AddVacationGate(employeeId, start, end).totalDays)
  {
  }

  /**
   * `handle_add_employee`: the new employee starts with the full yearly
   * allowance as balance, so a balanced ledger stays balanced.
   */
  method HandleAddEmployee(ledger: Ledger, fio: Option<string>, ipn: Option<string>, role: Option<string>,
                           managerFio: Option<string>, vacationDays: Option<int>)
    returns (d: AddEmployeeDecision, id: Option<int>)
    requires ledger.Valid()
    modifies ledger
    ensures ledger.Valid()
    ensures d == AddEmployeeGate(fio, ipn, role, vacationDays)
    ensures !d.Hire? ==> id.None? && ledger.staff == old(ledger.staff)
    ensures d.Hire? ==> (id.None? <==> IpnTaken(old(ledger.staff), d.ipn))
    ensures id.Some? ==> (
      id.value !in old(ledger.staff) &&
      ledger.staff == old(ledger.staff)[id.value := Staff(d.fio, d.ipn, d.role, managerFio, d.annualDays, d.annualDays)])
    ensures id.None? ==> ledger.staff == old(ledger.staff)
    ensures ledger.vacations == old(ledger.vacations)
    ensures Balanced(old(ledger.staff), old(ledger.vacations)) ==> Balanced(ledger.staff, ledger.vacations)
  {
    d := AddEmployeeGate(fio, ipn, role, vacationDays);
    id := None;
    if d.Hire? {
      id := ledger.AddEmployee(d.fio, d.ipn, managerFio, d.role, d.annualDays, Some(d.annualDays));
    }
  }

  /** `handle_delete_employee`: one selected row, deleted with its bookings. */
  method HandleDeleteEmployee(ledger: Ledger, selected: Option<seq<RowId>>) returns (d: DeleteDecision, ok: bool)
    requires ledger.Valid()
    modifies ledger
    ensures ledger.Valid()
    ensures d == DeleteGate(selected)
    ensures ok <==> d.DeleteRow? && d.id in old(ledger.staff)
    ensures !ok ==> ledger.staff == old(ledger.staff) && ledger.vacations == old(ledger.vacations)
    ensures ok ==> (
      ledger.staff.Keys == old(ledger.staff).Keys - {d.id} &&
      (forall k :: k in ledger.staff ==> ledger.staff[k] == Released(old(ledger.staff)[k], old(ledger.staff)[d.id].fio)) &&
      ledger.vacations == Without(old(ledger.vacations), d.id))
    ensures Balanced(old(ledger.staff), old(ledger.vacations)) ==> Balanced(ledger.staff, ledger.vacations)
    ensures SpansExact(old(ledger.vacations)) ==> SpansExact(ledger.vacations)
  {
    d := DeleteGate(selected);
    ok := false;
    if d.DeleteRow? {
      ok := ledger.DeleteEmployee(d.id);
    }
  }

  /**
   * `handle_save_employee_data`: the edit reaches the ledger only through
   * the gate, with the stored fio; whatever the ledger answers, the balance
   * and the exact spans are kept.
   */
  method HandleSaveEmployeeData(ledger: Ledger, employeeId: Option<int>, targetVacationId: Option<int>,
                                ipn: Option<string>, role: Option<string>, manager: Option<string>, annualDays: Option<int>,
                                vacStart: Option<string>, vacEnd: Option<string>)
    returns (d: SaveDecision, outcome: Option<UpdateOutcome>)
    requires ledger.Valid()
    modifies ledger
    ensures ledger.Valid()
    ensures d == SaveGate(old(ledger.staff), employeeId, targetVacationId, ipn, role, manager, annualDays, vacStart, vacEnd)
    ensures outcome.Some? <==> d.Save?
    ensures outcome.Some? ==> outcome.value != EmployeeNotFound
    ensures outcome != Some(Updated) ==> ledger.staff == old(ledger.staff) && ledger.vacations == old(ledger.vacations)
    ensures d.Save? ==> (
      (outcome == Some(DateError) <==> Retargets(old(ledger.vacations), d.employeeId, d.u) && NewSpan(d.u).None?) &&
      (outcome == Some(InvalidPeriod) <==>
        Retargets(old(ledger.vacations), d.employeeId, d.u) && NewSpan(d.u).Some? && NewSpan(d.u).value <= 0) &&
      (outcome == Some(DuplicateIpn) <==>
        !(Retargets(old(ledger.vacations), d.employeeId, d.u) && (NewSpan(d.u).None? || NewSpan(d.u).value <= 0)) &&
        IpnTakenByOther(old(ledger.staff), d.employeeId, d.u.ipn)))
    ensures outcome == Some(Updated) ==> (
      ledger.staff.Keys == old(ledger.staff).Keys &&
      ledger.staff[d.employeeId].fio == old(ledger.staff)[d.employeeId].fio &&
      ledger.staff[d.employeeId].ipn == ipn.value && ledger.staff[d.employeeId].role == role.value &&
      ledger.staff[d.employeeId].managerFio == manager && ledger.staff[d.employeeId].annualDays == annualDays.value &&
      (forall k :: k in ledger.staff && k != d.employeeId ==> ledger.staff[k] == old(ledger.staff)[k]))
    ensures outcome == Some(Updated) && Retargets(old(ledger.vacations), d.employeeId, d.u) ==>
      var start, end := ParseDate(d.u.vacationStart.value).value, ParseDate(d.u.vacationEnd.value).value;
      !Precedes(end, start) &&
      ledger.vacations == old(ledger.vacations)[d.u.targetVacationId.value := Vacation(d.employeeId, start, end, DaysSpanned(start, end))]
    ensures outcome == Some(Updated) && !Retargets(old(ledger.vacations), d.employeeId, d.u) ==> ledger.vacations == old(ledger.vacations)
    ensures forall k :: k in old(ledger.staff) ==>
      k in ledger.staff && Drift(ledger.staff, ledger.vacations, k) == Drift(old(ledger.staff), old(ledger.vacations), k)
    ensures Balanced(old(ledger.staff), old(ledger.vacations)) ==> Balanced(ledger.staff, ledger.vacations)
    ensures SpansExact(old(ledger.vacations)) ==> SpansExact(ledger.vacations)
  {
    d := SaveGate(ledger.staff, employeeId, targetVacationId, ipn, role, manager, annualDays, vacStart, vacEnd);
    outcome := None;
    if d.Save? {
      var r := ledger.UpdateEmployeeDataAndVacation(d.employeeId, d.u);
      outcome := Some(r);
    }
  }
}
