/** buspass/views.py, the month-based variant: the login lookup cascade,
    the session gate every student view opens with, the duplicate guard,
    price lookup, month-to-expiry computation, pass creation and QR payload
    of apply_bus_pass, the receipt extension check of
    upload_payment_receipt and the approval gate of download_bus_pass.
    The tables are values (Tables) for the specification functions and the
    fields of a Store object for the methods that write them. */
module Views {
  import opened Common
  import opened Calendar
  import opened Models

  // ---------------------------------------------------------------------
  // The month-based tables that views.py and admin.py read and write

  /** A BusPass row of the month-based schema. */
  datatype Pass = Pass(
    id: string, studentId: string, routeId: nat, month: string,
    issueDate: Date, expiryDate: Date, status: Status,
    paymentReceipt: Option<string>, qrCode: Option<string>,
    approvedBy: Option<string>, approvedAt: Option<int>,
    rejectedBy: Option<string>, rejectedAt: Option<int>, notes: string)

  /** A RoutePrice row of the month-based schema. */
  datatype MonthPrice = MonthPrice(routeId: nat, month: string, pricePaise: nat)

  datatype Tables = Tables(
    students: seq<Student>, routes: seq<Route>, prices: seq<MonthPrice>, passes: seq<Pass>)

  /** The primary keys and the unique Aadhar, mobile and email columns of Student. */
  predicate UniqueStudents(students: seq<Student>) {
    forall i, j :: 0 <= i < j < |students| ==>
      && students[i].id != students[j].id
      && students[i].aadhar != students[j].aadhar
      && students[i].mobile != students[j].mobile
      && students[i].email != students[j].email
  }

  predicate UniquePassIds(passes: seq<Pass>) {
    forall i, j :: 0 <= i < j < |passes| ==> passes[i].id != passes[j].id
  }

  predicate UniqueRouteIds(routes: seq<Route>) {
    forall i, j :: 0 <= i < j < |routes| ==> routes[i].id != routes[j].id
  }

  /** What the database's key and unique constraints guarantee. */
  predicate TablesValid(db: Tables) {
    UniqueStudents(db.students) && UniqueRouteIds(db.routes) && UniquePassIds(db.passes)
  }

  // ---------------------------------------------------------------------
  // The session

  /** The two session keys the student views use. */
  datatype SessionData = SessionData(studentId: Option<string>, loggedIn: bool)

  /** Python truthiness of session.get('student_id'). */
  predicate Truthy(v: Option<string>) {
    v.Some? && v.value != ""
  }

  predicate SignedIn(session: SessionData) {
    session.loggedIn && Truthy(session.studentId)
  }

  /** request.session: student_id and student_logged_in. */
  class Session {
    var studentId: Option<string>
    var loggedIn: bool

    constructor ()
      ensures studentId == None && !loggedIn
    {
      studentId := None;
      loggedIn := false;
    }

    function Data(): SessionData
      reads this
    {
      SessionData(studentId, loggedIn)
    }
  }

  // ---------------------------------------------------------------------
  // student_login: the lookup cascade

  /** The columns a login identifier is tried against, in the order tried. */
  datatype Key = ById | ByAadhar | ByMobile | ByEmail

  function KeyOf(s: Student, k: Key): string {
    match k
    case ById => s.id
    case ByAadhar => s.aadhar
    case ByMobile => s.mobile
    case ByEmail => s.email
  }

  predicate HasKey(students: seq<Student>, k: Key, ident: string) {
    exists s :: s in students && KeyOf(s, k) == ident
  }

  /** Student.objects.get(<column>=ident): None for DoesNotExist. */
  function FindBy(students: seq<Student>, k: Key, ident: string): (r: Option<Student>)
    ensures r.Some? ==> r.value in students && KeyOf(r.value, k) == ident
    ensures r.None? <==> !HasKey(students, k, ident)
  {
    if students == [] then None
    else if KeyOf(students[0], k) == ident then Some(students[0])
    else
      var r := FindBy(students[1..], k, ident);
      assert forall s :: s in students ==> s == students[0] || s in students[1..];
      r
  }

  /** The nested try/except in student_login: student id, then Aadhar, then
      mobile, then email; the first column that matches decides. */
  function LookupStudent(students: seq<Student>, ident: string): (r: Option<Student>)
    ensures r.Some? ==> r.value in students
    ensures r.None? <==> (!HasKey(students, ById, ident) && !HasKey(students, ByAadhar, ident)
                          && !HasKey(students, ByMobile, ident) && !HasKey(students, ByEmail, ident))
    ensures HasKey(students, ById, ident) ==> r.Some? && r.value.id == ident
    ensures (!HasKey(students, ById, ident) && HasKey(students, ByAadhar, ident))
            ==> r.Some? && r.value.aadhar == ident
    ensures (!HasKey(students, ById, ident) && !HasKey(students, ByAadhar, ident)
             && HasKey(students, ByMobile, ident))
            ==> r.Some? && r.value.mobile == ident
    ensures (!HasKey(students, ById, ident) && !HasKey(students, ByAadhar, ident)
             && !HasKey(students, ByMobile, ident) && HasKey(students, ByEmail, ident))
            ==> r.Some? && r.value.email == ident
  {
    match FindBy(students, ById, ident)
    case Some(s) => Some(s)
    case None =>
      match FindBy(students, ByAadhar, ident)
      case Some(s) => Some(s)
      case None =>
        match FindBy(students, ByMobile, ident)
        case Some(s) => Some(s)
        case None => FindBy(students, ByEmail, ident)
  }

  /** On a table with unique key columns, a lookup by a column finds the one
      student holding that value. */
  lemma FindByUnique(students: seq<Student>, k: Key, s: Student)
    requires UniqueStudents(students) && s in students
    ensures FindBy(students, k, KeyOf(s, k)) == Some(s)
  {
    var r := FindBy(students, k, KeyOf(s, k));
    var i :| 0 <= i < |students| && students[i] == r.value;
    var j :| 0 <= j < |students| && students[j] == s;
  }

  /** Logging in with a student's id, Aadhar number, mobile number or email
      finds that student, unless a column tried earlier holds the same
      value for some student. */
  lemma LookupResolvesEachKey(students: seq<Student>, s: Student)
    requires UniqueStudents(students) && s in students
    ensures LookupStudent(students, s.id) == Some(s)
    ensures !HasKey(students, ById, s.aadhar) ==> LookupStudent(students, s.aadhar) == Some(s)
    ensures !HasKey(students, ById, s.mobile) && !HasKey(students, ByAadhar, s.mobile)
            ==> LookupStudent(students, s.mobile) == Some(s)
    ensures !HasKey(students, ById, s.email) && !HasKey(students, ByAadhar, s.email)
            && !HasKey(students, ByMobile, s.email)
            ==> LookupStudent(students, s.email) == Some(s)
  {
    FindByUnique(students, ById, s);
    FindByUnique(students, ByAadhar, s);
    FindByUnique(students, ByMobile, s);
    FindByUnique(students, ByEmail, s);
  }

  /** `student and check_password(password, student.password)`. */
  function Authenticate(students: seq<Student>, ident: string, password: string,
                        checkPassword: (string, string) -> bool): (r: Option<Student>)
    ensures r.Some? ==> r == LookupStudent(students, ident) && checkPassword(password, r.value.password)
    ensures r.None? ==> LookupStudent(students, ident).None?
                        || !checkPassword(password, LookupStudent(students, ident).value.password)
  {
    match LookupStudent(students, ident)
    case Some(s) => if checkPassword(password, s.password) then Some(s) else None
    case None => None
  }

  datatype LoginOutcome = AlreadyLoggedIn | LoggedIn(studentId: string) | InvalidCredentials

  /** What a POST to student_login decides. */
  function Login(session: SessionData, students: seq<Student>, ident: string, password: string,
                 checkPassword: (string, string) -> bool): (r: LoginOutcome)
    ensures SignedIn(session) <==> r == AlreadyLoggedIn
    ensures r.LoggedIn? ==> exists s :: s in students && s.id == r.studentId
                                        && checkPassword(password, s.password)
    ensures r.LoggedIn? <==> !SignedIn(session) && Authenticate(students, ident, password, checkPassword).Some?
    ensures r.LoggedIn? ==> r.studentId == Authenticate(students, ident, password, checkPassword).value.id
  {
    if SignedIn(session) then AlreadyLoggedIn
    else match Authenticate(students, ident, password, checkPassword)
      case Some(s) => LoggedIn(s.id)
      case None => InvalidCredentials
  }

  /** student_login on a POST: the session gets student_id and
      student_logged_in only when the identifier resolves and the password
      checks; otherwise it is left as it was. */
  method StudentLogin(session: Session, students: seq<Student>, ident: string, password: string,
                      checkPassword: (string, string) -> bool) returns (outcome: LoginOutcome)
    modifies session
    ensures outcome == Login(old(session.Data()), students, ident, password, checkPassword)
    ensures outcome.LoggedIn? ==> session.Data() == SessionData(Some(outcome.studentId), true)
    ensures !outcome.LoggedIn? ==> session.Data() == old(session.Data())
  {
    outcome := Login(session.Data(), students, ident, password, checkPassword);
    if outcome.LoggedIn? {
      session.studentId := Some(outcome.studentId);
      session.loggedIn := true;
    }
  }

  // ---------------------------------------------------------------------
  // The gate at the top of every student view

  /** Redirect to student_login, or Http404 from get_object_or_404. */
  datatype Stop = LoginRequired | NotFound

  datatype Access = Denied(why: Stop) | Granted(student: Student)

  /** The login checks and get_object_or_404(Student, id=student_id). */
  function CurrentStudent(session: SessionData, students: seq<Student>): (r: Access)
    ensures r == Denied(LoginRequired) <==> !SignedIn(session)
    ensures r == Denied(NotFound) <==> SignedIn(session) && !HasKey(students, ById, session.studentId.value)
    ensures r.Granted? ==> r.student in students && session.studentId == Some(r.student.id)
  {
    if !SignedIn(session) then Denied(LoginRequired)
    else match FindBy(students, ById, session.studentId.value)
      case None => Denied(NotFound)
      case Some(s) => Granted(s)
  }

  // ---------------------------------------------------------------------
  // apply_bus_pass: month name to expiry date

  /** The English month names, as strftime('%B') writes them. */
  const MonthNames: seq<string> := [
    "January", "February", "March", "April", "May", "June", "July",
    "August", "September", "October", "November", "December"]

  /** date.today().strftime('%B'): a name the month chain of apply_bus_pass
      maps back to m. */
  function MonthName(m: int): (r: string)
    requires 1 <= m <= 12
    ensures r in MonthNames
    ensures forall todayMonth :: ExpiryMonth(r, todayMonth) == m
  {
    MonthNames[m - 1]
  }

  /** The if/elif chain from the selected month name to its number; an
      unknown name falls back to today's month. */
  function ExpiryMonth(month: string, todayMonth: int): (m: int)
    ensures month in MonthNames ==> 1 <= m <= 12 && MonthNames[m - 1] == month
    ensures month !in MonthNames ==> m == todayMonth
    ensures 1 <= todayMonth <= 12 ==> 1 <= m <= 12
  {
    if month == "January" then 1
    else if month == "February" then 2
    else if month == "March" then 3
    else if month == "April" then 4
    else if month == "May" then 5
    else if month == "June" then 6
    else if month == "July" then 7
    else if month == "August" then 8
    else if month == "September" then 9
    else if month == "October" then 10
    else if month == "November" then 11
    else if month == "December" then 12
    else todayMonth
  }

  /** "January".."December" map to 1..12 in order. */
  lemma ExpiryMonthInOrder(k: int, todayMonth: int)
    requires 1 <= k <= 12
    ensures ExpiryMonth(MonthNames[k - 1], todayMonth) == k
  {
    assert MonthNames[k - 1] in MonthNames;
  }

  /** The last day of the month, with a year % 4 leap rule. */
  function LastDay(m: int, year: int): (d: int)
    ensures 28 <= d <= 31
    ensures d == 31 <==> m in {1, 3, 5, 7, 8, 10, 12}
    ensures d == 30 <==> m in {4, 6, 9, 11}
    ensures d == 29 <==> m !in {1, 3, 5, 7, 8, 10, 12, 4, 6, 9, 11} && year % 4 == 0
  {
    if m in [1, 3, 5, 7, 8, 10, 12] then 31
    else if m in [4, 6, 9, 11] then 30
    else if year % 4 == 0 then 29
    else 28
  }

  /** The year % 4 rule agrees with the Gregorian calendar except for
      February of a century year not divisible by 400, where it gives 29
      for a month of 28 days. */
  lemma LastDayAgainstCalendar(m: int, year: int)
    requires 1 <= m <= 12
    ensures LastDay(m, year) == DaysInMonth(year, m) <==> !(m == 2 && year % 100 == 0 && year % 400 != 0)
    ensures m == 2 && year % 100 == 0 && year % 400 != 0
            ==> LastDay(m, year) == 29 && DaysInMonth(year, m) == 28
  {
  }

  /** The expiry date apply_bus_pass computes for the selected month: the
      last day of that month in today's year. None where date() raises
      ValueError: February of a century year not divisible by 400. */
  function ExpiryDate(month: string, today: Date): (r: Option<Date>)
    requires ValidDate(today)
    ensures r.None? <==> (ExpiryMonth(month, today.month) == 2
                          && today.year % 100 == 0 && today.year % 400 != 0)
    ensures r.Some? ==> && r.value.year == today.year
                        && r.value.month == ExpiryMonth(month, today.month)
                        && r.value.day == DaysInMonth(today.year, r.value.month)
                        && ValidDate(r.value)
  {
    var year := today.year;
    var m := ExpiryMonth(month, today.month);
    LastDayAgainstCalendar(m, year);
    MakeDate(year, m, LastDay(m, year))
  }

  // ---------------------------------------------------------------------
  // apply_bus_pass: QR payload

  /** The six fields of the QR payload, in order. */
  function QrFields(p: Pass, student: Student, route: Route): seq<string>
    requires ValidDate(p.expiryDate)
  {
    [p.id, student.id, student.fullname, route.name, p.month, IsoFormat(p.expiryDate)]
  }

  /** f"{id}|{student.id}|{fullname}|{route.name}|{month}|{expiry_date}". */
  function QrPayload(p: Pass, student: Student, route: Route): (r: string)
    requires ValidDate(p.expiryDate)
    ensures r == p.id + "|" + student.id + "|" + student.fullname + "|" + route.name + "|"
                 + p.month + "|" + IsoFormat(p.expiryDate)
  {
    var iso := IsoFormat(p.expiryDate);
    assert Join([p.month, iso], '|') == p.month + "|" + iso;
    assert Join([route.name, p.month, iso], '|') == route.name + "|" + (p.month + "|" + iso);
    assert Join([student.fullname, route.name, p.month, iso], '|')
        == student.fullname + "|" + (route.name + "|" + (p.month + "|" + iso));
    assert Join([student.id, student.fullname, route.name, p.month, iso], '|')
        == student.id + "|" + (student.fullname + "|" + (route.name + "|" + (p.month + "|" + iso)));
    Join(QrFields(p, student, route), '|')
  }

  /** A reader splitting the payload on '|' gets back the six fields in
      order, and the expiry date from the last, when none of the five text
      fields contains '|'. */
  lemma QrPayloadFields(p: Pass, student: Student, route: Route)
    requires ValidDate(p.expiryDate)
    requires '|' !in p.id && '|' !in student.id && '|' !in student.fullname
    requires '|' !in route.name && '|' !in p.month
    ensures Split(QrPayload(p, student, route), '|')
         == [p.id, student.id, student.fullname, route.name, p.month, IsoFormat(p.expiryDate)]
    ensures |Split(QrPayload(p, student, route), '|')| == 6
    ensures ParseIso(Split(QrPayload(p, student, route), '|')[5]) == p.expiryDate
  {
    SplitJoin(QrFields(p, student, route), '|');
    IsoRoundTrip(p.expiryDate);
  }

  /** The name the QR image is saved under (upload_to='qr_codes/'). */
  function QrImageName(passId: string): (r: string)
    ensures |r| == |passId| + 25
    ensures r[..|"qr_codes/bus_pass_qr_"|] == "qr_codes/bus_pass_qr_"
    ensures r[|"qr_codes/bus_pass_qr_"|..|r| - 4] == passId
    ensures r[|r| - 4..] == ".png"
  {
    "qr_codes/" + "bus_pass_qr_" + passId + ".png"
  }

  // ---------------------------------------------------------------------
  // apply_bus_pass: the guard, the lookups and the creation

  predicate IsActiveFor(p: Pass, studentId: string, month: string) {
    p.studentId == studentId && p.month == month && (p.status == Pending || p.status == Approved)
  }

  /** BusPass.objects.filter(student=..., month=..., status__in=['pending',
      'approved']).first() under ordering '-created_at': the newest match. */
  function NewestActivePass(passes: seq<Pass>, studentId: string, month: string): (r: Option<Pass>)
    ensures r.Some? ==> r.value in passes && IsActiveFor(r.value, studentId, month)
    ensures r.None? <==> forall p :: p in passes ==> !IsActiveFor(p, studentId, month)
  {
    if passes == [] then None
    else if IsActiveFor(passes[|passes| - 1], studentId, month) then Some(passes[|passes| - 1])
    else
      var r := NewestActivePass(passes[..|passes| - 1], studentId, month);
      assert forall p :: p in passes ==> p == passes[|passes| - 1] || p in passes[..|passes| - 1];
      r
  }

  /** get_object_or_404(Route, id=route_id); is_active is not consulted. */
  function FindRoute(routes: seq<Route>, id: nat): (r: Option<Route>)
    ensures r.Some? ==> r.value in routes && r.value.id == id
    ensures r.None? <==> forall rt :: rt in routes ==> rt.id != id
  {
    if routes == [] then None
    else if routes[0].id == id then Some(routes[0])
    else
      var r := FindRoute(routes[1..], id);
      assert forall rt :: rt in routes ==> rt == routes[0] || rt in routes[1..];
      r
  }

  /** RoutePrice.objects.filter(route=route, month=month). */
  function PricesFor(prices: seq<MonthPrice>, routeId: nat, month: string): (r: seq<MonthPrice>)
    ensures forall p :: p in r <==> p in prices && p.routeId == routeId && p.month == month
    ensures forall p :: multiset(r)[p]
                     == if p.routeId == routeId && p.month == month then multiset(prices)[p] else 0
  {
    if prices == [] then []
    else
      assert prices == [prices[0]] + prices[1..];
      (if prices[0].routeId == routeId && prices[0].month == month then [prices[0]] else [])
      + PricesFor(prices[1..], routeId, month)
  }

  /** The row BusPass.objects.create writes: status 'pending', no receipt,
      no QR image yet. */
  function NewPass(id: string, studentId: string, routeId: nat, month: string,
                   issueDate: Date, expiryDate: Date): (r: Pass)
    ensures r.status == Pending
    ensures r.paymentReceipt.None? && r.qrCode.None?
    ensures r.approvedBy.None? && r.approvedAt.None? && r.rejectedBy.None? && r.rejectedAt.None?
    ensures r.id == id && r.studentId == studentId && r.routeId == routeId && r.month == month
    ensures r.issueDate == issueDate && r.expiryDate == expiryDate && r.notes == ""
  {
    Pass(id, studentId, routeId, month, issueDate, expiryDate, Pending,
         None, None, None, None, None, None, "")
  }

  datatype ApplyOutcome =
    | ApplyStopped(why: Stop)               // redirect to login, or Http404
    | AlreadyHasPass(existing: Status)      // redirect to the dashboard
    | PriceNotFound                         // RoutePrice.DoesNotExist: redirect back
    | MultiplePrices                        // RoutePrice.MultipleObjectsReturned, not caught
    | InvalidExpiry                         // ValueError from date(), not caught
    | Applied(created: Pass, qrPayload: string)

  /** A POST to apply_bus_pass. The duplicate guard looks at today's month,
      whatever month is selected. */
  function ApplyDecision(session: SessionData, db: Tables, routeId: nat, month: string,
                        today: Date, newId: string): (r: ApplyOutcome)
    requires ValidDate(today)
    ensures r.AlreadyHasPass? <==>
      (CurrentStudent(session, db.students).Granted?
       && exists p :: (p in db.passes
                       && IsActiveFor(p, session.studentId.value, MonthName(today.month))))
    ensures |PricesFor(db.prices, routeId, month)| == 0 ==> !r.Applied?
    ensures r.Applied? ==>
      && CurrentStudent(session, db.students).Granted?
      && FindRoute(db.routes, routeId).Some?
      && |PricesFor(db.prices, routeId, month)| == 1
      && Some(r.created.studentId) == session.studentId
      && r.created.id == newId && r.created.routeId == routeId && r.created.month == month
      && r.created.status == Pending && r.created.issueDate == today
      && Some(r.created.expiryDate) == ExpiryDate(month, today)
      && r.created.paymentReceipt.None?
      && r.created.qrCode == Some(QrImageName(newId))
      && r.qrPayload == QrPayload(r.created, CurrentStudent(session, db.students).student,
                                  FindRoute(db.routes, routeId).value)
    ensures r.AlreadyHasPass? ==>
      && CurrentStudent(session, db.students).Granted?
      && exists p :: (p in db.passes && p.status == r.existing
                      && IsActiveFor(p, session.studentId.value, MonthName(today.month)))
  {
    match CurrentStudent(session, db.students)
    case Denied(why) => ApplyStopped(why)
    case Granted(student) =>
      match NewestActivePass(db.passes, student.id, MonthName(today.month))
      case Some(existing) => AlreadyHasPass(existing.status)
      case None =>
        match FindRoute(db.routes, routeId)
        case None => ApplyStopped(NotFound)
        case Some(route) =>
          var matching := PricesFor(db.prices, routeId, month);
          if |matching| == 0 then PriceNotFound
          else if |matching| > 1 then MultiplePrices
          else match ExpiryDate(month, today)
            case None => InvalidExpiry
            case Some(expiry) =>
              var created := NewPass(newId, student.id, routeId, month, today, expiry);
              Applied(created.(qrCode := Some(QrImageName(newId))), QrPayload(created, student, route))
  }

  /** Every guard passing is enough: a signed-in student with no pending or
      approved pass for today's month, an existing route (active or not)
      and exactly one price row gets a pass, unless the expiry date is not
      a calendar date. */
  lemma ApplySucceeds(session: SessionData, db: Tables, routeId: nat, month: string,
                      today: Date, newId: string)
    requires ValidDate(today)
    requires CurrentStudent(session, db.students).Granted?
    requires forall p :: p in db.passes ==> !IsActiveFor(p, session.studentId.value, MonthName(today.month))
    requires exists rt :: rt in db.routes && rt.id == routeId
    requires |PricesFor(db.prices, routeId, month)| == 1
    requires ExpiryDate(month, today).Some?
    ensures ApplyDecision(session, db, routeId, month, today, newId).Applied?
  {
    var rt :| rt in db.routes && rt.id == routeId;
    assert FindRoute(db.routes, routeId).Some?;
  }

  /** The guard does not stop a second application for the same month when
      that month is not the current one: two pending passes result. */
  lemma SecondApplicationForOtherMonth(session: SessionData, db: Tables, routeId: nat,
                                       month: string, today: Date, id1: string, id2: string)
    requires ValidDate(today)
    requires month != MonthName(today.month)
    requires ApplyDecision(session, db, routeId, month, today, id1).Applied?
    ensures var first := ApplyDecision(session, db, routeId, month, today, id1).created;
            var second := ApplyDecision(session, db.(passes := db.passes + [first]), routeId, month, today, id2);
            second.Applied? && second.created.month == first.month
            && second.created.studentId == first.studentId
  {
    var first := ApplyDecision(session, db, routeId, month, today, id1).created;
    var db2 := db.(passes := db.passes + [first]);
    var sid := session.studentId.value;
    assert first.month != MonthName(today.month);
    assert forall p :: p in db2.passes ==> p == first || p in db.passes;
    assert forall p :: p in db2.passes ==> !IsActiveFor(p, sid, MonthName(today.month));
    var rt := FindRoute(db.routes, routeId).value;
    ApplySucceeds(session, db2, routeId, month, today, id2);
  }

  /** Applying for February in a year such as 2100, divisible by 4 but not
      a Gregorian leap year, fails in date(year, 2, 29) and creates nothing,
      however the other guards turn out. */
  lemma FebruaryInCenturyYear(session: SessionData, db: Tables, routeId: nat, today: Date, newId: string)
    requires ValidDate(today) && today.year % 100 == 0 && today.year % 400 != 0
    ensures !ApplyDecision(session, db, routeId, "February", today, newId).Applied?
    ensures (CurrentStudent(session, db.students).Granted?
             && (forall p :: p in db.passes ==> !IsActiveFor(p, session.studentId.value, MonthName(today.month)))
             && (exists rt :: rt in db.routes && rt.id == routeId)
             && |PricesFor(db.prices, routeId, "February")| == 1)
            ==> ApplyDecision(session, db, routeId, "February", today, newId) == InvalidExpiry
  {
    assert ExpiryMonth("February", today.month) == 2 by {
      assert "February" == MonthNames[1];
      ExpiryMonthInOrder(2, today.month);
    }
    assert ExpiryDate("February", today).None?;
    if (exists rt :: rt in db.routes && rt.id == routeId) {
      assert FindRoute(db.routes, routeId).Some?;
    }
  }

  // ---------------------------------------------------------------------
  // upload_payment_receipt

  /** os.path.splitext on a POSIX path: the extension starts at the last
      '.' of the last path component, provided that component has a
      character other than '.' before it; otherwise it is empty. */
  function SplitExt(p: string): (r: (string, string))
    ensures r.0 + r.1 == p
    ensures r.1 != "" ==> r.1[0] == '.'
    ensures forall i :: 0 < i < |r.1| ==> r.1[i] != '.' && r.1[i] != '/'
  {
    var sep := RFind(p, '/');
    var dot := RFind(p, '.');
    if dot > sep && NonDotBetween(p, sep + 1, dot) then
      RFindIsLast(p, '/');
      RFindIsLast(p, '.');
      assert p[dot] == '.';
      (p[..dot], p[dot..])
    else (p, "")
  }

  /** Some position in lo..hi-1 holds a character other than '.': the
      leading dots of a file name do not start an extension. */
  predicate NonDotBetween(p: string, lo: int, hi: int) {
    exists j :: lo <= j < hi && 0 <= j < |p| && p[j] != '.'
  }

  /** The extension, described without splitext's search: a '.' at k with
      no '.' or '/' after it, and a character other than '.' earlier in the
      same path component. */
  predicate ExtensionAt(p: string, k: int) {
    && 0 <= k < |p| && p[k] == '.'
    && (forall i :: k < i < |p| ==> p[i] != '.' && p[i] != '/')
    && exists j :: 0 <= j < k && p[j] != '.' && forall i :: j <= i < k ==> p[i] != '/'
  }

  /** What splitext finds is an extension in the sense of ExtensionAt. */
  lemma SplitExtFound(p: string)
    requires SplitExt(p).1 != ""
    ensures ExtensionAt(p, RFind(p, '.'))
  {
    var sep, dot := RFind(p, '/'), RFind(p, '.');
    assert dot > sep && NonDotBetween(p, sep + 1, dot);
    assert p[dot] == '.';
    RFindIsLast(p, '/');
    RFindIsLast(p, '.');
    var j :| sep + 1 <= j < dot && 0 <= j < |p| && p[j] != '.';
    assert forall i :: j <= i < dot ==> p[i] != '/';
  }

  /** An extension in the sense of ExtensionAt is what splitext finds. */
  lemma SplitExtAt(p: string, k: int)
    requires ExtensionAt(p, k)
    ensures SplitExt(p).1 == p[k..]
  {
    var sep, dot := RFind(p, '/'), RFind(p, '.');
    RFindIsLast(p, '/');
    RFindIsLast(p, '.');
    var j :| 0 <= j < k && p[j] != '.' && forall i :: j <= i < k ==> p[i] != '/';
    assert dot >= 0 ==> p[dot] == '.';
    assert sep >= 0 ==> p[sep] == '/';
    assert dot == k;
    assert sep < j;
    assert NonDotBetween(p, sep + 1, dot);
  }

  /** splitext finds an extension exactly when one exists in the sense of
      ExtensionAt, and then it is that one. */
  lemma SplitExtMeaning(p: string)
    ensures SplitExt(p).1 != "" <==> exists k :: ExtensionAt(p, k)
    ensures forall k :: ExtensionAt(p, k) ==> SplitExt(p).1 == p[k..]
  {
    if SplitExt(p).1 != "" {
      SplitExtFound(p);
    }
    forall k | ExtensionAt(p, k) ensures SplitExt(p).1 == p[k..] {
      SplitExtAt(p, k);
    }
  }

  const AllowedExtensions: seq<string> := [".jpg", ".jpeg", ".png", ".pdf"]

  /** `os.path.splitext(receipt.name)[1].lower() in allowed_extensions`. */
  /** The name ends, up to case, with one of the allowed extensions. */
  predicate EndsWithAllowed(filename: string) {
    exists e :: e in AllowedExtensions && |e| <= |filename| && Lower(filename[|filename| - |e|..]) == e
  }

  function ReceiptTypeAllowed(filename: string): (r: bool)
    ensures r ==> |filename| >= 4
  {
    Lower(SplitExt(filename).1) in AllowedExtensions
  }

  /** An accepted name ends, up to case, with one of the allowed extensions. */
  lemma ReceiptEndsWithAllowed(filename: string)
    ensures ReceiptTypeAllowed(filename) ==> EndsWithAllowed(filename)
  {
    var ext := SplitExt(filename).1;
    assert filename[|filename| - |ext|..] == ext;
  }

  /** A receipt is accepted iff its name has an extension and that
      extension, lower-cased, is .jpg, .jpeg, .png or .pdf. */
  lemma ReceiptTypeAllowedMeaning(filename: string)
    ensures ReceiptTypeAllowed(filename)
        <==> exists k :: ExtensionAt(filename, k) && Lower(filename[k..]) in AllowedExtensions
  {
    var e := SplitExt(filename).1;
    if ReceiptTypeAllowed(filename) {
      assert Lower(e) != "";
      SplitExtFound(filename);
      SplitExtAt(filename, RFind(filename, '.'));
    }
    forall k | ExtensionAt(filename, k) ensures e == filename[k..] {
      SplitExtAt(filename, k);
    }
  }

  /** A file name made of a stem that does not start with '.' and one
      extension is judged on that extension alone, lower-cased. */
  lemma ReceiptByExtension(stem: string, ext: string)
    requires stem != [] && stem[0] != '.' && '/' !in stem
    requires ext != [] && ext[0] == '.' && '.' !in ext[1..] && '/' !in ext
    ensures ReceiptTypeAllowed(stem + ext) <==> Lower(ext) in AllowedExtensions
  {
    var p := stem + ext;
    assert forall i :: 0 <= i < |stem| ==> p[i] == stem[i];
    assert forall i :: |stem| < i < |p| ==> p[i] == ext[1..][i - |stem| - 1];
    assert ExtensionAt(p, |stem|);
    SplitExtAt(p, |stem|);
    assert p[|stem|..] == ext;
  }

  /** An upper-case allowed extension passes: the check lower-cases it. */
  lemma ReceiptUpperCaseAccepted(stem: string)
    requires stem != [] && stem[0] != '.' && '/' !in stem
    ensures ReceiptTypeAllowed(stem + ".PDF")
  {
    ReceiptByExtension(stem, ".PDF");
    var l := Lower(".PDF");
    assert l[0] == '.' && l[1] == 'p' && l[2] == 'd' && l[3] == 'f';
    assert l == ".pdf";
  }

  /** Only the last extension counts: an allowed one before it does not help. */
  lemma ReceiptDoubleExtensionRefused(stem: string)
    requires stem != [] && stem[0] != '.' && '/' !in stem
    ensures !ReceiptTypeAllowed(stem + ".pdf" + ".exe")
  {
    ReceiptByExtension(stem + ".pdf", ".exe");
    var l := Lower(".exe");
    assert l[0] == '.' && l[1] == 'e' && l[2] == 'x' && l[3] == 'e';
    assert l == ".exe";
  }

  /** A leading-dot name such as ".pdf" has no extension, so it is refused. */
  lemma ReceiptDotFileRefused(name: string)
    requires '.' !in name && '/' !in name
    ensures SplitExt("." + name).1 == ""
    ensures !ReceiptTypeAllowed("." + name)
  {
    var p := "." + name;
    assert SplitExt(p).1 == "" by {
      assert forall i :: 0 < i < |p| ==> p[i] == name[i - 1];
      assert RFind(p, '/') == -1;
      RFindIsLast(p, '.');
      assert RFind(p, '.') == 0;
      assert !NonDotBetween(p, 0, 0);
    }
    assert Lower(SplitExt(p).1) == "";
  }

  /** get_object_or_404(BusPass, id=pass_id, student=student). */
  function FindOwnedPass(passes: seq<Pass>, passId: string, studentId: string): (r: Option<Pass>)
    ensures r.Some? ==> r.value in passes && r.value.id == passId && r.value.studentId == studentId
    ensures r.None? <==> forall p :: p in passes ==> !(p.id == passId && p.studentId == studentId)
  {
    if passes == [] then None
    else if passes[0].id == passId && passes[0].studentId == studentId then Some(passes[0])
    else
      var r := FindOwnedPass(passes[1..], passId, studentId);
      assert forall p :: p in passes ==> p == passes[0] || p in passes[1..];
      r
  }

  datatype UploadOutcome =
    | UploadStopped(why: Stop)       // redirect to login, or Http404
    | ShowForm                       // not a POST carrying payment_receipt
    | InvalidFileType                // the form again, with an error
    | Uploaded(receipt: string)      // the stored file name

  /** upload_payment_receipt. The pass's status is not consulted: a receipt
      can be replaced on an approved or rejected pass too. */
  function UploadDecision(session: SessionData, db: Tables, passId: string,
                                upload: Option<string>): (r: UploadOutcome)
    ensures r == InvalidFileType <==>
      (CurrentStudent(session, db.students).Granted?
       && FindOwnedPass(db.passes, passId, session.studentId.value).Some?
       && upload.Some? && !ReceiptTypeAllowed(upload.value))
    ensures r.Uploaded? ==>
      && CurrentStudent(session, db.students).Granted?
      && (exists p :: p in db.passes && p.id == passId && p.studentId == session.studentId.value)
      && upload.Some? && ReceiptTypeAllowed(upload.value)
      && r.receipt == ReceiptPath(session.studentId.value, passId, upload.value)
  {
    match CurrentStudent(session, db.students)
    case Denied(why) => UploadStopped(why)
    case Granted(student) =>
      match FindOwnedPass(db.passes, passId, student.id)
      case None => UploadStopped(NotFound)
      case Some(p) =>
        match upload
        case None => ShowForm
        case Some(name) =>
          if !ReceiptTypeAllowed(name) then InvalidFileType
          else Uploaded(ReceiptPath(student.id, p.id, name))
  }

  /** The passes after `bus_pass.payment_receipt = receipt; bus_pass.save()`. */
  function WithReceipt(passes: seq<Pass>, passId: string, receipt: string): (r: seq<Pass>)
    ensures |r| == |passes|
    ensures forall i :: (0 <= i < |passes| && passes[i].id == passId
                         ==> r[i] == passes[i].(paymentReceipt := Some(receipt)))
    ensures forall i :: 0 <= i < |passes| && passes[i].id != passId ==> r[i] == passes[i]
  {
    seq(|passes|, i requires 0 <= i < |passes| =>
      if passes[i].id == passId then passes[i].(paymentReceipt := Some(receipt)) else passes[i])
  }

  /** For an owned pass, whatever its status, the file's extension alone
      decides: an allowed one is stored as the receipt, any other is
      refused. */
  lemma UploadIgnoresStatus(session: SessionData, db: Tables, passId: string, name: string)
    requires CurrentStudent(session, db.students).Granted?
    requires exists p :: p in db.passes && p.id == passId && p.studentId == session.studentId.value
    ensures UploadDecision(session, db, passId, Some(name))
         == Uploaded(ReceiptPath(session.studentId.value, passId, name))
        <==> ReceiptTypeAllowed(name)
    ensures !ReceiptTypeAllowed(name) ==> UploadDecision(session, db, passId, Some(name)) == InvalidFileType
  {
  }

  // ---------------------------------------------------------------------
  // download_bus_pass

  datatype DownloadOutcome =
    | DownloadStopped(why: Stop)     // redirect to login, or Http404
    | NotApproved                    // redirect to the dashboard
    | Pdf(filename: string)          // the attachment

  /** download_bus_pass up to the rendering: only an approved pass of the
      signed-in student yields a document. */
  function DownloadBusPass(session: SessionData, db: Tables, passId: string): (r: DownloadOutcome)
    ensures r.Pdf? ==> r.filename == "bus_pass_" + passId + ".pdf"
    ensures r.Pdf? ==> (CurrentStudent(session, db.students).Granted?
                        && exists p :: (p in db.passes && p.id == passId
                                        && Some(p.studentId) == session.studentId
                                        && p.status == Approved))
    ensures r == NotApproved ==> exists p :: (p in db.passes && p.id == passId
                                              && Some(p.studentId) == session.studentId
                                              && p.status != Approved)
  {
    match CurrentStudent(session, db.students)
    case Denied(why) => DownloadStopped(why)
    case Granted(student) =>
      match FindOwnedPass(db.passes, passId, student.id)
      case None => DownloadStopped(NotFound)
      case Some(p) =>
        if p.status != Approved then NotApproved
        else Pdf("bus_pass_" + p.id + ".pdf")
  }

  /** With pass ids unique, an owned pass yields a document iff it is
      approved: pending and rejected passes yield none. */
  lemma DownloadGate(session: SessionData, db: Tables, p: Pass)
    requires UniquePassIds(db.passes)
    requires CurrentStudent(session, db.students).Granted?
    requires p in db.passes && p.studentId == session.studentId.value
    ensures DownloadBusPass(session, db, p.id).Pdf? <==> p.status == Approved
    ensures p.status != Approved ==> DownloadBusPass(session, db, p.id) == NotApproved
  {
    var q := FindOwnedPass(db.passes, p.id, p.studentId).value;
    var i :| 0 <= i < |db.passes| && db.passes[i] == p;
    var j :| 0 <= j < |db.passes| && db.passes[j] == q;
  }

  // ---------------------------------------------------------------------
  // The store the views write

  /** A pass whose id is new keeps the ids unique. */
  lemma AppendFreshPass(passes: seq<Pass>, p: Pass)
    requires UniquePassIds(passes)
    requires forall q :: q in passes ==> q.id != p.id
    ensures UniquePassIds(passes + [p])
  {
    var r := passes + [p];
    forall i, j | 0 <= i < j < |r| ensures r[i].id != r[j].id {
      if j == |passes| {
        assert r[i] in passes;
      }
    }
  }

  /** Saving onto the row just appended replaces that row. */
  lemma ReplaceLast(passes: seq<Pass>, row: Pass, saved: Pass)
    ensures (passes + [row])[|passes| := saved] == passes + [saved]
  {
  }

  /** Setting a receipt keeps every id. */
  lemma WithReceiptKeepsIds(passes: seq<Pass>, passId: string, receipt: string)
    requires UniquePassIds(passes)
    ensures UniquePassIds(WithReceipt(passes, passId, receipt))
  {
    var r := WithReceipt(passes, passId, receipt);
    assert forall i :: 0 <= i < |r| ==> r[i].id == passes[i].id;
  }

  class Store {
    var students: seq<Student>
    var routes: seq<Route>
    var prices: seq<MonthPrice>
    var passes: seq<Pass>

    function Snapshot(): Tables
      reads this
    {
      Tables(students, routes, prices, passes)
    }

    ghost predicate Valid()
      reads this
    {
      TablesValid(Snapshot())
    }

    constructor (students: seq<Student>, routes: seq<Route>, prices: seq<MonthPrice>)
      requires UniqueStudents(students) && UniqueRouteIds(routes)
      ensures Valid()
      ensures Snapshot() == Tables(students, routes, prices, [])
    {
      this.students := students;
      this.routes := routes;
      this.prices := prices;
      this.passes := [];
    }

    /** apply_bus_pass on a POST: BusPass.objects.create, then the QR image
        saved onto the new row; nothing is written on any other outcome.
        newId is the fresh uuid4 the id column defaults to. */
    method ApplyBusPass(session: SessionData, routeId: nat, month: string, today: Date, newId: string)
      returns (outcome: ApplyOutcome)
      requires Valid() && ValidDate(today)
      requires forall p :: p in passes ==> p.id != newId
      modifies this`passes
      ensures Valid()
      ensures outcome == ApplyDecision(session, old(Snapshot()), routeId, month, today, newId)
      ensures outcome.Applied? ==> passes == old(passes) + [outcome.created]
      ensures !outcome.Applied? ==> passes == old(passes)
    {
      outcome := ApplyDecision(session, Snapshot(), routeId, month, today, newId);
      if outcome.Applied? {
        var pass := outcome.created;
        AppendFreshPass(passes, pass);
        ReplaceLast(passes, pass.(qrCode := None), pass);
        passes := passes + [pass.(qrCode := None)];
        passes := passes[|passes| - 1 := pass];
      }
    }

    /** upload_payment_receipt: on an accepted upload the pass's
        payment_receipt becomes the stored file name; a rejected extension
        leaves every pass as it was. */
    method UploadPaymentReceipt(session: SessionData, passId: string, upload: Option<string>)
      returns (outcome: UploadOutcome)
      requires Valid()
      modifies this`passes
      ensures Valid()
      ensures outcome == UploadDecision(session, old(Snapshot()), passId, upload)
      ensures outcome.Uploaded? ==> passes == WithReceipt(old(passes), passId, outcome.receipt)
      ensures !outcome.Uploaded? ==> passes == old(passes)
    {
      outcome := UploadDecision(session, Snapshot(), passId, upload);
      if outcome.Uploaded? {
        WithReceiptKeepsIds(passes, passId, outcome.receipt);
        passes := WithReceipt(passes, passId, outcome.receipt);
      }
    }
  }
}
