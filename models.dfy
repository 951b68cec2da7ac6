/** buspass/models.py, the semester-based schema: the status and semester
    choice sets with their defaults, the RegexValidators on the Aadhar,
    mobile and driver-contact fields, the receipt upload path, the
    RoutePrice (route, semester) uniqueness constraint and the __str__
    formats of the records. */
module Models {
  import opened Common
  import opened Calendar

  // ---------------------------------------------------------------------
  // Choice sets and defaults

  /** STATUS_CHOICES of BusPass and MultiSemesterBusPassApplication. */
  datatype Status = Pending | Approved | Rejected {
    /** The value stored in the status column. */
    function Value(): string {
      match this
      case Pending => "pending"
      case Approved => "approved"
      case Rejected => "rejected"
    }
  }

  const StatusChoices: seq<string> := ["pending", "approved", "rejected"]

  /** Reading the status column back: only the three choices are statuses. */
  function ParseStatus(value: string): (r: Option<Status>)
    ensures r.Some? <==> value in StatusChoices
    ensures r.Some? ==> r.value.Value() == value
  {
    if value == "pending" then Some(Pending)
    else if value == "approved" then Some(Approved)
    else if value == "rejected" then Some(Rejected)
    else None
  }

  /** Every status is stored as one of the choices and reads back as itself. */
  lemma StatusRoundTrip(s: Status)
    ensures s.Value() in StatusChoices
    ensures ParseStatus(s.Value()) == Some(s)
  {
  }

  /** SEMESTER_CHOICES of RoutePrice and BusPass. */
  const SemesterChoices: seq<string> :=
    ["Semester-1", "Semester-2", "Semester-3", "Semester-4", "Semester-5", "Semester-6"]

  // ---------------------------------------------------------------------
  // RegexValidators: ^\d{lo,hi}$

  /** The anchored pattern ^\d{lo,hi}$ (^\d{n}$ is DigitPattern(n, n)). */
  datatype DigitPattern = DigitPattern(lo: nat, hi: nat)

  const AadharPattern := DigitPattern(12, 12)
  const MobilePattern := DigitPattern(10, 10)
  const DriverContactPattern := DigitPattern(10, 15)

  const AadharMessage := "Aadhar number must be 12 digits"
  const MobileMessage := "Mobile number must be 10 digits"
  const DriverContactMessage := "Driver contact number must be 10 to 15 digits"

  /** The regex engine on ^\d{lo,hi}$: consume one digit at a time, never
      more than hi of them, and accept at the end of the input once at
      least lo were consumed. */
  function FullMatch(p: DigitPattern, s: string): (r: bool)
    ensures r ==> p.lo <= |s| <= p.hi
    ensures r ==> forall i :: 0 <= i < |s| ==> IsDigit(s[i])
    decreases |s|
  {
    if s == [] then p.lo == 0
    else if p.hi == 0 || !IsDigit(s[0]) then false
    else
      assert forall i :: 1 <= i < |s| ==> s[i] == s[1..][i - 1];
      FullMatch(DigitPattern(if p.lo == 0 then 0 else p.lo - 1, p.hi - 1), s[1..])
  }

  /** ^\d{lo,hi}$ matches exactly the digit strings of length lo..hi. */
  lemma {:induction false} FullMatchMeaning(p: DigitPattern, s: string)
    ensures FullMatch(p, s) <==> p.lo <= |s| <= p.hi && AllDigits(s)
    decreases |s|
  {
    if s != [] {
      if p.hi > 0 {
        var q := DigitPattern(if p.lo == 0 then 0 else p.lo - 1, p.hi - 1);
        FullMatchMeaning(q, s[1..]);
        assert AllDigits(s) <==> IsDigit(s[0]) && AllDigits(s[1..]) by {
          if IsDigit(s[0]) && AllDigits(s[1..]) {
            forall i | 0 <= i < |s| ensures IsDigit(s[i]) {
              if i > 0 { assert s[i] == s[1..][i - 1]; }
            }
          }
        }
      }
    }
  }

  /** RegexValidator(regex, message) on one value: the message when the
      value does not match. */
  function RunValidator(p: DigitPattern, message: string, value: string): (r: Option<string>)
    ensures r.None? <==> p.lo <= |value| <= p.hi && AllDigits(value)
    ensures r.Some? ==> r.value == message
  {
    FullMatchMeaning(p, value);
    if FullMatch(p, value) then None else Some(message)
  }

  /** Student.aadhar: valid iff exactly 12 digits. */
  function ValidateAadhar(value: string): (r: Option<string>)
    ensures r.None? <==> |value| == 12 && AllDigits(value)
    ensures r.Some? ==> r.value == AadharMessage
  {
    RunValidator(AadharPattern, AadharMessage, value)
  }

  /** Student.mobile: valid iff exactly 10 digits. */
  function ValidateMobile(value: string): (r: Option<string>)
    ensures r.None? <==> |value| == 10 && AllDigits(value)
    ensures r.Some? ==> r.value == MobileMessage
  {
    RunValidator(MobilePattern, MobileMessage, value)
  }

  /** Route.driver_contact: valid iff 10 to 15 digits. */
  function ValidateDriverContact(value: string): (r: Option<string>)
    ensures r.None? <==> 10 <= |value| <= 15 && AllDigits(value)
    ensures r.Some? ==> r.value == DriverContactMessage
  {
    RunValidator(DriverContactPattern, DriverContactMessage, value)
  }

  // ---------------------------------------------------------------------
  // Records

  /** Student (the password column holds a hash). */
  datatype Student = Student(
    id: string, fullname: string, className: string, clgId: int,
    address: string, route1: string, dateOfBirth: Date,
    aadhar: string, mobile: string, email: string, password: string)
  {
    /** __str__: "<fullname> (<id>)". */
    function Str(): (r: string)
      ensures |r| == |fullname| + |id| + 3
      ensures r[..|fullname|] == fullname
      ensures r[|fullname|..] == " (" + id + ")"
    {
      fullname + " (" + id + ")"
    }
  }

  /** Route; the arrival times are left out. */
  datatype Route = Route(
    id: nat, name: string, source: string, destination: string,
    driverName: string, driverContact: string, isActive: bool)
  {
    /** __str__: "<source> → <destination> (<name>)". */
    function Str(): (r: string)
      ensures |r| == |source| + |destination| + |name| + 6
      ensures r[..|source|] == source
      ensures r[|source|..|source| + 3] == " → "
      ensures r[|source| + 3..|r| - |name| - 3] == destination
      ensures r[|r| - |name| - 3..] == " (" + name + ")"
    {
      var r := source + " → " + destination + " (" + name + ")";
      assert r == (source + " → " + destination) + (" (" + name + ")");
      r
    }
  }

  /** A route as created with only name, source and destination given:
      driver "TBD", contact "0000000000", active. */
  function NewRoute(id: nat, name: string, source: string, destination: string): (r: Route)
    ensures r.isActive && r.driverName == "TBD"
    ensures ValidateDriverContact(r.driverContact).None?
    ensures r.id == id && r.name == name && r.source == source && r.destination == destination
  {
    Route(id, name, source, destination, "TBD", "0000000000", true)
  }

  /** RoutePrice (the DecimalField price kept as a whole number of paise). */
  datatype RoutePrice = RoutePrice(routeId: nat, semester: string, pricePaise: nat)

  /** The text of a two-decimal price: the rupees, a '.', and exactly two
      digits of paise. */
  function PriceText(paise: nat): (r: string)
    ensures |r| >= 4 && r[|r| - 3] == '.'
    ensures AllDigits(r[..|r| - 3]) && AllDigits(r[|r| - 2..])
  {
    var rupees := NatToString(paise / 100);
    var cents := ZeroPad(paise % 100, 2);
    assert Pow10(2) == 100;
    var r := rupees + "." + cents;
    assert r[..|r| - 3] == rupees && r[|r| - 2..] == cents;
    r
  }

  /** The price text reads back as the amount: rupees times 100 plus the
      two digits after the '.'. */
  lemma PriceTextValue(paise: nat)
    ensures var r := PriceText(paise);
            DigitsValue(r[..|r| - 3]) * 100 + DigitsValue(r[|r| - 2..]) == paise
  {
    var rupees := NatToString(paise / 100);
    var cents := ZeroPad(paise % 100, 2);
    assert Pow10(2) == 100;
    NatToStringValue(paise / 100);
    ZeroPadValue(paise % 100, 2);
    var r := PriceText(paise);
    assert r == rupees + "." + cents;
    assert r[..|r| - 3] == rupees && r[|r| - 2..] == cents;
  }

  /** Each piece of a five-part concatenation sits at its own offset. */
  lemma FivePieces(a: string, b: string, c: string, d: string, e: string)
    ensures var r := a + b + c + d + e;
            && r[..|a|] == a && r[|a|..|a| + |b|] == b
            && r[|a| + |b|..|a| + |b| + |c|] == c
            && r[|a| + |b| + |c|..|r| - |e|] == d
            && r[|r| - |e|..] == e
  {
    var r := a + b + c + d + e;
    assert r == a + (b + (c + (d + e)));
  }

  /** RoutePrice.__str__: "<route name> - <semester>: ₹<price>". */
  function RoutePriceStr(routeName: string, p: RoutePrice): (r: string)
    ensures |r| == |routeName| + |p.semester| + |PriceText(p.pricePaise)| + 6
    ensures r[..|routeName|] == routeName
    ensures r[|routeName|..|routeName| + 3] == " - "
    ensures r[|routeName| + 3..|routeName| + 3 + |p.semester|] == p.semester
    ensures r[|routeName| + 3 + |p.semester|..|r| - |PriceText(p.pricePaise)|] == ": ₹"
    ensures r[|r| - |PriceText(p.pricePaise)|..] == PriceText(p.pricePaise)
  {
    var price := PriceText(p.pricePaise);
    FivePieces(routeName, " - ", p.semester, ": ₹", price);
    routeName + " - " + p.semester + ": ₹" + price
  }

  /** The table invariant on RoutePrice: unique_together (route, semester),
      and every semester one of SEMESTER_CHOICES. */
  predicate PricesValid(rows: seq<RoutePrice>) {
    && (forall i :: 0 <= i < |rows| ==> rows[i].semester in SemesterChoices)
    && (forall i, j :: 0 <= i < j < |rows| ==>
          (rows[i].routeId, rows[i].semester) != (rows[j].routeId, rows[j].semester))
  }

  datatype PriceError = InvalidChoice | NotUnique

  /** Saving a new RoutePrice through its model form: the choice check,
      then validate_unique on (route, semester), then the insert. */
  function AddRoutePrice(rows: seq<RoutePrice>, row: RoutePrice): (r: PriceInsert)
    ensures r.Added? <==> (row.semester in SemesterChoices
      && forall i :: 0 <= i < |rows| ==> (rows[i].routeId, rows[i].semester) != (row.routeId, row.semester))
    ensures r.Added? ==> r.rows == rows + [row]
    ensures PricesValid(rows) && r.Added? ==> PricesValid(r.rows)
  {
    if row.semester !in SemesterChoices then Refused(InvalidChoice)
    else if exists i :: 0 <= i < |rows| && (rows[i].routeId, rows[i].semester) == (row.routeId, row.semester)
    then Refused(NotUnique)
    else Added(rows + [row])
  }

  datatype PriceInsert = Added(rows: seq<RoutePrice>) | Refused(error: PriceError)

  /** The rows RoutePrice.objects.filter(route=..., semester=...) returns. */
  function PriceRows(rows: seq<RoutePrice>, routeId: nat, semester: string): (r: seq<RoutePrice>)
    ensures forall p :: p in r <==> p in rows && p.routeId == routeId && p.semester == semester
    ensures forall p :: multiset(r)[p]
                     == if p.routeId == routeId && p.semester == semester then multiset(rows)[p] else 0
  {
    if rows == [] then []
    else
      assert rows == [rows[0]] + rows[1..];
      (if rows[0].routeId == routeId && rows[0].semester == semester then [rows[0]] else [])
      + PriceRows(rows[1..], routeId, semester)
  }

  /** Under the table invariant a (route, semester) lookup finds at most
      one row, so RoutePrice.objects.get never sees two. */
  lemma {:induction false} AtMostOnePrice(rows: seq<RoutePrice>, routeId: nat, semester: string)
    requires PricesValid(rows)
    ensures |PriceRows(rows, routeId, semester)| <= 1
  {
    if rows != [] {
      var tail := rows[1..];
      assert PricesValid(tail) by {
        forall i, j | 0 <= i < j < |tail|
          ensures (tail[i].routeId, tail[i].semester) != (tail[j].routeId, tail[j].semester)
        {
          assert tail[i] == rows[i + 1] && tail[j] == rows[j + 1];
        }
      }
      AtMostOnePrice(tail, routeId, semester);
      if rows[0].routeId == routeId && rows[0].semester == semester {
        forall j | 0 <= j < |tail|
          ensures (tail[j].routeId, tail[j].semester) != (routeId, semester)
        {
          assert tail[j] == rows[j + 1];
        }
        NoMatchingRows(tail, routeId, semester);
      }
    }
  }

  lemma {:induction false} NoMatchingRows(rows: seq<RoutePrice>, routeId: nat, semester: string)
    requires forall j :: 0 <= j < |rows| ==> (rows[j].routeId, rows[j].semester) != (routeId, semester)
    ensures PriceRows(rows, routeId, semester) == []
  {
    if rows != [] {
      NoMatchingRows(rows[1..], routeId, semester);
    }
  }

  // ---------------------------------------------------------------------
  // Receipt upload path

  /** upload_pass_receipt_path: receipts/<student id>/<record id>/<filename>. */
  function ReceiptPath(studentId: string, recordId: string, filename: string): (r: string)
    ensures |r| >= 9 && r[..9] == "receipts/"
    ensures |r| >= |filename| && r[|r| - |filename|..] == filename
  {
    "receipts/" + studentId + "/" + recordId + "/" + filename
  }

  /** Three separator-free pieces in front of a tail split off one by one. */
  lemma SplitThree(a: string, b: string, c: string, tail: string, sep: char)
    requires sep !in a && sep !in b && sep !in c
    ensures Split(a + [sep] + (b + [sep] + (c + [sep] + tail)), sep) == [a, b, c] + Split(tail, sep)
  {
    var rest := Split(tail, sep);
    SplitFirst(c, sep, tail);
    SplitFirst(b, sep, c + [sep] + tail);
    SplitFirst(a, sep, b + [sep] + (c + [sep] + tail));
    assert [a] + ([b] + ([c] + rest)) == [a, b, c] + rest;
  }

  /** Splitting the path on '/' gives "receipts", the student id, the record
      id and then the pieces of the file name, when the ids hold no '/'. */
  lemma ReceiptPathPieces(studentId: string, recordId: string, filename: string)
    requires '/' !in studentId && '/' !in recordId
    ensures Split(ReceiptPath(studentId, recordId, filename), '/')
         == ["receipts", studentId, recordId] + Split(filename, '/')
  {
    assert ReceiptPath(studentId, recordId, filename)
        == "receipts" + ['/'] + (studentId + ['/'] + (recordId + ['/'] + filename));
    SplitThree("receipts", studentId, recordId, filename, '/');
  }

  /** Two receipts of different students or records never share a path. */
  lemma ReceiptPathInjective(s1: string, r1: string, f1: string, s2: string, r2: string, f2: string)
    requires '/' !in s1 && '/' !in r1 && '/' !in s2 && '/' !in r2
    requires ReceiptPath(s1, r1, f1) == ReceiptPath(s2, r2, f2)
    ensures s1 == s2 && r1 == r2 && f1 == f2
  {
    ReceiptPathPieces(s1, r1, f1);
    ReceiptPathPieces(s2, r2, f2);
    var a, b := Split(f1, '/'), Split(f2, '/');
    assert (["receipts", s1, r1] + a)[1] == s1 && (["receipts", s2, r2] + b)[1] == s2;
    assert (["receipts", s1, r1] + a)[2] == r1 && (["receipts", s2, r2] + b)[2] == r2;
    assert (["receipts", s1, r1] + a)[3..] == a && (["receipts", s2, r2] + b)[3..] == b;
    assert Join(a, '/') == f1 && Join(b, '/') == f2;
  }

  // ---------------------------------------------------------------------
  // BusPass and MultiSemesterBusPassApplication (semester schema)

  datatype BusPass = BusPass(
    id: string, studentId: string, routeId: nat, semester: string,
    issueDate: Date, expiryDate: Date, status: Status,
    paymentReceipt: Option<string>, qrCode: Option<string>,
    approvedBy: Option<string>, approvedAt: Option<int>,
    rejectedBy: Option<string>, rejectedAt: Option<int>, notes: string)

  /** A BusPass as created with only its required fields: status 'pending'
      and no receipt, QR code, approver, rejecter or notes. */
  function NewBusPass(id: string, studentId: string, routeId: nat, semester: string,
                      issueDate: Date, expiryDate: Date): (r: BusPass)
    ensures r.status == Pending && r.status.Value() in StatusChoices
    ensures r.paymentReceipt.None? && r.qrCode.None?
    ensures r.approvedBy.None? && r.approvedAt.None? && r.rejectedBy.None? && r.rejectedAt.None?
    ensures r.id == id && r.studentId == studentId && r.routeId == routeId && r.semester == semester
    ensures r.issueDate == issueDate && r.expiryDate == expiryDate && r.notes == ""
  {
    BusPass(id, studentId, routeId, semester, issueDate, expiryDate, Pending,
            None, None, None, None, None, None, "")
  }

  /** BusPass.__str__: "<student> - <route> - <semester>". */
  function BusPassStr(studentName: string, routeName: string, p: BusPass): (r: string)
    ensures |r| == |studentName| + |routeName| + |p.semester| + 6
    ensures r[..|studentName|] == studentName
    ensures r[|studentName|..|studentName| + 3] == " - "
    ensures r[|studentName| + 3..|r| - |p.semester| - 3] == routeName
    ensures r[|r| - |p.semester| - 3..|r| - |p.semester|] == " - "
    ensures r[|r| - |p.semester|..] == p.semester
  {
    var r := studentName + " - " + routeName + " - " + p.semester;
    assert r == studentName + (" - " + routeName) + (" - " + p.semester);
    r
  }

  /** MultiSemesterBusPassApplication; semesters is the serialised text. */
  datatype MultiSemesterApplication = MultiSemesterApplication(
    id: string, studentId: string, routeId: nat, semesters: string,
    totalPaise: nat, issueDate: Date, status: Status,
    paymentReceipt: Option<string>,
    approvedBy: Option<string>, approvedAt: Option<int>,
    rejectedBy: Option<string>, rejectedAt: Option<int>, notes: string)

  /** An application as created with only its required fields: status
      'pending' and no receipt, approver, rejecter or notes. */
  function NewMultiSemesterApplication(id: string, studentId: string, routeId: nat,
                                       semesters: string, totalPaise: nat, issueDate: Date)
    : (r: MultiSemesterApplication)
    ensures r.status == Pending
    ensures r.paymentReceipt.None?
    ensures r.approvedBy.None? && r.approvedAt.None? && r.rejectedBy.None? && r.rejectedAt.None?
    ensures r.semesters == semesters && r.totalPaise == totalPaise && r.notes == ""
  {
    MultiSemesterApplication(id, studentId, routeId, semesters, totalPaise, issueDate,
                             Pending, None, None, None, None, None, "")
  }

  /** MultiSemesterBusPassApplication.__str__: the count it shows is
      len(self.semesters), the length of the serialised text. */
  function ApplicationStr(studentName: string, routeName: string, a: MultiSemesterApplication)
    : (r: string)
    ensures |r| == |studentName| + |routeName| + |NatToString(|a.semesters|)| + 16
    ensures r[..|studentName|] == studentName
    ensures r[|studentName|..|studentName| + 3] == " - "
    ensures r[|studentName| + 3..|studentName| + 3 + |routeName|] == routeName
    ensures r[|studentName| + 3 + |routeName|..|studentName| + 6 + |routeName|] == " - "
    ensures r[|studentName| + |routeName| + 6..|r| - 10] == NatToString(|a.semesters|)
    ensures r[|r| - 10..] == " semesters"
  {
    var count := NatToString(|a.semesters|);
    var r := studentName + " - " + routeName + " - " + count + " semesters";
    assert r == studentName + (" - " + routeName) + (" - " + count) + " semesters";
    r
  }

  /** The number __str__ shows reads back as the length of the serialised
      semesters text, for every application and every name. */
  lemma ApplicationStrShowsLength(studentName: string, routeName: string, a: MultiSemesterApplication)
    ensures var r := ApplicationStr(studentName, routeName, a);
            AllDigits(r[|studentName| + |routeName| + 6..|r| - 10])
            && DigitsValue(r[|studentName| + |routeName| + 6..|r| - 10]) == |a.semesters|
  {
    NatToStringValue(|a.semesters|);
  }

  /** For an application holding Semester-1 and Semester-2, serialised as
      the JSON text ["Semester-1", "Semester-2"], __str__ reports 28
      semesters. */
  lemma ApplicationStrCountsCharacters(a: MultiSemesterApplication)
    requires a.semesters == "[\"Semester-1\", \"Semester-2\"]"
    ensures ApplicationStr("A", "R", a) == "A - R - 28 semesters"
  {
    assert |a.semesters| == 28;
    assert NatToString(28) == "28" by {
      assert NatToString(2) == "2";
    }
  }
}
