# College bus pass: a Dafny model of its business rules

This project models the rules that the views, the admin and the models of the
college bus-pass Django app enforce around a bus pass. It covers:

- student login by id, Aadhar number, mobile number or email;
- the session gate that every student view opens with;
- applying for a monthly pass:
  - the duplicate guard;
  - the price lookup;
  - the month-to-expiry-date computation;
  - the creation of the pending pass;
  - the QR payload and image name;
- uploading a payment receipt, with its extension whitelist;
- the approval gate in front of the PDF download;
- the admin's bulk approve/reject actions;
- the admin student form's password hashing and its field list;
- the model layer:
  - the status and semester choices and their defaults;
  - the digit-count validators;
  - the receipt upload path;
  - the RoutePrice (route, semester) uniqueness;
  - the `__str__` formats.

The views and the admin work on the monthly schema, where a pass has a `month`.
models.py declares the semester schema, where a pass has a `semester`. Each is
modelled as its code is written:
- `Views.Pass` and `Views.MonthPrice` are the monthly records.
- `Models.BusPass`, `Models.RoutePrice` and `Models.MultiSemesterApplication` are the semester records.

The monthly models module is not part of this model. The fields of `Views.Pass`
that views.py reads and writes are id, student, route, month, the two dates,
status, payment receipt and QR code. The approver, rejecter and notes fields
are carried over from the semester schema. Its receipt path is the
`upload_pass_receipt_path` of models.py.

Layout:

- `common.dfy` (`Common`): the pieces of Python's `str` and `list` the rules
  rely on:
  - `Option`;
  - ASCII digits and lower-casing;
  - `join`/`split` on one character;
  - `list.index`, `str.rfind`;
  - `%d` / `%0Nd` rendering.
- `calendar.dfy` (`Calendar`): `datetime.date`:
  - the Gregorian calendar the constructor checks;
  - `str(date)` and its inverse.
- `models.dfy` (`Models`): buspass/models.py.
- `views.dfy` (`Views`): buspass/views.py.
  - Each view is a pure decision function over the tables: `ApplyDecision`,
    `UploadDecision`, `DownloadBusPass`, `Login`.
  - `StudentLogin` writes the `Session` object.
  - The `Store` class holds the tables. Its methods `ApplyBusPass` and
    `UploadPaymentReceipt` write them in place, and their contracts tie the
    new state to the decision functions.
  - `Store.Valid()` is what the database's primary keys and unique columns
    guarantee.
- `admin.dfy` (`Admin`): buspass/admin.py. The bulk actions and the form save
  are methods that change a `Store`.

Things that are parameters:
- today's date;
- the new pass's uuid;
- `make_password` and `check_password`;
- the uploaded file's name.

Behaviours of the code the model keeps:
- An approved or rejected pass is not final. The admin bulk actions overwrite
  `status` whatever it was (`Admin.LastActionWins`).
- The bulk actions do not set `approved_by`/`approved_at`.
- The route chosen for an application need not be active (`Views.ApplySucceeds`).
- The duplicate guard compares against the current month, not the month
  applied for (`Views.SecondApplicationForOtherMonth`).
- The last day of February follows `year % 4 == 0`. In a year such as 2100,
  `date(2100, 2, 29)` raises, so applying for February fails and creates no
  pass (`Views.FebruaryInCenturyYear`).

## Model

| member | source | states |
|---|---|---|
| Common.Lower | buspass/views.py:236 | `.lower()` keeps the length and lower-cases each ASCII letter, leaving every other character alone |
| Common.IndexOf | buspass/admin.py:39 | `list.index`: the first position holding the item, and None exactly when the item is absent (the ValueError) |
| Common.RFind | buspass/views.py:236 | `str.rfind` as splitext uses it: -1 or a position holding the character |
| Common.RFindIsLast | buspass/views.py:236 | no position after the one rfind reports holds the character |
| Common.Split | buspass/views.py:185 | splitting a QR payload on a vertical bar gives at least one piece, no piece holds the separator, and joining the pieces gives the text back |
| Common.SplitJoin | buspass/views.py:185 | joining separator-free fields and splitting again gives exactly the fields back |
| Common.ZeroPad | buspass/views.py:185 | the `%0Nd` text of a date part is all digits and exactly N wide when the number fits |
| Common.ZeroPadValue | buspass/views.py:185 | the zero-padded text reads back as the number |
| Common.NatToStringValue | buspass/models.py:108 | `str(n)` reads back as n |
| Calendar.DaysInMonth | buspass/views.py:173 | the Gregorian month lengths `date()` checks: 28..31, and 29 exactly for February of a leap year |
| Calendar.MakeDate | buspass/views.py:173 | `date(y, m, d)` succeeds exactly for a valid calendar date and then holds those three values |
| Calendar.IsoFormat | buspass/views.py:185 | `str(date)` is ten characters `YYYY-MM-DD` with digit fields and no vertical bar |
| Calendar.IsoRoundTrip | buspass/views.py:185 | the expiry date's ISO text at the end of the QR payload determines the date |
| Models.ParseStatus | buspass/models.py:126-130 | a stored status value is a status exactly when it is one of pending/approved/rejected, and reads back to that value |
| Models.FullMatch | buspass/models.py:17-22 | the anchored matcher accepts only strings of lo to hi characters, all of them digits |
| Models.StatusRoundTrip | buspass/models.py:85-89 | every status is stored as one of the three choices and reads back as itself |
| Models.FullMatchMeaning | buspass/models.py:17-22 | the anchored `^\d{lo,hi}$` matcher accepts exactly the digit strings whose length is in lo..hi |
| Models.RunValidator | buspass/models.py:17-22 | a RegexValidator passes exactly the digit strings of an allowed length, and otherwise reports its message |
| Models.ValidateAadhar | buspass/models.py:17-19 | an Aadhar value is valid iff it is exactly 12 digits |
| Models.ValidateMobile | buspass/models.py:20-22 | a mobile value is valid iff it is exactly 10 digits |
| Models.ValidateDriverContact | buspass/models.py:40-42 | a driver contact is valid iff it is 10 to 15 digits |
| Models.Student.Str | buspass/models.py:28-29 | the student text starts with the full name and ends with " (" id ")" |
| Models.Route.Str | buspass/models.py:49-50 | the route text is the source, " → ", the destination, then " (" name ")", each at its place |
| Models.NewRoute | buspass/models.py:35-45 | a new route is active, its driver is "TBD" and its default contact passes the driver-contact validator |
| Models.RoutePriceStr | buspass/models.py:72-73 | the price text is the route name, " - ", the semester, ": ₹", then the two-decimal price, each at its place |
| Models.PriceText | buspass/models.py:73 | the price is shown as rupee digits, a '.', and exactly two digits |
| Models.PriceTextValue | buspass/models.py:73 | the shown price reads back as the amount: rupees times 100 plus the two digits |
| Models.AddRoutePrice | buspass/models.py:57-67 | a price row is added iff its semester is one of Semester-1..6 and no row has its (route, semester), and adding keeps the table invariant |
| Models.PriceRows | buspass/models.py:76 | a (route, semester) filter keeps each row with that route and semester as many times as the table has it, and no other row |
| Models.AtMostOnePrice | buspass/models.py:76 | under unique_together a (route, semester) lookup finds at most one row |
| Models.ReceiptPath | buspass/models.py:80-82 | the receipt path starts with "receipts/" and ends with the file name |
| Models.ReceiptPathPieces | buspass/models.py:80-82 | split on '/', the path is "receipts", the student id, the record id, then the file name's pieces |
| Models.ReceiptPathInjective | buspass/models.py:80-82 | two receipts share a path only when student, record and file name agree |
| Models.NewBusPass | buspass/models.py:132-145 | a new pass is pending, has no receipt, QR code, approver or rejecter, and keeps the given fields |
| Models.BusPassStr | buspass/models.py:149-150 | the pass text is the student name, " - ", the route name, " - ", then the semester, each at its place |
| Models.NewMultiSemesterApplication | buspass/models.py:91-103 | a new application is pending with no receipt, approver or rejecter |
| Models.ApplicationStr | buspass/models.py:107-108 | the application text is the student name, " - ", the route name, " - ", `str(len(semesters))`, then " semesters", each at its place |
| Models.ApplicationStrShowsLength | buspass/models.py:94-108 | for every application the number shown reads back as the length of the serialised semesters text, not the number of semesters |
| Models.ApplicationStrCountsCharacters | buspass/models.py:94-108 | the count shown is the length of the serialised text: two semesters show as 28 |
| Views.FindBy | buspass/views.py:42-54 | a lookup on one column returns a student holding the identifier there, and nothing exactly when no student does |
| Views.LookupStudent | buspass/views.py:39-56 | id is tried first, then Aadhar, then mobile, then email; the first column holding the identifier decides; nothing is found exactly when no column of any student holds it |
| Views.FindByUnique | buspass/views.py:42-54 | on unique columns a lookup finds the one student holding the value |
| Views.LookupResolvesEachKey | buspass/views.py:39-56 | a student's id, Aadhar, mobile or email each log that student in unless an earlier column of some student holds the same value |
| Views.Authenticate | buspass/views.py:58 | a student is authenticated only if the cascade finds one and the password checks against its stored hash |
| Views.Login | buspass/views.py:29-65 | an already signed-in session short-cuts; otherwise login succeeds exactly when authentication does, and logs in the student the id/Aadhar/mobile/email cascade found, whose password checks |
| Views.StudentLogin | buspass/views.py:58-65 | the session gets student_id and student_logged_in only on success and is untouched otherwise |
| Views.CurrentStudent | buspass/views.py:110-119 | redirect to login exactly when the session lacks the flag or the id, 404 exactly when no student has that id, else that student |
| Views.ExpiryMonth | buspass/views.py:151-163 | a month name gives its number (its position in January..December), any other text today's month, so 1..12 whenever today's month is |
| Views.MonthName | buspass/views.py:122 | the current month's name is one of January..December, and the month chain maps it back to the month's number |
| Views.ExpiryMonthInOrder | buspass/views.py:151-162 | January..December map to 1..12 in order |
| Views.LastDay | buspass/views.py:165-171 | 31 for 1,3,5,7,8,10,12; 30 for 4,6,9,11; 29 for February iff year % 4 == 0, else 28 |
| Views.LastDayAgainstCalendar | buspass/views.py:171 | the year % 4 rule agrees with the calendar except February of a century year not divisible by 400 (29 against 28) |
| Views.ExpiryDate | buspass/views.py:150-173 | the expiry is the true last day of the selected month in today's year, and there is none exactly for February of such a century year |
| Views.QrPayloadFields | buspass/views.py:185 | the payload splits on a vertical bar into pass id, student id, full name, route name, month and expiry date, six fields, and the last reads back as the expiry |
| Views.QrImageName | buspass/views.py:203-204 | the QR image is stored as "qr_codes/bus_pass_qr_", then the pass id, then ".png" |
| Views.QrPayload | buspass/views.py:185 | the payload is the pass id, student id, full name, route name, month and ISO expiry date joined by a vertical bar |
| Views.NewestActivePass | buspass/views.py:121-127 | the guard finds a pending or approved pass of the student for the month, and none exactly when there is none |
| Views.FindRoute | buspass/views.py:140 | the route with that id, active or not, and none exactly when no route has it |
| Views.NewPass | buspass/views.py:176-182 | a created pass is pending, has no receipt, QR code, approver or rejecter, and keeps the given fields |
| Views.PricesFor | buspass/views.py:143-144 | the price rows for that route and month, each as many times as the table has it, and no other row |
| Views.ApplyDecision | buspass/views.py:108-185 | refused with the status of an existing pass exactly when the student has a pending or approved pass for the current month; never created without a price; a created pass is pending, for the student, route and month chosen, issued today, expiring at the computed date, with no receipt, and its QR payload is built from that pass, the student and the route |
| Views.ApplySucceeds | buspass/views.py:140-182 | every guard passing is enough for a pass to be created, whether or not the route is active |
| Views.SecondApplicationForOtherMonth | buspass/views.py:121-131 | the guard lets a second application for the same non-current month through |
| Views.FebruaryInCenturyYear | buspass/views.py:171-173 | applying for February of a year such as 2100 never creates a pass, and fails in date() once the other guards pass |
| Views.SplitExt | buspass/views.py:236 | root plus extension is the name; the extension is empty or a '.' followed by neither '.' nor '/' |
| Views.SplitExtFound | buspass/views.py:236 | what splitext returns is an extension in the path's last component with a non-dot character before it |
| Views.SplitExtAt | buspass/views.py:236 | every such extension is what splitext returns |
| Views.SplitExtMeaning | buspass/views.py:236 | splitext finds an extension iff one exists, and then it is that one |
| Views.ReceiptTypeAllowedMeaning | buspass/views.py:235-237 | a receipt is accepted iff its name has an extension and it, lower-cased, is .jpg, .jpeg, .png or .pdf |
| Views.ReceiptTypeAllowed | buspass/views.py:235-237 | an accepted name has at least four characters, room for one of the allowed extensions |
| Views.ReceiptEndsWithAllowed | buspass/views.py:235-237 | an accepted name ends, up to case, with one of .jpg, .jpeg, .png or .pdf |
| Views.ReceiptByExtension | buspass/views.py:235-237 | a stem plus one extension is judged on that extension alone |
| Views.ReceiptUpperCaseAccepted | buspass/views.py:236-237 | an upper-case .PDF is accepted |
| Views.ReceiptDoubleExtensionRefused | buspass/views.py:236-237 | name.pdf.exe is refused: only the last extension counts |
| Views.ReceiptDotFileRefused | buspass/views.py:236-237 | a leading-dot name such as .pdf has no extension and is refused |
| Views.FindOwnedPass | buspass/views.py:229 | the pass with that id owned by the student, none exactly when no such pass |
| Views.UploadDecision | buspass/views.py:217-242 | the file type is refused exactly for an owned pass and a file whose extension is not allowed; an accepted receipt is stored under receipts/ student / pass / name |
| Views.WithReceipt | buspass/views.py:241-242 | the pass with that id gets the receipt and nothing else changes |
| Views.UploadIgnoresStatus | buspass/views.py:229-242 | for an owned pass of any status, the upload is stored as its receipt iff the extension is allowed, and refused otherwise |
| Views.DownloadBusPass | buspass/views.py:253-269 | a document named bus_pass_ id .pdf only for an approved pass the signed-in student owns; a refusal only for an owned pass that is not approved |
| Views.DownloadGate | buspass/views.py:265-269 | with unique pass ids, an owned pass gives a document iff approved; pending and rejected give NotApproved |
| Views.Store.ApplyBusPass | buspass/views.py:176-204 | exactly one pass, the decided one, is appended on success and nothing is written otherwise; ids stay unique |
| Views.Store.UploadPaymentReceipt | buspass/views.py:231-242 | an accepted upload sets that pass's receipt; a rejected one leaves every pass as it was |
| Admin.WithStatus | buspass/admin.py:76 | selected passes get the new status and keep every other field, rejected or approved alike; unselected passes are untouched |
| Admin.WithStatusIdempotent | buspass/admin.py:75-81 | each bulk action applied twice is applied once |
| Admin.LastActionWins | buspass/admin.py:75-81 | of two bulk actions on the same passes the later decides: approve-then-reject ends rejected |
| Admin.ApproveSelected | buspass/admin.py:75-76 | the store's passes become the bulk-approved passes, and ids stay unique |
| Admin.RejectSelected | buspass/admin.py:79-80 | the store's passes become the bulk-rejected passes, and ids stay unique |
| Admin.FormPassword | buspass/admin.py:17-18 | the saved password is the hash of a non-empty entry, else the empty entry |
| Admin.IndexOfId | buspass/admin.py:20 | the row with that primary key, none exactly when no student has it |
| Admin.Upsert | buspass/admin.py:20 | saving inserts the student exactly when no row has its id, and otherwise replaces a row with its id; every row with another id stays in place |
| Admin.UpsertKeepsUnique | buspass/admin.py:19-20 | saving a student whose unique columns clash with no one keeps all columns unique, keeps every other student, and leaves one row with the id |
| Admin.SaveStudentForm | buspass/admin.py:14-21 | the returned student carries the hashed password when one was entered; the table changes only when commit is true |
| Admin.GetFields | buspass/admin.py:35-40 | with 'password' present, a second 'password' goes where 'email' was: one longer, original order around it, 'password' now at least twice; ValueError without 'email'; unchanged without 'password' |

## Left out

- HTTP and session plumbing is not modelled: `render`, `redirect`, `messages`, the GET form pages, `logout_view` and the URL configuration. Each view's redirects and 404s are reduced to the outcome they stand for.
- `student_dashboard`, `home` and `admin_reports` are left out: they only count, render or redirect.
- QR image rendering (buspass/views.py:186-200) and PDF layout (buspass/views.py:271-326) are foreign libraries. Only the payload, the stored image name and the attachment's file name are modelled.
- File storage is left out: the name collisions the storage resolves, and the `os.path.exists` check.
- Views.UploadDecision: the receipt is the path `upload_pass_receipt_path` returns, before the storage renames it. Django's storage replaces spaces with underscores, drops characters outside `[-\w.]`, and adds a suffix on a name collision.
- `make_password` and `check_password` are left out: they are the `hash` and `checkPassword` parameters.
- Timestamps (`auto_now`, `created_at` ordering) are not modelled. Today's date and the new uuid are parameters.
- Decimal prices are whole numbers of paise; no arithmetic is done on them.
- Models.MultiSemesterApplication: models.py gives the multi-semester application only its fields, defaults and `__str__`, and those are what is modelled.
- Python regex details are not modelled: `\d` also matches non-ASCII digits and `$` accepts a trailing newline. The validators accept ASCII digits only.
- `str.lower` is modelled on ASCII letters only.
- `os.path.splitext` is the POSIX version (only '/' separates components).
- EmailField validation, `max_length` and the routes' arrival times are not modelled.
- Views.FindBy: MultipleObjectsReturned from `Student.objects.get` is not modelled, because the looked-up columns are unique (`Store.Valid`).
- Views.Store.ApplyBusPass, Views.Store.UploadPaymentReceipt: they take the session as a value, because neither view writes the session.
- Views.Store.ApplyBusPass: requires that the new id is unused, which uuid4 is taken to guarantee.
- Admin.SaveStudentForm: requires that the student's unique columns clash with no other student, which the form's uniqueness validation has checked before `save` runs.
- Models.ApplicationStrCountsCharacters: assumes JSON text with ", " separators for the serialised list; the serialisation code is not part of this model.
- The admin list, filter, search and ordering options are presentation only and are not modelled.
