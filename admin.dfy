/** buspass/admin.py: the bulk approve/reject actions of BusPassAdmin, the
    password handling of StudentAdminForm.save, and the field list of
    StudentAdmin.get_fields. The actions and the form write the tables of a
    Views.Store in place. */
module Admin {
  import opened Common
  import opened Models
  import opened Views

  // ---------------------------------------------------------------------
  // BusPassAdmin.approve_selected / reject_selected

  /** The passes after queryset.update(status=s) on the selected ids: each
      selected pass has status s and is otherwise as it was; every other
      pass is untouched. */
  function WithStatus(passes: seq<Pass>, selected: set<string>, s: Status): (r: seq<Pass>)
    ensures |r| == |passes|
    ensures forall i :: (0 <= i < |passes| && passes[i].id in selected
                         ==> r[i].status == s && r[i].(status := passes[i].status) == passes[i])
    ensures forall i :: 0 <= i < |passes| && passes[i].id !in selected ==> r[i] == passes[i]
  {
    if passes == [] then []
    else
      [if passes[0].id in selected then passes[0].(status := s) else passes[0]]
      + WithStatus(passes[1..], selected, s)
  }

  /** A bulk action never changes ids, so they stay unique. */
  lemma WithStatusKeepsIds(passes: seq<Pass>, selected: set<string>, s: Status)
    requires UniquePassIds(passes)
    ensures UniquePassIds(WithStatus(passes, selected, s))
  {
    var r := WithStatus(passes, selected, s);
    assert forall i :: 0 <= i < |r| ==> r[i].id == passes[i].id;
  }

  /** Running the same action twice is running it once. */
  lemma {:induction false} WithStatusIdempotent(passes: seq<Pass>, selected: set<string>, s: Status)
    ensures WithStatus(WithStatus(passes, selected, s), selected, s) == WithStatus(passes, selected, s)
  {
    if passes != [] {
      WithStatusIdempotent(passes[1..], selected, s);
      assert WithStatus(passes, selected, s)[1..] == WithStatus(passes[1..], selected, s);
    }
  }

  /** Of two actions on the same selection the later one decides: approving
      and then rejecting leaves every selected pass rejected, and the other
      way round. No status is final. */
  lemma {:induction false} LastActionWins(passes: seq<Pass>, selected: set<string>, first: Status, second: Status)
    ensures WithStatus(WithStatus(passes, selected, first), selected, second)
         == WithStatus(passes, selected, second)
  {
    if passes != [] {
      LastActionWins(passes[1..], selected, first, second);
      assert WithStatus(passes, selected, first)[1..] == WithStatus(passes[1..], selected, first);
    }
  }

  /** approve_selected: every selected pass becomes 'approved', whatever its
      status was, rejected included; approved_by, approved_at and the
      other fields are left alone. */
  method ApproveSelected(store: Store, selected: set<string>)
    requires store.Valid()
    modifies store`passes
    ensures store.Valid()
    ensures store.passes == WithStatus(old(store.passes), selected, Approved)
  {
    WithStatusKeepsIds(store.passes, selected, Approved);
    store.passes := WithStatus(store.passes, selected, Approved);
  }

  /** reject_selected: every selected pass becomes 'rejected', whatever its
      status was, approved included. */
  method RejectSelected(store: Store, selected: set<string>)
    requires store.Valid()
    modifies store`passes
    ensures store.Valid()
    ensures store.passes == WithStatus(old(store.passes), selected, Rejected)
  {
    WithStatusKeepsIds(store.passes, selected, Rejected);
    store.passes := WithStatus(store.passes, selected, Rejected);
  }

  // ---------------------------------------------------------------------
  // StudentAdminForm.save

  /** The password the saved student carries: the hash of the entered text
      when that text is non-empty, otherwise the entered text as the form
      copied it onto the instance. */
  function FormPassword(entered: string, hash: string -> string): (r: string)
    ensures entered != "" ==> r == hash(entered)
    ensures entered == "" ==> r == ""
  {
    if entered != "" then hash(entered) else entered
  }

  /** The unique columns of s clash with no other student (ModelForm's
      validate_unique has passed). */
  predicate NoConflict(students: seq<Student>, s: Student) {
    forall t :: t in students && t.id != s.id
      ==> t.aadhar != s.aadhar && t.mobile != s.mobile && t.email != s.email
  }

  /** The first position of a student with the given id. */
  function IndexOfId(students: seq<Student>, id: string): (r: Option<nat>)
    ensures r.None? <==> forall t :: t in students ==> t.id != id
    ensures r.Some? ==> r.value < |students| && students[r.value].id == id
  {
    if students == [] then None
    else if students[0].id == id then Some(0)
    else match IndexOfId(students[1..], id)
      case None =>
        assert forall t :: t in students ==> t == students[0] || t in students[1..];
        None
      case Some(k) =>
        assert students[k + 1] == students[1..][k];
        Some(k + 1)
  }

  /** student.save(): an UPDATE of the row with that primary key, or an
      INSERT when there is none. */
  function Upsert(students: seq<Student>, s: Student): (r: seq<Student>)
    ensures s in r
    ensures |r| == |students| || |r| == |students| + 1
    ensures |r| == |students| + 1 <==> forall t :: t in students ==> t.id != s.id
    ensures |r| == |students| + 1 ==> r == students + [s]
    ensures |r| == |students| ==>
      exists i :: 0 <= i < |students| && students[i].id == s.id && r == students[i := s]
    ensures forall i :: 0 <= i < |students| && students[i].id != s.id ==> r[i] == students[i]
  {
    match IndexOfId(students, s.id)
    case Some(i) =>
      assert students[i := s][i] == s;
      students[i := s]
    case None => students + [s]
  }

  /** Saving a student whose unique columns clash with no other student
      keeps every unique column unique, keeps every other student, and
      leaves exactly one row with that id. */
  lemma UpsertKeepsUnique(students: seq<Student>, s: Student)
    requires UniqueStudents(students) && NoConflict(students, s)
    ensures UniqueStudents(Upsert(students, s))
    ensures forall t :: t in students && t.id != s.id ==> t in Upsert(students, s)
    ensures forall t :: t in Upsert(students, s) && t.id == s.id ==> t == s
  {
    var r := Upsert(students, s);
    match IndexOfId(students, s.id)
    case Some(i) =>
      assert r == students[i := s];
      forall a, b | 0 <= a < b < |r|
        ensures r[a].id != r[b].id && r[a].aadhar != r[b].aadhar
        ensures r[a].mobile != r[b].mobile && r[a].email != r[b].email
      {
        if a == i {
          assert students[b] in students && students[b].id != s.id;
        } else if b == i {
          assert students[a] in students && students[a].id != s.id;
        }
      }
      forall t | t in students && t.id != s.id ensures t in r {
        var k :| 0 <= k < |students| && students[k] == t;
        assert r[k] == t;
      }
      forall t | t in r && t.id == s.id ensures t == s {
        var k :| 0 <= k < |r| && r[k] == t;
      }
    case None =>
      assert r == students + [s];
      forall a, b | 0 <= a < b < |r|
        ensures r[a].id != r[b].id && r[a].aadhar != r[b].aadhar
        ensures r[a].mobile != r[b].mobile && r[a].email != r[b].email
      {
        if b == |students| {
          assert students[a] in students;
        }
      }
      forall t | t in r && t.id == s.id ensures t == s {
        var k :| 0 <= k < |r| && r[k] == t;
      }
  }

  /** StudentAdminForm.save(commit): the form's instance gets the hashed
      password when one was entered, and is written to the table only when
      commit is true; the instance is returned either way. `cleaned` is the
      instance the form built, its password field holding the entered
      text; `hash` stands for make_password. */
  method SaveStudentForm(store: Store, cleaned: Student, commit: bool, hash: string -> string)
    returns (student: Student)
    requires store.Valid() && NoConflict(store.students, cleaned)
    modifies store`students
    ensures student == cleaned.(password := FormPassword(cleaned.password, hash))
    ensures commit ==> store.students == Upsert(old(store.students), student)
    ensures !commit ==> store.students == old(store.students)
    ensures store.Valid()
  {
    student := cleaned;
    if cleaned.password != "" {
      student := student.(password := hash(cleaned.password));
    }
    if commit {
      assert NoConflict(store.students, student);
      UpsertKeepsUnique(store.students, student);
      store.students := Upsert(store.students, student);
    }
  }

  // ---------------------------------------------------------------------
  // StudentAdmin.get_fields

  /** get_fields on the field names the base admin returns. When 'password'
      is among them, a second 'password' is inserted where 'email' stands;
      None is the ValueError list.index raises when 'email' is missing.
      Otherwise the list is returned as it came. */
  method GetFields(fields: seq<string>) returns (r: Option<seq<string>>)
    ensures "password" !in fields ==> r == Some(fields)
    ensures r.None? <==> "password" in fields && "email" !in fields
    ensures "password" in fields && r.Some? ==>
      var k := IndexOf(fields, "email").value;
      && |r.value| == |fields| + 1
      && r.value[k] == "password" && r.value[k + 1] == "email"
      && r.value[..k] + r.value[k + 1..] == fields
      && multiset(r.value) == multiset(fields) + multiset{"password"}
      && multiset(r.value)["password"] >= 2
  {
    if "password" in fields {
      var list := fields;
      var k := IndexOf(list, "email");
      if k.None? {
        return None;
      }
      var i := k.value;
      assert list[..i] + list[i..] == list;
      list := list[..i] + ["password"] + list[i..];
      assert list[..i] + list[i + 1..] == fields;
      r := Some(list);
    } else {
      r := Some(fields);
    }
  }
}
