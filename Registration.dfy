/**
 * components/StudentRegistration.tsx: the case-insensitive name search over
 * the roster and the add/edit form, whose submit issues at most one request
 * to the roster (`onAdd` or `onEdit`).
 */
module Registration {
  import opened Seqs
  import opened Types
  import opened Roster

  /** `toLowerCase` on the ASCII letters; other characters are kept. */
  function LowerChar(c: char): (d: char)
    ensures 'A' <= c <= 'Z' ==> d == c - 'A' + 'a'
    ensures !('A' <= c <= 'Z') ==> d == c
  {
    if 'A' <= c <= 'Z' then c - 'A' + 'a' else c
  }

  function Lower(s: string): (r: string)
    ensures |r| == |s|
    ensures forall i :: 0 <= i < |s| ==> r[i] == LowerChar(s[i])
  {
    seq(|s|, i requires 0 <= i < |s| => LowerChar(s[i]))
  }

  /** Lowercasing twice is lowercasing once. */
  lemma LowerIdempotent(s: string)
    ensures Lower(Lower(s)) == Lower(s)
  {
  }

  /** `needle` occurs in `hay` at position `i`. */
  predicate OccursAt(hay: string, needle: string, i: int)
  {
    0 <= i && i + |needle| <= |hay| && hay[i..i + |needle|] == needle
  }

  /** `hay.includes(needle)`: tries every starting position from the left. */
  function Contains(hay: string, needle: string): (b: bool)
    ensures b <==> exists i :: OccursAt(hay, needle, i)
  {
    if needle <= hay then
      assert OccursAt(hay, needle, 0);
      true
    else if hay == [] then
      assert forall i :: !OccursAt(hay, needle, i);
      false
    else
      var b := Contains(hay[1..], needle);
      assert b ==> OccursAt(hay, needle, 1) || exists i :: OccursAt(hay, needle, i) by {
        if b {
          var i :| OccursAt(hay[1..], needle, i);
          forall t | 0 <= t < |needle|
            ensures hay[i + 1..i + 1 + |needle|][t] == needle[t]
          {
            assert hay[1..][i..i + |needle|][t] == needle[t];
          }
          assert OccursAt(hay, needle, i + 1);
        }
      }
      assert (exists i :: OccursAt(hay, needle, i)) ==> b by {
        if exists i :: OccursAt(hay, needle, i) {
          var i :| OccursAt(hay, needle, i);
          assert i != 0;
          assert hay[1..][i - 1..i - 1 + |needle|] == hay[i..i + |needle|];
          assert OccursAt(hay[1..], needle, i - 1);
        }
      }
      b
  }

  /** Every text contains the empty text. */
  lemma ContainsEmpty(hay: string)
    ensures Contains(hay, "")
  {
    assert OccursAt(hay, "", 0);
  }

  /** The search filter: the student's lowercased name contains the lowercased term. */
  predicate Matches(term: string, s: Student)
  {
    Contains(Lower(s.name), Lower(term))
  }

  /**
   * `filteredStudents` (components/StudentRegistration.tsx:21-23): exactly the
   * roster entries whose name contains the term, ignoring letter case.
   */
  function Search(students: seq<Student>, term: string): (r: seq<Student>)
    ensures forall s :: s in r <==> s in students && exists i :: OccursAt(Lower(s.name), Lower(term), i)
  {
    Filter(students, (s: Student) => Matches(term, s))
  }

  /** An empty search term lists the whole roster, in order. */
  lemma EmptySearchKeepsAll(students: seq<Student>)
    ensures Search(students, "") == students
  {
    forall k | 0 <= k < |students|
      ensures Matches("", students[k])
    {
      ContainsEmpty(Lower(students[k].name));
    }
    FilterAll(students, (s: Student) => Matches("", s));
  }

  /** The search keeps the roster order: it distributes over any split of the roster. */
  lemma SearchKeepsOrder(front: seq<Student>, back: seq<Student>, term: string)
    ensures Search(front + back, term) == Search(front, term) + Search(back, term)
  {
    FilterAppend(front, back, (s: Student) => Matches(term, s));
  }

  /** Searching for a term or for its lowercase form gives the same list. */
  lemma SearchIgnoresTermCase(students: seq<Student>, term: string)
    ensures Search(students, Lower(term)) == Search(students, term)
  {
    LowerIdempotent(term);
    assert forall s :: Matches(Lower(term), s) == Matches(term, s);
    FilterAgree(students, (s: Student) => Matches(Lower(term), s), (s: Student) => Matches(term, s));
  }

  /** What a submit asks of the roster: nothing, `onAdd(newStudent)` or `onEdit(student)`. */
  datatype Request = NoRequest | AddRequest(name: string, photo: string) | EditRequest(student: Student)

  /** `if (editingId)`: an editing id counts only when it is set and not empty. */
  predicate Editing(editingId: Option<string>)
  {
    editingId.Some? && editingId.value != ""
  }

  /**
   * The request `handleSubmit` issues (components/StudentRegistration.tsx:43-52).
   */
  function SubmitRequest(students: seq<Student>, name: string, photo: string, editingId: Option<string>): (req: Request)
    ensures name == "" || photo == "" ==> req == NoRequest
    ensures name != "" && photo != "" && !Editing(editingId) ==> req == AddRequest(name, photo)
    ensures Editing(editingId) && (forall k :: 0 <= k < |students| ==> students[k].id != editingId.value) ==> req == NoRequest
    ensures name != "" && photo != "" && Editing(editingId) ==>
              forall k :: 0 <= k < |students| && students[k].id == editingId.value && (forall j :: 0 <= j < k ==> students[j].id != editingId.value) ==>
                req == EditRequest(Student(students[k].id, name, photo, students[k].createdAt))
  {
    if name == "" || photo == "" then NoRequest
    else if Editing(editingId) then
      var original := FindStudent(students, editingId.value);
      if original.Some? then EditRequest(original.value.(name := name, photo := photo)) else NoRequest
    else AddRequest(name, photo)
  }

  /** The roster after the request, with the fresh id and creation time `addStudent` draws. */
  function ApplyRequest(students: seq<Student>, req: Request, id: string, now: int): seq<Student>
  {
    match req
    case NoRequest => students
    case AddRequest(name, photo) => AddStudent(students, name, photo, id, now)
    case EditRequest(student) => EditStudent(students, student)
  }

  /** No two roster entries share an id, as fresh UUIDs guarantee. */
  predicate UniqueIds(students: seq<Student>)
  {
    forall i, j :: 0 <= i < j < |students| ==> students[i].id != students[j].id
  }

  /**
   * Submitting in edit mode changes only the edited student's name and photo:
   * the ids stay in order, the length stays, and every other student is kept.
   */
  lemma SubmitEditChangesOnlyThatStudent(students: seq<Student>, name: string, photo: string, editingId: Option<string>,
                                         id: string, now: int)
    requires UniqueIds(students)
    requires Editing(editingId)
    ensures var after := ApplyRequest(students, SubmitRequest(students, name, photo, editingId), id, now);
            Ids(after) == Ids(students) &&
            forall k :: 0 <= k < |students| ==>
              after[k] == students[k] ||
              (students[k].id == editingId.value && name != "" && photo != "" &&
               after[k] == students[k].(name := name, photo := photo))
  {
    var req := SubmitRequest(students, name, photo, editingId);
    if req.EditRequest? {
      var original := FindStudent(students, editingId.value);
      var m :| 0 <= m < |students| && students[m] == original.value && original.value.id == editingId.value &&
               forall j :: 0 <= j < m ==> students[j].id != editingId.value;
      EditStudentKeepsIds(students, req.student);
      var after := EditStudent(students, req.student);
      forall k | 0 <= k < |students|
        ensures after[k] == students[k] ||
                (students[k].id == editingId.value && after[k] == students[k].(name := name, photo := photo))
      {
        if students[k].id == editingId.value {
          assert k == m;
        }
      }
    }
  }

  /** Submitting a new student grows the roster by exactly that student, at its end. */
  lemma SubmitAddAppendsOne(students: seq<Student>, name: string, photo: string, id: string, now: int)
    requires name != "" && photo != ""
    ensures ApplyRequest(students, SubmitRequest(students, name, photo, None), id, now) ==
            students + [Student(id, name, photo, now)]
  {
  }

  /**
   * The form state: the name and photo fields, the id of the student being
   * edited (null when adding) and whether the modal and the camera are shown.
   */
  class Form {
    var name: string
    var photo: string
    var editingId: Option<string>
    var showAddModal: bool
    var showCamera: bool

    constructor ()
      ensures name == "" && photo == "" && editingId.None? && !showAddModal && !showCamera
    {
      name := "";
      photo := "";
      editingId := None;
      showAddModal := false;
      showCamera := false;
    }

    /** The form is cleared and closed, as after a submit. */
    predicate Cleared()
      reads this
    {
      name == "" && photo == "" && editingId.None? && !showAddModal
    }

    /** The "Add Student" button: an empty form in add mode, shown. */
    method OpenAdd()
      modifies this
      ensures name == "" && photo == "" && editingId.None? && showAddModal
      ensures showCamera == old(showCamera)
    {
      name := "";
      photo := "";
      editingId := None;
      showAddModal := true;
    }

    /** `handlePhotoCapture`: the captured picture becomes the photo and the camera closes. */
    method PhotoCaptured(base64: string)
      modifies this
      ensures photo == base64 && !showCamera
      ensures name == old(name) && editingId == old(editingId) && showAddModal == old(showAddModal)
    {
      photo := base64;
      showCamera := false;
    }

    /** `handleEditClick`: loads the student into the form in edit mode and opens the modal. */
    method EditClick(s: Student)
      modifies this
      ensures name == s.name && photo == s.photo && editingId == Some(s.id) && showAddModal
      ensures showCamera == old(showCamera)
    {
      name := s.name;
      photo := s.photo;
      editingId := Some(s.id);
      showAddModal := true;
    }

    /**
     * `handleSubmit`: with an empty name or photo nothing happens; otherwise
     * the request is issued and the form is cleared and closed.
     */
    method Submit(students: seq<Student>) returns (request: Request)
      modifies this
      ensures request == SubmitRequest(students, old(name), old(photo), old(editingId))
      ensures old(name) == "" || old(photo) == "" ==>
                name == old(name) && photo == old(photo) && editingId == old(editingId) && showAddModal == old(showAddModal)
      ensures old(name) != "" && old(photo) != "" ==> Cleared()
      ensures showCamera == old(showCamera)
    {
      if name == "" || photo == "" {
        return NoRequest;
      }
      request := NoRequest;
      if editingId.Some? && editingId.value != "" {
        var original := FindStudent(students, editingId.value);
        if original.Some? {
          request := EditRequest(original.value.(name := name, photo := photo));
        }
      } else {
        request := AddRequest(name, photo);
      }
      name := "";
      photo := "";
      showAddModal := false;
      editingId := None;
    }
  }

  /**
   * Opening a student for edit and submitting the unchanged fields issues an
   * edit that leaves the roster as it was (student ids are unique and not empty).
   */
  lemma EditThenSubmitUnchangedIsNoOp(students: seq<Student>, k: int, id: string, now: int)
    requires UniqueIds(students)
    requires 0 <= k < |students|
    requires students[k].name != "" && students[k].photo != "" && students[k].id != ""
    ensures ApplyRequest(students, SubmitRequest(students, students[k].name, students[k].photo, Some(students[k].id)), id, now) == students
  {
    var s := students[k];
    var req := SubmitRequest(students, s.name, s.photo, Some(s.id));
    assert req == EditRequest(s);
  }
}
