/** The roster: the committed student records, kept in insertion order and
    keyed by `id`, with the record a submit builds, the replace-by-id of an
    update, the remove-by-id of a delete and the filtered view. */
module Roster {

  import opened Wrappers
  import opened Sequences
  import opened Grading
  import opened Text
  import opened Validation

  datatype Student = Student(
    id: int,
    name: string,
    age: Option<int>,
    marks: seq<Option<real>>,
    percentage: real,
    division: Division)

  /** The record a submit commits from the draft: marks and age parsed,
      percentage and division derived, the name kept as typed. */
  function NewRecord(lib: NumberSyntax, id: int, name: string, age: string, marks: seq<string>): (r: Student)
    ensures r.id == id && r.name == name && r.age == lib.parseInt(age)
    ensures |r.marks| == |marks| && forall i :: 0 <= i < |marks| ==> r.marks[i] == lib.parseFloat(marks[i])
    ensures r.percentage == CalculatePercentage(r.marks) && r.division == CalculateDivision(r.percentage)
  {
    var m := Map(lib.parseFloat, marks);
    var perc := CalculatePercentage(m);
    Student(id, name, lib.parseInt(age), m, perc, CalculateDivision(perc))
  }

  /** What every committed record satisfies: a positive id, the fields the
      validator let through, and derived values that match the marks. */
  predicate Consistent(s: Student)
  {
    && s.id > 0
    && !AllWhitespace(s.name)
    && !(s.age.Some? && s.age.value <= 0)
    && |s.marks| == 5
    && (forall i :: 0 <= i < |s.marks| ==> !BadMark(s.marks[i]))
    && s.percentage == CalculatePercentage(s.marks)
    && s.division == CalculateDivision(s.percentage)
  }

  /** A draft that passes validation gives a consistent record. */
  lemma NewRecordConsistent(lib: NumberSyntax, id: int, name: string, age: string, marks: seq<string>)
    requires id > 0 && |marks| == 5
    requires Errors(lib, name, age, marks) == map[]
    ensures Consistent(NewRecord(lib, id, name, age, marks))
  {
    NoErrorsIff(lib, name, age, marks);
  }

  /** A committed record's percentage is its five marks' mean to within half
      a hundredth, lies in [0, 100], and its division is the band of that
      percentage. */
  lemma CommittedGrades(s: Student)
    requires Consistent(s)
    ensures IsHundredth(s.percentage) && 0.0 <= s.percentage <= 100.0
    ensures var m := s.marks;
      -0.005 < s.percentage - (m[0].value + m[1].value + m[2].value + m[3].value + m[4].value) / 5.0 <= 0.005
    ensures s.division == First <==> 60.0 <= s.percentage
    ensures s.division == Second <==> 50.0 <= s.percentage < 60.0
    ensures s.division == Third <==> 40.0 <= s.percentage < 50.0
    ensures s.division == Fail <==> s.percentage < 40.0
  {
    PercentageOfFive(s.marks);
  }

  predicate UniqueIds(s: seq<Student>)
  {
    forall i, j :: 0 <= i < j < |s| ==> s[i].id != s[j].id
  }

  /** The roster invariant: ids identify records, and every record is consistent. */
  predicate WellFormed(s: seq<Student>)
  {
    UniqueIds(s) && forall k :: 0 <= k < |s| ==> Consistent(s[k])
  }

  predicate HasId(s: seq<Student>, id: int)
  {
    exists k :: 0 <= k < |s| && s[k].id == id
  }

  /** `students.find(s => s.id === id)`, as the position it finds. */
  function FindIndex(s: seq<Student>, id: int): (r: Option<nat>)
    ensures r.Some? <==> HasId(s, id)
    ensures r.Some? ==> r.value < |s| && s[r.value].id == id
    ensures r.Some? ==> forall j :: 0 <= j < r.value ==> s[j].id != id
  {
    if s == [] then None
    else if s[0].id == id then Some(0)
    else
      match FindIndex(s[1..], id)
      case None =>
        assert forall k :: 0 < k < |s| ==> s[k].id == s[1..][k - 1].id;
        None
      case Some(k) => Some(k + 1)
  }

  /** `students.map(s => s.id === id ? rec : s)`. */
  function ReplaceById(s: seq<Student>, id: int, rec: Student): (r: seq<Student>)
    ensures |r| == |s|
    ensures forall k :: 0 <= k < |s| ==> r[k] == if s[k].id == id then rec else s[k]
  {
    if s == [] then [] else [if s[0].id == id then rec else s[0]] + ReplaceById(s[1..], id, rec)
  }

  /** `students.filter(s => s.id !== id)`. */
  function WithoutId(s: seq<Student>, id: int): (r: seq<Student>)
    ensures forall x :: x in r <==> x in s && x.id != id
    ensures SubsequenceOf(r, s)
  {
    if s == [] then []
    else
      var rest := WithoutId(s[1..], id);
      assert forall x :: x in s <==> x == s[0] || x in s[1..];
      if s[0].id != id then [s[0]] + rest else rest
  }

  /** The filter predicate of the view: the lower-cased name includes the
      lower-cased search text, and the division is the chosen one unless
      no division is chosen. */
  function Matches(x: Student, search: string, division: string): (b: bool)
    ensures search == "" && division == "" ==> b
    ensures b ==> |search| <= |x.name|
  {
    Contains(Lower(x.name), Lower(search)) && (division == "" || DivisionName(x.division) == division)
  }

  /** `filteredStudents`. */
  function Visible(s: seq<Student>, search: string, division: string): (r: seq<Student>)
    ensures forall x :: x in r <==> x in s && Matches(x, search, division)
    ensures SubsequenceOf(r, s)
  {
    if s == [] then []
    else
      var rest := Visible(s[1..], search, division);
      assert forall x :: x in s <==> x == s[0] || x in s[1..];
      if Matches(s[0], search, division) then [s[0]] + rest else rest
  }

  /** Appending a consistent record with a new id keeps the roster well formed. */
  lemma AppendKeepsWellFormed(s: seq<Student>, rec: Student)
    requires WellFormed(s) && Consistent(rec) && !HasId(s, rec.id)
    ensures WellFormed(s + [rec])
  {
  }

  /** Replacing an id the roster does not hold changes nothing. */
  lemma ReplaceAbsent(s: seq<Student>, id: int, rec: Student)
    requires !HasId(s, id)
    ensures ReplaceById(s, id, rec) == s
  {
  }

  /** With unique ids an update replaces the one record with that id, in place. */
  lemma ReplaceUnique(s: seq<Student>, k: nat, rec: Student)
    requires UniqueIds(s) && k < |s|
    ensures ReplaceById(s, s[k].id, rec) == s[k := rec]
  {
  }

  /** An update with a consistent record carrying the same id keeps the roster well formed. */
  lemma ReplaceKeepsWellFormed(s: seq<Student>, id: int, rec: Student)
    requires WellFormed(s) && Consistent(rec) && rec.id == id
    ensures WellFormed(ReplaceById(s, id, rec))
  {
    var r := ReplaceById(s, id, rec);
    assert forall k :: 0 <= k < |s| ==> r[k].id == s[k].id;
  }

  /** Removing an id the roster does not hold changes nothing. */
  lemma {:induction false} WithoutAbsent(s: seq<Student>, id: int)
    requires !HasId(s, id)
    ensures WithoutId(s, id) == s
  {
    if s != [] {
      assert !HasId(s[1..], id);
      WithoutAbsent(s[1..], id);
      assert s == [s[0]] + s[1..];
    }
  }

  /** With unique ids a delete removes exactly the one record with that id
      and keeps the others in order. */
  lemma {:induction false} WithoutUnique(s: seq<Student>, k: nat)
    requires UniqueIds(s) && k < |s|
    ensures WithoutId(s, s[k].id) == s[..k] + s[k + 1..]
  {
    var id := s[k].id;
    if k == 0 {
      WithoutFirst(s);
    } else {
      var tail := s[1..];
      assert UniqueIds(tail) by {
        assert forall j :: 0 <= j < |tail| ==> tail[j] == s[j + 1];
      }
      assert s[0].id != id;
      WithoutKeepsHead(s, id);
      assert tail[k - 1] == s[k];
      WithoutUnique(tail, k - 1);
      RemoveAfterHead(s, k);
    }
  }

  /** A delete keeps a first record with another id at the front. */
  lemma WithoutKeepsHead(s: seq<Student>, id: int)
    requires s != [] && s[0].id != id
    ensures WithoutId(s, id) == [s[0]] + WithoutId(s[1..], id)
  {
  }

  /** With unique ids, deleting the first record's id leaves the rest. */
  lemma WithoutFirst(s: seq<Student>)
    requires UniqueIds(s) && s != []
    ensures WithoutId(s, s[0].id) == s[1..]
  {
    var tail := s[1..];
    assert !HasId(tail, s[0].id) by {
      assert forall j :: 0 <= j < |tail| ==> tail[j] == s[j + 1];
    }
    WithoutAbsent(tail, s[0].id);
  }

  /** Dropping records from a well-formed roster leaves it well formed. */
  lemma {:induction false} SubsequenceWellFormed(a: seq<Student>, b: seq<Student>)
    requires SubsequenceOf(a, b) && WellFormed(b)
    ensures WellFormed(a)
    decreases |b|
  {
    if a != [] {
      var b' := b[1..];
      assert WellFormed(b') by {
        forall i, j | 0 <= i < j < |b'|
          ensures b'[i].id != b'[j].id
        {
          assert b'[i] == b[i + 1] && b'[j] == b[j + 1];
        }
        forall k | 0 <= k < |b'|
          ensures Consistent(b'[k])
        {
          assert b'[k] == b[k + 1];
        }
      }
      if a[0] == b[0] && SubsequenceOf(a[1..], b') {
        SubsequenceWellFormed(a[1..], b');
        SubsequenceMembers(a[1..], b');
        assert forall x :: x in b' ==> x.id != b[0].id by {
          forall x | x in b'
            ensures x.id != b[0].id
          {
            var j :| 0 <= j < |b'| && b'[j] == x;
            assert b[j + 1] == x;
          }
        }
        forall i, j | 0 <= i < j < |a|
          ensures a[i].id != a[j].id
        {
          if i == 0 {
            assert a[j] == a[1..][j - 1];
            assert a[j] in b';
          } else {
            assert a[i] == a[1..][i - 1] && a[j] == a[1..][j - 1];
          }
        }
        forall k | 0 <= k < |a|
          ensures Consistent(a[k])
        {
          if k > 0 {
            assert a[k] == a[1..][k - 1];
          }
        }
      } else {
        SubsequenceWellFormed(a, b');
      }
    }
  }

  /** A delete keeps the roster well formed. */
  lemma WithoutKeepsWellFormed(s: seq<Student>, id: int)
    requires WellFormed(s)
    ensures WellFormed(WithoutId(s, id))
  {
    SubsequenceWellFormed(WithoutId(s, id), s);
  }

  /** Deleting the record being edited and then submitting the edit leaves
      the roster as the delete left it: the record is not recreated. */
  lemma UpdateAfterDelete(s: seq<Student>, id: int, rec: Student)
    ensures ReplaceById(WithoutId(s, id), id, rec) == WithoutId(s, id)
  {
    var r := WithoutId(s, id);
    assert !HasId(r, id);
    ReplaceAbsent(r, id, rec);
  }

  /** Records with different ids are different records. */
  lemma UniqueIdsDistinct(s: seq<Student>)
    requires UniqueIds(s)
    ensures Distinct(s)
  {
    forall i, j | 0 <= i < j < |s|
      ensures s[i] != s[j]
    {
      assert s[i].id != s[j].id;
    }
  }

  /** With unique ids, `WithoutId`'s contract pins the delete down: any
      order-preserving selection holding exactly the records with another
      id is the result of the delete. */
  lemma WithoutIdDetermined(s: seq<Student>, id: int, r: seq<Student>)
    requires UniqueIds(s) && SubsequenceOf(r, s)
    requires forall x :: x in r <==> x in s && x.id != id
    ensures r == WithoutId(s, id)
  {
    UniqueIdsDistinct(s);
    SubsequenceDetermined(r, WithoutId(s, id), s);
  }

  /** With unique ids, `Visible`'s contract pins the view down: any
      order-preserving selection holding exactly the matching records is
      the view. */
  lemma VisibleDetermined(s: seq<Student>, search: string, division: string, r: seq<Student>)
    requires UniqueIds(s) && SubsequenceOf(r, s)
    requires forall x :: x in r <==> x in s && Matches(x, search, division)
    ensures r == Visible(s, search, division)
  {
    UniqueIdsDistinct(s);
    SubsequenceDetermined(r, Visible(s, search, division), s);
  }

  /** With no search text and no division chosen the view is the whole roster. */
  lemma {:induction false} VisibleAll(s: seq<Student>)
    ensures Visible(s, "", "") == s
  {
    if s != [] {
      VisibleAll(s[1..]);
      assert s == [s[0]] + s[1..];
    }
  }

  /** The search is case-insensitive: searching for a text or for its
      lower-case form shows the same records. */
  lemma {:induction false} VisibleIgnoresCase(s: seq<Student>, search: string, division: string)
    ensures Visible(s, search, division) == Visible(s, Lower(search), division)
  {
    LowerIdempotent(search);
    if s != [] {
      VisibleIgnoresCase(s[1..], search, division);
    }
  }

  /** Loading a record into the draft and submitting it unchanged passes
      validation and commits the same record, provided the number
      conversions read back what they print. */
  lemma ResubmitUnchanged(lib: NumberSyntax, s: Student)
    requires Consistent(s)
    requires lib.intToString(s.age) != "" && lib.parseInt(lib.intToString(s.age)) == s.age
    requires forall i :: 0 <= i < |s.marks| ==> lib.parseFloat(lib.floatToString(s.marks[i])) == s.marks[i]
    ensures var age, marks := lib.intToString(s.age), Map(lib.floatToString, s.marks);
      Errors(lib, s.name, age, marks) == map[] && NewRecord(lib, s.id, s.name, age, marks) == s
  {
    var age, marks := lib.intToString(s.age), Map(lib.floatToString, s.marks);
    assert Map(lib.parseFloat, marks) == s.marks;
    NoErrorsIff(lib, s.name, age, marks);
  }
}
