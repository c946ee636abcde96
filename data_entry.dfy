/** The `DataEntry` component's state and handlers: the roster, the draft
    (name, age, marks as typed), the record under edit, the search and
    division filter, and the error map shown under the fields. */
module DataEntryForm {

  import opened Wrappers
  import opened Sequences
  import opened Validation
  import opened Roster

  /** `Array(5).fill('')`: five empty mark fields. */
  const BlankMarks: seq<string> := ["", "", "", "", ""]

  class DataEntry {
    var students: seq<Student>
    var name: string
    var age: string
    var marks: seq<string>
    var editingId: Option<int>
    var search: string
    var filterDivision: string
    var errors: map<FieldKey, string>

    /** Five mark fields, a well-formed roster, and a positive edited id
        when one is set (so `if (editingId)` is "not null"). The edited id
        need not name a record: deleting the record under edit keeps it. */
    ghost predicate Valid()
      reads this
    {
      && |marks| == 5
      && WellFormed(students)
      && (editingId.Some? ==> editingId.value > 0)
    }

    /** The initial state of every `useState`. */
    constructor ()
      ensures Valid()
      ensures students == [] && name == "" && age == "" && marks == BlankMarks
      ensures editingId == None && search == "" && filterDivision == "" && errors == map[]
    {
      students := [];
      name := "";
      age := "";
      marks := BlankMarks;
      editingId := None;
      search := "";
      filterDivision := "";
      errors := map[];
    }

    /** The name field's `onChange`. */
    method SetName(value: string)
      requires Valid()
      modifies this`name
      ensures Valid() && name == value
    {
      name := value;
    }

    /** The age field's `onChange`. */
    method SetAge(value: string)
      requires Valid()
      modifies this`age
      ensures Valid() && age == value
    {
      age := value;
    }

    /** The `onChange` of mark field `i`: a copy of the marks with slot `i` replaced. */
    method SetMark(i: nat, value: string)
      requires Valid() && i < |marks|
      modifies this`marks
      ensures Valid() && marks == old(marks)[i := value]
    {
      marks := marks[i := value];
    }

    /** The search field's `onChange`. */
    method SetSearch(value: string)
      requires Valid()
      modifies this`search
      ensures Valid() && search == value
    {
      search := value;
    }

    /** The division select's `onChange`. */
    method SetFilterDivision(value: string)
      requires Valid()
      modifies this`filterDivision
      ensures Valid() && filterDivision == value
    {
      filterDivision := value;
    }

    /** The rows the table shows: an order-preserving selection of the
        roster, exactly the records that match the search and the division
        filter, and the whole roster when both are empty. */
    function FilteredStudents(): (r: seq<Student>)
      reads this
      ensures SubsequenceOf(r, students)
      ensures forall x :: x in r <==> x in students && Matches(x, search, filterDivision)
      ensures search == "" && filterDivision == "" ==> r == students
    {
      VisibleAll(students);
      Visible(students, search, filterDivision)
    }

    /** `resetForm`: empties the draft and the errors; the edited id is left alone. */
    method ResetForm()
      modifies this`name, this`age, this`marks, this`errors
      ensures name == "" && age == "" && marks == BlankMarks && errors == map[]
    {
      name := "";
      age := "";
      marks := BlankMarks;
      errors := map[];
    }

    /** `handleSubmit`. On a failed validation only the errors change. On
        success the record built from the draft is appended (no record under
        edit, with the fresh id `freshId` standing for `Date.now()`) or
        replaces every record with the edited id (which may be none), the
        edit ends, and the draft is reset. */
    method HandleSubmit(lib: NumberSyntax, freshId: int)
      requires Valid()
      requires editingId.None? ==> freshId > 0 && !HasId(students, freshId)
      modifies this`students, this`name, this`age, this`marks, this`editingId, this`errors
      ensures Valid()
      ensures var err := Errors(lib, old(name), old(age), old(marks));
        if err != map[] then
          && errors == err
          && students == old(students) && editingId == old(editingId)
          && name == old(name) && age == old(age) && marks == old(marks)
        else
          && students == (match old(editingId)
                          case Some(id) => ReplaceById(old(students), id, NewRecord(lib, id, old(name), old(age), old(marks)))
                          case None => old(students) + [NewRecord(lib, freshId, old(name), old(age), old(marks))])
          && editingId == None
          && name == "" && age == "" && marks == BlankMarks && errors == map[]
    {
      var err, ok := Validate(lib, name, age, marks);
      errors := err;
      if !ok {
        return;
      }
      var id := if editingId.Some? then editingId.value else freshId;
      var student := NewRecord(lib, id, name, age, marks);
      NewRecordConsistent(lib, id, name, age, marks);
      if editingId.Some? {
        ReplaceKeepsWellFormed(students, id, student);
        students := ReplaceById(students, id, student);
        editingId := None;
      } else {
        AppendKeepsWellFormed(students, student);
        students := students + [student];
      }
      assert WellFormed(students);
      ResetForm();
      assert |marks| == 5;
    }

    /** `editStudent`: loads the first record with `id` into the draft, as
        text, and marks it as the record under edit. The errors stay. */
    method EditStudent(lib: NumberSyntax, id: int)
      requires Valid() && HasId(students, id)
      modifies this`name, this`age, this`marks, this`editingId
      ensures Valid()
      ensures var s := students[FindIndex(students, id).value];
        && name == s.name && age == lib.intToString(s.age)
        && marks == Map(lib.floatToString, s.marks)
        && editingId == Some(id)
    {
      var k := FindIndex(students, id).value;
      var s := students[k];
      name := s.name;
      age := lib.intToString(s.age);
      marks := Map(lib.floatToString, s.marks);
      editingId := Some(id);
    }

    /** `deleteStudent`: on confirmation removes every record with `id`,
        keeping the rest in order; otherwise nothing changes. The edited id,
        if it is this one, is not cleared. */
    method DeleteStudent(id: int, confirmed: bool)
      requires Valid()
      modifies this`students
      ensures Valid()
      ensures students == if confirmed then WithoutId(old(students), id) else old(students)
    {
      if confirmed {
        WithoutKeepsWellFormed(students, id);
        students := WithoutId(students, id);
      }
    }
  }
}
