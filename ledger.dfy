/**
 * The student ledger: the list of records and the per-id DNI error
 * messages, changed one user event at a time by the edit, add and remove
 * handlers, and read through the sorted view.
 */
module StudentLedger {
  import opened Grades
  import opened Roster
  import opened RosterSort

  /** The message shown under a DNI that another id already holds. */
  const DuplicateDni: string := "Este DNI ya existe"

  /** The edit the handler refuses: a non-empty DNI held by a record with another id. */
  function RejectsDni(students: seq<Student>, studentId: int, field: EditableField, value: string): (r: bool)
    ensures r <==> field == Dni && value != "" && exists x | x in students :: x.dni == value && x.id != studentId
  {
    field == Dni && value != "" && !IsDniUnique(students, value, studentId)
  }

  class Ledger {
    var students: seq<Student>
    var dniError: map<int, string>

    /** Every record is consistent and no non-empty DNI is shared by two ids. */
    ghost predicate Valid()
      reads this
    {
      WellFormed(students)
    }

    /** The ledger starts with one zeroed row with id 1 and no error messages. */
    constructor ()
      ensures Valid()
      ensures students == [Blank(1)] && dniError == map[]
    {
      var first := Blank(1);
      SingleBlankWellFormed(1);
      students := [first];
      dniError := map[];
    }

    /**
     * A value typed into one field of the rows with id `studentId`.
     * An edit of the DNI first clears that id's message; a non-empty DNI
     * that a record with another id holds is refused with the duplicate
     * message and the list is kept. Otherwise every row with the id gets
     * the value (a mark that does not parse stores 0) and its grades are
     * recomputed. `number` stands for the host's string-to-number conversion.
     */
    method Edit(studentId: int, field: EditableField, value: string, number: string -> Option<real>)
      requires Valid()
      modifies this
      ensures Valid()
      ensures RejectsDni(old(students), studentId, field, value) ==>
        students == old(students) && dniError == old(dniError)[studentId := DuplicateDni]
      ensures !RejectsDni(old(students), studentId, field, value) ==>
        && students == EditRecords(old(students), studentId, field, InputValue(field, value, number))
        && dniError == if field == Dni then old(dniError)[studentId := ""] else old(dniError)
    {
      if field == Dni {
        dniError := dniError[studentId := ""];
        if value != "" && !IsDniUnique(students, value, studentId) {
          dniError := dniError[studentId := DuplicateDni];
          return;
        }
      }
      var v := InputValue(field, value, number);
      EditPreservesWellFormed(students, studentId, field, v);
      students := EditRecords(students, studentId, field, v);
    }

    /** Appends a zeroed row whose id is the number of rows plus one. */
    method Add()
      requires Valid()
      modifies this
      ensures Valid()
      ensures students == old(students) + [Blank(|old(students)| + 1)]
      ensures dniError == old(dniError)
    {
      AddPreservesWellFormed(students);
      students := WithNewStudent(students);
    }

    /** Drops every row with id `id` and that id's error message. */
    method Remove(id: int)
      requires Valid()
      modifies this
      ensures Valid()
      ensures students == WithoutId(old(students), id)
      ensures dniError == old(dniError) - {id}
    {
      RemovePreservesWellFormed(students, id);
      students := WithoutId(students, id);
      dniError := dniError - {id};
    }

    /** The rows as the table lists them: sorted by last name, the list itself untouched. */
    function SortedStudents(le: (string, string) -> bool): (r: seq<Student>)
      reads this
      ensures multiset(r) == multiset(students)
      ensures TotalPreorder(le) ==> SortedByLastName(le, r)
    {
      SortIsSorted(le, students);
      SortByLastName(le, students)
    }
  }
}
