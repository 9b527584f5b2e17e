# Student ledger of the classroom grade calculator

This project models the logic of the `App` component in `src/App.tsx`. A
teacher keeps a list of student records. Each record has an id, a DNI
(identity document number), a name, a last name and four raw marks: two exams,
a book grade and a behaviour score. Five derived marks are computed from the
raw ones:

- the exam average, `(firstExam + secondExam) / 2`;
- the weighted average, `average * 0.65`;
- the weighted book grade, `bookGrade * 0.15`;
- the weighted behaviour, `behavior * 0.2`;
- the final grade, the sum of the three weighted marks.

The row's verdict is `APROBADO` when the final grade is at least 5, and
`SUSPENSO` otherwise. The ledger also keeps a map from student id to a DNI
error message.

Three handlers change the ledger:

- **edit** (`handleInputChange`) sets one field on every row with the given id
  and recomputes its grades. A non-empty DNI already held by a row with a
  different id is refused: the list is kept and the message
  `Este DNI ya existe` is recorded for the id.
- **add** (`addStudent`) appends a zeroed row.
- **remove** (`removeStudent`) drops the rows with an id and that id's message.

The table shows a copy of the list sorted by last name.

Modules:

- `Grades` (grades.dfy): the `Student` record, the editable fields, `CalculateGrades` and the verdict.
- `Roster` (roster.dfy): the pure list operations behind the handlers, and the invariant they keep.
- `RosterSort` (sorting.dfy): the sorted view, a stable insertion sort under an abstract comparator.
- `StudentLedger` (ledger.dfy): class `Ledger`, with the fields `students: seq<Student>` and `dniError: map<int, string>`. Its methods `Edit`, `Add` and `Remove` replace those fields as the handlers do.

Modelling choices:

- Marks are exact `real`s. In `real`, 0.65, 0.15 and 0.2 are exact and, with the factor 1/2, sum to 1.
- The host's string-to-number conversion is a parameter `number: string -> Option<real>`. `None` stands for NaN. `Number(value) || 0` becomes "the parsed number, or 0 when it is NaN". A parsed 0 is 0 either way.
- The comparator is a parameter `le`. `le(a, b)` stands for `a.localeCompare(b, 'es', { sensitivity: 'base' }) <= 0`. The sortedness and stability results assume `le` is transitive and total. The permutation result holds for any `le`.
- Each handler is one atomic transition. `isDniUnique` reads the same list the update maps over.

The class invariant `Ledger.Valid` has two parts:

- every row's derived marks agree with its raw marks;
- a non-empty DNI is never held by two rows with different ids.

The constructor sets up the invariant and every handler keeps it.

Ids are not unique, and the model does not claim they are. `addStudent` uses
the list length plus one as the new id. After a removal, that can equal an id
still in the list (`Roster.RemoveThenAddRepeatsId`). From then on, edit and
remove act on both rows.

Three details of the code the model keeps:

- Only a DNI edit touches the error map. Edits of other fields leave every message as it was.
- The empty DNI is never checked, so any number of rows may share it.
- The marks' range [0, 10] is only an input hint in the markup. The handler stores any number, so no model operation requires it. `Grades.FinalGradeBounds` states what the range gives when it holds.

## Model

| member | source | states |
|---|---|---|
| Grades.Set | src/App.tsx:56 | the spread keeps the id, holds the new value in the named field, keeps every other raw field and copies the derived marks unchanged |
| Grades.CalculateGrades | src/App.tsx:51-74 | the result keeps the id, holds the new value in the named field and every other raw field unchanged, and its derived marks agree with its raw marks |
| Grades.InputValue | src/App.tsx:107 | text fields store the typed string; marks store the parsed number, or 0 when the parse gives NaN; the stored value always has the field's kind |
| Grades.Blank | src/App.tsx:115-129 | a new row has the given id, empty strings in the three text fields and 0 in the four raw marks |
| Grades.BlankConsistent | src/App.tsx:115-129 | a zeroed row's derived marks agree with its raw marks |
| Grades.Verdict | src/App.tsx:369-371 | the verdict is APROBADO exactly when the final grade is at least 5, and SUSPENSO exactly when it is below 5 |
| Grades.ConsistentDeterminedByRaw | src/App.tsx:56-71 | two consistent records with the same id and raw fields are equal: the derived marks are a function of the raw ones |
| Grades.FinalGradeFormula | src/App.tsx:59-71 | the final grade of a consistent record is firstExam/2*0.65 + secondExam/2*0.65 + bookGrade*0.15 + behavior*0.2 |
| Grades.FinalGradeBounds | src/App.tsx:59-71 | raw marks within [0, 10] give a final grade within [0, 10]; equal raw marks give that mark as the final grade (the weights sum to 1) |
| Grades.FinalGradeMonotone | src/App.tsx:59-71 | raising raw marks never lowers the final grade and never turns a pass into a fail |
| Grades.CalculateGradesReadsOnlyRaw | src/App.tsx:56-71 | the recomputation does not depend on the derived marks it is given |
| Grades.CalculateGradesSameValue | src/App.tsx:56-71 | writing a field's current value into a consistent record returns the record unchanged |
| Grades.CalculateGradesLastWriteWins | src/App.tsx:56-71 | two writes to one field equal the last write alone |
| Grades.CalculateGradesCommute | src/App.tsx:56-71 | writes to two different fields give the same record in either order |
| Grades.WorkedExample | src/App.tsx:59-71 | exams 8 and 6, book 10 and behaviour 5 give average 7, weighted 4.55, 1.5 and 1.0, final 7.05, a pass |
| Roster.IsDniUnique | src/App.tsx:76-80 | true exactly when no record in the list has that DNI together with a different id |
| Roster.EditRecords | src/App.tsx:101-111 | same length and order; each record with the id is replaced by its recomputed edit, and every other record is kept |
| Roster.EditRecordsFrame | src/App.tsx:101-111 | an edit keeps every position's id; other ids' records are untouched; an edited record changes only the named raw field and is consistent |
| Roster.DniEditHolders | src/App.tsx:92-108 | after an accepted non-empty DNI edit (equivalently, a DNI edit to a value no row with another id holds), a record holds the new DNI exactly when it has the edited id |
| Roster.EditKeepsConsistent | src/App.tsx:101-111 | an edit leaves every record's derived marks consistent |
| Roster.EditKeepsDnis | src/App.tsx:101-111 | an edit of any field but the DNI leaves every DNI and id in place |
| Roster.EditKeepsDnisDistinct | src/App.tsx:87-111 | an edit that passed the DNI check keeps non-empty DNIs apart across ids |
| Roster.EditPreservesWellFormed | src/App.tsx:82-112 | an edit that passed the DNI check keeps the whole invariant |
| Roster.WithoutId | src/App.tsx:134 | no record with the removed id is left, and the list does not grow |
| Roster.WithoutIdCounts | src/App.tsx:134 | each record with another id is kept as often as it occurred, and records with the id occur 0 times |
| Roster.WithoutIdAppend | src/App.tsx:134 | removal distributes over concatenation, so kept records keep their relative order |
| Roster.WithoutIdAbsent | src/App.tsx:134 | removing an id no record carries leaves the list equal to itself |
| Roster.SingleBlankWellFormed | src/App.tsx:26-42 | the initial list of one zeroed row satisfies the invariant |
| Roster.RemovePreservesWellFormed | src/App.tsx:133-134 | a removal keeps the invariant |
| Roster.WithNewStudent | src/App.tsx:114-130 | the new list is the old list, unchanged, followed by exactly one zeroed row with id old length + 1 |
| Roster.AddPreservesWellFormed | src/App.tsx:114-130 | an addition keeps the invariant |
| Roster.AddRepeatsPresentId | src/App.tsx:116 | when a record already has id length+1, the added row shares that id |
| Roster.RemoveThenAddRepeatsId | src/App.tsx:114-134 | from ids 1 and 2, removing 1 leaves the row with id 2, and the next added row also gets id 2 |
| RosterSort.InsertByLastName | src/App.tsx:144-146 | insertion adds exactly one copy of the record and nothing else |
| RosterSort.InsertKeepsSorted | src/App.tsx:144-146 | under a consistent comparator, insertion into a list sorted by last name gives a sorted list |
| RosterSort.SortByLastName | src/App.tsx:144-146 | the sorted view is a permutation of the list, whatever the comparator |
| RosterSort.SortIsSorted | src/App.tsx:144-146 | under a consistent comparator the sorted view is ordered by last name |
| RosterSort.InsertKeepsKeyOrder | src/App.tsx:144-146 | an inserted record goes ahead of every record whose last name is equivalent to its own |
| RosterSort.SortIsStable | src/App.tsx:144-146 | records with equivalent last names appear in the sorted view in their list order |
| RosterSort.SortSortedIsIdentity | src/App.tsx:144-146 | a list already sorted by last name is its own sorted view |
| StudentLedger.RejectsDni | src/App.tsx:87-97 | an edit is refused exactly when it is a DNI edit with a non-empty value that some row with a different id already holds |
| StudentLedger.Ledger.constructor | src/App.tsx:26-44 | the ledger starts with one zeroed row with id 1, an empty error map, and the invariant |
| StudentLedger.Ledger.Edit | src/App.tsx:82-112 | a refused DNI keeps the list and sets the id's message to "Este DNI ya existe"; any other edit applies the recomputed edit to every row with the id; a DNI edit then sets the id's message to ""; other edits leave the messages alone; the invariant is kept |
| StudentLedger.Ledger.Add | src/App.tsx:114-131 | appends exactly one zeroed row with id old length + 1; earlier rows and messages are unchanged; the invariant is kept |
| StudentLedger.Ledger.Remove | src/App.tsx:133-141 | keeps exactly the rows with another id, in order; deletes the key for the id and keeps every other message; the invariant is kept |
| StudentLedger.Ledger.SortedStudents | src/App.tsx:143-146 | the view is a permutation of the rows, sorted by last name under a consistent comparator; as a function it does not change the ledger |

## Left out

- Rendering: the JSX markup, styling, icons, the `toFixed(2)` display, the inline error display and the dropdown toggle `isDropdownOpen`. These are presentation only.
- The course and classroom selector: `selectedGroup`, `CourseGroup`, `courses` and `classrooms`. It is a display label with no effect on any grade or row.
- IEEE-754 double rounding in the weighted sums, infinities and negative zero. The model uses exact reals.
- The grammar of `Number(value)`. The conversion is a parameter that returns a real or NaN.
- The Spanish-locale, accent- and case-insensitive comparison of `localeCompare`. It calls into the host's collation and is a parameter here. So the claim that "Álvarez" sorts with "Alvarez" belongs to that parameter and is not modelled.
- The host sort's order under a comparator that is not a total preorder. That order is implementation-defined. The model still returns a permutation.
- React's state batching and updater functions. Each handler is one atomic transition on the ledger.
- StudentLedger.Ledger.SortedStudents: its contract does not restate stability. Stability is proved for the function it returns, in RosterSort.SortIsStable.
