/**
 * The grade calculator of the classroom ledger: one student record, the
 * weighted-average formula that derives four of its fields from the raw
 * marks, and the pass/fail verdict shown for it.
 *
 * Marks are exact `real`s, so the weights 0.65, 0.15 and 0.2 (and the 1/2 of
 * the exam average) are exact here, where the TypeScript code computes in doubles.
 */
module Grades {

  datatype Option<+T> = None | Some(value: T)

  /** One row of the ledger: identity, identification and names, four raw marks and five derived marks. */
  datatype Student = Student(
    id: int,
    dni: string,
    name: string,
    lastName: string,
    firstExam: real,
    secondExam: real,
    average: real,
    weightedAverage: real,
    bookGrade: real,
    weightedBook: real,
    behavior: real,
    weightedBehavior: real,
    finalGrade: real)

  /** The seven fields a teacher can type into. */
  datatype EditableField = Dni | Name | LastName | FirstExam | SecondExam | BookGrade | Behavior
  {
    /** The identification and name fields hold text; the four marks hold numbers. */
    predicate IsText()
    {
      this == Dni || this == Name || this == LastName
    }
  }

  /** A value stored into an editable field. */
  datatype FieldValue = Text(text: string) | Number(number: real)

  /** Whether a value has the kind its field stores (text for text fields, a number for marks). */
  predicate Fits(field: EditableField, v: FieldValue)
  {
    field.IsText() <==> v.Text?
  }

  // The weights of the final grade and the pass mark.
  const ExamWeight: real := 0.65
  const BookWeight: real := 0.15
  const BehaviorWeight: real := 0.2
  const PassMark: real := 5.0
  const Pass: string := "APROBADO"
  const Fail: string := "SUSPENSO"

  /** The current value of an editable field of a record. */
  function Get(s: Student, field: EditableField): (v: FieldValue)
    ensures Fits(field, v)
  {
    match field
    case Dni => Text(s.dni)
    case Name => Text(s.name)
    case LastName => Text(s.lastName)
    case FirstExam => Number(s.firstExam)
    case SecondExam => Number(s.secondExam)
    case BookGrade => Number(s.bookGrade)
    case Behavior => Number(s.behavior)
  }

  /** The derived fields of a record agree with its raw fields. */
  predicate Consistent(s: Student)
  {
    && s.average == (s.firstExam + s.secondExam) / 2.0
    && s.weightedAverage == s.average * ExamWeight
    && s.weightedBook == s.bookGrade * BookWeight
    && s.weightedBehavior == s.behavior * BehaviorWeight
    && s.finalGrade == s.weightedAverage + s.weightedBook + s.weightedBehavior
  }

  /** Two records with the same id and the same raw fields. */
  predicate SameRaw(a: Student, b: Student)
  {
    a.id == b.id && forall f: EditableField :: Get(a, f) == Get(b, f)
  }

  /** The record spread with one field overwritten; the derived marks are copied as they were. */
  function Set(s: Student, field: EditableField, v: FieldValue): (r: Student)
    requires Fits(field, v)
    ensures r.id == s.id
    ensures Get(r, field) == v
    ensures forall f: EditableField :: f != field ==> Get(r, f) == Get(s, f)
    ensures r.average == s.average && r.weightedAverage == s.weightedAverage
    ensures r.weightedBook == s.weightedBook && r.weightedBehavior == s.weightedBehavior
    ensures r.finalGrade == s.finalGrade
  {
    match field
    case Dni => s.(dni := v.text)
    case Name => s.(name := v.text)
    case LastName => s.(lastName := v.text)
    case FirstExam => s.(firstExam := v.number)
    case SecondExam => s.(secondExam := v.number)
    case BookGrade => s.(bookGrade := v.number)
    case Behavior => s.(behavior := v.number)
  }

  /**
   * Sets one field, then recomputes the exam average, the three weighted
   * marks and the final grade from the raw marks, in that order.
   */
  function CalculateGrades(s: Student, field: EditableField, v: FieldValue): (r: Student)
    requires Fits(field, v)
    ensures Consistent(r)
    ensures r.id == s.id
    ensures Get(r, field) == v
    ensures forall f: EditableField :: f != field ==> Get(r, f) == Get(s, f)
  {
    var u := Set(s, field, v);
    var u := u.(average := (u.firstExam + u.secondExam) / 2.0);
    var u := u.(weightedAverage := u.average * ExamWeight);
    var u := u.(weightedBook := u.bookGrade * BookWeight);
    var u := u.(weightedBehavior := u.behavior * BehaviorWeight);
    u.(finalGrade := u.weightedAverage + u.weightedBook + u.weightedBehavior)
  }

  /**
   * The value an input event stores: the typed text for the text fields, and
   * for a mark the parsed number, where a parse that fails (NaN) becomes 0.
   * `number` stands for the host's string-to-number conversion.
   */
  function InputValue(field: EditableField, value: string, number: string -> Option<real>): (v: FieldValue)
    ensures Fits(field, v)
    ensures field.IsText() ==> v == Text(value)
    ensures !field.IsText() && number(value).None? ==> v == Number(0.0)
    ensures !field.IsText() && number(value).Some? ==> v == Number(number(value).value)
  {
    if field.IsText() then Text(value)
    else
      match number(value)
      case Some(x) => Number(x)
      case None => Number(0.0)
  }

  /** A zeroed record with empty strings, as new rows are created. */
  function Blank(id: int): (r: Student)
    ensures r.id == id
    ensures forall f: EditableField :: Get(r, f) == if f.IsText() then Text("") else Number(0.0)
  {
    Student(id, "", "", "", 0.0, 0.0, 0.0, 0.0, 0.0, 0.0, 0.0, 0.0, 0.0)
  }

  /** A zeroed record is trivially consistent. */
  lemma BlankConsistent(id: int)
    ensures Consistent(Blank(id))
  {
  }

  /** The verdict shown in the last column of a row. */
  function Verdict(s: Student): (r: string)
    ensures r == Pass <==> s.finalGrade >= PassMark
    ensures r == Fail <==> s.finalGrade < PassMark
  {
    if s.finalGrade >= PassMark then Pass else Fail
  }

  /** A consistent record is determined by its id and its raw fields. */
  lemma {:induction false} ConsistentDeterminedByRaw(a: Student, b: Student)
    requires Consistent(a) && Consistent(b) && SameRaw(a, b)
    ensures a == b
  {
    assert Get(a, Dni) == Get(b, Dni);
    assert Get(a, Name) == Get(b, Name);
    assert Get(a, LastName) == Get(b, LastName);
    assert Get(a, FirstExam) == Get(b, FirstExam);
    assert Get(a, SecondExam) == Get(b, SecondExam);
    assert Get(a, BookGrade) == Get(b, BookGrade);
    assert Get(a, Behavior) == Get(b, Behavior);
  }

  /** The final grade of a consistent record as one weighted sum of the raw marks. */
  lemma FinalGradeFormula(s: Student)
    requires Consistent(s)
    ensures s.finalGrade == s.firstExam / 2.0 * 0.65 + s.secondExam / 2.0 * 0.65 + s.bookGrade * 0.15 + s.behavior * 0.2
  {
  }

  /** The weights sum to 1, so marks within [0, 10] give a final grade within [0, 10]. */
  lemma FinalGradeBounds(s: Student)
    requires Consistent(s)
    requires 0.0 <= s.firstExam <= 10.0 && 0.0 <= s.secondExam <= 10.0
    requires 0.0 <= s.bookGrade <= 10.0 && 0.0 <= s.behavior <= 10.0
    ensures 0.0 <= s.finalGrade <= 10.0
    ensures s.firstExam == s.secondExam == s.bookGrade == s.behavior ==> s.finalGrade == s.firstExam
  {
  }

  /** Raising any raw mark never lowers the final grade. */
  lemma FinalGradeMonotone(a: Student, b: Student)
    requires Consistent(a) && Consistent(b)
    requires a.firstExam <= b.firstExam && a.secondExam <= b.secondExam
    requires a.bookGrade <= b.bookGrade && a.behavior <= b.behavior
    ensures a.finalGrade <= b.finalGrade
    ensures Verdict(a) == Pass ==> Verdict(b) == Pass
  {
  }

  /** The recomputation reads only the raw fields: derived fields of the input are irrelevant. */
  lemma CalculateGradesReadsOnlyRaw(a: Student, b: Student, field: EditableField, v: FieldValue)
    requires Fits(field, v) && SameRaw(a, b)
    ensures CalculateGrades(a, field, v) == CalculateGrades(b, field, v)
  {
    var ra, rb := CalculateGrades(a, field, v), CalculateGrades(b, field, v);
    forall f: EditableField ensures Get(ra, f) == Get(rb, f) {
      if f != field {
        assert Get(a, f) == Get(b, f);
      }
    }
    ConsistentDeterminedByRaw(ra, rb);
  }

  /** Writing the value a consistent record already holds changes nothing. */
  lemma CalculateGradesSameValue(s: Student, field: EditableField)
    requires Consistent(s)
    ensures CalculateGrades(s, field, Get(s, field)) == s
  {
    var r := CalculateGrades(s, field, Get(s, field));
    forall f: EditableField ensures Get(r, f) == Get(s, f) {
    }
    ConsistentDeterminedByRaw(r, s);
  }

  /** Of two writes to one field, the last one wins. */
  lemma CalculateGradesLastWriteWins(s: Student, field: EditableField, v: FieldValue, w: FieldValue)
    requires Fits(field, v) && Fits(field, w)
    ensures CalculateGrades(CalculateGrades(s, field, v), field, w) == CalculateGrades(s, field, w)
  {
    var r1 := CalculateGrades(CalculateGrades(s, field, v), field, w);
    var r2 := CalculateGrades(s, field, w);
    forall f: EditableField ensures Get(r1, f) == Get(r2, f) {
    }
    ConsistentDeterminedByRaw(r1, r2);
  }

  /** Writes to two different fields commute. */
  lemma CalculateGradesCommute(s: Student, f1: EditableField, v1: FieldValue, f2: EditableField, v2: FieldValue)
    requires f1 != f2 && Fits(f1, v1) && Fits(f2, v2)
    ensures CalculateGrades(CalculateGrades(s, f1, v1), f2, v2) == CalculateGrades(CalculateGrades(s, f2, v2), f1, v1)
  {
    var r1 := CalculateGrades(CalculateGrades(s, f1, v1), f2, v2);
    var r2 := CalculateGrades(CalculateGrades(s, f2, v2), f1, v1);
    forall f: EditableField ensures Get(r1, f) == Get(r2, f) {
    }
    ConsistentDeterminedByRaw(r1, r2);
  }

  /** Exams 8 and 6, book 10 and behaviour 5 give 7.05, a pass. */
  lemma WorkedExample(s: Student)
    requires Consistent(s)
    requires s.firstExam == 8.0 && s.secondExam == 6.0 && s.bookGrade == 10.0 && s.behavior == 5.0
    ensures s.average == 7.0 && s.weightedAverage == 4.55 && s.weightedBook == 1.5
    ensures s.weightedBehavior == 1.0 && s.finalGrade == 7.05 && Verdict(s) == Pass
  {
  }
}
