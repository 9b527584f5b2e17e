/**
 * The list operations behind the ledger's handlers: the DNI uniqueness
 * check, the per-id map of an edit, the filter of a removal and the append
 * of a new row, with the invariants every handler keeps.
 *
 * Ids are not unique: a new row takes the list length plus one, which a
 * removal can make equal to an id still present, so every operation here
 * acts on all records carrying the given id.
 */
module Roster {
  import opened Grades

  /** No record with a different id already holds `dni`. */
  function IsDniUnique(students: seq<Student>, dni: string, currentId: int): (r: bool)
    ensures r <==> forall x | x in students :: !(x.dni == dni && x.id != currentId)
  {
    if students == [] then true
    else if students[0].dni == dni && students[0].id != currentId then false
    else
      assert forall x | x in students :: x == students[0] || x in students[1..];
      IsDniUnique(students[1..], dni, currentId)
  }

  /** Every record with id `id` gets `field` set and its grades recomputed; others are kept. */
  function EditRecords(students: seq<Student>, id: int, field: EditableField, v: FieldValue): (r: seq<Student>)
    requires Fits(field, v)
    ensures |r| == |students|
    ensures forall i | 0 <= i < |r| ::
      r[i] == if students[i].id == id then CalculateGrades(students[i], field, v) else students[i]
  {
    if students == [] then []
    else
      var head := if students[0].id == id then CalculateGrades(students[0], field, v) else students[0];
      [head] + EditRecords(students[1..], id, field, v)
  }

  /** The list without any record whose id is `id`. */
  function WithoutId(students: seq<Student>, id: int): (r: seq<Student>)
    ensures |r| <= |students|
    ensures forall x | x in r :: x.id != id
  {
    if students == [] then []
    else
      (if students[0].id == id then [] else [students[0]]) + WithoutId(students[1..], id)
  }

  /** The list with a zeroed record appended, whose id is the old length plus one. */
  function WithNewStudent(students: seq<Student>): (r: seq<Student>)
    ensures |r| == |students| + 1
    ensures r[..|students|] == students
    ensures r[|students|] == Blank(|students| + 1)
  {
    students + [Blank(|students| + 1)]
  }

  /** Every record's derived fields agree with its raw fields. */
  predicate AllConsistent(students: seq<Student>)
  {
    forall x | x in students :: Consistent(x)
  }

  /** A non-empty DNI is never held by records with two different ids. */
  predicate DnisDistinctAcrossIds(students: seq<Student>)
  {
    forall a, b | a in students && b in students :: a.dni != "" && a.dni == b.dni ==> a.id == b.id
  }

  /** The invariant every handler keeps. */
  predicate WellFormed(students: seq<Student>)
  {
    AllConsistent(students) && DnisDistinctAcrossIds(students)
  }

  /**
   * An edit keeps the length, the order and every id; a record with another
   * id is untouched, and a record with the id changes only in the named raw
   * field (its derived fields are recomputed).
   */
  lemma EditRecordsFrame(students: seq<Student>, id: int, field: EditableField, v: FieldValue, i: int)
    requires Fits(field, v) && 0 <= i < |students|
    ensures var r := EditRecords(students, id, field, v);
      && |r| == |students|
      && r[i].id == students[i].id
      && (students[i].id != id ==> r[i] == students[i])
      && (students[i].id == id ==>
            && Consistent(r[i]) && Get(r[i], field) == v
            && forall f: EditableField :: f != field ==> Get(r[i], f) == Get(students[i], f))
  {
  }

  /**
   * After an accepted non-empty DNI edit (equivalently, a DNI edit to a value
   * no record with another id holds), a record holds the new DNI exactly when
   * it has the edited id. An empty DNI is accepted unchecked, so other ids may
   * still hold it.
   */
  lemma {:induction false} DniEditHolders(students: seq<Student>, id: int, dni: string)
    requires IsDniUnique(students, dni, id)
    ensures forall x | x in EditRecords(students, id, Dni, Text(dni)) :: x.dni == dni <==> x.id == id
  {
    var r := EditRecords(students, id, Dni, Text(dni));
    forall x | x in r ensures x.dni == dni <==> x.id == id {
      var i :| 0 <= i < |r| && r[i] == x;
      if students[i].id == id {
        assert Get(x, Dni) == Text(dni);
      } else {
        assert students[i] in students;
      }
    }
  }

  /** An edit leaves every record consistent. */
  lemma EditKeepsConsistent(students: seq<Student>, id: int, field: EditableField, v: FieldValue)
    requires AllConsistent(students) && Fits(field, v)
    ensures AllConsistent(EditRecords(students, id, field, v))
  {
    var r := EditRecords(students, id, field, v);
    forall x | x in r ensures Consistent(x) {
      var i := IndexIn(r, x);
      assert students[i] in students;
    }
  }

  /** An edit of a field other than the DNI leaves every DNI, and every id, where it was. */
  lemma EditKeepsDnis(students: seq<Student>, id: int, field: EditableField, v: FieldValue, i: int)
    requires Fits(field, v) && field != Dni && 0 <= i < |students|
    ensures EditRecords(students, id, field, v)[i].dni == students[i].dni
    ensures EditRecords(students, id, field, v)[i].id == students[i].id
  {
    assert Get(EditRecords(students, id, field, v)[i], Dni) == Get(students[i], Dni);
  }

  /** An edit keeps non-empty DNIs apart across ids, provided a non-empty DNI passed the uniqueness check. */
  lemma EditKeepsDnisDistinct(students: seq<Student>, id: int, field: EditableField, v: FieldValue)
    requires DnisDistinctAcrossIds(students) && Fits(field, v)
    requires field == Dni && v.text != "" ==> IsDniUnique(students, v.text, id)
    ensures DnisDistinctAcrossIds(EditRecords(students, id, field, v))
  {
    var r := EditRecords(students, id, field, v);
    if field == Dni && v.text != "" {
      DniEditHolders(students, id, v.text);
    }
    forall a, b | a in r && b in r && a.dni != "" && a.dni == b.dni ensures a.id == b.id {
      var i, j := IndexIn(r, a), IndexIn(r, b);
      assert students[i] in students && students[j] in students;
      if field != Dni {
        EditKeepsDnis(students, id, field, v, i);
        EditKeepsDnis(students, id, field, v, j);
      }
    }
  }

  /** An edit keeps the invariant, provided an edit of a non-empty DNI passed the uniqueness check. */
  lemma EditPreservesWellFormed(students: seq<Student>, id: int, field: EditableField, v: FieldValue)
    requires WellFormed(students) && Fits(field, v)
    requires field == Dni && v.text != "" ==> IsDniUnique(students, v.text, id)
    ensures WellFormed(EditRecords(students, id, field, v))
  {
    EditKeepsConsistent(students, id, field, v);
    EditKeepsDnisDistinct(students, id, field, v);
  }

  /** A position at which a record occurs in a list. */
  function IndexIn(s: seq<Student>, x: Student): (i: nat)
    requires x in s
    ensures i < |s| && s[i] == x
  {
    if s[0] == x then 0 else 1 + IndexIn(s[1..], x)
  }

  /** A removal keeps the invariant. */
  lemma RemovePreservesWellFormed(students: seq<Student>, id: int)
    requires WellFormed(students)
    ensures WellFormed(WithoutId(students, id))
  {
    var r := WithoutId(students, id);
    WithoutIdCounts(students, id);
    assert forall x | x in r :: x in students by {
      forall x | x in r ensures x in students {
        assert multiset(r)[x] > 0;
      }
    }
  }

  /** An addition keeps the invariant: the new record is consistent and has an empty DNI. */
  lemma AddPreservesWellFormed(students: seq<Student>)
    requires WellFormed(students)
    ensures WellFormed(WithNewStudent(students))
  {
    BlankConsistent(|students| + 1);
  }

  /** A list of one zeroed record satisfies the invariant. */
  lemma SingleBlankWellFormed(id: int)
    ensures WellFormed([Blank(id)])
  {
    var b := Blank(id);
    BlankConsistent(id);
    assert forall x | x in [b] :: x == b;
  }

  /** Removing distributes over concatenation, so the kept records stay in their relative order. */
  lemma {:induction false} WithoutIdAppend(a: seq<Student>, b: seq<Student>, id: int)
    ensures WithoutId(a + b, id) == WithoutId(a, id) + WithoutId(b, id)
  {
    if a == [] {
      assert a + b == b;
    } else {
      assert (a + b)[0] == a[0] && (a + b)[1..] == a[1..] + b;
      WithoutIdAppend(a[1..], b, id);
    }
  }

  /**
   * A removal keeps every record whose id differs, as many times as it
   * occurred, and no record with the id.
   */
  lemma {:induction false} WithoutIdCounts(students: seq<Student>, id: int)
    ensures forall x :: multiset(WithoutId(students, id))[x] == if x.id == id then 0 else multiset(students)[x]
  {
    if students != [] {
      assert students == [students[0]] + students[1..];
      WithoutIdCounts(students[1..], id);
    }
  }

  /** Removing an id no record carries changes nothing. */
  lemma {:induction false} WithoutIdAbsent(students: seq<Student>, id: int)
    requires forall x | x in students :: x.id != id
    ensures WithoutId(students, id) == students
  {
    if students != [] {
      assert students[0] in students;
      WithoutIdAbsent(students[1..], id);
    }
  }

  /**
   * A new row takes the list length plus one, so when a record already has
   * that id the list ends up with two records sharing it.
   */
  lemma AddRepeatsPresentId(students: seq<Student>, k: int)
    requires 0 <= k < |students| && students[k].id == |students| + 1
    ensures var s := WithNewStudent(students);
      k != |students| && s[k].id == s[|students|].id
  {
  }

  /**
   * Such a list is reachable: from records with ids 1 and 2, removing id 1
   * leaves the record with id 2 alone, and the next row added gets id 2 too.
   */
  lemma RemoveThenAddRepeatsId(first: Student, second: Student)
    requires first.id == 1 && second.id == 2
    ensures WithoutId([first, second], 1) == [second]
    ensures WithNewStudent([second])[0].id == WithNewStudent([second])[1].id
  {
    var s0 := [first, second];
    assert s0[1..] == [second];
    assert [second][1..] == [];
    assert WithoutId([second], 1) == [second] + WithoutId([], 1);
  }
}
