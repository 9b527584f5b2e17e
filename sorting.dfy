/**
 * The roster as the table shows it: a copy of the list sorted by last name.
 *
 * The comparison is the host's Spanish-locale, accent- and case-insensitive
 * collation; here it is a parameter `le`, where `le(a, b)` stands for
 * "a compares at most b". The host's sort is stable, so the model is a
 * stable insertion sort; it leaves the list it is given as it was.
 */
module RosterSort {
  import opened Grades

  /** `le` is transitive and total, as a consistent comparator is. */
  ghost predicate TotalPreorder(le: (string, string) -> bool)
  {
    && (forall a, b, c :: le(a, b) && le(b, c) ==> le(a, c))
    && (forall a, b :: le(a, b) || le(b, a))
  }

  /** Two last names the comparator cannot tell apart. */
  predicate Equivalent(le: (string, string) -> bool, a: string, b: string)
  {
    le(a, b) && le(b, a)
  }

  /** Records appear in non-decreasing order of last name. */
  ghost predicate SortedByLastName(le: (string, string) -> bool, s: seq<Student>)
  {
    forall i, j | 0 <= i < j < |s| :: le(s[i].lastName, s[j].lastName)
  }

  /** The records whose last name is equivalent to `key`, in list order. */
  function WithKey(le: (string, string) -> bool, key: string, s: seq<Student>): (r: seq<Student>)
    ensures |r| <= |s|
    ensures forall x | x in r :: Equivalent(le, x.lastName, key)
  {
    if s == [] then []
    else (if Equivalent(le, s[0].lastName, key) then [s[0]] else []) + WithKey(le, key, s[1..])
  }

  /** Inserts `x` before the first record it compares at most. */
  function InsertByLastName(le: (string, string) -> bool, x: Student, t: seq<Student>): (r: seq<Student>)
    ensures multiset(r) == multiset(t) + multiset{x}
  {
    if t == [] then [x]
    else if le(x.lastName, t[0].lastName) then [x] + t
    else
      assert t == [t[0]] + t[1..];
      [t[0]] + InsertByLastName(le, x, t[1..])
  }

  /** The list sorted by last name: a permutation of it. */
  function SortByLastName(le: (string, string) -> bool, s: seq<Student>): (r: seq<Student>)
    ensures multiset(r) == multiset(s)
  {
    if s == [] then []
    else
      assert s == [s[0]] + s[1..];
      InsertByLastName(le, s[0], SortByLastName(le, s[1..]))
  }

  /** Insertion into a sorted list gives a sorted list. */
  lemma {:induction false} InsertKeepsSorted(le: (string, string) -> bool, x: Student, t: seq<Student>)
    requires TotalPreorder(le) && SortedByLastName(le, t)
    ensures SortedByLastName(le, InsertByLastName(le, x, t))
  {
    if t == [] {
    } else if le(x.lastName, t[0].lastName) {
      var r := [x] + t;
      forall i, j | 0 <= i < j < |r| ensures le(r[i].lastName, r[j].lastName) {
        if i == 0 && j > 1 {
          assert le(t[0].lastName, t[j - 1].lastName);
        }
      }
    } else {
      var rest := InsertByLastName(le, x, t[1..]);
      InsertKeepsSorted(le, x, t[1..]);
      forall y | y in rest ensures le(t[0].lastName, y.lastName) {
        assert y in multiset(rest);
        if y != x {
          assert y in t[1..];
        }
      }
      var r := [t[0]] + rest;
      forall i, j | 0 <= i < j < |r| ensures le(r[i].lastName, r[j].lastName) {
        if i == 0 {
          assert rest[j - 1] in rest;
        }
      }
    }
  }

  /** Under a consistent comparator the sorted view is ordered by last name. */
  lemma {:induction false} SortIsSorted(le: (string, string) -> bool, s: seq<Student>)
    ensures TotalPreorder(le) ==> SortedByLastName(le, SortByLastName(le, s))
  {
    if s != [] && TotalPreorder(le) {
      SortIsSorted(le, s[1..]);
      InsertKeepsSorted(le, s[0], SortByLastName(le, s[1..]));
    }
  }

  /** A last name that sorts strictly before one equivalent to `key` is not itself equivalent to `key`. */
  lemma StrictlyBeforeOtherKey(le: (string, string) -> bool, a: string, b: string, key: string)
    requires TotalPreorder(le) && !le(a, b)
    ensures Equivalent(le, a, key) ==> !Equivalent(le, b, key)
  {
  }

  /** Drawing the records with one key out of a list with a known head. */
  lemma WithKeyCons(le: (string, string) -> bool, key: string, y: Student, t: seq<Student>)
    ensures Equivalent(le, y.lastName, key) ==> WithKey(le, key, [y] + t) == [y] + WithKey(le, key, t)
    ensures !Equivalent(le, y.lastName, key) ==> WithKey(le, key, [y] + t) == WithKey(le, key, t)
  {
    assert ([y] + t)[0] == y && ([y] + t)[1..] == t;
  }

  /**
   * The step of `InsertKeepsKeyOrder` where `x` goes past the head `y`: when
   * `x` and `y` are not both equivalent to `key`, drawing the records with
   * that key commutes with the insertion one position further on.
   */
  lemma KeyOrderPastHead(le: (string, string) -> bool, x: Student, y: Student, t: seq<Student>, key: string)
    requires !le(x.lastName, y.lastName)
    requires !(Equivalent(le, x.lastName, key) && Equivalent(le, y.lastName, key))
    requires Equivalent(le, x.lastName, key) ==> WithKey(le, key, InsertByLastName(le, x, t)) == [x] + WithKey(le, key, t)
    requires !Equivalent(le, x.lastName, key) ==> WithKey(le, key, InsertByLastName(le, x, t)) == WithKey(le, key, t)
    ensures Equivalent(le, x.lastName, key) ==> WithKey(le, key, InsertByLastName(le, x, [y] + t)) == [x] + WithKey(le, key, [y] + t)
    ensures !Equivalent(le, x.lastName, key) ==> WithKey(le, key, InsertByLastName(le, x, [y] + t)) == WithKey(le, key, [y] + t)
  {
    var rest := InsertByLastName(le, x, t);
    var yt := [y] + t;
    assert yt[0] == y && yt[1..] == t;
    assert InsertByLastName(le, x, yt) == [y] + rest;
    WithKeyCons(le, key, y, rest);
    WithKeyCons(le, key, y, t);
  }

  /** Inserting `x` puts it ahead of every record with an equivalent last name. */
  lemma {:induction false} InsertKeepsKeyOrder(le: (string, string) -> bool, x: Student, t: seq<Student>, key: string)
    requires TotalPreorder(le)
    ensures Equivalent(le, x.lastName, key) ==> WithKey(le, key, InsertByLastName(le, x, t)) == [x] + WithKey(le, key, t)
    ensures !Equivalent(le, x.lastName, key) ==> WithKey(le, key, InsertByLastName(le, x, t)) == WithKey(le, key, t)
  {
    if t == [] {
      WithKeyCons(le, key, x, []);
      assert [x] + [] == [x];
    } else if le(x.lastName, t[0].lastName) {
      WithKeyCons(le, key, x, t);
    } else {
      InsertKeepsKeyOrder(le, x, t[1..], key);
      StrictlyBeforeOtherKey(le, x.lastName, t[0].lastName, key);
      KeyOrderPastHead(le, x, t[0], t[1..], key);
      assert [t[0]] + t[1..] == t;
    }
  }

  /** The sort is stable: records with equivalent last names keep their relative order. */
  lemma {:induction false} SortIsStable(le: (string, string) -> bool, s: seq<Student>, key: string)
    requires TotalPreorder(le)
    ensures WithKey(le, key, SortByLastName(le, s)) == WithKey(le, key, s)
  {
    if s != [] {
      InsertKeepsKeyOrder(le, s[0], SortByLastName(le, s[1..]), key);
      SortIsStable(le, s[1..], key);
    }
  }

  /** An already sorted list is its own sorted view. */
  lemma {:induction false} SortSortedIsIdentity(le: (string, string) -> bool, s: seq<Student>)
    requires TotalPreorder(le) && SortedByLastName(le, s)
    ensures SortByLastName(le, s) == s
  {
    if s != [] {
      SortSortedIsIdentity(le, s[1..]);
      if |s| > 1 {
        assert le(s[0].lastName, s[1].lastName);
        assert s[1..] == [s[1]] + s[2..];
      }
    }
  }
}
