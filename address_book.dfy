/**
 * The student roster: an ordered sequence of students in which no two have
 * the same identity, and the operations that keep it so.
 */
module AddressBooks {
  import opened Students

  /** No two students in `s` have the same identity. */
  predicate Unique(s: seq<Student>) {
    forall i, j :: 0 <= i < j < |s| ==> !IsSameStudent(s[i], s[j])
  }

  /** Some student in `s` has the same identity as `p` (identity, not full equality). */
  predicate ContainsIdentity(s: seq<Student>, p: Student) {
    exists i :: 0 <= i < |s| && IsSameStudent(s[i], p)
  }

  /** Every student of `s` other than `target` (by full equality) has an identity different from `edited`'s. */
  predicate NoOtherHasIdentity(s: seq<Student>, target: Student, edited: Student) {
    forall i :: 0 <= i < |s| && s[i] != target ==> !IsSameStudent(s[i], edited)
  }

  /** The position of the first occurrence of `x`, as `List.indexOf` finds it. */
  function IndexOf(s: seq<Student>, x: Student): (k: nat)
    requires x in s
    ensures k < |s| && s[k] == x && x !in s[..k]
  {
    if s[0] == x then 0
    else
      var k := IndexOf(s[1..], x) + 1;
      assert s[..k] == [s[0]] + s[1..][..k - 1];
      k
  }

  /** `s` with the first occurrence of `target` replaced by `edited`. */
  function Replace(s: seq<Student>, target: Student, edited: Student): seq<Student>
    requires target in s
  {
    s[IndexOf(s, target) := edited]
  }

  /** `s` with the first occurrence of `key` taken out. */
  function Remove(s: seq<Student>, key: Student): seq<Student>
    requires key in s
  {
    s[..IndexOf(s, key)] + s[IndexOf(s, key) + 1..]
  }

  /** Having a student implies having its identity; having an identity need not mean having that very student. */
  lemma ContainsIdentityOfMember(s: seq<Student>, p: Student, q: Student)
    requires p in s && IsSameStudent(p, q)
    ensures ContainsIdentity(s, q)
  {
    var i :| 0 <= i < |s| && s[i] == p;
  }

  /** In a roster without duplicate identities, a student occurs exactly once. */
  lemma UniqueOccursOnce(s: seq<Student>, x: Student, i: nat)
    requires Unique(s) && i < |s| && s[i] == x
    ensures IndexOf(s, x) == i
  {
  }

  /** Appending a student with a new identity keeps the roster free of duplicates. */
  lemma AppendKeepsUnique(s: seq<Student>, p: Student)
    requires Unique(s) && !ContainsIdentity(s, p)
    ensures Unique(s + [p])
  {
    forall i, j | 0 <= i < j < |s + [p]|
      ensures !IsSameStudent((s + [p])[i], (s + [p])[j])
    {
      if j == |s| {
        assert (s + [p])[i] == s[i];
      }
    }
  }

  /**
   * The two ways the code states `setStudent`'s duplicate rule agree on a
   * roster without duplicates: "no other student shares the edited identity"
   * (the doc comment) and "the identity is unchanged or absent" (the check
   * the edit command performs).
   */
  lemma SetStudentRuleEquivalence(s: seq<Student>, target: Student, edited: Student)
    requires Unique(s) && target in s
    ensures NoOtherHasIdentity(s, target, edited)
        <==> (IsSameStudent(target, edited) || !ContainsIdentity(s, edited))
  {
    var k := IndexOf(s, target);
    if NoOtherHasIdentity(s, target, edited) && !IsSameStudent(target, edited) {
      forall i | 0 <= i < |s| ensures !IsSameStudent(s[i], edited) {
        if s[i] == target {
          assert IsSameStudent(s[i], target);
        }
      }
    }
    if IsSameStudent(target, edited) {
      forall i | 0 <= i < |s| && s[i] != target ensures !IsSameStudent(s[i], edited) {
        if i < k {
          assert !IsSameStudent(s[i], s[k]);
        } else if i > k {
          assert !IsSameStudent(s[k], s[i]);
        }
      }
    }
  }

  /** Replacing a student under `setStudent`'s precondition keeps the roster free of duplicates. */
  lemma ReplaceKeepsUnique(s: seq<Student>, target: Student, edited: Student)
    requires Unique(s) && target in s && NoOtherHasIdentity(s, target, edited)
    ensures Unique(Replace(s, target, edited))
  {
    var k := IndexOf(s, target);
    var r := Replace(s, target, edited);
    forall i, j | 0 <= i < j < |r| ensures !IsSameStudent(r[i], r[j]) {
      if i == k {
        UniqueOccursOnce(s, s[j], j);
      } else if j == k {
        UniqueOccursOnce(s, s[i], i);
      }
    }
  }

  /**
   * Removing a student from a roster without duplicates: the student is gone,
   * the roster is one shorter, and the others keep their relative order.
   */
  lemma RemoveIsExact(s: seq<Student>, key: Student)
    requires Unique(s) && key in s
    ensures Unique(Remove(s, key))
    ensures key !in Remove(s, key)
    ensures |Remove(s, key)| == |s| - 1
    ensures forall x :: x in Remove(s, key) <==> x in s && x != key
  {
    var k := IndexOf(s, key);
    var r := Remove(s, key);
    assert forall i :: 0 <= i < |r| ==> r[i] == if i < k then s[i] else s[i + 1];
    forall i, j | 0 <= i < j < |r| ensures !IsSameStudent(r[i], r[j]) {
      if j < k {
      } else if i < k {
        assert r[j] == s[j + 1];
      } else {
        assert r[i] == s[i + 1] && r[j] == s[j + 1];
      }
    }
    forall x | x in s && x != key ensures x in r {
      var i :| 0 <= i < |s| && s[i] == x;
      if i < k {
        assert r[i] == x;
      } else {
        assert i != k;
        assert r[i - 1] == x;
      }
    }
  }

  /** The roster of the address book. Duplicates are not allowed, by identity. */
  class AddressBook {
    var students: seq<Student>

    ghost predicate Valid()
      reads this
    {
      Unique(students)
    }

    /** An empty address book. */
    constructor ()
      ensures Valid() && students == []
    {
      students := [];
    }

    /** An address book holding the students of `toBeCopied`. */
    constructor Copy(toBeCopied: AddressBook)
      requires toBeCopied.Valid()
      ensures Valid() && students == toBeCopied.students
    {
      students := toBeCopied.students;
    }

    /** Replaces the roster with `newStudents`, which must not contain duplicates. */
    method SetStudents(newStudents: seq<Student>)
      requires Unique(newStudents)
      modifies this
      ensures Valid() && students == newStudents
    {
      students := newStudents;
    }

    /** Replaces the roster with the students of `newData`. */
    method ResetData(newData: AddressBook)
      requires newData.Valid()
      modifies this
      ensures Valid() && students == old(newData.students)
    {
      SetStudents(newData.students);
    }

    /** True if a student with the same identity as `s` is in the roster. */
    function HasStudent(s: Student): (r: bool)
      reads this
      ensures r <==> exists q :: q in students && IsSameStudent(q, s)
      ensures s in students ==> r
    {
      ContainsIdentity(students, s)
    }

    /** Appends `p`, which must not already be in the roster by identity. */
    method AddStudent(p: Student)
      requires Valid() && !HasStudent(p)
      modifies this
      ensures Valid()
      ensures students == old(students) + [p]
    {
      AppendKeepsUnique(students, p);
      students := students + [p];
    }

    /**
     * Replaces `target`, which must be in the roster, by `edited`, whose
     * identity no other student may have; the position is kept.
     */
    method SetStudent(target: Student, edited: Student)
      requires Valid() && target in students && NoOtherHasIdentity(students, target, edited)
      modifies this
      ensures Valid()
      ensures students == Replace(old(students), target, edited)
    {
      ReplaceKeepsUnique(students, target, edited);
      students := Replace(students, target, edited);
    }

    /** Removes `key`, which must be in the roster. */
    method RemoveStudent(key: Student)
      requires Valid() && key in students
      modifies this
      ensures Valid()
      ensures students == Remove(old(students), key)
    {
      RemoveIsExact(students, key);
      students := Remove(students, key);
    }

    /** The roster, in order. */
    function StudentList(): seq<Student>
      reads this
    {
      students
    }

    /** Two address books are equal when their rosters are equal, element by element. */
    function Equals(other: AddressBook): bool
      reads this, other
    {
      students == other.students
    }
  }
}
