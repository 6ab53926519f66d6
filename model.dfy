/**
 * The model state the commands work on: the address book and the predicate
 * that selects the students on display.
 */
module Models {
  import opened Students
  import opened AddressBooks

  /** The filtered view: the students of `s` that satisfy `p`, in roster order. */
  function Filter(s: seq<Student>, p: Student -> bool): (r: seq<Student>)
    ensures |r| <= |s|
    ensures forall x :: x in r ==> x in s && p(x)
    decreases |s|
  {
    if |s| == 0 then [] else (if p(s[0]) then [s[0]] else []) + Filter(s[1..], p)
  }

  /** `PREDICATE_SHOW_ALL_STUDENTS`: accepts every student. */
  function ShowAllStudents(s: Student): (r: bool)
    ensures r
  {
    true
  }

  /** Every student of `s` that satisfies `p` is on display. */
  lemma {:induction false} FilterMembers(s: seq<Student>, p: Student -> bool, x: Student)
    ensures x in Filter(s, p) <==> x in s && p(x)
    decreases |s|
  {
    if |s| > 0 {
      FilterMembers(s[1..], p, x);
      assert s == [s[0]] + s[1..];
    }
  }

  /** `FilterMembers` for every student at once. */
  lemma FilterMembersAll(s: seq<Student>, p: Student -> bool)
    ensures forall x :: x in Filter(s, p) <==> x in s && p(x)
  {
    forall x {
      FilterMembers(s, p, x);
    }
  }

  /** A predicate that accepts everyone displays the whole roster, in order. */
  lemma {:induction false} FilterAcceptingAll(s: seq<Student>, p: Student -> bool)
    requires forall x :: p(x)
    ensures Filter(s, p) == s
    decreases |s|
  {
    if |s| > 0 {
      FilterAcceptingAll(s[1..], p);
      assert s == [s[0]] + s[1..];
    }
  }

  /** After the show-all predicate is applied, the filtered list is the whole roster. */
  lemma FilterShowAll(s: seq<Student>)
    ensures Filter(s, ShowAllStudents) == s
  {
    FilterAcceptingAll(s, ShowAllStudents);
  }

  /** A predicate that accepts no one displays nothing. */
  lemma {:induction false} FilterAcceptingNone(s: seq<Student>, p: Student -> bool)
    requires forall x :: !p(x)
    ensures Filter(s, p) == []
    decreases |s|
  {
    if |s| > 0 {
      FilterAcceptingNone(s[1..], p);
    }
  }

  /** Filtering keeps roster order: the view of a concatenation is the concatenation of the views. */
  lemma {:induction false} FilterAppend(s: seq<Student>, t: seq<Student>, p: Student -> bool)
    ensures Filter(s + t, p) == Filter(s, p) + Filter(t, p)
    decreases |s|
  {
    if |s| == 0 {
      assert s + t == t;
    } else {
      assert (s + t)[0] == s[0];
      assert (s + t)[1..] == s[1..] + t;
      FilterAppend(s[1..], t, p);
    }
  }

  /**
   * Deleting the student shown at a position removes exactly that student:
   * the roster is one shorter, has no duplicates, and keeps every other student.
   */
  lemma RemoveDisplayed(s: seq<Student>, p: Student -> bool, i: nat)
    requires Unique(s) && i < |Filter(s, p)|
    ensures Filter(s, p)[i] in s
    ensures var x := Filter(s, p)[i];
      && Unique(Remove(s, x))
      && |Remove(s, x)| == |s| - 1
      && x !in Remove(s, x)
      && forall y :: y in Remove(s, x) <==> y in s && y != x
  {
    var x := Filter(s, p)[i];
    assert x in Filter(s, p);
    RemoveIsExact(s, x);
  }

  /** The model: an address book and the current filter of the displayed list. */
  class Model {
    const addressBook: AddressBook
    var filter: Student -> bool

    ghost predicate Valid()
      reads this, addressBook
    {
      addressBook.Valid()
    }

    /** A model over a roster without duplicates, showing every student. */
    constructor (students: seq<Student>)
      requires Unique(students)
      ensures Valid() && fresh(addressBook)
      ensures addressBook.students == students && filter == ShowAllStudents
    {
      var book := new AddressBook();
      book.SetStudents(students);
      addressBook := book;
      filter := ShowAllStudents;
    }

    /** Replaces the address book's data with that of `newData`. */
    method SetAddressBook(newData: AddressBook)
      requires Valid() && newData.Valid()
      modifies addressBook
      ensures Valid()
      ensures addressBook.students == old(newData.students)
    {
      addressBook.ResetData(newData);
    }

    /** True if a student with the same identity as `s` is in the roster. */
    function HasStudent(s: Student): (r: bool)
      reads this, addressBook
      ensures r <==> exists q :: q in addressBook.students && IsSameStudent(q, s)
    {
      addressBook.HasStudent(s)
    }

    /** Deletes `target`, which must be in the roster; the filter stays as it is. */
    method DeleteStudent(target: Student)
      requires Valid() && target in addressBook.students
      modifies addressBook
      ensures Valid()
      ensures addressBook.students == Remove(old(addressBook.students), target)
    {
      addressBook.RemoveStudent(target);
    }

    /** Adds `s`, which must not be in the roster by identity. */
    method AddStudent(s: Student)
      requires Valid() && !HasStudent(s)
      modifies addressBook
      ensures Valid()
      ensures addressBook.students == old(addressBook.students) + [s]
    {
      addressBook.AddStudent(s);
    }

    /** Replaces `target` by `edited`, whose identity no other student may have. */
    method SetStudent(target: Student, edited: Student)
      requires Valid() && target in addressBook.students
      requires NoOtherHasIdentity(addressBook.students, target, edited)
      modifies addressBook
      ensures Valid()
      ensures addressBook.students == Replace(old(addressBook.students), target, edited)
    {
      addressBook.SetStudent(target, edited);
    }

    /** The displayed list: exactly the roster's students that the current predicate accepts. */
    function FilteredStudentList(): (r: seq<Student>)
      reads this, addressBook
      ensures |r| <= |addressBook.students|
      ensures forall x :: x in r <==> x in addressBook.students && filter(x)
    {
      FilterMembersAll(addressBook.students, filter);
      Filter(addressBook.students, filter)
    }

    /** Changes the filter; the roster is not touched. */
    method UpdateFilteredStudentList(p: Student -> bool)
      modifies this
      ensures Valid() <==> old(Valid())
      ensures filter == p
      ensures addressBook.students == old(addressBook.students)
    {
      filter := p;
    }
  }
}
