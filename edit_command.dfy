/**
 * The edit command: a partial update of one displayed student, checked
 * against the roster's identity rule before it is committed.
 */
module EditCommands {
  import opened Wrappers
  import opened Students
  import opened Indexes
  import opened AddressBooks
  import opened Models

  /** The fields to edit; an absent field is left as it is. Tags, when present, replace the whole set. */
  class EditStudentDescriptor {
    var name: Option<Name>
    var phone: Option<Phone>
    var email: Option<Email>
    var address: Option<Address>
    var tags: Option<set<Tag>>

    /** A descriptor that edits nothing. */
    constructor ()
      ensures name == None && phone == None && email == None && address == None && tags == None
    {
      name, phone, email, address, tags := None, None, None, None, None;
    }

    /** The copy constructor. */
    constructor Copy(toCopy: EditStudentDescriptor)
      ensures Equals(toCopy)
    {
      name, phone, email, address, tags := toCopy.name, toCopy.phone, toCopy.email, toCopy.address, toCopy.tags;
    }

    /** True if at least one field is edited; when none is, applying the descriptor changes no student. */
    function IsAnyFieldEdited(): (r: bool)
      reads this
      ensures !r ==> forall s :: CreateEditedStudent(s, this) == s
    {
      name.Some? || phone.Some? || email.Some? || address.Some? || tags.Some?
    }

    method SetName(name: Option<Name>)
      modifies this
      ensures this.name == name
      ensures phone == old(phone) && email == old(email) && address == old(address) && tags == old(tags)
    {
      this.name := name;
    }

    method SetPhone(phone: Option<Phone>)
      modifies this
      ensures this.phone == phone
      ensures name == old(name) && email == old(email) && address == old(address) && tags == old(tags)
    {
      this.phone := phone;
    }

    method SetEmail(email: Option<Email>)
      modifies this
      ensures this.email == email
      ensures name == old(name) && phone == old(phone) && address == old(address) && tags == old(tags)
    {
      this.email := email;
    }

    method SetAddress(address: Option<Address>)
      modifies this
      ensures this.address == address
      ensures name == old(name) && phone == old(phone) && email == old(email) && tags == old(tags)
    {
      this.address := address;
    }

    method SetTags(tags: Option<set<Tag>>)
      modifies this
      ensures this.tags == tags
      ensures name == old(name) && phone == old(phone) && email == old(email) && address == old(address)
    {
      this.tags := tags;
    }

    /** Field-wise equality of descriptors. */
    function Equals(other: EditStudentDescriptor): bool
      reads this, other
    {
      name == other.name && phone == other.phone && email == other.email
        && address == other.address && tags == other.tags
    }
  }

  /** `createEditedStudent`: each field from the descriptor when present, else from the original. */
  function CreateEditedStudent(original: Student, d: EditStudentDescriptor): (r: Student)
    reads d
    ensures IsSameStudent(original, r) <==> (d.name.None? || d.name.value == original.name)
    ensures d.tags.Some? ==> r.tags == d.tags.value
    ensures d.name.None? && d.phone.None? && d.email.None? && d.address.None? && d.tags.None? ==> r == original
  {
    Student(d.name.GetOr(original.name), d.phone.GetOr(original.phone), d.email.GetOr(original.email),
            d.address.GetOr(original.address), d.tags.GetOr(original.tags))
  }

  /**
   * Whole-set replacement of tags: a present tag set becomes the student's tags
   * exactly, whatever the original tags were; absent tags keep the original set.
   * The other fields likewise come from the descriptor when present.
   */
  lemma EditedFields(original: Student, d: EditStudentDescriptor)
    ensures var edited := CreateEditedStudent(original, d);
      && (d.tags.Some? ==> edited.tags == d.tags.value)
      && (d.tags.None? ==> edited.tags == original.tags)
      && edited.name == (if d.name.Some? then d.name.value else original.name)
      && edited.phone == (if d.phone.Some? then d.phone.value else original.phone)
      && edited.email == (if d.email.Some? then d.email.value else original.email)
      && edited.address == (if d.address.Some? then d.address.value else original.address)
  {
  }

  /** Applying the same edit twice is the same as applying it once. */
  lemma EditIsIdempotent(original: Student, d: EditStudentDescriptor)
    ensures CreateEditedStudent(CreateEditedStudent(original, d), d) == CreateEditedStudent(original, d)
  {
  }

  /** The edited student keeps the original's identity iff the name is not edited to a different one. */
  lemma EditKeepsIdentity(original: Student, d: EditStudentDescriptor)
    ensures IsSameStudent(original, CreateEditedStudent(original, d))
        <==> (d.name.None? || d.name.value == original.name)
  {
  }

  /** A string different from both `a` and `b` (it is longer than either). */
  function AvoidString(a: string, b: string): (r: string)
    ensures r != a && r != b
  {
    a + b + "."
  }

  /** A tag set different from both `a` and `b`. */
  function AvoidTags(a: set<Tag>, b: set<Tag>): (r: set<Tag>)
    ensures r != a && r != b
  {
    if {} != a && {} != b then {}
    else if {Tag("a")} != a && {Tag("a")} != b then {Tag("a")}
    else
      assert Tag("a") !in {Tag("b")};
      {Tag("b")}
  }

  /** A student none of whose fields equals a value that `d` or `e` would write. */
  function StudentUnlike(d: EditStudentDescriptor, e: EditStudentDescriptor): (s: Student)
    reads d, e
    ensures d.name != Some(s.name) && e.name != Some(s.name)
    ensures d.phone != Some(s.phone) && e.phone != Some(s.phone)
    ensures d.email != Some(s.email) && e.email != Some(s.email)
    ensures d.address != Some(s.address) && e.address != Some(s.address)
    ensures d.tags != Some(s.tags) && e.tags != Some(s.tags)
  {
    Student(
      Name(AvoidString(d.name.GetOr(Name("")).fullName, e.name.GetOr(Name("")).fullName)),
      Phone(AvoidString(d.phone.GetOr(Phone("")).value, e.phone.GetOr(Phone("")).value)),
      Email(AvoidString(d.email.GetOr(Email("")).value, e.email.GetOr(Email("")).value)),
      Address(AvoidString(d.address.GetOr(Address("")).value, e.address.GetOr(Address("")).value)),
      AvoidTags(d.tags.GetOr({}), e.tags.GetOr({})))
  }

  /**
   * `isAnyFieldEdited` is false exactly when the descriptor leaves every
   * student as it is: an empty edit yields a student equal to the original,
   * and an edit with some field set changes some student.
   */
  lemma NoFieldEditedIffIdentity(d: EditStudentDescriptor)
    ensures !d.IsAnyFieldEdited() <==> forall s :: CreateEditedStudent(s, d) == s
  {
    if d.IsAnyFieldEdited() {
      var s := StudentUnlike(d, d);
      assert CreateEditedStudent(s, d) != s;
    }
  }

  /** Two descriptors are equal iff they perform the same edit on every student. */
  lemma EqualsIffSameEdit(d: EditStudentDescriptor, e: EditStudentDescriptor)
    ensures d.Equals(e) <==> forall s :: CreateEditedStudent(s, d) == CreateEditedStudent(s, e)
  {
    if forall s :: CreateEditedStudent(s, d) == CreateEditedStudent(s, e) {
      var s := StudentUnlike(d, e);
      assert CreateEditedStudent(s, d) == CreateEditedStudent(s, e);
    }
  }

  /** Why an edit command failed. */
  datatype EditError = InvalidDisplayedIndex | DuplicateStudent

  /** The outcome of an edit: the command's result and the roster afterwards. */
  datatype EditStep = EditStep(result: Result<Student, EditError>, roster: seq<Student>)

  /**
   * The edit transaction on a roster and the list on display: resolve the index
   * in the displayed list, merge, check for a duplicate, replace in place.
   */
  function EditOutcome(roster: seq<Student>, shown: seq<Student>, index: Index, d: EditStudentDescriptor): (out: EditStep)
    reads d
    requires forall x :: x in shown ==> x in roster
    ensures out.result.Err? ==> out.roster == roster
    ensures |out.roster| == |roster|
  {
    if index.zeroBased >= |shown| then EditStep(Err(InvalidDisplayedIndex), roster)
    else
      var target := shown[index.zeroBased];
      var edited := CreateEditedStudent(target, d);
      if !IsSameStudent(target, edited) && ContainsIdentity(roster, edited) then EditStep(Err(DuplicateStudent), roster)
      else EditStep(Ok(edited), Replace(roster, target, edited))
  }

  /**
   * An index past the end of the displayed list fails with the
   * invalid-displayed-index error, whether or not it is within the whole roster.
   */
  lemma EditOutsideDisplayedList(roster: seq<Student>, shown: seq<Student>, index: Index, d: EditStudentDescriptor)
    requires forall x :: x in shown ==> x in roster
    requires |shown| <= index.zeroBased
    ensures EditOutcome(roster, shown, index, d) == EditStep(Err(InvalidDisplayedIndex), roster)
  {
  }

  /** An edit never introduces a duplicate identity into the roster. */
  lemma EditKeepsRosterUnique(roster: seq<Student>, shown: seq<Student>, index: Index, d: EditStudentDescriptor)
    requires forall x :: x in shown ==> x in roster
    requires Unique(roster)
    ensures Unique(EditOutcome(roster, shown, index, d).roster)
  {
    if index.zeroBased < |shown| {
      var target := shown[index.zeroBased];
      var edited := CreateEditedStudent(target, d);
      if IsSameStudent(target, edited) || !ContainsIdentity(roster, edited) {
        SetStudentRuleEquivalence(roster, target, edited);
        ReplaceKeepsUnique(roster, target, edited);
      }
    }
  }

  /**
   * A successful edit puts the merged student where the displayed one was and
   * changes nothing else in the roster.
   */
  lemma EditSucceeds(roster: seq<Student>, shown: seq<Student>, index: Index, d: EditStudentDescriptor)
    requires forall x :: x in shown ==> x in roster
    requires EditOutcome(roster, shown, index, d).result.Ok?
    ensures index.zeroBased < |shown|
    ensures var target := shown[index.zeroBased];
      var out := EditOutcome(roster, shown, index, d);
      && out.result.value == CreateEditedStudent(target, d)
      && out.roster[IndexOf(roster, target)] == out.result.value
      && forall k :: 0 <= k < |roster| && k != IndexOf(roster, target) ==> out.roster[k] == roster[k]
  {
  }

  /** Editing a displayed student so that it keeps its own name always succeeds. */
  lemma EditKeepingNameSucceeds(roster: seq<Student>, shown: seq<Student>, index: Index, d: EditStudentDescriptor)
    requires forall x :: x in shown ==> x in roster
    requires index.zeroBased < |shown|
    requires d.name.None? || d.name.value == shown[index.zeroBased].name
    ensures EditOutcome(roster, shown, index, d).result == Ok(CreateEditedStudent(shown[index.zeroBased], d))
  {
  }

  /**
   * Editing a displayed student to the name of a different student of the
   * roster fails with the duplicate error and leaves the roster unchanged.
   */
  lemma EditIntoOtherNameFails(roster: seq<Student>, shown: seq<Student>, index: Index, d: EditStudentDescriptor, j: nat)
    requires forall x :: x in shown ==> x in roster
    requires Unique(roster) && index.zeroBased < |shown| && j < |roster|
    requires roster[j] != shown[index.zeroBased] && d.name == Some(roster[j].name)
    ensures EditOutcome(roster, shown, index, d) == EditStep(Err(DuplicateStudent), roster)
  {
    var target := shown[index.zeroBased];
    assert target in roster;
  }

  /** An edit that sets no field succeeds and leaves the roster exactly as it was. */
  lemma EmptyEditChangesNothing(roster: seq<Student>, shown: seq<Student>, index: Index, d: EditStudentDescriptor)
    requires forall x :: x in shown ==> x in roster
    requires !d.IsAnyFieldEdited() && index.zeroBased < |shown|
    ensures EditOutcome(roster, shown, index, d) == EditStep(Ok(shown[index.zeroBased]), roster)
  {
    var target := shown[index.zeroBased];
    var k := IndexOf(roster, target);
    assert CreateEditedStudent(target, d) == target;
    assert roster[k := target] == roster;
  }

  /** Edits the student at `index` of the displayed list with `descriptor`. */
  class EditCommand {
    const index: Index
    const descriptor: EditStudentDescriptor

    /** Keeps a copy of the descriptor, so later changes to the caller's object do not reach the command. */
    constructor (index: Index, editStudentDescriptor: EditStudentDescriptor)
      ensures this.index == index && fresh(descriptor) && descriptor.Equals(editStudentDescriptor)
    {
      this.index := index;
      descriptor := new EditStudentDescriptor.Copy(editStudentDescriptor);
    }

    /**
     * `execute`: a failure leaves the model as it was; a success replaces the
     * displayed student by the edited one and resets the filter to show all.
     */
    method Execute(model: Model) returns (r: Result<Student, EditError>)
      requires model.Valid()
      modifies model, model.addressBook
      ensures model.Valid()
      ensures var out := EditOutcome(old(model.addressBook.students), old(model.FilteredStudentList()), index, descriptor);
        r == out.result && model.addressBook.students == out.roster
      ensures r.Ok? ==> model.filter == ShowAllStudents && model.FilteredStudentList() == model.addressBook.students
      ensures r.Err? ==> model.filter == old(model.filter)
    {
      var lastShownList := model.FilteredStudentList();
      if index.zeroBased >= |lastShownList| {
        return Err(InvalidDisplayedIndex);
      }
      var target := lastShownList[index.zeroBased];
      var edited := CreateEditedStudent(target, descriptor);
      if !IsSameStudent(target, edited) && model.HasStudent(edited) {
        return Err(DuplicateStudent);
      }
      SetStudentRuleEquivalence(model.addressBook.students, target, edited);
      model.SetStudent(target, edited);
      model.UpdateFilteredStudentList(ShowAllStudents);
      FilterShowAll(model.addressBook.students);
      return Ok(edited);
    }

    /** Two edit commands are equal when their indices and descriptors are. */
    function Equals(other: EditCommand): bool
      reads this, descriptor, other, other.descriptor
    {
      index == other.index && descriptor.Equals(other.descriptor)
    }
  }
}
