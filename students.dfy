/**
 * The student entity and its field values. Each field value wraps the
 * string it was parsed from; the rule that string must satisfy belongs to
 * the field's parser.
 */
module Students {

  datatype Name = Name(fullName: string)
  datatype Phone = Phone(value: string)
  datatype Email = Email(value: string)
  datatype Address = Address(value: string)
  datatype Tag = Tag(tagName: string)

  /** Full equality of students is datatype equality: all five fields, the tags as a set. */
  datatype Student = Student(name: Name, phone: Phone, email: Email, address: Address, tags: set<Tag>)

  /**
   * The weak identity used for duplicate detection: two students are the same
   * student when their names are equal (exact, case-sensitive comparison).
   */
  predicate IsSameStudent(a: Student, b: Student) {
    a.name == b.name
  }
}
