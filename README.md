# Student roster, edit pipeline and field parsers — a Dafny model

This project models the core of a desktop student roster (an address book of
students with name, phone, email, address and tags):

- **the roster** (`AddressBook`): an ordered sequence of students in which no
  two have the same identity. Identity (`isSameStudent`) is modelled as equality
  of names, exact and case-sensitive (`Students.IsSameStudent`). The class keeps
  this invariant as `Valid()`. `AddStudent`, `SetStudent` and `RemoveStudent`
  take their doc-comment preconditions as `requires` and state the new roster
  exactly.
- **the model state** (`Model`): the address book plus the predicate that
  selects the displayed students. The displayed list is recomputed from the
  roster and the predicate (`Models.Filter`), never cached.
- **the edit pipeline** (`EditCommand`): a descriptor of optional fields is
  merged onto the displayed student. The merged student is checked against the
  identity rule, then committed in place, and the filter is reset to show all.
  The whole transaction is also stated as a function, `EditOutcome`, of the
  roster and the displayed list. `Execute` is proved equal to it. Lemmas prove
  that failures change nothing, that uniqueness is kept, that an empty edit is
  a no-op, that the index is checked against the displayed list, and that
  renaming onto another student fails.
- **the parsers** (`ParserUtil`): trim-then-validate field parsers, `parseTags`
  (a loop into a set), `parseIndex`, `parseDescription`, `parseDayOfWeek` and
  `parseLocalTime`. They run over a model of the Java string operations they
  use (`JavaText`: `trim`, `compareTo`, `toLowerCase`, `Integer.parseInt`).

Design choices:

- The validity rules of `Name`, `Phone`, `Email`, `Address` and `Tag`, and
  `StringUtil.isNonZeroUnsignedInteger`, are not part of this model. Their
  sources are regular expressions and a helper that are not shown.
- Each parser therefore takes its rule as a `string -> bool` parameter, so
  every parser property is proved for every rule.
- `parseIndex` is also proved for the rule as its name and message describe it
  (`ParserUtil.IsNonZeroUnsignedInteger`).
- Java runtime exceptions that escape a parser are modelled as distinct
  `ParseFailure` values, for which `IsParseException()` is false. These are
  `NumberFormatException`, `DateTimeException` and
  `IndexOutOfBoundsException`.
- I/O, the GUI and persistence are not modelled.

Behaviour of the code that the model makes explicit:

- `UniqueStudentList` throws when a caller breaks a documented precondition of
  add, replace or remove ("present", "absent", "no other student with this
  identity"). That class is not part of this model; those doc-comment
  preconditions are the `requires` clauses of the roster operations here.
- The time parser compares each half with "23" and "59" as strings before
  converting; on digits this is the numeric comparison, so "1261" is rejected
  because "61" compares greater than "59" (`ParserUtil.ParseLocalTimeOfDigits`).
- `parseDayOfWeek` lower-cases its input but does not trim it (see Findings).

## Model

| member | source | states |
|---|---|---|
| `JavaText.TrimStartSpec` | src/main/java/seedu/address/logic/parser/ParserUtil.java:49 | the front part `trim()` removes is all characters at most U+0020, and what remains does not start with one |
| `JavaText.TrimEndSpec` | src/main/java/seedu/address/logic/parser/ParserUtil.java:49 | the same at the back |
| `JavaText.TrimSpec` | src/main/java/seedu/address/logic/parser/ParserUtil.java:49 | `trim()` yields a contiguous part of the input with only trimmable characters cut off, and that part has no trimmable character at either end |
| `JavaText.TrimIdempotent` | src/main/java/seedu/address/logic/parser/ParserUtil.java:47-54 | trimming a trimmed string changes nothing |
| `JavaText.TrimIgnoresPadding` | src/main/java/seedu/address/logic/parser/ParserUtil.java:28-34 | whitespace added on either side of an input does not change its trimmed form |
| `JavaText.ToLowerCase` | src/main/java/seedu/address/logic/parser/ParserUtil.java:155 | lower-casing keeps the length (true of this ASCII-only model; Java's mapping of U+0130 makes a string longer) |
| `JavaText.ParseInt` | src/main/java/seedu/address/logic/parser/ParserUtil.java:38 | `Integer.parseInt` only yields values in the 32-bit range |
| `JavaText.ParseIntDigits` | src/main/java/seedu/address/logic/parser/ParserUtil.java:38 | an unsigned digit string parses to the number it denotes exactly when that number fits in an `int` |
| `JavaText.TwoDigitCompareIsNumeric` | src/main/java/seedu/address/logic/parser/ParserUtil.java:192-195 | for two-digit strings, `compareTo(...) > 0` holds iff the first number is larger |
| `Indexes.FromOneBased` | src/main/java/seedu/address/logic/parser/ParserUtil.java:38 | an index exists exactly for one-based values of at least 1, and it gives that value back |
| `ParserUtil.ParseIndex` | src/main/java/seedu/address/logic/parser/ParserUtil.java:33-39 | fails with the invalid-index error iff the rule rejects the trimmed input; on success `Integer.parseInt` of the trimmed input is the index's one-based value |
| `ParserUtil.ParseIndexOfNonZeroUnsigned` | src/main/java/seedu/address/logic/parser/ParserUtil.java:26-39 | with the non-zero-unsigned-integer rule, the parse yields the index of the number iff the trimmed input is such an integer, else the invalid-index error and nothing else |
| `ParserUtil.TrimmedIfValid` | src/main/java/seedu/address/logic/parser/ParserUtil.java:49-53 | yields a value iff the rule holds on the trimmed input; the value is the trimmed input, already trimmed and valid |
| `ParserUtil.ParseName` | src/main/java/seedu/address/logic/parser/ParserUtil.java:47-54 | succeeds iff the rule holds on the trimmed input; then wraps exactly that string, which satisfies the rule; else the name-constraints error |
| `ParserUtil.ParsePhone` | src/main/java/seedu/address/logic/parser/ParserUtil.java:62-69 | the same for phones |
| `ParserUtil.ParseAddress` | src/main/java/seedu/address/logic/parser/ParserUtil.java:77-84 | the same for addresses |
| `ParserUtil.ParseEmail` | src/main/java/seedu/address/logic/parser/ParserUtil.java:92-99 | the same for emails |
| `ParserUtil.ParseTag` | src/main/java/seedu/address/logic/parser/ParserUtil.java:107-114 | the same for tags |
| `ParserUtil.FieldParsersRoundTrip` | src/main/java/seedu/address/logic/parser/ParserUtil.java:47-114 | re-parsing the string of a parsed field value gives the same value, for all five field types |
| `ParserUtil.FieldParsersIgnorePadding` | src/main/java/seedu/address/logic/parser/ParserUtil.java:28-114 | surrounding whitespace never changes the result of a field parser or of the index parser |
| `ParserUtil.ParseTags` | src/main/java/seedu/address/logic/parser/ParserUtil.java:119-126 | the loop that adds each parsed tag into a set computes `TagSetOf`: the set of trimmed tags when every name is valid, else the tag error |
| `ParserUtil.TrimmedTagsMembers` | src/main/java/seedu/address/logic/parser/ParserUtil.java:121-123 | a tag is in the collected set iff it is the trimmed form of some input |
| `ParserUtil.TrimmedTagsSize` | src/main/java/seedu/address/logic/parser/ParserUtil.java:121-123 | the collected set has at most as many tags as there were inputs |
| `ParserUtil.TagSetOfMeaning` | src/main/java/seedu/address/logic/parser/ParserUtil.java:119-126 | `parseTags` succeeds iff every element parses with `parseTag`; its result is then exactly the set of parsed tags, of size at most the number of inputs |
| `ParserUtil.ParseDescription` | src/main/java/seedu/address/logic/parser/ParserUtil.java:134-145 | succeeds iff the trimmed text has 1 to 100 characters, returning it; the empty error at length 0, the too-long error above 100 |
| `ParserUtil.DescriptionRoundTrip` | src/main/java/seedu/address/logic/parser/ParserUtil.java:134-145 | a parsed description parses to itself |
| `ParserUtil.ParseDayOfWeek` | src/main/java/seedu/address/logic/parser/ParserUtil.java:153-173 | yields a day iff the lower-cased input is exactly one of the seven names, and then the day so named; else the invalid-day error |
| `ParserUtil.ParseDayOfWeekExact` | src/main/java/seedu/address/logic/parser/ParserUtil.java:155-169 | the parse yields day `d` iff the lower-cased input is `d`'s name, in both directions |
| `ParserUtil.DayOfWeekNotTrimmed` | src/main/java/seedu/address/logic/parser/ParserUtil.java:147-155 | " monday" is rejected, although the doc comment promises trimming |
| `ParserUtil.ParseDayOfWeekTrimmed` | src/main/java/seedu/address/logic/parser/ParserUtil.java:147-152 | corrected parser: yields a day iff the lower-cased trimmed input is a day's name |
| `ParserUtil.ParseDayOfWeekTrimmedIgnoresPadding` | src/main/java/seedu/address/logic/parser/ParserUtil.java:147-152 | the corrected parser is unaffected by surrounding whitespace |
| `ParserUtil.LocalTimeOf` | src/main/java/seedu/address/logic/parser/ParserUtil.java:197 | `LocalTime.of` succeeds iff hour, minute and second are in range, else a `DateTimeException` |
| `ParserUtil.ParseLocalTime` | src/main/java/seedu/address/logic/parser/ParserUtil.java:181-198 | fails with the 24-hour-format error whenever the trimmed input's length is not 4; any time it returns has hour 0..23, minute 0..59 and second 0 |
| `ParserUtil.ParseLocalTimeOfDigits` | src/main/java/seedu/address/logic/parser/ParserUtil.java:189-197 | for four digits HHMM: the time (HH, MM, 0) iff HH <= 23 and MM <= 59 as numbers, else the 24-hour-format error |
| `ParserUtil.ParseLocalTimeAcceptsSign` | src/main/java/seedu/address/logic/parser/ParserUtil.java:189-197 | "+130" is accepted as 01:30 |
| `ParserUtil.ParseLocalTimeLetterEscapes` | src/main/java/seedu/address/logic/parser/ParserUtil.java:189-197 | "1a00" escapes as a `NumberFormatException`, not a parse error |
| `ParserUtil.ParseLocalTimeNegativeEscapes` | src/main/java/seedu/address/logic/parser/ParserUtil.java:189-197 | "-100" escapes as a `DateTimeException`, not a parse error |
| `ParserUtil.ParseLocalTimeStrict` | src/main/java/seedu/address/logic/parser/ParserUtil.java:175-187 | corrected parser: succeeds iff the trimmed input is four digits with HH <= 23 and MM <= 59, yielding (HH, MM, 0); every failure is the 24-hour-format error |
| `ParserUtil.ParseLocalTimeStrictAgreesOnDigits` | src/main/java/seedu/address/logic/parser/ParserUtil.java:189-197 | on all-digit input the corrected parser and the source's parser give the same result |
| `ParserUtil.ParseLocalTimeStrictRejectsSign` | src/main/java/seedu/address/logic/parser/ParserUtil.java:179 | the corrected parser rejects "+130" |
| `AddressBooks.IndexOf` | src/main/java/seedu/address/model/AddressBook.java:78-87 | the position found holds the student, and no earlier position does |
| `AddressBooks.ContainsIdentityOfMember` | src/main/java/seedu/address/model/AddressBook.java:62-68 | `hasStudent` holds for any student sharing the identity of a stored one, equal to it or not |
| `AddressBooks.UniqueOccursOnce` | src/main/java/seedu/address/model/AddressBook.java:12-15 | in a roster without duplicate identities, each student occurs at exactly one position |
| `AddressBooks.AppendKeepsUnique` | src/main/java/seedu/address/model/AddressBook.java:70-76 | appending a student whose identity is absent keeps the roster free of duplicates |
| `AddressBooks.SetStudentRuleEquivalence` | src/main/java/seedu/address/model/AddressBook.java:78-82 | on a unique roster, "no other student has the edited identity" holds iff the identity is unchanged or absent from the roster (the edit command's check) |
| `AddressBooks.ReplaceKeepsUnique` | src/main/java/seedu/address/model/AddressBook.java:78-87 | replacing under `setStudent`'s precondition keeps the roster free of duplicates |
| `AddressBooks.RemoveIsExact` | src/main/java/seedu/address/model/AddressBook.java:89-95 | removal leaves a unique roster one shorter that lacks the key and keeps every other student |
| `AddressBooks.AddressBook.constructor` | src/main/java/seedu/address/model/AddressBook.java:27-31 | a new address book is empty |
| `AddressBooks.AddressBook.Copy` | src/main/java/seedu/address/model/AddressBook.java:33-39 | the copy's student list equals the source's |
| `AddressBooks.AddressBook.SetStudents` | src/main/java/seedu/address/model/AddressBook.java:43-49 | requires a list without duplicates; the roster becomes that list |
| `AddressBooks.AddressBook.ResetData` | src/main/java/seedu/address/model/AddressBook.java:51-58 | the roster becomes the given book's student list |
| `AddressBooks.AddressBook.HasStudent` | src/main/java/seedu/address/model/AddressBook.java:62-68 | true iff some stored student has the same identity as the given one; in particular true for any stored student |
| `AddressBooks.AddressBook.AddStudent` | src/main/java/seedu/address/model/AddressBook.java:70-76 | requires the identity to be absent; the student is appended, every old student stays in place, and the invariant is kept |
| `AddressBooks.AddressBook.SetStudent` | src/main/java/seedu/address/model/AddressBook.java:78-87 | requires the target present and no other student with the edited identity; the target is replaced at its position, with all else unchanged |
| `AddressBooks.AddressBook.RemoveStudent` | src/main/java/seedu/address/model/AddressBook.java:89-95 | requires the key present; its first occurrence is removed and the rest keep their order |
| `Models.ShowAllStudents` | src/main/java/seedu/address/model/Model.java:15-16 | the show-all predicate accepts every student |
| `Models.Filter` | src/main/java/seedu/address/model/Model.java:93-94 | the displayed list is no longer than the roster, and holds only roster students accepted by the predicate |
| `Models.FilterMembers` | src/main/java/seedu/address/model/Model.java:93-100 | a student is displayed iff it is in the roster and the predicate accepts it |
| `Models.FilterAppend` | src/main/java/seedu/address/model/Model.java:93-94 | the displayed list keeps roster order |
| `Models.FilterAcceptingAll` | src/main/java/seedu/address/model/Model.java:15-16 | a predicate accepting everyone displays the whole roster |
| `Models.FilterShowAll` | src/main/java/seedu/address/model/Model.java:15-16 | after the show-all predicate is applied, the filtered list equals the whole roster |
| `Models.FilterAcceptingNone` | src/test/java/seedu/address/logic/commands/DeleteCommandTest.java:116-120 | an always-false predicate gives an empty list |
| `Models.RemoveDisplayed` | src/test/java/seedu/address/logic/commands/DeleteCommandTest.java:31-43 | deleting the student displayed at a position removes exactly that student and keeps all others |
| `Models.Model.constructor` | src/main/java/seedu/address/model/Model.java:15-16 | stands for the initial state of `ModelManager` (not part of this model): the roster is the given duplicate-free list and the filter shows every student |
| `Models.Model.HasStudent` | src/main/java/seedu/address/model/Model.java:56-59 | true iff some roster student has the same identity as the given one |
| `Models.Model.SetAddressBook` | src/main/java/seedu/address/model/Model.java:48-51 | the roster becomes the given book's student list |
| `Models.Model.DeleteStudent` | src/main/java/seedu/address/model/Model.java:61-65 | requires presence; removes the student, keeping the invariant |
| `Models.Model.AddStudent` | src/main/java/seedu/address/model/Model.java:67-71 | requires the identity to be absent; appends the student |
| `Models.Model.SetStudent` | src/main/java/seedu/address/model/Model.java:73-78 | requires the target present and no other student with the edited identity; replaces in place |
| `Models.Model.FilteredStudentList` | src/main/java/seedu/address/model/Model.java:93-94 | the displayed list is no longer than the roster, and holds a student iff it is in the roster and the current predicate accepts it |
| `Models.Model.UpdateFilteredStudentList` | src/main/java/seedu/address/model/Model.java:96-100 | only the predicate changes; the roster is untouched |
| `EditCommands.EditStudentDescriptor.constructor` | src/main/java/seedu/address/logic/commands/EditCommand.java:142 | a new descriptor edits nothing |
| `EditCommands.EditStudentDescriptor.Copy` | src/main/java/seedu/address/logic/commands/EditCommand.java:144-154 | the copy equals its source |
| `EditCommands.EditStudentDescriptor.IsAnyFieldEdited` | src/main/java/seedu/address/logic/commands/EditCommand.java:156-161 | when no field is edited, applying the descriptor leaves every student unchanged |
| `EditCommands.EditStudentDescriptor.SetName` | src/main/java/seedu/address/logic/commands/EditCommand.java:163-165 | sets the name and no other field |
| `EditCommands.EditStudentDescriptor.SetPhone` | src/main/java/seedu/address/logic/commands/EditCommand.java:171-173 | sets the phone and no other field |
| `EditCommands.EditStudentDescriptor.SetEmail` | src/main/java/seedu/address/logic/commands/EditCommand.java:179-181 | sets the email and no other field |
| `EditCommands.EditStudentDescriptor.SetAddress` | src/main/java/seedu/address/logic/commands/EditCommand.java:187-189 | sets the address and no other field |
| `EditCommands.EditStudentDescriptor.SetTags` | src/main/java/seedu/address/logic/commands/EditCommand.java:195-201 | sets the tag set, whole, and no other field |
| `EditCommands.CreateEditedStudent` | src/main/java/seedu/address/logic/commands/EditCommand.java:91-105 | the merged student keeps the original's identity iff the name is absent or unchanged; a present tag set becomes the tags whole; an empty descriptor gives back the original |
| `EditCommands.EditedFields` | src/main/java/seedu/address/logic/commands/EditCommand.java:98-104 | each field of the edited student is the descriptor's when present, else the original's; a present tag set replaces the tags whole |
| `EditCommands.EditIsIdempotent` | src/main/java/seedu/address/logic/commands/EditCommand.java:95-105 | applying the same descriptor twice equals applying it once |
| `EditCommands.EditKeepsIdentity` | src/main/java/seedu/address/logic/commands/EditCommand.java:82 | the edited student keeps the original's identity iff the name is absent or unchanged |
| `EditCommands.NoFieldEditedIffIdentity` | src/main/java/seedu/address/logic/commands/EditCommand.java:156-161 | `isAnyFieldEdited` is false iff the descriptor maps every student to itself |
| `EditCommands.EqualsIffSameEdit` | src/main/java/seedu/address/logic/commands/EditCommand.java:212-229 | two descriptors are field-wise equal iff they perform the same edit on every student |
| `EditCommands.EditOutcome` | src/main/java/seedu/address/logic/commands/EditCommand.java:71-89 | the edit transaction: a failure leaves the roster unchanged, and the roster's length never changes |
| `EditCommands.EditOutsideDisplayedList` | src/main/java/seedu/address/logic/commands/EditCommand.java:73-77 | every index at or past the end of the displayed list fails with the invalid-displayed-index error and leaves the roster unchanged, whether it lies within the whole roster or beyond it |
| `EditCommands.EditKeepsRosterUnique` | src/main/java/seedu/address/logic/commands/EditCommand.java:82-86 | an edit never puts a duplicate identity into the roster |
| `EditCommands.EditSucceeds` | src/main/java/seedu/address/logic/commands/EditCommand.java:86-88 | on success the merged student stands where the displayed one was, and every other position is unchanged |
| `EditCommands.EditKeepingNameSucceeds` | src/main/java/seedu/address/logic/commands/EditCommand.java:82-86 | an edit that keeps the student's name (possibly changing other fields) always succeeds |
| `EditCommands.EditIntoOtherNameFails` | src/main/java/seedu/address/logic/commands/EditCommand.java:82-84 | editing to the name of a different student fails with the duplicate error, with the roster unchanged |
| `EditCommands.EmptyEditChangesNothing` | src/test/java/seedu/address/logic/commands/EditCommandTest.java:76-87 | an edit with no field set succeeds with the original student and leaves the roster as it was |
| `EditCommands.EditCommand.constructor` | src/main/java/seedu/address/logic/commands/EditCommand.java:62-68 | the command keeps a fresh copy equal to the given descriptor |
| `EditCommands.EditCommand.Execute` | src/main/java/seedu/address/logic/commands/EditCommand.java:71-89 | the result and new roster are `EditOutcome` of the old roster and displayed list; on success the filter shows everyone and the displayed list is the whole roster; on failure the filter is unchanged |

## Left out

- `toString`, `ToStringBuilder`, `hashCode`, the success and error message texts and `Messages.format` are not modelled. Results and errors are datatype constructors; a successful edit returns the edited student its message would show.
- `Logic.java` (command dispatch, storage paths, GUI settings) is not part of this model, and neither are user prefs, GUI settings, the address-book file path or `hasLesson`/`addLesson` in `Model`. These are persistence and UI concerns, and `Lesson` is not shown.
- The `ObservableList` views are not modelled for observability. The displayed list is a function recomputed from the roster and the predicate.
- `Model.getAddressBook` and `AddressBook.getStudentList` are plain reads of the fields. `EditStudentDescriptor`'s getters are likewise its `Option` fields.
- `requireNonNull` checks and Java's `Optional` are not modelled: Dafny values are never null, and optional values are `Option`.
- `UniqueStudentList`, `Student`, `Name`, `Phone`, `Email`, `Address`, `Tag`, `Index` and `StringUtil` are not part of this model.
  - Their validity rules are left as parameters.
  - The exceptions `UniqueStudentList` throws when a caller breaks a documented precondition are not modelled; the preconditions are `requires`.
  - `Index` is modelled only by what `ParserUtil` needs.
- `ModelManager` is not part of this model. `Models.Model`'s constructor starts a model showing every student. Whether `ModelManager.addStudent` also resets the filter is not modelled.
- `AddCommand.java`, `DeleteCommand.java` and `EditCommandParser` are not part of this model. Their behaviour is covered only through the model-level contracts the tests rely on: `Model.AddStudent` requires an absent identity (`ContainsIdentityOfMember`), and deleting a displayed student is covered by `RemoveDisplayed`. The parser's "no field specified" check is not modelled.
- `AddressBook.equals`, `EditStudentDescriptor.equals` and `EditCommand.equals` are modelled as `Equals` functions without contracts of their own. What descriptor equality means is stated by `EqualsIffSameEdit`.
- `ToLowerCase`: does not model Java's full Unicode case mapping, only ASCII letters. Some non-ASCII characters do lower-case to ASCII letters in Java (U+212A KELVIN SIGN to "k", U+0130 to "i" followed by U+0307), but none of these mappings can produce one of the seven day names, so outside the Turkish and Azeri locales the day parser accepts the same inputs. The length-preserving contract holds only of this ASCII model.
- `ParseInt`: does not accept the non-ASCII decimal digits that Java's `Character.digit` admits (for example Arabic-Indic digits). The model reports a number-format failure for them.
- Strings are sequences of Unicode characters. Java's `length()` and `compareTo` count UTF-16 code units, so a character outside the Basic Multilingual Plane counts once here and twice in Java.

## Findings

| source | as written | input that shows it | evidently intended | confidence | as-written member | corrected member |
|---|---|---|---|---|---|---|
| src/main/java/seedu/address/logic/parser/ParserUtil.java:189-197 | a sign passes the string comparison with "23", and `Integer.parseInt` accepts it | "+130" yields 01:30 | rejected with the 24-hour-format error, since it is not of the form HHMM | not executed; high | `ParserUtil.ParseLocalTimeAcceptsSign` | `ParserUtil.ParseLocalTimeStrict` |
| src/main/java/seedu/address/logic/parser/ParserUtil.java:189-197 | a non-digit that compares below "23" or "59" reaches `Integer.parseInt` or `LocalTime.of`, which throw runtime exceptions instead of `ParseException` | "1a00" gives `NumberFormatException`, "-100" gives `DateTimeException` | the 24-hour-format `ParseException` that the doc comment promises | not executed; high | `ParserUtil.ParseLocalTimeLetterEscapes` | `ParserUtil.ParseLocalTimeStrict` |
| src/main/java/seedu/address/logic/parser/ParserUtil.java:147-173 | the doc comment says leading and trailing whitespace is trimmed, but only `toLowerCase` is applied | " monday" fails with the invalid-day error | trim first, like every other parser in the class | not executed; medium | `ParserUtil.DayOfWeekNotTrimmed` | `ParserUtil.ParseDayOfWeekTrimmed` |
