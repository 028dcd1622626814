# Join-class command: a Dafny model

This project models the "join a person into a tuition class" command of a
student/tutor roster application. It has two parts.

- **The parser** (`JoinClassCommandParser`, built on `ArgumentTokenizer` and `Text`).
  It turns the command's argument string, e.g. `n/Alice Tan c/CS2103T`, into a
  `JoinClass(personName, className)` value, or fails (`None`).
  - The tokenizer splits the string into a preamble and the values of the `n/` and `c/` prefixes.
  - A prefix is recognised at the start of the string or right after a space.
  - Values and the preamble are trimmed the way Java's `String.trim()` trims: every character up to U+0020 counts as whitespace.
  - Parsing fails when the preamble is not empty, when either prefix is missing, or when either value is empty.
- **The command** (`JoinClassCommand`, over the roster in `Roster`). `JoinClass` is an immutable
  pair with structural equality.
  - `Execute` resolves the person by exact name, then the class by exact name.
  - It then dispatches on the person's kind. A Student is enrolled in the class's student set. A Tutor is added to its tutor set.
  - A person who is already a member is refused with the error for their role.
  - On success it returns the arguments of the success message: role label, class name, person name.
  - `Execute` is a method on the mutable `Roster.Model` class. It is proved against the pure
    function `Join`, and the lemmas state the behaviour the tests pin down in terms of `Join`.

The roster keeps only what the command observes. Persons are a sequence of (name, kind) with unique
names. Classes are a map from class name to (students, tutors), with members recorded by name.
Its invariant (`Consistent`) says that every student of a class is a Student of the roster and every
tutor is a Tutor.

`JoinClassCommandTests` replays the command's unit tests on a fresh fixture roster each time,
through `Execute`. The parser's unit-test inputs are the `Parses…TestInput` lemmas.

## Model

| member | source | states |
|---|---|---|
| `JoinClassCommandParser.Parse` | src/test/java/seedu/address/logic/parser/JoinClassCommandParserTest.java:20-47 | a parsed command's person name and class name are both non-empty and carry no surrounding whitespace |
| `JoinClassCommandParser.ParseRoundTrip` | src/test/java/seedu/address/logic/parser/JoinClassCommandParserTest.java:20-25 | for non-empty, trimmed N and C containing no `n/` or `c/`, parsing `"n/" + N + " c/" + C` yields `JoinClass(N, C)` |
| `JoinClassCommandParser.ParseIgnoresWhitespace` | src/test/java/seedu/address/logic/parser/JoinClassCommandParserTest.java:27-32 | blank text ending in a space before each prefix, and any blank text after a prefix or at the end, does not change the parsed command; the values come out trimmed |
| `JoinClassCommandParser.ParseNameThenClass` | src/test/java/seedu/address/logic/parser/JoinClassCommandParserTest.java:20-32 | with one `n/` then one `c/` prefix and a blank preamble, parsing succeeds with the two trimmed values if both are non-empty, and fails if either is empty |
| `JoinClassCommandParser.ParseRejectsBlank` | src/test/java/seedu/address/logic/parser/JoinClassCommandParserTest.java:15-18 | every whitespace-only argument string fails to parse |
| `JoinClassCommandParser.ParseRejectsMissingName` | src/test/java/seedu/address/logic/parser/JoinClassCommandParserTest.java:34-37 | input in which no `n/` prefix is recognised fails to parse |
| `JoinClassCommandParser.ParseRejectsMissingClass` | src/test/java/seedu/address/logic/parser/JoinClassCommandParserTest.java:39-42 | input in which no `c/` prefix is recognised fails to parse |
| `JoinClassCommandParser.ParseRejectsPreamble` | src/test/java/seedu/address/logic/parser/JoinClassCommandParserTest.java:44-47 | a non-whitespace character before the first recognised prefix makes parsing fail, whatever follows |
| `JoinClassCommandParser.ParsesBlankTestInput` | src/test/java/seedu/address/logic/parser/JoinClassCommandParserTest.java:15-18 | `"  "` fails to parse |
| `JoinClassCommandParser.ParsesValidTestInput` | src/test/java/seedu/address/logic/parser/JoinClassCommandParserTest.java:20-25 | `"n/Alice Tan c/CS2103T"` parses to `JoinClass("Alice Tan", "CS2103T")` |
| `JoinClassCommandParser.ParsesSpacedTestInput` | src/test/java/seedu/address/logic/parser/JoinClassCommandParserTest.java:27-32 | `"  n/Alice Tan   c/CS2103T  "` parses to `JoinClass("Alice Tan", "CS2103T")` |
| `JoinClassCommandParser.ParsesMissingNameTestInput` | src/test/java/seedu/address/logic/parser/JoinClassCommandParserTest.java:34-37 | `"c/CS2103T"` fails to parse |
| `JoinClassCommandParser.ParsesMissingClassTestInput` | src/test/java/seedu/address/logic/parser/JoinClassCommandParserTest.java:39-42 | `"n/Alice Tan"` fails to parse |
| `JoinClassCommandParser.ParsesPreambleTestInput` | src/test/java/seedu/address/logic/parser/JoinClassCommandParserTest.java:44-47 | `"invalid n/Alice Tan c/CS2103T"` fails to parse |
| `ArgumentTokenizer.HasValueIff` | src/test/java/seedu/address/logic/parser/JoinClassCommandParserTest.java:34-42 | a prefix has a value after tokenizing if and only if it is recognised somewhere in the string (both directions) |
| `ArgumentTokenizer.EntriesHaveValueIff` | src/test/java/seedu/address/logic/parser/JoinClassCommandParserTest.java:34-42 | from any prefix position on, a prefix has a value if and only if it is recognised at or after that position |
| `ArgumentTokenizer.TokenizeNameThenClass` | src/test/java/seedu/address/logic/parser/JoinClassCommandParserTest.java:20-32 | one `n/` prefix followed by one `c/` prefix tokenizes to the trimmed preamble and the two trimmed values, in order |
| `ArgumentTokenizer.Tokenize` | src/test/java/seedu/address/logic/parser/JoinClassCommandParserTest.java:20-47 | the preamble and every prefix value come out trimmed |
| `Text.Trim` | src/test/java/seedu/address/logic/parser/JoinClassCommandParserTest.java:27-32 | the result has no whitespace at either end and is no longer than the input |
| `ArgumentTokenizer.NextPrefix` | src/test/java/seedu/address/logic/parser/JoinClassCommandParserTest.java:20-47 | the result is the first recognised prefix at or after the start index, or the end of the string if there is none |
| `ArgumentTokenizer.GetValue` | src/test/java/seedu/address/logic/parser/JoinClassCommandParserTest.java:20-42 | a prefix's value is one of the values given for it, and there is none exactly when it was never given |
| `Text.TrimAroundTrimmed` | src/test/java/seedu/address/logic/parser/JoinClassCommandParserTest.java:27-32 | trimming removes exactly the blank text around an already trimmed value |
| `Text.TrimEmptyIffBlank` | src/test/java/seedu/address/logic/parser/JoinClassCommandParserTest.java:15-18 | the trimmed text is empty if and only if the input is blank |
| `Text.TrimIdempotent` | src/test/java/seedu/address/logic/parser/JoinClassCommandParserTest.java:27-32 | trimming twice is the same as trimming once |
| `Text.TrimStartDropsBlank` | src/test/java/seedu/address/logic/parser/JoinClassCommandParserTest.java:27-32 | removing leading whitespace leaves a suffix of the input, and the removed part is blank |
| `Text.TrimEndDropsBlank` | src/test/java/seedu/address/logic/parser/JoinClassCommandParserTest.java:27-32 | removing trailing whitespace leaves a prefix of the input, and the removed part is blank |
| `JoinClassCommand.Join` | src/test/java/seedu/address/logic/commands/JoinClassCommandTest.java:69-117 | the set of classes never changes; a failed join leaves every class as it was; a successful join reports the command's own person and class names |
| `JoinClassCommand.Execute` | src/test/java/seedu/address/logic/commands/JoinClassCommandTest.java:69-117 | running the command on the model returns `Join`'s outcome, leaves the model's classes as `Join` says, leaves the persons unchanged and keeps the model's invariant |
| `JoinClassCommand.StudentJoinsClass` | src/test/java/seedu/address/logic/commands/JoinClassCommandTest.java:69-77 | a Student not yet in an existing class joins it; the result is ("Student", class, person); exactly that student is added to that class's students, and nothing else changes |
| `JoinClassCommand.TutorJoinsClass` | src/test/java/seedu/address/logic/commands/JoinClassCommandTest.java:79-87 | a Tutor not yet assigned to an existing class is assigned; the result is ("Tutor", class, person); exactly that tutor is added to that class's tutors, and nothing else changes |
| `JoinClassCommand.UnknownPersonFails` | src/test/java/seedu/address/logic/commands/JoinClassCommandTest.java:89-94 | with an existing class, a name no person has fails with the person-not-exist error and leaves the classes unchanged |
| `JoinClassCommand.UnknownClassFails` | src/test/java/seedu/address/logic/commands/JoinClassCommandTest.java:96-101 | an existing person with a class name no class has fails with the class-not-exist error |
| `JoinClassCommand.StudentAlreadyInClassFails` | src/test/java/seedu/address/logic/commands/JoinClassCommandTest.java:103-109 | a Student already in the class fails with the student-already-in-class error |
| `JoinClassCommand.TutorAlreadyAssignedFails` | src/test/java/seedu/address/logic/commands/JoinClassCommandTest.java:111-117 | a Tutor already assigned to the class fails with the tutor-already-assigned error |
| `JoinClassCommand.JoinTwiceFails` | src/test/java/seedu/address/logic/commands/JoinClassCommandTest.java:103-117 | after a successful join, the same command fails with the already-joined error of the person's role and adds nobody again |
| `JoinClassCommand.JoinKeepsConsistent` | src/test/java/seedu/address/logic/commands/JoinClassCommandTest.java:69-87 | joining keeps every class member a roster person of the matching kind |
| `JoinClassCommand.EqualIffSameNames` | src/test/java/seedu/address/logic/commands/JoinClassCommandTest.java:119-144 | two commands are equal if and only if both their person names and their class names match |
| `JoinClassCommand.ToString` | src/test/java/seedu/address/logic/commands/JoinClassCommandTest.java:158-164 | the string form contains the person name and the class name verbatim |
| `Roster.Lookup` | src/test/java/seedu/address/logic/commands/JoinClassCommandTest.java:89-94 | a found person is in the roster and has exactly the given name; nothing is found exactly when no person has that name |
| `Roster.LookupFindsPerson` | src/test/java/seedu/address/logic/commands/JoinClassCommandTest.java:69-87 | with unique names, looking up a roster person's name finds that person |
| `Roster.Model.HasStudent` | src/test/java/seedu/address/logic/commands/JoinClassCommandTest.java:76 | in a consistent roster, a name recorded as a student of a class is a Student of the roster |
| `Roster.Model.HasTutor` | src/test/java/seedu/address/logic/commands/JoinClassCommandTest.java:86 | in a consistent roster, a name recorded as a tutor of a class is a Tutor of the roster |
| `Roster.Model.FindPerson` | src/test/java/seedu/address/logic/commands/JoinClassCommandTest.java:69-101 | scanning the roster in order finds what `Lookup` specifies |
| `Roster.Model.constructor` | src/test/java/seedu/address/logic/commands/JoinClassCommandTest.java:34 | a new model is empty and consistent |
| `Roster.Model.AddPerson` | src/test/java/seedu/address/logic/commands/JoinClassCommandTest.java:54-55 | appends a person whose name is new, leaves the classes unchanged and keeps the invariant |
| `Roster.Model.AddClass` | src/test/java/seedu/address/logic/commands/JoinClassCommandTest.java:56 | adds a class with no members under a new name and leaves everything else unchanged |
| `Roster.Model.AddStudentToClass` | src/test/java/seedu/address/logic/commands/JoinClassCommandTest.java:105 | adds the student to that class's students only |
| `Roster.Model.AssignTutorToClass` | src/test/java/seedu/address/logic/commands/JoinClassCommandTest.java:113 | adds the tutor to that class's tutors only |
| `JoinClassCommandTests.SetUpFixture` | src/test/java/seedu/address/logic/commands/JoinClassCommandTest.java:32-57 | builds the fixture: Student "Alice Tan", Tutor "Mr Smith" and the empty class "CS2103T" |
| `JoinClassCommandTests.StudentJoinClassSucceeds` | src/test/java/seedu/address/logic/commands/JoinClassCommandTest.java:69-77 | on the fixture, Alice Tan joining CS2103T succeeds with ("Student", "CS2103T", "Alice Tan") and Alice Tan is then a student, not a tutor, of the class |
| `JoinClassCommandTests.TutorJoinClassSucceeds` | src/test/java/seedu/address/logic/commands/JoinClassCommandTest.java:79-87 | on the fixture, Mr Smith joining CS2103T succeeds with ("Tutor", "CS2103T", "Mr Smith") and Mr Smith is then a tutor, not a student, of the class |
| `JoinClassCommandTests.PersonNotFoundFails` | src/test/java/seedu/address/logic/commands/JoinClassCommandTest.java:89-94 | on the fixture, an unknown person fails with the person-not-exist error and the classes stay as they were |
| `JoinClassCommandTests.ClassNotFoundFails` | src/test/java/seedu/address/logic/commands/JoinClassCommandTest.java:96-101 | on the fixture, an unknown class fails with the class-not-exist error and the classes stay as they were |
| `JoinClassCommandTests.StudentAlreadyInClassIsRefused` | src/test/java/seedu/address/logic/commands/JoinClassCommandTest.java:103-109 | after Alice Tan is enrolled, joining again fails with the student-already-in-class error and Alice Tan stays enrolled |
| `JoinClassCommandTests.TutorAlreadyAssignedIsRefused` | src/test/java/seedu/address/logic/commands/JoinClassCommandTest.java:111-117 | after Mr Smith is assigned, joining again fails with the tutor-already-assigned error and Mr Smith stays assigned |

## Left out

- The null checks of the constructor (JoinClassCommandTest.java:59-67) are not modelled. Dafny strings are values and cannot be null, so the precondition holds by typing.
- `equals(null)` and `equals(1)` (JoinClassCommandTest.java:146-156) are not modelled. Dafny's equality only compares values of one type; there is no null and no `Object.equals`.
- The wording of the success message and of the four error messages is not part of this model. A success returns the message's three arguments (role label, class name, person name), and each error is a tagged outcome.
- `ToString`: only the containment of both names is promised. The exact text `JoinClassCommand{personName=…, className=…}` is a chosen layout; no test pins it.
- A person's phone, email, address and tags, the validation rules of names and class names, and the storage, persistence, GUI and dispatcher are not part of this model. The roster is reduced to names, kinds and membership sets.
- Implementations of the command and the parser are not part of this model's sources. Their behaviour is inferred from the tests. These choices are the model's own:
  - a prefix counts only at the start of the string or after a space, not after a tab;
  - an empty value after trimming fails parsing;
  - when a prefix is repeated, its last value is taken. No lemma depends on this choice.
- `Join`: a failed command leaves the roster unchanged. This is a modelling choice the tests do not assert.
- `Join`: the person is resolved before the class. Which error wins when both are unknown is not pinned by a test, and no lemma states it.
- Name matching is exact and case-sensitive. Persons have unique names (`AddPerson` requires a new name), so resolving by name is unambiguous.
