/**
 * The execute scenarios of the command's unit tests, verified against Execute's
 * contract: each starts from a fresh fixture roster and states the outcome and the
 * new state the test checks.
 */
module JoinClassCommandTests {
  import opened Roster
  import opened JoinClassCommand

  /** The fixture: student "Alice Tan", tutor "Mr Smith" and class "CS2103T", empty. */
  method SetUpFixture() returns (model: Model)
    ensures fresh(model) && model.Valid()
    ensures model.persons == [Person("Alice Tan", Student), Person("Mr Smith", Tutor)]
    ensures model.classes == map["CS2103T" := EmptyClass()]
  {
    model := new Model();
    model.AddPerson(Person("Alice Tan", Student));
    model.AddPerson(Person("Mr Smith", Tutor));
    model.AddClass("CS2103T");
  }

  method StudentJoinClassSucceeds() returns (r: Outcome, model: Model)
    ensures r == Joined(CommandResult("Student", "CS2103T", "Alice Tan"))
    ensures model.HasStudent("Alice Tan", "CS2103T") && !model.HasTutor("Alice Tan", "CS2103T")
  {
    model := SetUpFixture();
    var cmd := JoinClass("Alice Tan", "CS2103T");
    StudentJoinsClass(cmd, model.persons, model.classes);
    r := Execute(cmd, model);
  }

  method TutorJoinClassSucceeds() returns (r: Outcome, model: Model)
    ensures r == Joined(CommandResult("Tutor", "CS2103T", "Mr Smith"))
    ensures model.HasTutor("Mr Smith", "CS2103T") && !model.HasStudent("Mr Smith", "CS2103T")
  {
    model := SetUpFixture();
    var cmd := JoinClass("Mr Smith", "CS2103T");
    TutorJoinsClass(cmd, model.persons, model.classes);
    r := Execute(cmd, model);
  }

  method PersonNotFoundFails() returns (r: Outcome, model: Model)
    ensures r == PersonNotExist
    ensures model.classes == map["CS2103T" := EmptyClass()]
  {
    model := SetUpFixture();
    var cmd := JoinClass("NonExistent Person", "CS2103T");
    UnknownPersonFails(cmd, model.persons, model.classes);
    r := Execute(cmd, model);
  }

  method ClassNotFoundFails() returns (r: Outcome, model: Model)
    ensures r == ClassNotExist
    ensures model.classes == map["CS2103T" := EmptyClass()]
  {
    model := SetUpFixture();
    var cmd := JoinClass("Alice Tan", "NonExistent Class");
    assert Person("Alice Tan", Student) in model.persons;
    UnknownClassFails(cmd, model.persons, model.classes);
    r := Execute(cmd, model);
  }

  method StudentAlreadyInClassIsRefused() returns (r: Outcome, model: Model)
    ensures r == StudentAlreadyInClass
    ensures model.HasStudent("Alice Tan", "CS2103T")
  {
    model := SetUpFixture();
    model.AddStudentToClass("Alice Tan", "CS2103T");
    var cmd := JoinClass("Alice Tan", "CS2103T");
    StudentAlreadyInClassFails(cmd, model.persons, model.classes);
    r := Execute(cmd, model);
  }

  method TutorAlreadyAssignedIsRefused() returns (r: Outcome, model: Model)
    ensures r == TutorAlreadyAssigned
    ensures model.HasTutor("Mr Smith", "CS2103T")
  {
    model := SetUpFixture();
    model.AssignTutorToClass("Mr Smith", "CS2103T");
    var cmd := JoinClass("Mr Smith", "CS2103T");
    TutorAlreadyAssignedFails(cmd, model.persons, model.classes);
    r := Execute(cmd, model);
  }
}
