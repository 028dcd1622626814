/**
 * The join-class command: an immutable (person name, class name) pair whose execution
 * resolves both names in the roster and then enrols the person as a student or assigns
 * them as a tutor, according to the person's kind.
 */
module JoinClassCommand {
  import opened Wrappers
  import opened Text
  import opened Roster

  /** The command value; equality is structural (datatype equality). */
  datatype JoinClass = JoinClass(personName: string, className: string)

  /** The arguments of the success message, in the order it interpolates them:
      role label, class name, person name. */
  datatype CommandResult = CommandResult(role: string, className: string, personName: string)

  /** What an execution ends with: success, or one of the four command errors. */
  datatype Outcome =
    | Joined(result: CommandResult)
    | PersonNotExist
    | ClassNotExist
    | StudentAlreadyInClass
    | TutorAlreadyAssigned

  /** The outcome of a command together with the classes it leaves behind. */
  datatype Transition = Transition(outcome: Outcome, classes: map<string, Members>)

  function RoleLabel(k: Kind): string {
    match k
    case Student => "Student"
    case Tutor => "Tutor"
  }

  /**
   * What executing the command does to the roster's classes. The person is resolved
   * before the class; only a successful join adds a member, and it adds exactly one.
   */
  function Join(cmd: JoinClass, persons: seq<Person>, classes: map<string, Members>): (t: Transition)
    ensures t.classes.Keys == classes.Keys
    ensures !t.outcome.Joined? ==> t.classes == classes
    ensures t.outcome.Joined? ==>
              t.outcome.result.personName == cmd.personName && t.outcome.result.className == cmd.className
  {
    match Lookup(persons, cmd.personName)
    case None => Transition(PersonNotExist, classes)
    case Some(p) =>
      if cmd.className !in classes then Transition(ClassNotExist, classes)
      else
        var ms := classes[cmd.className];
        var joined := Joined(CommandResult(RoleLabel(p.kind), cmd.className, cmd.personName));
        match p.kind
        case Student =>
          if p.name in ms.students then Transition(StudentAlreadyInClass, classes)
          else Transition(joined, classes[cmd.className := ms.(students := ms.students + {p.name})])
        case Tutor =>
          if p.name in ms.tutors then Transition(TutorAlreadyAssigned, classes)
          else Transition(joined, classes[cmd.className := ms.(tutors := ms.tutors + {p.name})])
  }

  /** Runs the command against the model, changing it as Join says. */
  method Execute(cmd: JoinClass, model: Model) returns (r: Outcome)
    requires model.Valid()
    modifies model
    ensures model.Valid()
    ensures model.persons == old(model.persons)
    ensures Transition(r, model.classes) == Join(cmd, old(model.persons), old(model.classes))
  {
    var found := model.FindPerson(cmd.personName);
    if found.None? {
      return PersonNotExist;
    }
    var person := found.value;
    if !model.HasClass(cmd.className) {
      return ClassNotExist;
    }
    match person.kind {
      case Student =>
        if model.HasStudent(person.name, cmd.className) {
          return StudentAlreadyInClass;
        }
        model.AddStudentToClass(person.name, cmd.className);
        r := Joined(CommandResult("Student", cmd.className, cmd.personName));
      case Tutor =>
        if model.HasTutor(person.name, cmd.className) {
          return TutorAlreadyAssigned;
        }
        model.AssignTutorToClass(person.name, cmd.className);
        r := Joined(CommandResult("Tutor", cmd.className, cmd.personName));
    }
  }

  /** A student who is not yet in an existing class joins it, and nothing else changes. */
  lemma StudentJoinsClass(cmd: JoinClass, persons: seq<Person>, classes: map<string, Members>)
    requires Consistent(persons, classes)
    requires Person(cmd.personName, Student) in persons
    requires cmd.className in classes && cmd.personName !in classes[cmd.className].students
    ensures Join(cmd, persons, classes).outcome == Joined(CommandResult("Student", cmd.className, cmd.personName))
    ensures Join(cmd, persons, classes).classes ==
            classes[cmd.className := classes[cmd.className].(students := classes[cmd.className].students + {cmd.personName})]
  {
    LookupFindsPerson(persons, Person(cmd.personName, Student));
  }

  /** A tutor who is not yet assigned to an existing class is assigned, and nothing else changes. */
  lemma TutorJoinsClass(cmd: JoinClass, persons: seq<Person>, classes: map<string, Members>)
    requires Consistent(persons, classes)
    requires Person(cmd.personName, Tutor) in persons
    requires cmd.className in classes && cmd.personName !in classes[cmd.className].tutors
    ensures Join(cmd, persons, classes).outcome == Joined(CommandResult("Tutor", cmd.className, cmd.personName))
    ensures Join(cmd, persons, classes).classes ==
            classes[cmd.className := classes[cmd.className].(tutors := classes[cmd.className].tutors + {cmd.personName})]
  {
    LookupFindsPerson(persons, Person(cmd.personName, Tutor));
  }

  /** A name nobody has, with an existing class, fails with the person-not-exist error. */
  lemma UnknownPersonFails(cmd: JoinClass, persons: seq<Person>, classes: map<string, Members>)
    requires forall p :: p in persons ==> p.name != cmd.personName
    requires cmd.className in classes
    ensures Join(cmd, persons, classes) == Transition(PersonNotExist, classes)
  {
  }

  /** An existing person and a class name nothing has fail with the class-not-exist error. */
  lemma UnknownClassFails(cmd: JoinClass, persons: seq<Person>, classes: map<string, Members>)
    requires exists p :: p in persons && p.name == cmd.personName
    requires cmd.className !in classes
    ensures Join(cmd, persons, classes) == Transition(ClassNotExist, classes)
  {
  }

  /** A student already in the class is refused. */
  lemma StudentAlreadyInClassFails(cmd: JoinClass, persons: seq<Person>, classes: map<string, Members>)
    requires Consistent(persons, classes)
    requires Person(cmd.personName, Student) in persons
    requires cmd.className in classes && cmd.personName in classes[cmd.className].students
    ensures Join(cmd, persons, classes) == Transition(StudentAlreadyInClass, classes)
  {
    LookupFindsPerson(persons, Person(cmd.personName, Student));
  }

  /** A tutor already assigned to the class is refused. */
  lemma TutorAlreadyAssignedFails(cmd: JoinClass, persons: seq<Person>, classes: map<string, Members>)
    requires Consistent(persons, classes)
    requires Person(cmd.personName, Tutor) in persons
    requires cmd.className in classes && cmd.personName in classes[cmd.className].tutors
    ensures Join(cmd, persons, classes) == Transition(TutorAlreadyAssigned, classes)
  {
    LookupFindsPerson(persons, Person(cmd.personName, Tutor));
  }

  /** Joining keeps every member a person of the right kind. */
  lemma JoinKeepsConsistent(cmd: JoinClass, persons: seq<Person>, classes: map<string, Members>)
    requires Consistent(persons, classes)
    ensures Consistent(persons, Join(cmd, persons, classes).classes)
  {
    var t := Join(cmd, persons, classes);
    if t.outcome.Joined? {
      var p := Lookup(persons, cmd.personName).value;
      assert p in persons && p.name == cmd.personName;
      assert MembersWellKinded(persons, t.classes[cmd.className]);
    }
  }

  /** Running a successful join a second time fails with the already-joined error of the
      person's role and adds nobody again. */
  lemma JoinTwiceFails(cmd: JoinClass, persons: seq<Person>, classes: map<string, Members>)
    requires Consistent(persons, classes)
    requires Join(cmd, persons, classes).outcome.Joined?
    ensures var after := Join(cmd, persons, classes).classes;
            var again := Join(cmd, persons, after);
            && again.classes == after
            && (again.outcome == StudentAlreadyInClass || again.outcome == TutorAlreadyAssigned)
            && (again.outcome == StudentAlreadyInClass <==> Person(cmd.personName, Student) in persons)
  {
    var p := Lookup(persons, cmd.personName).value;
    assert p in persons;
    LookupFindsPerson(persons, p);
    if Person(cmd.personName, Student) in persons {
      LookupFindsPerson(persons, Person(cmd.personName, Student));
    }
  }

  /** The command's string form, in the "Type{field=value, ...}" style of the code base. */
  function ToString(cmd: JoinClass): (r: string)
    ensures Contains(r, cmd.personName) && Contains(r, cmd.className)
  {
    var head := "JoinClassCommand{personName=";
    var mid := ", className=";
    var r := head + cmd.personName + mid + cmd.className + "}";
    assert OccursAt(r, cmd.personName, |head|);
    assert OccursAt(r, cmd.className, |head| + |cmd.personName| + |mid|);
    r
  }

  /** Two commands are equal exactly when both names match. */
  lemma EqualIffSameNames(a: JoinClass, b: JoinClass)
    ensures a == b <==> a.personName == b.personName && a.className == b.className
  {
  }
}
