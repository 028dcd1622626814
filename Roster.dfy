/**
 * The in-memory roster the join-class command works on: people, each a Student or a
 * Tutor, and tuition classes, each with a set of enrolled students and a set of
 * assigned tutors. Only what the command observes is kept: a person's name and kind,
 * and a class's name and its two membership sets (members are recorded by name).
 */
module Roster {
  import opened Wrappers

  datatype Kind = Student | Tutor

  datatype Person = Person(name: string, kind: Kind)

  datatype Members = Members(students: set<string>, tutors: set<string>)

  /** No two people share a name. */
  predicate UniqueNames(persons: seq<Person>) {
    forall i, j :: 0 <= i < j < |persons| ==> persons[i].name != persons[j].name
  }

  /** Every student of a class is a Student of the roster, every tutor a Tutor. */
  predicate MembersWellKinded(persons: seq<Person>, ms: Members) {
    && (forall n :: n in ms.students ==> Person(n, Student) in persons)
    && (forall n :: n in ms.tutors ==> Person(n, Tutor) in persons)
  }

  predicate Consistent(persons: seq<Person>, classes: map<string, Members>) {
    && UniqueNames(persons)
    && (forall c :: c in classes ==> MembersWellKinded(persons, classes[c]))
  }

  /** Resolves a name to the first person who has exactly that name. */
  function Lookup(persons: seq<Person>, name: string): (r: Option<Person>)
    ensures r.Some? ==> r.value in persons && r.value.name == name
    ensures r.None? <==> forall p :: p in persons ==> p.name != name
  {
    if persons == [] then None
    else if persons[0].name == name then Some(persons[0])
    else Lookup(persons[1..], name)
  }

  /** With unique names, looking up a person's name finds that person. */
  lemma LookupFindsPerson(persons: seq<Person>, p: Person)
    requires UniqueNames(persons)
    requires p in persons
    ensures Lookup(persons, p.name) == Some(p)
  {
    var r := Lookup(persons, p.name);
    assert r.Some?;
    var i :| 0 <= i < |persons| && persons[i] == p;
    var k :| 0 <= k < |persons| && persons[k] == r.value;
    assert !(i < k) && !(k < i);
  }

  /** A class with no members yet. */
  function EmptyClass(): Members
  {
    Members({}, {})
  }

  class Model {
    var persons: seq<Person>
    var classes: map<string, Members>

    ghost predicate Valid()
      reads this
    {
      Consistent(persons, classes)
    }

    constructor ()
      ensures Valid()
      ensures persons == [] && classes == map[]
    {
      persons := [];
      classes := map[];
    }

    /** Adds a person; a second person with the same name is refused by the roster. */
    method AddPerson(p: Person)
      requires Valid()
      requires forall q :: q in persons ==> q.name != p.name
      modifies this
      ensures Valid()
      ensures persons == old(persons) + [p] && classes == old(classes)
    {
      persons := persons + [p];
      forall c | c in classes
        ensures MembersWellKinded(persons, classes[c])
      {
        assert forall q :: q in old(persons) ==> q in persons;
      }
    }

    /** Adds a tuition class with no members; class names are unique. */
    method AddClass(name: string)
      requires Valid()
      requires name !in classes
      modifies this
      ensures Valid()
      ensures persons == old(persons) && classes == old(classes)[name := EmptyClass()]
    {
      classes := classes[name := EmptyClass()];
    }

    predicate HasClass(cls: string)
      reads this
    {
      cls in classes
    }

    /** In a consistent roster, a student recorded in a class is a Student of the roster. */
    predicate HasStudent(name: string, cls: string)
      reads this
      ensures HasStudent(name, cls) && Valid() ==> Person(name, Student) in persons
    {
      cls in classes && name in classes[cls].students
    }

    /** In a consistent roster, a tutor recorded in a class is a Tutor of the roster. */
    predicate HasTutor(name: string, cls: string)
      reads this
      ensures HasTutor(name, cls) && Valid() ==> Person(name, Tutor) in persons
    {
      cls in classes && name in classes[cls].tutors
    }

    /** Enrols a student in a class. */
    method AddStudentToClass(name: string, cls: string)
      requires Valid()
      requires Person(name, Student) in persons && cls in classes
      modifies this
      ensures Valid()
      ensures persons == old(persons)
      ensures classes == old(classes)[cls := old(classes)[cls].(students := old(classes)[cls].students + {name})]
    {
      var ms := classes[cls];
      classes := classes[cls := ms.(students := ms.students + {name})];
    }

    /** Assigns a tutor to a class. */
    method AssignTutorToClass(name: string, cls: string)
      requires Valid()
      requires Person(name, Tutor) in persons && cls in classes
      modifies this
      ensures Valid()
      ensures persons == old(persons)
      ensures classes == old(classes)[cls := old(classes)[cls].(tutors := old(classes)[cls].tutors + {name})]
    {
      var ms := classes[cls];
      classes := classes[cls := ms.(tutors := ms.tutors + {name})];
    }

    /** Resolves a person by exact name, scanning the roster in order. */
    method FindPerson(name: string) returns (r: Option<Person>)
      ensures r == Lookup(persons, name)
    {
      var i := 0;
      while i < |persons|
        invariant 0 <= i <= |persons|
        invariant Lookup(persons[i..], name) == Lookup(persons, name)
      {
        if persons[i].name == name {
          return Some(persons[i]);
        }
        assert persons[i..][1..] == persons[i + 1..];
        i := i + 1;
      }
      return None;
    }
  }
}
