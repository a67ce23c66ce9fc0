/** A student record whose grade must lie in 0..12 and whose GPA in 0.0..4.0. Every
    constructor and setter stores its argument first and then validates the whole
    object, throwing invalid_argument("argument out of bounds") on a violation. */
module Students {
  import opened Wrappers

  const OutOfBounds: Error := InvalidArgument("argument out of bounds")

  class Student {
    var name: string
    var grade: int
    var gpa: real

    /** The class invariant that Validate enforces; the name is unconstrained. */
    ghost predicate Valid()
      reads this
    {
      0 <= grade <= 12 && 0.0 <= gpa <= 4.0
    }

    /** The member-initializer part of the constructor, before Validate runs. */
    constructor Init(name: string, grade: int, gpa: real)
      ensures this.name == name && this.grade == grade && this.gpa == gpa
    {
      this.name, this.grade, this.gpa := name, grade, gpa;
    }

    /** The full constructor: initialise the fields, then validate. */
    static method Create(name: string, grade: int, gpa: real) returns (r: Result<Student>)
      ensures r.Success? <==> 0 <= grade <= 12 && 0.0 <= gpa <= 4.0
      ensures r.Failure? ==> r.error == OutOfBounds
      ensures r.Success? ==> fresh(r.value) && r.value.Valid()
      ensures r.Success? ==> r.value.Name() == name && r.value.Grade() == grade && r.value.GPA() == gpa
    {
      var s := new Student.Init(name, grade, gpa);
      var outcome := s.Validate();
      if outcome.Pass? {
        r := Success(s);
      } else {
        r := Failure(outcome.error);
      }
    }

    function Name(): (n: string)
      reads this
      ensures n == name
    {
      name
    }

    function Grade(): (g: int)
      reads this
      ensures Valid() ==> 0 <= g <= 12
    {
      grade
    }

    function GPA(): (g: real)
      reads this
      ensures Valid() ==> 0.0 <= g <= 4.0
    {
      gpa
    }

    /** The setters assign first and validate afterwards: a rejected value stays stored. */
    method SetName(name: string) returns (outcome: Outcome)
      modifies this`name
      ensures this.name == name
      ensures outcome.Pass? <==> Valid()
      ensures outcome.Fail? ==> outcome.error == OutOfBounds
      ensures old(Valid()) ==> outcome.Pass?
    {
      this.name := name;
      outcome := Validate();
    }

    method SetGrade(grade: int) returns (outcome: Outcome)
      modifies this`grade
      ensures this.grade == grade
      ensures outcome.Pass? <==> Valid()
      ensures outcome.Fail? ==> outcome.error == OutOfBounds
      ensures old(Valid()) ==> (outcome.Pass? <==> 0 <= grade <= 12)
    {
      this.grade := grade;
      outcome := Validate();
    }

    method SetGPA(gpa: real) returns (outcome: Outcome)
      modifies this`gpa
      ensures this.gpa == gpa
      ensures outcome.Pass? <==> Valid()
      ensures outcome.Fail? ==> outcome.error == OutOfBounds
      ensures old(Valid()) ==> (outcome.Pass? <==> 0.0 <= gpa <= 4.0)
    {
      this.gpa := gpa;
      outcome := Validate();
    }

    /** Throws unless grade and GPA are in range; changes nothing. */
    method Validate() returns (outcome: Outcome)
      ensures outcome.Pass? <==> Valid()
      ensures outcome.Fail? ==> outcome.error == OutOfBounds
    {
      if Grade() < 0 || Grade() > 12 || GPA() < 0.0 || GPA() > 4.0 {
        outcome := Fail(OutOfBounds);
      } else {
        outcome := Pass;
      }
    }
  }

  /** The test driver: Student("Nick", 3, 4.0) is accepted (4.0 is in range) and reports
      its fields; setting grade 20 afterwards throws. Because the setter stores before it
      validates, the grade is then 20 and even a name change throws. */
  method StudentScenario() returns (caught: bool, renameCaught: bool)
    ensures caught && renameCaught
  {
    var r := Student.Create("Nick", 3, 4.0);
    var student := r.value;
    assert student.Name() == "Nick" && student.Grade() == 3 && student.GPA() == 4.0;
    var outcome := student.SetGrade(20);
    caught := outcome.Fail?;
    assert student.Grade() == 20;
    outcome := student.SetName("Nick");
    renameCaught := outcome.Fail?;
  }
}
