/** The letter grade shown next to a result's marks, with the display token each grade carries. */
module Grades {

  datatype Grade = APlus | A | B | C | D | F {

    /** The colour token of the grade's badge; opaque to the core. */
    function Color(): string {
      match this
      case APlus => "#10b981"
      case A => "#3b82f6"
      case B => "#8b5cf6"
      case C => "#f59e0b"
      case D => "#ef4444"
      case F => "#dc2626"
    }

    /** Position in the order F < D < C < B < A < A+. */
    function Rank(): nat {
      match this
      case F => 0
      case D => 1
      case C => 2
      case B => 3
      case A => 4
      case APlus => 5
    }
  }

  datatype Badge = Badge(grade: Grade, color: string)

  /**
   * The bands as a table of ranges, independent of the order in which GradeOf
   * tests them. A+ has no upper bound and F no lower bound.
   */
  predicate InBand(marks: int, g: Grade) {
    match g
    case APlus => 90 <= marks
    case A => 80 <= marks <= 89
    case B => 70 <= marks <= 79
    case C => 60 <= marks <= 69
    case D => 50 <= marks <= 59
    case F => marks <= 49
  }

  /** `getGrade`: the thresholds are tried from the highest down and the first one met wins. */
  function GradeOf(marks: int): (r: Badge)
    ensures InBand(marks, r.grade)
    ensures forall g :: InBand(marks, g) ==> g == r.grade
    ensures r.color == r.grade.Color()
  {
    if marks >= 90 then Badge(APlus, APlus.Color())
    else if marks >= 80 then Badge(A, A.Color())
    else if marks >= 70 then Badge(B, B.Color())
    else if marks >= 60 then Badge(C, C.Color())
    else if marks >= 50 then Badge(D, D.Color())
    else Badge(F, F.Color())
  }

  /** Higher marks never earn a lower grade. */
  lemma GradeMonotone(m1: int, m2: int)
    requires m1 <= m2
    ensures GradeOf(m1).grade.Rank() <= GradeOf(m2).grade.Rank()
  {
  }

  /** The band edges: 89 is an A and 90 an A+, 49 is an F and 50 a D. */
  lemma GradeBoundaries()
    ensures GradeOf(89).grade == A && GradeOf(90).grade == APlus
    ensures GradeOf(49).grade == F && GradeOf(50).grade == D
  {
  }

}
