/** The report card of the result lookup page (frontend User.jsx): the grade
    of each mark, the total earned and the total obtainable. */
module Report {
  import opened Records

  /** The most a subject can earn. */
  const MaxMark: int := 50

  datatype Grade = APlus | A | BPlus | B | CPlus | C | DPlus | D

  /** Position of a band, from 0 for D up to 7 for A+. */
  function Rank(g: Grade): nat {
    match g
    case D => 0
    case DPlus => 1
    case C => 2
    case CPlus => 3
    case B => 4
    case BPlus => 5
    case A => 6
    case APlus => 7
  }

  /** The lowest mark of a band (inclusive); D is everything below 18. */
  function Threshold(g: Grade): int
    requires g != D
  {
    match g
    case APlus => 45
    case A => 40
    case BPlus => 35
    case B => 30
    case CPlus => 25
    case C => 20
    case DPlus => 18
  }

  /** The band just above g. */
  function Above(g: Grade): Grade
    requires g != APlus
  {
    match g
    case A => APlus
    case BPlus => A
    case B => BPlus
    case CPlus => B
    case C => CPlus
    case DPlus => C
    case D => DPlus
  }

  /** Mark v is high enough for band g. */
  predicate Reaches(v: int, g: Grade) {
    g == D || v >= Threshold(g)
  }

  /** The grade of a numeric mark: the highest band the mark reaches. */
  function GradeOf(v: int): (g: Grade)
    ensures Reaches(v, g)
    ensures g != APlus ==> !Reaches(v, Above(g))
  {
    if v >= 45 then APlus
    else if v >= 40 then A
    else if v >= 35 then BPlus
    else if v >= 30 then B
    else if v >= 25 then CPlus
    else if v >= 20 then C
    else if v >= 18 then DPlus
    else D
  }

  /** `getGrade(mark)`: the mark is read with `Number`, and NaN fails every
      comparison, so it is a D; a blank or null mark reads as 0, also a D. */
  function GetGrade(mark: Mark): (g: Grade)
    ensures mark.Number? ==> g == GradeOf(mark.value)
    ensures !mark.Number? ==> g == D
  {
    match ToNumber(mark)
    case NaN => D
    case Finite(v) => GradeOf(v)
  }

  /** A larger mark never gets a lower grade. */
  lemma GradeMonotone(v: int, w: int)
    requires v <= w
    ensures Rank(GradeOf(v)) <= Rank(GradeOf(w))
  {
  }

  /** Each threshold lands in its own band and the value one below it in the
      band beneath. */
  lemma GradeBoundaries()
    ensures GradeOf(45) == APlus && GradeOf(44) == A
    ensures GradeOf(40) == A && GradeOf(39) == BPlus
    ensures GradeOf(35) == BPlus && GradeOf(34) == B
    ensures GradeOf(30) == B && GradeOf(29) == CPlus
    ensures GradeOf(25) == CPlus && GradeOf(24) == C
    ensures GradeOf(20) == C && GradeOf(19) == DPlus
    ensures GradeOf(18) == DPlus && GradeOf(17) == D
  {
  }

  /** `Number(sub.mark) || 0`: the numeric value of a mark, with anything
      that is not a number counted as 0. */
  function Earned(m: Mark): (e: int)
    ensures m.Number? ==> e == m.value
    ensures !m.Number? ==> e == 0
  {
    match ToNumber(m)
    case NaN => 0
    case Finite(v) => v
  }

  /** `record.subjects.reduce((sum, sub) => sum + (Number(sub.mark) || 0), 0)`,
      folding from the left. When every mark lies between 0 and the maximum,
      so does the total, scaled by the number of subjects. */
  function TotalEarned(subjects: seq<Subject>): (t: int)
    ensures (forall i :: 0 <= i < |subjects| ==> 0 <= Earned(subjects[i].mark) <= MaxMark) ==>
              0 <= t <= TotalMax(subjects)
  {
    if subjects == [] then 0
    else TotalEarned(subjects[..|subjects| - 1]) + Earned(subjects[|subjects| - 1].mark)
  }

  /** `record.subjects.length * 50`: zero exactly when there are no subjects. */
  function TotalMax(subjects: seq<Subject>): (t: nat)
    ensures t == 0 <==> subjects == []
    ensures t == MaxMark * |subjects|
  {
    |subjects| * MaxMark
  }

  /** The total of a list of subjects is the sum of the totals of its parts. */
  lemma {:induction false} TotalEarnedAppend(a: seq<Subject>, b: seq<Subject>)
    ensures TotalEarned(a + b) == TotalEarned(a) + TotalEarned(b)
  {
    if b != [] {
      assert (a + b)[..|a + b| - 1] == a + b[..|b| - 1];
      TotalEarnedAppend(a, b[..|b| - 1]);
    } else {
      assert a + b == a;
    }
  }

  /** The example of two subjects at 18 and 45: both pass the D line, the
      total is 63 out of 100. */
  lemma ReportExample()
    ensures var s := [Subject("Math", Number(18)), Subject("Arabic", Number(45))];
            TotalEarned(s) == 63 && TotalMax(s) == 100 && GetGrade(s[0].mark) == DPlus && GetGrade(s[1].mark) == APlus
  {
    var s := [Subject("Math", Number(18)), Subject("Arabic", Number(45))];
    assert s[..1] == [s[0]];
    assert s[..1][..0] == [];
  }
}
