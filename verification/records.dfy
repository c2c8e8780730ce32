/** The value types of the grade manager: a student record, a grade and the
    nine letter ratings with their raw-value labels. */
module Records {
  import opened Wrappers

  /** The letter ratings, in declaration order. */
  datatype Rating = APlus | A | BPlus | B | CPlus | C | DPlus | D | F

  /** The raw value of each rating: the case name, or the label given to the "+" cases. */
  function Label(r: Rating): (s: string)
    ensures 1 <= |s| <= 2 && s[0] in "ABCDF"
    ensures |s| == 2 <==> r in {APlus, BPlus, CPlus, DPlus}
    ensures |s| == 2 ==> s[1] == '+'
  {
    match r
    case APlus => "A+"
    case A => "A"
    case BPlus => "B+"
    case B => "B"
    case CPlus => "C+"
    case C => "C"
    case DPlus => "D+"
    case D => "D"
    case F => "F"
  }

  /** The failable initialiser `Rating(rawValue:)`: an exact, case-sensitive
      match against the nine labels. */
  function ParseRating(s: string): (r: Option<Rating>)
    ensures r.Some? ==> Label(r.value) == s
    ensures r.None? ==> forall q: Rating :: Label(q) != s
  {
    if s == "A+" then Some(APlus)
    else if s == "A" then Some(A)
    else if s == "B+" then Some(BPlus)
    else if s == "B" then Some(B)
    else if s == "C+" then Some(CPlus)
    else if s == "C" then Some(C)
    else if s == "D+" then Some(DPlus)
    else if s == "D" then Some(D)
    else if s == "F" then Some(F)
    else None
  }

  /** A grade: a subject and an optional rating (nil when the grade names only a
      subject, as a removal request does). Equality is structural. */
  datatype Grade = Grade(subject: string, rating: Option<Rating>)

  /** A student: a name and an optional grade list. `None` means never graded,
      which is distinct from the empty list a removal can leave behind. */
  datatype Student = Student(name: string, grades: Option<seq<Grade>>)

  /** The nine raw labels are pairwise distinct. */
  lemma LabelInjective(q1: Rating, q2: Rating)
    ensures Label(q1) == Label(q2) ==> q1 == q2
  {
  }

  /** Parsing a rating's raw value gives back that rating. */
  lemma RatingRoundTrip(r: Rating)
    ensures ParseRating(Label(r)) == Some(r)
  {
  }

  /** The parser accepts exactly the nine labels. */
  lemma ParseRatingAcceptsExactlyLabels(s: string)
    ensures ParseRating(s).Some? <==> s in {"A+", "A", "B+", "B", "C+", "C", "D+", "D", "F"}
  {
  }

  /** Lower case, a doubled sign and the empty string are all rejected. */
  lemma ParseRatingRejects()
    ensures ParseRating("a") == None
    ensures ParseRating("A++") == None
    ensures ParseRating("") == None
    ensures ParseRating("a+") == None
  {
  }

  /** Two grades are equal exactly when subject and rating both are. */
  lemma GradeEqualityIsStructural(g1: Grade, g2: Grade)
    ensures g1 == g2 <==> g1.subject == g2.subject && g1.rating == g2.rating
  {
  }
}
