/** The blog's post record (src/main.rs `Post`) and the calendar dates it carries. */
module Posts {

  /** A calendar date (`chrono::NaiveDate`). */
  datatype Date = Date(year: int, month: int, day: int)

  /** `a` is on or before `b`: chronological order, as `NaiveDate` compares. */
  predicate NotAfter(a: Date, b: Date)
  {
    a.year < b.year
    || (a.year == b.year && (a.month < b.month || (a.month == b.month && a.day <= b.day)))
  }

  /** Chronological order is total. */
  lemma NotAfterTotal(a: Date, b: Date)
    ensures NotAfter(a, b) || NotAfter(b, a)
  {
  }

  /** Chronological order is transitive. */
  lemma NotAfterTransitive(a: Date, b: Date, c: Date)
    requires NotAfter(a, b) && NotAfter(b, c)
    ensures NotAfter(a, c)
  {
  }

  /** A rendered post, as kept in the in-memory post map. */
  datatype Post = Post(
    path: string,
    date: Date,
    title: string,
    md: string,
    html: string,
    public: bool,
    numVisits: nat)
}
