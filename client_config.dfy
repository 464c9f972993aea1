/** The Next.js side's sheet configuration: its own column letters, which
    differ from the server's, and an `INDEX` table that covers every field. */
module ClientConfig {
  import opened ColumnLetters

  datatype Field =
    | Timestamp | Name | Email | Phone | University | Department | Year
    | EventMorning | EventAfternoon | TransactionId | IeeeMembership | LinkedIn
    | Status | Password | Github | Instagram | Slug

  /** `SHEET_CONFIG.COLUMNS`. */
  function Letter(f: Field): string {
    match f
    case Timestamp => "A"
    case Name => "B"
    case Email => "C"
    case Phone => "D"
    case University => "E"
    case Department => "F"
    case Year => "G"
    case EventMorning => "H"
    case EventAfternoon => "I"
    case TransactionId => "J"
    case IeeeMembership => "K"
    case LinkedIn => "M"
    case Status => "O"
    case Password => "P"
    case Github => "Q"
    case Instagram => "R"
    case Slug => "S"
  }

  /** `SHEET_CONFIG.INDEX.f`, defined for every field including SLUG. */
  function Index(f: Field): int {
    ColumnIndex(Letter(f))
  }

  /** Every column letter is a single upper-case letter, and no two fields share one. */
  lemma LettersDistinct(f: Field, g: Field)
    ensures |Letter(f)| == 1 && AllUpper(Letter(f))
    ensures f != g ==> Letter(f) != Letter(g)
  {
  }

  /** No two fields share an index. */
  lemma IndexDistinct(f: Field, g: Field)
    requires f != g
    ensures Index(f) != Index(g)
  {
    LettersDistinct(f, g);
    if Index(f) == Index(g) {
      ColInjective(Letter(f), Letter(g));
    }
  }

  /** STATUS 'O' is 14, PASSWORD 'P' is 15, SLUG 'S' is 18; every index is
      the letter's position in the alphabet, counted from 0. */
  lemma IndexValues()
    ensures forall f: Field :: 0 <= Index(f) <= 25 && Index(f) == Letter(f)[0] as int - 65
    ensures Index(Email) == 2 && Index(Status) == 14 && Index(Password) == 15 && Index(Slug) == 18
  {
    forall f: Field ensures Index(f) == Letter(f)[0] as int - 65 {
      OneAndTwoLetters(Letter(f)[0], 'A');
      assert Letter(f) == [Letter(f)[0]];
    }
  }
}
