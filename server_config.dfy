/** The Express server's sheet configuration: the column letter of every
    registration field and the `INDEX` table computed from it with `col`. */
module ServerConfig {
  import opened Text
  import opened ColumnLetters

  datatype Field =
    | Timestamp | Name | Email | Phone | University | Department | Year
    | SelectedEvent | PosterTheme | TransactionId | IeeeMembership | LinkedIn
    | IsPosterPresenting | Status | Password | Github | Instagram | Slug

  /** `SHEET_CONFIG.COLUMNS`. */
  function Letter(f: Field): string {
    match f
    case Timestamp => "A"
    case Name => "B"
    case Email => "C"
    case Phone => "D"
    case University => "E"
    case Department => "F"
    case Year => "G"
    case SelectedEvent => "H"
    case PosterTheme => "I"
    case TransactionId => "J"
    case IeeeMembership => "K"
    case LinkedIn => "N"
    case IsPosterPresenting => "M"
    case Status => "U"
    case Password => "V"
    case Github => "W"
    case Instagram => "X"
    case Slug => "Y"
  }

  /** `col(COLUMNS.f)`. */
  function FieldIndex(f: Field): int {
    ColumnIndex(Letter(f))
  }

  /** `SHEET_CONFIG.INDEX` as written: the getter lists every field except
      SLUG, so `INDEX.SLUG` is `undefined`. */
  function Index(f: Field): (r: Option<int>)
    ensures r.None? <==> f == Slug
    ensures r.Some? ==> r.value == FieldIndex(f)
  {
    if f == Slug then None else Some(FieldIndex(f))
  }

  /** Every column letter is a single upper-case letter, and no two fields share one. */
  lemma LettersDistinct(f: Field, g: Field)
    ensures |Letter(f)| == 1 && AllUpper(Letter(f))
    ensures f != g ==> Letter(f) != Letter(g)
  {
  }

  /** No two fields share an index, so no two fields read the same cell. */
  lemma IndexDistinct(f: Field, g: Field)
    requires f != g
    ensures FieldIndex(f) != FieldIndex(g)
    ensures Index(f).Some? && Index(g).Some? ==> Index(f) != Index(g)
  {
    LettersDistinct(f, g);
    if FieldIndex(f) == FieldIndex(g) {
      ColInjective(Letter(f), Letter(g));
    }
  }

  /** The indices the server service reads: STATUS 'U' is 20, PASSWORD 'V'
      is 21, and SLUG 'Y' would be 24 had the getter listed it. */
  lemma IndexValues()
    ensures Index(Timestamp) == Some(0) && Index(Name) == Some(1) && Index(Email) == Some(2)
    ensures Index(Phone) == Some(3) && Index(University) == Some(4) && Index(Department) == Some(5)
    ensures Index(Year) == Some(6) && Index(SelectedEvent) == Some(7) && Index(PosterTheme) == Some(8)
    ensures Index(TransactionId) == Some(9) && Index(IeeeMembership) == Some(10)
    ensures Index(IsPosterPresenting) == Some(12) && Index(LinkedIn) == Some(13)
    ensures Index(Status) == Some(20) && Index(Password) == Some(21)
    ensures Index(Github) == Some(22) && Index(Instagram) == Some(23)
    ensures Index(Slug) == None && FieldIndex(Slug) == 24
  {
    forall f: Field ensures FieldIndex(f) == Letter(f)[0] as int - 65 {
      OneAndTwoLetters(Letter(f)[0], 'A');
      assert Letter(f) == [Letter(f)[0]];
    }
  }
}
