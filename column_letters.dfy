/** Spreadsheet column letters ("A", "B", ..., "Z", "AA", ...) and the
    `col` helper that turns them into 0-based array indices. The letters are
    bijective base-26 numerals: 'A' is the digit 1 and 'Z' the digit 26. */
module ColumnLetters {

  /** `letter.charCodeAt(i) - 64`. */
  function Digit(c: char): int {
    c as int - 64
  }

  predicate IsUpper(c: char) {
    'A' <= c <= 'Z'
  }

  predicate AllUpper(s: string) {
    forall i :: 0 <= i < |s| ==> IsUpper(s[i])
  }

  /** The value of `s` read as a bijective base-26 numeral. */
  function Numeral(s: string): int {
    if s == [] then 0 else Numeral(s[..|s| - 1]) * 26 + Digit(s[|s| - 1])
  }

  /** What `col(letter)` returns: the numeral minus one. */
  function ColumnIndex(s: string): int {
    Numeral(s) - 1
  }

  function Pow26(k: nat): nat {
    if k == 0 then 1 else 26 * Pow26(k - 1)
  }

  /** `col`: sums each digit times 26 to the power of its distance from the end. */
  method Col(letter: string) returns (index: int)
    ensures index == ColumnIndex(letter)
  {
    var column := 0;
    var length := |letter|;
    for i := 0 to length
      invariant column == Numeral(letter[..i]) * Pow26(length - i)
    {
      assert letter[..i + 1][..i] == letter[..i];
      assert Pow26(length - i) == 26 * Pow26(length - i - 1);
      column := column + Digit(letter[i]) * Pow26(length - i - 1);
    }
    assert letter[..length] == letter;
    index := column - 1;
  }

  /** One letter is its code minus 65, so 'A' is 0 and 'Z' is 25; two letters
      XY are 26 * (X - 64) + (Y - 64) - 1, so "AA" is 26. */
  lemma OneAndTwoLetters(x: char, y: char)
    ensures ColumnIndex([x]) == x as int - 65
    ensures ColumnIndex([x, y]) == 26 * (x as int - 64) + (y as int - 64) - 1
    ensures ColumnIndex("A") == 0 && ColumnIndex("Z") == 25 && ColumnIndex("AA") == 26
  {
    assert [x][..0] == [];
    assert Numeral([x]) == Numeral([]) * 26 + Digit(x);
    assert [x, y][..1] == [x];
    assert "AA"[..1] == "A";
  }

  /** The upper-case numeral of `n >= 1`: the inverse of `Numeral`. */
  function Letters(n: int): (s: string)
    requires n >= 1
    ensures s != [] && AllUpper(s)
    decreases n
  {
    var c := ((n - 1) % 26 + 65) as char;
    if (n - 1) / 26 == 0 then [c] else Letters((n - 1) / 26) + [c]
  }

  lemma {:induction false} NumeralOfLetters(n: int)
    requires n >= 1
    ensures Numeral(Letters(n)) == n
  {
    var s := Letters(n);
    var q := (n - 1) / 26;
    if q != 0 {
      NumeralOfLetters(q);
      assert s[..|s| - 1] == Letters(q);
    }
  }

  lemma {:induction false} NumeralPositive(s: string)
    requires AllUpper(s)
    ensures Numeral(s) >= 0
    ensures s != [] ==> Numeral(s) >= 1
  {
    if s != [] {
      NumeralPositive(s[..|s| - 1]);
    }
  }

  /** Every non-empty upper-case string is the numeral of its own value. */
  lemma {:induction false} LettersOfNumeral(s: string)
    requires s != [] && AllUpper(s)
    ensures Numeral(s) >= 1 && Letters(Numeral(s)) == s
  {
    var p, d := s[..|s| - 1], Digit(s[|s| - 1]);
    NumeralPositive(p);
    NumeralPositive(s);
    var n := Numeral(s);
    assert n - 1 == Numeral(p) * 26 + (d - 1) && 0 <= d - 1 < 26;
    assert (n - 1) / 26 == Numeral(p) && (n - 1) % 26 == d - 1;
    if p != [] {
      LettersOfNumeral(p);
      assert s == p + [s[|s| - 1]];
    }
  }

  /** `col` never maps two different column names to the same index. */
  lemma ColInjective(s: string, t: string)
    requires s != [] && AllUpper(s) && t != [] && AllUpper(t)
    requires ColumnIndex(s) == ColumnIndex(t)
    ensures s == t
  {
    LettersOfNumeral(s);
    LettersOfNumeral(t);
  }

  /** Every index from 0 up is the index of exactly one column name. */
  lemma ColSurjective(k: nat)
    ensures ColumnIndex(Letters(k + 1)) == k
  {
    NumeralOfLetters(k + 1);
  }
}
