/** `generateCredentials`: a login name derived from the sheet row and a
    six-character password over an alphabet without look-alike characters.
    `Math.random()` is replaced by the six alphabet positions it picks. */
module Credentials {
  import opened Text

  const Alphabet := "ABCDEFGHJKLMNPQRSTUVWXYZ23456789"

  method GenerateCredentials(rowId: int, picks: seq<nat>) returns (username: string, password: string)
    requires |picks| == 6 && forall i :: 0 <= i < 6 ==> picks[i] < |Alphabet|
    ensures username == "SMPK" + IntToDecimal(1000 + rowId)
    ensures |password| == 6
    ensures forall i :: 0 <= i < 6 ==> password[i] == Alphabet[picks[i]]
  {
    username := "SMPK" + IntToDecimal(1000 + rowId);
    password := "";
    for i := 0 to 6
      invariant |password| == i
      invariant forall j :: 0 <= j < i ==> password[j] == Alphabet[picks[j]]
    {
      password := password + [Alphabet[picks[i]]];
    }
  }

  /** The alphabet has 32 characters and leaves out I, O, 0 and 1, so every
      password character is unambiguous. */
  lemma AlphabetUnambiguous()
    ensures |Alphabet| == 32
    ensures forall i :: 0 <= i < |Alphabet| ==>
      ('A' <= Alphabet[i] <= 'Z' && Alphabet[i] != 'I' && Alphabet[i] != 'O') || ('2' <= Alphabet[i] <= '9')
  {
  }

  /** Different rows get different login names. */
  lemma {:induction false} UsernamesDistinct(a: int, b: int)
    requires 1000 + a >= 0 && 1000 + b >= 0 && a != b
    ensures "SMPK" + IntToDecimal(1000 + a) != "SMPK" + IntToDecimal(1000 + b)
  {
    DecimalRoundTrip(1000 + a);
    DecimalRoundTrip(1000 + b);
    var x, y := "SMPK" + IntToDecimal(1000 + a), "SMPK" + IntToDecimal(1000 + b);
    assert x[4..] == IntToDecimal(1000 + a) && y[4..] == IntToDecimal(1000 + b);
  }
}
