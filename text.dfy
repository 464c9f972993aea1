/** Strings as the TypeScript code sees them: `trim`, `toLowerCase`,
    `includes`, `startsWith`, `endsWith`, `indexOf` and `split` with a
    string separator, plus decimal rendering of integers. */
module Text {

  datatype Option<+T> = None | Some(value: T)

  /** The characters `String.prototype.trim` removes: ECMAScript WhiteSpace
      (tab, VT, FF, space, NBSP, BOM and the Zs category) and LineTerminator. */
  predicate IsSpace(c: char) {
    c == ' ' || c == '\t' || c == '\n' || c == '\r' || c == '\U{000B}' || c == '\U{000C}'
    || c == '\U{00A0}' || c == '\U{FEFF}' || c == '\U{1680}' || ('\U{2000}' <= c <= '\U{200A}')
    || c == '\U{2028}' || c == '\U{2029}' || c == '\U{202F}' || c == '\U{205F}' || c == '\U{3000}'
  }

  predicate AllSpace(s: string) {
    forall i :: 0 <= i < |s| ==> IsSpace(s[i])
  }

  /** `s.trim()`: strips white space from both ends until neither end is
      white space. */
  function Trim(s: string): (r: string)
    ensures |r| <= |s|
    ensures r == [] || (!IsSpace(r[0]) && !IsSpace(r[|r| - 1]))
    decreases |s|
  {
    if s == [] then s
    else if IsSpace(s[0]) then Trim(s[1..])
    else if IsSpace(s[|s| - 1]) then Trim(s[..|s| - 1])
    else s
  }

  /** Only white space is removed: the result is the slice `s[i..j]` and
      everything outside it is white space. */
  lemma {:induction false} TrimRemovesOnlySpace(s: string) returns (i: nat, j: nat)
    ensures i <= j <= |s| && Trim(s) == s[i..j]
    ensures AllSpace(s[..i]) && AllSpace(s[j..])
    decreases |s|
  {
    if s == [] {
      i, j := 0, 0;
    } else if IsSpace(s[0]) {
      var i', j' := TrimRemovesOnlySpace(s[1..]);
      i, j := i' + 1, j' + 1;
      SpaceBeforeSlice(s, i', j');
    } else if IsSpace(s[|s| - 1]) {
      i, j := TrimRemovesOnlySpace(s[..|s| - 1]);
      SpaceAfterSlice(s, i, j);
    } else {
      i, j := 0, |s|;
      assert s[0..|s|] == s;
    }
  }

  /** One leading space more in front of a trimmed slice of `s[1..]`. */
  lemma SpaceBeforeSlice(s: string, i: nat, j: nat)
    requires s != [] && IsSpace(s[0])
    requires i <= j <= |s| - 1 && AllSpace(s[1..][..i]) && AllSpace(s[1..][j..])
    ensures s[1..][i..j] == s[i + 1..j + 1]
    ensures AllSpace(s[..i + 1]) && AllSpace(s[j + 1..])
  {
    var t := s[1..];
    assert s[j + 1..] == t[j..];
    var w, x := t[i..j], s[i + 1..j + 1];
    assert forall k :: 0 <= k < |w| ==> w[k] == x[k];
    var u, v := s[..i + 1], t[..i];
    assert forall k :: 0 < k < |u| ==> u[k] == v[k - 1];
  }

  /** One trailing space more behind a trimmed slice of `s[..|s| - 1]`. */
  lemma SpaceAfterSlice(s: string, i: nat, j: nat)
    requires s != [] && IsSpace(s[|s| - 1])
    requires i <= j <= |s| - 1 && AllSpace(s[..|s| - 1][..i]) && AllSpace(s[..|s| - 1][j..])
    ensures s[..|s| - 1][i..j] == s[i..j]
    ensures AllSpace(s[..i]) && AllSpace(s[j..])
  {
    var t := s[..|s| - 1];
    assert s[..i] == t[..i];
    var u, v := s[j..], t[j..];
    assert forall k :: 0 <= k < |u| - 1 ==> u[k] == v[k];
  }

  /** `s.trim().length > 0`: a cell is blank when it holds only white space. */
  lemma {:induction false} TrimEmptyIffBlank(s: string)
    ensures Trim(s) == [] <==> AllSpace(s)
    decreases |s|
  {
    if s == [] {
    } else if IsSpace(s[0]) {
      TrimEmptyIffBlank(s[1..]);
      assert AllSpace(s) <==> AllSpace(s[1..]) by {
        if AllSpace(s[1..]) {
          forall k | 0 <= k < |s| ensures IsSpace(s[k]) {
            if k > 0 { assert s[k] == s[1..][k - 1]; }
          }
        }
      }
    } else if IsSpace(s[|s| - 1]) {
      TrimEmptyIffBlank(s[..|s| - 1]);
    } else {
    }
  }

  /** ASCII part of `toLowerCase`. */
  function LowerChar(c: char): char {
    if 'A' <= c <= 'Z' then (c as int + 32) as char else c
  }

  function Lower(s: string): (r: string)
    ensures |r| == |s|
    ensures forall i :: 0 <= i < |s| ==> r[i] == LowerChar(s[i])
  {
    if s == [] then [] else [LowerChar(s[0])] + Lower(s[1..])
  }

  /** `p` occurs in `s` at position `j`. */
  predicate Occurs(s: string, p: string, j: int) {
    0 <= j && j + |p| <= |s| && s[j..j + |p|] == p
  }

  /** `s.indexOf(p)`, with `None` for -1: the first position where `p` occurs. */
  function IndexOf(s: string, p: string): (r: Option<nat>)
    ensures r.Some? ==> Occurs(s, p, r.value)
    ensures r.Some? ==> forall j :: 0 <= j < r.value ==> !Occurs(s, p, j)
    ensures r.None? ==> forall j :: !Occurs(s, p, j)
    decreases |s|
  {
    if |s| < |p| then None
    else if s[..|p|] == p then Some(0)
    else
      var rest := IndexOf(s[1..], p);
      forall j | 1 <= j ensures Occurs(s, p, j) <==> Occurs(s[1..], p, j - 1) {
        if j + |p| <= |s| {
          var u, v := s[j..j + |p|], s[1..][j - 1..j - 1 + |p|];
          assert forall k :: 0 <= k < |u| ==> u[k] == v[k];
        }
      }
      match rest
      case None => None
      case Some(i) => Some(i + 1)
  }

  /** `s.includes(p)`. */
  predicate Contains(s: string, p: string) {
    IndexOf(s, p).Some?
  }

  lemma ContainsIff(s: string, p: string)
    ensures Contains(s, p) <==> exists j :: Occurs(s, p, j)
  {
  }

  /** Where the first `p` starts, or `|s|` when there is none. */
  function Pos(s: string, p: string): (r: nat)
    ensures r <= |s|
  {
    match IndexOf(s, p)
    case None => |s|
    case Some(i) => i
  }

  /** The text before the first `p` (all of `s` when there is none). */
  function Before(s: string, p: string): string {
    s[..Pos(s, p)]
  }

  /** The text after the first `p`. */
  function After(s: string, p: string): string
    requires Contains(s, p)
  {
    s[IndexOf(s, p).value + |p|..]
  }

  /** `s.split(sep)` for a non-empty separator string. */
  function Split(s: string, sep: string): (r: seq<string>)
    requires sep != []
    ensures |r| >= 1 && r[0] == Before(s, sep)
    ensures |r| > 1 <==> Contains(s, sep)
    ensures Contains(s, sep) ==> r[1] == Before(After(s, sep), sep)
    decreases |s|
  {
    match IndexOf(s, sep)
    case None => [s]
    case Some(i) => [s[..i]] + Split(s[i + |sep|..], sep)
  }

  /** The first occurrence of `p` in the prefix `s[..k]` is the first in `s`,
      provided it ends inside the prefix. */
  lemma {:induction false} IndexOfPrefix(s: string, p: string, k: nat)
    requires k <= |s|
    ensures IndexOf(s, p).Some? && IndexOf(s, p).value + |p| <= k ==> IndexOf(s[..k], p) == IndexOf(s, p)
    ensures (IndexOf(s, p).None? || IndexOf(s, p).value + |p| > k) ==> IndexOf(s[..k], p).None?
  {
    var t := s[..k];
    forall j | j + |p| <= k ensures Occurs(t, p, j) <==> Occurs(s, p, j) {
      if 0 <= j {
        var u, v := t[j..j + |p|], s[j..j + |p|];
        assert forall m :: 0 <= m < |u| ==> u[m] == v[m];
      }
    }
    match IndexOf(t, p)
    case None =>
    case Some(i) =>
      assert Occurs(s, p, i);
  }

  /** Cutting at the first `a` and then at the first `c`, for a single
      character `c`, keeps the text before whichever comes first. */
  lemma {:induction false} BeforeThenBeforeChar(s: string, a: string, c: char)
    ensures Before(Before(s, a), [c]) == s[..if Pos(s, a) <= Pos(s, [c]) then Pos(s, a) else Pos(s, [c])]
  {
    var i := Pos(s, a);
    IndexOfPrefix(s, [c], i);
    assert s[..i][..Pos(s[..i], [c])] == s[..Pos(s[..i], [c])];
  }

  /** The first character of `s` that is `c`, or `|s|`: `Pos(s, [c])` as a quantified fact. */
  lemma {:induction false} PosChar(s: string, c: char)
    ensures Pos(s, [c]) < |s| ==> s[Pos(s, [c])] == c
    ensures forall j :: 0 <= j < Pos(s, [c]) ==> s[j] != c
  {
    var k := Pos(s, [c]);
    forall j | 0 <= j < k ensures s[j] != c {
      if s[j] == c { assert s[j..j + 1] == [c]; assert Occurs(s, [c], j); }
    }
    if k < |s| { assert Occurs(s, [c], k); assert s[k..k + 1] == [c]; }
  }

  predicate StartsWith(s: string, p: string) {
    |p| <= |s| && s[..|p|] == p
  }

  predicate EndsWith(s: string, p: string) {
    |p| <= |s| && s[|s| - |p|..] == p
  }

  /** Decimal digits of a natural number, most significant first. */
  function NatToDecimal(n: nat): (r: string)
    ensures r != []
    ensures forall i :: 0 <= i < |r| ==> '0' <= r[i] <= '9'
    decreases n
  {
    var d := ['0' + (n % 10) as char];
    if n < 10 then d else NatToDecimal(n / 10) + d
  }

  /** The value of a string of decimal digits. */
  function ParseDecimal(s: string): int {
    if s == [] then 0 else ParseDecimal(s[..|s| - 1]) * 10 + (s[|s| - 1] as int - '0' as int)
  }

  /** Rendering a number and reading it back gives the number. */
  lemma {:induction false} DecimalRoundTrip(n: nat)
    ensures ParseDecimal(NatToDecimal(n)) == n
  {
    var r := NatToDecimal(n);
    if n >= 10 {
      DecimalRoundTrip(n / 10);
      assert r[..|r| - 1] == NatToDecimal(n / 10);
    }
  }

  /** Template-literal rendering of an integer, `${i}`. */
  function IntToDecimal(i: int): string {
    if i < 0 then "-" + NatToDecimal(-i) else NatToDecimal(i)
  }
}
