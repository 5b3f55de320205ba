/** Decimal numbers as Go's `strconv` prints and parses them, and splitting of strings. */
module Text {
  import opened Collections

  const MIN_INT64: int := -0x8000_0000_0000_0000
  const MAX_INT64: int := 0x7FFF_FFFF_FFFF_FFFF

  predicate IsDigit(c: char) {
    '0' <= c <= '9'
  }

  ghost predicate AllDigits(s: string) {
    forall i :: 0 <= i < |s| ==> IsDigit(s[i])
  }

  predicate Digits(s: string)
    ensures Digits(s) <==> AllDigits(s)
  {
    forall c | c in s :: IsDigit(c)
  }

  function DigitsValue(s: string): nat
    requires AllDigits(s)
  {
    if s == [] then 0 else DigitsValue(s[..|s| - 1]) * 10 + (s[|s| - 1] as int - '0' as int)
  }

  function FormatNat(n: nat): (s: string)
    ensures AllDigits(s) && |s| > 0
  {
    var last := [('0' as int + n % 10) as char];
    if n < 10 then last else FormatNat(n / 10) + last
  }

  function FormatInt(n: int): string {
    if n < 0 then "-" + FormatNat(-n) else FormatNat(n)
  }

  /** `ParseInt(s, 10, 64)` and `Atoi`: an optional sign, at least one digit, nothing else, within 64 bits. */
  function ParseInt(s: string): (r: Option<int>)
    ensures r.Some? ==> MIN_INT64 <= r.value <= MAX_INT64
  {
    var signed := |s| > 0 && (s[0] == '-' || s[0] == '+');
    var digits := if signed then s[1..] else s;
    if digits == [] || !Digits(digits) then None
    else
      var v: int := DigitsValue(digits);
      var n := if signed && s[0] == '-' then -v else v;
      if MIN_INT64 <= n <= MAX_INT64 then Some(n) else None
  }

  lemma {:induction false} FormatNatValue(n: nat)
    ensures DigitsValue(FormatNat(n)) == n
  {
    var s := FormatNat(n);
    if n >= 10 {
      FormatNatValue(n / 10);
      assert s[..|s| - 1] == FormatNat(n / 10);
    } else {
      assert s[..|s| - 1] == [];
    }
  }

  /** Printing then parsing is the identity on the 64-bit integers. */
  lemma ParseFormatted(n: int)
    requires MIN_INT64 <= n <= MAX_INT64
    ensures ParseInt(FormatInt(n)) == Some(n)
  {
    if n < 0 {
      FormatNatValue(-n);
      assert FormatInt(n)[1..] == FormatNat(-n);
    } else {
      FormatNatValue(n);
      assert IsDigit(FormatInt(n)[0]);
    }
  }

  lemma FormatNatIsInjective(m: nat, n: nat)
    requires FormatNat(m) == FormatNat(n)
    ensures m == n
  {
    FormatNatValue(m);
    FormatNatValue(n);
  }

  predicate HasSuffix(s: string, t: string) {
    |t| <= |s| && s[|s| - |t|..] == t
  }

  // ---------------------------------------------------------------- splitting

  /** `strings.Split` at a single character. */
  function Split(s: string, sep: char): (r: seq<string>)
    ensures |r| > 0
  {
    if s == [] then [""]
    else if s[0] == sep then [""] + Split(s[1..], sep)
    else var r := Split(s[1..], sep); [[s[0]] + r[0]] + r[1..]
  }

  lemma {:induction false} SplitNone(s: string, sep: char)
    requires sep !in s
    ensures Split(s, sep) == [s]
  {
    if s != [] {
      SplitNone(s[1..], sep);
      assert [s[0]] + s[1..] == s;
    }
  }

  lemma {:induction false} SplitFirst(a: string, sep: char, b: string)
    requires sep !in a
    ensures Split(a + [sep] + b, sep) == [a] + Split(b, sep)
  {
    var s := a + [sep] + b;
    if a == [] {
      assert s[1..] == b;
    } else {
      assert s[1..] == a[1..] + [sep] + b;
      SplitFirst(a[1..], sep, b);
      assert [a[0]] + a[1..] == a;
    }
  }

  lemma SplitTwo(a: string, sep: char, b: string)
    requires sep !in a && sep !in b
    ensures Split(a + [sep] + b, sep) == [a, b]
  {
    SplitFirst(a, sep, b);
    SplitNone(b, sep);
  }

  function Join(pieces: seq<string>, sep: char): string {
    if |pieces| == 0 then "" else if |pieces| == 1 then pieces[0] else pieces[0] + [sep] + Join(pieces[1..], sep)
  }

  /** Splitting undoes joining pieces that do not contain the separator. */
  lemma {:induction false} SplitJoined(pieces: seq<string>, sep: char)
    requires |pieces| > 0 && forall i :: 0 <= i < |pieces| ==> sep !in pieces[i]
    ensures Split(Join(pieces, sep), sep) == pieces
  {
    if |pieces| == 1 {
      SplitNone(pieces[0], sep);
    } else {
      SplitFirst(pieces[0], sep, Join(pieces[1..], sep));
      SplitJoined(pieces[1..], sep);
    }
  }

  /** Joining undoes splitting, and no piece contains the separator. */
  lemma {:induction false} JoinSplit(s: string, sep: char)
    ensures Join(Split(s, sep), sep) == s
    ensures forall i :: 0 <= i < |Split(s, sep)| ==> sep !in Split(s, sep)[i]
  {
    if s != [] {
      JoinSplit(s[1..], sep);
      var r := Split(s[1..], sep);
      assert s == [s[0]] + s[1..];
      if s[0] == sep {
        assert Split(s, sep)[1..] == r;
      } else {
        assert Split(s, sep)[1..] == r[1..];
        assert |r| > 1 ==> [s[0]] + (r[0] + [sep] + Join(r[1..], sep)) == ([s[0]] + r[0]) + [sep] + Join(r[1..], sep);
      }
    }
  }
}
