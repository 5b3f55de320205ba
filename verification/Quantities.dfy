/** CPU and memory quantities (pkg/parsers/parser.go). */
module Quantities {
  import opened Collections
  import opened Text

  /** Two's complement: the 64-bit integer that a mathematical result wraps to. */
  function Wrap64(n: int): (r: int)
    ensures MIN_INT64 <= r <= MAX_INT64
    ensures MIN_INT64 <= n <= MAX_INT64 ==> r == n
  {
    (n - MIN_INT64) % 0x1_0000_0000_0000_0000 + MIN_INT64
  }

  function TrimSuffix(s: string, t: string): string {
    if HasSuffix(s, t) then s[..|s| - |t|] else s
  }

  // ---------------------------------------------------------------- CPU

  function ConvertCPUToInt(cpu: string): Option<int> {
    if HasSuffix(cpu, "m") then ParseInt(TrimSuffix(cpu, "m")) else Some(0)
  }

  function ConvertCPUToString(cpu: int): string {
    FormatInt(cpu) + "m"
  }

  /** Printing then parsing CPU is the identity on the 64-bit integers. */
  lemma CPURoundTrip(cpu: int)
    requires MIN_INT64 <= cpu <= MAX_INT64
    ensures ConvertCPUToInt(ConvertCPUToString(cpu)) == Some(cpu)
  {
    var s := ConvertCPUToString(cpu);
    assert s[|s| - 1..] == "m" && s[..|s| - 1] == FormatInt(cpu);
    ParseFormatted(cpu);
  }

  /** Without the unit the text counts as zero; with it, what precedes it must be a number. */
  lemma CPUText(number: string)
    ensures ConvertCPUToInt(number + "m") == ParseInt(number)
    ensures (|number| == 0 || number[|number| - 1] != 'm') ==> ConvertCPUToInt(number) == Some(0)
  {
    var s := number + "m";
    assert s[|s| - 1..] == "m" && s[..|s| - 1] == number;
    if |number| > 0 { assert number[|number| - 1..] == [number[|number| - 1]]; }
  }

  // ---------------------------------------------------------------- memory

  const UNITS: map<string, int> := map[
    "Ki" := 1024, "KiB" := 1024,
    "Mi" := 1024 * 1024, "MiB" := 1024 * 1024,
    "Gi" := 1024 * 1024 * 1024, "GiB" := 1024 * 1024 * 1024,
    "TiB" := 1024 * 1024 * 1024 * 1024,
    "K" := 1000, "KB" := 1000, "Kb" := 1000,
    "M" := 1000 * 1000, "MB" := 1000 * 1000, "Mb" := 1000 * 1000,
    "G" := 1000 * 1000 * 1000, "Gb" := 1000 * 1000 * 1000,
    "TB" := 1000 * 1000 * 1000 * 1000, "Tb" := 1000 * 1000 * 1000 * 1000]

  function Power(base: nat, n: nat): nat {
    if n == 0 then 1 else base * Power(base, n - 1)
  }

  /** Kilo, mega, giga and tera: the first to the fourth power. */
  function Exponent(letter: char): nat {
    if letter == 'K' then 1 else if letter == 'M' then 2 else if letter == 'G' then 3 else 4
  }

  /** A unit with an `i` counts in powers of 1024, any other in powers of 1000; the letter gives the power. The units of
      the map are these; there is neither a `Ti` nor a `GB`. */
  lemma UnitValue(u: string)
    ensures u in UNITS <==> u in {"K", "M", "G", "Ki", "Mi", "Gi", "KiB", "MiB", "GiB", "TiB", "KB", "MB", "TB",
                                  "Kb", "Mb", "Gb", "Tb"}
    ensures u in UNITS ==>
      |u| > 0 && UNITS[u] == Power(if |u| > 1 && u[1] == 'i' then 1024 else 1000, Exponent(u[0]))
  {
    Powers(1000);
    Powers(1024);
  }

  lemma Powers(b: nat)
    ensures Power(b, 1) == b && Power(b, 2) == b * b && Power(b, 3) == b * b * b && Power(b, 4) == b * b * b * b
  {
    assert Power(b, 0) == 1;
    assert Power(b, 3) == b * (b * b) && Power(b, 4) == b * (b * (b * b));
  }

  function ToUpperChar(c: char): char {
    if 'a' <= c <= 'z' then (c as int - 32) as char else c
  }

  function ToUpper(s: string): (r: string)
    ensures |r| == |s| && forall i :: 0 <= i < |s| ==> r[i] == ToUpperChar(s[i])
  {
    seq(|s|, i requires 0 <= i < |s| => ToUpperChar(s[i]))
  }

  predicate UnitMatches(mem: string, u: string) {
    HasSuffix(ToUpper(mem), ToUpper(u))
  }

  /** What the conversion returns when the loop over the unit map stops at `u`. */
  function WithUnit(mem: string, u: string): Option<int>
    requires u in UNITS
  {
    var num := ParseInt(TrimSuffix(mem, u));
    if num.None? then None else Some(Wrap64(num.value * UNITS[u]))
  }

  /** `ConvertMemoryToBytes`: the loop stops at the first unit that matches, in the arbitrary order of the map walk. */
  method ConvertMemoryToBytes(mem: string) returns (r: Option<int>)
    ensures mem == "" ==> r == Some(0)
    ensures mem != "" && (forall u :: u in UNITS ==> !UnitMatches(mem, u)) ==> r == None
    ensures mem != "" && (exists u :: u in UNITS && UnitMatches(mem, u)) ==>
              exists u :: u in UNITS && UnitMatches(mem, u) && r == WithUnit(mem, u)
  {
    if |mem| == 0 { return Some(0); }
    var todo := UNITS.Keys;
    while todo != {}
      invariant todo <= UNITS.Keys
      invariant forall u :: u in UNITS.Keys - todo ==> !UnitMatches(mem, u)
    {
      var u :| u in todo;
      if UnitMatches(mem, u) { return WithUnit(mem, u); }
      todo := todo - {u};
    }
    assert ParseInt("") == None;
    r := None;
  }

  /** A number cannot end in a letter, so a conversion succeeds only with a unit that the text ends in as written. */
  lemma SuccessTrims(mem: string, u: string)
    requires u in UNITS && UnitMatches(mem, u) && WithUnit(mem, u).Some?
    ensures HasSuffix(mem, u)
  {
    UnitEndsInLetter(u);
    if !HasSuffix(mem, u) {
      var c := mem[|mem| - 1];
      assert ToUpperChar(c) == ToUpper(mem)[|mem| - 1] == ToUpper(u)[|u| - 1] == ToUpperChar(u[|u| - 1]) by {
        assert ToUpper(mem)[|mem| - |u|..][|u| - 1] == ToUpper(mem)[|mem| - 1];
      }
      LetterEndsNoNumber(mem);
    }
  }

  lemma UnitEndsInLetter(u: string)
    requires u in UNITS
    ensures |u| > 0 && ToUpperChar(u[|u| - 1]) in {'I', 'B', 'K', 'M', 'G'}
  {
  }

  lemma LetterEndsNoNumber(s: string)
    requires |s| > 0 && ToUpperChar(s[|s| - 1]) in {'I', 'B', 'K', 'M', 'G'}
    ensures ParseInt(s) == None
  {
    var signed := s[0] == '-' || s[0] == '+';
    var digits := if signed then s[1..] else s;
    if digits != [] {
      assert digits[|digits| - 1] == s[|s| - 1];
      assert !AllDigits(digits);
    }
  }

  lemma UnitShapes(u: string)
    requires u in UNITS
    ensures 1 <= |u| <= 3
    ensures |u| > 1 ==> u[|u| - 1] in {'i', 'B', 'b'}
    ensures |u| == 3 ==> u[1..] == "iB" && u[0] in {'K', 'M', 'G', 'T'}
    ensures |u| == 2 ==> u[0] in {'K', 'M', 'G', 'T'}
    ensures |u| == 1 ==> u[0] in {'K', 'M', 'G'}
  {
  }

  lemma SuffixesOfOneText(mem: string, u: string, v: string)
    requires u in UNITS && v in UNITS && HasSuffix(mem, u) && HasSuffix(mem, v) && |u| <= |v|
    ensures u == v
  {
    UnitShapes(u);
    UnitShapes(v);
    assert v[|v| - |u|..] == u by {
      forall i | 0 <= i < |u| ensures v[|v| - |u|..][i] == u[i] {
        assert mem[|mem| - |u|..][i] == mem[|mem| - |u| + i];
        assert mem[|mem| - |v|..][|v| - |u| + i] == mem[|mem| - |u| + i];
      }
    }
  }

  /** For every memory text, any two orders of the map walk that both succeed give the same number. */
  lemma MemoryIsOrderIndependent(mem: string, u: string, v: string)
    requires u in UNITS && UnitMatches(mem, u) && WithUnit(mem, u).Some?
    requires v in UNITS && UnitMatches(mem, v) && WithUnit(mem, v).Some?
    ensures WithUnit(mem, u) == WithUnit(mem, v)
  {
    SuccessTrims(mem, u);
    SuccessTrims(mem, v);
    if |u| <= |v| { SuffixesOfOneText(mem, u, v); } else { SuffixesOfOneText(mem, v, u); }
  }

  /** Success itself depends on the order: with "KB" first, "5KB" is 5000; with "Kb" first it is refused. */
  lemma SuccessDependsOnOrder()
    ensures "KB" in UNITS && "Kb" in UNITS && UnitMatches("5KB", "KB") && UnitMatches("5KB", "Kb")
    ensures WithUnit("5KB", "KB") == Some(5000) && WithUnit("5KB", "Kb") == None
  {
    UpperOfFive();
    assert TrimSuffix("5KB", "KB") == "5" && TrimSuffix("5KB", "Kb") == "5KB";
    FiveIsFive();
    LetterEndsNoNumber("5KB");
  }

  /** The texts for which it does: a number followed by a unit that the map lists in two spellings. */
  predicate TwoSpellings(mem: string) {
    |mem| >= 2 && mem[|mem| - 2..] in {"KB", "Kb", "MB", "Mb", "TB", "Tb"} && ParseInt(mem[..|mem| - 2]).Some?
  }

  function OtherSpelling(u: string): (v: string)
    requires u in {"KB", "Kb", "MB", "Mb", "TB", "Tb"}
    ensures v in UNITS && v != u && |v| == 2
  {
    if u == "KB" then "Kb" else if u == "Kb" then "KB"
    else if u == "MB" then "Mb" else if u == "Mb" then "MB"
    else if u == "TB" then "Tb" else "TB"
  }

  lemma SameUpper(u: string)
    requires u in {"KB", "Kb", "MB", "Mb", "TB", "Tb"}
    ensures u in UNITS && ToUpper(u) == ToUpper(OtherSpelling(u))
  {
  }

  lemma SuffixMatches(mem: string, u: string)
    requires HasSuffix(mem, u)
    ensures UnitMatches(mem, u)
  {
    var s, t := ToUpper(mem)[|mem| - |u|..], ToUpper(u);
    assert mem[|mem| - |u|..] == u;
    forall i | 0 <= i < |u| ensures s[i] == t[i] { assert mem[|mem| - |u|..][i] == mem[|mem| - |u| + i]; }
  }

  /** Two different units that fit the same text are spellings of one unit. */
  lemma OnlySpellingsCollide(mem: string, u: string, v: string)
    requires u in UNITS && v in UNITS && UnitMatches(mem, u) && UnitMatches(mem, v) && u != v
    ensures u in {"KB", "Kb", "MB", "Mb", "TB", "Tb"}
  {
    if |u| < |v| {
      LongerUnitEndsOtherwise(u, v);
      UpperSuffix(mem, u, v);
      assert false;
    } else if |v| < |u| {
      LongerUnitEndsOtherwise(v, u);
      UpperSuffix(mem, v, u);
      assert false;
    } else {
      UpperSuffix(mem, u, v);
      assert ToUpperChar(v[0]) == ToUpperChar(u[0]) && ToUpperChar(v[|u| - 1]) == ToUpperChar(u[|u| - 1]);
      UnitsOfOneLength(u, v);
    }
  }

  lemma LongerUnitEndsOtherwise(u: string, v: string)
    requires u in UNITS && v in UNITS && |u| < |v|
    ensures |u| > 0 && ToUpperChar(v[|v| - |u|]) != ToUpperChar(u[0])
  {
    UnitShapes(u);
    UnitShapes(v);
    if |u| == 2 { assert v[1..][0] == v[1]; }
  }

  lemma UnitsOfOneLength(u: string, v: string)
    requires u in UNITS && v in UNITS && u != v && |u| == |v|
    requires ToUpperChar(v[0]) == ToUpperChar(u[0]) && ToUpperChar(v[|u| - 1]) == ToUpperChar(u[|u| - 1])
    ensures u in {"KB", "Kb", "MB", "Mb", "TB", "Tb"}
  {
    UnitShapes(u);
    UnitShapes(v);
    assert u == [u[0]] + u[1..] && v == [v[0]] + v[1..];
    assert u[0] == v[0] && |u| == 2;
    assert u == [u[0], u[1]] && v == [v[0], v[1]];
  }

  lemma UpperSuffix(mem: string, u: string, v: string)
    requires UnitMatches(mem, u) && UnitMatches(mem, v) && |u| <= |v|
    ensures forall i :: 0 <= i < |u| ==> ToUpperChar(v[|v| - |u| + i]) == ToUpperChar(u[i])
  {
    var m := ToUpper(mem);
    forall i | 0 <= i < |u| ensures ToUpperChar(v[|v| - |u| + i]) == ToUpperChar(u[i]) {
      assert m[|m| - |u|..][i] == m[|m| - |u| + i] == m[|m| - |v|..][|v| - |u| + i];
    }
  }

  /** Whether a conversion succeeds is independent of the order exactly for the other texts. */
  lemma SuccessIsOrderIndependentIff(mem: string)
    ensures (forall u, v :: u in UNITS && v in UNITS && UnitMatches(mem, u) && UnitMatches(mem, v) ==>
               (WithUnit(mem, u).Some? <==> WithUnit(mem, v).Some?))
            <==> !TwoSpellings(mem)
  {
    if TwoSpellings(mem) {
      var u := mem[|mem| - 2..];
      var v := OtherSpelling(u);
      SameUpper(u);
      SuffixMatches(mem, u);
      assert UnitMatches(mem, v) && WithUnit(mem, u).Some?;
      if WithUnit(mem, v).Some? {
        SuccessTrims(mem, v);
        assert false;
      }
    } else {
      forall u, v | u in UNITS && v in UNITS && UnitMatches(mem, u) && UnitMatches(mem, v) && u != v
        ensures !WithUnit(mem, u).Some?
      {
        OnlySpellingsCollide(mem, u, v);
        if WithUnit(mem, u).Some? {
          SuccessTrims(mem, u);
          assert false;
        }
      }
    }
  }

  lemma UpperOfFive()
    ensures ToUpper("5KB") == "5KB" && ToUpper("Kb") == "KB" && ToUpper("KB") == "KB"
    ensures "5KB"[1..] == "KB"
  {
  }

  lemma FiveIsFive()
    ensures ParseInt("5") == Some(5)
  {
    assert "5"[..0] == "";
  }

  // ---------------------------------------------------------------- printing memory

  /** Go's integer division, which truncates toward zero. */
  function TruncDiv(n: int, d: int): int
    requires d > 0
  {
    if n >= 0 then n / d else -(-n / d)
  }

  function ConvertMemoryToString(mem: int): string {
    FormatInt(TruncDiv(mem, 1024 * 1024)) + "Mi"
  }

  lemma OnlyMiMatches(s: string, u: string)
    requires u in UNITS && UnitMatches(s + "Mi", u)
    ensures u == "Mi"
  {
    var t := s + "Mi";
    UnitShapes(u);
    var upper := ToUpper(t);
    assert upper[|t| - 1] == 'I' && upper[|t| - 2] == 'M';
    assert upper[|t| - |u|..][|u| - 1] == upper[|t| - 1];
    assert ToUpper(u)[|u| - 1] == 'I';
    assert |u| == 2;
    assert upper[|t| - 2..][0] == upper[|t| - 2] && ToUpper(u)[0] == 'M';
    assert u[0] == 'M' && u[1] == 'i';
    assert u == [u[0], u[1]];
  }

  /** A number with a unit is read as that many of the unit, in 64-bit arithmetic. */
  lemma ParsePrintedQuantity(q: int, u: string)
    requires MIN_INT64 <= q <= MAX_INT64 && u in UNITS
    ensures UnitMatches(FormatInt(q) + u, u) && WithUnit(FormatInt(q) + u, u) == Some(Wrap64(q * UNITS[u]))
  {
    var s := FormatInt(q) + u;
    assert s[|s| - |u|..] == u && TrimSuffix(s, u) == FormatInt(q);
    SuffixMatches(s, u);
    ParseFormatted(q);
  }

  lemma TruncInRange(mem: int)
    requires MIN_INT64 <= mem <= MAX_INT64
    ensures var q := TruncDiv(mem, 1024 * 1024);
      MIN_INT64 <= q <= MAX_INT64 && Wrap64(q * (1024 * 1024)) == q * (1024 * 1024)
  {
    var q := TruncDiv(mem, 1024 * 1024);
    assert mem >= 0 ==> 0 <= q * (1024 * 1024) <= mem;
    assert mem < 0 ==> mem <= q * (1024 * 1024) <= 0;
  }

  /** Printing then parsing memory truncates toward zero to whole mebibytes, whatever the order of the map walk. */
  lemma MemoryRoundTrip(mem: int, u: string)
    requires MIN_INT64 <= mem <= MAX_INT64 && u in UNITS
    ensures UnitMatches(ConvertMemoryToString(mem), u) <==> u == "Mi"
    ensures UnitMatches(ConvertMemoryToString(mem), u) ==>
              WithUnit(ConvertMemoryToString(mem), u) == Some(TruncDiv(mem, 1024 * 1024) * (1024 * 1024))
  {
    var q := TruncDiv(mem, 1024 * 1024);
    if UnitMatches(ConvertMemoryToString(mem), u) { OnlyMiMatches(FormatInt(q), u); }
    TruncInRange(mem);
    if u == "Mi" { ParsePrintedQuantity(q, "Mi"); }
  }
}
