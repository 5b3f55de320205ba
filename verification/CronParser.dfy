/** Parsing of cron fields into bit sets (pkg/cron/parser.go). */
module CronParser {
  import opened Collections
  import opened Text
  import opened Words

  datatype Bounds = Bounds(min: nat, max: nat, names: map<string, nat>)

  /** Bounds that leave bit 63 free for the star. */
  ghost predicate ProperBounds(r: Bounds) {
    r.min <= r.max <= 62
  }

  const SECONDS: Bounds := Bounds(0, 59, map[])
  const MINUTES: Bounds := Bounds(0, 59, map[])
  const HOURS: Bounds := Bounds(0, 23, map[])
  const DOM: Bounds := Bounds(1, 31, map[])
  const MONTHS: Bounds := Bounds(1, 12, map[
    "jan" := 1, "feb" := 2, "mar" := 3, "apr" := 4, "may" := 5, "jun" := 6,
    "jul" := 7, "aug" := 8, "sep" := 9, "oct" := 10, "nov" := 11, "dec" := 12])
  const DOW: Bounds := Bounds(0, 6, map[
    "sun" := 0, "mon" := 1, "tue" := 2, "wed" := 3, "thu" := 4, "fri" := 5, "sat" := 6])

  /** A parsed range: the first and last value, the step, and whether the star bit is set. */
  datatype Range = Range(start: nat, end: nat, step: nat, star: bool)

  // ---------------------------------------------------------------- getBits

  /** `i` is one of start, start + step, start + 2 * step, and so on. */
  ghost predicate OnGrid(start: int, step: nat, i: int)
    requires step > 0
    decreases i - start
  {
    i == start || (i > start && OnGrid(start, step, i - step))
  }

  ghost predicate InRange(r: Range, i: int) {
    r.step > 0 && r.start <= i <= r.end && OnGrid(r.start, r.step, i)
  }

  /** Between two neighbours on the grid there is nothing. */
  lemma {:induction false} GridGap(start: int, step: nat, i: int, j: int)
    requires step > 0 && OnGrid(start, step, i) && start <= i < j < i + step
    ensures !OnGrid(start, step, j)
    decreases i - start
  {
    if i == start {
      assert j - step < start;
    } else {
      OnGridIsAbove(start, step, i - step);
      GridGap(start, step, i - step, j - step);
    }
  }

  lemma OnGridIsAbove(start: int, step: nat, i: int)
    requires step > 0 && OnGrid(start, step, i)
    ensures i >= start
  {
  }

  lemma {:induction false} EveryOnGridByOne(start: int, i: int)
    requires start <= i
    ensures OnGrid(start, 1, i)
    decreases i - start
  {
    if i > start { EveryOnGridByOne(start, i - 1); }
  }

  function ShiftForm(min: nat, max: nat): Word {
    And(Not(ShiftLeft(ONES, max + 1)), ShiftLeft(ONES, min))
  }

  lemma ShiftedOnes(n: nat, i: int)
    requires 0 <= i < 64
    ensures i in ShiftLeft(ONES, n) <==> n <= i
  {
    if n <= i { assert i - n in ONES && (i - n) + n in ShiftLeft(ONES, n); }
  }

  /** The shift form has exactly the bits from `min` to `max`, which is what the loop computes for step one. */
  lemma ShiftFormIsInterval(min: nat, max: nat, i: int)
    requires min <= max <= 62
    ensures HasBit(ShiftForm(min, max), i) <==> InRange(Range(min, max, 1, false), i)
  {
    if 0 <= i < 64 {
      ShiftedOnes(min, i);
      ShiftedOnes(max + 1, i);
    }
    if min <= i { EveryOnGridByOne(min, i); }
  }

  /** The loop form. The index is an unsigned 64-bit integer and never wraps. */
  method LoopBits(min: nat, max: nat, step: nat) returns (bits: Word)
    requires min <= max <= 62 && 0 < step <= MAX_INT64
    ensures forall i :: HasBit(bits, i) <==> InRange(Range(min, max, step, false), i)
  {
    bits := ZERO;
    var i := min;
    while i <= max
      invariant min <= i < 0x1_0000_0000_0000_0000 && OnGrid(min, step, i)
      invariant forall j :: HasBit(bits, j) <==> j < i && InRange(Range(min, max, step, false), j)
      decreases max + step - i
    {
      ghost var before := bits;
      bits := Or(bits, BitAt(i));
      forall j ensures HasBit(bits, j) <==> j < i + step && InRange(Range(min, max, step, false), j) {
        assert HasBit(bits, j) <==> HasBit(before, j) || j == i;
        if i < j < i + step { GridGap(min, step, i, j); }
      }
      i := i + step;
    }
  }

  method GetBits(min: nat, max: nat, step: nat) returns (bits: Word)
    requires min <= max <= 62 && 0 < step <= MAX_INT64
    ensures forall i :: HasBit(bits, i) <==> InRange(Range(min, max, step, false), i)
  {
    if step == 1 {
      bits := ShiftForm(min, max);
      forall i ensures HasBit(bits, i) <==> InRange(Range(min, max, 1, false), i) { ShiftFormIsInterval(min, max, i); }
    } else {
      bits := LoopBits(min, max, step);
    }
  }

  // ---------------------------------------------------------------- getRange

  function ToLowerChar(c: char): char {
    if 'A' <= c <= 'Z' then (c as int + 32) as char else c
  }

  function ToLower(s: string): (r: string)
    ensures |r| == |s| && forall i :: 0 <= i < |s| ==> r[i] == ToLowerChar(s[i])
  {
    seq(|s|, i requires 0 <= i < |s| => ToLowerChar(s[i]))
  }

  function MustParseInt(s: string): (n: Option<nat>)
    ensures n.Some? ==> n.value <= MAX_INT64
  {
    var n := ParseInt(s);
    if n.Some? && n.value >= 0 then Some(n.value) else None
  }

  function ParseIntOrName(s: string, names: map<string, nat>): Option<nat> {
    if ToLower(s) in names then Some(names[ToLower(s)]) else MustParseInt(s)
  }

  /** The first and last value that the part before the slash names, and whether it is a wildcard. */
  function ParseSpan(lowAndHigh: seq<string>, r: Bounds): Option<(nat, nat, bool)>
    requires |lowAndHigh| > 0
  {
    if lowAndHigh[0] == "*" || lowAndHigh[0] == "?" then Some((r.min, r.max, true))
    else
      var start := ParseIntOrName(lowAndHigh[0], r.names);
      if start.None? then None
      else if |lowAndHigh| == 1 then Some((start.value, start.value, false))
      else if |lowAndHigh| == 2 then
        var end := ParseIntOrName(lowAndHigh[1], r.names);
        if end.None? then None else Some((start.value, end.value, false))
      else None
  }

  function ParseRange(expr: string, r: Bounds): (p: Option<Range>)
    ensures p.Some? ==> r.min <= p.value.start <= p.value.end <= r.max && 0 < p.value.step <= MAX_INT64
  {
    var rangeAndStep := Split(expr, '/');
    var lowAndHigh := Split(rangeAndStep[0], '-');
    var span := ParseSpan(lowAndHigh, r);
    if span.None? || |rangeAndStep| > 2 then None
    else
      var step := if |rangeAndStep| == 1 then Some(1) else MustParseInt(rangeAndStep[1]);
      if step.None? then None
      else
        // a single value with a step runs to the upper bound
        var end := if |rangeAndStep| == 2 && |lowAndHigh| == 1 then r.max else span.value.1;
        var star := span.value.2 && step.value <= 1;
        if span.value.0 < r.min || end > r.max || span.value.0 > end || step.value == 0 then None
        else Some(Range(span.value.0, end, step.value, star))
  }

  /** The bits a range stands for: every `step`-th value from start to end, and the star. */
  ghost predicate RangeHas(p: Range, i: int) {
    InRange(p, i) || (p.star && i == STAR)
  }

  method BitsOf(p: Range) returns (bits: Word)
    requires p.start <= p.end <= 62 && 0 < p.step <= MAX_INT64
    ensures forall i :: HasBit(bits, i) <==> RangeHas(p, i)
  {
    var plain := GetBits(p.start, p.end, p.step);
    assert forall i :: InRange(Range(p.start, p.end, p.step, false), i) <==> InRange(p, i);
    bits := plain;
    if p.star {
      bits := Or(plain, BitAt(STAR));
    }
  }

  method GetRange(expr: string, r: Bounds) returns (ok: bool, bits: Word)
    requires ProperBounds(r)
    ensures ok <==> Parses(expr, r)
    ensures ok ==> forall i :: HasBit(bits, i) <==> PieceHas(expr, r, i)
  {
    var p := ParseRange(expr, r);
    if p.None? { return false, ZERO; }
    bits := BitsOf(p.value);
    ok := true;
  }

  ghost predicate PieceHas(piece: string, r: Bounds, i: int) {
    ParseRange(piece, r).Some? && RangeHas(ParseRange(piece, r).value, i)
  }

  // ---------------------------------------------------------------- getField

  /** `strings.FieldsFunc` at commas: the nonempty pieces. */
  function Pieces(field: string): seq<string> {
    NonEmpty(Split(field, ','))
  }

  function NonEmpty(s: seq<string>): seq<string> {
    if s == [] then [] else if s[0] == "" then NonEmpty(s[1..]) else [s[0]] + NonEmpty(s[1..])
  }

  ghost predicate SomePieceHas(pieces: seq<string>, r: Bounds, i: int) {
    exists k :: 0 <= k < |pieces| && PieceHas(pieces[k], r, i)
  }

  lemma OneMorePiece(pieces: seq<string>, piece: string, r: Bounds, i: int)
    ensures SomePieceHas(pieces + [piece], r, i) <==> SomePieceHas(pieces, r, i) || PieceHas(piece, r, i)
  {
    var all := pieces + [piece];
    if SomePieceHas(pieces, r, i) {
      var k :| 0 <= k < |pieces| && PieceHas(pieces[k], r, i);
      assert all[k] == pieces[k];
    }
    if PieceHas(piece, r, i) { assert all[|pieces|] == piece; }
    if SomePieceHas(all, r, i) {
      var k :| 0 <= k < |all| && PieceHas(all[k], r, i);
      assert k < |pieces| ==> all[k] == pieces[k];
    }
  }

  ghost predicate IsUnion(bits: Word, pieces: seq<string>, r: Bounds) {
    forall i :: HasBit(bits, i) <==> SomePieceHas(pieces, r, i)
  }

  lemma UnionStep(bits: Word, bit: Word, pieces: seq<string>, piece: string, r: Bounds)
    requires IsUnion(bits, pieces, r)
    requires forall i :: HasBit(bit, i) <==> PieceHas(piece, r, i)
    ensures IsUnion(Or(bits, bit), pieces + [piece], r)
  {
    forall i ensures HasBit(Or(bits, bit), i) <==> SomePieceHas(pieces + [piece], r, i) {
      OneMorePiece(pieces, piece, r, i);
      assert HasBit(Or(bits, bit), i) <==> HasBit(bits, i) || HasBit(bit, i);
    }
  }

  ghost predicate Parses(piece: string, r: Bounds) {
    ParseRange(piece, r).Some?
  }

  ghost predicate AllParse(pieces: seq<string>, r: Bounds) {
    forall k {:trigger Parses(pieces[k], r)} :: 0 <= k < |pieces| ==> Parses(pieces[k], r)
  }

  /** The first `n` pieces have been accepted and `bits` is their union. */
  ghost predicate Gathered(bits: Word, pieces: seq<string>, n: nat, r: Bounds) {
    && n <= |pieces| && IsUnion(bits, pieces[..n], r)
    && forall k {:trigger Parses(pieces[k], r)} :: 0 <= k < n ==> Parses(pieces[k], r)
  }

  lemma GatherStep(bits: Word, bit: Word, pieces: seq<string>, n: nat, r: Bounds)
    requires n < |pieces| && Gathered(bits, pieces, n, r) && Parses(pieces[n], r)
    requires forall i :: HasBit(bit, i) <==> PieceHas(pieces[n], r, i)
    ensures Gathered(Or(bits, bit), pieces, n + 1, r)
  {
    UnionStep(bits, bit, pieces[..n], pieces[n], r);
    assert pieces[..n + 1] == pieces[..n] + [pieces[n]];
  }

  /** A field is accepted exactly when every piece is; its bits are the union over the pieces. */
  method GetField(field: string, r: Bounds) returns (ok: bool, bits: Word)
    requires ProperBounds(r)
    ensures ok <==> AllParse(Pieces(field), r)
    ensures ok ==> IsUnion(bits, Pieces(field), r)
  {
    bits := ZERO;
    var ranges := Pieces(field);
    for n := 0 to |ranges|
      invariant Gathered(bits, ranges, n, r)
    {
      var good, bit := GetRange(ranges[n], r);
      if !good { return false, bits; }
      GatherStep(bits, bit, ranges, n, r);
      bits := Or(bits, bit);
    }
    assert ranges[..|ranges|] == ranges;
    ok := true;
  }
}
