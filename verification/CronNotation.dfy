/** The notation of cron fields, what it stands for, and that the parser reads exactly this notation
    (pkg/cron/parser.go). */
module CronNotation {
  import opened Collections
  import opened Text
  import opened Words
  import opened CronParser

  // ---------------------------------------------------------------- the notation

  /** A number, perhaps with a plus sign or leading zeros, or a name such as `jan` in any case. */
  datatype Value = Number(plus: bool, digits: string) | Name(word: string)

  /** What can be written before the slash. A wildcard is a star or a question mark; a hyphen and anything after it is
      ignored there. */
  datatype Span = Wild(question: bool, ignored: string) | Single(value: Value) | Between(low: Value, high: Value)

  /** A span, perhaps with a step. */
  datatype Piece = Plain(span: Span) | Stepped(span: Span, plus: bool, digits: string)

  predicate IsLetter(c: char) {
    'a' <= c <= 'z' || 'A' <= c <= 'Z'
  }

  ghost predicate IsWord(s: string) {
    |s| > 0 && forall i :: 0 <= i < |s| ==> IsLetter(s[i])
  }

  ghost predicate IsNumeral(s: string) {
    |s| > 0 && AllDigits(s)
  }

  ghost predicate WellWrittenValue(v: Value) {
    match v
    case Number(_, digits) => IsNumeral(digits)
    case Name(word) => IsWord(word)
  }

  ghost predicate WellWrittenSpan(s: Span) {
    match s
    case Wild(_, ignored) => ignored == "" || (ignored[0] == '-' && '/' !in ignored)
    case Single(v) => WellWrittenValue(v)
    case Between(low, high) => WellWrittenValue(low) && WellWrittenValue(high)
  }

  ghost predicate WellWritten(p: Piece) {
    WellWrittenSpan(p.span) && (p.Stepped? ==> IsNumeral(p.digits))
  }

  function PrintNumber(plus: bool, digits: string): string {
    (if plus then "+" else "") + digits
  }

  function PrintValue(v: Value): string {
    match v
    case Number(plus, digits) => PrintNumber(plus, digits)
    case Name(word) => word
  }

  function PrintSpan(s: Span): string {
    match s
    case Wild(question, ignored) => (if question then "?" else "*") + ignored
    case Single(v) => PrintValue(v)
    case Between(low, high) => PrintValue(low) + "-" + PrintValue(high)
  }

  function Print(p: Piece): string {
    match p
    case Plain(s) => PrintSpan(s)
    case Stepped(s, plus, digits) => PrintSpan(s) + "/" + PrintNumber(plus, digits)
  }

  // ---------------------------------------------------------------- its meaning

  /** Numbers are 64-bit integers; a name stands for what the bounds say. */
  ghost function ValueOf(v: Value, r: Bounds): Option<nat>
    requires WellWrittenValue(v)
  {
    match v
    case Number(_, digits) => if DigitsValue(digits) <= MAX_INT64 then Some(DigitsValue(digits)) else None
    case Name(word) => if ToLower(word) in r.names then Some(r.names[ToLower(word)]) else None
  }

  ghost function StepOf(p: Piece): nat
    requires WellWritten(p)
  {
    if p.Plain? then 1 else DigitsValue(p.digits)
  }

  /** A wildcard with no step above one: the day fields treat it specially. */
  ghost predicate IsStar(p: Piece)
    requires WellWritten(p)
  {
    p.span.Wild? && StepOf(p) == 1
  }

  /** The values a piece stands for, from its notation alone; none when they do not fit the bounds. A single value with
      a step runs to the upper bound. */
  ghost function Meaning(p: Piece, r: Bounds): Option<Range>
    requires WellWritten(p)
  {
    var low := match p.span
      case Wild(_, _) => Some(r.min)
      case Single(v) => ValueOf(v, r)
      case Between(v, _) => ValueOf(v, r);
    var high := match p.span
      case Wild(_, _) => Some(r.max)
      case Single(v) => if p.Plain? then ValueOf(v, r) else Some(r.max)
      case Between(_, v) => ValueOf(v, r);
    if low.Some? && high.Some? && r.min <= low.value <= high.value <= r.max && 0 < StepOf(p) <= MAX_INT64
    then Some(Range(low.value, high.value, StepOf(p), IsStar(p))) else None
  }

  /** The names of a bound are lower-case words. */
  ghost predicate NamesAreWords(r: Bounds) {
    forall n :: n in r.names ==> IsWord(n)
  }

  lemma BoundsHaveWords(r: Bounds)
    requires r in {SECONDS, MINUTES, HOURS, DOM, MONTHS, DOW}
    ensures ProperBounds(r) && NamesAreWords(r)
  {
  }

  // ---------------------------------------------------------------- what is written is read

  lemma ParseNumber(plus: bool, digits: string)
    requires IsNumeral(digits)
    ensures MustParseInt(PrintNumber(plus, digits))
            == if DigitsValue(digits) <= MAX_INT64 then Some(DigitsValue(digits)) else None
  {
    var s := PrintNumber(plus, digits);
    if plus { assert s[1..] == digits; } else { assert s == digits && IsDigit(s[0]); }
  }

  lemma WordIsNoNumber(s: string)
    requires IsWord(s)
    ensures MustParseInt(s) == None
  {
    assert IsLetter(s[0]) && !IsDigit(s[0]);
    assert !AllDigits(s);
  }

  lemma NumberIsNoName(plus: bool, digits: string, r: Bounds)
    requires IsNumeral(digits) && NamesAreWords(r)
    ensures ToLower(PrintNumber(plus, digits)) !in r.names
  {
    var s := PrintNumber(plus, digits);
    var l := ToLower(s);
    assert s[0] == if plus then '+' else digits[0];
    assert !IsLetter(l[0]);
  }

  lemma ParsePrintedValue(v: Value, r: Bounds)
    requires WellWrittenValue(v) && NamesAreWords(r)
    ensures ParseIntOrName(PrintValue(v), r.names) == ValueOf(v, r)
    ensures PrintValue(v) != "*" && PrintValue(v) != "?"
    ensures forall c :: c in PrintValue(v) ==> IsDigit(c) || IsLetter(c) || c == '+'
  {
    match v
    case Number(plus, digits) =>
      ParseNumber(plus, digits);
      NumberIsNoName(plus, digits, r);
      assert digits[0] in PrintValue(v);
    case Name(word) =>
      WordIsNoNumber(word);
      assert IsLetter(word[0]);
  }

  /** What the parser makes of a well-written span. */
  ghost function SpanOf(s: Span, r: Bounds): Option<(nat, nat, bool)>
    requires WellWrittenSpan(s)
  {
    match s
    case Wild(_, _) => Some((r.min, r.max, true))
    case Single(v) => if ValueOf(v, r).Some? then Some((ValueOf(v, r).value, ValueOf(v, r).value, false)) else None
    case Between(low, high) =>
      if ValueOf(low, r).Some? && ValueOf(high, r).Some?
      then Some((ValueOf(low, r).value, ValueOf(high, r).value, false)) else None
  }

  lemma ParseWild(s: Span, r: Bounds)
    requires WellWrittenSpan(s) && s.Wild?
    ensures '/' !in PrintSpan(s)
    ensures ParseSpan(Split(PrintSpan(s), '-'), r) == SpanOf(s, r)
  {
    var mark := if s.question then "?" else "*";
    if s.ignored == "" {
      SplitNone(mark, '-');
      assert PrintSpan(s) == mark;
    } else {
      assert PrintSpan(s) == mark + ['-'] + s.ignored[1..];
      SplitFirst(mark, '-', s.ignored[1..]);
    }
  }

  lemma ParsePrintedSpan(s: Span, r: Bounds)
    requires WellWrittenSpan(s) && NamesAreWords(r)
    ensures '/' !in PrintSpan(s)
    ensures var parts := Split(PrintSpan(s), '-');
      && ParseSpan(parts, r) == SpanOf(s, r)
      && (s.Single? ==> |parts| == 1) && (s.Between? ==> |parts| == 2)
  {
    match s
    case Wild(_, _) => ParseWild(s, r);
    case Single(v) => ParseSingle(v, r);
    case Between(low, high) => ParseBetween(low, high, r);
  }

  lemma ParseSingle(v: Value, r: Bounds)
    requires WellWrittenValue(v) && NamesAreWords(r)
    ensures '/' !in PrintValue(v)
    ensures var parts := Split(PrintValue(v), '-'); ParseSpan(parts, r) == SpanOf(Single(v), r) && |parts| == 1
  {
    ParsePrintedValue(v, r);
    ValueIsOneWord(v, r);
    SplitNone(PrintValue(v), '-');
  }

  lemma ParseBetween(low: Value, high: Value, r: Bounds)
    requires WellWrittenValue(low) && WellWrittenValue(high) && NamesAreWords(r)
    ensures '/' !in PrintSpan(Between(low, high))
    ensures var parts := Split(PrintSpan(Between(low, high)), '-');
      ParseSpan(parts, r) == SpanOf(Between(low, high), r) && |parts| == 2
  {
    ValueIsOneWord(low, r);
    ValueIsOneWord(high, r);
    SplitTwo(PrintValue(low), '-', PrintValue(high));
    ParseTwo(low, high, r);
  }

  lemma ValueIsOneWord(v: Value, r: Bounds)
    requires WellWrittenValue(v) && NamesAreWords(r)
    ensures '-' !in PrintValue(v) && '/' !in PrintValue(v)
  {
    ParsePrintedValue(v, r);
  }

  lemma ParseTwo(low: Value, high: Value, r: Bounds)
    requires WellWrittenValue(low) && WellWrittenValue(high) && NamesAreWords(r)
    ensures ParseSpan([PrintValue(low), PrintValue(high)], r) == SpanOf(Between(low, high), r)
  {
    ParsePrintedValue(low, r);
    ParsePrintedValue(high, r);
  }

  lemma SplitPrinted(p: Piece)
    requires WellWritten(p) && '/' !in PrintSpan(p.span)
    ensures Split(Print(p), '/')
            == if p.Plain? then [PrintSpan(p.span)] else [PrintSpan(p.span), PrintNumber(p.plus, p.digits)]
  {
    match p
    case Plain(s) => SplitNone(PrintSpan(s), '/');
    case Stepped(s, plus, digits) =>
      var n := PrintNumber(plus, digits);
      assert '/' !in n;
      SplitTwo(PrintSpan(s), '/', n);
  }

  /** Every piece written in the notation is read back as what it means, or refused when it means nothing. */
  lemma ParsePrinted(p: Piece, r: Bounds)
    requires WellWritten(p) && NamesAreWords(r)
    ensures ParseRange(Print(p), r) == Meaning(p, r)
  {
    if p.Plain? { ParsePlain(p, r); } else { ParseStepped(p, r); }
  }

  lemma ParsePlain(p: Piece, r: Bounds)
    requires WellWritten(p) && NamesAreWords(r) && p.Plain?
    ensures ParseRange(Print(p), r) == Meaning(p, r)
  {
    ParsePrintedSpan(p.span, r);
    SplitPrinted(p);
    assert ParseSpan(Split(Split(Print(p), '/')[0], '-'), r) == SpanOf(p.span, r);
  }

  lemma ParseStepped(p: Piece, r: Bounds)
    requires WellWritten(p) && NamesAreWords(r) && p.Stepped?
    ensures ParseRange(Print(p), r) == Meaning(p, r)
  {
    ParsePrintedSpan(p.span, r);
    SplitPrinted(p);
    assert ParseSpan(Split(Split(Print(p), '/')[0], '-'), r) == SpanOf(p.span, r);
    ParseNumber(p.plus, p.digits);
  }

  // ---------------------------------------------------------------- what is read was written

  lemma ReadNumber(s: string) returns (plus: bool, digits: string)
    requires MustParseInt(s).Some? && (MustParseInt(s).value > 0 || '-' !in s)
    ensures IsNumeral(digits) && PrintNumber(plus, digits) == s
  {
    plus := s[0] == '+';
    digits := if plus then s[1..] else s;
    assert PrintNumber(plus, digits) == s;
  }

  lemma ReadValue(s: string, r: Bounds) returns (v: Value)
    requires NamesAreWords(r) && '-' !in s && ParseIntOrName(s, r.names).Some?
    ensures WellWrittenValue(v) && PrintValue(v) == s
  {
    var l := ToLower(s);
    if l in r.names {
      v := Name(s);
      forall i | 0 <= i < |s| ensures IsLetter(s[i]) { assert IsLetter(l[i]); }
    } else {
      var plus, digits := ReadNumber(s);
      v := Number(plus, digits);
    }
  }

  lemma ReadWild(text: string) returns (s: Span)
    requires '/' !in text && Split(text, '-')[0] in {"*", "?"}
    ensures WellWrittenSpan(s) && s.Wild? && PrintSpan(s) == text
  {
    var parts := Split(text, '-');
    JoinSplit(text, '-');
    var mark := parts[0];
    assert text[..1] == mark;
    s := Wild(mark == "?", text[1..]);
    assert |parts| > 1 ==> text == mark + ['-'] + Join(parts[1..], '-') && text[1] == '-';
    assert text == mark + text[1..];
  }

  lemma ReadSpan(text: string, r: Bounds) returns (s: Span)
    requires NamesAreWords(r) && '/' !in text && ParseSpan(Split(text, '-'), r).Some?
    ensures WellWrittenSpan(s) && PrintSpan(s) == text
  {
    var parts := Split(text, '-');
    JoinSplit(text, '-');
    if parts[0] in {"*", "?"} {
      s := ReadWild(text);
    } else {
      var low := ReadValue(parts[0], r);
      if |parts| == 1 {
        s := Single(low);
      } else {
        var high := ReadValue(parts[1], r);
        assert parts[1..] == [parts[1]];
        s := Between(low, high);
      }
    }
  }

  lemma ReadPiece(text: string, r: Bounds) returns (p: Piece)
    requires NamesAreWords(r) && ParseRange(text, r).Some?
    ensures WellWritten(p) && Print(p) == text
  {
    var parts := Split(text, '/');
    JoinSplit(text, '/');
    var span := ReadSpan(parts[0], r);
    if |parts| == 1 {
      p := Plain(span);
    } else {
      var plus, digits := ReadNumber(parts[1]);
      assert parts[1..] == [parts[1]];
      p := Stepped(span, plus, digits);
    }
  }

  /** The parser accepts a text exactly when it is a piece of the notation that means something, and then reads that
      meaning. */
  lemma ParseRangeIff(text: string, r: Bounds, x: Range)
    requires NamesAreWords(r)
    ensures ParseRange(text, r) == Some(x)
            <==> exists p :: WellWritten(p) && Print(p) == text && Meaning(p, r) == Some(x)
  {
    if ParseRange(text, r) == Some(x) {
      var p := ReadPiece(text, r);
      ParsePrinted(p, r);
    }
    forall p | WellWritten(p) && Print(p) == text ensures ParseRange(text, r) == Meaning(p, r) { ParsePrinted(p, r); }
  }

  // ---------------------------------------------------------------- fields

  ghost predicate AllWellWritten(ps: seq<Piece>) {
    forall k :: 0 <= k < |ps| ==> WellWritten(ps[k])
  }

  /** The pieces of the field text are these. */
  ghost predicate Writes(field: string, ps: seq<Piece>) {
    && AllWellWritten(ps)
    && |Pieces(field)| == |ps| && forall k :: 0 <= k < |ps| ==> Pieces(field)[k] == Print(ps[k])
  }

  /** Every piece means something within the bounds. */
  ghost predicate Meaningful(ps: seq<Piece>, r: Bounds)
    requires AllWellWritten(ps)
  {
    forall k {:trigger Meaning(ps[k], r)} :: 0 <= k < |ps| ==> Meaning(ps[k], r).Some?
  }

  /** Some piece stands for the value. */
  ghost predicate NamesValue(ps: seq<Piece>, r: Bounds, v: int)
    requires AllWellWritten(ps)
  {
    exists k :: 0 <= k < |ps| && Meaning(ps[k], r).Some? && InRange(Meaning(ps[k], r).value, v)
  }

  ghost predicate HasStar(ps: seq<Piece>)
    requires AllWellWritten(ps)
  {
    exists k :: 0 <= k < |ps| && IsStar(ps[k])
  }

  /** An accepted field is written in the notation. */
  lemma {:induction false} ReadPieces(texts: seq<string>, r: Bounds) returns (ps: seq<Piece>)
    requires NamesAreWords(r) && AllParse(texts, r)
    ensures AllWellWritten(ps) && |ps| == |texts| && forall k :: 0 <= k < |ps| ==> texts[k] == Print(ps[k])
  {
    ps := [];
    if texts != [] {
      assert Parses(texts[0], r);
      forall k | 0 <= k < |texts[1..]| ensures Parses(texts[1..][k], r) { assert Parses(texts[k + 1], r); }
      var p := ReadPiece(texts[0], r);
      var rest := ReadPieces(texts[1..], r);
      ps := [p] + rest;
    }
  }

  lemma PieceMeaning(p: Piece, r: Bounds, v: int)
    requires WellWritten(p) && NamesAreWords(r) && ProperBounds(r)
    ensures Parses(Print(p), r) <==> Meaning(p, r).Some?
    ensures v != STAR ==> (PieceHas(Print(p), r, v) <==> Meaning(p, r).Some? && InRange(Meaning(p, r).value, v))
    ensures PieceHas(Print(p), r, STAR) <==> Meaning(p, r).Some? && IsStar(p)
  {
    ParsePrinted(p, r);
  }

  /** What the parser makes of a field written with these pieces: accepted exactly when they all mean something, the
      values of all of them, and the star exactly for a wildcard with no step above one. */
  lemma FieldMeaning(field: string, ps: seq<Piece>, r: Bounds, v: int)
    requires Writes(field, ps) && NamesAreWords(r) && ProperBounds(r)
    ensures AllParse(Pieces(field), r) <==> Meaningful(ps, r)
    ensures v != STAR ==> (SomePieceHas(Pieces(field), r, v) <==> NamesValue(ps, r, v))
    ensures Meaningful(ps, r) ==> (SomePieceHas(Pieces(field), r, STAR) <==> HasStar(ps))
  {
    var texts := Pieces(field);
    forall k | 0 <= k < |ps|
      ensures Parses(texts[k], r) <==> Meaning(ps[k], r).Some?
      ensures v != STAR ==>
        (PieceHas(texts[k], r, v) <==> Meaning(ps[k], r).Some? && InRange(Meaning(ps[k], r).value, v))
      ensures PieceHas(texts[k], r, STAR) <==> Meaning(ps[k], r).Some? && IsStar(ps[k])
    {
      PieceMeaning(ps[k], r, v);
    }
    if Meaningful(ps, r) && HasStar(ps) {
      var k :| 0 <= k < |ps| && IsStar(ps[k]);
      assert PieceHas(texts[k], r, STAR);
    }
  }

  // ---------------------------------------------------------------- writing a field

  function PrintAll(ps: seq<Piece>): (r: seq<string>)
    ensures |r| == |ps| && forall i :: 0 <= i < |ps| ==> r[i] == Print(ps[i])
  {
    seq(|ps|, i requires 0 <= i < |ps| => Print(ps[i]))
  }

  lemma {:induction false} NonEmptyKeepsAll(s: seq<string>)
    requires forall i :: 0 <= i < |s| ==> s[i] != ""
    ensures NonEmpty(s) == s
  {
    if s != [] { NonEmptyKeepsAll(s[1..]); }
  }

  lemma PrintIsNotEmpty(p: Piece)
    requires WellWritten(p)
    ensures Print(p) != ""
  {
  }

  /** A field written as a comma list is cut into exactly the pieces it was made of. Only the ignored text after a
      wildcard could contain a comma. */
  lemma PrintedFieldPieces(ps: seq<Piece>)
    requires AllWellWritten(ps) && forall k :: 0 <= k < |ps| ==> ',' !in Print(ps[k])
    ensures Writes(Join(PrintAll(ps), ','), ps)
  {
    if ps == [] {
      assert Split("", ',') == [""] && NonEmpty([""][1..]) == [];
    } else {
      forall i | 0 <= i < |ps| ensures PrintAll(ps)[i] != "" { PrintIsNotEmpty(ps[i]); }
      SplitJoined(PrintAll(ps), ',');
      NonEmptyKeepsAll(PrintAll(ps));
    }
  }

  // ---------------------------------------------------------------- simple fields

  function Exactly(digits: string): seq<Piece> {
    [Plain(Single(Number(false, digits)))]
  }

  /** A star alone. */
  const ANY: seq<Piece> := [Plain(Wild(false, ""))]

  function Named(word: string): seq<Piece> {
    [Plain(Single(Name(word)))]
  }

  lemma TwoDigits()
    ensures DigitsValue("0") == 0 && DigitsValue("2") == 2 && DigitsValue("29") == 29
  {
    assert "0"[..0] == "" && "2"[..0] == "" && "29"[..1] == "2";
  }

  lemma ExactlyNames(digits: string, r: Bounds, v: int)
    requires IsNumeral(digits) && r.min <= DigitsValue(digits) <= r.max <= 62
    ensures AllWellWritten(Exactly(digits)) && Meaningful(Exactly(digits), r)
    ensures NamesValue(Exactly(digits), r, v) <==> v == DigitsValue(digits)
    ensures !HasStar(Exactly(digits))
  {
    var p := Exactly(digits)[0];
    assert WellWritten(p) && Meaning(p, r).Some?;
  }

  lemma AnyNames(r: Bounds, v: int)
    requires ProperBounds(r)
    ensures AllWellWritten(ANY) && Meaningful(ANY, r) && HasStar(ANY)
    ensures NamesValue(ANY, r, v) <==> r.min <= v <= r.max
  {
    assert WellWritten(ANY[0]) && Meaning(ANY[0], r).Some? && IsStar(ANY[0]);
    if r.min <= v <= r.max {
      EveryOnGridByOne(r.min, v);
      assert InRange(Meaning(ANY[0], r).value, v);
    }
  }

  lemma NameNames(word: string, r: Bounds, v: int)
    requires IsWord(word) && ProperBounds(r) && ToLower(word) in r.names && r.min <= r.names[ToLower(word)] <= r.max
    ensures AllWellWritten(Named(word)) && Meaningful(Named(word), r) && !HasStar(Named(word))
    ensures NamesValue(Named(word), r, v) <==> v == r.names[ToLower(word)]
  {
    var p := Named(word)[0];
    assert WellWritten(p) && Meaning(p, r).Some?;
  }
}
