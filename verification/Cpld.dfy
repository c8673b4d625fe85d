/** The CPLD version file: up to four dotted numbers, scanned into one octet each. */
module Cpld {
  import opened Bytes
  import opened Ipmi
  import opened PcieMap

  datatype VersionFile = NoFile | Unreadable | Contents(bytes: Text)

  const PLUS: byte := 43
  const MINUS: byte := 45
  const DOT: byte := 46

  lemma Characters()
    ensures PLUS == '+' as int && MINUS == '-' as int && DOT == '.' as int
  {
  }

  predicate Signed(f: Text) { f != [] && (f[0] == PLUS || f[0] == MINUS) }

  function Unsigned(f: Text): Text { if Signed(f) then f[1..] else f }

  /** A decimal number, perhaps with a sign. */
  predicate IsNumeral(f: Text) { Unsigned(f) != [] && AllDigits(Unsigned(f)) }

  function Worth(f: Text): int
    requires IsNumeral(f)
  {
    if f[0] == MINUS then 0 - DecimalValue(Unsigned(f)) else DecimalValue(Unsigned(f))
  }

  /** The number written fits an uint8_t; the conversion of any other has no meaning. */
  predicate Fits(f: Text) { IsNumeral(f) && 0 <= Worth(f) < 256 }

  /** The longest number that t starts with, if it starts with one. */
  function Numeral(t: Text): (f: Text)
    ensures f <= t
  {
    if !Signed(t) then DigitRun(t)
    else
      var digits := DigitRun(t[1..]);
      if digits == [] then [] else [t[0]] + digits
  }

  /** How a text is taken apart: numbers with dots after them, and what is left where the scan stops. */
  datatype Scan =
    | Stopped(rest: Text)                // no number, or none wanted
    | Last(number: Text, rest: Text)     // a number without a dot after it
    | Dotted(number: Text, more: Scan)

  function TextOf(s: Scan): Text {
    match s
    case Stopped(rest) => rest
    case Last(f, rest) => f + rest
    case Dotted(f, more) => f + ([DOT] + TextOf(more))
  }

  /** The conversions and dots of a format for n numbers, matched in turn. */
  function ScanOf(t: Text, n: nat): Scan {
    var f := Numeral(t);
    if n == 0 || f == [] then Stopped(t)
    else if |f| < |t| && t[|f|] == DOT then Dotted(f, ScanOf(t[|f| + 1..], n - 1))
    else Last(f, t[|f|..])
  }

  predicate AllFit(s: Scan) {
    match s
    case Stopped(_) => true
    case Last(f, _) => Fits(f)
    case Dotted(f, more) => Fits(f) && AllFit(more)
  }

  /** The octets the numbers are converted to; those of numbers that are missing stay 0. */
  function Converted(s: Scan, n: nat): (octets: seq<byte>)
    requires AllFit(s)
    ensures |octets| == n
  {
    if n == 0 then []
    else match s
      case Stopped(_) => Zeros(n)
      case Last(f, _) => [Worth(f)] + Zeros(n - 1)
      case Dotted(f, more) => [Worth(f)] + Converted(more, n - 1)
  }

  const NUMBERS: nat := 4

  /** sscanf of a C string and the check of its result, which an empty string passes. */
  function Scanned(t: Text): (r: Execution<seq<byte>>)
    ensures r.Ends? && r.answer.Value? ==> |r.answer.value| == NUMBERS
  {
    var s := ScanOf(t, NUMBERS);
    if !AllFit(s) then Meaningless
    else if s.Stopped? && t != [] then Ends(Raised(UnspecifiedError))
    else Ends(Value(Converted(s, NUMBERS)))
  }

  /** What is scanned of a file: its first word, up to the first NUL. */
  function VersionText(contents: Text): Text { CStr(Token(contents)) }

  /** Handler::getCpldVersion. */
  function GetCpldVersion(file: VersionFile): (r: Execution<seq<byte>>)
    ensures r.Ends? && r.answer.Value? ==> |r.answer.value| == NUMBERS
  {
    match file
    case NoFile => Ends(Raised(InvalidFieldRequest))
    case Unreadable => Ends(Raised(UnspecifiedError))
    case Contents(t) => if Token(t) == [] then Ends(Raised(UnspecifiedError)) else Scanned(VersionText(t))
  }

  // ---------------------------------------------------------------------
  // What the scan amounts to
  // ---------------------------------------------------------------------

  predicate NoDigitFirst(t: Text) { t != [] ==> !IsDigit(t[0]) }

  /**
   A way to read a text: at most n numbers, each as long as it can be, a dot after
   one read as such, and no more of them to be had where the reading stops.
   */
  predicate IsReading(s: Scan, n: nat) {
    match s
    case Stopped(rest) => n == 0 || NoDigitFirst(Unsigned(rest))
    case Last(f, rest) => n > 0 && IsNumeral(f) && NoDigitFirst(rest) && (rest != [] ==> rest[0] != DOT)
    case Dotted(f, more) => n > 0 && IsNumeral(f) && IsReading(more, n - 1)
  }

  lemma NumeralOf(f: Text, after: Text)
    requires IsNumeral(f) && NoDigitFirst(after)
    ensures Numeral(f + after) == f
  {
    DigitRunIsMaximal(Unsigned(f), after);
    assert Unsigned(f + after) == Unsigned(f) + after;
  }

  lemma NoNumeral(t: Text)
    ensures NoDigitFirst(Unsigned(t)) <==> Numeral(t) == []
  {
  }

  lemma NumeralEnds(t: Text)
    requires Numeral(t) != []
    ensures IsNumeral(Numeral(t)) && NoDigitFirst(t[|Numeral(t)|..])
  {
  }

  lemma ScanOfLast(f: Text, rest: Text, n: nat)
    requires n > 0 && IsNumeral(f) && NoDigitFirst(rest) && (rest != [] ==> rest[0] != DOT)
    ensures ScanOf(f + rest, n) == Last(f, rest)
  {
    NumeralOf(f, rest);
  }

  lemma ScanOfDotted(f: Text, tail: Text, n: nat)
    requires n > 0 && IsNumeral(f)
    ensures ScanOf(f + ([DOT] + tail), n) == Dotted(f, ScanOf(tail, n - 1))
  {
    NumeralOf(f, [DOT] + tail);
    var t := f + ([DOT] + tail);
    assert t[|f|] == DOT && t[|f| + 1..] == tail;
  }

  lemma {:induction false} ReadingIsScanned(s: Scan, n: nat)
    requires IsReading(s, n)
    ensures ScanOf(TextOf(s), n) == s
    decreases s
  {
    match s
    case Stopped(rest) => NoNumeral(rest);
    case Last(f, rest) => ScanOfLast(f, rest, n);
    case Dotted(f, more) =>
      ReadingIsScanned(more, n - 1);
      ScanOfDotted(f, TextOf(more), n);
  }

  /** A text in front of its number, or in front of its number and a dot. */
  lemma SplitNumeral(t: Text) returns (f: Text, rest: Text)
    requires !NoDigitFirst(Unsigned(t))
    ensures t == f + rest && IsNumeral(f) && NoDigitFirst(rest)
    ensures rest != [] && rest[0] == DOT ==> t == f + ([DOT] + rest[1..])
  {
    NoNumeral(t);
    NumeralEnds(t);
    f, rest := Numeral(t), t[|Numeral(t)|..];
    assert rest != [] ==> rest == [rest[0]] + rest[1..];
  }

  lemma {:induction false} CanBeRead(t: Text, n: nat) returns (s: Scan)
    ensures IsReading(s, n) && TextOf(s) == t
    decreases n
  {
    if n == 0 || NoDigitFirst(Unsigned(t)) {
      return Stopped(t);
    }
    var f, rest := SplitNumeral(t);
    if rest != [] && rest[0] == DOT {
      var more := CanBeRead(rest[1..], n - 1);
      return Dotted(f, more);
    }
    s := Last(f, rest);
  }

  lemma ScanIsReading(t: Text, n: nat)
    ensures IsReading(ScanOf(t, n), n) && TextOf(ScanOf(t, n)) == t
  {
    var s := CanBeRead(t, n);
    ReadingIsScanned(s, n);
  }

  /** What is scanned is the only way to read the text. */
  lemma ScanIsTheReading(t: Text, n: nat, s: Scan)
    ensures s == ScanOf(t, n) <==> IsReading(s, n) && TextOf(s) == t
  {
    ScanIsReading(t, n);
    if IsReading(s, n) {
      ReadingIsScanned(s, n);
    }
  }

  /** Read as up to four dotted numbers, the text holds one that is none from 0 to 255. */
  ghost predicate WritesTooMuch(t: Text) {
    exists s :: IsReading(s, NUMBERS) && TextOf(s) == t && !AllFit(s)
  }

  lemma MeaninglessExactly(t: Text)
    ensures Scanned(t).Meaningless? <==> WritesTooMuch(t)
  {
    ScanIsReading(t, NUMBERS);
    if WritesTooMuch(t) {
      var s :| IsReading(s, NUMBERS) && TextOf(s) == t && !AllFit(s);
      ScanIsTheReading(t, NUMBERS, s);
    }
  }

  /** A file without a word has no number that is too large. */
  lemma NothingScanned(contents: Text)
    requires Token(contents) == []
    ensures !WritesTooMuch(VersionText(contents))
  {
    MeaninglessExactly([]);
  }

  lemma DecimalIsNumeral(b: byte)
    ensures IsNumeral(Decimal(b)) && Worth(Decimal(b)) == b
  {
    assert IsDigit(Decimal(b)[0]);
    DecimalRoundTrip(b);
  }

  /** A version as it is printed, with something after it. */
  function Printed(version: seq<byte>, after: Text): Scan
    requires version != []
  {
    if |version| > 1 then Dotted(Decimal(version[0]), Printed(version[1..], after))
    else if after != [] && after[0] == DOT then Dotted(Decimal(version[0]), Stopped(after[1..]))
    else Last(Decimal(version[0]), after)
  }

  /** Nothing after the last number would be read on. */
  predicate EndsThere(after: Text) { NoDigitFirst(after) && (after != [] ==> after[0] != DOT) }

  lemma {:induction false} PrintedReads(version: seq<byte>, after: Text, n: nat)
    requires 0 < |version| <= n && NoDigitFirst(after) && (|version| < n ==> EndsThere(after))
    ensures var s := Printed(version, after);
            IsReading(s, n) && AllFit(s) && Converted(s, n) == version + Zeros(n - |version|)
    decreases n
  {
    DecimalIsNumeral(version[0]);
    if |version| > 1 {
      PrintedReads(version[1..], after, n - 1);
      assert version == [version[0]] + version[1..];
    } else if |version| == n && after != [] && after[0] == DOT {
      assert version == [version[0]] + [];
    } else {
      assert version == [version[0]];
    }
  }

  /**
   Up to four octets printed with dots between them are scanned back, whatever
   comes after four of them but a digit; those that are missing become 0.
   */
  lemma VersionRoundTrip(version: seq<byte>, after: Text)
    requires 0 < |version| <= NUMBERS && NoDigitFirst(after) && (|version| < NUMBERS ==> EndsThere(after))
    ensures Scanned(TextOf(Printed(version, after))) == Ends(Value(version + Zeros(NUMBERS - |version|)))
  {
    PrintedReads(version, after, NUMBERS);
    ReadingIsScanned(Printed(version, after), NUMBERS);
  }

  /** A sign counts. */
  lemma SignedNumerals(n: nat)
    ensures IsNumeral([PLUS] + Decimal(n)) && Worth([PLUS] + Decimal(n)) == n
    ensures IsNumeral([MINUS] + Decimal(n)) && Worth([MINUS] + Decimal(n)) == -(n as int)
  {
    DecimalRoundTrip(n);
    assert ([PLUS] + Decimal(n))[1..] == Decimal(n) && ([MINUS] + Decimal(n))[1..] == Decimal(n);
  }

  /** How reading a version ends when there is none to be had. */
  lemma NoVersion(file: VersionFile)
    ensures file.NoFile? ==> GetCpldVersion(file) == Ends(Raised(InvalidFieldRequest))
    ensures file.Unreadable? ==> GetCpldVersion(file) == Ends(Raised(UnspecifiedError))
    ensures file.Contents? && Blank(file.bytes) ==> GetCpldVersion(file) == Ends(Raised(UnspecifiedError))
    ensures file.Contents? && !Blank(file.bytes) ==> GetCpldVersion(file) == Scanned(CStr(Token(file.bytes)))
  {
    if file.Contents? {
      TokenIsFirstWord(file.bytes, []);
      if FirstWord(file.bytes, []) {
        var blanks, after :| WordBetween(file.bytes, blanks, [], after);
        assert file.bytes == blanks;
      }
      if Blank(file.bytes) {
        TokenOfBlank(file.bytes);
      }
    }
  }

  /** Without a number in front there is no version, except that an empty string passes for 0.0.0.0. */
  lemma NoNumberNoVersion(t: Text)
    requires NoDigitFirst(Unsigned(t))
    ensures Scanned(t) == if t == [] then Ends(Value([0, 0, 0, 0])) else Ends(Raised(UnspecifiedError))
  {
    NoNumeral(t);
    assert Zeros(NUMBERS) == [0, 0, 0, 0];
  }
}
