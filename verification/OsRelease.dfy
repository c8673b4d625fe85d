/** The machine name: a line scan of /etc/os-release and the quotes around its value. */
module OsRelease {
  import opened Bytes
  import opened Ipmi

  const NEWLINE: byte := 10
  const QUOTE: byte := 34
  const NPOS: uint64 := TWO_64 - 1

  /** A text's size is a size_t other than npos. */
  predicate Sized(t: Text) { |t| < NPOS }

  /** A file being read: its octets, then end of file or, if broken, a read error. */
  datatype Stream = Stream(bytes: Text, broken: bool)

  lemma Characters()
    ensures NEWLINE == '\n' as int && QUOTE == '\"' as int
  {
  }

  // ---------------------------------------------------------------------
  // Quotes
  // ---------------------------------------------------------------------

  /** a - b on size_t. */
  function Sub(a: uint64, b: uint64): uint64 { (a - b) % TWO_64 }

  function Min(a: uint64, b: uint64): uint64 { if a <= b then a else b }

  /** Octets at the start of t that are all c. */
  function RunOf(t: Text, c: byte): (n: nat)
    ensures n <= |t|
    ensures forall i :: 0 <= i < n ==> t[i] == c
    ensures n < |t| ==> t[n] != c
  {
    if t == [] || t[0] != c then 0 else 1 + RunOf(t[1..], c)
  }

  function FindFirstNotOf(t: Text, c: byte): uint64
    requires Sized(t)
  {
    if RunOf(t, c) == |t| then NPOS else RunOf(t, c)
  }

  function FindLastNotOf(t: Text, c: byte): uint64
    requires Sized(t)
  {
    var n := RunOf(Reverse(t), c);
    if n == |t| then NPOS else |t| - 1 - n
  }

  function Quotes(n: nat): (q: Text)
    ensures |q| == n
    ensures forall i :: 0 <= i < n ==> q[i] == QUOTE
  {
    seq(n, _ => QUOTE)
  }

  /** r is value without the quotes around it. */
  ghost predicate Unquoted(value: Text, r: Text) {
    && (exists i: nat, j: nat :: value == Quotes(i) + r + Quotes(j))
    && (r != [] ==> r[0] != QUOTE && r[|r| - 1] != QUOTE)
  }

  /** What is left between the quotes at the start and those at the end. */
  function Stripped(value: Text): Text {
    var i := RunOf(value, QUOTE);
    if i == |value| then [] else
      LastRunIsShort(value);
      value[i..|value| - RunOf(Reverse(value), QUOTE)]
  }

  lemma LastRunIsShort(value: Text)
    requires RunOf(value, QUOTE) < |value|
    ensures RunOf(value, QUOTE) < |value| - RunOf(Reverse(value), QUOTE)
  {
    var i := RunOf(value, QUOTE);
    assert Reverse(value)[|value| - 1 - i] == value[i] != QUOTE;
  }

  lemma {:induction false} RunOfIs(t: Text, c: byte, n: nat)
    requires n <= |t| && (forall i :: 0 <= i < n ==> t[i] == c) && (n < |t| ==> t[n] != c)
    ensures RunOf(t, c) == n
  {
    if n > 0 {
      RunOfIs(t[1..], c, n - 1);
    }
  }

  lemma QuotesBefore(i: nat, r: Text, more: Text)
    requires r != [] && r[0] != QUOTE
    ensures RunOf(Quotes(i) + r + more, QUOTE) == i
  {
    var value := Quotes(i) + r + more;
    assert value[i] == r[0];
    assert forall k :: 0 <= k < i ==> value[k] == Quotes(i)[k];
    RunOfIs(value, QUOTE, i);
  }

  lemma ReverseOfParts(a: Text, b: Text, c: Text)
    ensures Reverse(a + b + c) == Reverse(c) + Reverse(b) + Reverse(a)
  {
  }

  /** A text of quotes on both sides of r has just those runs of them. */
  lemma QuotesAround(i: nat, r: Text, j: nat)
    requires r != [] && r[0] != QUOTE && r[|r| - 1] != QUOTE
    ensures RunOf(Quotes(i) + r + Quotes(j), QUOTE) == i
    ensures RunOf(Reverse(Quotes(i) + r + Quotes(j)), QUOTE) == j
  {
    QuotesBefore(i, r, Quotes(j));
    ReverseOfParts(Quotes(i), r, Quotes(j));
    assert Reverse(Quotes(j)) == Quotes(j);
    QuotesBefore(j, Reverse(r), Reverse(Quotes(i)));
  }

  lemma OnlyQuotes(i: nat, j: nat)
    ensures Stripped(Quotes(i) + [] + Quotes(j)) == []
  {
    RunOfIs(Quotes(i) + [] + Quotes(j), QUOTE, i + j);
  }

  /** Stripping takes off all the quotes at both ends, and nothing else could be said to. */
  lemma StrippedIsTheUnquotedValue(value: Text, r: Text)
    ensures Unquoted(value, r) <==> r == Stripped(value)
  {
    StrippedIsUnquoted(value);
    if Unquoted(value, r) {
      var i: nat, j: nat :| value == Quotes(i) + r + Quotes(j);
      if r == [] {
        OnlyQuotes(i, j);
      } else {
        QuotesAround(i, r, j);
        assert value[i..|value| - j] == r;
      }
    }
  }

  lemma UnquotedBetween(value: Text, i: nat, m: nat)
    requires i < m <= |value| && value[i] != QUOTE && value[m - 1] != QUOTE
    requires forall k :: 0 <= k < i || m <= k < |value| ==> value[k] == QUOTE
    ensures Unquoted(value, value[i..m])
  {
    assert value == Quotes(i) + value[i..m] + Quotes(|value| - m);
  }

  lemma StrippedIsUnquoted(value: Text)
    ensures Unquoted(value, Stripped(value))
  {
    var i := RunOf(value, QUOTE);
    if i == |value| {
      assert value == Quotes(i) + [] + Quotes(0);
    } else {
      LastRunIsShort(value);
      var back := Reverse(value);
      var m := |value| - RunOf(back, QUOTE);
      assert forall k :: 0 <= k < |value| ==> value[k] == back[|value| - 1 - k];
      UnquotedBetween(value, i, m);
    }
  }

  /** The wrapping subtractions come to the number of quotes at the end, and to 0 for an empty view. */
  lemma WrappedSuffix(view: Text)
    requires Sized(view)
    requires view != [] ==> view[0] != QUOTE
    ensures var size: uint64 := |view|;
            Sub(Sub(size, 1), Min(FindLastNotOf(view, QUOTE), Sub(size, 1)))
            == (if view == [] then 0 else RunOf(Reverse(view), QUOTE)) <= size
  {
    if view != [] {
      assert Reverse(view)[|view| - 1] == view[0];
    }
  }

  lemma {:induction false} RunOfPrefix(t: Text, c: byte, n: nat)
    requires RunOf(t, c) < n <= |t|
    ensures RunOf(t[..n], c) == RunOf(t, c)
  {
    if t[0] == c {
      RunOfPrefix(t[1..], c, n - 1);
      assert t[..n][1..] == t[1..][..n - 1];
    }
  }

  lemma ReverseOfSuffix(t: Text, i: nat)
    requires i <= |t|
    ensures Reverse(t[i..]) == Reverse(t)[..|t| - i]
  {
  }

  lemma SameQuotesAtTheEnd(value: Text)
    requires RunOf(value, QUOTE) < |value|
    ensures RunOf(Reverse(value[RunOf(value, QUOTE)..]), QUOTE) == RunOf(Reverse(value), QUOTE)
  {
    LastRunIsShort(value);
    var i := RunOf(value, QUOTE);
    ReverseOfSuffix(value, i);
    RunOfPrefix(Reverse(value), QUOTE, |value| - i);
  }

  /** Both removals stay inside the view, also where the size arithmetic wraps around. */
  method StripQuotes(value: Text) returns (r: Text)
    requires Sized(value)
    ensures r == Stripped(value)
  {
    var lineView := value;
    lineView := lineView[Min(FindFirstNotOf(lineView, QUOTE), |lineView|)..];
    assert lineView == value[RunOf(value, QUOTE)..];
    if lineView != [] {
      SameQuotesAtTheEnd(value);
    }
    WrappedSuffix(lineView);
    var size: uint64 := |lineView|;
    var suffix := Sub(Sub(size, 1), Min(FindLastNotOf(lineView, QUOTE), Sub(size, 1)));
    lineView := lineView[..size - suffix];
    r := lineView;
  }

  // ---------------------------------------------------------------------
  // Lines
  // ---------------------------------------------------------------------

  /** Octets up to the first newline, or all of them. */
  function LineLength(t: Text): (n: nat)
    ensures n <= |t|
    ensures NEWLINE !in t[..n]
    ensures n < |t| ==> t[n] == NEWLINE
  {
    if t == [] || t[0] == NEWLINE then 0
    else
      var n := LineLength(t[1..]);
      assert t[..n + 1] == [t[0]] + t[1..][..n];
      n + 1
  }

  /** The newline-terminated lines of a text, without their newlines. */
  function Lines(t: Text): seq<Text>
    decreases |t|
  {
    var n := LineLength(t);
    if n == |t| then [] else [t[..n]] + Lines(t[n + 1..])
  }

  function Join(lines: seq<Text>): Text {
    if lines == [] then [] else lines[0] + [NEWLINE] + Join(lines[1..])
  }

  predicate NoNewlines(lines: seq<Text>) { forall i :: 0 <= i < |lines| ==> NEWLINE !in lines[i] }

  lemma {:induction false} LineLengthIs(t: Text, n: nat)
    requires n <= |t| && NEWLINE !in t[..n] && (n < |t| ==> t[n] == NEWLINE)
    ensures LineLength(t) == n
  {
    if n > 0 {
      assert t[0] == t[..n][0];
      assert t[1..][..n - 1] == t[..n][1..];
      LineLengthIs(t[1..], n - 1);
    }
  }

  lemma JoinCons(line: Text, lines: seq<Text>)
    ensures Join([line] + lines) == line + [NEWLINE] + Join(lines)
  {
    assert ([line] + lines)[1..] == lines;
  }

  lemma JoinRest(line: Text, joined: Text, rest: Text)
    ensures var t := (line + [NEWLINE] + joined) + rest;
            t[..|line|] == line && t[|line|] == NEWLINE && t[|line| + 1..] == joined + rest
  {
  }

  /** Joined lines, with an unterminated rest after them, are taken apart again. */
  lemma {:induction false} LinesOfJoin(lines: seq<Text>, rest: Text)
    requires NoNewlines(lines) && NEWLINE !in rest
    ensures Lines(Join(lines) + rest) == lines
  {
    if lines == [] {
      assert Join(lines) + rest == rest;
      assert rest[..|rest|] == rest;
      LineLengthIs(rest, |rest|);
    } else {
      var line, more := lines[0], lines[1..];
      LinesOfJoin(more, rest);
      JoinRest(line, Join(more), rest);
      LineLengthIs(Join(lines) + rest, |line|);
      assert lines == [line] + more;
    }
  }

  /** What stands after the last newline. */
  function Unterminated(t: Text): (rest: Text)
    ensures NEWLINE !in rest
    decreases |t|
  {
    var n := LineLength(t);
    if n == |t| then (assert t[..n] == t; t) else Unterminated(t[n + 1..])
  }

  lemma {:induction false} TextIsJoined(t: Text)
    ensures t == Join(Lines(t)) + Unterminated(t) && NoNewlines(Lines(t))
    decreases |t|
  {
    var n := LineLength(t);
    if n < |t| {
      var line, more := t[..n], t[n + 1..];
      TextIsJoined(more);
      JoinCons(line, Lines(more));
      JoinedText(t, n, Join(Lines(more)), Unterminated(more));
    } else {
      assert Join(Lines(t)) + t == t;
    }
  }

  lemma JoinedText(t: Text, n: nat, joined: Text, rest: Text)
    requires n < |t| && t[n] == NEWLINE && t[n + 1..] == joined + rest
    ensures t == t[..n] + [NEWLINE] + joined + rest
  {
    assert t == t[..n] + [t[n]] + t[n + 1..];
    assert t[..n] + [NEWLINE] + joined + rest == t[..n] + [NEWLINE] + (joined + rest);
  }

  /** The lines and the rest are the only way to cut a text at its newlines. */
  lemma LinesAreTheText(t: Text, lines: seq<Text>, rest: Text)
    ensures t == Join(lines) + rest && NoNewlines(lines) && NEWLINE !in rest <==>
            lines == Lines(t) && rest == Unterminated(t)
  {
    TextIsJoined(t);
    if t == Join(lines) + rest && NoNewlines(lines) && NEWLINE !in rest {
      LinesOfJoin(lines, rest);
      assert rest == t[|Join(lines)|..] == Unterminated(t);
    }
  }

  /** Line i starts with the prefix and no earlier one does. */
  predicate FirstWith(prefix: Text, lines: seq<Text>, i: nat) {
    && i < |lines| && prefix <= lines[i]
    && forall j :: 0 <= j < i ==> !(prefix <= lines[j])
  }

  /** The first line that starts with the prefix. */
  function FirstNamed(prefix: Text, lines: seq<Text>): (r: Option<Text>)
    ensures r.Some? ==> prefix <= r.value
  {
    if lines == [] then None
    else if prefix <= lines[0] then Some(lines[0])
    else FirstNamed(prefix, lines[1..])
  }

  lemma {:induction false} FirstNamedIsFirst(prefix: Text, lines: seq<Text>, line: Text)
    ensures FirstNamed(prefix, lines) == Some(line) <==>
            exists i: nat :: FirstWith(prefix, lines, i) && lines[i] == line
  {
    if lines != [] && prefix <= lines[0] {
      assert FirstWith(prefix, lines, 0);
      assert forall i: nat :: FirstWith(prefix, lines, i) ==> i == 0;
    } else if lines != [] {
      var rest := lines[1..];
      FirstNamedIsFirst(prefix, rest, line);
      forall i: nat | FirstWith(prefix, rest, i) ensures FirstWith(prefix, lines, i + 1) {
        assert forall j :: 0 < j < i + 1 ==> lines[j] == rest[j - 1];
      }
      forall i: nat | FirstWith(prefix, lines, i) ensures i > 0 && FirstWith(prefix, rest, i - 1) {
        assert forall j :: 0 <= j < i - 1 ==> rest[j] == lines[j + 1];
      }
    }
  }

  /** What the scan of an open file comes to. */
  function ScanResult(found: Option<Text>, size: nat, broken: bool): Answer<Text>
    requires found.Some? ==> size <= |found.value|
  {
    match found
    case Some(line) => Value(Stripped(line[size..]))
    case None => Raised(if broken then UnspecifiedError else InvalidCommand)
  }

  /** The value on the first named line; a stream without one ends the search. */
  function NameOnFile(key: Text, file: Option<Stream>): Answer<Text> {
    match file
    case None => Raised(UnspecifiedError)
    case Some(s) =>
      ScanResult(FirstNamed(key, Lines(s.bytes)), |key|, s.broken)
  }

  /** Lines and a rest that, joined by newlines, are the text. */
  predicate CutsAtNewlines(t: Text, lines: seq<Text>, rest: Text) {
    t == Join(lines) + rest && NoNewlines(lines) && NEWLINE !in rest
  }

  /** The answer is what stands between the quotes of the value on the first line with the key. */
  ghost predicate AnswersFirst(key: Text, lines: seq<Text>, a: Answer<Text>) {
    exists i: nat, value: Text ::
      FirstWith(key, lines, i) && lines[i] == key + value && a.Value? && Unquoted(value, a.value)
  }

  lemma FirstNamedExists(prefix: Text, lines: seq<Text>)
    ensures FirstNamed(prefix, lines).None? <==> forall i :: 0 <= i < |lines| ==> !(prefix <= lines[i])
  {
    if lines != [] {
      FirstNamedExists(prefix, lines[1..]);
      assert forall i :: 0 < i < |lines| ==> lines[i] == lines[1..][i - 1];
    }
  }

  lemma NamedLineAnswers(key: Text, lines: seq<Text>, i: nat, value: Text, a: Answer<Text>, broken: bool)
    requires FirstWith(key, lines, i) && lines[i] == key + value
    ensures ScanResult(FirstNamed(key, lines), |key|, broken) == a <==> a.Value? && Unquoted(value, a.value)
  {
    FirstNamedIsFirst(key, lines, lines[i]);
    assert lines[i][|key|..] == value;
    if a.Value? {
      StrippedIsTheUnquotedValue(value, a.value);
    }
  }

  lemma FirstIsOne(prefix: Text, lines: seq<Text>, i: nat, j: nat)
    requires FirstWith(prefix, lines, i) && FirstWith(prefix, lines, j)
    ensures i == j
  {
  }

  /**
   The machine name in terms of the file alone: the unquoted value on the first
   terminated line with the key; without such a line an error that tells a read
   failure from the end of the file, as it does a file that cannot be opened.
   */
  lemma MachineNameExactly(key: Text, s: Stream, lines: seq<Text>, rest: Text, a: Answer<Text>)
    requires CutsAtNewlines(s.bytes, lines, rest)
    ensures NameOnFile(key, None) == Raised(UnspecifiedError)
    ensures NameOnFile(key, Some(s)) == a <==>
            if exists i :: 0 <= i < |lines| && key <= lines[i] then AnswersFirst(key, lines, a)
            else a == Raised(if s.broken then UnspecifiedError else InvalidCommand)
  {
    LinesAreTheText(s.bytes, lines, rest);
    FirstNamedExists(key, lines);
    var line := FirstNamed(key, lines);
    if line.Some? {
      FirstNamedIsFirst(key, lines, line.value);
      var i: nat :| FirstWith(key, lines, i) && lines[i] == line.value;
      var value := lines[i][|key|..];
      assert lines[i] == key + value;
      NamedLineAnswers(key, lines, i, value, a, s.broken);
      if AnswersFirst(key, lines, a) {
        var j: nat, value' :| FirstWith(key, lines, j) && lines[j] == key + value' && a.Value?
                              && Unquoted(value', a.value);
        FirstIsOne(key, lines, i, j);
        assert value' == (key + value')[|key|..] == value;
      }
    }
  }

  /** std::getline: the next line of what is left to read, or nothing once the stream gives out. */
  function GetLine(rest: Text): (line: Option<Text>)
    ensures line.Some? ==> |line.value| < |rest|
  {
    var n := LineLength(rest);
    if n == |rest| then None else Some(rest[..n])
  }

  lemma FirstNamedCons(prefix: Text, line: Text, lines: seq<Text>)
    ensures FirstNamed(prefix, [line] + lines) == if prefix <= line then Some(line) else FirstNamed(prefix, lines)
  {
    assert ([line] + lines)[1..] == lines;
  }

  lemma LinesStep(t: Text)
    ensures Lines(t) == match GetLine(t) case None => [] case Some(line) => [line] + Lines(t[|line| + 1..])
  {
  }

  lemma FirstNamedStep(prefix: Text, rest: Text)
    ensures GetLine(rest).None? ==> FirstNamed(prefix, Lines(rest)) == None
    ensures GetLine(rest).Some? ==>
            var line := GetLine(rest).value;
            FirstNamed(prefix, Lines(rest)) ==
            if prefix <= line then Some(line) else FirstNamed(prefix, Lines(rest[|line| + 1..]))
  {
    LinesStep(rest);
    var got := GetLine(rest);
    if got.Some? {
      FirstNamedCons(prefix, got.value, Lines(rest[|got.value| + 1..]));
    }
  }

  /** substr(0, prefix.size()) == prefix */
  predicate StartsWith(line: Text, prefix: Text)
    ensures StartsWith(line, prefix) <==> prefix <= line
  {
    line[..if |prefix| <= |line| then |prefix| else |line|] == prefix
  }

  /** The value on a line with the key, without its quotes. */
  method ValueOn(line: Text, prefix: Text, ghost broken: bool) returns (r: Answer<Text>)
    requires prefix <= line && Sized(line)
    ensures r == ScanResult(Some(line), |prefix|, broken)
  {
    var lineView := line[|prefix|..];
    var name := StripQuotes(lineView);
    r := Value(name);
  }

  /** The loop over the lines of a file that could be opened. */
  method Scan(prefix: Text, ifs: Stream) returns (r: Answer<Text>)
    requires Sized(prefix) && Sized(ifs.bytes)
    ensures r == ScanResult(FirstNamed(prefix, Lines(ifs.bytes)), |prefix|, ifs.broken)
  {
    var rest := ifs.bytes;
    ghost var wanted := FirstNamed(prefix, Lines(ifs.bytes));
    while true
      invariant |rest| <= |ifs.bytes|
      invariant wanted == FirstNamed(prefix, Lines(rest))
      decreases |rest|
    {
      FirstNamedStep(prefix, rest);
      var got := GetLine(rest);
      if got.None? && !ifs.broken {
        return Raised(InvalidCommand);
      }
      if got.None? {
        return Raised(UnspecifiedError);
      }
      var line := got.value;
      rest := rest[|line| + 1..];
      if !StartsWith(line, prefix) {
        continue;
      }
      r := ValueOn(line, prefix, ifs.broken);
      return;
    }
  }

  /** Handler::getMachineName. */
  method GetMachineName(key: Text, file: Option<Stream>) returns (r: Answer<Text>)
    requires Sized(key) && (file.Some? ==> Sized(file.value.bytes))
    ensures r == NameOnFile(key, file)
  {
    if file.None? {
      return Raised(UnspecifiedError);
    }
    r := Scan(key, file.value);
  }

  lemma {:induction false} TerminatedLeavesNothing(t: Text)
    requires t == [] || t[|t| - 1] == NEWLINE
    ensures Unterminated(t) == []
    decreases |t|
  {
    if t != [] {
      var n := LineLength(t);
      assert NEWLINE in t && t[..|t|] == t;
      TerminatedLeavesNothing(t[n + 1..]);
    }
  }

  /** What stands on a last line without a newline makes no difference. */
  lemma UnterminatedLineIsIgnored(key: Text, t: Text, last: Text, broken: bool)
    requires NEWLINE !in last && (t == [] || t[|t| - 1] == NEWLINE)
    ensures NameOnFile(key, Some(Stream(t + last, broken))) == NameOnFile(key, Some(Stream(t, broken)))
  {
    TextIsJoined(t);
    TerminatedLeavesNothing(t);
    assert t == Join(Lines(t));
    LinesOfJoin(Lines(t), last);
  }
}
