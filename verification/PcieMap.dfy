/** The PCIe slot to I2C bus map, built by walking /sys/bus/i2c/devices. */
module PcieMap {
  import opened Builtins
  import opened Bytes
  import opened Ipmi
  import opened Narrowing

  /** What the walk can see: the directory entries, in order, and the files that can be opened. */
  datatype Sysfs = Sysfs(devices: Option<seq<Text>>, files: map<Text, Text>)

  /** Where the kernel keeps a device's slot and a slot's label. */
  datatype Layout = Layout(pcieSlotFile: Text, deviceTree: Text, labelFile: Text)

  datatype Slot = Slot(bus: nat, name: Text)

  // ---------------------------------------------------------------------
  // Numbers in paths
  // ---------------------------------------------------------------------

  predicate IsDigit(b: byte) { 48 <= b <= 57 }

  predicate AllDigits(t: Text) { forall i :: 0 <= i < |t| ==> IsDigit(t[i]) }

  /** The digits, the letters before a number, and the blanks of the C locale, as characters. */
  lemma Characters(b: byte)
    ensures IsDigit(b) <==> '0' <= b as char <= '9'
    ensures I2C_DASH == ['i' as int, '2' as int, 'c' as int, '-' as int]
    ensures IsSpace(b) <==> b as char in {' ', '\t', '\n', 11 as char, 12 as char, '\r'}
  {
  }

  /** "i2c-" and a digit at position p. */
  predicate MatchAt(path: Text, p: nat) {
    && p + 4 < |path|
    && path[p] == 105 && path[p + 1] == 50 && path[p + 2] == 99 && path[p + 3] == 45
    && IsDigit(path[p + 4])
  }

  /** The digits t starts with, as many as there are. */
  function DigitRun(t: Text): (d: Text)
    ensures d <= t && AllDigits(d)
    ensures |d| < |t| ==> !IsDigit(t[|d|])
  {
    if t == [] || !IsDigit(t[0]) then [] else [t[0]] + DigitRun(t[1..])
  }

  /** Leftmost match at or after p. */
  function MatchFrom(path: Text, p: nat): (m: Option<nat>)
    ensures m.Some? ==> p <= m.value && MatchAt(path, m.value)
    ensures forall q :: p <= q < (if m.Some? then m.value else |path|) ==> !MatchAt(path, q)
    decreases |path| - p
  {
    if p >= |path| then None else if MatchAt(path, p) then Some(p) else MatchFrom(path, p + 1)
  }

  /** The second group of a search for (i2c-)(\d+). */
  function SearchDigits(path: Text): (digits: Option<Text>)
    ensures digits.Some? ==> digits.value != [] && AllDigits(digits.value)
  {
    match MatchFrom(path, 0)
    case None => None
    case Some(m) => Some(DigitRun(path[m + 4..]))
  }

  function DecimalValue(digits: Text): nat
    requires AllDigits(digits)
  {
    if digits == [] then 0
    else DecimalValue(digits[..|digits| - 1]) * 10 + (digits[|digits| - 1] - 48)
  }

  /** The value of decimal digits, place by place. */
  lemma DecimalPlaces(digits: Text, d: byte)
    requires AllDigits(digits) && IsDigit(d)
    ensures AllDigits(digits + [d])
    ensures DecimalValue(digits + [d]) == 10 * DecimalValue(digits) + (d as char - '0') as int
    ensures DecimalValue([d]) == (d as char - '0') as int
  {
    assert (digits + [d])[..|digits|] == digits;
    assert [d][..0] == [];
  }

  /** std::stoi on digits. */
  function Stoi(digits: Text): Option<nat>
    requires AllDigits(digits)
  {
    if DecimalValue(digits) > INT_MAX then None else Some(DecimalValue(digits))
  }

  /** A number the way the kernel prints it into a device name. */
  function Decimal(n: nat): (digits: Text)
    ensures digits != [] && AllDigits(digits)
  {
    if n < 10 then [48 + n] else Decimal(n / 10) + [48 + n % 10]
  }

  lemma {:induction false} DecimalRoundTrip(n: nat)
    ensures DecimalValue(Decimal(n)) == n
  {
    if n >= 10 {
      DecimalRoundTrip(n / 10);
      assert Decimal(n)[..|Decimal(n)| - 1] == Decimal(n / 10);
    } else {
      assert Decimal(n)[..0] == [];
    }
  }

  lemma {:induction false} DigitRunIsMaximal(digits: Text, after: Text)
    requires AllDigits(digits) && (after != [] ==> !IsDigit(after[0]))
    ensures DigitRun(digits + after) == digits
  {
    if digits == [] {
      assert digits + after == after;
    } else {
      assert (digits + after)[1..] == digits[1..] + after;
      DigitRunIsMaximal(digits[1..], after);
    }
  }

  const I2C_DASH: Text := [105, 50, 99, 45]

  lemma SearchFindsDigits(dir: Text, digits: Text, after: Text)
    requires digits != [] && AllDigits(digits) && (after != [] ==> !IsDigit(after[0]))
    requires forall p: nat :: p < |dir| ==> !MatchAt(dir + I2C_DASH + digits + after, p)
    ensures SearchDigits(dir + I2C_DASH + digits + after) == Some(digits)
  {
    var path := dir + I2C_DASH + digits + after;
    var m := |dir|;
    assert path[m..] == I2C_DASH + digits + after;
    assert forall i :: 0 <= i < 5 ==> path[m + i] == path[m..][i];
    assert MatchAt(path, m);
    assert MatchFrom(path, 0) == Some(m);
    assert path[m + 4..] == digits + after;
    DigitRunIsMaximal(digits, after);
  }

  /** A device named i2c-<n> has bus number n, unless the directory's own name holds a match. */
  lemma BusNumberInvertsPrinting(dir: Text, n: nat, after: Text)
    requires after != [] ==> !IsDigit(after[0])
    requires forall p: nat :: p < |dir| ==> !MatchAt(dir + I2C_DASH + Decimal(n) + after, p)
    ensures SearchDigits(dir + I2C_DASH + Decimal(n) + after) == Some(Decimal(n))
    ensures Stoi(Decimal(n)) == if n <= INT_MAX then Some(n) else None
  {
    SearchFindsDigits(dir, Decimal(n), after);
    DecimalRoundTrip(n);
  }

  lemma NoMatchInDirectoryName(p: nat)
    requires p < |Builtin(I2cDevices)|
    ensures forall rest: Text :: rest != [] && rest[0] == 105 ==> !MatchAt(Builtin(I2cDevices) + rest, p)
  {
    var dir := Builtin(I2cDevices);
    assert dir[p] == 105 ==> p == 9 || p == 16;
    assert dir[9 + 3] == 47 && dir[16 + 1] == 99;
  }

  /** Every device the kernel can list there, up to the largest int, is numbered as it was printed. */
  lemma KernelDeviceNumber(n: nat)
    ensures var device := Builtin(I2cDevices) + I2C_DASH + Decimal(n);
            SearchDigits(device) == Some(Decimal(n))
            && Stoi(Decimal(n)) == if n <= INT_MAX then Some(n) else None
  {
    var dir := Builtin(I2cDevices);
    assert dir + I2C_DASH + Decimal(n) == dir + (I2C_DASH + Decimal(n));
    assert dir + I2C_DASH + Decimal(n) + [] == dir + I2C_DASH + Decimal(n);
    forall p: nat | p < |dir| ensures !MatchAt(dir + I2C_DASH + Decimal(n) + [], p) {
      NoMatchInDirectoryName(p);
    }
    BusNumberInvertsPrinting(dir, n, []);
  }

  /** The digits are the first number of the path: "i2c-" and they, with no match before and no digit after. */
  predicate NumberAt(path: Text, dir: Text, digits: Text, after: Text) {
    && path == dir + I2C_DASH + digits + after
    && digits != [] && AllDigits(digits) && (after != [] ==> !IsDigit(after[0]))
    && forall p: nat :: p < |dir| ==> !MatchAt(path, p)
  }

  ghost predicate FirstNumber(path: Text, digits: Text) {
    exists dir, after :: NumberAt(path, dir, digits, after)
  }

  lemma MatchSplits(path: Text, m: nat)
    requires MatchAt(path, m)
    ensures path == path[..m] + I2C_DASH + path[m + 4..]
  {
    assert path[m..m + 4] == I2C_DASH;
    assert path == path[..m] + path[m..m + 4] + path[m + 4..];
  }

  lemma DigitsAfter(path: Text, m: nat, digits: Text)
    requires m + 4 <= |path| && path == path[..m] + I2C_DASH + path[m + 4..] && digits <= path[m + 4..]
    ensures path == path[..m] + I2C_DASH + digits + path[m + 4 + |digits|..]
  {
    assert path[m + 4..] == digits + path[m + 4..][|digits|..];
    assert path[m + 4..][|digits|..] == path[m + 4 + |digits|..];
  }

  lemma SearchedIsFirst(path: Text, digits: Text)
    requires SearchDigits(path) == Some(digits)
    ensures FirstNumber(path, digits)
  {
    var m := MatchFrom(path, 0).value;
    MatchSplits(path, m);
    DigitsAfter(path, m, digits);
    assert NumberAt(path, path[..m], digits, path[m + 4 + |digits|..]);
  }

  /** The search finds just that, in every path. */
  lemma SearchExactly(path: Text, digits: Text)
    ensures SearchDigits(path) == Some(digits) <==> FirstNumber(path, digits)
  {
    if SearchDigits(path) == Some(digits) {
      SearchedIsFirst(path, digits);
    }
    if FirstNumber(path, digits) {
      var dir, after :| NumberAt(path, dir, digits, after);
      SearchFindsDigits(dir, digits, after);
    }
  }

  // ---------------------------------------------------------------------
  // Property files
  // ---------------------------------------------------------------------

  /** std::isspace in the C locale. */
  predicate IsSpace(b: byte) { b == 32 || 9 <= b <= 13 }

  predicate Spaceless(t: Text) { forall i :: 0 <= i < |t| ==> !IsSpace(t[i]) }

  /** What ifs >> contents extracts: the first run of non-blanks. */
  function Token(t: Text): (token: Text)
    ensures Spaceless(token)
  {
    if t == [] then []
    else if IsSpace(t[0]) then Token(t[1..])
    else Word(t)
  }

  function Word(t: Text): (word: Text)
    ensures word <= t && Spaceless(word)
    ensures |word| < |t| ==> IsSpace(t[|word|])
  {
    if t == [] || IsSpace(t[0]) then [] else [t[0]] + Word(t[1..])
  }

  /** A file's first token without one trailing NUL; empty if there is none to be had. */
  function Property(sys: Sysfs, file: Text): (contents: Text) {
    var path := CStr(file);
    if path !in sys.files then []
    else
      var token := Token(sys.files[path]);
      if token != [] && token[|token| - 1] == 0 then token[..|token| - 1] else token
  }

  method ReadPropertyFile(sys: Sysfs, file: Text) returns (contents: Text)
    ensures contents == Property(sys, file)
  {
    contents := [];
    if CStr(file) in sys.files {
      contents := Token(sys.files[CStr(file)]);
      if contents != [] {
        var back := contents[|contents| - 1];
        if back == 0 {
          contents := contents[..|contents| - 1];
        }
      }
    }
  }

  predicate Blank(t: Text) { forall i :: 0 <= i < |t| ==> IsSpace(t[i]) }

  /** Blanks before a word are skipped, and the word ends at the next one. */
  lemma {:induction false} TokenOfWord(blanks: Text, word: Text, after: Text)
    requires Blank(blanks) && word != [] && Spaceless(word) && (after != [] ==> IsSpace(after[0]))
    ensures Token(blanks + word + after) == word
  {
    if blanks == [] {
      assert blanks + word + after == word + after;
      WordOfWord(word, after);
    } else {
      assert (blanks + word + after)[1..] == blanks[1..] + word + after;
      TokenOfWord(blanks[1..], word, after);
    }
  }

  lemma {:induction false} WordOfWord(word: Text, after: Text)
    requires Spaceless(word) && (after != [] ==> IsSpace(after[0]))
    ensures Word(word + after) == word
  {
    if word == [] {
      assert word + after == after;
    } else {
      assert (word + after)[1..] == word[1..] + after;
      WordOfWord(word[1..], after);
    }
  }

  /** The word is the first of the text: blanks come before it, and after it either more blanks or the end. */
  ghost predicate FirstWord(t: Text, word: Text) {
    exists blanks, after :: WordBetween(t, blanks, word, after)
  }

  predicate WordBetween(t: Text, blanks: Text, word: Text, after: Text) {
    && t == blanks + word + after
    && Blank(blanks) && Spaceless(word)
    && (after != [] ==> word != [] && IsSpace(after[0]))
  }

  lemma {:induction false} TokenOfBlank(t: Text)
    requires Blank(t)
    ensures Token(t) == []
  {
    if t != [] {
      TokenOfBlank(t[1..]);
    }
  }

  lemma BlankBefore(blank: byte, t: Text, blanks: Text, word: Text, after: Text)
    requires IsSpace(blank) && WordBetween(t, blanks, word, after)
    ensures WordBetween([blank] + t, [blank] + blanks, word, after)
  {
    assert [blank] + (blanks + word + after) == ([blank] + blanks) + word + after;
  }

  lemma {:induction false} TokenIsBetween(t: Text) returns (blanks: Text, after: Text)
    ensures WordBetween(t, blanks, Token(t), after)
  {
    if t == [] {
      blanks, after := [], [];
    } else if IsSpace(t[0]) {
      var more, rest := TokenIsBetween(t[1..]);
      blanks, after := [t[0]] + more, rest;
      assert t == [t[0]] + t[1..];
      BlankBefore(t[0], t[1..], more, Token(t), rest);
    } else {
      var word := Word(t);
      blanks, after := [], t[|word|..];
      assert t == [] + word + after;
    }
  }

  /** What is extracted is the first word, and nothing else could be called that. */
  lemma TokenIsFirstWord(t: Text, word: Text)
    ensures FirstWord(t, word) <==> word == Token(t)
  {
    var blanks, after := TokenIsBetween(t);
    if FirstWord(t, word) {
      var blanks', after' :| WordBetween(t, blanks', word, after');
      if word == [] {
        assert t == blanks';
        TokenOfBlank(t);
      } else {
        TokenOfWord(blanks', word, after');
      }
    }
  }

  /** A property is the first word of its file, less one NUL it may end in; a file that cannot be opened has none. */
  lemma PropertyIsFirstWord(sys: Sysfs, file: Text, contents: Text)
    ensures Property(sys, file) == contents <==>
            if CStr(file) in sys.files then
              var t := sys.files[CStr(file)];
              || FirstWord(t, contents + [0])
              || (FirstWord(t, contents) && (contents == [] || contents[|contents| - 1] != 0))
            else contents == []
  {
    if CStr(file) in sys.files {
      var t := sys.files[CStr(file)];
      TokenIsFirstWord(t, contents);
      TokenIsFirstWord(t, contents + [0]);
      var token := Token(t);
      assert token != [] ==> token == token[..|token| - 1] + [token[|token| - 1]];
    }
  }

  /** The file says something: its first word, or that word up to the NUL it ends in. */
  ghost predicate Says(sys: Sysfs, file: Text, text: Text) {
    text != [] && CStr(file) in sys.files &&
    (FirstWord(sys.files[CStr(file)], text + [0])
     || (FirstWord(sys.files[CStr(file)], text) && text[|text| - 1] != 0))
  }

  lemma PropertySays(sys: Sysfs, file: Text, text: Text)
    ensures text != [] && Property(sys, file) == text <==> Says(sys, file, text)
  {
    PropertyIsFirstWord(sys, file, text);
  }

  /** A one-word property stored with its terminator is read back without it. */
  lemma TerminatedPropertyIsRead(sys: Sysfs, file: Text, text: Text)
    requires 0 !in file && file in sys.files && sys.files[file] == text + [0]
    requires Spaceless(text)
    ensures Property(sys, file) == text
  {
    assert [] + (text + [0]) + [] == text + [0];
    TokenOfWord([], text + [0], []);
  }

  // ---------------------------------------------------------------------
  // The map
  // ---------------------------------------------------------------------

  /** What one directory entry contributes. */
  datatype Entry = Skipped | TooBig | Mapped(slot: Slot)

  function SlotPath(l: Layout, sys: Sysfs, device: Text): Text { Property(sys, device + l.pcieSlotFile) }

  function SlotName(l: Layout, sys: Sysfs, slotPath: Text): Text {
    Property(sys, l.deviceTree + slotPath + l.labelFile)
  }

  /** An entry counts when its path holds a number and both properties say something. */
  function EntryOf(l: Layout, sys: Sysfs, device: Text): (e: Entry)
    ensures e.Skipped? <==>
            || SearchDigits(device).None?
            || SlotPath(l, sys, device) == []
            || SlotName(l, sys, SlotPath(l, sys, device)) == []
    ensures e.Mapped? ==>
            && Stoi(SearchDigits(device).value) == Some(e.slot.bus)
            && e.slot.name == SlotName(l, sys, SlotPath(l, sys, device))
  {
    match SearchDigits(device)
    case None => Skipped
    case Some(digits) =>
      var path := SlotPath(l, sys, device);
      var name := SlotName(l, sys, path);
      if path == [] || name == [] then Skipped
      else match Stoi(digits)
        case None => TooBig
        case Some(bus) => Mapped(Slot(bus, name))
  }

  function Entries(l: Layout, sys: Sysfs, devices: seq<Text>): seq<Entry> {
    seq(|devices|, k requires 0 <= k < |devices| => EntryOf(l, sys, devices[k]))
  }

  predicate Increasing(a: seq<nat>) { forall i, j :: 0 <= i < j < |a| ==> a[i] < a[j] }

  /** Positions of the mapped entries, in order. */
  function MappedAt(entries: seq<Entry>): (at: seq<nat>)
    ensures forall j :: 0 <= j < |at| ==> at[j] < |entries| && entries[at[j]].Mapped?
    ensures Increasing(at)
    ensures forall k :: 0 <= k < |entries| && entries[k].Mapped? ==> k in at
  {
    if entries == [] then []
    else
      var n := |entries| - 1;
      var at := MappedAt(entries[..n]);
      assert forall k :: 0 <= k < n ==> entries[..n][k] == entries[k];
      if entries[n].Mapped? then at + [n] else at
  }

  /** The slots of the mapped entries. */
  function Slots(entries: seq<Entry>): (slots: seq<Slot>) {
    var at := MappedAt(entries);
    seq(|at|, j requires 0 <= j < |at| => entries[at[j]].slot)
  }

  /** A number that fits no int spoils the walk; otherwise the slots are what it yields. */
  function Gathered(entries: seq<Entry>): Answer<seq<Slot>> {
    if TooBig in entries then Foreign else Value(Slots(entries))
  }

  function MapOf(l: Layout, sys: Sysfs): Answer<seq<Slot>> {
    match sys.devices
    case None => Foreign
    case Some(devices) => Gathered(Entries(l, sys, devices))
  }

  lemma SlotsStep(entries: seq<Entry>, n: nat)
    requires n < |entries|
    ensures Slots(entries[..n + 1]) ==
            if entries[n].Mapped? then Slots(entries[..n]) + [entries[n].slot] else Slots(entries[..n])
  {
    assert entries[..n + 1][..n] == entries[..n];
  }

  lemma InOneMore(entries: seq<Entry>, n: nat, e: Entry)
    requires n < |entries|
    ensures e in entries[..n + 1] <==> e in entries[..n] || e == entries[n]
  {
    assert entries[..n + 1] == entries[..n] + [entries[n]];
  }

  /** One more entry: it spoils everything, changes nothing, or adds its slot. */
  lemma GatheredStep(entries: seq<Entry>, n: nat, slots: seq<Slot>)
    requires n < |entries| && Gathered(entries[..n]) == Value(slots)
    ensures entries[n].TooBig? ==> Gathered(entries) == Foreign
    ensures entries[n].Skipped? ==> Gathered(entries[..n + 1]) == Value(slots)
    ensures entries[n].Mapped? ==> Gathered(entries[..n + 1]) == Value(slots + [entries[n].slot])
  {
    if entries[n].TooBig? {
      assert entries[n] in entries;
    } else {
      SlotsStep(entries, n);
      InOneMore(entries, n, TooBig);
    }
  }

  /** The work on one directory entry. */
  method Visit(l: Layout, sys: Sysfs, device: Text) returns (e: Entry)
    ensures e == EntryOf(l, sys, device)
  {
    var digits := SearchDigits(device);
    if digits.None? {
      return Skipped;
    }
    var slotPath := ReadPropertyFile(sys, device + l.pcieSlotFile);
    if slotPath == [] {
      return Skipped;
    }
    var slotName := ReadPropertyFile(sys, l.deviceTree + slotPath + l.labelFile);
    if slotName == [] {
      return Skipped;
    }
    var number := Stoi(digits.value);
    if number.None? {
      return TooBig;
    }
    e := Mapped(Slot(number.value, slotName));
  }

  /** buildPcieMap. */
  method BuildPcieMap(l: Layout, sys: Sysfs) returns (r: Answer<seq<Slot>>)
    ensures r == MapOf(l, sys)
  {
    if sys.devices.None? {
      return Foreign;
    }
    r := Walk(l, sys, sys.devices.value, Entries(l, sys, sys.devices.value));
  }

  /** The loop over the directory; entries is what it will find. */
  method Walk(l: Layout, sys: Sysfs, devices: seq<Text>, ghost entries: seq<Entry>)
    returns (r: Answer<seq<Slot>>)
    requires |entries| == |devices| && forall k :: 0 <= k < |devices| ==> entries[k] == EntryOf(l, sys, devices[k])
    ensures r == Gathered(entries)
  {
    var pcieI2cMap: seq<Slot> := [];
    assert entries[..0] == [] && Slots([]) == [];
    for i := 0 to |devices|
      invariant Gathered(entries[..i]) == Value(pcieI2cMap)
    {
      GatheredStep(entries, i, pcieI2cMap);
      var e := Visit(l, sys, devices[i]);
      if e.Skipped? {
        continue;
      }
      if e.TooBig? {
        return Foreign;
      }
      pcieI2cMap := pcieI2cMap + [e.slot];
    }
    assert entries[..|devices|] == entries;
    r := Value(pcieI2cMap);
  }

  /**
   A device counts: its path has a number, the slot file beside it says where in
   the device tree the slot is, and the label there says what it is called.
   */
  ghost predicate Counts(l: Layout, sys: Sysfs, device: Text, digits: Text, name: Text) {
    exists slotPath ::
      && FirstNumber(device, digits)
      && Says(sys, device + l.pcieSlotFile, slotPath)
      && Says(sys, l.deviceTree + slotPath + l.labelFile, name)
  }

  /** Which devices count, with what number and name, in terms of their files. */
  lemma EntryExactly(l: Layout, sys: Sysfs, device: Text)
    ensures EntryOf(l, sys, device).Skipped? <==> !exists digits, name :: Counts(l, sys, device, digits, name)
    ensures forall digits, name :: Counts(l, sys, device, digits, name) ==>
              AllDigits(digits) &&
              EntryOf(l, sys, device) ==
              if DecimalValue(digits) <= INT_MAX then Mapped(Slot(DecimalValue(digits), name)) else TooBig
  {
    var path := SlotPath(l, sys, device);
    var name := SlotName(l, sys, path);
    PropertySays(sys, device + l.pcieSlotFile, path);
    PropertySays(sys, l.deviceTree + path + l.labelFile, name);
    if !EntryOf(l, sys, device).Skipped? {
      SearchExactly(device, SearchDigits(device).value);
      assert Counts(l, sys, device, SearchDigits(device).value, name);
    }
    forall digits', name' | Counts(l, sys, device, digits', name')
      ensures SearchDigits(device) == Some(digits') && path != [] && name' == name != []
    {
      CountsIsRead(l, sys, device, digits', name');
    }
  }

  lemma CountsIsRead(l: Layout, sys: Sysfs, device: Text, digits: Text, name: Text)
    requires Counts(l, sys, device, digits, name)
    ensures SearchDigits(device) == Some(digits)
    ensures SlotPath(l, sys, device) != [] && SlotName(l, sys, SlotPath(l, sys, device)) == name != []
  {
    var slotPath :| FirstNumber(device, digits) && Says(sys, device + l.pcieSlotFile, slotPath)
                    && Says(sys, l.deviceTree + slotPath + l.labelFile, name);
    SearchExactly(device, digits);
    PropertySays(sys, device + l.pcieSlotFile, slotPath);
    PropertySays(sys, l.deviceTree + slotPath + l.labelFile, name);
  }

  /** The device contributes this slot. */
  ghost predicate Contributes(l: Layout, sys: Sysfs, device: Text, slot: Slot) {
    exists digits ::
      Counts(l, sys, device, digits, slot.name) && AllDigits(digits) && DecimalValue(digits) == slot.bus <= INT_MAX
  }

  ghost predicate PassedOver(l: Layout, sys: Sysfs, device: Text) {
    !exists digits, name :: Counts(l, sys, device, digits, name)
  }

  lemma ContributesExactly(l: Layout, sys: Sysfs, device: Text, slot: Slot)
    ensures EntryOf(l, sys, device) == Mapped(slot) <==> Contributes(l, sys, device, slot)
    ensures EntryOf(l, sys, device) == Skipped <==> PassedOver(l, sys, device)
    ensures EntryOf(l, sys, device) == TooBig <==> Spoils(l, sys, device)
  {
    EntryExactly(l, sys, device);
    if !EntryOf(l, sys, device).Skipped? {
      var digits, name :| Counts(l, sys, device, digits, name);
    }
  }

  /** A device that counts, with a number that fits no int. */
  ghost predicate Spoils(l: Layout, sys: Sysfs, device: Text) {
    exists digits, name :: Counts(l, sys, device, digits, name) && AllDigits(digits) && DecimalValue(digits) > INT_MAX
  }

  /** The listed devices at positions at are exactly those that count, and slots are what they contribute. */
  ghost predicate Locates(l: Layout, sys: Sysfs, devices: seq<Text>, at: seq<nat>, slots: seq<Slot>) {
    && |at| == |slots|
    && Increasing(at)
    && (forall j :: 0 <= j < |at| ==> at[j] < |devices| && Contributes(l, sys, devices[at[j]], slots[j]))
    && (forall k :: 0 <= k < |devices| && k !in at ==> PassedOver(l, sys, devices[k]))
  }

  lemma InAllButLast(a: seq<nat>, k: nat)
    requires Increasing(a) && a != []
    ensures k in a[..|a| - 1] <==> k in a && k < a[|a| - 1]
  {
    if k in a && k < a[|a| - 1] {
      var i :| 0 <= i < |a| && a[i] == k;
      assert a[..|a| - 1][i] == k;
    }
  }

  predicate MembersIn(a: seq<nat>, b: seq<nat>) { forall i :: 0 <= i < |a| ==> a[i] in b }

  lemma SameLast(a: seq<nat>, b: seq<nat>)
    requires Increasing(a) && Increasing(b) && MembersIn(a, b) && MembersIn(b, a) && a != []
    ensures b != [] && a[|a| - 1] == b[|b| - 1]
  {
    assert a[|a| - 1] in b;
    assert b[|b| - 1] in a;
  }

  lemma MembersButLast(a: seq<nat>, b: seq<nat>)
    requires Increasing(a) && Increasing(b) && MembersIn(a, b) && MembersIn(b, a) && a != [] && b != []
    requires a[|a| - 1] == b[|b| - 1]
    ensures MembersIn(a[..|a| - 1], b[..|b| - 1])
  {
    var c := a[..|a| - 1];
    forall i | 0 <= i < |c| ensures c[i] in b[..|b| - 1] {
      InAllButLast(b, c[i]);
    }
  }

  lemma SameParts(a: seq<nat>, b: seq<nat>)
    requires a != [] && b != [] && a[..|a| - 1] == b[..|b| - 1] && a[|a| - 1] == b[|b| - 1]
    ensures a == b
  {
    assert a == a[..|a| - 1] + [a[|a| - 1]];
    assert b == b[..|b| - 1] + [b[|b| - 1]];
  }

  /** An increasing list of numbers is settled by which numbers are in it. */
  lemma {:induction false} IncreasingIsUnique(a: seq<nat>, b: seq<nat>)
    requires Increasing(a) && Increasing(b) && MembersIn(a, b) && MembersIn(b, a)
    ensures a == b
    decreases |a|
  {
    if a != [] {
      SameLast(a, b);
      MembersButLast(a, b);
      MembersButLast(b, a);
      IncreasingIsUnique(a[..|a| - 1], b[..|b| - 1]);
      SameParts(a, b);
    }
  }

  /** A walk fails exactly when the directory cannot be listed or a device in it spoils it. */
  lemma WalkFailsExactly(l: Layout, sys: Sysfs)
    ensures !MapOf(l, sys).Raised?
    ensures MapOf(l, sys).Foreign? <==>
            sys.devices.None? || exists k :: 0 <= k < |sys.devices.value| && Spoils(l, sys, sys.devices.value[k])
  {
    if sys.devices.Some? {
      var devices := sys.devices.value;
      var entries := Entries(l, sys, devices);
      forall k | 0 <= k < |devices| ensures entries[k] == TooBig <==> Spoils(l, sys, devices[k]) {
        ContributesExactly(l, sys, devices[k], Slot(0, []));
      }
      if k: nat :| k < |devices| && Spoils(l, sys, devices[k]) {
        assert entries[k] in entries;
      }
    }
  }

  lemma LocatedAt(l: Layout, sys: Sysfs, at: seq<nat>, slots: seq<Slot>)
    requires sys.devices.Some? && Locates(l, sys, sys.devices.value, at, slots)
    ensures MappedAt(Entries(l, sys, sys.devices.value)) == at
  {
    var devices := sys.devices.value;
    var entries := Entries(l, sys, devices);
    forall j | 0 <= j < |at| ensures at[j] in MappedAt(entries) {
      ContributesExactly(l, sys, devices[at[j]], slots[j]);
      assert entries[at[j]] == Mapped(slots[j]);
    }
    forall j | 0 <= j < |MappedAt(entries)| ensures MappedAt(entries)[j] in at {
      ContributesExactly(l, sys, devices[MappedAt(entries)[j]], Slot(0, []));
    }
    IncreasingIsUnique(MappedAt(entries), at);
  }

  /**
   A walk comes to some slots exactly when they are those of the devices that
   count, in the order the directory lists them, each with the number in its path
   and the name of its slot, and all other devices are passed over.
   */
  lemma MapListsDevicesInOrder(l: Layout, sys: Sysfs, slots: seq<Slot>)
    ensures MapOf(l, sys) == Value(slots) <==>
            sys.devices.Some? && exists at :: Locates(l, sys, sys.devices.value, at, slots)
  {
    if sys.devices.Some? {
      var devices := sys.devices.value;
      var entries := Entries(l, sys, devices);
      if at :| Locates(l, sys, devices, at, slots) {
        LocatedAt(l, sys, at, slots);
        LocatedSlots(l, sys, at, slots);
      }
      if MapOf(l, sys) == Value(slots) {
        SlotsAreLocated(l, sys, slots);
      }
    }
  }

  lemma LocatedSlots(l: Layout, sys: Sysfs, at: seq<nat>, slots: seq<Slot>)
    requires sys.devices.Some? && Locates(l, sys, sys.devices.value, at, slots)
    requires MappedAt(Entries(l, sys, sys.devices.value)) == at
    ensures MapOf(l, sys) == Value(slots)
  {
    var devices := sys.devices.value;
    var entries := Entries(l, sys, devices);
    forall j | 0 <= j < |at| ensures entries[at[j]] == Mapped(slots[j]) {
      ContributesExactly(l, sys, devices[at[j]], slots[j]);
    }
    forall k | 0 <= k < |devices| ensures entries[k] != TooBig {
      if k in at {
        var j :| 0 <= j < |at| && at[j] == k;
        assert entries[at[j]] == Mapped(slots[j]);
      } else {
        ContributesExactly(l, sys, devices[k], Slot(0, []));
      }
    }
    assert Slots(entries) == slots;
  }

  lemma SlotsAreLocated(l: Layout, sys: Sysfs, slots: seq<Slot>)
    requires MapOf(l, sys) == Value(slots)
    ensures exists at :: Locates(l, sys, sys.devices.value, at, slots)
  {
    var devices := sys.devices.value;
    var entries := Entries(l, sys, devices);
    var at := MappedAt(entries);
    forall k | 0 <= k < |devices| ensures k !in at ==> PassedOver(l, sys, devices[k]) {
      assert entries[k] in entries;
      ContributesExactly(l, sys, devices[k], Slot(0, []));
    }
    forall j | 0 <= j < |at| ensures Contributes(l, sys, devices[at[j]], slots[j]) {
      ContributesExactly(l, sys, devices[at[j]], slots[j]);
    }
    assert Locates(l, sys, devices, at, slots);
  }

  /** The places where the kernel keeps slots and their labels. */
  function KernelLayout(): Layout { Layout(Builtin(PcieSlotFile), Builtin(DeviceTree), Builtin(LabelFile)) }

  /**
   A bus that the kernel lists, with a slot file and a label stored the way the
   device tree stores strings, contributes its own number and that label.
   */
  lemma KernelSlotIsFound(sys: Sysfs, n: nat, path: Text, name: Text)
    requires n <= INT_MAX && path != [] && name != [] && Spaceless(path) && Spaceless(name) && 0 !in path
    requires var slotFile := Ascii("/sys/bus/i2c/devices/") + I2C_DASH + Decimal(n) + Ascii("/of_node/pcie-slot");
             0 !in slotFile && slotFile in sys.files && sys.files[slotFile] == path + [0]
    requires var labelFile := Ascii("/proc/device-tree") + path + Ascii("/label");
             0 !in labelFile && labelFile in sys.files && sys.files[labelFile] == name + [0]
    ensures EntryOf(KernelLayout(), sys, Builtin(I2cDevices) + I2C_DASH + Decimal(n)) == Mapped(Slot(n, name))
  {
    var device := Builtin(I2cDevices) + I2C_DASH + Decimal(n);
    KernelDeviceNumber(n);
    DecimalRoundTrip(n);
    TerminatedPropertyIsRead(sys, device + Builtin(PcieSlotFile), path);
    TerminatedPropertyIsRead(sys, Builtin(DeviceTree) + path + Builtin(LabelFile), name);
  }
}
