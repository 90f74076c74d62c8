/**
 Partition tables as numbers, and the dumps that print them. On a printed table the rewrite of the text is a
 rewrite of the numbers.
 */
module PrintedTable {
  import opened Common
  import opened Text
  import opened PartTable
  import opened PartTableProofs

  /** A name of a device in front of its partition numbers, such as `/dev/mmcblk0p` or `/dev/sda`. */
  predicate IsDevice(device: string) {
    && |device| > 5 && DEVICE_LINE_PREFIX <= device
    && (forall j :: 5 <= j < |device| ==> device[j] != '/')
    && (forall j :: 0 <= j < |device| ==> !IsWhitespace(device[j]) && device[j] != '=')
    && !IsDigit(device[|device| - 1]) && Utf8Len(device[|device| - 1]) == 1
  }

  /** A partition; `rest` is what the dump says about it behind its size. */
  datatype Entry = Entry(device: string, number: nat, start: u64, size: u64, rest: string) {
    predicate Valid() {
      IsDevice(device) && number <= U32_MAX && (rest == "" || rest[0] == ',')
    }
  }

  /** A value without blank ends and without a comma. */
  predicate IsUnit(unit: string) {
    && unit != "" && !IsWhitespace(unit[0]) && !IsWhitespace(unit[|unit| - 1])
    && forall j :: 0 <= j < |unit| ==> unit[j] != ','
  }

  datatype Table = Table(unit: string, sectorSize: u64, lastLba: u64, entries: seq<Entry>) {
    predicate Valid() {
      IsUnit(unit) && forall i :: 0 <= i < |entries| ==> entries[i].Valid()
    }

    /** The only scale in which a KB is two sectors. */
    predicate InHalfKb() {
      unit == "sectors" && sectorSize == 512
    }
  }

  function DevicePath(e: Entry): string {
    e.device + Decimal(e.number)
  }

  /** The line up to the size field. */
  function UpToSize(e: Entry): string {
    DevicePath(e) + " : " + START_FIELD + " " + Decimal(e.start) + ", "
  }

  function PrintEntry(e: Entry): string {
    UpToSize(e) + SIZE_FIELD + " " + Decimal(e.size) + e.rest
  }

  function PrintUnit(unit: string): string {
    UNIT_FIELD + " " + unit
  }

  function PrintSectorSize(sectorSize: u64): string {
    SECTOR_SIZE_FIELD + " " + Decimal(sectorSize)
  }

  function PrintLastLba(lastLba: u64): string {
    LAST_LBA_FIELD + " " + Decimal(lastLba)
  }

  function Print(t: Table): seq<string> {
    [PrintUnit(t.unit), PrintSectorSize(t.sectorSize), PrintLastLba(t.lastLba)]
    + seq(|t.entries|, i requires 0 <= i < |t.entries| => PrintEntry(t.entries[i]))
  }

  // ---- a field of a printed line ----

  lemma LastTwoChars(line: string, field: string, j: nat)
    requires |field| >= 2 && OccursAt(line, field, j)
    ensures var n := |field|;
            j + n <= |line| && line[j + n - 2] == field[n - 2] && line[j + n - 1] == field[n - 1]
  {
    OccursChars(line, field, j);
  }

  /** The last character of the field ends it, and no such end is in the text in front of it. */
  predicate EndsNowhereIn(field: string, front: string) {
    var n := |field|;
    && n >= 2 && (forall i :: 0 <= i < n - 1 ==> field[i] != field[n - 1])
    && (forall j :: 0 < j < |front| ==> !(front[j] == field[n - 1] && front[j - 1] == field[n - 2]))
  }

  lemma FirstAt(line: string, field: string, front: string)
    requires EndsNowhereIn(field, front) && |front| + |field| <= |line|
    requires line[..|front|] == front && line[|front|..|front| + |field|] == field
    ensures Find(line, field) == Some(|front|)
  {
    hide OccursAt, Find;
    var k, n := |front|, |field|;
    OccursThere(line, field, k);
    assert forall j :: 0 <= j < k ==> line[j] == line[..k][j];
    assert forall i :: k <= i < k + n ==> line[i] == line[k..k + n][i - k];
    forall j | 0 <= j < k
      ensures !OccursAt(line, field, j)
    {
      NotHere(line, field, front, j);
    }
    FirstOccurrence(line, field, k);
  }

  lemma NotHere(line: string, field: string, front: string, j: nat)
    requires EndsNowhereIn(field, front) && j < |front| && |front| + |field| <= |line|
    requires forall i :: 0 <= i < |front| ==> line[i] == front[i]
    requires forall i :: |front| <= i < |front| + |field| ==> line[i] == field[i - |front|]
    ensures !OccursAt(line, field, j)
  {
    var n := |field|;
    var end := j + n - 1;
    if end >= |front| {
      assert line[end] == field[end - |front|] != field[n - 1];
    } else {
      assert line[end] == front[end] && line[end - 1] == front[end - 1];
    }
    if OccursAt(line, field, j) {
      LastTwoChars(line, field, j);
      assert false;
    }
  }

  lemma OccursThere(line: string, field: string, k: nat)
    requires k + |field| <= |line| && line[k..k + |field|] == field
    ensures OccursAt(line, field, k)
  {
  }

  /** A line in these pieces: a text, a field, a space, a number, and the rest. */
  ghost predicate InPieces(line: string, front: string, field: string, digits: string, rest: string) {
    var k, from := |front|, |front| + |field| + 1;
    && |line| == from + |digits| + |rest|
    && line[..k] == front && line[k..k + |field|] == field && line[k + |field|..from] == " "
    && line[from..from + |digits|] == digits && line[from + |digits|..] == rest && line[..from] == front + field + " "
  }

  lemma FivePieces(front: string, field: string, digits: string, rest: string, line: string)
    requires line == front + field + " " + digits + rest
    ensures InPieces(line, front, field, digits, rest)
  {
    var a := front + field;
    var b := a + " ";
    var c := b + digits;
    assert line == c + rest;
    assert line[..|c|] == c && line[|c|..] == rest;
    assert c[..|b|] == b && c[|b|..] == digits;
    assert b[..|a|] == a && b[|a|..] == " ";
    assert a[..|front|] == front && a[|front|..] == field;
    assert line[..|b|] == line[..|c|][..|b|];
    assert line[|b|..|c|] == line[..|c|][|b|..];
    assert line[|a|..|b|] == line[..|c|][..|b|][|a|..];
    assert line[|front|..|a|] == line[..|c|][..|b|][..|a|][|front|..];
    assert line[..|front|] == line[..|c|][..|b|][..|a|][..|front|];
  }

  /** `field= number` behind a text in which the field does not end. */
  lemma PrintedField(front: string, field: string, digits: string, rest: string, line: string, from: nat, to: nat)
    requires InPieces(line, front, field, digits, rest) && from == |front| + |field| + 1 && to == from + |digits|
    requires EndsNowhereIn(field, front)
    requires digits != [] && AllDigits(digits) && DigitsValue(digits) <= U64_MAX
    requires rest == "" || rest[0] == ','
    ensures Find(line, field) == Some(|front|) && DigitRun(line, field) == Some((from, to))
    ensures ParseField(line, field) == Some(DigitsValue(digits))
    ensures line[..from] == front + field + " " && line[to..] == rest
  {
    hide Find, DigitRun, ParseField, AllDigits, DigitsValue, InPieces, EndsNowhereIn;
    FieldFirst(front, field, digits, rest, line);
    ThenTheNumber(front, field, digits, rest, line, from, to);
    Ends(front, field, digits, rest, line);
  }

  lemma Ends(front: string, field: string, digits: string, rest: string, line: string)
    requires InPieces(line, front, field, digits, rest)
    ensures var from := |front| + |field| + 1;
            from + |digits| <= |line| && line[..from] == front + field + " " && line[from + |digits|..] == rest
  {
  }

  lemma FieldFirst(front: string, field: string, digits: string, rest: string, line: string)
    requires InPieces(line, front, field, digits, rest) && EndsNowhereIn(field, front)
    ensures Find(line, field) == Some(|front|)
  {
    hide Find, EndsNowhereIn;
    FirstAt(line, field, front);
  }

  lemma ThenTheNumber(front: string, field: string, digits: string, rest: string, line: string, from: nat, to: nat)
    requires InPieces(line, front, field, digits, rest) && from == |front| + |field| + 1 && to == from + |digits|
    requires Find(line, field) == Some(|front|)
    requires digits != [] && AllDigits(digits) && DigitsValue(digits) <= U64_MAX && (rest == "" || rest[0] == ',')
    ensures DigitRun(line, field) == Some((from, to)) && ParseField(line, field) == Some(DigitsValue(digits))
  {
    hide Find, DigitsValue, AllDigits, DigitRun, ParseField;
    DigitRunIs(line, field, |front|, from, to, digits, rest);
    NumberIs(line, field, from, to, digits, rest);
  }

  lemma DigitRunIs(line: string, field: string, k: nat, from: nat, to: nat, digits: string, rest: string)
    requires Find(line, field) == Some(k) && from == k + |field| + 1 && from < to <= |line|
    requires line[k + |field|..from] == " " && line[from..to] == digits && line[to..] == rest
    requires AllDigits(digits) && (rest == "" || rest[0] == ',')
    ensures DigitRun(line, field) == Some((from, to))
  {
    ASpaceIsBlank();
    hide Find, AllDigits, Blank;
    assert to < |line| ==> line[to] == rest[0] && !IsDigit(rest[0]);
    BlankThenDigits(line, k + |field|, from, to);
  }

  lemma NumberIs(line: string, field: string, from: nat, to: nat, digits: string, rest: string)
    requires DigitRun(line, field) == Some((from, to)) && from < to <= |line|
    requires line[from..to] == digits && line[to..] == rest
    requires digits != [] && AllDigits(digits) && DigitsValue(digits) <= U64_MAX && (rest == "" || rest[0] == ',')
    ensures ParseField(line, field) == Some(DigitsValue(digits))
  {
    FieldValueWithDigits(line, field);
    EmptyTrims();
    hide Find, DigitsValue, TrimEnd, ParseUnsigned, AllDigits, DigitRun, FieldValue;
    assert to < |line| ==> line[to] == rest[0];
    assert CommaFrom(line, to) == to;
    assert line[to..to] == "" && digits + "" == digits;
    ParseDigitsThen(digits, "");
  }

  lemma ASpaceIsBlank()
    ensures Blank(" ") && IsWhitespace(' ')
  {
  }

  lemma EmptyTrims()
    ensures TrimEnd("") == ""
  {
  }

  lemma DigitsAreNot(digits: string, c: char)
    requires AllDigits(digits) && !IsDigit(c)
    ensures forall j :: 0 <= j < |digits| ==> digits[j] != c
  {
  }

  // ---- a printed entry ----

  /** In front of the start of an entry there is no equals sign, and in front of its size only that of the start. */
  lemma FrontsOfEntry(e: Entry)
    requires e.Valid()
    ensures EndsNowhereIn(START_FIELD, DevicePath(e) + " : ")
    ensures EndsNowhereIn(SIZE_FIELD, UpToSize(e))
  {
    DigitsAreNot(Decimal(e.number), '=');
    DigitsAreNot(Decimal(e.start), '=');
    hide Decimal, DigitsValue;
    var a := DevicePath(e) + " : ";
    assert forall j :: 0 <= j < |a| ==> a[j] != '=';
    var b := a + START_FIELD;
    assert forall j :: 0 <= j < |b| && b[j] == '=' ==> j == |a| + 5 && b[j - 1] == 't';
    var c := b + (" " + Decimal(e.start) + ", ");
    assert c == UpToSize(e);
    assert forall j :: 0 <= j < |c| && c[j] == '=' ==> j == |a| + 5 && c[j - 1] == 't';
  }

  function BehindStart(e: Entry): string {
    ", " + SIZE_FIELD + " " + Decimal(e.size) + e.rest
  }

  lemma StartPieces(e: Entry)
    ensures InPieces(PrintEntry(e), DevicePath(e) + " : ", START_FIELD, Decimal(e.start), BehindStart(e))
  {
    hide Decimal, InPieces, DevicePath;
    var front := DevicePath(e) + " : " + START_FIELD + " " + Decimal(e.start);
    var behind := SIZE_FIELD + " " + Decimal(e.size) + e.rest;
    assert PrintEntry(e) == front + (", " + behind);
    assert BehindStart(e) == ", " + behind;
    FivePieces(DevicePath(e) + " : ", START_FIELD, Decimal(e.start), BehindStart(e), PrintEntry(e));
  }

  lemma StartOfEntry(e: Entry)
    requires e.Valid()
    ensures ParseField(PrintEntry(e), START_FIELD) == Some(e.start)
  {
    StartPieces(e);
    FrontsOfEntry(e);
    hide InPieces, PrintEntry, DevicePath, Decimal, DigitsValue, ParseField, AllDigits;
    var front := DevicePath(e) + " : ";
    var from := |front| + |START_FIELD| + 1;
    PrintedField(front, START_FIELD, Decimal(e.start), BehindStart(e), PrintEntry(e), from, from + |Decimal(e.start)|);
  }

  lemma SizeOfEntry(e: Entry, from: nat, to: nat)
    requires e.Valid() && from == |UpToSize(e)| + 6 && to == from + |Decimal(e.size)|
    ensures var line := PrintEntry(e);
            && ParseField(line, SIZE_FIELD) == Some(e.size)
            && Find(line, SIZE_FIELD) == Some(|UpToSize(e)|) && DigitRun(line, SIZE_FIELD) == Some((from, to))
            && line[..from] == UpToSize(e) + SIZE_FIELD + " " && line[to..] == e.rest
  {
    FivePieces(UpToSize(e), SIZE_FIELD, Decimal(e.size), e.rest, PrintEntry(e));
    FrontsOfEntry(e);
    hide InPieces, PrintEntry, UpToSize, Decimal, DigitsValue, Find, DigitRun, ParseField, AllDigits;
    PrintedField(UpToSize(e), SIZE_FIELD, Decimal(e.size), e.rest, PrintEntry(e), from, to);
  }

  lemma {:induction false} TrailingDigitsOf(front: string, digits: string)
    requires front != "" && !IsDigit(front[|front| - 1]) && AllDigits(digits)
    ensures TrailingDigits(front + digits) == digits
  {
    var s := front + digits;
    if digits == "" {
      assert s == front;
    } else {
      var init := digits[..|digits| - 1];
      assert s[..|s| - 1] == front + init && s[|s| - 1] == digits[|digits| - 1];
      TrailingDigitsOf(front, init);
    }
  }

  lemma {:induction false} LastSlashIs(s: string, k: nat)
    requires 0 < k <= |s| && s[k - 1] == '/' && forall j :: k <= j < |s| ==> s[j] != '/'
    ensures LastSlash(s) == k
  {
    if k < |s| {
      LastSlashIs(s[..|s| - 1], k);
    }
  }

  /** The name of the device and the number. */
  lemma NameOfPath(e: Entry)
    requires e.Valid()
    ensures FileName(DevicePath(e)) == Some(e.device[5..] + Decimal(e.number))
  {
    DigitsAreNot(Decimal(e.number), '/');
    var path, digits := DevicePath(e), Decimal(e.number);
    var last := |path| - 1;
    assert path[last] == digits[|digits| - 1] && IsDigit(path[last]);
    assert forall j :: |e.device| <= j < |path| ==> path[j] == digits[j - |e.device|];
    assert path[4] == e.device[4] == DEVICE_LINE_PREFIX[4];
    LastSlashIs(path, 5);
    var name := e.device[5..] + digits;
    assert path[5..] == name;
    NotADot(name);
  }

  lemma NotADot(name: string)
    requires name != "" && IsDigit(name[|name| - 1])
    ensures name != "." && name != ".."
  {
  }

  lemma NumberOfPath(e: Entry)
    requires e.Valid()
    ensures PartitionSuffix(DevicePath(e)) == Some(e.number)
  {
    hide FileName, Decimal;
    NameOfPath(e);
    TrailingDigitsOf(e.device[5..], Decimal(e.number));
    ParseDigits(Decimal(e.number), e.number);
  }

  lemma EntryCutsBetweenCharacters(e: Entry)
    requires e.Valid()
    ensures CutsBetweenCharacters(PrintEntry(e))
  {
    hide FileName, Decimal, FirstToken, PrintEntry, LastNonDigit;
    NameOfPath(e);
    PathIsFirst(e);
    var front, digits := e.device[5..], Decimal(e.number);
    var name := front + digits;
    assert name[|front| - 1] == e.device[|e.device| - 1];
    assert forall j :: |front| <= j < |name| ==> name[j] == digits[j - |front|];
    CutsInsideAWideCharacter(name);
  }

  lemma ParseDigits(digits: string, n: nat)
    requires digits != [] && AllDigits(digits) && DigitsValue(digits) == n <= U32_MAX
    ensures ParseUnsigned(digits, U32_MAX) == Some(n)
  {
    assert IsDigit(digits[0]);
  }

  lemma EntryIsAPartition(e: Entry)
    requires e.Valid()
    ensures PartitionNumber(PrintEntry(e)) == Some(e.number) && WellFormedPartition(PrintEntry(e))
  {
    var from := |UpToSize(e)| + 6;
    StartOfEntry(e);
    SizeOfEntry(e, from, from + |Decimal(e.size)|);
    NumberOfPath(e);
    PathIsFirst(e);
    hide Decimal, Find, DigitRun, ParseField, PartitionSuffix, FirstToken, SkipBlank, TokenEnd, PrintEntry;
    assert |DevicePath(e)| <= |UpToSize(e)|;
  }

  lemma PathIsFirst(e: Entry)
    requires e.Valid()
    ensures var line := PrintEntry(e);
            && FirstToken(line) == DevicePath(e) && DEVICE_LINE_PREFIX <= DevicePath(e)
            && TokenEnd(line, SkipBlank(line, 0)) == |DevicePath(e)|
  {
    DigitsAreNoSpace(Decimal(e.number));
    ASpaceIsBlank();
    StartPieces(e);
    hide Decimal, IsWhitespace, PrintEntry;
    var line, path := PrintEntry(e), DevicePath(e);
    assert path[..5] == e.device[..5] == DEVICE_LINE_PREFIX;
    assert line[..|path| + 3] == path + " : ";
    WordFirst(line, path, " : ");
  }

  lemma WordFirst(line: string, word: string, behind: string)
    requires word != "" && (forall j :: 0 <= j < |word| ==> !IsWhitespace(word[j]))
    requires behind != "" && IsWhitespace(behind[0])
    requires |word| + |behind| <= |line| && line[..|word| + |behind|] == word + behind
    ensures FirstToken(line) == word && TokenEnd(line, SkipBlank(line, 0)) == |word|
  {
    hide IsWhitespace;
    var n := |word|;
    assert forall j :: 0 <= j < n + |behind| ==> line[j] == line[..n + |behind|][j] == (word + behind)[j];
    SkipBlankIs(line, 0, 0);
    TokenEndIs(line, 0, n);
    assert line[0..n] == word;
  }

  lemma DigitsAreNoSpace(digits: string)
    requires AllDigits(digits)
    ensures forall j :: 0 <= j < |digits| ==> !IsWhitespace(digits[j])
  {
  }

  /** Setting the size of a printed entry prints the entry with that size. */
  lemma SetSizeOfEntry(e: Entry, size: u64)
    requires e.Valid()
    ensures SetField(PrintEntry(e), SIZE_FIELD, size) == Some(PrintEntry(e.(size := size)))
  {
    hide Decimal, DigitsValue, DigitRun, ParseField, Find;
    var from := |UpToSize(e)| + 6;
    SizeOfEntry(e, from, from + |Decimal(e.size)|);
  }

  // ---- the headers ----

  lemma LettersFirst(line: string)
    requires line != "" && !IsWhitespace(line[0]) && line[0] != '/'
    ensures PartitionNumber(line).None? && TrimStart(line) == line
  {
    SkipBlankIs(line, 0, 0);
    if PartitionNumber(line).Some? {
      PartitionHasToken(line);
    }
  }

  lemma UnitLine(unit: string)
    requires IsUnit(unit)
    ensures FieldValue(PrintUnit(unit), UNIT_FIELD) == Some(unit)
    ensures PartitionNumber(PrintUnit(unit)).None? && HasHeader(UNIT_FIELD)(PrintUnit(unit))
    ensures !HasHeader(SECTOR_SIZE_FIELD)(PrintUnit(unit)) && !HasHeader(LAST_LBA_FIELD)(PrintUnit(unit))
  {
    var line := PrintUnit(unit);
    assert line[0] == UNIT_FIELD[0] == 'u';
    UnitValue(unit, line);
    hide FieldValue, PartitionNumber, TrimStart;
    LettersFirst(line);
    assert line[..5] == UNIT_FIELD;
  }

  lemma UnitValue(unit: string, line: string)
    requires IsUnit(unit) && line == UNIT_FIELD + " " + unit
    ensures FieldValue(line, UNIT_FIELD) == Some(unit)
  {
    hide Find, Trim, IsWhitespace;
    assert line[0..5] == UNIT_FIELD && line[..0] == "";
    FirstAt(line, UNIT_FIELD, "");
    assert forall j :: 6 <= j < |line| ==> line[j] == unit[j - 6];
    assert line[5] == ' ';
    assert CommaFrom(line, 5) == |line|;
    assert line[5..|line|] == " " + unit + "";
    ASpaceIsBlank();
    TrimIs(" ", unit, "");
  }

  lemma SectorLine(sectorSize: u64)
    ensures ParseField(PrintSectorSize(sectorSize), SECTOR_SIZE_FIELD) == Some(sectorSize)
    ensures PartitionNumber(PrintSectorSize(sectorSize)).None?
    ensures HasHeader(SECTOR_SIZE_FIELD)(PrintSectorSize(sectorSize))
    ensures !HasHeader(LAST_LBA_FIELD)(PrintSectorSize(sectorSize))
  {
    hide ParseField, Decimal, DigitsValue, AllDigits, DigitRun;
    var line, digits := PrintSectorSize(sectorSize), Decimal(sectorSize);
    assert line[0] == SECTOR_SIZE_FIELD[0] == 's';
    assert line == "" + SECTOR_SIZE_FIELD + " " + digits + "";
    FivePieces("", SECTOR_SIZE_FIELD, digits, "", line);
    PrintedField("", SECTOR_SIZE_FIELD, digits, "", line, 13, 13 + |digits|);
    LettersFirst(line);
    assert line[..12] == SECTOR_SIZE_FIELD;
  }

  lemma LastLbaLine(lastLba: u64)
    ensures var line := PrintLastLba(lastLba);
            && ParseField(line, LAST_LBA_FIELD) == Some(lastLba)
            && DigitRun(line, LAST_LBA_FIELD) == Some((10, 10 + |Decimal(lastLba)|))
            && line[..10] == LAST_LBA_FIELD + " " && line[10 + |Decimal(lastLba)|..] == ""
  {
    hide ParseField, Decimal, DigitsValue, DigitRun, AllDigits;
    var line := PrintLastLba(lastLba);
    assert line == "" + LAST_LBA_FIELD + " " + Decimal(lastLba) + "";
    FivePieces("", LAST_LBA_FIELD, Decimal(lastLba), "", line);
    PrintedField("", LAST_LBA_FIELD, Decimal(lastLba), "", line, 10, 10 + |Decimal(lastLba)|);
    assert "" + LAST_LBA_FIELD + " " == LAST_LBA_FIELD + " ";
  }

  lemma LastLbaIsAHeader(lastLba: u64)
    ensures PartitionNumber(PrintLastLba(lastLba)).None? && HasHeader(LAST_LBA_FIELD)(PrintLastLba(lastLba))
  {
    hide Decimal;
    var line := PrintLastLba(lastLba);
    assert line == LAST_LBA_FIELD + (" " + Decimal(lastLba));
    assert line[0] == LAST_LBA_FIELD[0] == 'l';
    LettersFirst(line);
  }

  // ---- a printed table ----

  /** The first entry with this number. */
  function FirstEntry(entries: seq<Entry>, number: nat): (r: Option<nat>)
    ensures r.Some? ==> r.value < |entries| && entries[r.value].number == number
    ensures r.Some? ==> forall i :: 0 <= i < r.value ==> entries[i].number != number
    ensures r.None? ==> forall i :: 0 <= i < |entries| ==> entries[i].number != number
  {
    if entries == [] then None
    else if entries[0].number == number then Some(0)
    else match FirstEntry(entries[1..], number)
         case None => None
         case Some(k) => Some(k + 1)
  }

  /** The lines of a dump whose first three are the headers. */
  lemma ThreeHeaders(t: Table, lines: seq<string>)
    requires t.Valid() && |lines| >= 3
    requires lines[0] == PrintUnit(t.unit) && lines[1] == PrintSectorSize(t.sectorSize)
    requires HasHeader(LAST_LBA_FIELD)(lines[2])
    ensures VerifySectorScale(lines) <==> t.InHalfKb()
    ensures BoundLine(Gpt, lines) == Some(2)
  {
    hide FirstLine, ParseField, FieldValue;
    UnitIsFirst(t.unit, lines);
    SectorSizeIsSecond(t.unit, t.sectorSize, lines);
    LastLbaIsThird(t.unit, t.sectorSize, lines);
  }

  lemma UnitIsFirst(unit: string, lines: seq<string>)
    requires IsUnit(unit) && |lines| >= 1 && lines[0] == PrintUnit(unit)
    ensures FirstLine(lines, HasHeader(UNIT_FIELD)) == Some(0) && FieldValue(lines[0], UNIT_FIELD) == Some(unit)
  {
    hide FirstLine, FieldValue, TrimStart, PrintUnit, IsUnit, PartitionNumber;
    UnitLine(unit);
    FirstLineIs(lines, HasHeader(UNIT_FIELD), 0);
  }

  lemma SectorSizeIsSecond(unit: string, sectorSize: u64, lines: seq<string>)
    requires IsUnit(unit) && |lines| >= 2 && lines[0] == PrintUnit(unit) && lines[1] == PrintSectorSize(sectorSize)
    ensures FirstLine(lines, HasHeader(SECTOR_SIZE_FIELD)) == Some(1)
    ensures ParseField(lines[1], SECTOR_SIZE_FIELD) == Some(sectorSize)
  {
    hide FirstLine, FieldValue, ParseField, TrimStart, PrintUnit, PrintSectorSize, IsUnit, PartitionNumber;
    UnitLine(unit);
    SectorLine(sectorSize);
    FirstLineIs(lines, HasHeader(SECTOR_SIZE_FIELD), 1);
  }

  lemma LastLbaIsThird(unit: string, sectorSize: u64, lines: seq<string>)
    requires IsUnit(unit) && |lines| >= 3 && lines[0] == PrintUnit(unit) && lines[1] == PrintSectorSize(sectorSize)
    requires HasHeader(LAST_LBA_FIELD)(lines[2])
    ensures FirstLine(lines, HasHeader(LAST_LBA_FIELD)) == Some(2)
  {
    hide FirstLine, FieldValue, ParseField, TrimStart, PrintUnit, PrintSectorSize, IsUnit, PartitionNumber;
    UnitLine(unit);
    SectorLine(sectorSize);
    FirstLineIs(lines, HasHeader(LAST_LBA_FIELD), 2);
  }

  lemma PrintedLine(t: Table, i: nat)
    requires t.Valid() && i < |Print(t)|
    ensures PartitionNumber(Print(t)[i]) == if i < 3 then None else Some(t.entries[i - 3].number)
    ensures i >= 3 ==> Print(t)[i] == PrintEntry(t.entries[i - 3]) && WellFormedPartition(Print(t)[i])
    ensures HasHeader(LAST_LBA_FIELD)(Print(t)[i]) ==> HasNumber(Print(t)[i], LAST_LBA_FIELD)
    ensures CutsBetweenCharacters(Print(t)[i])
  {
    hide PartitionNumber, WellFormedPartition, PrintEntry, PrintLastLba, ParseField, DigitRun, Decimal, HasHeader,
         CutsBetweenCharacters, PrintUnit, PrintSectorSize;
    var lines := Print(t);
    if i >= 3 {
      EntryIsAPartition(t.entries[i - 3]);
      EntryCutsBetweenCharacters(t.entries[i - 3]);
      PartitionIsNoHeader(lines[i], LAST_LBA_FIELD);
    } else if i == 2 {
      LastLbaLine(t.lastLba);
      LastLbaIsAHeader(t.lastLba);
      HeaderIsNoDevice(lines[i], LAST_LBA_FIELD);
    } else if i == 1 {
      SectorLine(t.sectorSize);
      HeaderIsNoDevice(lines[i], SECTOR_SIZE_FIELD);
    } else {
      UnitLine(t.unit);
      HeaderIsNoDevice(lines[i], UNIT_FIELD);
    }
  }

  /** Every printed table is a well-formed dump. */
  lemma PrintedIsWellFormed(t: Table)
    requires t.Valid()
    ensures WellFormed(Print(t)) && BoundLine(Gpt, Print(t)) == Some(2)
    ensures VerifySectorScale(Print(t)) <==> t.InHalfKb()
  {
    hide PartitionNumber, WellFormedPartition, HasHeader, HasNumber, VerifySectorScale, BoundLine, PrintEntry,
         PrintLastLba, CutsBetweenCharacters, PrintUnit, PrintSectorSize;
    forall i | 0 <= i < |Print(t)|
      ensures CutsBetweenCharacters(Print(t)[i])
      ensures PartitionNumber(Print(t)[i]).Some? ==> WellFormedPartition(Print(t)[i])
      ensures HasHeader(LAST_LBA_FIELD)(Print(t)[i]) ==> HasNumber(Print(t)[i], LAST_LBA_FIELD)
    {
      PrintedLine(t, i);
    }
    LastLbaIsAHeader(t.lastLba);
    ThreeHeaders(t, Print(t));
  }

  /** The line of a partition is found where its entry was printed. */
  lemma PrintedPartition(t: Table, number: nat)
    requires t.Valid()
    ensures FirstLine(Print(t), IsPartition(number))
         == match FirstEntry(t.entries, number) case None => None case Some(k) => Some(3 + k)
  {
    hide PartitionNumber, PrintEntry, PrintLastLba, PrintUnit, PrintSectorSize, FirstEntry;
    var lines := Print(t);
    forall i | 0 <= i < |lines|
      ensures PartitionNumber(lines[i]) == if i < 3 then None else Some(t.entries[i - 3].number)
    {
      PrintedLine(t, i);
    }
    match FirstEntry(t.entries, number) {
      case Some(k) => FirstLineIs(lines, IsPartition(number), 3 + k);
      case None => assert forall i :: 0 <= i < |lines| ==> !IsPartition(number)(lines[i]);
    }
  }

  // ---- the rewrite of the numbers ----

  function SetSize(t: Table, k: nat, size: u64): Table
    requires k < |t.entries|
  {
    t.(entries := t.entries[k := t.entries[k].(size := size)])
  }

  /** The rewrite, on the numbers of a table. */
  function RewriteTable(layout: Layout, t: Table, kb: u64): Result<Table, DumpError> {
    match FirstEntry(t.entries, DataNumber(layout))
    case None => Err(MalformedDump)
    case Some(d) =>
      var start := t.entries[d].start;
      if !t.InHalfKb() then Err(MalformedDump)
      else if kb * 1024 > U64_MAX then Err(InvalidDataSize)
      else
        var resized := SetSize(t, d, 2 * kb);
        match layout
        case Gpt =>
          if 0 < start + 2 * kb <= U64_MAX then Ok(resized.(lastLba := start + 2 * kb - 1)) else Err(MalformedDump)
        case Dos =>
          match FirstEntry(t.entries, PARTITION_NUM_EXTENDED)
          case None => Err(MalformedDump)
          case Some(x) =>
            var size := start - t.entries[x].start + 2 * kb;
            if t.entries[x].start <= start && size <= U64_MAX then Ok(SetSize(resized, x, size)) else Err(MalformedDump)
  }

  lemma PrintResized(t: Table, k: nat, size: u64)
    requires t.Valid() && k < |t.entries|
    ensures SetField(Print(t)[3 + k], SIZE_FIELD, size).Some?
    ensures Print(SetSize(t, k, size)) == Print(t)[3 + k := SetField(Print(t)[3 + k], SIZE_FIELD, size).value]
    ensures SetSize(t, k, size).Valid()
    ensures ParseField(Print(t)[3 + k], START_FIELD) == Some(t.entries[k].start)
  {
    hide SetField, PrintEntry, PrintLastLba, PrintUnit, PrintSectorSize, ParseField;
    SetSizeOfEntry(t.entries[k], size);
    StartOfEntry(t.entries[k]);
  }

  lemma PrintNewEnd(t: Table, lastLba: u64)
    ensures SetField(Print(t)[2], LAST_LBA_FIELD, lastLba) == Some(PrintLastLba(lastLba))
    ensures Print(t.(lastLba := lastLba)) == Print(t)[2 := PrintLastLba(lastLba)]
  {
    hide Decimal, DigitRun, PrintEntry, PrintUnit, PrintSectorSize, ParseField;
    LastLbaLine(t.lastLba);
    var line := PrintLastLba(t.lastLba);
    var (from, to) := DigitRun(line, LAST_LBA_FIELD).value;
    assert line[..from] + Decimal(lastLba) + line[to..] == PrintLastLba(lastLba);
  }

  lemma SameFirstEntry(t: Table, k: nat, size: u64, number: nat)
    requires k < |t.entries|
    ensures FirstEntry(SetSize(t, k, size).entries, number) == FirstEntry(t.entries, number)
  {
    hide FirstEntry;
    var a, b := t.entries, SetSize(t, k, size).entries;
    assert forall i :: 0 <= i < |a| ==> a[i].number == b[i].number;
  }

  lemma GptBoundOfAPrintedTable(t: Table, start: u64, sectors: u64)
    requires t.Valid()
    ensures RewriteBound(Gpt, Print(t), start, sectors)
         == if 0 < start + sectors <= U64_MAX then Ok(Print(t.(lastLba := start + sectors - 1))) else Err(MalformedDump)
  {
    hide SetField, FirstLine, PartitionNumber, Print, PrintLastLba, WellFormed, VerifySectorScale;
    PrintedIsWellFormed(t);
    if 0 < start + sectors <= U64_MAX {
      PrintNewEnd(t, start + sectors - 1);
    }
  }

  lemma DosBoundOfAPrintedTable(t: Table, start: u64, sectors: u64)
    requires t.Valid()
    ensures match FirstEntry(t.entries, PARTITION_NUM_EXTENDED)
            case None => RewriteBound(Dos, Print(t), start, sectors) == Err(MalformedDump)
            case Some(x) =>
              var size := start - t.entries[x].start + sectors;
              RewriteBound(Dos, Print(t), start, sectors)
              == if t.entries[x].start <= start && size <= U64_MAX then Ok(Print(SetSize(t, x, size)))
                 else Err(MalformedDump)
  {
    hide SetField, ParseField, FirstLine, PartitionNumber, Print, FirstEntry, SetSize;
    var x := FirstEntry(t.entries, PARTITION_NUM_EXTENDED);
    PrintedPartition(t, PARTITION_NUM_EXTENDED);
    if x.Some? {
      var size := start - t.entries[x.value].start + sectors;
      PrintResized(t, x.value, if 0 <= size <= U64_MAX then size else 0);
    }
  }

  lemma DataOfAPrintedTable(layout: Layout, t: Table, kb: u64)
    requires t.Valid()
    ensures var d := FirstEntry(t.entries, DataNumber(layout));
            && (d.None? ==> EditData(layout, Print(t), kb) == Err(MalformedDump))
            && (d.Some? && kb * 1024 > U64_MAX ==> EditData(layout, Print(t), kb) == Err(InvalidDataSize))
            && (d.Some? && kb * 1024 <= U64_MAX ==>
                  && EditData(layout, Print(t), kb).Ok?
                  && var edit := EditData(layout, Print(t), kb).value;
                     && edit.start == t.entries[d.value].start && edit.sectors == 2 * kb
                     && Print(t)[edit.d := edit.line] == Print(SetSize(t, d.value, 2 * kb)))
  {
    hide SetField, ParseField, FirstLine, PartitionNumber, Print, FirstEntry, SetSize;
    var d := FirstEntry(t.entries, DataNumber(layout));
    PrintedPartition(t, DataNumber(layout));
    if d.Some? {
      PrintResized(t, d.value, if kb * 1024 <= U64_MAX then 2 * kb else 0);
    }
  }

  /** Rewriting a printed dump prints the rewritten table: the edits of the text are the edits of the numbers. */
  lemma RewriteOfAPrintedTable(layout: Layout, t: Table, kb: u64)
    requires t.Valid()
    ensures RewriteTable(layout, t, kb).Ok? ==>
              RewriteLines(layout, Print(t), kb) == Ok(Print(RewriteTable(layout, t, kb).value))
    ensures RewriteTable(layout, t, kb).Err? ==>
              RewriteLines(layout, Print(t), kb) == Err(RewriteTable(layout, t, kb).error)
  {
    hide Print, FirstEntry, VerifySectorScale, WellFormed, EditData, RewriteBound;
    PrintedIsWellFormed(t);
    DataOfAPrintedTable(layout, t, kb);
    var d := FirstEntry(t.entries, DataNumber(layout));
    if d.Some? && kb * 1024 <= U64_MAX {
      var resized, start := SetSize(t, d.value, 2 * kb), t.entries[d.value].start;
      GptBoundOfAPrintedTable(resized, start, 2 * kb);
      DosBoundOfAPrintedTable(resized, start, 2 * kb);
      SameFirstEntry(t, d.value, 2 * kb, PARTITION_NUM_EXTENDED);
      if FirstEntry(t.entries, PARTITION_NUM_EXTENDED).Some? {
        ExtendedIsNotData(layout, t, d.value, FirstEntry(t.entries, PARTITION_NUM_EXTENDED).value);
      }
    }
  }

  lemma ExtendedIsNotData(layout: Layout, t: Table, d: nat, x: nat)
    requires FirstEntry(t.entries, DataNumber(layout)) == Some(d)
    requires FirstEntry(t.entries, PARTITION_NUM_EXTENDED) == Some(x)
    ensures d != x
  {
  }

  // ---- tables that meet the premises of the theorems ----

  predicate HoldsData(layout: Layout, e: Entry) {
    !(layout.Dos? && e.number == PARTITION_NUM_EXTENDED)
  }

  predicate Apart(a: Entry, b: Entry) {
    a.start + a.size <= b.start || b.start + b.size <= a.start
  }

  /** On the numbers: no two partitions that hold data overlap, and data, at d, is the last of them. */
  ghost predicate DisjointWithDataLast(layout: Layout, entries: seq<Entry>, d: nat)
    requires d < |entries|
  {
    && (forall i, j :: 0 <= i < j < |entries| && HoldsData(layout, entries[i]) && HoldsData(layout, entries[j]) ==>
          Apart(entries[i], entries[j]))
    && (forall i :: 0 <= i < |entries| && i != d && HoldsData(layout, entries[i]) ==>
          entries[i].start + entries[i].size <= entries[d].start)
  }

  lemma PrintedNumbers(t: Table, i: nat)
    requires t.Valid() && 3 <= i < |Print(t)|
    ensures ParseField(Print(t)[i], START_FIELD) == Some(t.entries[i - 3].start)
    ensures ParseField(Print(t)[i], SIZE_FIELD) == Some(t.entries[i - 3].size)
  {
    var e := t.entries[i - 3];
    var from := |UpToSize(e)| + 6;
    StartOfEntry(e);
    SizeOfEntry(e, from, from + |Decimal(e.size)|);
    hide PrintEntry, ParseField, UpToSize, Decimal;
  }

  /** What the lines of a printed table say, in numbers. */
  ghost predicate SaysTheNumbers(t: Table, lines: seq<string>) {
    && |lines| == 3 + |t.entries|
    && (forall i :: 0 <= i < |lines| ==>
          PartitionNumber(lines[i]) == if i < 3 then None else Some(t.entries[i - 3].number))
    && (forall i :: 3 <= i < |lines| ==> ParseField(lines[i], START_FIELD) == Some(t.entries[i - 3].start))
    && (forall i :: 3 <= i < |lines| ==> ParseField(lines[i], SIZE_FIELD) == Some(t.entries[i - 3].size))
  }

  lemma PrintSaysTheNumbers(t: Table)
    requires t.Valid()
    ensures SaysTheNumbers(t, Print(t))
  {
    hide Print, ParseField, PartitionNumber;
    LengthOfPrint(t);
    forall i | 0 <= i < |Print(t)|
      ensures PartitionNumber(Print(t)[i]) == if i < 3 then None else Some(t.entries[i - 3].number)
      ensures i >= 3 ==> ParseField(Print(t)[i], START_FIELD) == Some(t.entries[i - 3].start)
      ensures i >= 3 ==> ParseField(Print(t)[i], SIZE_FIELD) == Some(t.entries[i - 3].size)
    {
      PrintedLine(t, i);
      if i >= 3 {
        PrintedNumbers(t, i);
      }
    }
  }

  lemma DisjointNumbers(layout: Layout, t: Table, lines: seq<string>, d: nat)
    requires WellFormed(lines) && SaysTheNumbers(t, lines) && d < |t.entries|
    requires DisjointWithDataLast(layout, t.entries, d)
    ensures DisjointPartitions(layout, lines)
  {
    hide ParseField, PartitionNumber, HasNumber, BehindDevice, HasHeader;
    forall i, j | 0 <= i < j < |lines| && IsDataHolder(layout, lines[i]) && IsDataHolder(layout, lines[j])
      ensures End(lines[i]) <= Value(lines[j], START_FIELD) || End(lines[j]) <= Value(lines[i], START_FIELD)
    {
      assert Apart(t.entries[i - 3], t.entries[j - 3]);
    }
  }

  lemma LastNumbers(layout: Layout, t: Table, lines: seq<string>, d: nat)
    requires WellFormed(lines) && SaysTheNumbers(t, lines) && d < |t.entries|
    requires DisjointWithDataLast(layout, t.entries, d)
    ensures DataIsLast(layout, lines, 3 + d)
  {
    hide ParseField, PartitionNumber, HasNumber, BehindDevice, HasHeader, Apart;
    forall i | 0 <= i < |lines| && i != 3 + d && IsDataHolder(layout, lines[i])
      ensures End(lines[i]) <= Value(lines[3 + d], START_FIELD)
    {
      var e := t.entries[i - 3];
      assert HoldsData(layout, e);
    }
  }

  lemma PrintedData(layout: Layout, t: Table, d: nat)
    requires t.Valid() && FirstEntry(t.entries, DataNumber(layout)) == Some(d)
    ensures DataLine(layout, Print(t)) == Some(3 + d)
    ensures 3 + d < |Print(t)| && PartitionNumber(Print(t)[3 + d]).Some?
  {
    hide Print, FirstLine, FirstEntry, PartitionNumber;
    PrintedPartition(t, DataNumber(layout));
  }

  lemma PrintedDisjoint(layout: Layout, t: Table, d: nat)
    requires t.Valid() && FirstEntry(t.entries, DataNumber(layout)) == Some(d)
    requires DisjointWithDataLast(layout, t.entries, d)
    ensures WellFormed(Print(t)) && DisjointPartitions(layout, Print(t))
    ensures DataLine(layout, Print(t)) == Some(3 + d) && DataIsLast(layout, Print(t), 3 + d)
  {
    hide Print, FirstLine, FirstEntry, WellFormed, DisjointPartitions, DataIsLast, SaysTheNumbers, DisjointWithDataLast,
         VerifySectorScale, BoundLine, DataLine, PartitionNumber;
    PrintedIsWellFormed(t);
    PrintedData(layout, t, d);
    PrintSaysTheNumbers(t);
    DisjointNumbers(layout, t, Print(t), d);
    LastNumbers(layout, t, Print(t), d);
  }

  lemma LengthOfPrint(t: Table)
    ensures |Print(t)| == 3 + |t.entries|
  {
  }

  /** For each kind of table one with several partitions, accepted with every data size whose bytes can be counted. */
  lemma ATableOfEachLayout(layout: Layout, kb: u64) returns (t: Table, d: nat)
    requires kb * 1024 <= U64_MAX
    ensures t.Valid() && t.InHalfKb() && |t.entries| >= 3 && RewriteLines(layout, Print(t), kb).Ok?
    ensures WellFormed(Print(t)) && DisjointPartitions(layout, Print(t))
    ensures DataLine(layout, Print(t)) == Some(d) && DataIsLast(layout, Print(t), d)
  {
    hide Print, WellFormed, DisjointPartitions, DataIsLast, DataLine, RewriteLines;
    DevicesOfEachKind();
    var boot := Entry("/dev/sda", 1, 1, 1, "");
    match layout {
      case Gpt =>
        var entries := [boot, Entry("/dev/mmcblk0p", 6, 2, 3, ", type=83"), Entry("/dev/mmcblk0p", 7, 5, 1, "")];
        t := Table("sectors", 512, 99, entries);
        assert FirstEntry(entries, 7) == Some(2) by {
          ThirdEntry(entries, 7);
        }
        d := 2;
      case Dos =>
        var entries := [boot, Entry("/dev/sda", 4, 2, 20, ""), Entry("/dev/sda", 8, 5, 1, ""),
                        Entry("/dev/sda", 5, 3, 2, "")];
        t := Table("sectors", 512, 99, entries);
        assert FirstEntry(entries, 8) == Some(2) by {
          ThirdEntry(entries, 8);
        }
        assert FirstEntry(entries, 4) == Some(1) by {
          SecondEntry(entries, 4);
        }
        d := 2;
    }
    RewriteOfAPrintedTable(layout, t, kb);
    PrintedDisjoint(layout, t, d);
    d := 3 + d;
  }

  lemma DevicesOfEachKind()
    ensures IsDevice("/dev/sda") && IsDevice("/dev/mmcblk0p") && IsUnit("sectors")
  {
  }

  lemma SecondEntry(entries: seq<Entry>, number: nat)
    requires |entries| > 1 && entries[0].number != number == entries[1].number
    ensures FirstEntry(entries, number) == Some(1)
  {
    assert entries[1..][0] == entries[1];
  }

  lemma ThirdEntry(entries: seq<Entry>, number: nat)
    requires |entries| > 2 && entries[0].number != number && entries[1].number != number == entries[2].number
    ensures FirstEntry(entries, number) == Some(2)
  {
    assert entries[1..][0] == entries[1] && entries[1..][1] == entries[2];
    SecondEntry(entries[1..], number);
  }

  // ---- a dump that a second rewrite changes ----

  lemma EntryIsOneLine(e: Entry)
    requires e.Valid() && NoNewline(e.rest)
    ensures NoNewline(PrintEntry(e))
  {
    DigitsAreNot(Decimal(e.number), '\n');
    DigitsAreNot(Decimal(e.start), '\n');
    DigitsAreNot(Decimal(e.size), '\n');
    hide Decimal;
    assert IsWhitespace('\n');
  }

  /** One partition, whose line ends in one carriage return more than the file system wrote. */
  function WithCr(cr: string): Table {
    Table("sectors", 512, 9, [Entry("/dev/sda", 7, 2, 1, "," + cr)])
  }

  lemma EntryWithCr(e: Entry)
    ensures var line := PrintEntry(e.(rest := e.rest + "\r"));
            EndsInCr(line) && StripCr(line) == PrintEntry(e)
  {
    hide Decimal;
    var front := UpToSize(e) + SIZE_FIELD + " " + Decimal(e.size);
    var line := PrintEntry(e.(rest := e.rest + "\r"));
    assert line == front + (e.rest + "\r") == (front + e.rest) + "\r" == PrintEntry(e) + "\r";
    assert line[..|line| - 1] == PrintEntry(e);
  }

  lemma LinesWithCr()
    ensures Lines(Join(Print(WithCr("\r\r"))) + "\n") == Print(WithCr("\r"))
    ensures EndsInCr(Print(WithCr("\r"))[3])
  {
    hide PrintEntry, PrintLastLba, PrintUnit, PrintSectorSize, Lines, Join, IsDevice;
    DevicesOfEachKind();
    var plain := Entry("/dev/sda", 7, 2, 1, ",");
    var once := plain.(rest := plain.rest + "\r");
    var twice := once.(rest := once.rest + "\r");
    assert once == Entry("/dev/sda", 7, 2, 1, ",\r") && twice == Entry("/dev/sda", 7, 2, 1, ",\r\r");
    EntryWithCr(plain);
    EntryWithCr(once);
    EntryIsOneLine(twice);
    HeadersAreOneLine(9);
    var unit, sector := PrintUnit("sectors"), PrintSectorSize(512);
    CrIsStripped(unit, sector, PrintLastLba(9), once, twice);
    assert "," + "\r\r" == twice.rest && "," + "\r" == once.rest;
    assert WithCr("\r\r").entries == [twice] && WithCr("\r").entries == [once];
    assert Print(WithCr("\r\r")) == [unit, sector, PrintLastLba(9), PrintEntry(twice)];
    assert Print(WithCr("\r")) == [unit, sector, PrintLastLba(9), PrintEntry(once)];
  }

  predicate PlainLine(line: string) {
    NoNewline(line) && !EndsInCr(line)
  }

  lemma CrIsStripped(unit: string, sector: string, last: string, once: Entry, twice: Entry)
    requires PlainLine(unit) && PlainLine(sector) && PlainLine(last)
    requires NoNewline(PrintEntry(twice)) && StripCr(PrintEntry(twice)) == PrintEntry(once)
    ensures Lines(Join([unit, sector, last, PrintEntry(twice)]) + "\n") == [unit, sector, last, PrintEntry(once)]
  {
    var lines := [unit, sector, last, PrintEntry(twice)];
    hide PrintEntry, Lines, Join, NoNewline, EndsInCr;
    LinesOfJoin(lines);
  }

  lemma HeadersAreOneLine(lastLba: u64)
    ensures PlainLine(PrintUnit("sectors")) && PlainLine(PrintSectorSize(512)) && PlainLine(PrintLastLba(lastLba))
  {
    UnitIsOneLine();
    NumberedLine(SECTOR_SIZE_FIELD, 512);
    NumberedLine(LAST_LBA_FIELD, lastLba);
  }

  lemma UnitIsOneLine()
    ensures PlainLine(PrintUnit("sectors"))
  {
  }

  lemma NumberedLine(field: string, n: u64)
    requires NoNewline(field)
    ensures PlainLine(field + " " + Decimal(n))
  {
    var digits := Decimal(n);
    DigitsAreNot(digits, '\n');
    DigitsAreNot(digits, '\r');
    hide Decimal;
    var line := field + " " + digits;
    assert line[|line| - 1] == digits[|digits| - 1];
  }

  lemma RewritableWithCr(kb: u64)
    requires kb * 1024 <= U64_MAX
    ensures var t := WithCr("\r"); t.Valid() && |t.entries| == 1 && RewriteTable(Gpt, t, kb).Ok?
  {
    DevicesOfEachKind();
    assert FirstEntry(WithCr("\r").entries, 7) == Some(0);
  }

  /** The second rewrite of this dump drops the carriage return that the first one kept. */
  lemma ASecondRewriteChangesADump(kb: u64) returns (dump: string)
    requires kb * 1024 <= U64_MAX
    ensures WellFormed(Lines(dump)) && RewriteDump(Gpt, dump, kb).Ok?
    ensures var text := RewriteDump(Gpt, dump, kb).value; RewriteDump(Gpt, text, kb) != Ok(text)
  {
    hide Lines, Join, Print, EndsInCr, RewriteLines, WellFormed, RewriteTable, WithCr;
    var t := WithCr("\r");
    dump := Join(Print(WithCr("\r\r"))) + "\n";
    LinesWithCr();
    LengthOfPrint(t);
    RewritableWithCr(kb);
    PrintedIsWellFormed(t);
    RewriteOfAPrintedTable(Gpt, t, kb);
    TextRewriteTwice(Gpt, dump, kb);
  }
}
