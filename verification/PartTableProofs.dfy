/** What a rewrite keeps, what it changes, and that doing it again changes nothing. */
module PartTableProofs {
  import opened Common
  import opened Text
  import opened PartTable

  // ---- a well-formed dump ----

  /** The field has a plain number as its value. */
  predicate HasNumber(line: string, field: string) {
    ParseField(line, field).Some? && DigitRun(line, field).Some?
  }

  /** The field stands behind the device path. */
  predicate BehindDevice(line: string, field: string) {
    var found := Find(line, field);
    found.Some? ==> TokenEnd(line, SkipBlank(line, 0)) <= found.value
  }

  predicate WellFormedPartition(line: string) {
    ParseField(line, START_FIELD).Some? && HasNumber(line, SIZE_FIELD) && BehindDevice(line, SIZE_FIELD)
  }

  ghost predicate WellFormed(lines: seq<string>) {
    && (forall i :: 0 <= i < |lines| ==> CutsBetweenCharacters(lines[i]))
    && (forall i :: 0 <= i < |lines| && PartitionNumber(lines[i]).Some? ==> WellFormedPartition(lines[i]))
    && (forall i :: 0 <= i < |lines| && HasHeader(LAST_LBA_FIELD)(lines[i]) ==> HasNumber(lines[i], LAST_LBA_FIELD))
  }

  function Value(line: string, field: string): u64
    requires ParseField(line, field).Some?
  {
    ParseField(line, field).value
  }

  function DataLine(layout: Layout, lines: seq<string>): (r: Option<nat>)
    ensures r.Some? ==> r.value < |lines| && PartitionNumber(lines[r.value]) == Some(DataNumber(layout))
  {
    FirstLine(lines, IsPartition(DataNumber(layout)))
  }

  // ---- lines that an edit does not turn into other lines ----

  lemma SkipBlankIs(s: string, i: nat, b: nat)
    requires i <= b < |s| && !IsWhitespace(s[b]) && forall j :: i <= j < b ==> IsWhitespace(s[j])
    ensures SkipBlank(s, i) == b
  {
    var k := SkipBlank(s, i);
    assert forall j :: i <= j < k ==> s[j] == s[i..k][j - i];
  }

  lemma TokenEndIs(s: string, i: nat, e: nat)
    requires i <= e < |s| && IsWhitespace(s[e]) && forall j :: i <= j < e ==> !IsWhitespace(s[j])
    ensures TokenEnd(s, i) == e
  {
  }

  /** An edit behind the first word leaves the first word. */
  lemma FirstTokenKept(s: string, t: string, n: nat)
    requires n <= |s| && n <= |t| && s[..n] == t[..n]
    requires TokenEnd(s, SkipBlank(s, 0)) < n && FirstToken(s) != ""
    ensures SkipBlank(t, 0) == SkipBlank(s, 0) && TokenEnd(t, SkipBlank(t, 0)) == TokenEnd(s, SkipBlank(s, 0))
    ensures FirstToken(t) == FirstToken(s)
  {
    var b := SkipBlank(s, 0);
    var e := TokenEnd(s, b);
    assert forall j :: 0 <= j < n ==> t[j] == t[..n][j] == s[..n][j] == s[j];
    assert forall j :: 0 <= j < b ==> s[j] == s[0..b][j];
    SkipBlankIs(t, 0, b);
    TokenEndIs(t, b, e);
    assert t[b..e] == s[b..e];
  }

  lemma PartitionHasToken(line: string)
    requires PartitionNumber(line).Some?
    ensures FirstToken(line) != "" && FirstToken(line)[0] == '/'
  {
    assert DEVICE_LINE_PREFIX <= FirstToken(line);
    assert FirstToken(line)[0] == DEVICE_LINE_PREFIX[0];
  }

  lemma PartitionIsNoHeader(line: string, header: string)
    requires PartitionNumber(line).Some? && header != "" && header[0] != '/'
    ensures !HasHeader(header)(line)
  {
    PartitionHasToken(line);
    var b := SkipBlank(line, 0);
    assert TrimStart(line)[0] == line[b] == FirstToken(line)[0];
  }

  lemma HeaderIsNoDevice(line: string, header: string)
    requires HasHeader(header)(line) && header != "" && header[0] != '/'
    ensures CutsBetweenCharacters(line)
  {
    hide FileName, IsCharBoundary, DigitStart;
    assert TrimStart(line)[0] == header[0];
    assert FirstToken(line) != "" ==> FirstToken(line)[0] == line[SkipBlank(line, 0)] == TrimStart(line)[0];
  }

  /** Setting the size of a well-formed partition line gives a well-formed line of the same partition. */
  lemma SetSizeKeepsPartition(line: string, value: u64)
    requires PartitionNumber(line).Some? && WellFormedPartition(line)
    ensures SetField(line, SIZE_FIELD, value).Some?
    ensures var line' := SetField(line, SIZE_FIELD, value).value;
            && PartitionNumber(line') == PartitionNumber(line)
            && WellFormedPartition(line') && FirstToken(line') == FirstToken(line)
            && ParseField(line', START_FIELD) == ParseField(line, START_FIELD)
            && ParseField(line', SIZE_FIELD) == Some(value)
  {
    hide ParseField, PartitionSuffix, FieldValue;
    var line' := SetField(line, SIZE_FIELD, value).value;
    var (from, to) := DigitRun(line, SIZE_FIELD).value;
    SizeKeepsStart(line, value);
    NumberHasNothingBehind(line, SIZE_FIELD);
    ParseAfterSet(line, SIZE_FIELD, value);
    DigitRunAfterSet(line, SIZE_FIELD, value);
    PartitionHasToken(line);
    assert line'[..from] == line[..from];
    FirstTokenKept(line, line', from);
  }

  /** A field with a digit run that parses has nothing but blanks behind the digits. */
  lemma NumberHasNothingBehind(line: string, field: string)
    requires HasNumber(line, field)
    ensures NothingBehindDigits(line, field)
  {
    hide Find, CommaFrom, TrimEnd, ParseUnsigned, IsWhitespace, IsDigit, DigitRun;
    var (from, to) := DigitRun(line, field).value;
    var tail := line[to..CommaFrom(line, to)];
    FieldValueWithDigits(line, field);
    assert TrimEnd(tail) != [] ==> TrimEnd(tail)[0] == tail[0] == line[to];
    if TrimEnd(tail) != [] {
      DigitsThenOther(line[from..to], TrimEnd(tail));
    }
  }

  // ---- the lines of the rewritten dump ----

  lemma FirstLineUpdate(lines: seq<string>, test: string -> bool, d: nat, line: string)
    requires d < |lines| && test(line) == test(lines[d])
    ensures FirstLine(lines[d := line], test) == FirstLine(lines, test)
  {
    var lines' := lines[d := line];
    match FirstLine(lines, test) {
      case Some(k) => FirstLineIs(lines', test, k);
      case None => assert forall i :: 0 <= i < |lines'| ==> !test(lines'[i]);
    }
  }

  /** Editing a partition line into a line of the same partition moves no line that is looked for. */
  lemma LookupsKept(layout: Layout, lines: seq<string>, d: nat, line: string)
    requires d < |lines|
    requires PartitionNumber(lines[d]).Some? && PartitionNumber(line) == PartitionNumber(lines[d])
    ensures DataLine(layout, lines[d := line]) == DataLine(layout, lines)
    ensures BoundLine(layout, lines[d := line]) == BoundLine(layout, lines)
    ensures VerifySectorScale(lines[d := line]) == VerifySectorScale(lines)
  {
    hide PartitionNumber, FirstLine, TrimStart, FieldValue, ParseField;
    PartitionIsNoHeader(line, UNIT_FIELD);
    PartitionIsNoHeader(lines[d], UNIT_FIELD);
    PartitionIsNoHeader(line, SECTOR_SIZE_FIELD);
    PartitionIsNoHeader(lines[d], SECTOR_SIZE_FIELD);
    PartitionIsNoHeader(line, LAST_LBA_FIELD);
    PartitionIsNoHeader(lines[d], LAST_LBA_FIELD);
    FirstLineUpdate(lines, HasHeader(UNIT_FIELD), d, line);
    FirstLineUpdate(lines, HasHeader(SECTOR_SIZE_FIELD), d, line);
    FirstLineUpdate(lines, HasHeader(LAST_LBA_FIELD), d, line);
    FirstLineUpdate(lines, IsPartition(DataNumber(layout)), d, line);
    FirstLineUpdate(lines, IsPartition(PARTITION_NUM_EXTENDED), d, line);
  }

  /** The values that a rewrite of these lines works with. */
  datatype Plan = Plan(d: nat, o: nat, start: u64, sectors: u64, dataLine: string, boundLine: string)

  ghost predicate IsPlan(layout: Layout, lines: seq<string>, kb: u64, plan: Plan) {
    && VerifySectorScale(lines)
    && DataLine(layout, lines) == Some(plan.d) && BoundLine(layout, lines) == Some(plan.o) && plan.d != plan.o
    && plan.sectors == 2 * kb
    && ParseField(lines[plan.d], START_FIELD) == Some(plan.start)
    && SetField(lines[plan.d], SIZE_FIELD, plan.sectors) == Some(plan.dataLine)
    && EditBound(layout, lines[plan.o], plan.start, plan.sectors) == Some(plan.boundLine)
  }

  lemma BoundIsNotData(layout: Layout, lines: seq<string>, d: nat, o: nat)
    requires DataLine(layout, lines) == Some(d) && BoundLine(layout, lines) == Some(o)
    ensures d != o
  {
    if layout.Gpt? {
      PartitionIsNoHeader(lines[d], LAST_LBA_FIELD);
    }
  }

  /** A rewrite that succeeds edits two different lines, whose places it finds in the original dump. */
  lemma RewriteFollowsPlan(layout: Layout, lines: seq<string>, kb: u64) returns (plan: Plan)
    requires WellFormed(lines) && RewriteLines(layout, lines, kb).Ok?
    ensures IsPlan(layout, lines, kb, plan)
    ensures RewriteLines(layout, lines, kb).value == lines[plan.d := plan.dataLine][plan.o := plan.boundLine]
  {
    hide ParseField, SetField, EditData, VerifySectorScale, EditBound, PartitionNumber, HasNumber, BehindDevice;
    var edit := EditData(layout, lines, kb).value;
    EditDataMeans(layout, lines, kb);
    SetSizeKeepsPartition(lines[edit.d], edit.sectors);
    LookupsKept(layout, lines, edit.d, edit.line);
    var lines' := lines[edit.d := edit.line];
    var o := BoundLine(layout, lines').value;
    BoundIsNotData(layout, lines, edit.d, o);
    assert lines'[o] == lines[o];
    plan := Plan(edit.d, o, edit.start, edit.sectors, edit.line,
                 EditBound(layout, lines[o], edit.start, edit.sectors).value);
  }

  lemma EditDataMeans(layout: Layout, lines: seq<string>, kb: u64)
    ensures EditData(layout, lines, kb).Ok? <==>
            && kb * 1024 <= U64_MAX
            && DataLine(layout, lines).Some?
            && ParseField(lines[DataLine(layout, lines).value], START_FIELD).Some?
            && SetField(lines[DataLine(layout, lines).value], SIZE_FIELD, 2 * kb).Some?
    ensures EditData(layout, lines, kb).Ok? ==>
              var edit := EditData(layout, lines, kb).value;
              && DataLine(layout, lines) == Some(edit.d) && edit.sectors == 2 * kb
              && ParseField(lines[edit.d], START_FIELD) == Some(edit.start)
              && SetField(lines[edit.d], SIZE_FIELD, edit.sectors) == Some(edit.line)
  {
    hide ParseField, SetField, FirstLine, PartitionNumber;
  }

  /** The end of the table, as its bound line states it: the first sector that data must not use. */
  function TableEnd(layout: Layout, line: string): Option<int> {
    if layout.Gpt? then
      if ParseField(line, LAST_LBA_FIELD).None? then None else Some(Value(line, LAST_LBA_FIELD) + 1)
    else if ParseField(line, START_FIELD).None? || ParseField(line, SIZE_FIELD).None? then None
    else Some(Value(line, START_FIELD) + Value(line, SIZE_FIELD))
  }

  /** An edit behind the header leaves the header at the start of the line. */
  lemma HeaderKept(line: string, line': string, from: nat)
    requires HasHeader(LAST_LBA_FIELD)(line)
    requires Find(line, LAST_LBA_FIELD).Some? && Find(line, LAST_LBA_FIELD).value + |LAST_LBA_FIELD| <= from
    requires from <= |line| && from <= |line'| && line'[..from] == line[..from]
    ensures HasHeader(LAST_LBA_FIELD)(line')
  {
    var b := SkipBlank(line, 0);
    var k := Find(line, LAST_LBA_FIELD).value;
    var n := |LAST_LBA_FIELD|;
    assert |TrimStart(line)| == |line| - b;
    TrimmedFront(line, b, n);
    assert OccursAt(line, LAST_LBA_FIELD, b);
    OccursChars(line, LAST_LBA_FIELD, k);
    assert line[k] == 'l' && !IsWhitespace('l');
    assert forall j :: 0 <= j < b ==> line[j] == line[0..b][j];
    assert k == b;
    assert forall j :: 0 <= j < from ==> line'[j] == line'[..from][j] == line[..from][j] == line[j];
    SkipBlankIs(line', 0, b);
    SameSlice(line, line', from, b, b + n);
    TrimmedFront(line', b, n);
  }

  lemma TrimmedFront(s: string, b: nat, n: nat)
    requires SkipBlank(s, 0) == b && b + n <= |s|
    ensures n <= |TrimStart(s)| && TrimStart(s)[..n] == s[b..b + n]
  {
    SliceOfTail(s, b, n);
  }

  lemma SliceOfTail(s: string, b: nat, n: nat)
    requires b + n <= |s|
    ensures s[b..][..n] == s[b..b + n]
  {
    var tail := s[b..];
    forall j | 0 <= j < n
      ensures tail[..n][j] == s[b..b + n][j]
    {
      assert tail[j] == s[b + j];
    }
  }

  lemma SameSlice(s: string, t: string, n: nat, from: nat, to: nat)
    requires n <= |s| && n <= |t| && s[..n] == t[..n] && from <= to <= n
    ensures s[from..to] == t[from..to]
  {
    var a, b := s[from..to], t[from..to];
    forall i | 0 <= i < |a|
      ensures a[i] == b[i]
    {
      assert a[i] == s[from + i] == s[..n][from + i];
      assert b[i] == t[from + i] == t[..n][from + i];
    }
  }

  /** The edited bound line ends the table with the data partition, and is again a line of the same kind. */
  lemma GptBoundEndsWithData(line: string, start: u64, sectors: u64)
    requires HasHeader(LAST_LBA_FIELD)(line) && HasNumber(line, LAST_LBA_FIELD)
    requires EditBound(Gpt, line, start, sectors).Some?
    ensures var line' := EditBound(Gpt, line, start, sectors).value;
            && TableEnd(Gpt, line') == Some(start + sectors)
            && HasHeader(LAST_LBA_FIELD)(line') && HasNumber(line', LAST_LBA_FIELD)
            && PartitionNumber(line).None? && PartitionNumber(line').None? && CutsBetweenCharacters(line')
            && EditBound(Gpt, line', start, sectors) == Some(line')
  {
    hide ParseField, FieldValue, ParseUnsigned, Find, TrimStart, DigitRun, Decimal, PartitionNumber,
         NothingBehindDigits, AllDigits, Blank, IsDigit, CutsBetweenCharacters;
    var last := start + sectors - 1;
    var line' := SetField(line, LAST_LBA_FIELD, last).value;
    var from := DigitRun(line, LAST_LBA_FIELD).value.0;
    NumberHasNothingBehind(line, LAST_LBA_FIELD);
    ParseAfterSet(line, LAST_LBA_FIELD, last);
    DigitRunAfterSet(line, LAST_LBA_FIELD, last);
    SetOverwrites(line, LAST_LBA_FIELD, last, last);
    assert line'[..from] == line[..from];
    HeaderKept(line, line', from);
    if PartitionNumber(line).Some? {
      PartitionIsNoHeader(line, LAST_LBA_FIELD);
    }
    if PartitionNumber(line').Some? {
      PartitionIsNoHeader(line', LAST_LBA_FIELD);
    }
    HeaderIsNoDevice(line', LAST_LBA_FIELD);
  }

  lemma DosBoundEndsWithData(line: string, start: u64, sectors: u64)
    requires PartitionNumber(line).Some? && WellFormedPartition(line)
    requires EditBound(Dos, line, start, sectors).Some?
    ensures var line' := EditBound(Dos, line, start, sectors).value;
            && TableEnd(Dos, line') == Some(start + sectors)
            && PartitionNumber(line') == PartitionNumber(line) && WellFormedPartition(line')
            && FirstToken(line') == FirstToken(line)
            && Value(line', START_FIELD) == Value(line, START_FIELD)
            && EditBound(Dos, line', start, sectors) == Some(line')
  {
    hide ParseField, SetField, PartitionNumber;
    var size := start - Value(line, START_FIELD) + sectors;
    SetSizeKeepsPartition(line, size);
    SetOverwrites(line, SIZE_FIELD, size, size);
  }

  // ---- the theorems ----

  /** What a successful rewrite does to the lines of a dump. */
  ghost predicate Rewritten(layout: Layout, lines: seq<string>, kb: u64, out: seq<string>, d: nat, o: nat) {
    && |out| == |lines| && d < |lines| && o < |lines| && d != o
    && (forall i :: 0 <= i < |lines| && i != d && i != o ==> out[i] == lines[i])
    && (forall i :: 0 <= i < |lines| ==> PartitionNumber(out[i]) == PartitionNumber(lines[i]))
    && (forall i :: 0 <= i < |lines| && PartitionNumber(lines[i]).Some? ==>
          ParseField(out[i], START_FIELD) == ParseField(lines[i], START_FIELD))
    && DataLine(layout, lines) == Some(d) && BoundLine(layout, lines) == Some(o)
    && ParseField(out[d], START_FIELD).Some? && ParseField(out[d], SIZE_FIELD) == Some(2 * kb)
    && TableEnd(layout, out[o]) == Some(Value(out[d], START_FIELD) + 2 * kb)
  }

  /** A plan's bound line, whatever the layout. */
  lemma BoundLineEndsWithData(layout: Layout, lines: seq<string>, kb: u64, plan: Plan)
    requires WellFormed(lines) && IsPlan(layout, lines, kb, plan)
    ensures TableEnd(layout, plan.boundLine) == Some(plan.start + plan.sectors)
    ensures PartitionNumber(plan.boundLine) == PartitionNumber(lines[plan.o])
    ensures PartitionNumber(lines[plan.o]).Some? ==>
              && WellFormedPartition(plan.boundLine)
              && ParseField(plan.boundLine, START_FIELD) == ParseField(lines[plan.o], START_FIELD)
    ensures HasHeader(LAST_LBA_FIELD)(plan.boundLine) ==> HasNumber(plan.boundLine, LAST_LBA_FIELD)
    ensures layout.Gpt? ==> HasHeader(LAST_LBA_FIELD)(plan.boundLine) && PartitionNumber(lines[plan.o]).None?
    ensures layout.Dos? ==> PartitionNumber(lines[plan.o]).Some?
    ensures EditBound(layout, plan.boundLine, plan.start, plan.sectors) == Some(plan.boundLine)
    ensures CutsBetweenCharacters(plan.boundLine)
  {
    hide FirstToken, FileName, IsCharBoundary, DigitStart;
    hide ParseField, PartitionNumber, SetField, TrimStart, FirstLine, VerifySectorScale, EditBound, TableEnd,
         HasNumber, BehindDevice;
    match layout
    case Gpt => GptBoundEndsWithData(lines[plan.o], plan.start, plan.sectors);
    case Dos =>
      DosBoundEndsWithData(lines[plan.o], plan.start, plan.sectors);
      PartitionIsNoHeader(plan.boundLine, LAST_LBA_FIELD);
  }

  /**
   A successful rewrite of a well-formed dump keeps every line but two and every start, gives
   data its shipped size and makes the table end with it.
   */
  lemma RewriteEndsTheTableWithData(layout: Layout, lines: seq<string>, kb: u64) returns (d: nat, o: nat)
    requires WellFormed(lines) && RewriteLines(layout, lines, kb).Ok?
    ensures Rewritten(layout, lines, kb, RewriteLines(layout, lines, kb).value, d, o)
    ensures WellFormed(RewriteLines(layout, lines, kb).value)
  {
    hide ParseField, PartitionNumber, SetField, DigitRun, BehindDevice, HasNumber, TableEnd, EditBound, FirstLine,
         VerifySectorScale, RewriteLines, TrimStart, FirstToken, FileName, IsCharBoundary, DigitStart;
    var out := RewriteLines(layout, lines, kb).value;
    var plan := RewriteFollowsPlan(layout, lines, kb);
    d, o := plan.d, plan.o;
    SetSizeKeepsPartition(lines[d], plan.sectors);
    BoundLineEndsWithData(layout, lines, kb, plan);
    PartitionIsNoHeader(plan.dataLine, LAST_LBA_FIELD);
  }

  /** Rewriting the lines again changes nothing. */
  lemma RewriteTwiceIsRewriteOnce(layout: Layout, lines: seq<string>, kb: u64)
    requires WellFormed(lines) && RewriteLines(layout, lines, kb).Ok?
    ensures RewriteLines(layout, RewriteLines(layout, lines, kb).value, kb) == RewriteLines(layout, lines, kb)
  {
    hide ParseField, PartitionNumber, SetField, TableEnd, EditBound, FirstLine, VerifySectorScale, TrimStart,
         EditData, DigitRun, BehindDevice;
    var plan := RewriteFollowsPlan(layout, lines, kb);
    var lines1 := lines[plan.d := plan.dataLine];
    var out := lines1[plan.o := plan.boundLine];
    SetSizeKeepsPartition(lines[plan.d], plan.sectors);
    SetOverwrites(lines[plan.d], SIZE_FIELD, plan.sectors, plan.sectors);
    BoundLineEndsWithData(layout, lines, kb, plan);
    LookupsKept(layout, lines, plan.d, plan.dataLine);
    BoundLookupsKept(layout, lines1, plan.o, plan.boundLine);
    EditDataMeans(layout, lines, kb);
    EditDataMeans(layout, out, kb);
    assert out[plan.d := plan.dataLine] == out;
    assert out[plan.o := plan.boundLine] == out;
  }

  /** Replacing the bound line by its edit moves no line that is looked for, either. */
  lemma BoundLookupsKept(layout: Layout, lines: seq<string>, o: nat, line: string)
    requires o < |lines| && PartitionNumber(line) == PartitionNumber(lines[o])
    requires PartitionNumber(line).None? ==> HasHeader(LAST_LBA_FIELD)(line) && HasHeader(LAST_LBA_FIELD)(lines[o])
    ensures DataLine(layout, lines[o := line]) == DataLine(layout, lines)
    ensures BoundLine(layout, lines[o := line]) == BoundLine(layout, lines)
    ensures VerifySectorScale(lines[o := line]) == VerifySectorScale(lines)
  {
    if PartitionNumber(line).Some? {
      LookupsKept(layout, lines, o, line);
    } else {
      HeaderLookupsKept(layout, lines, o, line);
    }
  }

  lemma HeaderLookupsKept(layout: Layout, lines: seq<string>, o: nat, line: string)
    requires o < |lines| && PartitionNumber(line).None? && PartitionNumber(lines[o]).None?
    requires HasHeader(LAST_LBA_FIELD)(line) && HasHeader(LAST_LBA_FIELD)(lines[o])
    ensures DataLine(layout, lines[o := line]) == DataLine(layout, lines)
    ensures BoundLine(layout, lines[o := line]) == BoundLine(layout, lines)
    ensures VerifySectorScale(lines[o := line]) == VerifySectorScale(lines)
  {
    hide PartitionNumber, FirstLine, FieldValue, ParseField, TrimStart;
    LastLbaIsNoOtherHeader(line);
    LastLbaIsNoOtherHeader(lines[o]);
    FirstLineUpdate(lines, HasHeader(UNIT_FIELD), o, line);
    FirstLineUpdate(lines, HasHeader(SECTOR_SIZE_FIELD), o, line);
    FirstLineUpdate(lines, HasHeader(LAST_LBA_FIELD), o, line);
    FirstLineUpdate(lines, IsPartition(DataNumber(layout)), o, line);
    FirstLineUpdate(lines, IsPartition(PARTITION_NUM_EXTENDED), o, line);
  }

  lemma LastLbaIsNoOtherHeader(line: string)
    requires HasHeader(LAST_LBA_FIELD)(line)
    ensures !HasHeader(UNIT_FIELD)(line) && !HasHeader(SECTOR_SIZE_FIELD)(line)
  {
    assert TrimStart(line)[0] == LAST_LBA_FIELD[0];
  }

  /** The arithmetic fits: an overflow anywhere, or a container behind its data, is an error. */
  predicate ValuesFit(layout: Layout, line: string, start: u64, kb: u64) {
    && kb * 1024 <= U64_MAX
    && match layout
       case Gpt => 0 < start + 2 * kb <= U64_MAX
       case Dos =>
         && ParseField(line, START_FIELD).Some?
         && Value(line, START_FIELD) <= start
         && start - Value(line, START_FIELD) + 2 * kb <= U64_MAX
  }

  /** The data line of a well-formed dump can always be edited. */
  lemma DataCanBeEdited(layout: Layout, lines: seq<string>, d: nat, sectors: u64)
    requires WellFormed(lines) && DataLine(layout, lines) == Some(d)
    ensures ParseField(lines[d], START_FIELD).Some? && SetField(lines[d], SIZE_FIELD, sectors).Some?
  {
    hide ParseField, SetField, PartitionNumber, FirstLine, HasNumber, BehindDevice, CutsBetweenCharacters, FirstToken;
    SetSizeKeepsPartition(lines[d], sectors);
  }

  /** That leaves the line that ends the table where it is and as it is. */
  lemma BoundStaysInPlace(layout: Layout, lines: seq<string>, d: nat, sectors: u64, line: string)
    requires WellFormed(lines) && DataLine(layout, lines) == Some(d)
    requires SetField(lines[d], SIZE_FIELD, sectors) == Some(line)
    ensures BoundLine(layout, lines[d := line]) == BoundLine(layout, lines)
    ensures BoundLine(layout, lines) != Some(d)
  {
    hide ParseField, SetField, PartitionNumber, FirstLine, TrimStart, HasNumber, BehindDevice, CutsBetweenCharacters,
         FirstToken;
    SetSizeKeepsPartition(lines[d], sectors);
    LookupsKept(layout, lines, d, line);
    if BoundLine(layout, lines) == Some(d) {
      BoundIsNotData(layout, lines, d, d);
    }
  }

  lemma TooManyBytesNeverFit(layout: Layout, kb: u64)
    requires kb * 1024 > U64_MAX
    ensures forall line: string, start: u64 :: !ValuesFit(layout, line, start, kb)
  {
  }

  /** Exactly which well-formed dumps are accepted. */
  lemma AcceptedDumps(layout: Layout, lines: seq<string>, kb: u64)
    requires WellFormed(lines)
    ensures RewriteLines(layout, lines, kb).Ok? <==>
            && VerifySectorScale(lines)
            && DataLine(layout, lines).Some? && BoundLine(layout, lines).Some?
            && ValuesFit(layout, lines[BoundLine(layout, lines).value],
                         Value(lines[DataLine(layout, lines).value], START_FIELD), kb)
  {
    hide WellFormed, ParseField, SetField, DataLine, BoundLine, VerifySectorScale, EditData, EditBound, ValuesFit;
    EditDataMeans(layout, lines, kb);
    if kb * 1024 > U64_MAX {
      TooManyBytesNeverFit(layout, kb);
    } else if DataLine(layout, lines).Some? {
      var d := DataLine(layout, lines).value;
      DataCanBeEdited(layout, lines, d, 2 * kb);
      BoundStaysInPlace(layout, lines, d, 2 * kb, SetField(lines[d], SIZE_FIELD, 2 * kb).value);
      if BoundLine(layout, lines).Some? {
        EditBoundMeans(layout, lines, BoundLine(layout, lines).value, Value(lines[d], START_FIELD), kb);
      }
    }
  }

  lemma EditBoundMeans(layout: Layout, lines: seq<string>, o: nat, start: u64, kb: u64)
    requires WellFormed(lines) && BoundLine(layout, lines) == Some(o) && kb * 1024 <= U64_MAX
    ensures EditBound(layout, lines[o], start, 2 * kb).Some? <==> ValuesFit(layout, lines[o], start, kb)
  {
    hide ParseField, PartitionNumber, FirstLine, TrimStart;
    if layout.Dos? {
      assert WellFormedPartition(lines[o]);
    } else {
      assert HasNumber(lines[o], LAST_LBA_FIELD);
    }
  }

  /** In an accepted dump the size of data, times the sector size that the dump declares, is the size it shall have. */
  lemma DataGetsItsBytes(layout: Layout, lines: seq<string>, kb: u64)
    requires RewriteLines(layout, lines, kb).Ok?
    ensures var size := FirstLine(lines, HasHeader("sector-size:"));
            && size.Some? && ParseField(lines[size.value], "sector-size:").Some?
            && 2 * kb * ParseField(lines[size.value], "sector-size:").value == kb * 1024
    ensures var unit := FirstLine(lines, HasHeader("unit:"));
            unit.Some? && FieldValue(lines[unit.value], "unit:") == Some("sectors")
  {
    hide FirstLine, ParseField, FieldValue, EditData, RewriteBound;
  }

  // ---- the partitions of the table ----

  /** A partition that holds data itself: any but the extended container of a DOS table. */
  predicate IsDataHolder(layout: Layout, line: string) {
    PartitionNumber(line).Some? && !(layout.Dos? && PartitionNumber(line) == Some(PARTITION_NUM_EXTENDED))
  }

  function End(line: string): int
    requires WellFormedPartition(line)
  {
    Value(line, START_FIELD) + Value(line, SIZE_FIELD)
  }

  ghost predicate DisjointPartitions(layout: Layout, lines: seq<string>)
    requires WellFormed(lines)
  {
    forall i, j :: 0 <= i < j < |lines| && IsDataHolder(layout, lines[i]) && IsDataHolder(layout, lines[j]) ==>
      End(lines[i]) <= Value(lines[j], START_FIELD) || End(lines[j]) <= Value(lines[i], START_FIELD)
  }

  ghost predicate DataIsLast(layout: Layout, lines: seq<string>, d: nat)
    requires WellFormed(lines) && d < |lines| && PartitionNumber(lines[d]).Some?
  {
    forall i :: 0 <= i < |lines| && i != d && IsDataHolder(layout, lines[i]) ==>
                  End(lines[i]) <= Value(lines[d], START_FIELD)
  }

  /** With data last, whatever its new size: nothing overlaps and everything ends inside the table. */
  lemma PartitionsStayDisjoint(layout: Layout, lines: seq<string>, kb: u64) returns (d: nat, o: nat)
    requires WellFormed(lines) && RewriteLines(layout, lines, kb).Ok?
    requires DisjointPartitions(layout, lines)
    requires DataIsLast(layout, lines, DataLine(layout, lines).value)
    ensures var out := RewriteLines(layout, lines, kb).value;
            && Rewritten(layout, lines, kb, out, d, o) && WellFormed(out)
            && DisjointPartitions(layout, out) && DataIsLast(layout, out, d)
            && (forall i :: 0 <= i < |out| && IsDataHolder(layout, out[i]) ==>
                  End(out[i]) <= TableEnd(layout, out[o]).value)
  {
    hide ParseField, PartitionNumber, SetField, TableEnd, FirstLine, VerifySectorScale, RewriteLines, TrimStart,
         DigitRun, BehindDevice, HasNumber, CutsBetweenCharacters;
    d, o := RewriteEndsTheTableWithData(layout, lines, kb);
    var out := RewriteLines(layout, lines, kb).value;
    BoundHoldsNoData(layout, lines, o);
    assert IsDataHolder(layout, lines[d]);
    forall i | 0 <= i < |out| && IsDataHolder(layout, out[i]) && i != d
      ensures out[i] == lines[i] && End(out[i]) <= Value(out[d], START_FIELD)
    {
      assert IsDataHolder(layout, lines[i]);
    }
  }

  lemma BoundHoldsNoData(layout: Layout, lines: seq<string>, o: nat)
    requires BoundLine(layout, lines) == Some(o)
    ensures !IsDataHolder(layout, lines[o])
  {
    if layout.Gpt? && PartitionNumber(lines[o]).Some? {
      PartitionIsNoHeader(lines[o], LAST_LBA_FIELD);
    }
  }

  // ---- the text of the dump ----

  /** An edit keeps the end of the line, so it keeps a carriage return there, and it adds none. */
  lemma SetKeepsCr(line: string, field: string, value: u64)
    requires SetField(line, field, value).Some?
    ensures EndsInCr(SetField(line, field, value).value) <==> EndsInCr(line)
    ensures NoNewline(line) ==> NoNewline(SetField(line, field, value).value)
    ensures SetField(line, field, value).value != line + "\r"
  {
    hide DigitRun, DigitsValue;
    var (from, to) := DigitRun(line, field).value;
    var digits, tail := Decimal(value), line[to..];
    var line' := line[..from] + digits + tail;
    assert IsDigit(digits[|digits| - 1]);
    assert IsDigit(line[to - 1]) by {
      assert line[to - 1] == line[from..to][to - 1 - from];
    }
    assert tail != [] ==> line[|line| - 1] == tail[|tail| - 1] == line'[|line'| - 1];
    assert tail == [] ==> line[|line| - 1] == line[to - 1] && line'[|line'| - 1] == digits[|digits| - 1];
    assert to < |line| ==> (line + "\r")[to] == line[to];
    assert |digits| > to - from ==> line'[to] == digits[to - from];
  }

  /** Splitting the rewritten text again gives the rewritten lines, less their carriage returns. */
  lemma LinesOfRewrittenText(layout: Layout, dump: string, kb: u64)
    requires WellFormed(Lines(dump)) && RewriteLines(layout, Lines(dump), kb).Ok?
    ensures var out := RewriteLines(layout, Lines(dump), kb).value;
            && out != [] && |out| == |Lines(dump)|
            && (forall i :: 0 <= i < |out| ==> NoNewline(out[i]) && (EndsInCr(out[i]) <==> EndsInCr(Lines(dump)[i])))
            && Lines(Join(out) + "\n") == StripAll(out)
  {
    hide ParseField, PartitionNumber, SetField, FirstLine, VerifySectorScale, TrimStart, DigitRun,
         BehindDevice, Lines, NoNewline, EndsInCr, EditBound;
    var lines := Lines(dump);
    var out := RewriteLines(layout, lines, kb).value;
    var plan := RewriteFollowsPlan(layout, lines, kb);
    SetKeepsCr(lines[plan.d], SIZE_FIELD, plan.sectors);
    EditBoundKeepsCr(layout, lines[plan.o], plan.start, plan.sectors);
    forall i | 0 <= i < |out|
      ensures NoNewline(out[i]) && (EndsInCr(out[i]) <==> EndsInCr(lines[i]))
    {
      assert NoNewline(lines[i]);
    }
    LinesOfJoin(out);
  }

  lemma EditBoundKeepsCr(layout: Layout, line: string, start: u64, sectors: u64)
    requires EditBound(layout, line, start, sectors).Some?
    ensures var line' := EditBound(layout, line, start, sectors).value;
            && (EndsInCr(line') <==> EndsInCr(line)) && (NoNewline(line) ==> NoNewline(line'))
            && line' != line + "\r"
  {
    hide SetField, ParseField;
    match layout
    case Gpt => SetKeepsCr(line, LAST_LBA_FIELD, start + sectors - 1);
    case Dos => SetKeepsCr(line, SIZE_FIELD, start - Value(line, START_FIELD) + sectors);
  }

  /** Setting the size of a partition line does not make a header out of it, well-formed or not. */
  lemma EditedPartitionIsNoHeader(line: string, value: u64)
    requires PartitionNumber(line).Some? && SetField(line, SIZE_FIELD, value).Some?
    ensures !HasHeader(LAST_LBA_FIELD)(SetField(line, SIZE_FIELD, value).value)
  {
    hide PartitionSuffix, Decimal;
    var line' := SetField(line, SIZE_FIELD, value).value;
    var from := DigitRun(line, SIZE_FIELD).value.0;
    var k := Find(line, SIZE_FIELD).value;
    var b := SkipBlank(line, 0);
    PartitionHasToken(line);
    OccursChars(line, SIZE_FIELD, k);
    assert line[b] == FirstToken(line)[0] == '/' && line[k] == 's';
    assert forall j :: 0 <= j < b ==> line[j] == line[0..b][j];
    assert !IsWhitespace('s') && k >= b;
    assert line'[..from] == line[..from];
    assert forall j :: 0 <= j < from ==> line'[j] == line'[..from][j] == line[..from][j] == line[j];
    SkipBlankIs(line', 0, b);
    assert TrimStart(line')[0] == '/' && LAST_LBA_FIELD[0] == 'l';
  }

  /** The two edits of a rewrite, whether the dump is well-formed or not. */
  lemma EditsOfRewrite(layout: Layout, lines: seq<string>, kb: u64) returns (d: nat, o: nat)
    requires RewriteLines(layout, lines, kb).Ok?
    ensures var out := RewriteLines(layout, lines, kb).value;
            && |out| == |lines| && d < |lines| && o < |lines|
            && (forall i :: 0 <= i < |lines| && i != d && i != o ==> out[i] == lines[i])
            && (d != o ==> exists v: u64 :: SetField(lines[d], SIZE_FIELD, v) == Some(out[d]))
            && ((exists v: u64 :: SetField(lines[o], SIZE_FIELD, v) == Some(out[o]))
                || (exists v: u64 :: SetField(lines[o], LAST_LBA_FIELD, v) == Some(out[o])))
  {
    hide ParseField, SetField, FirstLine, VerifySectorScale, EditData, PartitionNumber, TrimStart;
    EditDataMeans(layout, lines, kb);
    var edit := EditData(layout, lines, kb).value;
    var lines1 := lines[edit.d := edit.line];
    d, o := edit.d, BoundLine(layout, lines1).value;
    if layout.Gpt? {
      EditedPartitionIsNoHeader(lines[d], edit.sectors);
      assert SetField(lines[o], LAST_LBA_FIELD, edit.start + edit.sectors - 1).Some?;
    } else {
      var size := edit.start - Value(lines1[o], START_FIELD) + edit.sectors;
      if d == o {
        SetOverwrites(lines[d], SIZE_FIELD, edit.sectors, size);
      }
      assert SetField(lines[o], SIZE_FIELD, size).Some?;
    }
  }

  /** Up to `from` and behind the digits at `from` the lines are the same. */
  ghost predicate OtherDigitsAt(a: string, b: string, from: nat, to: nat, to': nat) {
    && from < to <= |a| && from < to' <= |b|
    && a[..from] == b[..from] && a[to..] == b[to'..]
    && AllDigits(a[from..to]) && AllDigits(b[from..to'])
  }

  /** The lines differ in one run of digits at most. */
  ghost predicate OtherNumber(a: string, b: string) {
    exists from, to, to' :: OtherDigitsAt(a, b, from, to, to')
  }

  lemma SetChangesOneNumber(line: string, field: string, value: u64)
    requires SetField(line, field, value).Some?
    ensures OtherNumber(line, SetField(line, field, value).value)
  {
    hide DigitRun, Decimal, DigitsValue;
    var (from, to) := DigitRun(line, field).value;
    var line' := SetField(line, field, value).value;
    var to' := from + |Decimal(value)|;
    assert line'[..from] == line[..from] && line'[from..to'] == Decimal(value) && line'[to'..] == line[to..];
    assert OtherDigitsAt(line, line', from, to, to');
  }

  /** Identities survive: whatever the dump, two lines are edited at most, and in each of them one number. */
  lemma RewriteChangesTwoNumbers(layout: Layout, lines: seq<string>, kb: u64) returns (d: nat, o: nat)
    requires RewriteLines(layout, lines, kb).Ok?
    ensures var out := RewriteLines(layout, lines, kb).value;
            && |out| == |lines| && d < |lines| && o < |lines|
            && (forall i :: 0 <= i < |lines| && i != d && i != o ==> out[i] == lines[i])
            && OtherNumber(lines[d], out[d]) && OtherNumber(lines[o], out[o])
  {
    hide SetField, RewriteLines, OtherNumber;
    var out := RewriteLines(layout, lines, kb).value;
    d, o := EditsOfRewrite(layout, lines, kb);
    if v: u64 :| SetField(lines[o], SIZE_FIELD, v) == Some(out[o]) {
      SetChangesOneNumber(lines[o], SIZE_FIELD, v);
    } else {
      var v: u64 :| SetField(lines[o], LAST_LBA_FIELD, v) == Some(out[o]);
      SetChangesOneNumber(lines[o], LAST_LBA_FIELD, v);
    }
    if d != o {
      var v: u64 :| SetField(lines[d], SIZE_FIELD, v) == Some(out[d]);
      SetChangesOneNumber(lines[d], SIZE_FIELD, v);
    }
  }

  /** No rewrite turns a line that lost its carriage return into the line that still had it. */
  lemma RewriteAddsNoCr(layout: Layout, lines: seq<string>, kb: u64, i: nat)
    requires RewriteLines(layout, lines, kb).Ok? && i < |lines|
    ensures var out := RewriteLines(layout, lines, kb).value;
            |out| == |lines| && out[i] != lines[i] + "\r" && (NoNewline(lines[i]) ==> NoNewline(out[i]))
  {
    hide SetField, RewriteLines, NoNewline;
    var out := RewriteLines(layout, lines, kb).value;
    var d, o := EditsOfRewrite(layout, lines, kb);
    if v: u64 :| SetField(lines[i], SIZE_FIELD, v) == Some(out[i]) {
      SetKeepsCr(lines[i], SIZE_FIELD, v);
    } else if v: u64 :| SetField(lines[i], LAST_LBA_FIELD, v) == Some(out[i]) {
      SetKeepsCr(lines[i], LAST_LBA_FIELD, v);
    } else {
      assert out[i] == lines[i];
    }
  }

  /**
   Rewriting the text again changes nothing, except that it drops carriage returns: it is the
   identity exactly when no line of the dump ends in one.
   */
  lemma TextRewriteTwice(layout: Layout, dump: string, kb: u64)
    requires WellFormed(Lines(dump)) && RewriteDump(layout, dump, kb).Ok?
    ensures var text := RewriteDump(layout, dump, kb).value;
            RewriteDump(layout, text, kb) == Ok(text)
            <==> forall i :: 0 <= i < |Lines(dump)| ==> !EndsInCr(Lines(dump)[i])
  {
    hide RewriteLines, Lines, Join, EndsInCr, NoNewline;
    var out := RewriteLines(layout, Lines(dump), kb).value;
    var text := Join(out) + "\n";
    LinesOfRewrittenText(layout, dump, kb);
    if forall i :: 0 <= i < |out| ==> !EndsInCr(out[i]) {
      assert StripAll(out) == out;
      RewriteTwiceIsRewriteOnce(layout, Lines(dump), kb);
    } else {
      var i :| 0 <= i < |out| && EndsInCr(out[i]);
      if RewriteDump(layout, text, kb) == Ok(text) {
        SecondRewriteDropsCr(layout, out, kb, i);
      }
    }
  }

  lemma SecondRewriteDropsCr(layout: Layout, out: seq<string>, kb: u64, i: nat)
    requires i < |out| && EndsInCr(out[i]) && forall j :: 0 <= j < |out| ==> NoNewline(out[j])
    requires RewriteLines(layout, StripAll(out), kb).Ok?
    ensures Join(RewriteLines(layout, StripAll(out), kb).value) + "\n" != Join(out) + "\n"
  {
    hide RewriteLines, Join;
    var stripped := StripAll(out);
    var again := RewriteLines(layout, stripped, kb).value;
    forall j | 0 <= j < |out|
      ensures |again| == |out| && NoNewline(again[j])
    {
      RewriteAddsNoCr(layout, stripped, kb, j);
    }
    RewriteAddsNoCr(layout, stripped, kb, i);
    assert out[i] == stripped[i] + "\r";
    var a, b := Join(again), Join(out);
    assert (a + "\n")[..|a + "\n"| - 1] == a && (b + "\n")[..|b + "\n"| - 1] == b;
    if a == b {
      JoinIsInjective(again, out);
    }
  }
}
