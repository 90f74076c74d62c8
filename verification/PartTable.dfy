/** Rewriting an `sfdisk -d` dump so that the data partition gets its shipped size. */
module PartTable {
  import opened Common
  import opened Text

  datatype Layout = Gpt | Dos

  datatype DumpError = MalformedDump | InvalidDataSize

  const SECTOR_SIZE: u64 := 512

  const UNIT_FIELD := "unit:"
  const SECTORS := "sectors"
  const SECTOR_SIZE_FIELD := "sector-size:"
  const LAST_LBA_FIELD := "last-lba:"
  const DEVICE_LINE_PREFIX := "/dev/"
  const START_FIELD := "start="
  const SIZE_FIELD := "size="

  const PARTITION_NUM_EXTENDED: nat := 4

  function DataNumber(layout: Layout): nat {
    if layout.Gpt? then 7 else 8
  }

  // ---- fields of a line ----

  /** The value of `field`: the text up to the next comma, without blank ends. */
  function FieldValue(line: string, field: string): Option<string> {
    match Find(line, field)
    case None => None
    case Some(k) => Some(Trim(line[k + |field|..CommaFrom(line, k + |field|)]))
  }

  function ParseField(line: string, field: string): Option<u64> {
    match FieldValue(line, field)
    case None => None
    case Some(v) => ParseUnsigned(v, U64_MAX)
  }

  /** The digit run that SetField replaces: behind the field and any blanks. */
  function DigitRun(line: string, field: string): (r: Option<(nat, nat)>)
    ensures r.Some? ==>
              && Find(line, field).Some?
              && Find(line, field).value + |field| <= r.value.0 < r.value.1 <= |line|
              && Blank(line[Find(line, field).value + |field|..r.value.0])
              && AllDigits(line[r.value.0..r.value.1])
              && (r.value.1 < |line| ==> !IsDigit(line[r.value.1]))
  {
    match Find(line, field)
    case None => None
    case Some(k) =>
      var from := SkipBlank(line, k + |field|);
      var to := SkipDigits(line, from);
      if from == to then None else Some((from, to))
  }

  /** Replaces the digit run of `field`, and nothing else. */
  function SetField(line: string, field: string, value: u64): Option<string> {
    match DigitRun(line, field)
    case None => None
    case Some((from, to)) => Some(line[..from] + Decimal(value) + line[to..])
  }

  /** Between the digit run and the next comma there are only blanks. */
  predicate NothingBehindDigits(line: string, field: string)
    requires DigitRun(line, field).Some?
  {
    var to := DigitRun(line, field).value.1;
    Blank(line[to..CommaFrom(line, to)])
  }

  /** The edited line has its digit run at the same place. */
  lemma DigitRunAfterSet(line: string, field: string, value: u64)
    requires SetField(line, field, value).Some?
    ensures var from := DigitRun(line, field).value.0;
            && Find(SetField(line, field, value).value, field) == Find(line, field)
            && DigitRun(SetField(line, field, value).value, field) == Some((from, from + |Decimal(value)|))
  {
    hide OccursAt, Find, SkipBlank, SkipDigits, Decimal, DigitsValue;
    var line' := SetField(line, field, value).value;
    var k := Find(line, field).value;
    var (from, to) := DigitRun(line, field).value;
    var digits := Decimal(value);
    assert line'[..from] == line[..from];
    forall j | 0 <= j <= k
      ensures OccursAt(line', field, j) <==> OccursAt(line, field, j)
    {
      SamePrefix(line', line, from, field, j);
    }
    FirstOccurrence(line', field, k);
    assert line'[k + |field|..from] == line[k + |field|..from];
    assert line'[from..from + |digits|] == digits;
    assert line'[from + |digits|..] == line[to..];
    assert to < |line| ==> line'[from + |digits|] == line[to];
    BlankThenDigits(line', k + |field|, from, from + |digits|);
  }

  /** Whether a pattern occurs inside a common prefix does not depend on what follows. */
  lemma SamePrefix(s: string, t: string, n: nat, pat: string, j: nat)
    requires n <= |s| && n <= |t| && s[..n] == t[..n] && j + |pat| <= n
    ensures OccursAt(s, pat, j) <==> OccursAt(t, pat, j)
  {
    assert s[j..j + |pat|] == s[..n][j..j + |pat|];
    assert t[j..j + |pat|] == t[..n][j..j + |pat|];
  }

  /** Where the blanks and the digits behind index i end. */
  lemma BlankThenDigits(s: string, i: nat, from: nat, to: nat)
    requires i <= from < to <= |s|
    requires Blank(s[i..from]) && AllDigits(s[from..to]) && (to < |s| ==> !IsDigit(s[to]))
    ensures SkipBlank(s, i) == from && SkipDigits(s, from) == to
  {
    var b := SkipBlank(s, i);
    assert forall j :: i <= j < b ==> s[j] == s[i..b][j - i];
    assert forall j :: i <= j < from ==> s[j] == s[i..from][j - i];
    assert IsDigit(s[from]) by {
      assert s[from..to][0] == s[from];
    }
    var d := SkipDigits(s, from);
    assert forall j :: from <= j < d ==> s[j] == s[from..d][j - from];
    assert forall j :: from <= j < to ==> s[j] == s[from..to][j - from];
  }

  /** Setting a field again forgets the value set before; setting the same value again changes nothing. */
  lemma SetOverwrites(line: string, field: string, v: u64, w: u64)
    requires SetField(line, field, v).Some?
    ensures SetField(SetField(line, field, v).value, field, w) == SetField(line, field, w)
  {
    DigitRunAfterSet(line, field, v);
    var (from, to) := DigitRun(line, field).value;
    var line' := SetField(line, field, v).value;
    assert line'[..from] == line[..from];
    assert line'[from + |Decimal(v)|..] == line[to..];
  }

  /** From the field to the end of its digit run there are only blanks and digits. */
  lemma DigitRunChars(line: string, field: string)
    requires DigitRun(line, field).Some?
    ensures var (from, to) := DigitRun(line, field).value;
            && (forall j :: Find(line, field).value + |field| <= j < from ==> IsWhitespace(line[j]))
            && (forall j :: from <= j < to ==> IsDigit(line[j]))
  {
    var k := Find(line, field).value + |field|;
    var (from, to) := DigitRun(line, field).value;
    assert forall j :: k <= j < from ==> line[j] == line[k..from][j - k];
    assert forall j :: from <= j < to ==> line[j] == line[from..to][j - from];
  }

  lemma SameCommaBehindRun(line: string, i: nat, j: nat)
    requires i <= j <= |line| && forall n :: i <= n < j ==> IsWhitespace(line[n]) || IsDigit(line[n])
    ensures CommaFrom(line, i) == CommaFrom(line, j)
  {
    assert !IsWhitespace(',') && !IsDigit(',');
  }

  /** What parsing reads when the field has a digit run: the digits and what stands behind them. */
  lemma FieldValueWithDigits(line: string, field: string)
    requires DigitRun(line, field).Some?
    ensures var (from, to) := DigitRun(line, field).value;
            FieldValue(line, field) == Some(line[from..to] + TrimEnd(line[to..CommaFrom(line, to)]))
  {
    hide DigitRun, Find, Trim, TrimEnd, CommaFrom;
    var k := Find(line, field).value + |field|;
    var (from, to) := DigitRun(line, field).value;
    DigitRunChars(line, field);
    SameCommaBehindRun(line, k, to);
    TrimmedRun(line, k, from, to, CommaFrom(line, to));
  }

  lemma DigitIsNoBlank(c: char)
    requires IsDigit(c)
    ensures !IsWhitespace(c)
  {
  }

  lemma Regroup(a: string, b: string, c: string, d: string)
    ensures a + b + (c + d) == a + (b + c) + d
  {
  }

  lemma TrimmedRun(line: string, k: nat, from: nat, to: nat, comma: nat)
    requires k <= from < to <= comma <= |line|
    requires Blank(line[k..from]) && forall j :: from <= j < to ==> IsDigit(line[j])
    ensures Trim(line[k..comma]) == line[from..to] + TrimEnd(line[to..comma])
  {
    hide Trim, TrimEnd, Blank, IsWhitespace, IsDigit;
    SplitInThree(line, k, from, to, comma);
    var tail := line[to..comma];
    var t := TrimEnd(tail);
    var mid := line[from..to] + t;
    assert tail == t + tail[|t|..];
    Regroup(line[k..from], line[from..to], t, tail[|t|..]);
    assert mid[0] == line[from];
    DigitIsNoBlank(line[from]);
    assert mid[|mid| - 1] == if t == [] then line[to - 1] else t[|t| - 1];
    DigitIsNoBlank(line[to - 1]);
    TrimIs(line[k..from], mid, tail[|t|..]);
  }

  /** After a set, parsing gives the new value exactly when nothing but blanks follow the digits. */
  lemma ParseAfterSet(line: string, field: string, value: u64)
    requires SetField(line, field, value).Some?
    ensures ParseField(SetField(line, field, value).value, field) == Some(value)
            <==> NothingBehindDigits(line, field)
  {
    var line' := SetField(line, field, value).value;
    var (from, to) := DigitRun(line, field).value;
    var digits := Decimal(value);
    var to' := from + |digits|;
    DigitRunAfterSet(line, field, value);
    FieldValueWithDigits(line', field);
    assert line'[from..to'] == digits;
    assert line'[to'..] == line[to..];
    assert line'[to'..CommaFrom(line', to')] == line[to..CommaFrom(line, to)] by {
      CommaOfSameTail(line', to', line, to);
    }
    var tail := line[to..CommaFrom(line, to)];
    assert TrimEnd(tail) != [] ==> TrimEnd(tail)[0] == tail[0] == line[to];
    ParseDigitsThen(digits, TrimEnd(tail));
  }

  lemma {:induction false} CommaOfSameTail(s: string, i: nat, t: string, j: nat)
    requires i <= |s| && j <= |t| && s[i..] == t[j..]
    ensures CommaFrom(s, i) - i == CommaFrom(t, j) - j
    ensures s[i..CommaFrom(s, i)] == t[j..CommaFrom(t, j)]
    decreases |s| - i
  {
    var c, d := CommaFrom(s, i) - i, CommaFrom(t, j) - j;
    assert forall n :: 0 <= n < |s| - i ==> s[i + n] == s[i..][n] == t[j..][n] == t[j + n];
    assert c == d;
    assert s[i..i + c] == s[i..][..c] == t[j..][..d] == t[j..j + d];
  }

  lemma DigitsThenOther(digits: string, rest: string)
    requires digits != [] && AllDigits(digits) && rest != [] && !IsDigit(rest[0])
    ensures ParseUnsigned(digits + rest, U64_MAX).None?
  {
    assert (digits + rest)[0] == digits[0] && (digits + rest)[|digits|] == rest[0];
  }

  /** Digits followed by something that does not start with a digit parse only if that something is empty. */
  lemma ParseDigitsThen(digits: string, rest: string)
    requires digits != [] && AllDigits(digits) && DigitsValue(digits) <= U64_MAX
    requires rest != [] ==> !IsDigit(rest[0])
    ensures ParseUnsigned(digits + rest, U64_MAX) == if rest == [] then Some(DigitsValue(digits)) else None
  {
    if rest == [] {
      assert digits + rest == digits;
      assert digits[0] != '+';
    } else {
      DigitsThenOther(digits, rest);
    }
  }

  // ---- setting the size keeps the start ----

  /** Nothing that a number in a field, with blanks around it, is not made of. */
  predicate Numeric(s: string) {
    forall i :: 0 <= i < |s| ==> IsWhitespace(s[i]) || s[i] == '+' || IsDigit(s[i])
  }

  lemma ParsedIsNumeric(s: string, max: nat)
    requires ParseUnsigned(s, max).Some?
    ensures Numeric(s)
  {
    if s[0] == '+' {
      assert forall i :: 0 < i < |s| ==> s[i] == s[1..][i - 1];
    }
  }

  lemma NumericBetweenBlanks(left: string, mid: string, right: string)
    requires Blank(left) && Numeric(mid) && Blank(right)
    ensures Numeric(left + mid + right)
  {
  }

  /** A line whose field parses has no letter between that field and the next comma. */
  lemma NumericValueHasNoLetters(line: string, field: string)
    requires ParseField(line, field).Some?
    ensures var k := Find(line, field).value + |field|;
            forall j :: k <= j < CommaFrom(line, k) ==> IsWhitespace(line[j]) || line[j] == '+' || IsDigit(line[j])
  {
    var k := Find(line, field).value + |field|;
    hide CommaFrom, Find, Trim, ParseUnsigned, IsWhitespace, IsDigit;
    var region := line[k..CommaFrom(line, k)];
    ParsedIsNumeric(Trim(region), U64_MAX);
    var left, right := TrimParts(region);
    NumericBetweenBlanks(left, Trim(region), right);
    assert forall j :: k <= j < CommaFrom(line, k) ==> line[j] == region[j - k];
  }

  /** `start=` and `size=` have one s each, at their beginning, so they cannot overlap. */
  lemma StartAndSizeDoNotOverlap(line: string, q: nat, k: nat)
    requires OccursAt(line, START_FIELD, q) && OccursAt(line, SIZE_FIELD, k)
    ensures q + |START_FIELD| <= k || k + |SIZE_FIELD| <= q
    ensures line[q] == line[k] == 's'
  {
    OccursChars(line, START_FIELD, q);
    OccursChars(line, SIZE_FIELD, k);
    assert line[q] == 's' && line[k] == 's' && line[q + 1] == 't' && line[k + 1] == 'i';
  }

  /** `start=` stands entirely before `size=`, with a comma between them, or behind the digits of `size=`. */
  lemma StartAndSizeAreApart(line: string, q: nat, k: nat)
    requires ParseField(line, START_FIELD).Some? && DigitRun(line, SIZE_FIELD).Some?
    requires Find(line, START_FIELD) == Some(q) && Find(line, SIZE_FIELD) == Some(k)
    ensures || (q < k && CommaFrom(line, q + |START_FIELD|) < k)
            || (k < q && DigitRun(line, SIZE_FIELD).value.1 <= q)
  {
    hide ParseField, DigitRun, CommaFrom, Find;
    StartAndSizeDoNotOverlap(line, q, k);
    if q < k {
      NumericValueHasNoLetters(line, START_FIELD);
      LetterIsOutside(line, q + |START_FIELD|, CommaFrom(line, q + |START_FIELD|), k);
    } else {
      DigitRunChars(line, SIZE_FIELD);
      LetterIsOutside(line, k + |SIZE_FIELD|, DigitRun(line, SIZE_FIELD).value.1, q);
    }
  }

  lemma LetterIsOutside(line: string, from: nat, to: nat, k: nat)
    requires from <= to <= |line| && k < |line| && line[k] == 's'
    requires forall j :: from <= j < to ==> IsWhitespace(line[j]) || line[j] == '+' || IsDigit(line[j])
    ensures k < from || to <= k
  {
    assert !IsWhitespace('s') && !IsDigit('s');
  }

  lemma SameSuffix(s: string, i: nat, t: string, j: nat, pat: string, n: nat)
    requires i <= |s| && j <= |t| && s[i..] == t[j..]
    ensures OccursAt(s, pat, i + n) <==> OccursAt(t, pat, j + n)
  {
    if i + n + |pat| <= |s| {
      assert s[i + n..i + n + |pat|] == s[i..][n..n + |pat|] == t[j..][n..n + |pat|] == t[j + n..j + n + |pat|];
    }
    assert |s| - i == |s[i..]| == |t[j..]| == |t| - j;
  }

  lemma SizeKeepsStart(line: string, value: u64)
    requires ParseField(line, START_FIELD).Some? && SetField(line, SIZE_FIELD, value).Some?
    ensures ParseField(SetField(line, SIZE_FIELD, value).value, START_FIELD) == ParseField(line, START_FIELD)
  {
    hide OccursAt, CommaFrom, DigitsValue, Decimal;
    var line' := SetField(line, SIZE_FIELD, value).value;
    var q, k := Find(line, START_FIELD).value, Find(line, SIZE_FIELD).value;
    var (from, to) := DigitRun(line, SIZE_FIELD).value;
    var to' := from + |Decimal(value)|;
    StartAndSizeAreApart(line, q, k);
    assert line'[..from] == line[..from];
    assert line'[to'..] == line[to..];
    if q < k {
      StartBefore(line, line', from, q, CommaFrom(line, q + 6));
    } else {
      assert AllDigits(line'[from..to']) by {
        assert line'[from..to'] == Decimal(value);
      }
      StartBehind(line, line', from, to, to', q);
    }
  }

  lemma StartBefore(line: string, line': string, from: nat, q: nat, comma: nat)
    requires from <= |line| && from <= |line'| && line'[..from] == line[..from]
    requires Find(line, START_FIELD) == Some(q) && comma == CommaFrom(line, q + 6) < from
    ensures ParseField(line', START_FIELD) == ParseField(line, START_FIELD)
  {
    forall j | 0 <= j <= q
      ensures OccursAt(line', START_FIELD, j) <==> OccursAt(line, START_FIELD, j)
    {
      SamePrefix(line', line, from, START_FIELD, j);
    }
    FirstOccurrence(line', START_FIELD, q);
    assert forall j :: 0 <= j < from ==> line'[j] == line'[..from][j] == line[..from][j] == line[j];
    assert CommaFrom(line', q + 6) == comma;
    assert line'[q + 6..comma] == line[q + 6..comma];
  }

  lemma TailOfTail(s: string, i: nat, t: string, j: nat, n: nat)
    requires i + n <= |s| && j + n <= |t| && s[i..] == t[j..]
    ensures s[i + n..] == t[j + n..]
  {
    assert s[i + n..] == s[i..][n..];
    assert t[j + n..] == t[j..][n..];
  }

  /** `start=` has no digit, so it cannot touch a digit run. */
  lemma StartHasNoDigit(line: string, from: nat, to: nat, j: nat)
    requires from < to <= |line| && AllDigits(line[from..to])
    requires j < to && from < j + |START_FIELD|
    ensures !OccursAt(line, START_FIELD, j)
  {
    if OccursAt(line, START_FIELD, j) {
      var d := if j < from then from else j;
      assert line[d] == line[from..to][d - from];
      OccursChars(line, START_FIELD, j);
      assert false;
    }
  }

  /** Before its place behind the new digits there is no `start=` in the edited line. */
  lemma NoEarlierStart(line: string, line': string, from: nat, to: nat, to': nat, q: nat, j: nat)
    requires from <= to <= q && to <= |line| && from < to' <= |line'|
    requires line'[..from] == line[..from] && line'[to'..] == line[to..] && AllDigits(line'[from..to'])
    requires Find(line, START_FIELD) == Some(q) && j < q - to + to'
    ensures !OccursAt(line', START_FIELD, j)
  {
    hide OccursAt, Find, AllDigits;
    if j + 6 <= from {
      SamePrefix(line', line, from, START_FIELD, j);
    } else if j >= to' {
      SameSuffix(line, to, line', to', START_FIELD, j - to');
    } else {
      StartHasNoDigit(line', from, to', j);
    }
  }

  /** A field is read from the first occurrence of its name and the text behind it. */
  lemma SameParsedBehind(line: string, line': string, field: string)
    requires Find(line, field).Some? && Find(line', field).Some?
    requires line[Find(line, field).value + |field|..] == line'[Find(line', field).value + |field|..]
    ensures ParseField(line', field) == ParseField(line, field)
  {
    hide Find, CommaFrom, ParseUnsigned, Trim;
    CommaOfSameTail(line', Find(line', field).value + |field|, line, Find(line, field).value + |field|);
  }

  lemma StartBehind(line: string, line': string, from: nat, to: nat, to': nat, q: nat)
    requires from <= to <= q && to <= |line| && from < to' <= |line'|
    requires line'[..from] == line[..from] && line'[to'..] == line[to..] && AllDigits(line'[from..to'])
    requires Find(line, START_FIELD) == Some(q)
    ensures ParseField(line', START_FIELD) == ParseField(line, START_FIELD)
  {
    assert q + 6 <= |line|;
    assert |line'| - to' == |line'[to'..]| == |line[to..]| == |line| - to;
    hide OccursAt, Find, ParseField, AllDigits;
    var q' := q - to + to';
    SameSuffix(line, to, line', to', START_FIELD, q - to);
    forall j | 0 <= j < q'
      ensures !OccursAt(line', START_FIELD, j)
    {
      NoEarlierStart(line, line', from, to, to', q, j);
    }
    FirstOccurrence(line', START_FIELD, q');
    TailOfTail(line', to', line, to, q + 6 - to);
    SameParsedBehind(line, line', START_FIELD);
  }

  // ---- partition lines ----

  /** The first word of the line, or nothing if it is blank. */
  function FirstToken(line: string): string {
    var from := SkipBlank(line, 0);
    line[from..TokenEnd(line, from)]
  }

  function LastSlash(s: string): (k: nat)
    ensures k <= |s| && (k > 0 ==> s[k - 1] == '/')
  {
    if s != [] && s[|s| - 1] != '/' then LastSlash(s[..|s| - 1]) else |s|
  }

  /** Path::file_name: the last component, if it is a normal one. */
  function FileName(path: string): Option<string>
    decreases |path|
  {
    if |path| > 1 && path[|path| - 1] == '/' then FileName(path[..|path| - 1])
    else if |path| > 2 && path[|path| - 2..] == "/." then FileName(path[..|path| - 2])
    else
      var name := path[LastSlash(path)..];
      if name == "" || name == "." || name == ".." then None else Some(name)
  }

  function TrailingDigits(s: string): string {
    if s != [] && IsDigit(s[|s| - 1]) then TrailingDigits(s[..|s| - 1]) + [s[|s| - 1]] else []
  }

  // The source cuts the name in bytes, one byte behind the last character that is no digit.

  /** The bytes of a character in UTF-8. */
  function Utf8Len(c: char): nat {
    var n := c as int;
    if n < 0x80 then 1 else if n < 0x800 then 2 else if n < 0x1_0000 then 3 else 4
  }

  function ByteIndex(s: string, k: nat): nat
    requires k <= |s|
  {
    if k == 0 then 0 else ByteIndex(s, k - 1) + Utf8Len(s[k - 1])
  }

  ghost predicate IsCharBoundary(s: string, b: nat) {
    exists k :: 0 <= k <= |s| && ByteIndex(s, k) == b
  }

  function LastNonDigit(s: string): (r: Option<nat>)
    ensures r.Some? ==> r.value < |s| && !IsDigit(s[r.value]) && forall j :: r.value < j < |s| ==> IsDigit(s[j])
    ensures r.None? ==> AllDigits(s)
  {
    if s == [] then None
    else if IsDigit(s[|s| - 1]) then LastNonDigit(s[..|s| - 1])
    else Some(|s| - 1)
  }

  function DigitStart(s: string): nat {
    match LastNonDigit(s)
    case None => 0
    case Some(k) => ByteIndex(s, k) + 1
  }

  lemma {:induction false} ByteIndexGrows(s: string, i: nat, j: nat)
    requires i < j <= |s|
    ensures ByteIndex(s, i) + Utf8Len(s[i]) <= ByteIndex(s, j)
  {
    if i < j - 1 {
      ByteIndexGrows(s, i, j - 1);
    }
  }

  lemma {:induction false} DigitsBehind(s: string, k: nat)
    requires k <= |s| && (k > 0 ==> !IsDigit(s[k - 1])) && forall j :: k <= j < |s| ==> IsDigit(s[j])
    ensures TrailingDigits(s) == s[k..]
  {
    if k < |s| {
      var front := s[..|s| - 1];
      DigitsBehind(front, k);
      assert s[k..] == front[k..] + [s[|s| - 1]];
    }
  }

  /**
   The cut is not at a character, so that the slice panics, exactly when the last character before the digits has
   several bytes; any other name is cut into its trailing digits.
   */
  lemma CutsInsideAWideCharacter(name: string)
    ensures !IsCharBoundary(name, DigitStart(name)) <==>
            LastNonDigit(name).Some? && Utf8Len(name[LastNonDigit(name).value]) > 1
    ensures var k := if LastNonDigit(name).None? then 0 else LastNonDigit(name).value + 1;
            && TrailingDigits(name) == name[k..]
            && (IsCharBoundary(name, DigitStart(name)) ==> ByteIndex(name, k) == DigitStart(name))
  {
    match LastNonDigit(name) {
      case None =>
        DigitsBehind(name, 0);
        assert ByteIndex(name, 0) == 0;
      case Some(k) =>
        DigitsBehind(name, k + 1);
        assert ByteIndex(name, k + 1) == ByteIndex(name, k) + Utf8Len(name[k]);
        forall j | 0 <= j <= |name|
          ensures ByteIndex(name, j) == ByteIndex(name, k) + 1 ==> Utf8Len(name[k]) == 1
        {
          if j <= k {
            if j < k {
              ByteIndexGrows(name, j, k);
            }
          } else {
            ByteIndexGrows(name, k, j);
          }
        }
    }
  }

  /** Such a name: the last character before its digit has two bytes. */
  lemma ANameIsCutInside()
    ensures var name := "sd\U{00E9}7"; !IsCharBoundary(name, DigitStart(name))
  {
    var name := "sd\U{00E9}7";
    assert !IsDigit(name[2]) && IsDigit(name[3]);
    assert name[..3][2] == name[2];
    CutsInsideAWideCharacter(name);
  }

  /** The number behind the trailing digits of a device path. */
  function PartitionSuffix(path: string): Option<nat> {
    match FileName(path)
    case None => None
    case Some(name) => ParseUnsigned(TrailingDigits(name), U32_MAX)
  }

  /** `/dev/mmcblk0p7 : start=...` is the line of partition 7. */
  function PartitionNumber(line: string): Option<nat> {
    var device := FirstToken(line);
    if !(DEVICE_LINE_PREFIX <= device) then None else PartitionSuffix(device)
  }

  /** Looking for a partition number in the line slices the device name between two characters, if at all. */
  ghost predicate CutsBetweenCharacters(line: string) {
    var device := FirstToken(line);
    DEVICE_LINE_PREFIX <= device && FileName(device).Some? ==>
      IsCharBoundary(FileName(device).value, DigitStart(FileName(device).value))
  }

  /** The first line that satisfies the test. */
  function FirstLine(lines: seq<string>, test: string -> bool): (r: Option<nat>)
    ensures r.Some? ==> r.value < |lines| && test(lines[r.value]) && forall i :: 0 <= i < r.value ==> !test(lines[i])
    ensures r.None? ==> forall i :: 0 <= i < |lines| ==> !test(lines[i])
  {
    if lines == [] then None
    else if test(lines[0]) then Some(0)
    else match FirstLine(lines[1..], test)
         case None => None
         case Some(k) => Some(k + 1)
  }

  lemma FirstLineIs(lines: seq<string>, test: string -> bool, k: nat)
    requires k < |lines| && test(lines[k]) && forall i :: 0 <= i < k ==> !test(lines[i])
    ensures FirstLine(lines, test) == Some(k)
  {
  }

  function IsPartition(number: nat): string -> bool {
    line => PartitionNumber(line) == Some(number)
  }

  function HasHeader(header: string): string -> bool {
    line => header <= TrimStart(line)
  }

  // ---- the rewrite ----

  /** Only `unit: sectors` with 512-byte sectors makes a KB two sectors. */
  function VerifySectorScale(lines: seq<string>): bool {
    var unit := FirstLine(lines, HasHeader(UNIT_FIELD));
    var size := FirstLine(lines, HasHeader(SECTOR_SIZE_FIELD));
    && unit.Some? && FieldValue(lines[unit.value], UNIT_FIELD) == Some(SECTORS)
    && size.Some? && ParseField(lines[size.value], SECTOR_SIZE_FIELD) == Some(SECTOR_SIZE)
  }

  /** The line that ends the table: last-lba on GPT, the extended container on DOS. */
  function BoundLine(layout: Layout, lines: seq<string>): (r: Option<nat>)
    ensures r.Some? ==> r.value < |lines|
  {
    match layout
    case Gpt => FirstLine(lines, HasHeader(LAST_LBA_FIELD))
    case Dos => FirstLine(lines, IsPartition(PARTITION_NUM_EXTENDED))
  }

  /** The bound line with the value that makes the table end with the data partition. */
  function EditBound(layout: Layout, line: string, dataStart: u64, dataSectors: u64): Option<string> {
    if layout.Gpt? then
      var end := CheckedAdd(dataStart, dataSectors);
      if end.None? || CheckedSub(end.value, 1).None? then None
      else SetField(line, LAST_LBA_FIELD, end.value - 1)
    else
      var extendedStart := ParseField(line, START_FIELD);
      if extendedStart.None? || CheckedSub(dataStart, extendedStart.value).None? then None
      else
        var size := CheckedAdd(dataStart - extendedStart.value, dataSectors);
        if size.None? then None else SetField(line, SIZE_FIELD, size.value)
  }

  function RewriteBound(layout: Layout, lines: seq<string>, dataStart: u64, dataSectors: u64)
    : Result<seq<string>, DumpError>
  {
    var o := BoundLine(layout, lines);
    if o.None? then Err(MalformedDump)
    else
      var edited := EditBound(layout, lines[o.value], dataStart, dataSectors);
      if edited.None? then Err(MalformedDump) else Ok(lines[o.value := edited.value])
  }

  /** A KB is two sectors. */
  function SectorsOfKb(kb: u64): Option<u64> {
    CheckedMul(kb, 2)
  }

  function BytesOfSectors(sectors: u64): Option<u64> {
    CheckedMul(sectors, 512)
  }

  /** The edit of the data line: its place, the values the bound needs, and the new line. */
  datatype DataEdit = DataEdit(d: nat, start: u64, sectors: u64, line: string)

  function EditData(layout: Layout, lines: seq<string>, dataSizeKb: u64): (r: Result<DataEdit, DumpError>)
    ensures r.Ok? ==> r.value.d < |lines|
  {
    var d := FirstLine(lines, IsPartition(DataNumber(layout)));
    if d.None? then Err(MalformedDump)
    else
      var start := ParseField(lines[d.value], START_FIELD);
      var sectors := SectorsOfKb(dataSizeKb);
      if start.None? then Err(MalformedDump)
      else if sectors.None? || BytesOfSectors(sectors.value).None? then Err(InvalidDataSize)
      else
        var line := SetField(lines[d.value], SIZE_FIELD, sectors.value);
        if line.None? then Err(MalformedDump) else Ok(DataEdit(d.value, start.value, sectors.value, line.value))
  }

  function RewriteLines(layout: Layout, lines: seq<string>, dataSizeKb: u64): Result<seq<string>, DumpError> {
    var edit := EditData(layout, lines, dataSizeKb);
    if !VerifySectorScale(lines) then Err(MalformedDump)
    else if edit.Err? then Err(edit.error)
    else RewriteBound(layout, lines[edit.value.d := edit.value.line], edit.value.start, edit.value.sectors)
  }

  function RewriteDump(layout: Layout, dump: string, dataSizeKb: u64): Result<string, DumpError> {
    match RewriteLines(layout, Lines(dump), dataSizeKb)
    case Err(e) => Err(e)
    case Ok(lines) => Ok(Join(lines) + "\n")
  }

  /** The rewrite of the bound as the source does it: in place, on the vector of lines. */
  method RewriteBoundInPlace(layout: Layout, lines: array<string>, dataStart: u64, dataSectors: u64)
    returns (r: Option<DumpError>)
    modifies lines
    ensures var spec := RewriteBound(layout, old(lines[..]), dataStart, dataSectors);
            if spec.Ok? then r.None? && lines[..] == spec.value
            else r == Some(spec.error) && lines[..] == old(lines[..])
  {
    var found := BoundLine(layout, lines[..]);
    if found.None? {
      return Some(MalformedDump);
    }
    var o := found.value;
    var edited := EditBound(layout, lines[o], dataStart, dataSectors);
    if edited.None? {
      return Some(MalformedDump);
    }
    lines[o] := edited.value;
    r := None;
  }

  method RewriteDumpInPlace(layout: Layout, dump: string, dataSizeKb: u64) returns (r: Result<string, DumpError>)
    ensures r == RewriteDump(layout, dump, dataSizeKb)
  {
    hide ParseField, SetField, EditBound, BoundLine, VerifySectorScale, FirstLine, PartitionNumber, Lines, Join;
    var parsed := Lines(dump);
    if !VerifySectorScale(parsed) {
      return Err(MalformedDump);
    }
    var lines := new string[|parsed|](i requires 0 <= i < |parsed| => parsed[i]);
    assert lines[..] == parsed;
    var found := FirstLine(lines[..], IsPartition(DataNumber(layout)));
    if found.None? {
      return Err(MalformedDump);
    }
    var d := found.value;
    var start := ParseField(lines[d], START_FIELD);
    if start.None? {
      return Err(MalformedDump);
    }
    var sectors := SectorsOfKb(dataSizeKb);
    if sectors.None? || BytesOfSectors(sectors.value).None? {
      return Err(InvalidDataSize);
    }
    var line := SetField(lines[d], SIZE_FIELD, sectors.value);
    if line.None? {
      return Err(MalformedDump);
    }
    lines[d] := line.value;
    assert lines[..] == parsed[d := line.value];
    var failed := RewriteBoundInPlace(layout, lines, start.value, sectors.value);
    if failed.Some? {
      return Err(failed.value);
    }
    r := Ok(Join(lines[..]) + "\n");
  }
}
