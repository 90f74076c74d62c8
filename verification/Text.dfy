/** String operations with the results that Rust's standard library gives, on sequences of characters. */
module Text {
  import opened Common

  // ---- characters ----

  /** Unicode White_Space. */
  predicate IsWhitespace(c: char) {
    var n := c as int;
    || 0x09 <= n <= 0x0D || n == 0x20 || n == 0x85 || n == 0xA0 || n == 0x1680
    || 0x2000 <= n <= 0x200A || n == 0x2028 || n == 0x2029 || n == 0x202F || n == 0x205F || n == 0x3000
  }

  predicate IsDigit(c: char) {
    '0' <= c <= '9'
  }

  predicate AllDigits(s: string) {
    forall i :: 0 <= i < |s| ==> IsDigit(s[i])
  }

  predicate Blank(s: string) {
    forall i :: 0 <= i < |s| ==> IsWhitespace(s[i])
  }

  // ---- searching ----

  predicate OccursAt(s: string, pat: string, k: int) {
    0 <= k && k + |pat| <= |s| && s[k..k + |pat|] == pat
  }

  lemma OccursChars(s: string, pat: string, k: nat)
    requires OccursAt(s, pat, k)
    ensures forall j :: k <= j < k + |pat| ==> s[j] == pat[j - k]
  {
    assert forall j :: k <= j < k + |pat| ==> s[j] == s[k..k + |pat|][j - k];
  }

  /** The first occurrence at or behind `from`. */
  function FindFrom(s: string, pat: string, from: nat): (r: Option<nat>)
    ensures r.Some? ==> from <= r.value && OccursAt(s, pat, r.value)
    ensures r.Some? ==> forall j :: from <= j < r.value ==> !OccursAt(s, pat, j)
    ensures r.None? ==> forall j :: from <= j ==> !OccursAt(s, pat, j)
    decreases |s| - from
  {
    if from + |pat| > |s| then None
    else if s[from..from + |pat|] == pat then Some(from)
    else FindFrom(s, pat, from + 1)
  }

  function Find(s: string, pat: string): (r: Option<nat>)
    ensures r.Some? ==> OccursAt(s, pat, r.value) && forall j :: 0 <= j < r.value ==> !OccursAt(s, pat, j)
    ensures r.None? ==> forall j :: 0 <= j ==> !OccursAt(s, pat, j)
  {
    FindFrom(s, pat, 0)
  }

  lemma FirstOccurrence(s: string, pat: string, k: nat)
    requires OccursAt(s, pat, k) && forall j :: 0 <= j < k ==> !OccursAt(s, pat, j)
    ensures Find(s, pat) == Some(k)
  {
  }

  /** The first index at or behind i whose character is not whitespace, or the length. */
  function SkipBlank(s: string, i: nat): (k: nat)
    requires i <= |s|
    ensures i <= k <= |s| && Blank(s[i..k]) && (k < |s| ==> !IsWhitespace(s[k]))
    decreases |s| - i
  {
    if i < |s| && IsWhitespace(s[i]) then SkipBlank(s, i + 1) else i
  }

  /** The first index at or behind i whose character is whitespace, or the length. */
  function TokenEnd(s: string, i: nat): (k: nat)
    requires i <= |s|
    ensures i <= k <= |s| && (k < |s| ==> IsWhitespace(s[k])) && forall j :: i <= j < k ==> !IsWhitespace(s[j])
    decreases |s| - i
  {
    if i < |s| && !IsWhitespace(s[i]) then TokenEnd(s, i + 1) else i
  }

  /** The first index at or behind i whose character is not a digit, or the length. */
  function SkipDigits(s: string, i: nat): (k: nat)
    requires i <= |s|
    ensures i <= k <= |s| && AllDigits(s[i..k]) && (k < |s| ==> !IsDigit(s[k]))
    decreases |s| - i
  {
    if i < |s| && IsDigit(s[i]) then SkipDigits(s, i + 1) else i
  }

  /** The first comma at or behind i, or the length. */
  function CommaFrom(s: string, i: nat): (k: nat)
    requires i <= |s|
    ensures i <= k <= |s| && (k < |s| ==> s[k] == ',') && forall j :: i <= j < k ==> s[j] != ','
    decreases |s| - i
  {
    if i < |s| && s[i] != ',' then CommaFrom(s, i + 1) else i
  }

  lemma SplitInThree(s: string, a: nat, b: nat, c: nat, d: nat)
    requires a <= b <= c <= d <= |s|
    ensures s[a..d] == s[a..b] + s[b..c] + s[c..d]
  {
    assert s[a..d] == s[a..b] + s[b..d];
    assert s[b..d] == s[b..c] + s[c..d];
  }

  // ---- trimming ----

  function TrimStart(s: string): string {
    s[SkipBlank(s, 0)..]
  }

  function TrimEnd(s: string): (t: string)
    ensures |t| <= |s| && t == s[..|t|] && Blank(s[|t|..]) && (t != [] ==> !IsWhitespace(t[|t| - 1]))
  {
    if s != [] && IsWhitespace(s[|s| - 1]) then
      var n := |s| - 1;
      var t := TrimEnd(s[..n]);
      assert s[..n][..|t|] == s[..|t|];
      assert s[|t|..] == s[..n][|t|..] + [s[n]];
      t
    else s
  }

  function Trim(s: string): string {
    TrimEnd(TrimStart(s))
  }

  lemma TrimParts(s: string) returns (left: string, right: string)
    ensures s == left + Trim(s) + right && Blank(left) && Blank(right)
  {
    hide SkipBlank, TrimEnd, Trim, Blank, IsWhitespace;
    var b := SkipBlank(s, 0);
    var rest := s[b..];
    var t := TrimEnd(rest);
    left, right := s[..b], rest[|t|..];
    assert left == s[0..b];
    Split(s, b);
    Split(rest, |t|);
    AppendTwice(left, t, right);
    TrimIsTwoSteps(s);
  }

  lemma Split(s: string, n: nat)
    requires n <= |s|
    ensures s == s[..n] + s[n..]
  {
  }

  lemma AppendTwice(a: string, b: string, c: string)
    ensures a + (b + c) == a + b + c
  {
  }

  lemma TrimIsTwoSteps(s: string)
    ensures Trim(s) == TrimEnd(s[SkipBlank(s, 0)..])
  {
  }

  /** Trimming is the middle of any split into blank, text without blank ends, blank. */
  lemma TrimIs(left: string, mid: string, right: string)
    requires Blank(left) && Blank(right)
    requires mid != [] && !IsWhitespace(mid[0]) && !IsWhitespace(mid[|mid| - 1])
    ensures Trim(left + mid + right) == mid
  {
    var s := left + mid + right;
    var k := SkipBlank(s, 0);
    assert forall j :: 0 <= j < |left| ==> s[j] == left[j];
    assert s[|left|] == mid[0];
    assert k <= |left| by {
      assert forall j :: 0 <= j < k ==> s[0..k][j] == s[j];
    }
    assert TrimStart(s) == mid + right;
    var rest := mid + right;
    var t := TrimEnd(rest);
    assert forall j :: |mid| <= j < |rest| ==> rest[j] == right[j - |mid|];
    assert forall j :: |t| <= j < |rest| ==> rest[j] == rest[|t|..][j - |t|];
    assert rest[|mid| - 1] == mid[|mid| - 1];
    assert t == mid;
  }

  // ---- numbers ----

  function DigitValue(c: char): nat
    requires IsDigit(c)
  {
    c as int - '0' as int
  }

  function DigitsValue(s: string): nat
    requires AllDigits(s)
  {
    if s == [] then 0
    else
      assert IsDigit(s[|s| - 1]);
      DigitsValue(s[..|s| - 1]) * 10 + DigitValue(s[|s| - 1])
  }

  function Decimal(n: nat): (s: string)
    ensures s != [] && AllDigits(s) && DigitsValue(s) == n
  {
    var last := ['0' + (n % 10) as char];
    assert IsDigit(last[0]) && DigitValue(last[0]) == n % 10;
    if n < 10 then
      assert last[..0] == [];
      last
    else
      var s := Decimal(n / 10) + last;
      assert s[..|s| - 1] == Decimal(n / 10);
      s
  }

  /** str::parse for an unsigned integer up to max: a plus sign is allowed, a minus sign is not. */
  function ParseUnsigned(s: string, max: nat): Option<nat> {
    var digits := if s != [] && s[0] == '+' then s[1..] else s;
    if digits != [] && AllDigits(digits) && DigitsValue(digits) <= max then Some(DigitsValue(digits)) else None
  }

  // ---- lines ----

  predicate NoNewline(s: string) {
    forall i :: 0 <= i < |s| ==> s[i] != '\n'
  }

  predicate EndsInCr(s: string) {
    s != [] && s[|s| - 1] == '\r'
  }

  function StripCr(s: string): string {
    if EndsInCr(s) then s[..|s| - 1] else s
  }

  function NewlineFrom(s: string, i: nat): (k: nat)
    requires i <= |s|
    ensures i <= k <= |s| && (k < |s| ==> s[k] == '\n') && forall j :: i <= j < k ==> s[j] != '\n'
    decreases |s| - i
  {
    if i < |s| && s[i] != '\n' then NewlineFrom(s, i + 1) else i
  }

  /** str::lines: a carriage return is dropped only in front of a newline. */
  function Lines(text: string): (lines: seq<string>)
    ensures forall i :: 0 <= i < |lines| ==> NoNewline(lines[i])
    decreases |text|
  {
    var k := NewlineFrom(text, 0);
    if text == [] then []
    else if k == |text| then [text]
    else [StripCr(text[..k])] + Lines(text[k + 1..])
  }

  /** The lines joined by newlines. */
  function Join(lines: seq<string>): string {
    if lines == [] then ""
    else if |lines| == 1 then lines[0]
    else lines[0] + "\n" + Join(lines[1..])
  }

  function StripAll(lines: seq<string>): seq<string> {
    seq(|lines|, i requires 0 <= i < |lines| => StripCr(lines[i]))
  }

  lemma FirstNewline(line: string, rest: string)
    requires NoNewline(line)
    ensures var text := line + "\n" + rest;
            NewlineFrom(text, 0) == |line| && text[..|line|] == line && text[|line| + 1..] == rest
  {
    var text := line + "\n" + rest;
    assert text[|line|] == '\n';
    assert forall i :: 0 <= i < |line| ==> text[i] == line[i];
  }

  /** Splitting the joined lines again gives them back, without their carriage returns. */
  lemma {:induction false} LinesOfJoin(lines: seq<string>)
    requires lines != [] && forall i :: 0 <= i < |lines| ==> NoNewline(lines[i])
    ensures Lines(Join(lines) + "\n") == StripAll(lines)
  {
    hide NewlineFrom, StripCr, NoNewline;
    if |lines| == 1 {
      assert Join(lines) + "\n" == lines[0] + "\n" + "";
      LinesStartWith(lines[0], "");
      assert StripAll(lines) == [StripCr(lines[0])];
    } else {
      var rest := Join(lines[1..]);
      assert lines[0] + "\n" + rest + "\n" == lines[0] + "\n" + (rest + "\n");
      LinesStartWith(lines[0], rest + "\n");
      LinesOfJoin(lines[1..]);
      assert StripAll(lines) == [StripCr(lines[0])] + StripAll(lines[1..]);
    }
  }

  lemma LinesStartWith(line: string, rest: string)
    requires NoNewline(line)
    ensures Lines(line + "\n" + rest) == [StripCr(line)] + Lines(rest)
  {
    hide NewlineFrom, StripCr, NoNewline;
    FirstNewline(line, rest);
  }

  /** Two lists of newline-free lines of the same length with the same text are the same. */
  lemma {:induction false} JoinIsInjective(a: seq<string>, b: seq<string>)
    requires |a| == |b|
    requires forall i :: 0 <= i < |a| ==> NoNewline(a[i]) && NoNewline(b[i])
    requires Join(a) == Join(b)
    ensures a == b
  {
    hide NewlineFrom, NoNewline;
    if |a| > 1 {
      FirstNewline(a[0], Join(a[1..]));
      FirstNewline(b[0], Join(b[1..]));
      JoinIsInjective(a[1..], b[1..]);
      assert a == [a[0]] + a[1..] && b == [b[0]] + b[1..];
    }
  }
}
