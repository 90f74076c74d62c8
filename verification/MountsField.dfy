/**
 The mount points of /proc/mounts that sit on a disk: how a field is decoded, how a line is split, and
 the order in which the mounts are taken down.
 */
module MountsField {
  import opened Common
  import opened Text

  const MOUNTS_ESCAPES: seq<(string, char)> :=
    [("\\040", ' '), ("\\011", '\t'), ("\\012", '\n'), ("\\134", '\\')]

  /** Every occurrence of `pat`, left to right and without overlap, becomes `c`. */
  function Replace(s: string, pat: string, c: char): string
    requires |pat| > 0
  {
    if |s| == 0 then ""
    else if pat <= s then [c] + Replace(s[|pat|..], pat, c)
    else [s[0]] + Replace(s[1..], pat, c)
  }

  function DecodeWith(field: string, escapes: seq<(string, char)>): string
    requires forall e :: e in escapes ==> |e.0| > 0
    decreases |escapes|
  {
    if |escapes| == 0 then field
    else DecodeWith(Replace(field, escapes[0].0, escapes[0].1), escapes[1..])
  }

  function DecodeMountsField(field: string): string {
    DecodeWith(field, MOUNTS_ESCAPES)
  }

  // ---- the kernel's side ----

  function Escape(c: char): (e: string)
    ensures |e| > 0 && (c in ESCAPED_NOW ==> |e| == 4 && e[0] == '\\')
  {
    match c
    case ' ' => "\\040"
    case '\t' => "\\011"
    case '\n' => "\\012"
    case '\\' => "\\134"
    case '#' => "\\043"
    case _ => [c]
  }

  const ESCAPED: set<char> := {' ', '\t', '\n', '\\'}

  // Newer kernels escape one more.
  const ESCAPED_NOW: set<char> := ESCAPED + {'#'}

  /** `s` with the characters of `which` escaped. */
  function EncodeOnly(s: string, which: set<char>): string {
    if |s| == 0 then "" else (if s[0] in which then Escape(s[0]) else [s[0]]) + EncodeOnly(s[1..], which)
  }

  function Encode(s: string): string {
    EncodeOnly(s, ESCAPED)
  }

  // ---- the round trip ----

  /** What has no backslash is passed over. */
  lemma {:induction false} ReplaceSkips(s: string, rest: string, pat: string, c: char)
    requires |pat| > 0 && pat[0] == '\\'
    requires forall i :: 0 <= i < |s| ==> s[i] != '\\'
    ensures Replace(s + rest, pat, c) == s + Replace(rest, pat, c)
  {
    if |s| == 0 {
      assert s + rest == rest;
    } else {
      var front := s[1..];
      assert (s + rest)[0] == s[0] && (s + rest)[1..] == front + rest;
      ReplaceSkips(front, rest, pat, c);
      hide Replace;
      var tail := Replace(rest, pat, c);
      assert [s[0]] + (front + tail) == s + tail;
      ReplaceOne(s + rest, pat, c);
    }
  }

  lemma ReplaceOne(s: string, pat: string, c: char)
    requires |s| > 0 && |pat| > 0 && s[0] != pat[0]
    ensures Replace(s, pat, c) == [s[0]] + Replace(s[1..], pat, c)
  {
  }

  lemma ReplaceHit(rest: string, pat: string, c: char)
    requires |pat| > 0
    ensures Replace(pat + rest, pat, c) == [c] + Replace(rest, pat, c)
  {
    assert (pat + rest)[|pat|..] == rest;
  }

  /** Another escape is left alone: neither it nor what begins inside it is taken for the one looked for. */
  lemma ReplaceMiss(d: char, rest: string, c: char)
    requires c in ESCAPED_NOW && d in ESCAPED_NOW && d != c
    ensures Replace(Escape(d) + rest, Escape(c), c) == Escape(d) + Replace(rest, Escape(c), c)
  {
    var e, pat := Escape(d), Escape(c);
    assert |e| == |pat| == 4 && e[0] == '\\' && e != pat;
    assert (e + rest)[..4] == e;
    assert (e + rest)[1..] == e[1..] + rest;
    ReplaceSkips(e[1..], rest, pat, c);
    assert [e[0]] + (e[1..] + Replace(rest, pat, c)) == e + Replace(rest, pat, c);
  }

  /** One pass takes back one escape, as long as backslashes are still escaped. */
  lemma {:induction false} OnePassTakesBackOneEscape(s: string, which: set<char>, c: char)
    requires which <= ESCAPED_NOW && c in which && '\\' in which
    ensures Replace(EncodeOnly(s, which), Escape(c), c) == EncodeOnly(s, which - {c})
  {
    if |s| > 0 {
      var rest := EncodeOnly(s[1..], which);
      OnePassTakesBackOneEscape(s[1..], which, c);
      if s[0] == c {
        ReplaceHit(rest, Escape(c), c);
      } else if s[0] in which {
        ReplaceMiss(s[0], rest, c);
      } else {
        ReplaceSkips([s[0]], rest, Escape(c), c);
      }
    }
  }

  lemma {:induction false} NothingEscaped(s: string)
    ensures EncodeOnly(s, {}) == s
  {
    if |s| > 0 {
      NothingEscaped(s[1..]);
    }
  }

  lemma DecodeIsFourPasses(field: string)
    ensures DecodeMountsField(field)
         == Replace(Replace(Replace(Replace(field, "\\040", ' '), "\\011", '\t'), "\\012", '\n'), "\\134", '\\')
  {
    hide Replace;
    var e := MOUNTS_ESCAPES;
    assert e[1..][1..] == e[2..] && e[2..][1..] == e[3..] && e[3..][1..] == [];
    var one := Replace(field, "\\040", ' ');
    var two := Replace(one, "\\011", '\t');
    var three := Replace(two, "\\012", '\n');
    assert DecodeWith(three, e[3..]) == Replace(three, "\\134", '\\');
    assert DecodeWith(two, e[2..]) == DecodeWith(three, e[3..]);
    assert DecodeWith(one, e[1..]) == DecodeWith(two, e[2..]);
  }

  // ---- the order of the replacements ----

  function EscapesOf(order: seq<char>): (escapes: seq<(string, char)>)
    ensures forall e :: e in escapes ==> |e.0| > 0
  {
    seq(|order|, i requires 0 <= i < |order| => (Escape(order[i]), order[i]))
  }

  predicate Distinct(order: seq<char>) {
    forall i, j :: 0 <= i < j < |order| ==> order[i] != order[j]
  }

  lemma DecodeFirst(field: string, order: seq<char>)
    requires order != [] && forall c :: c in order ==> c in ESCAPED
    ensures DecodeWith(field, EscapesOf(order))
         == DecodeWith(Replace(field, Escape(order[0]), order[0]), EscapesOf(order[1..]))
  {
    assert EscapesOf(order)[1..] == EscapesOf(order[1..]);
  }

  /** With the backslash last, any order inverts the escaping of these characters. */
  lemma {:induction false} BackslashLastInverts(s: string, order: seq<char>, which: set<char>)
    requires Distinct(order) && which == (set c | c in order) && which <= ESCAPED
    requires order != [] ==> order[|order| - 1] == '\\'
    ensures DecodeWith(EncodeOnly(s, which), EscapesOf(order)) == s
    decreases |order|
  {
    if order == [] {
      assert which == {} && EscapesOf(order) == [];
      NothingEscaped(s);
    } else {
      var c, rest := order[0], order[1..];
      OnePassTakesBackOneEscape(s, which, c);
      hide EncodeOnly, Replace;
      assert (set d | d in rest) == which - {c};
      BackslashLastInverts(s, rest, which - {c});
      DecodeFirst(EncodeOnly(s, which), order);
    }
  }

  /** The four passes, one behind the other, invert the escaping of every string. */
  lemma DecodeInvertsEncode(s: string)
    ensures DecodeMountsField(Encode(s)) == s
  {
    hide DecodeWith, EncodeOnly;
    var order := [' ', '\t', '\n', '\\'];
    assert EscapesOf(order) == MOUNTS_ESCAPES;
    BackslashLastInverts(s, order, ESCAPED);
  }

  /** The name that reads like the escape of d. */
  lemma EncodedEscape(d: char)
    requires d in ESCAPED
    ensures Escape(d) == "\\" + Escape(d)[1..] && |Escape(d)| == 4
    ensures forall i :: 0 <= i < 3 ==> Escape(d)[1..][i] !in ESCAPED && Escape(d)[1..][i] != '\\'
    ensures Encode(Escape(d)) == Escape('\\') + Escape(d)[1..]
  {
    var digits := Escape(d)[1..];
    assert Escape(d) == "\\" + digits;
    NothingToEscape(digits);
    assert EncodeOnly(Escape(d), ESCAPED) == Escape('\\') + EncodeOnly(Escape(d)[1..], ESCAPED);
  }

  lemma {:induction false} NothingToEscape(s: string)
    requires forall i :: 0 <= i < |s| ==> s[i] !in ESCAPED
    ensures Encode(s) == s
  {
    if s != "" {
      NothingToEscape(s[1..]);
    }
  }

  /** Once the backslash is back, the name is taken for the escape of d. */
  lemma {:induction false} ThenItIsDecodedAgain(order: seq<char>, d: char)
    requires Distinct(order) && (forall c :: c in order ==> c in ESCAPED)
    requires order != [] && order[|order| - 1] == d
    ensures DecodeWith(Escape(d), EscapesOf(order)) == [d]
    decreases |order|
  {
    var c, rest := order[0], order[1..];
    DecodeFirst(Escape(d), order);
    assert Escape(d) + "" == Escape(d) && Replace("", Escape(c), c) == "";
    if |order| == 1 {
      ReplaceHit("", Escape(d), d);
      assert EscapesOf(rest) == [];
    } else {
      ReplaceMiss(d, "", c);
      ThenItIsDecodedAgain(rest, d);
    }
  }

  /** The first pass over the escaped name takes the backslash back, and nothing else. */
  lemma FirstPassOverTheName(c: char, d: char)
    requires c in ESCAPED && d in ESCAPED && c != d
    ensures Replace(Encode(Escape(d)), Escape(c), c) == if c == '\\' then Escape(d) else Encode(Escape(d))
  {
    var digits := Escape(d)[1..];
    EncodedEscape(d);
    ReplaceSkips(digits, "", Escape(c), c);
    assert digits + "" == digits && Replace("", Escape(c), c) == "";
    hide Replace, EncodeOnly, Encode, Escape;
    if c == '\\' {
      ReplaceHit(digits, Escape(c), c);
    } else {
      ReplaceMiss('\\', digits, c);
    }
  }

  lemma {:induction false} EarlyBackslashIsDecodedTwice(order: seq<char>, d: char)
    requires Distinct(order) && (forall c :: c in order ==> c in ESCAPED)
    requires '\\' in order && order[|order| - 1] == d && d != '\\'
    ensures DecodeWith(Encode(Escape(d)), EscapesOf(order)) == [d]
    decreases |order|
  {
    hide Replace, EncodeOnly, Encode, Escape, DecodeWith, EscapesOf;
    DecodeFirst(Encode(Escape(d)), order);
    FirstPassOverTheName(order[0], d);
    if order[0] == '\\' {
      ThenItIsDecodedAgain(order[1..], d);
    } else {
      EarlyBackslashIsDecodedTwice(order[1..], d);
    }
  }

  /** The four replacements may come in any order that has the backslash last, and in no other. */
  lemma OnlyTheBackslashMustComeLast(order: seq<char>)
    requires |order| == 4 && Distinct(order) && forall c :: c in ESCAPED <==> c in order
    ensures (forall s :: DecodeWith(Encode(s), EscapesOf(order)) == s) <==> order[3] == '\\'
  {
    hide EncodeOnly, Replace, Escape;
    if order[3] == '\\' {
      forall s
        ensures DecodeWith(Encode(s), EscapesOf(order)) == s
      {
        assert (set c | c in order) == ESCAPED;
        BackslashLastInverts(s, order, ESCAPED);
      }
    } else {
      var d := order[3];
      EarlyBackslashIsDecodedTwice(order, d);
      EncodedEscape(d);
      var s := Escape(d);
      assert |s| == 4 && DecodeWith(Encode(s), EscapesOf(order)) == [d];
    }
  }

  // ---- a line ----

  datatype Mount = Mount(source: string, point: string)

  /** The first two fields of a line, decoded. */
  function MountOf(line: string): Option<Mount> {
    var a := SkipBlank(line, 0);
    if a == |line| then None else
      var b := TokenEnd(line, a);
      var c := SkipBlank(line, b);
      if c == |line| then None else
        var d := TokenEnd(line, c);
        Some(Mount(DecodeMountsField(line[a..b]), DecodeMountsField(line[c..d])))
  }

  predicate NoSpace(s: string) {
    forall i :: 0 <= i < |s| ==> !IsWhitespace(s[i])
  }

  /** Not empty, and every white space in it is one that is escaped. */
  predicate Plain(s: string) {
    s != "" && forall i :: 0 <= i < |s| && IsWhitespace(s[i]) ==> s[i] in ESCAPED
  }

  lemma {:induction false} EncodeHasNoSpace(s: string, which: set<char>)
    requires ESCAPED <= which <= ESCAPED_NOW
    requires s == "" || Plain(s)
    ensures NoSpace(EncodeOnly(s, which)) && (s != "" ==> EncodeOnly(s, which) != "")
  {
    if s != "" {
      EncodeHasNoSpace(s[1..], which);
      var head := if s[0] in which then Escape(s[0]) else [s[0]];
      assert EncodeOnly(s, which) == head + EncodeOnly(s[1..], which);
      assert NoSpace(head);
    }
  }

  lemma {:induction false} ReplaceIsPlain(s: string, pat: string, c: char)
    requires pat != "" && c in ESCAPED
    requires s == "" || Plain(s)
    ensures s == "" ==> Replace(s, pat, c) == ""
    ensures s != "" ==> Plain(Replace(s, pat, c))
  {
    if s != "" {
      var n := if pat <= s then |pat| else 1;
      var rest := Replace(s[n..], pat, c);
      assert forall i :: 0 <= i < |s[n..]| ==> s[n..][i] == s[n + i];
      ReplaceIsPlain(s[n..], pat, c);
      assert Replace(s, pat, c) == [if pat <= s then c else s[0]] + rest;
    }
  }

  lemma DecodeIsPlain(word: string)
    requires word != "" && NoSpace(word)
    ensures Plain(DecodeMountsField(word))
  {
    hide Replace;
    DecodeIsFourPasses(word);
    var one := Replace(word, "\\040", ' ');
    var two := Replace(one, "\\011", '\t');
    var three := Replace(two, "\\012", '\n');
    assert Plain(one) by { ReplaceIsPlain(word, "\\040", ' '); }
    assert Plain(two) by { ReplaceIsPlain(one, "\\011", '\t'); }
    assert Plain(three) by { ReplaceIsPlain(two, "\\012", '\n'); }
    ReplaceIsPlain(three, "\\134", '\\');
  }

  function LineOf(mount: Mount, rest: string): string {
    Encode(mount.source) + " " + Encode(mount.point) + " " + rest
  }

  lemma ASpaceIsSpace()
    ensures IsWhitespace(' ')
  {
  }

  lemma FieldsOfALine(source: string, point: string, rest: string)
    requires source != "" && point != "" && NoSpace(source) && NoSpace(point)
    ensures MountOf(source + " " + point + " " + rest)
         == Some(Mount(DecodeMountsField(source), DecodeMountsField(point)))
  {
    hide DecodeMountsField, IsWhitespace;
    ASpaceIsSpace();
    var line := source + " " + point + " " + rest;
    var b, c := |source|, |source| + 1;
    var d := c + |point|;
    assert line[..b] == source && line[c..d] == point;
    assert forall i :: 0 <= i < b ==> line[i] == source[i];
    assert forall i :: c <= i < d ==> line[i] == point[i - c];
    assert line[b] == ' ' && line[d] == ' ';
    assert SkipBlank(line, 0) == 0;
    assert TokenEnd(line, 0) == b;
    assert SkipBlank(line, b) == SkipBlank(line, c) == c;
    assert TokenEnd(line, c) == d;
    assert line[0..b] == source;
  }

  /**
   A line gives back the source and the mount point exactly when neither is empty and neither has a white space
   that the kernel does not escape, such as a carriage return or a no-break space.
   */
  lemma LineGivesTheMountBack(mount: Mount, rest: string)
    ensures MountOf(LineOf(mount, rest)) == Some(mount) <==> Plain(mount.source) && Plain(mount.point)
  {
    hide DecodeMountsField, IsWhitespace, EncodeOnly;
    var line := LineOf(mount, rest);
    if Plain(mount.source) && Plain(mount.point) {
      EncodeHasNoSpace(mount.source, ESCAPED);
      EncodeHasNoSpace(mount.point, ESCAPED);
      FieldsOfALine(Encode(mount.source), Encode(mount.point), rest);
      DecodeInvertsEncode(mount.source);
      DecodeInvertsEncode(mount.point);
    }
    MountsArePlain(line);
  }

  /** Nothing that is read from a line is empty or has a white space that is never escaped. */
  lemma MountsArePlain(line: string)
    ensures MountOf(line).Some? ==> Plain(MountOf(line).value.source) && Plain(MountOf(line).value.point)
  {
    hide DecodeMountsField, IsWhitespace;
    var a := SkipBlank(line, 0);
    if a < |line| {
      var b := TokenEnd(line, a);
      var c := SkipBlank(line, b);
      assert b > a;
      DecodeIsPlain(line[a..b]);
      if c < |line| {
        var d := TokenEnd(line, c);
        assert d > c;
        DecodeIsPlain(line[c..d]);
      }
    }
  }

  // ---- the line of a kernel that escapes the hash as well ----

  function NewerLineOf(mount: Mount, rest: string): string {
    EncodeOnly(mount.source, ESCAPED_NOW) + " " + EncodeOnly(mount.point, ESCAPED_NOW) + " " + rest
  }

  /** The four passes leave the escape of the hash. */
  lemma DecodeLeavesTheHash(s: string)
    ensures DecodeMountsField(EncodeOnly(s, ESCAPED_NOW)) == EncodeOnly(s, {'#'})
  {
    hide Replace, EncodeOnly;
    DecodeIsFourPasses(EncodeOnly(s, ESCAPED_NOW));
    var three := {'\t', '\n', '\\', '#'};
    OnePassTakesBackOneEscape(s, ESCAPED_NOW, ' ');
    assert ESCAPED_NOW - {' '} == three;
    OnePassTakesBackOneEscape(s, three, '\t');
    assert three - {'\t'} == {'\n', '\\', '#'};
    OnePassTakesBackOneEscape(s, {'\n', '\\', '#'}, '\n');
    assert {'\n', '\\', '#'} - {'\n'} == {'\\', '#'};
    OnePassTakesBackOneEscape(s, {'\\', '#'}, '\\');
    assert {'\\', '#'} - {'\\'} == {'#'};
  }

  /** Each hash makes the text longer. */
  lemma {:induction false} AHashIsThreeMore(s: string)
    ensures |EncodeOnly(s, {'#'})| >= |s| + if '#' in s then 3 else 0
    ensures '#' !in s ==> EncodeOnly(s, {'#'}) == s
  {
    if s != "" {
      AHashIsThreeMore(s[1..]);
      assert s == [s[0]] + s[1..];
    }
  }

  /** The code does not take that escape back, so there the names must have no hash in addition. */
  lemma NewerLineGivesTheMountBack(mount: Mount, rest: string)
    ensures MountOf(NewerLineOf(mount, rest)) == Some(mount)
            <==> && Plain(mount.source) && Plain(mount.point)
                 && '#' !in mount.source && '#' !in mount.point
  {
    hide DecodeMountsField, IsWhitespace, EncodeOnly, Plain, NoSpace, MountOf;
    if Plain(mount.source) && Plain(mount.point) {
      EncodeHasNoSpace(mount.source, ESCAPED_NOW);
      EncodeHasNoSpace(mount.point, ESCAPED_NOW);
      PlainIsNotEmpty(mount);
      FieldsOfALine(EncodeOnly(mount.source, ESCAPED_NOW), EncodeOnly(mount.point, ESCAPED_NOW), rest);
      DecodeLeavesTheHash(mount.source);
      DecodeLeavesTheHash(mount.point);
      AHashIsThreeMore(mount.source);
      AHashIsThreeMore(mount.point);
    }
    MountsArePlain(NewerLineOf(mount, rest));
  }

  lemma PlainIsNotEmpty(mount: Mount)
    requires Plain(mount.source) && Plain(mount.point)
    ensures mount.source != "" && mount.point != ""
  {
  }

  /** A mount that is lost: the kernel does not escape the carriage return in its name. */
  lemma AMountIsLost(rest: string)
    ensures MountOf(LineOf(Mount("/dev/sda1", "/mnt/a\rb"), rest)) != Some(Mount("/dev/sda1", "/mnt/a\rb"))
  {
    hide LineOf, MountOf;
    var mount := Mount("/dev/sda1", "/mnt/a\rb");
    assert mount.point[6] == '\r' && IsWhitespace('\r');
    LineGivesTheMountBack(mount, rest);
  }

  // ---- the order of the unmounts ----

  /** The components of a path behind a leading slash: what is empty or a dot between slashes does not count. */
  function Names(path: string): nat {
    match Find(path, "/")
    case None => if path == "" || path == "." then 0 else 1
    case Some(k) => Names(path[..k]) + Names(path[k + 1..])
  }

  function Depth(path: string): nat {
    Names(path) + if path != "" && path[0] == '/' then 1
                  else if path == "." || "./" <= path then 1 else 0
  }

  /** The mount points on the disk, in the order of the lines. */
  function Backed(lines: seq<string>, disk: nat, diskOf: string -> Option<nat>): seq<string> {
    if lines == [] then [] else
      var rest := Backed(lines[1..], disk, diskOf);
      match MountOf(lines[0])
      case None => rest
      case Some(mount) => if diskOf(mount.source) == Some(disk) then [mount.point] + rest else rest
  }

  function PointsOn(mounts: seq<Mount>, disk: nat, diskOf: string -> Option<nat>): seq<string> {
    if mounts == [] then []
    else (if diskOf(mounts[0].source) == Some(disk) then [mounts[0].point] else [])
         + PointsOn(mounts[1..], disk, diskOf)
  }

  /** No mount of a table is missed and none is taken from another disk. */
  lemma {:induction false} BackedIsExact(mounts: seq<Mount>, rests: seq<string>, lines: seq<string>,
                                         disk: nat, diskOf: string -> Option<nat>)
    requires |mounts| == |rests| == |lines|
    requires forall i :: 0 <= i < |lines| ==> lines[i] == LineOf(mounts[i], rests[i])
    requires forall i :: 0 <= i < |mounts| ==> Plain(mounts[i].source) && Plain(mounts[i].point)
    ensures Backed(lines, disk, diskOf) == PointsOn(mounts, disk, diskOf)
  {
    hide MountOf, LineOf, Plain;
    if mounts != [] {
      LineGivesTheMountBack(mounts[0], rests[0]);
      BackedIsExact(mounts[1..], rests[1..], lines[1..], disk, diskOf);
    }
  }

  function InsertDeepest(point: string, points: seq<string>): seq<string> {
    if points == [] || Depth(points[0]) <= Depth(point) then [point] + points
    else [points[0]] + InsertDeepest(point, points[1..])
  }

  /** A stable sort, deepest first. */
  function SortDeepest(points: seq<string>): seq<string> {
    if points == [] then [] else InsertDeepest(points[0], SortDeepest(points[1..]))
  }

  function MountsBackedBy(procMounts: string, disk: nat, diskOf: string -> Option<nat>): seq<string> {
    SortDeepest(Backed(Lines(procMounts), disk, diskOf))
  }

  ghost predicate DeepestFirst(points: seq<string>) {
    forall i, j :: 0 <= i < j < |points| ==> Depth(points[i]) >= Depth(points[j])
  }

  lemma {:induction false} InsertIsAPermutation(point: string, points: seq<string>)
    ensures multiset(InsertDeepest(point, points)) == multiset(points) + multiset{point}
  {
    hide Depth;
    if points != [] {
      assert points == [points[0]] + points[1..];
      InsertIsAPermutation(point, points[1..]);
    }
  }

  lemma DeepestInFront(point: string, points: seq<string>)
    requires DeepestFirst(points) && forall q :: q in multiset(points) ==> Depth(q) <= Depth(point)
    ensures DeepestFirst([point] + points)
  {
    hide Depth;
    forall i, j | 0 <= i < j < |[point] + points|
      ensures Depth(([point] + points)[i]) >= Depth(([point] + points)[j])
    {
      assert points[j - 1] in multiset(points);
    }
  }

  lemma {:induction false} InsertKeepsOrder(point: string, points: seq<string>)
    requires DeepestFirst(points)
    ensures DeepestFirst(InsertDeepest(point, points))
  {
    hide Depth;
    if points != [] {
      if Depth(points[0]) > Depth(point) {
        InsertKeepsOrder(point, points[1..]);
        InsertIsAPermutation(point, points[1..]);
        DeepestInFront(points[0], InsertDeepest(point, points[1..]));
      } else {
        DeepestInFront(point, points);
      }
    }
  }

  lemma {:induction false} SortOrders(points: seq<string>)
    ensures DeepestFirst(SortDeepest(points))
    ensures multiset(SortDeepest(points)) == multiset(points)
  {
    hide Depth;
    if points != [] {
      SortOrders(points[1..]);
      InsertKeepsOrder(points[0], SortDeepest(points[1..]));
      InsertIsAPermutation(points[0], SortDeepest(points[1..]));
      assert points == [points[0]] + points[1..];
    }
  }

  lemma {:induction false} NamesOfAJoin(parent: string, name: string)
    ensures Names(parent + "/" + name) == Names(parent) + Names(name)
    decreases |parent|
  {
    var path := parent + "/" + name;
    match Find(parent, "/") {
      case None =>
        var k := |parent|;
        assert path[k] == '/' && path[..k] == parent && path[k + 1..] == name;
        assert path[k..k + 1] == "/";
        forall j | 0 <= j < k
          ensures !OccursAt(path, "/", j)
        {
          assert path[j..j + 1] == [parent[j]] && parent[j..j + 1] == [parent[j]];
          assert !OccursAt(parent, "/", j);
        }
        FirstOccurrence(path, "/", k);
      case Some(k) =>
        assert path[k..k + 1] == parent[k..k + 1];
        forall j | 0 <= j < k
          ensures !OccursAt(path, "/", j)
        {
          assert path[j..j + 1] == parent[j..j + 1];
          assert !OccursAt(parent, "/", j);
        }
        FirstOccurrence(path, "/", k);
        assert path[..k] == parent[..k] && path[k + 1..] == parent[k + 1..] + "/" + name;
        NamesOfAJoin(parent[k + 1..], name);
    }
  }

  /** A component that is no dot. */
  predicate IsName(name: string) {
    name != "" && name != "." && forall i :: 0 <= i < |name| ==> name[i] != '/'
  }

  function Joined(names: seq<string>): string
    requires names != []
  {
    if |names| == 1 then names[0] else names[0] + "/" + Joined(names[1..])
  }

  lemma NoSlashInside(name: string)
    requires forall i :: 0 <= i < |name| ==> name[i] != '/'
    ensures Find(name, "/").None?
  {
    hide Find;
    forall k | 0 <= k < |name|
      ensures !OccursAt(name, "/", k)
    {
      assert name[k..k + 1] == [name[k]];
    }
  }

  lemma NothingCounts()
    ensures Names("") == Names(".") == 0
  {
    NoSlashInside("");
    NoSlashInside(".");
  }

  lemma {:induction false} NamesAreCounted(names: seq<string>)
    requires names != [] && forall i :: 0 <= i < |names| ==> IsName(names[i])
    ensures Names(Joined(names)) == |names| && Joined(names) != "" && Joined(names)[0] != '/'
    ensures Joined(names) != "." && !("./" <= Joined(names))
  {
    assert IsName(names[0]);
    NoSlashInside(names[0]);
    if |names| > 1 {
      NamesAreCounted(names[1..]);
      NamesOfAJoin(names[0], Joined(names[1..]));
      assert |names[0]| > 1 ==> Joined(names)[1] == names[0][1];
    } else {
      assert |names[0]| > 1 ==> names[0][1] != '/';
    }
  }

  /** The depth of a path is the number of its components, with the root or a leading dot as one of them. */
  lemma DepthCountsTheComponents(names: seq<string>)
    requires names != [] && forall i :: 0 <= i < |names| ==> IsName(names[i])
    ensures Depth("/" + Joined(names)) == 1 + |names|
    ensures Depth(Joined(names)) == |names|
    ensures Depth("./" + Joined(names)) == 1 + |names|
  {
    hide Names, Joined;
    NamesAreCounted(names);
    BehindARoot(Joined(names));
    BehindADot(Joined(names));
  }

  lemma BehindARoot(path: string)
    ensures Depth("/" + path) == 1 + Names(path)
  {
    NothingCounts();
    hide Names;
    NamesOfAJoin("", path);
    assert "" + "/" + path == "/" + path;
  }

  lemma BehindADot(path: string)
    ensures Depth("./" + path) == 1 + Names(path)
  {
    NothingCounts();
    hide Names;
    NamesOfAJoin(".", path);
    assert "." + "/" + path == "./" + path;
  }

  lemma DepthOfTheShortest()
    ensures Depth("") == 0 && Depth(".") == 1 && Depth("/") == 1 && Depth("./") == 1
  {
    NothingCounts();
    hide Names;
    BehindARoot("");
    BehindADot("");
    assert "/" + "" == "/" && "./" + "" == "./";
  }

  /** The path `child` names something below the absolute path `parent`. */
  ghost predicate Below(child: string, parent: string) {
    && parent != "" && parent[0] == '/'
    && exists name :: Names(name) > 0 && child == (if parent == "/" then parent else parent + "/") + name
  }

  lemma BelowIsDeeper(child: string, parent: string)
    requires Below(child, parent)
    ensures Depth(child) > Depth(parent)
  {
    hide Names;
    var name :| Names(name) > 0 && child == (if parent == "/" then parent else parent + "/") + name;
    assert child[0] == '/';
    if parent == "/" {
      NamesOfAJoin("", name);
      NamesOfAJoin("", "");
      assert "" + "/" + name == child && "" + "/" + "" == "/";
      assert Names("") == 0 by { NoNames(); }
    } else {
      NamesOfAJoin(parent, name);
    }
  }

  lemma NoNames()
    ensures Names("") == 0
  {
  }

  /** Of the text of a table exactly the mounts on the disk are taken, deepest first. */
  lemma MountsOfATable(mounts: seq<Mount>, rests: seq<string>, disk: nat, diskOf: string -> Option<nat>)
    requires |mounts| == |rests| > 0
    requires forall i :: 0 <= i < |mounts| ==>
               && Plain(mounts[i].source) && Plain(mounts[i].point)
               && rests[i] != "" && NoNewline(rests[i]) && !EndsInCr(rests[i])
    ensures var lines := seq(|mounts|, i requires 0 <= i < |mounts| => LineOf(mounts[i], rests[i]));
            MountsBackedBy(Join(lines) + "\n", disk, diskOf) == SortDeepest(PointsOn(mounts, disk, diskOf))
  {
    hide LineOf, Plain, MountOf, Backed, SortDeepest, Lines, Join;
    var lines := seq(|mounts|, i requires 0 <= i < |mounts| => LineOf(mounts[i], rests[i]));
    forall i | 0 <= i < |lines|
      ensures NoNewline(lines[i]) && !EndsInCr(lines[i])
    {
      LineIsOneLine(mounts[i], rests[i]);
    }
    LinesOfJoin(lines);
    assert StripAll(lines) == lines;
    BackedIsExact(mounts, rests, lines, disk, diskOf);
  }

  lemma LineIsOneLine(mount: Mount, rest: string)
    requires Plain(mount.source) && Plain(mount.point) && rest != "" && NoNewline(rest) && !EndsInCr(rest)
    ensures NoNewline(LineOf(mount, rest)) && !EndsInCr(LineOf(mount, rest))
  {
    EncodeHasNoSpace(mount.source, ESCAPED);
    EncodeHasNoSpace(mount.point, ESCAPED);
    hide Encode, Plain;
    assert IsWhitespace('\n');
    var line := LineOf(mount, rest);
    assert line[|line| - 1] == rest[|rest| - 1];
  }

  /** The mounts taken down are those on the disk, each as often as it is listed, and a nested one before its parent. */
  lemma NestedMountsGoFirst(procMounts: string, disk: nat, diskOf: string -> Option<nat>, i: nat, j: nat)
    requires var points := MountsBackedBy(procMounts, disk, diskOf);
             i < |points| && j < |points| && Below(points[i], points[j])
    ensures i < j
    ensures multiset(MountsBackedBy(procMounts, disk, diskOf)) == multiset(Backed(Lines(procMounts), disk, diskOf))
  {
    hide Depth, Below;
    var points := MountsBackedBy(procMounts, disk, diskOf);
    SortOrders(Backed(Lines(procMounts), disk, diskOf));
    BelowIsDeeper(points[i], points[j]);
  }
}
