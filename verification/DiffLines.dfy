/** Reading the changed lines out of a zero-context unified diff, and what printing one gives back. */
module DiffLines {
  import opened Text

  // ----------------------------------------------------------- the parser

  datatype Number = Number(value: nat, rest: string)

  function LeadingDigits(s: string): (n: nat)
    ensures n <= |s| && forall i :: 0 <= i < n ==> IsAsciiDigit(s[i])
  {
    if s != "" && IsAsciiDigit(s[0]) then 1 + LeadingDigits(s[1..]) else 0
  }

  /** `\d+`. */
  function EatNumber(s: string): Option<Number>
  {
    var n := LeadingDigits(s);
    if n == 0 then None else Some(Number(DecimalValue(s[..n]), s[n..]))
  }

  datatype Counted = Counted(count: Option<nat>, rest: string)

  /** `(?:,(\d+))?`. */
  function EatCount(s: string): Counted
  {
    if "," <= s && EatNumber(s[1..]).Some?
    then Counted(Some(EatNumber(s[1..]).value.value), EatNumber(s[1..]).value.rest)
    else Counted(None, s)
  }

  datatype Hit = Hit(start: nat, count: nat)

  /** A number and an optional count, the count being 1 when it is left out. */
  function EatRange(s: string): Option<(Hit, string)>
  {
    var n := EatNumber(s);
    if n.None? then None
    else
      var c := EatCount(n.value.rest);
      Some((Hit(n.value.value, if c.count.Some? then c.count.value else 1), c.rest))
  }

  /** The hunk header pattern; the new side of the hunk. */
  function HunkMatch(line: string): Option<Hit>
  {
    if !("@@ -" <= line) then None
    else
      var before := EatRange(line[4..]);
      if before.None? || !(" +" <= before.value.1) then None
      else
        var after := EatRange(before.value.1[2..]);
        if after.None? || !(" @@" <= after.value.1) then None else Some(after.value.0)
  }

  const HEADER := "+++ b/"

  type Changed = map<string, set<nat>>

  datatype State = State(path: Option<string>, changed: Changed)

  /** `range(start, start + count)`. */
  function Range(h: Hit): set<nat>
    decreases h.count
  {
    if h.count == 0 then {} else Range(Hit(h.start, h.count - 1)) + {h.start + h.count - 1}
  }

  lemma {:induction false} InRange(h: Hit, k: nat)
    ensures k in Range(h) <==> h.start <= k < h.start + h.count
    decreases h.count
  {
    if h.count > 0 {
      InRange(Hit(h.start, h.count - 1), k);
    }
  }

  /** The lines recorded for a file. */
  function Lines(c: Changed, file: string): set<nat> { if file in c then c[file] else {} }

  function Step(st: State, line: string): State
  {
    if HEADER <= line then st.(path := Some(line[|HEADER|..]))
    else if st.path.Some? && st.path.value != "" && HunkMatch(line).Some? then
      st.(changed := st.changed[st.path.value := Lines(st.changed, st.path.value) + Range(HunkMatch(line).value)])
    else st
  }

  function Parse(st: State, lines: seq<string>): State
    decreases |lines|
  {
    if lines == [] then st else Step(Parse(st, lines[..|lines| - 1]), lines[|lines| - 1])
  }

  /** The loop over the lines. */
  method ParseChangedLines(lines: seq<string>) returns (changed: Changed)
    ensures changed == Parse(State(None, map[]), lines).changed
  {
    changed := map[];
    var path: Option<string> := None;
    for i := 0 to |lines|
      invariant Parse(State(None, map[]), lines[..i]) == State(path, changed)
    {
      var line := lines[i];
      assert lines[..i + 1][..i] == lines[..i];
      if HEADER <= line {
        path := Some(line[|HEADER|..]);
      } else if path.Some? && path.value != "" {
        var hit := HunkMatch(line);
        if hit.Some? {
          var own := if path.value in changed then changed[path.value] else {};
          changed := changed[path.value := own + Range(hit.value)];
        }
      }
    }
    assert lines[..|lines|] == lines;
  }

  // ------------------------------------- what a run of lines contributes

  function PathAfter(path: Option<string>, lines: seq<string>): Option<string>
    decreases |lines|
  {
    if lines == [] then path
    else if HEADER <= lines[0] then PathAfter(Some(lines[0][|HEADER|..]), lines[1..])
    else PathAfter(path, lines[1..])
  }

  function LineAdds(path: Option<string>, line: string, file: string): set<nat>
  {
    if !(HEADER <= line) && path == Some(file) && file != "" && HunkMatch(line).Some? then Range(HunkMatch(line).value) else {}
  }

  /** What the lines add to the record of one file. */
  function Adds(path: Option<string>, lines: seq<string>, file: string): set<nat>
    decreases |lines|
  {
    if lines == [] then {}
    else LineAdds(path, lines[0], file) + Adds(PathAfter(path, lines[..1]), lines[1..], file)
  }

  lemma PathAfterOne(path: Option<string>, line: string)
    ensures PathAfter(path, [line]) == if HEADER <= line then Some(line[|HEADER|..]) else path
  {
    assert [line][1..] == [];
  }

  lemma {:induction false} PathAfterConcat(path: Option<string>, a: seq<string>, b: seq<string>)
    ensures PathAfter(path, a + b) == PathAfter(PathAfter(path, a), b)
    decreases |a|
  {
    if a == [] {
      assert a + b == b;
    } else {
      assert (a + b)[1..] == a[1..] + b && (a + b)[0] == a[0];
      PathAfterConcat(if HEADER <= a[0] then Some(a[0][|HEADER|..]) else path, a[1..], b);
    }
  }

  lemma {:induction false} AddsConcat(path: Option<string>, a: seq<string>, b: seq<string>, file: string)
    ensures Adds(path, a + b, file) == Adds(path, a, file) + Adds(PathAfter(path, a), b, file)
    decreases |a|
  {
    if a == [] {
      assert a + b == b;
    } else {
      assert (a + b)[1..] == a[1..] + b && (a + b)[..1] == a[..1] && (a + b)[0] == a[0];
      AddsConcat(PathAfter(path, a[..1]), a[1..], b, file);
      assert a == a[..1] + a[1..];
      PathAfterConcat(path, a[..1], a[1..]);
    }
  }

  lemma AddsOne(path: Option<string>, line: string, file: string)
    ensures Adds(path, [line], file) == LineAdds(path, line, file)
  {
    assert [line][1..] == [];
  }

  /** The parser records exactly what each line contributes. */
  lemma {:induction false} ParseAdds(lines: seq<string>, file: string)
    ensures Parse(State(None, map[]), lines).path == PathAfter(None, lines)
    ensures Lines(Parse(State(None, map[]), lines).changed, file) == Adds(None, lines, file)
    decreases |lines|
  {
    if lines != [] {
      var init, last := lines[..|lines| - 1], lines[|lines| - 1];
      ParseAdds(init, file);
      assert lines == init + [last];
      PathAfterConcat(None, init, [last]);
      PathAfterOne(PathAfter(None, init), last);
      AddsConcat(None, init, [last], file);
      AddsOne(PathAfter(None, init), last, file);
    }
  }

  // ---------------------------------------------------------- the printer

  /**
   * One hunk; a count left out means 1.  `section` is what git prints after the second `@@`; a
   * side whose last line ends without a line feed is followed by git's remark about it.
   */
  datatype Hunk = Hunk(
    oldStart: nat, oldCount: Option<nat>, start: nat, count: Option<nat>, section: string,
    removed: seq<string>, oldCut: bool, added: seq<string>, newCut: bool)

  /**
   * How git spells the new name of a file: as it is, with a tab behind it when it holds a space,
   * in quotes when it holds special characters, or not at all when the file is deleted.
   */
  datatype Name = Plain(path: string) | Tabbed(path: string) | Quoted(path: string, spelled: string) | Gone

  /** One file; `preamble` is everything up to `+++`. */
  datatype FileDiff = FileDiff(preamble: seq<string>, name: Name, hunks: seq<Hunk>)
  {
    function Path(): Option<string> { if name.Gone? then None else Some(name.path) }
  }

  function PrintRange(start: nat, count: Option<nat>): string
  {
    Decimal(start) + (if count.Some? then "," + Decimal(count.value) else "")
  }

  function HunkHeader(h: Hunk): string
  {
    "@@ -" + PrintRange(h.oldStart, h.oldCount) + " +" + PrintRange(h.start, h.count) + " @@" + h.section
  }

  function Prefixed(mark: string, lines: seq<string>): (marked: seq<string>)
    ensures |marked| == |lines|
  {
    seq(|lines|, i requires 0 <= i < |lines| => mark + lines[i])
  }

  function Remark(cut: bool): seq<string> { if cut then ["\\ No newline at end of file"] else [] }

  function PrintHunk(h: Hunk): seq<string>
  {
    [HunkHeader(h)] + Prefixed("-", h.removed) + Remark(h.oldCut) + Prefixed("+", h.added) + Remark(h.newCut)
  }

  function PrintHunks(hs: seq<Hunk>): seq<string>
  {
    if hs == [] then [] else PrintHunk(hs[0]) + PrintHunks(hs[1..])
  }

  function FileHeader(name: Name): string
  {
    match name
    case Plain(path) => HEADER + path
    case Tabbed(path) => HEADER + path + "\t"
    case Quoted(_, spelled) => "+++ \"b/" + spelled + "\""
    case Gone => "+++ /dev/null"
  }

  function PrintFile(f: FileDiff): seq<string> { f.preamble + [FileHeader(f.name)] + PrintHunks(f.hunks) }

  function Print(fs: seq<FileDiff>): seq<string>
  {
    if fs == [] then [] else PrintFile(fs[0]) + Print(fs[1..])
  }

  // ------------------------------------------- hunk headers read back

  lemma {:induction false} DigitsEnd(d: string, rest: string)
    requires forall i :: 0 <= i < |d| ==> IsAsciiDigit(d[i])
    requires rest == "" || !IsAsciiDigit(rest[0])
    ensures LeadingDigits(d + rest) == |d|
    decreases |d|
  {
    if d == "" {
      assert d + rest == rest;
    } else {
      assert (d + rest)[1..] == d[1..] + rest;
      DigitsEnd(d[1..], rest);
    }
  }

  lemma NumberBack(n: nat, rest: string)
    requires rest == "" || !IsAsciiDigit(rest[0])
    ensures EatNumber(Decimal(n) + rest) == Some(Number(n, rest))
  {
    var s := Decimal(n) + rest;
    DigitsEnd(Decimal(n), rest);
    assert s[..|Decimal(n)|] == Decimal(n) && s[|Decimal(n)|..] == rest;
    DecimalRoundTrip(n);
  }

  lemma CountBack(n: nat, rest: string)
    requires rest == "" || !IsAsciiDigit(rest[0])
    ensures EatCount("," + Decimal(n) + rest) == Counted(Some(n), rest)
  {
    var s := "," + Decimal(n) + rest;
    assert s[1..] == Decimal(n) + rest;
    NumberBack(n, rest);
  }

  function CountOf(count: Option<nat>): nat { if count.Some? then count.value else 1 }

  lemma RangeBack(start: nat, count: Option<nat>, rest: string)
    requires rest != "" && rest[0] == ' '
    ensures EatRange(PrintRange(start, count) + rest) == Some((Hit(start, CountOf(count)), rest))
  {
    if count.Some? {
      var tail := "," + Decimal(count.value) + rest;
      assert PrintRange(start, count) + rest == Decimal(start) + tail;
      assert tail[0] == ',';
      NumberBack(start, tail);
      CountBack(count.value, rest);
    } else {
      assert PrintRange(start, count) + rest == Decimal(start) + rest;
      NumberBack(start, rest);
    }
  }

  lemma HunkParts(line: string, x: Hit, middle: string, y: Hit, tail: string)
    requires "@@ -" <= line && EatRange(line[4..]) == Some((x, " +" + middle))
    requires EatRange(middle) == Some((y, " @@" + tail))
    ensures HunkMatch(line) == Some(y)
  {
    assert (" +" + middle)[2..] == middle;
  }

  lemma HeaderPieces(a: string, b: string, section: string)
    ensures var line := "@@ -" + a + " +" + b + " @@" + section;
            "@@ -" <= line && line[4..] == a + (" +" + (b + (" @@" + section))) && !(HEADER <= line)
  {
    var line := "@@ -" + a + " +" + b + " @@" + section;
    assert line == "@@ -" + (a + (" +" + (b + (" @@" + section))));
    assert line[0] == '@';
  }

  /** A printed hunk header is read as the new side of the hunk, whatever section text follows. */
  lemma HunkBack(h: Hunk)
    ensures HunkMatch(HunkHeader(h)) == Some(Hit(h.start, CountOf(h.count)))
    ensures !(HEADER <= HunkHeader(h))
  {
    var a, b := PrintRange(h.oldStart, h.oldCount), PrintRange(h.start, h.count);
    var middle := b + (" @@" + h.section);
    HeaderPieces(a, b, h.section);
    RangeBack(h.oldStart, h.oldCount, " +" + middle);
    RangeBack(h.start, h.count, " @@" + h.section);
    HunkParts(HunkHeader(h), Hit(h.oldStart, CountOf(h.oldCount)), middle, Hit(h.start, CountOf(h.count)), h.section);
  }

  // ------------------------------------------- the header pattern exactly

  ghost predicate AllDigits(d: string) { d != "" && forall i :: 0 <= i < |d| ==> IsAsciiDigit(d[i]) }

  ghost predicate CountedRange(t: string, d: string, c: string) { AllDigits(d) && AllDigits(c) && t == d + ("," + c) }

  /** Digits, and perhaps a comma and digits again. */
  ghost predicate RangeText(t: string, x: Hit)
  {
    || (AllDigits(t) && x == Hit(DecimalValue(t), 1))
    || (exists d, c :: CountedRange(t, d, c) && x == Hit(DecimalValue(d), DecimalValue(c)))
  }

  lemma DigitsRead(d: string, rest: string)
    requires AllDigits(d) && (rest == "" || !IsAsciiDigit(rest[0]))
    ensures EatNumber(d + rest) == Some(Number(DecimalValue(d), rest))
  {
    DigitsEnd(d, rest);
    assert (d + rest)[..|d|] == d && (d + rest)[|d|..] == rest;
  }

  lemma CountRead(c: string, rest: string)
    requires AllDigits(c) && rest != "" && rest[0] == ' '
    ensures EatCount("," + c + rest) == Counted(Some(DecimalValue(c)), rest)
  {
    assert ("," + c + rest)[1..] == c + rest;
    DigitsRead(c, rest);
  }

  lemma CountedRead(t: string, d: string, c: string, rest: string)
    requires CountedRange(t, d, c) && rest != "" && rest[0] == ' '
    ensures EatRange(t + rest) == Some((Hit(DecimalValue(d), DecimalValue(c)), rest))
  {
    var tail := "," + c + rest;
    assert t + rest == d + tail && tail[0] == ',';
    DigitsRead(d, tail);
    CountRead(c, rest);
  }

  lemma RangeRead(t: string, x: Hit, rest: string)
    requires RangeText(t, x) && rest != "" && rest[0] == ' '
    ensures EatRange(t + rest) == Some((x, rest))
  {
    if AllDigits(t) && x == Hit(DecimalValue(t), 1) {
      DigitsRead(t, rest);
    } else {
      var d, c :| CountedRange(t, d, c) && x == Hit(DecimalValue(d), DecimalValue(c));
      CountedRead(t, d, c, rest);
    }
  }

  lemma NumberSpelled(s: string) returns (d: string)
    requires EatNumber(s).Some?
    ensures AllDigits(d) && s == d + EatNumber(s).value.rest && EatNumber(s).value.value == DecimalValue(d)
  {
    d := s[..LeadingDigits(s)];
  }

  lemma CountSpelled(s: string) returns (c: string)
    requires EatCount(s).count.Some?
    ensures AllDigits(c) && s == "," + c + EatCount(s).rest && EatCount(s).count.value == DecimalValue(c)
  {
    c := NumberSpelled(s[1..]);
    Behind(s, ",");
  }

  lemma RangeSpelled(s: string) returns (t: string)
    requires EatRange(s).Some?
    ensures RangeText(t, EatRange(s).value.0) && s == t + EatRange(s).value.1
  {
    var d := NumberSpelled(s);
    var rest := EatNumber(s).value.rest;
    if EatCount(rest).count.Some? {
      var c := CountSpelled(rest);
      t := d + ("," + c);
      assert CountedRange(t, d, c);
      CountJoined(d, c, EatCount(rest).rest);
    } else {
      t := d;
    }
  }

  lemma CountJoined(d: string, c: string, rest: string)
    ensures d + ("," + c + rest) == d + ("," + c) + rest
  {
  }

  /** The line is a hunk header with these two ranges and something behind it. */
  ghost predicate HeaderText(line: string, a: string, b: string, tail: string)
  {
    line == "@@ -" + a + " +" + b + " @@" + tail
  }

  /** A line is taken for a hunk header exactly when it spells one, whatever its numbers; it means its new side. */
  lemma HunkExact(line: string, hit: Hit)
    ensures HunkMatch(line) == Some(hit) <==>
            exists a, x, b, tail :: RangeText(a, x) && RangeText(b, hit) && HeaderText(line, a, b, tail)
  {
    if a, x, b, tail :| RangeText(a, x) && RangeText(b, hit) && HeaderText(line, a, b, tail) {
      var middle := b + (" @@" + tail);
      HeaderPieces(a, b, tail);
      RangeRead(a, x, " +" + middle);
      RangeRead(b, hit, " @@" + tail);
      HunkParts(line, x, middle, hit, tail);
    }
    if HunkMatch(line) == Some(hit) {
      var a, b, tail := HunkSpelled(line);
      assert RangeText(a, EatRange(line[4..]).value.0) && RangeText(b, hit) && HeaderText(line, a, b, tail);
    }
  }

  lemma Behind(s: string, prefix: string)
    requires prefix <= s
    ensures s == prefix + s[|prefix|..]
  {
  }

  lemma HunkSpelled(line: string) returns (a: string, b: string, tail: string)
    requires HunkMatch(line).Some?
    ensures EatRange(line[4..]).Some? && RangeText(a, EatRange(line[4..]).value.0)
    ensures RangeText(b, HunkMatch(line).value) && HeaderText(line, a, b, tail)
  {
    a := RangeSpelled(line[4..]);
    var middle := EatRange(line[4..]).value.1;
    b := RangeSpelled(middle[2..]);
    var behind := EatRange(middle[2..]).value.1;
    tail := behind[3..];
    Behind(line, "@@ -");
    Behind(middle, " +");
    Behind(behind, " @@");
    HeaderJoined(a, b, tail);
  }

  lemma HeaderJoined(a: string, b: string, tail: string)
    ensures "@@ -" + (a + (" +" + (b + (" @@" + tail)))) == "@@ -" + a + " +" + b + " @@" + tail
  {
  }

  // ------------------------------------------- whose lines a hunk counts as

  predicate Quiet(line: string) { !(HEADER <= line) && HunkMatch(line).None? }

  lemma {:induction false} QuietRun(path: Option<string>, lines: seq<string>, file: string)
    requires forall i :: 0 <= i < |lines| ==> Quiet(lines[i])
    ensures Adds(path, lines, file) == {} && PathAfter(path, lines) == path
    decreases |lines|
  {
    if lines != [] {
      assert lines[..1] == [lines[0]];
      PathAfterOne(path, lines[0]);
      QuietRun(path, lines[1..], file);
    }
  }

  lemma QuietLine(mark: char, line: string)
    requires mark != '+' && mark != '@'
    ensures Quiet([mark] + line)
  {
    assert ([mark] + line)[0] == mark;
  }

  /** An added line that spells a file header once the `+` is in front of it. */
  predicate Hijacks(line: string) { "++ b/" <= line }

  /** The file that hunks after these added lines count as. */
  function Hijacked(path: Option<string>, added: seq<string>): Option<string>
    decreases |added|
  {
    if added == [] then path
    else Hijacked(if Hijacks(added[0]) then Some(added[0][5..]) else path, added[1..])
  }

  lemma AddedLine(line: string)
    ensures HEADER <= "+" + line <==> Hijacks(line)
    ensures Hijacks(line) ==> ("+" + line)[|HEADER|..] == line[5..]
    ensures HunkMatch("+" + line).None?
  {
    var s := "+" + line;
    assert s[0] == '+';
    assert HEADER == "+" + "++ b/";
    assert s[1..] == line;
    if Hijacks(line) {
      assert line == "++ b/" + line[5..];
      assert s == HEADER + line[5..];
    }
    if HEADER <= s {
      assert s[1..6] == HEADER[1..6] == "++ b/";
      assert line[..5] == s[1..6];
    }
  }

  lemma {:induction false} AddedRun(path: Option<string>, added: seq<string>, file: string)
    ensures Adds(path, Prefixed("+", added), file) == {}
    ensures PathAfter(path, Prefixed("+", added)) == Hijacked(path, added)
    decreases |added|
  {
    var lines := Prefixed("+", added);
    if added != [] {
      AddedLine(added[0]);
      assert lines[1..] == Prefixed("+", added[1..]);
      assert lines[..1] == [lines[0]];
      PathAfterOne(path, lines[0]);
      AddedRun(PathAfter(path, lines[..1]), added[1..], file);
    }
  }

  function HunkLines(h: Hunk): set<nat> { Range(Hit(h.start, CountOf(h.count))) }

  function Own(path: Option<string>, h: Hunk, file: string): set<nat>
  {
    if path == Some(file) && file != "" then HunkLines(h) else {}
  }

  lemma QuietMiddle(path: Option<string>, h: Hunk, file: string)
    ensures var quiet := Prefixed("-", h.removed) + Remark(h.oldCut);
            Adds(path, quiet, file) == {} && PathAfter(path, quiet) == path
    ensures Adds(path, Remark(h.newCut), file) == {} && PathAfter(path, Remark(h.newCut)) == path
  {
    var minus := Prefixed("-", h.removed);
    forall i | 0 <= i < |minus| ensures Quiet(minus[i]) {
      QuietLine('-', h.removed[i]);
    }
    var remark := "\\ No newline at end of file";
    assert remark == ['\\'] + remark[1..];
    QuietLine('\\', remark[1..]);
    QuietRun(path, minus + Remark(h.oldCut), file);
    QuietRun(path, Remark(h.newCut), file);
  }

  lemma HunkTop(path: Option<string>, h: Hunk, file: string)
    ensures Adds(path, [HunkHeader(h)], file) == Own(path, h, file) && PathAfter(path, [HunkHeader(h)]) == path
  {
    HunkBack(h);
    AddsOne(path, HunkHeader(h), file);
    PathAfterOne(path, HunkHeader(h));
  }

  lemma OneHunk(path: Option<string>, h: Hunk, file: string)
    ensures Adds(path, PrintHunk(h), file) == Own(path, h, file)
    ensures PathAfter(path, PrintHunk(h)) == Hijacked(path, h.added)
  {
    var top, quiet, plus := [HunkHeader(h)], Prefixed("-", h.removed) + Remark(h.oldCut), Prefixed("+", h.added);
    HunkTop(path, h, file);
    QuietMiddle(path, h, file);
    AddedRun(path, h.added, file);
    QuietMiddle(Hijacked(path, h.added), h, file);
    FourRuns(path, top, quiet, plus, Remark(h.newCut), file);
    assert top + Prefixed("-", h.removed) + Remark(h.oldCut) == top + quiet;
  }

  lemma FourRuns(path: Option<string>, a: seq<string>, b: seq<string>, c: seq<string>, d: seq<string>, file: string)
    requires PathAfter(path, a) == path && PathAfter(path, b) == path
    ensures Adds(path, a + b + c + d, file)
         == Adds(path, a, file) + Adds(path, b, file) + Adds(path, c, file) + Adds(PathAfter(path, c), d, file)
    ensures PathAfter(path, a + b + c + d) == PathAfter(PathAfter(path, c), d)
  {
    AddsConcat(path, a, b, file);
    PathAfterConcat(path, a, b);
    AddsConcat(path, a + b, c, file);
    PathAfterConcat(path, a + b, c);
    AddsConcat(path, a + b + c, d, file);
    PathAfterConcat(path, a + b + c, d);
  }

  function PathAfterHunks(path: Option<string>, hs: seq<Hunk>): Option<string>
    decreases |hs|
  {
    if hs == [] then path else PathAfterHunks(Hijacked(path, hs[0].added), hs[1..])
  }

  /** The lines that hunks printed under a path count towards a file. */
  function Attributed(path: Option<string>, hs: seq<Hunk>, file: string): set<nat>
    decreases |hs|
  {
    if hs == [] then {}
    else Own(path, hs[0], file) + Attributed(Hijacked(path, hs[0].added), hs[1..], file)
  }

  lemma {:induction false} HunksRun(path: Option<string>, hs: seq<Hunk>, file: string)
    ensures Adds(path, PrintHunks(hs), file) == Attributed(path, hs, file)
    ensures PathAfter(path, PrintHunks(hs)) == PathAfterHunks(path, hs)
    decreases |hs|
  {
    if hs != [] {
      OneHunk(path, hs[0], file);
      HunksRun(Hijacked(path, hs[0].added), hs[1..], file);
      AddsConcat(path, PrintHunk(hs[0]), PrintHunks(hs[1..]), file);
      PathAfterConcat(path, PrintHunk(hs[0]), PrintHunks(hs[1..]));
    }
  }

  /** A deleted file and a quoted name leave the path before them in force; a tab becomes part of the path. */
  function HeaderPath(path: Option<string>, f: FileDiff): Option<string>
  {
    match f.name
    case Plain(own) => Some(own)
    case Tabbed(own) => Some(own + "\t")
    case _ => path
  }

  /** Git's lines before `+++` start with a letter or a minus sign. */
  ghost predicate PlainPreamble(f: FileDiff)
  {
    forall i :: 0 <= i < |f.preamble| ==> f.preamble[i] != "" && f.preamble[i][0] != '+' && f.preamble[i][0] != '@'
  }

  lemma HeaderLine(path: Option<string>, f: FileDiff, file: string)
    ensures Adds(path, [FileHeader(f.name)], file) == {}
    ensures PathAfter(path, [FileHeader(f.name)]) == HeaderPath(path, f)
  {
    var line := FileHeader(f.name);
    AddsOne(path, line, file);
    PathAfterOne(path, line);
    match f.name
    case Plain(own) => assert line[|HEADER|..] == own;
    case Tabbed(own) => assert line[|HEADER|..] == own + "\t" && HEADER <= line;
    case Quoted(_, spelled) => assert line[4] == '"';
    case Gone => assert line[4] == '/';
  }

  lemma OneFile(path: Option<string>, f: FileDiff, file: string)
    requires PlainPreamble(f)
    ensures Adds(path, PrintFile(f), file) == Attributed(HeaderPath(path, f), f.hunks, file)
    ensures PathAfter(path, PrintFile(f)) == PathAfterHunks(HeaderPath(path, f), f.hunks)
  {
    var top, body := [FileHeader(f.name)], PrintHunks(f.hunks);
    QuietRun(path, f.preamble, file);
    HeaderLine(path, f, file);
    HunksRun(HeaderPath(path, f), f.hunks, file);
    AddsConcat(path, f.preamble, top, file);
    AddsConcat(path, f.preamble + top, body, file);
    PathAfterConcat(path, f.preamble, top);
    PathAfterConcat(path, f.preamble + top, body);
  }

  function AttributedAll(path: Option<string>, fs: seq<FileDiff>, file: string): set<nat>
    decreases |fs|
  {
    if fs == [] then {}
    else
      Attributed(HeaderPath(path, fs[0]), fs[0].hunks, file)
      + AttributedAll(PathAfterHunks(HeaderPath(path, fs[0]), fs[0].hunks), fs[1..], file)
  }

  ghost predicate AllPlain(fs: seq<FileDiff>) { forall i :: 0 <= i < |fs| ==> PlainPreamble(fs[i]) }

  lemma {:induction false} FilesRun(path: Option<string>, fs: seq<FileDiff>, file: string)
    requires AllPlain(fs)
    ensures Adds(path, Print(fs), file) == AttributedAll(path, fs, file)
    decreases |fs|
  {
    if fs != [] {
      assert PlainPreamble(fs[0]);
      OneFile(path, fs[0], file);
      FilesRun(PathAfterHunks(HeaderPath(path, fs[0]), fs[0].hunks), fs[1..], file);
      AddsConcat(path, PrintFile(fs[0]), Print(fs[1..]), file);
    }
  }

  ghost function Parsed(lines: seq<string>, file: string): set<nat>
  {
    Lines(Parse(State(None, map[]), lines).changed, file)
  }

  /** For every diff: each hunk's new lines are recorded for the file named by the last line that looks like a header. */
  lemma ParsePrinted(fs: seq<FileDiff>, file: string)
    requires AllPlain(fs)
    ensures Parsed(Print(fs), file) == AttributedAll(None, fs, file)
  {
    ParseAdds(Print(fs), file);
    FilesRun(None, fs, file);
  }

  // -------------------------------------------------------- the round trip

  function UnionOf(hs: seq<Hunk>): set<nat>
  {
    if hs == [] then {} else HunkLines(hs[0]) + UnionOf(hs[1..])
  }

  /** The new-side line numbers of a file's hunks. */
  function Expected(fs: seq<FileDiff>, file: string): set<nat>
  {
    if fs == [] then {}
    else (if fs[0].Path() == Some(file) then UnionOf(fs[0].hunks) else {}) + Expected(fs[1..], file)
  }

  predicate NoneHijacks(hs: seq<Hunk>)
  {
    forall i, k :: 0 <= i < |hs| && 0 <= k < |hs[i].added| ==> !Hijacks(hs[i].added[k])
  }

  lemma {:induction false} NotHijacked(path: Option<string>, added: seq<string>)
    requires forall k :: 0 <= k < |added| ==> !Hijacks(added[k])
    ensures Hijacked(path, added) == path
    decreases |added|
  {
    if added != [] {
      NotHijacked(path, added[1..]);
    }
  }

  lemma {:induction false} CleanHunks(path: Option<string>, hs: seq<Hunk>, file: string)
    requires NoneHijacks(hs)
    ensures PathAfterHunks(path, hs) == path
    ensures Attributed(path, hs, file) == if path == Some(file) && file != "" then UnionOf(hs) else {}
    decreases |hs|
  {
    if hs != [] {
      NotHijacked(path, hs[0].added);
      CleanHunks(path, hs[1..], file);
    }
  }

  /** The hunks of a deleted file add nothing: `+0,0`. */
  predicate AddsNothing(hs: seq<Hunk>) { forall i :: 0 <= i < |hs| ==> hs[i].count == Some(0) }

  lemma {:induction false} EmptyUnion(hs: seq<Hunk>)
    requires AddsNothing(hs)
    ensures UnionOf(hs) == {}
  {
    if hs != [] {
      EmptyUnion(hs[1..]);
    }
  }

  /** A file whose name is spelled as it is, unless it adds nothing, and none of whose added lines spells a file header. */
  ghost predicate Clean(f: FileDiff)
  {
    && PlainPreamble(f) && NoneHijacks(f.hunks)
    && (if f.name.Plain? then f.name.path != "" else AddsNothing(f.hunks))
  }

  lemma {:induction false} CleanAttribution(path: Option<string>, fs: seq<FileDiff>, file: string)
    requires forall i :: 0 <= i < |fs| ==> Clean(fs[i])
    ensures AttributedAll(path, fs, file) == Expected(fs, file)
    decreases |fs|
  {
    if fs != [] {
      assert Clean(fs[0]);
      CleanHunks(HeaderPath(path, fs[0]), fs[0].hunks, file);
      if !fs[0].name.Plain? {
        EmptyUnion(fs[0].hunks);
      }
      CleanAttribution(HeaderPath(path, fs[0]), fs[1..], file);
    }
  }

  /** Printing a list of files and hunks and reading it back gives exactly the new-side lines of every file. */
  lemma DiffRoundTrip(fs: seq<FileDiff>, file: string)
    requires forall i :: 0 <= i < |fs| ==> Clean(fs[i])
    ensures Parsed(Print(fs), file) == Expected(fs, file)
  {
    assert forall i :: 0 <= i < |fs| ==> Clean(fs[i]) ==> PlainPreamble(fs[i]);
    ParsePrinted(fs, file);
    CleanAttribution(None, fs, file);
  }

  // ------------------------------------------- when a header is forged

  /** The path in force at hunk j. */
  function PathAt(path: Option<string>, hs: seq<Hunk>, j: nat): Option<string>
    requires j <= |hs|
    decreases j
  {
    if j == 0 then path else PathAt(Hijacked(path, hs[0].added), hs[1..], j - 1)
  }

  ghost predicate InOrder(hs: seq<Hunk>)
  {
    forall i, j :: 0 <= i < j < |hs| ==> hs[i].start + CountOf(hs[i].count) <= hs[j].start
  }

  lemma {:induction false} AttributedMember(path: Option<string>, hs: seq<Hunk>, file: string, k: nat)
    ensures k in Attributed(path, hs, file) <==>
            exists j :: 0 <= j < |hs| && PathAt(path, hs, j) == Some(file) && file != "" && k in HunkLines(hs[j])
    decreases |hs|
  {
    if hs != [] {
      var next := Hijacked(path, hs[0].added);
      AttributedMember(next, hs[1..], file, k);
      assert forall j :: 0 <= j < |hs[1..]| ==> PathAt(next, hs[1..], j) == PathAt(path, hs, j + 1);
      if k in Own(path, hs[0], file) {
        assert PathAt(path, hs, 0) == Some(file);
      }
      if k in Attributed(next, hs[1..], file) {
        var j :| 0 <= j < |hs[1..]| && PathAt(next, hs[1..], j) == Some(file) && file != "" && k in HunkLines(hs[1..][j]);
        assert PathAt(path, hs, j + 1) == Some(file) && k in HunkLines(hs[j + 1]);
      }
      if j :| 0 <= j < |hs| && PathAt(path, hs, j) == Some(file) && file != "" && k in HunkLines(hs[j]) {
        if j > 0 {
          assert PathAt(next, hs[1..], j - 1) == Some(file) && hs[1..][j - 1] == hs[j];
        }
      }
    }
  }

  lemma {:induction false} UnionMember(hs: seq<Hunk>, k: nat)
    ensures k in UnionOf(hs) <==> exists j :: 0 <= j < |hs| && k in HunkLines(hs[j])
  {
    if hs != [] {
      UnionMember(hs[1..], k);
      if j :| 0 <= j < |hs| && k in HunkLines(hs[j]) {
        if j > 0 {
          assert hs[1..][j - 1] == hs[j];
        }
      }
      if k in UnionOf(hs[1..]) {
        var j :| 0 <= j < |hs[1..]| && k in HunkLines(hs[1..][j]);
        assert hs[j + 1] == hs[1..][j];
      }
    }
  }

  lemma DistinctHunks(hs: seq<Hunk>, i: nat, j: nat, k: nat)
    requires InOrder(hs) && i < |hs| && j < |hs| && k in HunkLines(hs[i]) && k in HunkLines(hs[j])
    ensures i == j
  {
    InRange(Hit(hs[i].start, CountOf(hs[i].count)), k);
    InRange(Hit(hs[j].start, CountOf(hs[j].count)), k);
  }

  lemma MissedHunk(path: string, top: Option<string>, hs: seq<Hunk>, j: nat)
    requires InOrder(hs) && j < |hs| && CountOf(hs[j].count) > 0 && PathAt(top, hs, j) != Some(path)
    ensures hs[j].start in UnionOf(hs) && hs[j].start !in Attributed(top, hs, path)
  {
    var k := hs[j].start;
    InRange(Hit(k, CountOf(hs[j].count)), k);
    UnionMember(hs, k);
    AttributedMember(top, hs, path, k);
    if k in Attributed(top, hs, path) {
      var i :| 0 <= i < |hs| && PathAt(top, hs, i) == Some(path) && path != "" && k in HunkLines(hs[i]);
      DistinctHunks(hs, i, j, k);
    }
  }

  /** For one changed file, the lines read back are right if and only if its own path is in force at every hunk that adds lines. */
  lemma OneFileExact(f: FileDiff)
    requires PlainPreamble(f) && !f.name.Gone? && f.name.path != "" && InOrder(f.hunks)
    ensures Parsed(Print([f]), f.name.path) == UnionOf(f.hunks) <==>
            forall j :: 0 <= j < |f.hunks| && CountOf(f.hunks[j].count) > 0 ==> PathAt(HeaderPath(None, f), f.hunks, j) == f.Path()
  {
    var p, top, hs := f.name.path, HeaderPath(None, f), f.hunks;
    ParsePrinted([f], p);
    assert AttributedAll(None, [f], p) == Attributed(top, hs, p) by {
      assert [f][1..] == [];
    }
    if forall j :: 0 <= j < |hs| && CountOf(hs[j].count) > 0 ==> PathAt(top, hs, j) == Some(p) {
      forall k ensures k in UnionOf(hs) <==> k in Attributed(top, hs, p) {
        SameMembers(p, top, hs, k);
      }
    } else {
      var j :| 0 <= j < |hs| && CountOf(hs[j].count) > 0 && PathAt(top, hs, j) != Some(p);
      MissedHunk(p, top, hs, j);
    }
  }

  lemma SameMembers(p: string, top: Option<string>, hs: seq<Hunk>, k: nat)
    requires p != "" && forall j :: 0 <= j < |hs| && CountOf(hs[j].count) > 0 ==> PathAt(top, hs, j) == Some(p)
    ensures k in UnionOf(hs) <==> k in Attributed(top, hs, p)
  {
    UnionMember(hs, k);
    AttributedMember(top, hs, p, k);
    if k in UnionOf(hs) {
      var j :| 0 <= j < |hs| && k in HunkLines(hs[j]);
      InRange(Hit(hs[j].start, CountOf(hs[j].count)), k);
      assert PathAt(top, hs, j) == Some(p);
    }
  }

  // ------------------------------------------------- diffs of several files

  /** A printed hunk with the file it belongs to and the file whose path is in force there. */
  datatype Entry = Entry(own: Option<string>, force: Option<string>, hunk: Hunk)

  function HunkEntries(own: Option<string>, path: Option<string>, hs: seq<Hunk>): seq<Entry>
    decreases |hs|
  {
    if hs == [] then [] else [Entry(own, path, hs[0])] + HunkEntries(own, Hijacked(path, hs[0].added), hs[1..])
  }

  function Entries(path: Option<string>, fs: seq<FileDiff>): seq<Entry>
    decreases |fs|
  {
    if fs == [] then []
    else
      HunkEntries(fs[0].Path(), HeaderPath(path, fs[0]), fs[0].hunks)
      + Entries(PathAfterHunks(HeaderPath(path, fs[0]), fs[0].hunks), fs[1..])
  }

  ghost predicate Recorded(es: seq<Entry>, file: string, k: nat)
  {
    exists e :: e in es && e.force == Some(file) && file != "" && k in HunkLines(e.hunk)
  }

  ghost predicate Belongs(es: seq<Entry>, file: string, k: nat)
  {
    exists e :: e in es && e.own == Some(file) && k in HunkLines(e.hunk)
  }

  lemma RecordedConcat(a: seq<Entry>, b: seq<Entry>, file: string, k: nat)
    ensures Recorded(a + b, file, k) <==> Recorded(a, file, k) || Recorded(b, file, k)
    ensures Belongs(a + b, file, k) <==> Belongs(a, file, k) || Belongs(b, file, k)
  {
    assert forall e :: e in a + b <==> e in a || e in b;
  }

  lemma OneEntry(e: Entry, file: string, k: nat)
    ensures Recorded([e], file, k) <==> e.force == Some(file) && file != "" && k in HunkLines(e.hunk)
    ensures Belongs([e], file, k) <==> e.own == Some(file) && k in HunkLines(e.hunk)
  {
    assert e in [e];
  }

  lemma {:induction false} HunksRecorded(own: Option<string>, path: Option<string>, hs: seq<Hunk>, file: string, k: nat)
    ensures k in Attributed(path, hs, file) <==> Recorded(HunkEntries(own, path, hs), file, k)
    ensures own == Some(file) && k in UnionOf(hs) <==> Belongs(HunkEntries(own, path, hs), file, k)
    decreases |hs|
  {
    if hs != [] {
      var next := Hijacked(path, hs[0].added);
      HunksRecorded(own, next, hs[1..], file, k);
      RecordedConcat([Entry(own, path, hs[0])], HunkEntries(own, next, hs[1..]), file, k);
      OneEntry(Entry(own, path, hs[0]), file, k);
    }
  }

  lemma {:induction false} FilesRecorded(path: Option<string>, fs: seq<FileDiff>, file: string, k: nat)
    ensures k in AttributedAll(path, fs, file) <==> Recorded(Entries(path, fs), file, k)
    ensures k in Expected(fs, file) <==> Belongs(Entries(path, fs), file, k)
    decreases |fs|
  {
    if fs != [] {
      var top := HeaderPath(path, fs[0]);
      HunksRecorded(fs[0].Path(), top, fs[0].hunks, file, k);
      FilesRecorded(PathAfterHunks(top, fs[0].hunks), fs[1..], file, k);
      RecordedConcat(
        HunkEntries(fs[0].Path(), top, fs[0].hunks), Entries(PathAfterHunks(top, fs[0].hunks), fs[1..]), file, k);
    }
  }

  /** Hunks that add lines belong to a named file. */
  ghost predicate Named(es: seq<Entry>)
  {
    forall e :: e in es && CountOf(e.hunk.count) > 0 ==> e.own.Some? && e.own.value != ""
  }

  /** Every hunk that adds lines stands under its own file's path. */
  ghost predicate InForce(es: seq<Entry>) { forall e :: e in es && CountOf(e.hunk.count) > 0 ==> e.force == e.own }

  lemma HasLines(h: Hunk, k: nat)
    ensures k in HunkLines(h) ==> CountOf(h.count) > 0
    ensures CountOf(h.count) > 0 ==> h.start in HunkLines(h)
  {
    InRange(Hit(h.start, CountOf(h.count)), k);
    InRange(Hit(h.start, CountOf(h.count)), h.start);
  }

  /** No line number of a file is added by two of its hunks. */
  ghost predicate OwnApart(es: seq<Entry>)
  {
    forall a, b, k :: a in es && b in es && a.own == b.own && k in HunkLines(a.hunk) && k in HunkLines(b.hunk) ==> a == b
  }

  /** A line of the file in a hunk that stands under another path. */
  ghost predicate Lost(es: seq<Entry>, file: string, k: nat)
  {
    exists e :: e in es && e.own == Some(file) && e.force != e.own && k in HunkLines(e.hunk)
  }

  /** A line of another file in a hunk that stands under this file's path. */
  ghost predicate Gained(es: seq<Entry>, file: string, k: nat)
  {
    exists e :: e in es && e.force == Some(file) && file != "" && e.own != e.force && k in HunkLines(e.hunk)
  }

  /** Every line a file loses to another path is gained back from one, and it gains no line it does not have. */
  ghost predicate Balanced(es: seq<Entry>, file: string, k: nat)
  {
    (Lost(es, file, k) ==> Gained(es, file, k)) && (Gained(es, file, k) ==> Belongs(es, file, k))
  }

  ghost predicate SameAt(es: seq<Entry>, file: string, k: nat) { Recorded(es, file, k) <==> Belongs(es, file, k) }

  lemma BalancedExactly(es: seq<Entry>, file: string, k: nat)
    requires Named(es) && OwnApart(es)
    ensures SameAt(es, file, k) <==> Balanced(es, file, k)
  {
    if Balanced(es, file, k) {
      BalancedReadsRight(es, file, k);
    } else if Lost(es, file, k) && !Gained(es, file, k) {
      LostIsMissing(es, file, k);
    }
  }

  lemma BalancedReadsRight(es: seq<Entry>, file: string, k: nat)
    requires Named(es) && Balanced(es, file, k)
    ensures Recorded(es, file, k) <==> Belongs(es, file, k)
  {
    if e :| e in es && e.own == Some(file) && k in HunkLines(e.hunk) {
      HasLines(e.hunk, k);
    }
  }

  lemma LostIsMissing(es: seq<Entry>, file: string, k: nat)
    requires OwnApart(es) && Lost(es, file, k) && !Gained(es, file, k)
    ensures Belongs(es, file, k) && !Recorded(es, file, k)
  {
    var e :| e in es && e.own == Some(file) && e.force != e.own && k in HunkLines(e.hunk);
  }

  /** The lines read back are those of the diff, for every file. */
  ghost predicate ReadsRight(fs: seq<FileDiff>) { forall file :: Parsed(Print(fs), file) == Expected(fs, file) }

  lemma ReadAt(fs: seq<FileDiff>, es: seq<Entry>, file: string, k: nat)
    requires AllPlain(fs) && es == Entries(None, fs)
    ensures (k in Parsed(Print(fs), file) <==> k in Expected(fs, file)) <==> SameAt(es, file, k)
  {
    ParsePrinted(fs, file);
    FilesRecorded(None, fs, file, k);
  }

  lemma ReadsRightAt(fs: seq<FileDiff>, es: seq<Entry>, file: string)
    requires AllPlain(fs) && es == Entries(None, fs)
    ensures Parsed(Print(fs), file) == Expected(fs, file) <==> forall k :: SameAt(es, file, k)
  {
    if Parsed(Print(fs), file) == Expected(fs, file) {
      forall k ensures SameAt(es, file, k) {
        ReadAt(fs, es, file, k);
      }
    }
    if forall k :: SameAt(es, file, k) {
      forall k ensures k in Parsed(Print(fs), file) <==> k in Expected(fs, file) {
        ReadAt(fs, es, file, k);
        assert SameAt(es, file, k);
      }
      SameSet(Parsed(Print(fs), file), Expected(fs, file));
    }
  }

  lemma SameSet(a: set<nat>, b: set<nat>)
    requires forall k :: k in a <==> k in b
    ensures a == b
  {
    assert a <= b && b <= a;
  }

  /** A diff as git prints it: names all different, hunks in order, nothing added to deleted files. */
  ghost predicate GitDiff(fs: seq<FileDiff>)
  {
    && AllPlain(fs)
    && (forall i, j :: 0 <= i < j < |fs| && !fs[i].name.Gone? ==> fs[i].Path() != fs[j].Path())
    && (forall i :: 0 <= i < |fs| ==> InOrder(fs[i].hunks))
    && (forall i :: 0 <= i < |fs| ==> if fs[i].name.Gone? then AddsNothing(fs[i].hunks) else fs[i].name.path != "")
  }

  lemma {:induction false} HunkOfEntry(own: Option<string>, path: Option<string>, hs: seq<Hunk>, e: Entry) returns (j: nat)
    requires e in HunkEntries(own, path, hs)
    ensures j < |hs| && e == Entry(own, PathAt(path, hs, j), hs[j])
    decreases |hs|
  {
    if e == Entry(own, path, hs[0]) {
      j := 0;
    } else {
      var i := HunkOfEntry(own, Hijacked(path, hs[0].added), hs[1..], e);
      j := i + 1;
    }
  }

  lemma SameFileApart(own: Option<string>, path: Option<string>, hs: seq<Hunk>, a: Entry, b: Entry, k: nat)
    requires InOrder(hs) && a in HunkEntries(own, path, hs) && b in HunkEntries(own, path, hs)
    requires k in HunkLines(a.hunk) && k in HunkLines(b.hunk)
    ensures a == b
  {
    var i := HunkOfEntry(own, path, hs, a);
    var j := HunkOfEntry(own, path, hs, b);
    DistinctHunks(hs, i, j, k);
  }

  /** Which file a printed hunk comes from. */
  lemma {:induction false} OwnerOf(path: Option<string>, fs: seq<FileDiff>, e: Entry) returns (i: nat)
    requires e in Entries(path, fs)
    ensures i < |fs| && e.own == fs[i].Path() && e.hunk in fs[i].hunks
    decreases |fs|
  {
    var top := HeaderPath(path, fs[0]);
    if e in HunkEntries(fs[0].Path(), top, fs[0].hunks) {
      i := 0;
      var j := HunkOfEntry(fs[0].Path(), top, fs[0].hunks, e);
    } else {
      var k := OwnerOf(PathAfterHunks(top, fs[0].hunks), fs[1..], e);
      i := k + 1;
    }
  }

  lemma GitRest(fs: seq<FileDiff>)
    requires GitDiff(fs) && fs != []
    ensures GitDiff(fs[1..])
  {
  }

  lemma NothingAdded(h: Hunk, hs: seq<Hunk>, k: nat)
    requires AddsNothing(hs) && h in hs
    ensures k !in HunkLines(h) && CountOf(h.count) == 0
  {
    HasLines(h, k);
  }

  /** Hunks of the first file and of later ones share no line under one owner. */
  lemma FirstFileApart(path: Option<string>, fs: seq<FileDiff>, a: Entry, b: Entry, k: nat)
    requires GitDiff(fs) && fs != [] && a in HunkEntries(fs[0].Path(), HeaderPath(path, fs[0]), fs[0].hunks)
    requires b in Entries(PathAfterHunks(HeaderPath(path, fs[0]), fs[0].hunks), fs[1..]) && k in HunkLines(a.hunk)
    ensures a.own != b.own
  {
    var j := HunkOfEntry(fs[0].Path(), HeaderPath(path, fs[0]), fs[0].hunks, a);
    var i := OwnerOf(PathAfterHunks(HeaderPath(path, fs[0]), fs[0].hunks), fs[1..], b);
    assert fs[1..][i] == fs[i + 1];
    if fs[0].name.Gone? {
      NothingAdded(a.hunk, fs[0].hunks, k);
    }
  }

  /** In a diff as git prints it no line number of a file is added twice. */
  lemma {:induction false} GitApart(path: Option<string>, fs: seq<FileDiff>)
    requires GitDiff(fs)
    ensures OwnApart(Entries(path, fs))
    decreases |fs|
  {
    if fs != [] {
      var top := HeaderPath(path, fs[0]);
      var head, tail := HunkEntries(fs[0].Path(), top, fs[0].hunks), Entries(PathAfterHunks(top, fs[0].hunks), fs[1..]);
      GitRest(fs);
      GitApart(PathAfterHunks(top, fs[0].hunks), fs[1..]);
      forall a: Entry, b: Entry, k: nat | a in head + tail && b in head + tail && a.own == b.own
                                         && k in HunkLines(a.hunk) && k in HunkLines(b.hunk)
        ensures a == b
      {
        if a in head && b in head {
          SameFileApart(fs[0].Path(), top, fs[0].hunks, a, b, k);
        } else if a in head {
          FirstFileApart(path, fs, a, b, k);
        } else if b in head {
          FirstFileApart(path, fs, b, a, k);
        }
      }
    }
  }

  lemma GitNamed(fs: seq<FileDiff>)
    requires GitDiff(fs)
    ensures Named(Entries(None, fs))
  {
    forall e | e in Entries(None, fs) && CountOf(e.hunk.count) > 0 ensures e.own.Some? && e.own.value != "" {
      var i := OwnerOf(None, fs, e);
      if fs[i].name.Gone? {
        NothingAdded(e.hunk, fs[i].hunks, 0);
      }
    }
  }

  ghost predicate BalancedFor(es: seq<Entry>, file: string) { forall k :: Balanced(es, file, k) }

  ghost predicate AllBalanced(es: seq<Entry>) { forall file :: BalancedFor(es, file) }

  lemma FileExact(fs: seq<FileDiff>, es: seq<Entry>, file: string)
    requires GitDiff(fs) && es == Entries(None, fs)
    ensures Parsed(Print(fs), file) == Expected(fs, file) <==> BalancedFor(es, file)
  {
    GitApart(None, fs);
    GitNamed(fs);
    ReadsRightAt(fs, es, file);
    if BalancedFor(es, file) {
      forall k ensures SameAt(es, file, k) {
        BalancedExactly(es, file, k);
      }
    }
    if forall k :: SameAt(es, file, k) {
      forall k ensures Balanced(es, file, k) {
        BalancedExactly(es, file, k);
        assert SameAt(es, file, k);
      }
    }
  }

  /**
   * When the lines read back are right for every file, for every diff as git prints it, names and
   * all: exactly when what each file's own hunks lose to other paths is what foreign hunks give
   * back to it, and they give it nothing else.
   */
  lemma AttributionExact(fs: seq<FileDiff>, es: seq<Entry>)
    requires GitDiff(fs) && es == Entries(None, fs)
    ensures ReadsRight(fs) <==> AllBalanced(es)
  {
    if ReadsRight(fs) {
      forall file ensures BalancedFor(es, file) {
        FileExact(fs, es, file);
      }
    }
    if AllBalanced(es) {
      forall file ensures Parsed(Print(fs), file) == Expected(fs, file) {
        FileExact(fs, es, file);
        assert BalancedFor(es, file);
      }
    }
  }

  /** With every hunk under its own path the lines are right, for any names and in any order. */
  lemma InForceReadsRight(fs: seq<FileDiff>, es: seq<Entry>)
    requires AllPlain(fs) && es == Entries(None, fs) && Named(es) && InForce(es)
    ensures ReadsRight(fs)
  {
    forall file ensures Parsed(Print(fs), file) == Expected(fs, file) {
      forall k ensures SameAt(es, file, k) {
        InForceBalanced(es, file, k);
        BalancedReadsRight(es, file, k);
      }
      ReadsRightAt(fs, es, file);
    }
  }

  /** Hunks under a foreign path that add lines share none among themselves, as when one file alone is led astray. */
  ghost predicate ForeignApart(es: seq<Entry>)
  {
    forall a: Entry, b: Entry, k: nat ::
      (a in es && b in es && a.force != a.own && b.force != b.own && k in HunkLines(a.hunk) && k in HunkLines(b.hunk)) ==> a == b
  }

  /** Unless two foreign hunks could make up for each other, the lines are right exactly when every hunk stands under its own path. */
  lemma AttributionInForce(fs: seq<FileDiff>, es: seq<Entry>)
    requires GitDiff(fs) && es == Entries(None, fs) && ForeignApart(es)
    ensures ReadsRight(fs) <==> InForce(es)
  {
    AttributionExact(fs, es);
    GitNamed(fs);
    if InForce(es) {
      forall file ensures BalancedFor(es, file) {
        forall k ensures Balanced(es, file, k) {
          InForceBalanced(es, file, k);
        }
      }
    } else {
      var e :| e in es && CountOf(e.hunk.count) > 0 && e.force != e.own;
      HasLines(e.hunk, e.hunk.start);
      AloneIsUnbalanced(es, e);
      assert !BalancedFor(es, e.own.value);
    }
  }

  lemma InForceBalanced(es: seq<Entry>, file: string, k: nat)
    requires InForce(es)
    ensures Balanced(es, file, k)
  {
    forall e | e in es && k in HunkLines(e.hunk) ensures e.force == e.own {
      HasLines(e.hunk, k);
    }
  }

  lemma AloneIsUnbalanced(es: seq<Entry>, e: Entry)
    requires ForeignApart(es) && e in es && e.own.Some? && e.force != e.own && e.hunk.start in HunkLines(e.hunk)
    ensures !Balanced(es, e.own.value, e.hunk.start)
  {
    assert Lost(es, e.own.value, e.hunk.start);
  }

  /** The smallest forged header: an added line `++ b/y` takes the next hunk of file x away. */
  lemma ForgedHeader()
    ensures var f := FileDiff([], Plain("x"), [
                Hunk(1, None, 1, None, "", [], false, ["++ b/y"], false), Hunk(4, None, 5, None, "", [], false, ["z"], false)]);
            5 in Expected([f], "x") && 5 !in Parsed(Print([f]), "x") && 5 in Parsed(Print([f]), "y")
  {
    var h1 := Hunk(1, None, 1, None, "", [], false, ["++ b/y"], false);
    var h2 := Hunk(4, None, 5, None, "", [], false, ["z"], false);
    var f := FileDiff([], Plain("x"), [h1, h2]);
    var e1, e2 := Entry(Some("x"), Some("x"), h1), Entry(Some("x"), Some("y"), h2);
    TwoHunks(Some("x"), Some("x"), h1, h2);
    assert Hijacked(Some("x"), ["++ b/y"]) == Some("y") by {
      assert ["++ b/y"][1..] == [];
    }
    assert Entries(None, [f]) == [e1, e2] by {
      assert [f][1..] == [];
    }
    InRange(Hit(1, 1), 5);
    InRange(Hit(5, 1), 5);
    ParsePrinted([f], "x");
    ParsePrinted([f], "y");
    FilesRecorded(None, [f], "x", 5);
    FilesRecorded(None, [f], "y", 5);
    assert e2 in [e1, e2];
  }

  /** A name in quotes: the file's only hunk is read as belonging to the file before it, here to none. */
  lemma QuotedNameMissed(path: string, spelled: string, h: Hunk)
    requires path != "" && CountOf(h.count) > 0
    ensures var f := FileDiff([], Quoted(path, spelled), [h]);
            h.start in Expected([f], path) && Parsed(Print([f]), path) == {}
  {
    var f := FileDiff([], Quoted(path, spelled), [h]);
    ParsePrinted([f], path);
    HasLines(h, h.start);
    OneHunkOnly(None, h, path);
    OneFileOnly(None, f, path);
  }

  lemma OneHunkOnly(path: Option<string>, h: Hunk, file: string)
    ensures Attributed(path, [h], file) == Own(path, h, file) && UnionOf([h]) == HunkLines(h)
  {
    assert [h][1..] == [];
  }

  lemma OneFileOnly(path: Option<string>, f: FileDiff, file: string)
    ensures AttributedAll(path, [f], file) == Attributed(HeaderPath(path, f), f.hunks, file)
    ensures Expected([f], file) == if f.Path() == Some(file) then UnionOf(f.hunks) else {}
  {
    assert [f][1..] == [];
  }

  lemma TwoHunks(own: Option<string>, path: Option<string>, a: Hunk, b: Hunk)
    ensures HunkEntries(own, path, [a, b]) == [Entry(own, path, a), Entry(own, Hijacked(path, a.added), b)]
  {
    var next := Hijacked(path, a.added);
    assert [a, b][1..] == [b] && [b][1..] == [];
    assert HunkEntries(own, next, [b]) == [Entry(own, next, b)] + HunkEntries(own, Hijacked(next, b.added), []);
  }

  // --------------------------------------------------------- lines of a text

  /** `splitlines`: every separator ends a line, a carriage return taking a line feed behind it along. */
  function SplitLines(separator: char -> bool, text: string): seq<string>
  {
    SplitFrom(separator, "", text)
  }

  function SplitFrom(separator: char -> bool, line: string, text: string): seq<string>
    decreases |text|
  {
    if text == "" then if line == "" then [] else [line]
    else if separator(text[0]) then
      [line] + SplitFrom(separator, "", if "\r\n" <= text then text[2..] else text[1..])
    else SplitFrom(separator, line + [text[0]], text[1..])
  }

  function JoinLines(lines: seq<string>): string
  {
    if lines == [] then "" else lines[0] + "\n" + JoinLines(lines[1..])
  }

  ghost predicate Unbroken(separator: char -> bool, line: string) { forall i :: 0 <= i < |line| ==> !separator(line[i]) }

  lemma {:induction false} SplitUnbroken(separator: char -> bool, line: string, text: string)
    requires Unbroken(separator, line)
    ensures forall k :: 0 <= k < |SplitFrom(separator, line, text)| ==> Unbroken(separator, SplitFrom(separator, line, text)[k])
    decreases |text|
  {
    if text != "" {
      if separator(text[0]) {
        SplitUnbroken(separator, "", if "\r\n" <= text then text[2..] else text[1..]);
      } else {
        SplitUnbroken(separator, line + [text[0]], text[1..]);
      }
    }
  }

  lemma {:induction false} SplitOne(separator: char -> bool, done: string, line: string, rest: string)
    requires separator('\n') && separator('\r') && Unbroken(separator, line)
    ensures SplitFrom(separator, done, line + "\n" + rest) == [done + line] + SplitFrom(separator, "", rest)
    decreases |line|
  {
    var text := line + "\n" + rest;
    if line == "" {
      assert text[0] == '\n' && text[1..] == rest && done + line == done;
    } else {
      assert text[0] == line[0] && text[1..] == line[1..] + "\n" + rest;
      SplitOne(separator, done + [line[0]], line[1..], rest);
      assert done + [line[0]] + line[1..] == done + line;
    }
  }

  lemma {:induction false} SplitJoined(separator: char -> bool, lines: seq<string>)
    requires separator('\n') && separator('\r')
    requires forall k :: 0 <= k < |lines| ==> Unbroken(separator, lines[k])
    ensures SplitLines(separator, JoinLines(lines)) == lines
  {
    if lines != [] {
      SplitOne(separator, "", lines[0], JoinLines(lines[1..]));
      SplitJoined(separator, lines[1..]);
      assert lines == [lines[0]] + lines[1..] && "" + lines[0] == lines[0];
    }
  }

  /** A printed diff splits into its lines if and only if none of them holds a separator of its own. */
  lemma SplitExact(separator: char -> bool, lines: seq<string>)
    requires separator('\n') && separator('\r')
    ensures SplitLines(separator, JoinLines(lines)) == lines <==>
            forall k :: 0 <= k < |lines| ==> Unbroken(separator, lines[k])
  {
    SplitUnbroken(separator, "", JoinLines(lines));
    if forall k :: 0 <= k < |lines| ==> Unbroken(separator, lines[k]) {
      SplitJoined(separator, lines);
    }
  }

  /** A last line that nothing ends is a line too. */
  lemma {:induction false} LastLineKept(separator: char -> bool, lines: seq<string>, last: string)
    requires separator('\n') && separator('\r') && last != "" && Unbroken(separator, last)
    requires forall k :: 0 <= k < |lines| ==> Unbroken(separator, lines[k])
    ensures SplitLines(separator, JoinLines(lines) + last) == lines + [last]
  {
    if lines == [] {
      assert JoinLines(lines) + last == last && "" + last == last;
      TakenWhole(separator, "", last);
    } else {
      var rest := JoinLines(lines[1..]) + last;
      assert JoinLines(lines) + last == lines[0] + "\n" + rest && "" + lines[0] == lines[0];
      SplitOne(separator, "", lines[0], rest);
      LastLineKept(separator, lines[1..], last);
      assert lines == [lines[0]] + lines[1..];
    }
  }

  lemma {:induction false} TakenWhole(separator: char -> bool, done: string, rest: string)
    requires Unbroken(separator, rest) && done + rest != ""
    ensures SplitFrom(separator, done, rest) == [done + rest]
    decreases |rest|
  {
    if rest == "" {
      assert done + rest == done;
    } else {
      TakenWhole(separator, done + [rest[0]], rest[1..]);
      assert done + [rest[0]] + rest[1..] == done + rest;
    }
  }

  /** From the text of a diff to its changed lines: right for clean diffs whose lines hold no separator. */
  lemma DiffTextRoundTrip(separator: char -> bool, fs: seq<FileDiff>, file: string)
    requires separator('\n') && separator('\r') && forall i :: 0 <= i < |fs| ==> Clean(fs[i])
    requires forall k :: 0 <= k < |Print(fs)| ==> Unbroken(separator, Print(fs)[k])
    ensures Parsed(SplitLines(separator, JoinLines(Print(fs))), file) == Expected(fs, file)
  {
    SplitExact(separator, Print(fs));
    DiffRoundTrip(fs, file);
  }

  // --------------------------------------------------- broken lines

  /** What a line of the diff is taken for: itself, or several lines when it holds separators. */
  function Pieces(separator: char -> bool, line: string): seq<string> { SplitFrom(separator, "", line + "\n") }

  function AllPieces(separator: char -> bool, lines: seq<string>): seq<string>
  {
    if lines == [] then [] else Pieces(separator, lines[0]) + AllPieces(separator, lines[1..])
  }

  lemma {:induction false} SplitLineOff(separator: char -> bool, done: string, line: string, rest: string)
    requires separator('\n') && separator('\r')
    ensures SplitFrom(separator, done, line + "\n" + rest)
         == SplitFrom(separator, done, line + "\n") + SplitFrom(separator, "", rest)
    decreases |line|
  {
    var text, own := line + "\n" + rest, line + "\n";
    if line == "" {
      assert text[0] == '\n' && text[1..] == rest && own[1..] == "";
    } else {
      assert text[0] == own[0] == line[0];
      assert text[1..] == line[1..] + "\n" + rest && own[1..] == line[1..] + "\n";
      if line == "\r" {
        assert text[2..] == rest && own[2..] == "";
      } else if separator(line[0]) {
        assert "\r\n" <= text <==> "\r\n" <= own;
        if "\r\n" <= own {
          assert text[2..] == line[2..] + "\n" + rest && own[2..] == line[2..] + "\n";
          SplitLineOff(separator, "", line[2..], rest);
        } else {
          SplitLineOff(separator, "", line[1..], rest);
        }
      } else {
        SplitLineOff(separator, done + [line[0]], line[1..], rest);
      }
    }
  }

  /** A text is read line by line, each line broken up by itself. */
  lemma {:induction false} SplitByLines(separator: char -> bool, lines: seq<string>)
    requires separator('\n') && separator('\r')
    ensures SplitLines(separator, JoinLines(lines)) == AllPieces(separator, lines)
  {
    if lines != [] {
      SplitLineOff(separator, "", lines[0], JoinLines(lines[1..]));
      SplitByLines(separator, lines[1..]);
    }
  }

  /** A broken line does no harm when its first piece is read as the line is and no other piece is a header. */
  ghost predicate Harmless(separator: char -> bool, line: string)
  {
    var ps := Pieces(separator, line);
    && ps != [] && HunkMatch(ps[0]) == HunkMatch(line)
    && (HEADER <= ps[0] <==> HEADER <= line) && (HEADER <= line ==> ps[0] == line)
    && forall i :: 0 < i < |ps| ==> Quiet(ps[i])
  }

  lemma HarmlessLine(separator: char -> bool, path: Option<string>, line: string, file: string)
    requires Harmless(separator, line)
    ensures Adds(path, Pieces(separator, line), file) == Adds(path, [line], file)
    ensures PathAfter(path, Pieces(separator, line)) == PathAfter(path, [line])
  {
    var ps := Pieces(separator, line);
    assert ps == [ps[0]] + ps[1..];
    PathAfterOne(path, line);
    PathAfterOne(path, ps[0]);
    AddsOne(path, line, file);
    AddsOne(path, ps[0], file);
    AddsConcat(path, [ps[0]], ps[1..], file);
    PathAfterConcat(path, [ps[0]], ps[1..]);
    QuietRun(PathAfter(path, [ps[0]]), ps[1..], file);
  }

  lemma {:induction false} HarmlessRun(separator: char -> bool, path: Option<string>, lines: seq<string>, file: string)
    requires forall k :: 0 <= k < |lines| ==> Harmless(separator, lines[k])
    ensures Adds(path, AllPieces(separator, lines), file) == Adds(path, lines, file)
    decreases |lines|
  {
    if lines != [] {
      HarmlessLine(separator, path, lines[0], file);
      HarmlessRun(separator, PathAfter(path, [lines[0]]), lines[1..], file);
      AddsConcat(path, Pieces(separator, lines[0]), AllPieces(separator, lines[1..]), file);
      assert lines == [lines[0]] + lines[1..];
      AddsConcat(path, [lines[0]], lines[1..], file);
    }
  }

  /** Separators inside lines change nothing as long as they break off neither a header nor part of one. */
  lemma HarmlessSeparators(separator: char -> bool, lines: seq<string>, file: string)
    requires separator('\n') && separator('\r') && forall k :: 0 <= k < |lines| ==> Harmless(separator, lines[k])
    ensures Parsed(SplitLines(separator, JoinLines(lines)), file) == Parsed(lines, file)
  {
    SplitByLines(separator, lines);
    ParseAdds(AllPieces(separator, lines), file);
    ParseAdds(lines, file);
    HarmlessRun(separator, None, lines, file);
  }

  /** The smallest harm: an added line that holds a separator, such as a form feed, in front of a header. */
  lemma SeparatorForges(separator: char -> bool, c: char, path: Option<string>)
    requires separator('\n') && separator('\r') && separator(c) && c != '\r' && Unbroken(separator, "+") && Unbroken(separator, "+++ b/y")
    ensures var line := "+" + [c] + "+++ b/y";
            PathAfter(path, [line]) == path && PathAfter(path, Pieces(separator, line)) == Some("y")
  {
    var line, tail := "+" + [c] + "+++ b/y", "+++ b/y";
    PathAfterOne(path, line);
    assert line[0] == '+' && line[1] == c;
    var text := line + "\n";
    var later := [c] + tail + "\n";
    assert text[0] == '+' && text[1..] == later && later[0] == c && later[1..] == tail + "\n";
    SplitOne(separator, "", tail, "");
    assert tail + "\n" + "" == tail + "\n" && "" + tail == tail && "" + ['+'] == "+";
    assert !separator("+"[0]) && !("\r\n" <= later);
    assert SplitFrom(separator, "", "") == [];
    assert SplitFrom(separator, "+", later) == ["+"] + SplitFrom(separator, "", tail + "\n");
    assert Pieces(separator, line) == ["+"] + [tail];
    PathAfterConcat(path, ["+"], [tail]);
    PathAfterOne(path, "+");
    PathAfterOne(path, tail);
  }
}
