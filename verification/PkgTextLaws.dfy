/** Laws of the text package parser: which reorderings of lines it cannot see, and
    that it reads back what is written. */
module PkgTextLaws {
  import opened Platform
  import opened PkgText

  // ---------------------------------------------------------------------------
  // Line order
  // ---------------------------------------------------------------------------

  /** The tag of a line; a line without a colon counts as unknown. */
  function LineTag(line: Text): Tag {
    var colon := Find(line, ':');
    if colon == |line| then Unknown else TagOf(line[..colon])
  }

  function ValueOf(line: Text): Text {
    var colon := Find(line, ':');
    if colon == |line| then [] else line[colon + 1..]
  }

  /** The values of the lines that carry a tag, in their order. */
  function Tagged(lines: seq<Text>, tag: Tag): seq<Text>
    decreases |lines|
  {
    if lines == [] then []
    else if LineTag(lines[0]) == tag then [ValueOf(lines[0])] + Tagged(lines[1..], tag)
    else Tagged(lines[1..], tag)
  }

  function FoldLanguages(languages: seq<int>, values: seq<Text>): Outcome<seq<int>>
    decreases |values|
  {
    if values == [] then Ok(languages) else
    var x :- AddLanguages(languages, values[0]);
    FoldLanguages(x, values[1..])
  }

  function FoldValues(names: seq<Text>, values: seq<Text>): Outcome<seq<Text>>
    decreases |values|
  {
    if values == [] then Ok(names) else
    var x :- AddValues(names, values[0]);
    FoldValues(x, values[1..])
  }

  function FoldVersions(version: Version, values: seq<Text>): Outcome<Version>
    decreases |values|
  {
    if values == [] then Ok(version) else
    var x :- ParseVersion(values[0], version);
    FoldVersions(x, values[1..])
  }

  function FoldFiles(files: seq<Text>, values: seq<Text>): seq<Text>
    decreases |values|
  {
    if values == [] then files else FoldFiles(AddFile(files, values[0]), values[1..])
  }

  /** The outcome put together tag by tag. */
  ghost predicate ByTags(start: Record, lines: seq<Text>, end: Record) {
    && Tagged(lines, Unknown) == []
    && FoldLanguages(start.languages, Tagged(lines, Languages)) == Ok(end.languages)
    && FoldValues(start.names, Tagged(lines, Name)) == Ok(end.names)
    && FoldValues(start.vendors, Tagged(lines, Vendor)) == Ok(end.vendors)
    && FoldVersions(start.version, Tagged(lines, VersionTag)) == Ok(end.version)
    && FoldFiles(start.files, Tagged(lines, FileTag)) == end.files
  }

  lemma TaggedStep(lines: seq<Text>, tag: Tag)
    requires lines != []
    ensures Tagged(lines, tag) ==
            if LineTag(lines[0]) == tag then [ValueOf(lines[0])] + Tagged(lines[1..], tag) else Tagged(lines[1..], tag)
  {
  }

  lemma TaggedSteps(lines: seq<Text>)
    requires lines != []
    ensures forall tag :: Tagged(lines, tag) ==
              if LineTag(lines[0]) == tag then [ValueOf(lines[0])] + Tagged(lines[1..], tag) else Tagged(lines[1..], tag)
  {
    forall tag { TaggedStep(lines, tag); }
  }

  lemma HandleByTag(rec: Record, line: Text)
    ensures HandleLine(rec, line) ==
            match LineTag(line)
            case Languages => (match AddLanguages(rec.languages, ValueOf(line)) case Ok(x) => Ok(rec.(languages := x)) case Fail(f) => Fail(f))
            case Name => (match AddValues(rec.names, ValueOf(line)) case Ok(x) => Ok(rec.(names := x)) case Fail(f) => Fail(f))
            case Vendor => (match AddValues(rec.vendors, ValueOf(line)) case Ok(x) => Ok(rec.(vendors := x)) case Fail(f) => Fail(f))
            case VersionTag => (match ParseVersion(ValueOf(line), rec.version) case Ok(x) => Ok(rec.(version := x)) case Fail(f) => Fail(f))
            case FileTag => Ok(rec.(files := AddFile(rec.files, ValueOf(line))))
            case Unknown => Fail(Leave(ERR_CORRUPT))
  {
    hide Find, TagOf, AddLanguages, AddValues, ParseVersion, AddFile;
  }

  /** The parser's walk over all lines is five independent walks, one per tag. */
  lemma {:induction false} Decompose(start: Record, lines: seq<Text>, end: Record)
    ensures HandleLines(start, lines) == Ok(end) <==> ByTags(start, lines, end)
    decreases |lines|
  {
    hide LineTag, ValueOf, AddLanguages, AddValues, ParseVersion, AddFile, HandleLine;
    if lines != [] {
      HandleByTag(start, lines[0]);
      TaggedSteps(lines);
      hide Tagged;
      var next := HandleLine(start, lines[0]);
      if next.Ok? {
        Decompose(next.value, lines[1..], end);
      }
    }
  }

  ghost predicate SameTags(a: seq<Text>, b: seq<Text>) {
    forall tag :: Tagged(a, tag) == Tagged(b, tag)
  }

  /** Line order: two texts whose lines agree tag by tag are accepted or refused
      together, and give the same record. */
  lemma LineOrder(a: seq<Text>, b: seq<Text>, rec: Record)
    requires SameTags(a, b)
    ensures ParseLines(a) == Ok(rec) <==> ParseLines(b) == Ok(rec)
  {
    if ParseLines(a) == Ok(rec) {
      SameWalk(a, b, rec);
    }
    if ParseLines(b) == Ok(rec) {
      SameWalk(b, a, rec);
    }
  }

  lemma SameWalk(a: seq<Text>, b: seq<Text>, end: Record)
    requires SameTags(a, b) && HandleLines(BLANK, a) == Ok(end)
    ensures HandleLines(BLANK, b) == Ok(end)
  {
    hide HandleLines, FoldLanguages, FoldValues, FoldVersions, FoldFiles, Tagged;
    Decompose(BLANK, a, end);
    Decompose(BLANK, b, end);
  }

  // ---------------------------------------------------------------------------
  // Which fault is given
  // ---------------------------------------------------------------------------

  /** The part of the record that the lines of a tag fill. */
  predicate Agree(r: Record, q: Record, tag: Tag) {
    match tag
    case Languages => r.languages == q.languages
    case Name => r.names == q.names
    case Vendor => r.vendors == q.vendors
    case VersionTag => r.version == q.version
    case FileTag => r.files == q.files
    case Unknown => true
  }

  function OfTag(lines: seq<Text>, tag: Tag): seq<Text>
    decreases |lines|
  {
    if lines == [] then []
    else if LineTag(lines[0]) == tag then [lines[0]] + OfTag(lines[1..], tag)
    else OfTag(lines[1..], tag)
  }

  /** A line, met after the earlier lines of its own tag only. */
  function OwnWalk(lines: seq<Text>, i: nat): Outcome<Record>
    requires i < |lines|
  {
    HandleLines(BLANK, OfTag(lines[..i], LineTag(lines[i])) + [lines[i]])
  }

  lemma StepAgrees(r: Record, q: Record, line: Text, tag: Tag)
    requires Agree(r, q, tag)
    ensures tag == LineTag(line) ==>
              && HandleLine(r, line).Ok? == HandleLine(q, line).Ok?
              && (HandleLine(r, line).Ok? ==> Agree(HandleLine(r, line).value, HandleLine(q, line).value, tag))
              && (HandleLine(r, line).Fail? ==> HandleLine(r, line) == HandleLine(q, line))
    ensures tag != LineTag(line) && HandleLine(r, line).Ok? ==> Agree(HandleLine(r, line).value, q, tag)
  {
    HandleByTag(r, line);
    HandleByTag(q, line);
    hide HandleLine, LineTag, ValueOf, AddLanguages, AddValues, ParseVersion, AddFile;
  }

  lemma AgreeSelf(r: Record, tag: Tag)
    ensures Agree(r, r, tag)
  {
  }

  lemma {:induction false} WalkAgrees(r: Record, q: Record, lines: seq<Text>, tag: Tag)
    requires Agree(r, q, tag) && HandleLines(r, lines).Ok?
    ensures HandleLines(q, OfTag(lines, tag)).Ok?
    ensures Agree(HandleLines(r, lines).value, HandleLines(q, OfTag(lines, tag)).value, tag)
    decreases |lines|
  {
    hide HandleLine, LineTag, Agree;
    if lines != [] {
      StepAgrees(r, q, lines[0], tag);
      var next := HandleLine(r, lines[0]).value;
      if LineTag(lines[0]) == tag {
        WalkAgrees(next, HandleLine(q, lines[0]).value, lines[1..], tag);
        assert OfTag(lines, tag)[1..] == OfTag(lines[1..], tag);
      } else {
        WalkAgrees(next, q, lines[1..], tag);
      }
    }
  }

  lemma {:induction false} HandleAppend(r: Record, a: seq<Text>, b: seq<Text>)
    ensures HandleLines(r, a + b) ==
            if HandleLines(r, a).Ok? then HandleLines(HandleLines(r, a).value, b) else HandleLines(r, a)
    decreases |a|
  {
    hide HandleLine;
    if a == [] {
      assert a + b == b;
    } else {
      assert (a + b)[0] == a[0] && (a + b)[1..] == a[1..] + b;
      var next := HandleLine(r, a[0]);
      if next.Ok? {
        HandleAppend(next.value, a[1..], b);
      }
    }
  }

  lemma HandleSnoc(r: Record, a: seq<Text>, line: Text)
    ensures HandleLines(r, a + [line]) ==
            if HandleLines(r, a).Ok? then HandleLine(HandleLines(r, a).value, line) else HandleLines(r, a)
  {
    hide HandleLine;
    HandleAppend(r, a, [line]);
    if HandleLines(r, a).Ok? {
      var next := HandleLine(HandleLines(r, a).value, line);
      assert [line][0] == line && [line][1..] == [];
      if next.Ok? {
        assert HandleLines(next.value, []) == next;
      }
    }
  }

  /** A line fails in its place exactly if it fails after the earlier lines of its
      own tag, and with the same fault. */
  lemma OwnDecides(lines: seq<Text>, i: nat)
    requires i < |lines| && HandleLines(BLANK, lines[..i]).Ok?
    ensures HandleLines(BLANK, lines[..i + 1]).Ok? == OwnWalk(lines, i).Ok?
    ensures OwnWalk(lines, i).Fail? ==> HandleLines(BLANK, lines[..i + 1]) == OwnWalk(lines, i)
  {
    hide HandleLine, HandleLines, LineTag, OfTag, Agree;
    var (front, tag) := (lines[..i], LineTag(lines[i]));
    AgreeSelf(BLANK, tag);
    WalkAgrees(BLANK, BLANK, front, tag);
    StepAgrees(HandleLines(BLANK, front).value, HandleLines(BLANK, OfTag(front, tag)).value, lines[i], tag);
    HandleSnoc(BLANK, front, lines[i]);
    HandleSnoc(BLANK, OfTag(front, tag), lines[i]);
    assert lines[..i + 1] == front + [lines[i]];
  }

  /** The fault of a refused text: that of the first line that fails after the
      earlier lines of its own tag; with no such line, the final check decides. */
  lemma {:induction false} FirstFault(lines: seq<Text>, i: nat)
    requires i <= |lines|
    requires forall j :: 0 <= j < i ==> OwnWalk(lines, j).Ok?
    ensures HandleLines(BLANK, lines[..i]).Ok?
    ensures i < |lines| && OwnWalk(lines, i).Fail? ==> ParseLines(lines) == Fail(OwnWalk(lines, i).fault)
    ensures i == |lines| && ParseLines(lines).Fail? ==>
              ParseLines(lines) == Fail(Leave(ERR_CORRUPT)) && !Complete(HandleLines(BLANK, lines[..i]).value)
  {
    hide HandleLines, OwnWalk, Complete;
    if i > 0 {
      FirstFault(lines, i - 1);
      OwnDecides(lines, i - 1);
    } else {
      NoLines();
    }
    if i < |lines| {
      OwnDecides(lines, i);
      HandleAppend(BLANK, lines[..i + 1], lines[i + 1..]);
      assert lines == lines[..i + 1] + lines[i + 1..];
    } else {
      assert lines[..i] == lines;
    }
  }

  lemma NoLines()
    ensures HandleLines(BLANK, []) == Ok(BLANK)
  {
  }

  ghost predicate BothFail(front: seq<Text>, x: Text, y: Text) {
    && HandleLines(BLANK, front).Ok?
    && HandleLine(HandleLines(BLANK, front).value, x).Fail?
    && HandleLine(HandleLines(BLANK, front).value, y).Fail?
  }

  /** Two neighbouring lines with different tags can be swapped without any effect,
      unless neither can be handled there: then each order reports the fault of the
      line it puts first. */
  lemma SwapLines(front: seq<Text>, x: Text, y: Text, back: seq<Text>)
    requires LineTag(x) != LineTag(y)
    ensures !BothFail(front, x, y) ==> ParseLines(front + [x, y] + back) == ParseLines(front + [y, x] + back)
    ensures BothFail(front, x, y) ==>
              var rec := HandleLines(BLANK, front).value;
              && ParseLines(front + [x, y] + back) == Fail(HandleLine(rec, x).fault)
              && ParseLines(front + [y, x] + back) == Fail(HandleLine(rec, y).fault)
  {
    hide HandleLine, HandleLines, LineTag, Complete;
    HandleAppend(BLANK, front, [x, y] + back);
    HandleAppend(BLANK, front, [y, x] + back);
    assert front + [x, y] + back == front + ([x, y] + back);
    assert front + [y, x] + back == front + ([y, x] + back);
    if HandleLines(BLANK, front).Ok? {
      var rec := HandleLines(BLANK, front).value;
      TwoLines(rec, x, y, back);
      TwoLines(rec, y, x, back);
      Commute(rec, x, y);
    }
  }

  function HandleTwo(rec: Record, x: Text, y: Text): Outcome<Record> {
    var next :- HandleLine(rec, x);
    HandleLine(next, y)
  }

  lemma TwoLines(rec: Record, x: Text, y: Text, back: seq<Text>)
    ensures HandleLines(rec, [x, y] + back) ==
            if HandleTwo(rec, x, y).Ok? then HandleLines(HandleTwo(rec, x, y).value, back) else HandleTwo(rec, x, y)
  {
    hide HandleLine;
    var lines := [x, y] + back;
    assert lines[0] == x && lines[1..] == [y] + back;
    assert ([y] + back)[0] == y && ([y] + back)[1..] == back;
  }

  lemma Commute(rec: Record, x: Text, y: Text)
    requires LineTag(x) != LineTag(y)
    ensures HandleLine(rec, x).Ok? || HandleLine(rec, y).Ok? ==> HandleTwo(rec, x, y) == HandleTwo(rec, y, x)
  {
    HandleByTag(rec, x);
    HandleByTag(rec, y);
    if HandleLine(rec, x).Ok? {
      HandleByTag(HandleLine(rec, x).value, y);
    }
    if HandleLine(rec, y).Ok? {
      HandleByTag(HandleLine(rec, y).value, x);
    }
    hide HandleLine, LineTag, ValueOf, AddLanguages, AddValues, ParseVersion, AddFile;
  }

  /** Two orders of the same lines that report different faults. */
  lemma FaultsDiffer()
    ensures ParseLines(["?", "Languages: \"XX\""]) == Fail(Leave(ERR_CORRUPT))
    ensures ParseLines(["Languages: \"XX\"", "?"]) == Fail(Leave(ERR_UNSUPPORTED_LANGUAGE))
  {
    hide HandleLine, HandleLines, LineTag, Complete;
    var x: Text := "?";
    var y: Text := "Languages: \"XX\"";
    NoLines();
    LineFaults();
    SwapLines([], x, y, []);
    assert [] + [x, y] + [] == [x, y] && [] + [y, x] + [] == [y, x];
  }

  lemma LineFaults()
    ensures LineTag("?") == Unknown && HandleLine(BLANK, "?") == Fail(Leave(ERR_CORRUPT))
    ensures LineTag("Languages: \"XX\"") == Languages
    ensures HandleLine(BLANK, "Languages: \"XX\"") == Fail(Leave(ERR_UNSUPPORTED_LANGUAGE))
  {
    hide Find, HandleLine, SplitValues;
    var line: Text := "Languages: \"XX\"";
    FindNone("?", ':');
    HandleByTag(BLANK, "?");
    FindAt(TXT_LANGUAGES, ':', " \"XX\"");
    assert line == TXT_LANGUAGES + [':'] + " \"XX\"";
    assert line[..9] == TXT_LANGUAGES && line[10..] == " \"XX\"";
    HandleByTag(BLANK, line);
    SplitOne();
    NoLanguage();
  }

  lemma NoLanguage()
    ensures LanguageMaps(["XX"]) == Fail(Leave(ERR_UNSUPPORTED_LANGUAGE))
  {
  }

  lemma SplitOne()
    ensures SplitValues(" \"XX\"") == Ok(["XX"])
  {
    SplitQuoted(["XX"]);
    hide SplitValues;
    assert ["XX"][1..] == [] && Quoted([]) == [];
    assert Quoted(["XX"]) == " \"XX\"";
  }

  // ---------------------------------------------------------------------------
  // Round trip
  // ---------------------------------------------------------------------------

  predicate CrlfFree(s: Text) {
    forall i :: 0 <= i < |s| ==> !CrlfAt(s, i)
  }

  predicate Trimmed(s: Text) {
    s == [] || (!IsSpace(s[0]) && !IsSpace(s[|s| - 1]))
  }

  predicate Printable(value: Text) {
    QUOTE !in value && |value| <= MAX_VALUE_LENGTH
  }

  function LanguageCode(language: int): Text {
    if language == LANG_ENGLISH then "EN" else if language == LANG_HUNGARIAN then "HU" else "PL"
  }

  predicate Supported(language: int) {
    language == LANG_ENGLISH || language == LANG_HUNGARIAN || language == LANG_POLISH
  }

  predicate InRange(v: Version) {
    -0x80 <= v.major <= 0x7F && -0x80 <= v.minor <= 0x7F && -0x8000 <= v.build <= 0x7FFF
  }

  /** The records that can be written as text. */
  predicate Valid(rec: Record) {
    && Complete(rec)
    && InRange(rec.version)
    && (forall i :: 0 <= i < |rec.languages| ==> Supported(rec.languages[i]))
    && (forall i :: 0 <= i < |rec.names| ==> Printable(rec.names[i]))
    && (forall i :: 0 <= i < |rec.vendors| ==> Printable(rec.vendors[i]))
    && (forall i :: 0 <= i < |rec.files| ==> Trimmed(rec.files[i]))
  }

  function Quoted(values: seq<Text>): Text {
    if values == [] then [] else " \"" + values[0] + "\"" + Quoted(values[1..])
  }

  function Codes(languages: seq<int>): (r: seq<Text>)
    ensures |r| == |languages|
    ensures forall i :: 0 <= i < |r| ==> r[i] == LanguageCode(languages[i])
  {
    seq(|languages|, i requires 0 <= i < |languages| => LanguageCode(languages[i]))
  }

  function Decimal(n: nat): (r: Text)
    ensures r != [] && forall i :: 0 <= i < |r| ==> IsDigit(r[i])
  {
    var last: Text := [('0' as int + n % 10) as char];
    if n < 10 then last else Decimal(n / 10) + last
  }

  function Signed(n: int): Text {
    if n < 0 then "-" + Decimal(-n) else Decimal(n)
  }

  /** The form of TVersion::Name: the minor number has at least two digits. */
  function VersionText(v: Version): Text {
    Signed(v.major) + "." + (if 0 <= v.minor < 10 then "0" + Signed(v.minor) else Signed(v.minor)) + "(" + Signed(v.build) + ")"
  }

  function TagLine(tag: Text, value: Text): (r: Text)
    ensures r != []
  {
    tag + ":" + value
  }

  function FileLines(files: seq<Text>): (r: seq<Text>)
    ensures |r| == |files|
    ensures forall i :: 0 <= i < |r| ==> r[i] == TagLine(TXT_FILE, " " + files[i])
  {
    seq(|files|, i requires 0 <= i < |files| => TagLine(TXT_FILE, " " + files[i]))
  }

  /** The lines of a record, in the order of the sample packages. */
  function Lines(rec: Record): seq<Text> {
    [TagLine(TXT_LANGUAGES, Quoted(Codes(rec.languages))),
     TagLine(TXT_COMPONENT_NAME, Quoted(rec.names)),
     TagLine(TXT_COMPONENT_VERSION, " " + VersionText(rec.version)),
     TagLine(TXT_COMPONENT_VENDOR, Quoted(rec.vendors))] + FileLines(rec.files)
  }

  /** Lines joined by CRLF, with or without one at the end. */
  function Join(lines: seq<Text>, final: bool): Text {
    if lines == [] then []
    else if |lines| == 1 && !final then lines[0]
    else lines[0] + CRLF + Join(lines[1..], final)
  }

  lemma FindAt(front: Text, c: byte, back: Text)
    requires c !in front
    ensures Find(front + [c] + back, c) == |front|
  {
    var s := front + [c] + back;
    var k := Find(s, c);
    forall i | 0 <= i < |front| ensures s[i] != c {
      assert front[i] in front;
    }
    assert s[|front|] == c;
    forall i | 0 <= i < k ensures s[i] != c {
      assert s[i] == s[..k][i];
    }
  }

  lemma FindNone(s: Text, c: byte)
    requires c !in s
    ensures Find(s, c) == |s|
  {
    assert forall i :: 0 <= i < |s| ==> s[i] != c;
  }

  lemma CrlfAfter(line: Text, rest: Text)
    requires CrlfFree(line)
    ensures FindCrlf(line + CRLF + rest) == |line|
  {
    var s := line + CRLF + rest;
    assert CrlfAt(s, |line|);
    forall i | 0 <= i < |line| ensures !CrlfAt(s, i) {
      assert !CrlfAt(line, i);
    }
  }

  /** Joined lines are split into the same lines, empty ones included, except that an
      empty line at the end needs its line break. */
  lemma {:induction false} LinesBack(lines: seq<Text>, final: bool)
    requires forall i :: 0 <= i < |lines| ==> CrlfFree(lines[i])
    requires !final && lines != [] ==> lines[|lines| - 1] != []
    ensures LinesOf(Join(lines, final)) == lines
    decreases |lines|
  {
    if lines == [] {
    } else if |lines| == 1 && !final {
      var text := lines[0];
      assert CrlfFree(text);
      assert FindCrlf(text) == |text|;
      assert lines == [text];
    } else {
      var rest := Join(lines[1..], final);
      CrlfAfter(lines[0], rest);
      LinesBack(lines[1..], final);
      var text := lines[0] + CRLF + rest;
      assert text[..|lines[0]|] == lines[0] && text[|lines[0]| + 2..] == rest;
      assert lines == [lines[0]] + lines[1..];
    }
  }

  lemma SplitAt(s: Text, rest: Text, v: Text, more: Text)
    requires Find(s, QUOTE) < |s| && s[Find(s, QUOTE) + 1..] == rest
    requires Find(rest, QUOTE) == |v| < |rest| && |v| <= MAX_VALUE_LENGTH && rest[..|v|] == v && rest[|v| + 1..] == more
    ensures SplitValues(s) == if SplitValues(more).Ok? then Ok([v] + SplitValues(more).value) else SplitValues(more)
  {
    hide Find;
  }

  /** One value in its quotes. */
  lemma SplitOneValue(v: Text, more: Text)
    requires Printable(v)
    ensures SplitValues(" \"" + v + "\"" + more) ==
            if SplitValues(more).Ok? then Ok([v] + SplitValues(more).value) else SplitValues(more)
  {
    hide Find, SplitValues;
    var s: Text := " \"" + v + "\"" + more;
    var rest: Text := v + [QUOTE] + more;
    FindAt(" ", QUOTE, rest);
    assert s == " " + [QUOTE] + rest && s[2..] == rest;
    FindAt(v, QUOTE, more);
    assert rest[..|v|] == v && rest[|v| + 1..] == more;
    SplitAt(s, rest, v, more);
  }

  lemma {:induction false} SplitQuoted(values: seq<Text>)
    requires forall i :: 0 <= i < |values| ==> Printable(values[i])
    ensures SplitValues(Quoted(values)) == Ok(values)
    decreases |values|
  {
    if values == [] {
      FindNone([], QUOTE);
    } else {
      SplitOneValue(values[0], Quoted(values[1..]));
      SplitQuoted(values[1..]);
      hide SplitValues;
      assert Quoted(values) == " \"" + values[0] + "\"" + Quoted(values[1..]);
      assert values == [values[0]] + values[1..];
    }
  }

  lemma {:induction false} MapCodes(languages: seq<int>)
    requires forall i :: 0 <= i < |languages| ==> Supported(languages[i])
    ensures LanguageMaps(Codes(languages)) == Ok(languages)
    decreases |languages|
  {
    if languages != [] {
      MapCodes(languages[1..]);
      assert Codes(languages)[1..] == Codes(languages[1..]);
      assert LanguageMap(LanguageCode(languages[0])) == Ok(languages[0]) by {
        assert Supported(languages[0]);
      }
      assert languages == [languages[0]] + languages[1..];
    }
  }

  lemma {:induction false} DecimalValue(n: nat)
    ensures Value(Decimal(n)) == n
  {
    var d := Decimal(n);
    if n >= 10 {
      DecimalValue(n / 10);
      assert d[..|d| - 1] == Decimal(n / 10);
    } else {
      assert d[..0] == [];
    }
  }

  lemma {:induction false} ZeroValue(digits: Text)
    requires forall i :: 0 <= i < |digits| ==> IsDigit(digits[i])
    ensures Value("0" + digits) == Value(digits)
    decreases |digits|
  {
    var s: Text := "0" + digits;
    if digits == [] {
      assert s[..0] == [];
    } else {
      var front := digits[..|digits| - 1];
      assert s[..|s| - 1] == "0" + front;
      ZeroValue(front);
    }
  }

  lemma {:induction false} DigitRunOf(digits: Text, rest: string)
    requires forall i :: 0 <= i < |digits| ==> IsDigit(digits[i])
    requires rest == [] || !IsDigit(rest[0])
    ensures DigitRun(digits + rest) == |digits|
    decreases |digits|
  {
    if digits == [] {
      assert digits + rest == rest;
    } else {
      assert (digits + rest)[1..] == digits[1..] + rest;
      DigitRunOf(digits[1..], rest);
    }
  }

  lemma LexDigitsBack(digits: Text, rest: string, negative: bool, lo: int, hi: int)
    requires digits != [] && forall i :: 0 <= i < |digits| ==> IsDigit(digits[i])
    requires rest == [] || !IsDigit(rest[0])
    ensures var v: int := if negative then -(Value(digits) as int) else Value(digits);
            LexDigits(digits + rest, negative, lo, hi) == if lo <= v <= hi then Ok((v, rest)) else Fail(Leave(ERR_OVERFLOW))
  {
    hide DigitRun, Value;
    DigitRunOf(digits, rest);
    assert (digits + rest)[..|digits|] == digits && (digits + rest)[|digits|..] == rest;
  }

  /** Reading back a number that is followed by something else than a digit. */
  lemma LexSigned(n: int, padded: bool, rest: string, lo: int, hi: int)
    requires (rest == [] || !IsDigit(rest[0])) && (padded ==> n >= 0)
    ensures LexVal((if padded then "0" + Signed(n) else Signed(n)) + rest, lo, hi)
         == if lo <= n <= hi then Ok((n, rest)) else Fail(Leave(ERR_OVERFLOW))
  {
    hide LexDigits, Value, Decimal;
    var digits: Text := if n < 0 then Decimal(-n) else if padded then "0" + Decimal(n) else Decimal(n);
    DecimalValue(if n < 0 then -n else n);
    if padded {
      ZeroValue(Decimal(n));
    }
    LexDigitsBack(digits, rest, n < 0, lo, hi);
    if n < 0 {
      assert Signed(n) + rest == "-" + (digits + rest);
      AfterSign(digits + rest, lo, hi);
    } else {
      assert IsDigit((digits + rest)[0]);
    }
  }

  lemma AfterSign(s: string, lo: int, hi: int)
    ensures LexVal("-" + s, lo, hi) == LexDigits(s, true, lo, hi)
  {
    hide LexDigits;
    assert ("-" + s)[1..] == s;
  }

  lemma AfterPlus(n: nat, rest: string, lo: int, hi: int)
    requires rest == [] || !IsDigit(rest[0])
    ensures LexVal("+" + Signed(n) + rest, lo, hi) == if lo <= n <= hi then Ok((n, rest)) else Fail(Leave(ERR_OVERFLOW))
  {
    hide LexDigits, Value, Decimal;
    DecimalValue(n);
    LexDigitsBack(Decimal(n), rest, false, lo, hi);
    assert ("+" + Signed(n) + rest)[1..] == Decimal(n) + rest;
  }

  lemma NoDashes(n: int, rest: string)
    ensures !("--" <= Signed(n) + rest)
  {
    hide Decimal;
    var s := Signed(n) + rest;
    assert IsDigit(Decimal(if n < 0 then -n else n)[0]);
    var k := if n < 0 then 1 else 0;
    assert IsDigit(s[k]) && s[k] != "--"[k];
  }

  lemma SignedStart(n: int)
    ensures Signed(n) != [] && !IsSpace(Signed(n)[0])
  {
    hide Decimal;
    assert IsDigit(Decimal(if n < 0 then -n else n)[0]);
  }

  /** A written version parses back exactly if its numbers are in range. */
  lemma VersionBack(v: Version)
    ensures ParseVersion(" " + VersionText(v), Version(0, 0, 0)) == if InRange(v) then Ok(v) else Fail(Leave(ERR_OVERFLOW))
  {
    hide LexVal, Signed, SkipSpace, IsSpace;
    var padded := 0 <= v.minor < 10;
    var build: Text := Signed(v.build) + ")";
    var minor: Text := (if padded then "0" + Signed(v.minor) else Signed(v.minor)) + ("(" + build);
    var major: Text := Signed(v.major) + ("." + minor);
    LexSigned(v.major, false, "." + minor, -0x80, 0x7F);
    LexSigned(v.minor, padded, "(" + build, -0x80, 0x7F);
    LexSigned(v.build, false, ")", -0x8000, 0x7FFF);
    assert VersionText(v) == major;
    SignedStart(v.major);
    SkipOne(major);
    assert ("." + minor)[1..] == minor && ("(" + build)[1..] == build;
  }

  lemma SkipOne(s: Text)
    requires s != [] && !IsSpace(s[0])
    ensures SkipSpace(" " + s) == s
  {
    var t: Text := " " + s;
    assert t[1..] == s;
  }

  lemma TrimBack(f: Text)
    requires Trimmed(f)
    ensures TrimRight(SkipSpace(" " + f)) == f
  {
    var t: Text := " " + f;
    assert t[1..] == f;
  }

  /** A line with a given tag and value is handled as such. */
  lemma LineOf(tag: Text, value: Text)
    requires ':' !in tag
    ensures LineTag(TagLine(tag, value)) == TagOf(tag) && ValueOf(TagLine(tag, value)) == value
  {
    hide Find, TagOf;
    FindAt(tag, ':', value);
    var line := TagLine(tag, value);
    assert line == tag + [':'] + value;
    assert line[..|tag|] == tag && line[|tag| + 1..] == value;
  }

  lemma {:induction false} FilesBack(rec: Record, files: seq<Text>)
    requires forall i :: 0 <= i < |files| ==> Trimmed(files[i])
    ensures HandleLines(rec, FileLines(files)) == Ok(rec.(files := rec.files + files))
    decreases |files|
  {
    hide HandleLine, Trimmed, TagLine;
    var lines := FileLines(files);
    if files == [] {
      assert rec.files + files == rec.files;
    } else {
      FileLineBack(rec, files[0]);
      var next := rec.(files := rec.files + [files[0]]);
      assert lines[1..] == FileLines(files[1..]);
      FilesBack(next, files[1..]);
      assert next.files + files[1..] == rec.files + files;
    }
  }

  lemma FileLineBack(rec: Record, f: Text)
    requires Trimmed(f)
    ensures HandleLine(rec, TagLine(TXT_FILE, " " + f)) == Ok(rec.(files := rec.files + [f]))
  {
    hide HandleLine, LineTag, ValueOf, TagLine, Trimmed;
    LineOf(TXT_FILE, " " + f);
    HandleByTag(rec, TagLine(TXT_FILE, " " + f));
    TrimBack(f);
  }

  lemma HandleStep(rec: Record, line: Text, rest: seq<Text>, next: Record)
    requires HandleLine(rec, line) == Ok(next)
    ensures HandleLines(rec, [line] + rest) == HandleLines(next, rest)
  {
    hide HandleLine;
    assert ([line] + rest)[1..] == rest;
  }

  lemma LanguagesBack(rec: Record, languages: seq<int>)
    requires rec.languages == [] && forall i :: 0 <= i < |languages| ==> Supported(languages[i])
    ensures HandleLine(rec, TagLine(TXT_LANGUAGES, Quoted(Codes(languages)))) == Ok(rec.(languages := languages))
  {
    hide HandleLine, LineTag, ValueOf, TagLine, Quoted, SplitValues, LanguageMaps, Printable, Supported;
    LineOf(TXT_LANGUAGES, Quoted(Codes(languages)));
    HandleByTag(rec, TagLine(TXT_LANGUAGES, Quoted(Codes(languages))));
    CodesPrintable(languages);
    SplitQuoted(Codes(languages));
    MapCodes(languages);
  }

  lemma NamesBack(rec: Record, names: seq<Text>)
    requires rec.names == [] && forall i :: 0 <= i < |names| ==> Printable(names[i])
    ensures HandleLine(rec, TagLine(TXT_COMPONENT_NAME, Quoted(names))) == Ok(rec.(names := names))
  {
    hide HandleLine, LineTag, ValueOf, TagLine, Quoted, SplitValues, Printable;
    LineOf(TXT_COMPONENT_NAME, Quoted(names));
    HandleByTag(rec, TagLine(TXT_COMPONENT_NAME, Quoted(names)));
    SplitQuoted(names);
  }

  lemma VendorsBack(rec: Record, vendors: seq<Text>)
    requires rec.vendors == [] && forall i :: 0 <= i < |vendors| ==> Printable(vendors[i])
    ensures HandleLine(rec, TagLine(TXT_COMPONENT_VENDOR, Quoted(vendors))) == Ok(rec.(vendors := vendors))
  {
    hide HandleLine, LineTag, ValueOf, TagLine, Quoted, SplitValues, Printable;
    LineOf(TXT_COMPONENT_VENDOR, Quoted(vendors));
    HandleByTag(rec, TagLine(TXT_COMPONENT_VENDOR, Quoted(vendors)));
    SplitQuoted(vendors);
  }

  lemma VersionLineBack(rec: Record, v: Version)
    requires rec.version == Version(0, 0, 0) && InRange(v)
    ensures HandleLine(rec, TagLine(TXT_COMPONENT_VERSION, " " + VersionText(v))) == Ok(rec.(version := v))
  {
    hide HandleLine, LineTag, ValueOf, TagLine, VersionText, ParseVersion;
    LineOf(TXT_COMPONENT_VERSION, " " + VersionText(v));
    HandleByTag(rec, TagLine(TXT_COMPONENT_VERSION, " " + VersionText(v)));
    VersionBack(v);
  }

  lemma CodesPrintable(languages: seq<int>)
    ensures forall i :: 0 <= i < |languages| ==> Printable(Codes(languages)[i])
  {
    forall i | 0 <= i < |languages| ensures Printable(Codes(languages)[i]) {
      var code := LanguageCode(languages[i]);
      assert code[0] != QUOTE && code[1] != QUOTE && |code| == 2;
    }
  }

  /** The parser reads the lines of a valid record back into the record. */
  lemma HandleBack(rec: Record)
    requires Valid(rec)
    ensures ParseLines(Lines(rec)) == Ok(rec)
  {
    hide HandleLine, HandleLines, Quoted, VersionText, TagLine, Trimmed, Printable, Supported, InRange;
    var r0 := BLANK.(languages := rec.languages);
    var r1 := r0.(names := rec.names);
    var r2 := r1.(version := rec.version);
    var r3 := r2.(vendors := rec.vendors);
    LanguagesBack(BLANK, rec.languages);
    NamesBack(r0, rec.names);
    VersionLineBack(r1, rec.version);
    VendorsBack(r2, rec.vendors);
    var lines := Lines(rec);
    assert lines == [lines[0]] + ([lines[1]] + ([lines[2]] + ([lines[3]] + FileLines(rec.files))));
    HandleStep(BLANK, lines[0], [lines[1]] + ([lines[2]] + ([lines[3]] + FileLines(rec.files))), r0);
    HandleStep(r0, lines[1], [lines[2]] + ([lines[3]] + FileLines(rec.files)), r1);
    HandleStep(r1, lines[2], [lines[3]] + FileLines(rec.files), r2);
    HandleStep(r2, lines[3], FileLines(rec.files), r3);
    FilesBack(r3, rec.files);
    assert [] + rec.files == rec.files;
    assert r3.(files := rec.files) == rec;
  }

  /** Joining two strings makes no CRLF when the second does not start with a line feed. */
  lemma CrlfFreeConcat(a: Text, b: Text)
    requires CrlfFree(a) && CrlfFree(b) && (b == [] || b[0] != '\n')
    ensures CrlfFree(a + b)
  {
    var s := a + b;
    forall i | 0 <= i < |s| ensures !CrlfAt(s, i) {
      if i + 1 < |a| {
        assert !CrlfAt(a, i);
      } else if i >= |a| {
        assert !CrlfAt(b, i - |a|);
      }
    }
  }

  lemma {:induction false} QuotedClean(values: seq<Text>)
    requires forall i :: 0 <= i < |values| ==> CrlfFree(values[i])
    ensures CrlfFree(Quoted(values)) && (Quoted(values) == [] || Quoted(values)[0] == ' ')
    decreases |values|
  {
    hide CrlfFree;
    if values != [] {
      var (v, more) := (values[0], Quoted(values[1..]));
      QuotedClean(values[1..]);
      PlainClean("\"");
      PlainClean(" \"");
      CrlfFreeConcat("\"", more);
      QuoteAfter(v, more);
      assert Quoted(values) == " \"" + v + ("\"" + more);
    } else {
      PlainClean([]);
    }
  }

  lemma QuoteAfter(v: Text, more: Text)
    requires CrlfFree(v) && CrlfFree("\"" + more)
    ensures CrlfFree(" \"" + v + ("\"" + more))
  {
    hide CrlfFree;
    PlainClean(" \"");
    QuoteBefore(v);
    CrlfFreeConcat(" \"" + v, "\"" + more);
  }

  lemma QuoteBefore(v: Text)
    requires CrlfFree(v)
    ensures CrlfFree(" \"" + v)
  {
    var s: Text := " \"" + v;
    forall i | 0 <= i < |s| ensures !CrlfAt(s, i) {
      if i >= 2 {
        assert !CrlfAt(v, i - 2);
      }
    }
  }

  /** A string without a carriage return holds no CRLF. */
  lemma PlainClean(s: Text)
    requires '\r' !in s
    ensures CrlfFree(s)
  {
    forall i | 0 <= i < |s| ensures !CrlfAt(s, i) {
      assert s[i] in s;
    }
  }

  lemma SignedPlain(n: int)
    ensures '\r' !in Signed(n)
  {
    hide Decimal;
    var digits := Decimal(if n < 0 then -n else n);
    assert forall i :: 0 <= i < |digits| ==> IsDigit(digits[i]);
  }

  lemma VersionPlain(v: Version)
    ensures '\r' !in VersionText(v)
  {
    hide Signed;
    SignedPlain(v.major);
    SignedPlain(v.minor);
    SignedPlain(v.build);
  }

  lemma TagLineClean(tag: Text, value: Text)
    requires '\r' !in tag && CrlfFree(value) && (value == [] || value[0] == ' ')
    ensures CrlfFree(TagLine(tag, value))
  {
    hide CrlfFree;
    PlainClean(tag + ":");
    CrlfFreeConcat(tag + ":", value);
  }

  predicate OneLine(rec: Record) {
    && (forall i :: 0 <= i < |rec.names| ==> CrlfFree(rec.names[i]))
    && (forall i :: 0 <= i < |rec.vendors| ==> CrlfFree(rec.vendors[i]))
    && (forall i :: 0 <= i < |rec.files| ==> CrlfFree(rec.files[i]))
  }

  lemma LinesClean(rec: Record)
    requires OneLine(rec)
    ensures forall i :: 0 <= i < |Lines(rec)| ==> CrlfFree(Lines(rec)[i])
  {
    hide CrlfFree, Quoted, VersionText, TagLine;
    forall i | 0 <= i < |rec.languages| ensures CrlfFree(Codes(rec.languages)[i]) {
      PlainClean(Codes(rec.languages)[i]);
    }
    QuotedClean(Codes(rec.languages));
    TagLineClean(TXT_LANGUAGES, Quoted(Codes(rec.languages)));
    QuotedClean(rec.names);
    TagLineClean(TXT_COMPONENT_NAME, Quoted(rec.names));
    VersionPlain(rec.version);
    PlainClean(" " + VersionText(rec.version));
    TagLineClean(TXT_COMPONENT_VERSION, " " + VersionText(rec.version));
    QuotedClean(rec.vendors);
    TagLineClean(TXT_COMPONENT_VENDOR, Quoted(rec.vendors));
    forall i | 0 <= i < |rec.files| ensures CrlfFree(FileLines(rec.files)[i]) {
      FileClean(rec.files[i]);
      TagLineClean(TXT_FILE, " " + rec.files[i]);
    }
  }

  lemma FileClean(f: Text)
    requires CrlfFree(f)
    ensures CrlfFree(" " + f)
  {
    var s: Text := " " + f;
    forall i | 0 <= i < |s| ensures !CrlfAt(s, i) {
      if i >= 1 {
        assert !CrlfAt(f, i - 1);
      }
    }
  }

  /** Text round trip: parsing the written form of a valid record gives the record,
      with or without a final CRLF, provided no value holds a line break. */
  lemma TextRoundTrip(rec: Record, final: bool)
    requires Valid(rec) && OneLine(rec)
    ensures Parse(Join(Lines(rec), final)) == Ok(rec)
  {
    hide HandleLines, Join, Quoted, VersionText, Valid, LinesOf, CrlfFree, TagLine, OneLine;
    LinesClean(rec);
    LinesBack(Lines(rec), final);
    HandleBack(rec);
  }
}
