/** What every accepted text has, and why texts are refused. */
module TextRefusals {
  import opened Platform
  import opened PkgText
  import opened PkgTextLaws

  // ---------------------------------------------------------------------------
  // Whole texts
  // ---------------------------------------------------------------------------

  /** Acceptance, field by field: every line is handled by its tag, and the record has a
      version with some number that is not zero, a language, and a name and a vendor for
      each language. */
  lemma ParseExactly(lines: seq<Text>, rec: Record)
    ensures ParseLines(lines) == Ok(rec) <==>
              && ByTags(BLANK, lines, rec)
              && !(rec.version.major == 0 && rec.version.minor == 0 && rec.version.build == 0)
              && |rec.languages| > 0 && |rec.names| == |rec.languages| && |rec.vendors| == |rec.languages|
    ensures ByTags(BLANK, lines, rec) && ParseLines(lines).Fail? ==> ParseLines(lines) == Fail(Leave(ERR_CORRUPT))
  {
    hide HandleLines, ByTags;
    Decompose(BLANK, lines, rec);
  }

  lemma AcceptedHas(text: Text)
    requires Parse(text).Ok?
    ensures var rec := Parse(text).value;
            && !(rec.version.major == 0 && rec.version.minor == 0 && rec.version.build == 0)
            && |rec.languages| > 0 && |rec.names| == |rec.languages| && |rec.vendors| == |rec.languages|
  {
    hide ByTags;
    ParseExactly(LinesOf(text), Parse(text).value);
  }

  /** A text without a line for the languages, the names, the vendors or the version is
      refused, as is one with a line that has no known tag. */
  lemma TagNeeded(text: Text, tag: Tag)
    requires if tag == Unknown then Tagged(LinesOf(text), tag) != [] else tag != FileTag && Tagged(LinesOf(text), tag) == []
    ensures Parse(text).Fail?
  {
    hide ByTags, Tagged;
    if Parse(text).Ok? {
      ParseExactly(LinesOf(text), Parse(text).value);
      NoLinesNoPart(LinesOf(text), Parse(text).value);
    }
  }

  lemma NoLinesNoPart(lines: seq<Text>, rec: Record)
    requires ByTags(BLANK, lines, rec)
    ensures Tagged(lines, Unknown) == []
    ensures Tagged(lines, Languages) == [] ==> rec.languages == []
    ensures Tagged(lines, Name) == [] ==> rec.names == []
    ensures Tagged(lines, Vendor) == [] ==> rec.vendors == []
    ensures Tagged(lines, VersionTag) == [] ==> rec.version == Version(0, 0, 0)
  {
    hide Tagged, AddLanguages, AddValues, ParseVersion, AddFile;
  }

  // ---------------------------------------------------------------------------
  // Second lines
  // ---------------------------------------------------------------------------

  /** How much a tag's lines have put into the record. */
  function Filled(rec: Record, tag: Tag): nat {
    match tag
    case Languages => |rec.languages|
    case Name => |rec.names|
    case Vendor => |rec.vendors|
    case _ => 0
  }

  lemma SomeValue(value: Text)
    requires QUOTE in value && SplitValues(value).Ok?
    ensures SplitValues(value).value != []
  {
    assert value[..|value|] == value;
  }

  lemma LineFills(rec: Record, line: Text)
    requires LineTag(line) in {Languages, Name, Vendor} && HandleLine(rec, line).Ok?
    ensures Filled(rec, LineTag(line)) == 0
    ensures QUOTE in ValueOf(line) ==> Filled(HandleLine(rec, line).value, LineTag(line)) > 0
  {
    hide LineTag, ValueOf, SplitValues, HandleLine;
    HandleByTag(rec, line);
    if QUOTE in ValueOf(line) && SplitValues(ValueOf(line)).Ok? {
      SomeValue(ValueOf(line));
    }
  }

  lemma LineKeeps(rec: Record, line: Text, tag: Tag)
    requires HandleLine(rec, line).Ok? && tag in {Languages, Name, Vendor}
    ensures Filled(rec, tag) > 0 ==> LineTag(line) != tag && Filled(HandleLine(rec, line).value, tag) == Filled(rec, tag)
  {
    hide LineTag, ValueOf, AddLanguages, AddValues, ParseVersion, AddFile, HandleLine;
    HandleByTag(rec, line);
    if LineTag(line) == tag {
      LineFills(rec, line);
    }
  }

  lemma {:induction false} StaysFilled(rec: Record, lines: seq<Text>, tag: Tag)
    requires HandleLines(rec, lines).Ok? && tag in {Languages, Name, Vendor} && Filled(rec, tag) > 0
    ensures Filled(HandleLines(rec, lines).value, tag) > 0
    decreases |lines|
  {
    hide HandleLine, Filled, LineTag;
    if lines != [] {
      LineKeeps(rec, lines[0], tag);
      StaysFilled(HandleLine(rec, lines[0]).value, lines[1..], tag);
    }
  }

  lemma {:induction false} GetsFilled(rec: Record, lines: seq<Text>, i: nat)
    requires HandleLines(rec, lines).Ok? && i < |lines| && LineTag(lines[i]) in {Languages, Name, Vendor} && QUOTE in ValueOf(lines[i])
    ensures Filled(HandleLines(rec, lines).value, LineTag(lines[i])) > 0
    decreases |lines|
  {
    hide HandleLine, Filled, LineTag, ValueOf;
    var next := HandleLine(rec, lines[0]).value;
    if i == 0 {
      LineFills(rec, lines[0]);
      StaysFilled(next, lines[1..], LineTag(lines[0]));
    } else {
      GetsFilled(next, lines[1..], i - 1);
    }
  }

  /** A second line of languages, names or vendors is refused once there are values;
      what follows it does not matter. */
  lemma SecondLine(front: seq<Text>, i: nat, line: Text, back: seq<Text>)
    requires HandleLines(BLANK, front).Ok? && i < |front| && QUOTE in ValueOf(front[i])
    requires LineTag(line) == LineTag(front[i]) && LineTag(line) in {Languages, Name, Vendor}
    ensures ParseLines(front + [line] + back) == Fail(Leave(ERR_CORRUPT))
  {
    hide HandleLine, HandleLines, LineTag, ValueOf, SplitValues;
    GetsFilled(BLANK, front, i);
    var rec := HandleLines(BLANK, front).value;
    HandleByTag(rec, line);
    HandleAppend(BLANK, front, [line] + back);
    assert front + [line] + back == front + ([line] + back);
    FailsAtOnce(rec, line, back);
  }

  lemma FailsAtOnce(rec: Record, line: Text, back: seq<Text>)
    requires HandleLine(rec, line).Fail?
    ensures HandleLines(rec, [line] + back) == HandleLine(rec, line)
  {
    hide HandleLine;
    assert ([line] + back)[0] == line;
  }

  /** So is a second version once some number of the first is not zero. */
  lemma SecondVersion(front: seq<Text>, line: Text, back: seq<Text>)
    requires HandleLines(BLANK, front).Ok? && LineTag(line) == VersionTag
    requires var v := HandleLines(BLANK, front).value.version; v.major != 0 || v.minor != 0 || v.build != 0
    ensures ParseLines(front + [line] + back) == Fail(Leave(ERR_CORRUPT))
  {
    hide HandleLine, HandleLines, LineTag, ValueOf, LexVal;
    var rec := HandleLines(BLANK, front).value;
    HandleByTag(rec, line);
    HandleAppend(BLANK, front, [line] + back);
    assert front + [line] + back == front + ([line] + back);
    FailsAtOnce(rec, line, back);
  }

  // ---------------------------------------------------------------------------
  // Values
  // ---------------------------------------------------------------------------

  /** A value over the length of the buffer panics; one without a closing quote is
      corrupt. */
  lemma BadValue(front: Text, v: Text, more: Text)
    requires QUOTE !in front && QUOTE !in v
    ensures |v| > 255 ==> SplitValues(front + "\"" + v + "\"" + more) == Fail(Panic)
    ensures SplitValues(front + "\"" + v) == Fail(Leave(ERR_CORRUPT))
    ensures SplitValues(front) == Ok([])
  {
    hide Find;
    var s: Text := front + "\"" + v + "\"" + more;
    var rest: Text := v + [QUOTE] + more;
    FindAt(front, QUOTE, rest);
    assert s == front + [QUOTE] + rest && s[|front| + 1..] == rest;
    FindAt(v, QUOTE, more);
    FindAt(front, QUOTE, v);
    var t: Text := front + "\"" + v;
    assert t == front + [QUOTE] + v && t[|front| + 1..] == v;
    FindNone(v, QUOTE);
    FindNone(front, QUOTE);
  }

  /** The three language codes. */
  lemma CodesMean(code: Text)
    ensures LanguageMap("EN") == Ok(1) && LanguageMap("HU") == Ok(17) && LanguageMap("PL") == Ok(27)
    ensures code != "EN" && code != "HU" && code != "PL" ==> LanguageMap(code) == Fail(Leave(ERR_UNSUPPORTED_LANGUAGE))
  {
  }

  predicate AllSpace(s: Text) {
    forall i :: 0 <= i < |s| ==> s[i] == ' ' || s[i] == '\t' || s[i] == '\n' || s[i] == '\r' || s[i] as int == 11 || s[i] as int == 12
  }

  lemma {:induction false} SkipsFront(front: Text, s: Text)
    requires AllSpace(front) && (s != [] ==> !IsSpace(s[0]))
    ensures SkipSpace(front + s) == s
    decreases |front|
  {
    if front == [] {
      assert front + s == s;
    } else {
      assert (front + s)[0] == front[0] && (front + s)[1..] == front[1..] + s;
      SkipsFront(front[1..], s);
    }
  }

  lemma {:induction false} TrimsBack(s: Text, back: Text)
    requires AllSpace(back) && (s != [] ==> !IsSpace(s[|s| - 1]))
    ensures TrimRight(s + back) == s
    decreases |back|
  {
    if back == [] {
      assert s + back == s;
    } else {
      var k := |back| - 1;
      assert (s + back)[|s + back| - 1] == back[k] && (s + back)[..|s + back| - 1] == s + back[..k];
      TrimsBack(s, back[..k]);
    }
  }

  lemma {:induction false} SkipsAll(s: Text)
    requires AllSpace(s)
    ensures SkipSpace(s) == []
    decreases |s|
  {
    if s != [] {
      SkipsAll(s[1..]);
    }
  }

  /** A file is registered without the white space around it. */
  lemma FileTrimmed(files: seq<Text>, front: Text, f: Text, back: Text)
    requires AllSpace(front) && AllSpace(back) && Trimmed(f)
    ensures AddFile(files, front + f + back) == files + [f]
  {
    if f == [] {
      assert front + f + back == front + back;
      SkipsAll(front + back);
    } else {
      assert front + f + back == front + (f + back);
      SkipsFront(front, f + back);
      TrimsBack(f, back);
    }
  }

  /** White space, three numbers and any two characters between them are a version,
      whatever stands after the last digit; a second version is corrupt. */
  lemma VersionRead(front: Text, v: Version, a: byte, b: byte, rest: Text, was: Version)
    requires AllSpace(front) && !IsDigit(a) && !IsDigit(b) && (rest == [] || !IsDigit(rest[0]))
    ensures ParseVersion(front + Signed(v.major) + [a] + Signed(v.minor) + [b] + Signed(v.build) + rest, was) ==
            if was.major != 0 || was.minor != 0 || was.build != 0 then Fail(Leave(ERR_CORRUPT))
            else if -128 <= v.major <= 127 && -128 <= v.minor <= 127 && -32768 <= v.build <= 32767 then Ok(v)
            else Fail(Leave(ERR_OVERFLOW))
  {
    hide LexVal, Signed, SkipSpace, IsSpace;
    var build: Text := Signed(v.build) + rest;
    var minor: Text := Signed(v.minor) + ([b] + build);
    var major: Text := Signed(v.major) + ([a] + minor);
    LexSigned(v.major, false, [a] + minor, -0x80, 0x7F);
    LexSigned(v.minor, false, [b] + build, -0x80, 0x7F);
    LexSigned(v.build, false, rest, -0x8000, 0x7FFF);
    assert front + Signed(v.major) + [a] + Signed(v.minor) + [b] + Signed(v.build) + rest == front + major;
    SignedStart(v.major);
    SkipsFront(front, major);
    assert ([a] + minor)[1..] == minor && ([b] + build)[1..] == build;
  }

  /** A version that breaks off after its first number panics, as does one that breaks
      off after its second; a version that starts with no number is refused. */
  lemma VersionBroken(front: Text, n: int, m: int, a: byte)
    requires AllSpace(front) && !IsDigit(a) && -128 <= n <= 127 && -128 <= m <= 127
    ensures ParseVersion(front + Signed(n), Version(0, 0, 0)) == Fail(Panic)
    ensures ParseVersion(front + Signed(n) + [a] + Signed(m), Version(0, 0, 0)) == Fail(Panic)
    ensures ParseVersion(front, Version(0, 0, 0)) == Fail(Leave(ERR_GENERAL))
  {
    hide LexVal, Signed, SkipSpace, IsSpace;
    LexSigned(n, false, [], -0x80, 0x7F);
    LexSigned(n, false, [a] + Signed(m), -0x80, 0x7F);
    LexSigned(m, false, [], -0x80, 0x7F);
    SignedStart(n);
    assert Signed(n) + [] == Signed(n) && Signed(m) + [] == Signed(m);
    SkipsFront(front, Signed(n));
    assert front + Signed(n) + [a] + Signed(m) == front + (Signed(n) + ([a] + Signed(m)));
    SkipsFront(front, Signed(n) + ([a] + Signed(m)));
    assert ([a] + Signed(m))[1..] == Signed(m);
    SkipsAll(front);
    NoNumberAtAll();
  }

  lemma NoNumberAtAll()
    ensures LexVal([], -0x80, 0x7F) == Fail(Leave(ERR_GENERAL))
  {
  }
}
