/** The text package: what a line means, what a whole text means, and when a
    text is accepted. */
module PkgText {
  import opened Platform

  type Text = seq<byte>

  const CRLF: Text := "\r\n"
  const TXT_LANGUAGES: Text := "Languages"
  const TXT_COMPONENT_NAME: Text := "ComponentName"
  const TXT_COMPONENT_VENDOR: Text := "ComponentVendor"
  const TXT_COMPONENT_VERSION: Text := "ComponentVersion"
  const TXT_FILE: Text := "File"
  const QUOTE: byte := '"'
  const MAX_VALUE_LENGTH := 0xFF

  const LANG_ENGLISH := 1
  const LANG_HUNGARIAN := 17
  const LANG_POLISH := 27

  datatype Version = Version(major: int, minor: int, build: int) {
    predicate IsZero() {
      major == 0 && minor == 0 && build == 0
    }
  }

  /** What a package file says about a component. */
  datatype Record = Record(languages: seq<int>, names: seq<Text>, vendors: seq<Text>, version: Version, files: seq<Text>)

  const BLANK := Record([], [], [], Version(0, 0, 0), [])

  /** The position of the first c in s, or |s|. */
  function Find(s: Text, c: byte): (k: nat)
    ensures k <= |s| && c !in s[..k]
    ensures k < |s| ==> s[k] == c
  {
    if s == [] || s[0] == c then 0
    else
      var k := Find(s[1..], c);
      assert s[..k + 1] == [s[0]] + s[1..][..k];
      k + 1
  }

  predicate CrlfAt(s: Text, i: nat) {
    i + 1 < |s| && s[i] == '\r' && s[i + 1] == '\n'
  }

  /** The position of the first CRLF in s, or |s|. */
  function FindCrlf(s: Text): (k: nat)
    ensures k <= |s| && (k < |s| ==> CrlfAt(s, k))
    ensures forall i :: 0 <= i < k ==> !CrlfAt(s, i)
  {
    if s == [] || CrlfAt(s, 0) then 0
    else
      var k := FindCrlf(s[1..]);
      assert forall i :: 1 <= i < |s| ==> CrlfAt(s, i) == CrlfAt(s[1..], i - 1);
      k + 1
  }

  /** The lines of a text. Nothing follows a final CRLF, but an empty line between
      two of them counts. */
  function LinesOf(text: Text): seq<Text>
    decreases |text|
  {
    if text == [] then []
    else
      var k := FindCrlf(text);
      if k < |text| then [text[..k]] + LinesOf(text[k + 2..]) else [text]
  }

  function SplitLine(line: Text): Outcome<(Text, Text)> {
    var colon := Find(line, ':');
    if colon == |line| then Fail(Leave(ERR_CORRUPT)) else Ok((line[..colon], line[colon + 1..]))
  }

  /** The quoted values in a string; a value over the buffer length panics. */
  function SplitValues(values: Text): Outcome<seq<Text>>
    decreases |values|
  {
    var open := Find(values, QUOTE);
    if open == |values| then Ok([]) else
    var rest := values[open + 1..];
    var close := Find(rest, QUOTE);
    if close == |rest| then Fail(Leave(ERR_CORRUPT))
    else if close > MAX_VALUE_LENGTH then Fail(Panic) else
    var more :- SplitValues(rest[close + 1..]);
    Ok([rest[..close]] + more)
  }

  predicate IsSpace(c: char) {
    c == ' ' || 9 <= c as int <= 13
  }

  predicate IsDigit(c: char) {
    '0' <= c <= '9'
  }

  function SkipSpace(s: Text): Text {
    if s != [] && IsSpace(s[0]) then SkipSpace(s[1..]) else s
  }

  function TrimRight(s: Text): Text {
    if s != [] && IsSpace(s[|s| - 1]) then TrimRight(s[..|s| - 1]) else s
  }

  /** The number of leading digits. */
  function DigitRun(s: string): (k: nat)
    ensures k <= |s|
  {
    if s != [] && IsDigit(s[0]) then 1 + DigitRun(s[1..]) else 0
  }

  function Value(digits: string): nat
    requires forall i :: 0 <= i < |digits| ==> IsDigit(digits[i])
  {
    if digits == [] then 0
    else
      assert IsDigit(digits[|digits| - 1]);
      10 * Value(digits[..|digits| - 1]) + (digits[|digits| - 1] as int - '0' as int)
  }

  lemma DigitRunDigits(s: string)
    ensures forall i :: 0 <= i < DigitRun(s) ==> IsDigit(s[i])
  {
  }

  function LexDigits(s: string, negative: bool, lo: int, hi: int): Outcome<(int, string)> {
    var k := DigitRun(s);
    if k == 0 then Fail(Leave(ERR_GENERAL)) else
    DigitRunDigits(s);
    var u: int := Value(s[..k]);
    var v := if negative then -u else u;
    if lo <= v <= hi then Ok((v, s[k..])) else Fail(Leave(ERR_OVERFLOW))
  }

  /** TLex::Val: an optional sign and digits, which must denote a number in range. */
  function LexVal(s: string, lo: int, hi: int): Outcome<(int, string)> {
    if s != [] && s[0] == '-' then LexDigits(s[1..], true, lo, hi)
    else if s != [] && s[0] == '+' then LexDigits(s[1..], false, lo, hi)
    else LexDigits(s, false, lo, hi)
  }

  /** TLex::Inc: there must be a character to step over. */
  function LexInc(s: string): Outcome<string> {
    if s == [] then Fail(Panic) else Ok(s[1..])
  }

  function ParseVersion(value: Text, version: Version): Outcome<Version> {
    if !version.IsZero() then Fail(Leave(ERR_CORRUPT)) else
    var (major, rest1) :- LexVal(SkipSpace(value), -0x80, 0x7F);
    var rest2 :- LexInc(rest1);
    var (minor, rest3) :- LexVal(rest2, -0x80, 0x7F);
    var rest4 :- LexInc(rest3);
    var (build, _) :- LexVal(rest4, -0x8000, 0x7FFF);
    Ok(Version(major, minor, build))
  }

  function LanguageMap(language: Text): Outcome<int> {
    if language == "EN" then Ok(LANG_ENGLISH)
    else if language == "HU" then Ok(LANG_HUNGARIAN)
    else if language == "PL" then Ok(LANG_POLISH)
    else Fail(Leave(ERR_UNSUPPORTED_LANGUAGE))
  }

  function LanguageMaps(languages: seq<Text>): (r: Outcome<seq<int>>)
    ensures r.Ok? ==> |r.value| == |languages|
  {
    if languages == [] then Ok([]) else
    var first :- LanguageMap(languages[0]);
    var more :- LanguageMaps(languages[1..]);
    Ok([first] + more)
  }

  // ---------------------------------------------------------------------------
  // One line: each tag touches one part of the record
  // ---------------------------------------------------------------------------

  datatype Tag = Languages | Name | Vendor | VersionTag | FileTag | Unknown

  function TagOf(name: Text): Tag {
    if name == TXT_LANGUAGES then Languages
    else if name == TXT_COMPONENT_NAME then Name
    else if name == TXT_COMPONENT_VENDOR then Vendor
    else if name == TXT_COMPONENT_VERSION then VersionTag
    else if name == TXT_FILE then FileTag
    else Unknown
  }

  function AddLanguages(languages: seq<int>, value: Text): Outcome<seq<int>> {
    if |languages| > 0 then Fail(Leave(ERR_CORRUPT)) else
    var values :- SplitValues(value);
    LanguageMaps(values)
  }

  function AddValues(values: seq<Text>, value: Text): Outcome<seq<Text>> {
    if |values| > 0 then Fail(Leave(ERR_CORRUPT)) else SplitValues(value)
  }

  function AddFile(files: seq<Text>, value: Text): seq<Text> {
    files + [TrimRight(SkipSpace(value))]
  }

  function LineHandler(rec: Record, name: Text, value: Text): Outcome<Record> {
    match TagOf(name)
    case Languages =>
      var x :- AddLanguages(rec.languages, value);
      Ok(rec.(languages := x))
    case Name =>
      var x :- AddValues(rec.names, value);
      Ok(rec.(names := x))
    case Vendor =>
      var x :- AddValues(rec.vendors, value);
      Ok(rec.(vendors := x))
    case VersionTag =>
      var x :- ParseVersion(value, rec.version);
      Ok(rec.(version := x))
    case FileTag => Ok(rec.(files := AddFile(rec.files, value)))
    case Unknown => Fail(Leave(ERR_CORRUPT))
  }

  function HandleLine(rec: Record, line: Text): Outcome<Record> {
    var (name, value) :- SplitLine(line);
    LineHandler(rec, name, value)
  }

  function HandleLines(rec: Record, lines: seq<Text>): Outcome<Record>
    decreases |lines|
  {
    if lines == [] then Ok(rec) else
    var next :- HandleLine(rec, lines[0]);
    HandleLines(next, lines[1..])
  }

  /** The final check: a version, at least one language, and a name and a vendor
      for each. The tasks rely on it when they index the arrays. */
  predicate Complete(rec: Record) {
    !rec.version.IsZero() && |rec.languages| > 0 && |rec.languages| == |rec.names| == |rec.vendors|
  }

  function ParseLines(lines: seq<Text>): Outcome<Record> {
    var rec :- HandleLines(BLANK, lines);
    if Complete(rec) then Ok(rec) else Fail(Leave(ERR_CORRUPT))
  }

  function Parse(text: Text): Outcome<Record> {
    ParseLines(LinesOf(text))
  }

  /** The first position of a language, or -1. */
  function LanguageIndex(languages: seq<int>, language: int): (i: int)
    ensures -1 <= i < |languages|
    ensures i >= 0 ==> languages[i] == language && language !in languages[..i]
    ensures i < 0 ==> language !in languages
  {
    if languages == [] then -1
    else if languages[0] == language then 0
    else
      var i := LanguageIndex(languages[1..], language);
      assert i >= 0 ==> languages[..i + 1] == [languages[0]] + languages[1..][..i];
      if i < 0 then -1 else i + 1
  }

  /** The array position the tasks use for a device language. */
  function ChosenIndex(languages: seq<int>, language: int): int {
    var i := LanguageIndex(languages, language);
    if i < 0 then 0 else i
  }

  lemma ChosenIndexInRange(text: Text, language: int)
    requires Parse(text).Ok?
    ensures var rec := Parse(text).value;
            0 <= ChosenIndex(rec.languages, language) < |rec.names| == |rec.vendors|
  {
  }
}
