/** The parser as it runs: fields filled line by line. */
module PkgParser {
  import opened Platform
  import opened PkgText

  /** What is still to come, put after what has been collected. */
  ghost function Prepend(values: seq<Text>, r: Outcome<seq<Text>>): Outcome<seq<Text>> {
    match r
    case Ok(more) => Ok(values + more)
    case Fail(f) => Fail(f)
  }

  lemma PrependNothing(r: Outcome<seq<Text>>)
    ensures Prepend([], r) == r
  {
    if r.Ok? {
      assert [] + r.value == r.value;
    }
  }

  lemma PrependOne(values: seq<Text>, token: Text, r: Outcome<seq<Text>>)
    ensures Prepend(values, Prepend([token], r)) == Prepend(values + [token], r)
  {
    if r.Ok? {
      assert values + ([token] + r.value) == values + [token] + r.value;
    }
  }

  /** Collects quoted values until no quote is left. */
  method SplitValuesL(aValues: Text) returns (r: Outcome<seq<Text>>)
    ensures r == SplitValues(aValues)
  {
    hide Find, Prepend;
    var valueArray: seq<Text> := [];
    var values := aValues;
    PrependNothing(SplitValues(aValues));
    while |values| > 0
      invariant SplitValues(aValues) == Prepend(valueArray, SplitValues(values))
      decreases |values|
    {
      var quot := Find(values, QUOTE);
      if quot == |values| {
        PrependDone(valueArray);
        return Ok(valueArray);
      }
      var rest := values[quot + 1..];
      quot := Find(rest, QUOTE);
      if quot == |rest| {
        PrependFail(valueArray, Leave(ERR_CORRUPT));
        return Fail(Leave(ERR_CORRUPT));
      }
      var token := rest[..quot];
      if |token| > MAX_VALUE_LENGTH {
        PrependFail(valueArray, Panic);
        return Fail(Panic);
      }
      var tail := rest[quot + 1..];
      SplitOne(values, token, tail);
      PrependOne(valueArray, token, SplitValues(tail));
      valueArray := valueArray + [token];
      values := tail;
    }
    PrependDone(valueArray);
    return Ok(valueArray);
  }

  lemma PrependDone(values: seq<Text>)
    ensures Prepend(values, Ok([])) == Ok(values)
  {
    assert values + [] == values;
  }

  lemma PrependFail(values: seq<Text>, f: Fault)
    ensures Prepend(values, Fail(f)) == Fail(f)
  {
  }

  lemma SplitOne(values: Text, token: Text, tail: Text)
    requires var open := Find(values, QUOTE);
             && open < |values|
             && var close := Find(values[open + 1..], QUOTE);
                && close < |values[open + 1..]| && close <= MAX_VALUE_LENGTH
                && token == values[open + 1..][..close] && tail == values[open + 1..][close + 1..]
    ensures SplitValues(values) == Prepend([token], SplitValues(tail))
  {
    hide Find;
  }

  class PkgParser {
    var iLanguages: seq<int>
    var iComponentNames: seq<Text>
    var iVendorNames: seq<Text>
    var iVersion: Version
    var iFiles: seq<Text>

    function Current(): Record
      reads this
    {
      Record(iLanguages, iComponentNames, iVendorNames, iVersion, iFiles)
    }

    constructor ()
      ensures Current() == BLANK
    {
      iLanguages := [];
      iComponentNames := [];
      iVendorNames := [];
      iVersion := Version(0, 0, 0);
      iFiles := [];
    }

    method ParseComponentVersionL(aStringVersion: Text) returns (r: Outcome<()>)
      modifies this`iVersion
      ensures match ParseVersion(aStringVersion, old(iVersion))
              case Ok(v) => r == Ok(()) && iVersion == v
              case Fail(f) => r == Fail(f)
    {
      hide LexVal, LexInc, SkipSpace;
      if iVersion.major != 0 || iVersion.minor != 0 || iVersion.build != 0 {
        return Fail(Leave(ERR_CORRUPT));
      }
      var major :- LexVal(SkipSpace(aStringVersion), -0x80, 0x7F);
      iVersion := iVersion.(major := major.0);
      var lex :- LexInc(major.1);
      var minor :- LexVal(lex, -0x80, 0x7F);
      iVersion := iVersion.(minor := minor.0);
      lex :- LexInc(minor.1);
      var build :- LexVal(lex, -0x8000, 0x7FFF);
      iVersion := iVersion.(build := build.0);
      return Ok(());
    }

    method AppendLanguagesL(languages: seq<Text>) returns (r: Outcome<()>)
      modifies this`iLanguages
      ensures match LanguageMaps(languages)
              case Ok(more) => r == Ok(()) && iLanguages == old(iLanguages) + more
              case Fail(f) => r == Fail(f)
    {
      hide LanguageMap;
      ghost var start := iLanguages;
      ghost var answer := LanguageMaps(languages);
      var i := 0;
      assert languages[0..] == languages;
      ghost var done: seq<int> := [];
      assert answer.Ok? ==> [] + answer.value == answer.value;
      while i < |languages|
        invariant 0 <= i <= |languages|
        invariant iLanguages == start + done
        invariant answer == (match LanguageMaps(languages[i..]) case Ok(more) => Ok(done + more) case Fail(f) => Fail(f))
      {
        assert languages[i..][0] == languages[i] && languages[i..][1..] == languages[i + 1..];
        var language :- LanguageMap(languages[i]);
        iLanguages := iLanguages + [language];
        ghost var before := done;
        done := done + [language];
        i := i + 1;
        assert forall more: seq<int> :: before + ([language] + more) == done + more;
      }
      assert languages[i..] == [] && done + [] == done;
      return Ok(());
    }

    /** Recognises a tag and changes that part of the record and no other. */
    method LineHandlerL(aName: Text, aValue: Text) returns (r: Outcome<()>)
      modifies this
      ensures match LineHandler(old(Current()), aName, aValue)
              case Ok(rec) => r == Ok(()) && Current() == rec
              case Fail(f) => r == Fail(f)
    {
      hide ParseVersion, LanguageMaps, SplitValues;
      if aName == TXT_LANGUAGES {
        if |iLanguages| > 0 {
          return Fail(Leave(ERR_CORRUPT));
        }
        var languages :- SplitValuesL(aValue);
        var _ :- AppendLanguagesL(languages);
      } else if aName == TXT_COMPONENT_NAME {
        if |iComponentNames| > 0 {
          return Fail(Leave(ERR_CORRUPT));
        }
        iComponentNames :- SplitValuesL(aValue);
      } else if aName == TXT_COMPONENT_VENDOR {
        if |iVendorNames| > 0 {
          return Fail(Leave(ERR_CORRUPT));
        }
        iVendorNames :- SplitValuesL(aValue);
      } else if aName == TXT_COMPONENT_VERSION {
        var _ :- ParseComponentVersionL(aValue);
      } else if aName == TXT_FILE {
        iFiles := iFiles + [TrimRight(SkipSpace(aValue))];
      } else {
        return Fail(Leave(ERR_CORRUPT));
      }
      return Ok(());
    }

    /** Reads a whole text and checks the record. */
    method ParseL(text: Text) returns (r: Outcome<()>)
      requires Current() == BLANK
      modifies this
      ensures match Parse(text)
              case Ok(rec) => r == Ok(()) && Current() == rec
              case Fail(f) => r == Fail(f)
    {
      hide LineHandler, SplitLine;
      var lines := text;
      ghost var answer := HandleLines(BLANK, LinesOf(text));
      while |lines| > 0
        invariant answer == HandleLines(Current(), LinesOf(lines))
        decreases |lines|
      {
        var line: Text;
        ghost var before := lines;
        var crlfPos := FindCrlf(lines);
        if crlfPos < |lines| {
          line := lines[..crlfPos];
          lines := lines[crlfPos + 2..];
        } else {
          line := lines;
          lines := [];
        }
        assert LinesOf(before) == [line] + LinesOf(lines);
        var pair :- SplitLine(line);
        var _ :- LineHandlerL(pair.0, pair.1);
      }
      r := CheckInvariantL();
    }

    method CheckInvariantL() returns (r: Outcome<()>)
      ensures r == if Complete(Current()) then Ok(()) else Fail(Leave(ERR_CORRUPT))
    {
      if iVersion.major == 0 && iVersion.minor == 0 && iVersion.build == 0 {
        return Fail(Leave(ERR_CORRUPT));
      }
      if |iLanguages| == 0 {
        return Fail(Leave(ERR_CORRUPT));
      }
      if |iLanguages| != |iComponentNames| {
        return Fail(Leave(ERR_CORRUPT));
      }
      if |iLanguages| != |iVendorNames| {
        return Fail(Leave(ERR_CORRUPT));
      }
      return Ok(());
    }

    method GetLanguageIndex(aLanguage: int) returns (index: int)
      ensures index == LanguageIndex(iLanguages, aLanguage)
    {
      var count := |iLanguages|;
      assert iLanguages[0..] == iLanguages;
      for i := 0 to count
        invariant aLanguage !in iLanguages[..i]
      {
        if iLanguages[i] == aLanguage {
          FirstIndex(iLanguages, aLanguage, i);
          return i;
        }
      }
      assert iLanguages[..count] == iLanguages;
      return ERR_NOT_FOUND;
    }
  }

  lemma FirstIndex(languages: seq<int>, language: int, i: nat)
    requires i < |languages| && languages[i] == language && language !in languages[..i]
    ensures LanguageIndex(languages, language) == i
  {
    var k := LanguageIndex(languages, language);
    forall j | 0 <= j < i ensures languages[j] != language {
      assert languages[j] == languages[..i][j];
    }
    forall j | 0 <= j < k ensures languages[j] != language {
      assert languages[j] == languages[..k][j];
    }
  }
}
