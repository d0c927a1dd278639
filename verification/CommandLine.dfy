/** The command line of the reference application manager: how arguments are grouped
    into options, and what the commands make of them. */
module CommandLine {
  import opened Platform
  import PkgText
  import PkgTextLaws

  const OPTION_PREFIX := "--"
  const INVALID_COMPONENT_ID := -1
  const UNSPECIFIED_LOCALE := -1
  const ERR_BAD_NAME := -28
  const MAX_DRIVES := 26
  const LANG_ENGLISH := 1
  const LANG_NONE := 0xFFFF

  datatype Property = TextProperty(name: string, text: string, language: int) | IntProperty(name: string, number: int)

  datatype Filter = Filter(name: Option<string>, vendor: Option<string>, softwareType: Option<string>, activated: Option<bool>,
                           removable: bool, properties: seq<Property>, drives: Option<set<int>>)

  datatype Command =
    | ListCommand(filter: Filter, scomoStateSet: bool, locale: int)
    | DeleteCommand(componentId: int)

  const NEW_DELETE := DeleteCommand(INVALID_COMPONENT_ID)

  function NameOf(c: Command): string {
    if c.ListCommand? then "list" else "delete"
  }

  function Refused<T>(): Outcome<T> {
    Fail(Leave(ERR_ARGUMENT))
  }

  /** A number that starts the text and is in range. */
  function Number(text: string, lo: int, hi: int): Outcome<int> {
    match PkgText.LexVal(text, lo, hi)
    case Ok((n, _)) => Ok(n)
    case Fail(_) => Refused()
  }

  function Int32(text: string): Outcome<int> {
    Number(text, -0x8000_0000, 0x7FFF_FFFF)
  }

  function Language(text: string): Outcome<int> {
    var n :- Int32(text);
    if LANG_ENGLISH <= n < LANG_NONE then Ok(n) else Refused()
  }

  function Drive(c: char): (r: Outcome<int>)
    ensures r.Ok? ==> 0 <= r.value < MAX_DRIVES
  {
    if 'a' <= c <= 'z' then Ok(c as int - 'a' as int)
    else if 'A' <= c <= 'Z' then Ok(c as int - 'A' as int)
    else Fail(Leave(ERR_BAD_NAME))
  }

  function Drives(letters: string): Outcome<set<int>> {
    if letters == [] then Ok({}) else
    var first :- Drive(letters[0]);
    var more :- Drives(letters[1..]);
    Ok({first} + more)
  }

  function SetScomoState(c: Command, values: seq<string>, activated: bool): Outcome<Command>
    requires c.ListCommand?
  {
    if |values| != 0 || c.scomoStateSet then Refused()
    else Ok(c.(scomoStateSet := true, filter := c.filter.(activated := Some(activated))))
  }

  function ListOption(c: Command, name: string, values: seq<string>): Outcome<Command>
    requires c.ListCommand?
  {
    var f := c.filter;
    if name == "name" then if |values| == 1 then Ok(c.(filter := f.(name := Some(values[0])))) else Refused()
    else if name == "vendor" then if |values| == 1 then Ok(c.(filter := f.(vendor := Some(values[0])))) else Refused()
    else if name == "type" then if |values| == 1 then Ok(c.(filter := f.(softwareType := Some(values[0])))) else Refused()
    else if name == "activated" then SetScomoState(c, values, true)
    else if name == "deactivated" then SetScomoState(c, values, false)
    else if name == "removable" then if |values| == 0 then Ok(c.(filter := f.(removable := true))) else Refused()
    else if name == "property" then
      if |values| == 2 then Ok(c.(filter := f.(properties := f.properties + [TextProperty(values[0], values[1], UNSPECIFIED_LOCALE)])))
      else if |values| == 3 then
        var language :- Language(values[2]);
        Ok(c.(filter := f.(properties := f.properties + [TextProperty(values[0], values[1], language)])))
      else Refused()
    else if name == "intproperty" then
      if |values| != 2 then Refused() else
      var n :- Number(values[1], -0x8000_0000_0000_0000, 0x7FFF_FFFF_FFFF_FFFF);
      Ok(c.(filter := f.(properties := f.properties + [IntProperty(values[0], n)])))
    else if name == "drives" then
      if |values| != 1 then Refused() else
      var drives :- Drives(values[0]);
      Ok(c.(filter := f.(drives := Some(drives))))
    else if name == "locale" then
      if |values| != 1 then Refused() else
      var language :- Language(values[0]);
      Ok(c.(locale := language))
    else Refused()
  }

  /** The delete command takes the id of a component and nothing else. */
  function DeleteOption(name: string, values: seq<string>): Outcome<Command> {
    if |name| != 0 || |values| != 1 then Refused() else
    var id :- Int32(values[0]);
    Ok(DeleteCommand(id))
  }

  function OptionHandler(c: Command, name: string, values: seq<string>): (r: Outcome<Command>)
    ensures r.Ok? ==> NameOf(r.value) == NameOf(c)
  {
    if c.ListCommand? then ListOption(c, name, values) else DeleteOption(name, values)
  }

  // ---------------------------------------------------------------------------
  // Grouping
  // ---------------------------------------------------------------------------

  /** What the parser does with a group: hands it over, or refuses a nameless option. */
  datatype Call = Handle(name: string, values: seq<string>) | Refuse

  predicate IsOption(arg: string) {
    OPTION_PREFIX <= arg
  }

  /** The number of arguments before the first option. */
  function Leading(args: seq<string>): (k: nat)
    ensures k <= |args|
    ensures forall i :: 0 <= i < k ==> !IsOption(args[i])
    ensures k < |args| ==> IsOption(args[k])
  {
    if args == [] || IsOption(args[0]) then 0 else 1 + Leading(args[1..])
  }

  /** Each option with the values up to the next one. */
  function OptionCalls(args: seq<string>): seq<Call>
    requires args != [] ==> IsOption(args[0])
    decreases |args|
  {
    if args == [] then []
    else
      var name := args[0][2..];
      if name == "" then [Refuse]
      else
        var k := Leading(args[1..]);
        [Handle(name, args[1..][..k])] + OptionCalls(args[1..][k..])
  }

  /** Values before the first option are handed over, without a name, if there is no
      option at all; otherwise they are lost. */
  function Calls(args: seq<string>): seq<Call> {
    var k := Leading(args);
    if k == |args| then (if args == [] then [] else [Handle("", args)]) else OptionCalls(args[k..])
  }

  function HandleAll(c: Command, calls: seq<Call>): (r: Outcome<Command>)
    ensures r.Ok? ==> NameOf(r.value) == NameOf(c)
    decreases |calls|
  {
    if calls == [] then Ok(c)
    else
      match calls[0]
      case Refuse => Refused()
      case Handle(name, values) =>
        var next :- OptionHandler(c, name, values);
        HandleAll(next, calls[1..])
  }

  // ---------------------------------------------------------------------------
  // Laws
  // ---------------------------------------------------------------------------

  datatype Group = Group(name: string, values: seq<string>)

  predicate GoodGroup(g: Group) {
    g.name != "" && forall i :: 0 <= i < |g.values| ==> !IsOption(g.values[i])
  }

  function Print(groups: seq<Group>): (args: seq<string>)
    ensures args == [] <==> groups == []
    ensures args != [] ==> IsOption(args[0])
  {
    if groups == [] then [] else [OPTION_PREFIX + groups[0].name] + groups[0].values + Print(groups[1..])
  }

  function Handles(groups: seq<Group>): (r: seq<Call>)
    ensures |r| == |groups|
    ensures forall i :: 0 <= i < |r| ==> r[i] == Handle(groups[i].name, groups[i].values)
  {
    seq(|groups|, i requires 0 <= i < |groups| => Handle(groups[i].name, groups[i].values))
  }

  lemma {:induction false} LeadingValues(values: seq<string>, rest: seq<string>)
    requires forall i :: 0 <= i < |values| ==> !IsOption(values[i])
    requires rest != [] ==> IsOption(rest[0])
    ensures Leading(values + rest) == |values|
    decreases |values|
  {
    if values == [] {
      assert values + rest == rest;
    } else {
      assert (values + rest)[1..] == values[1..] + rest;
      LeadingValues(values[1..], rest);
    }
  }

  /** Options with their values, written out and grouped again, come back as they
      were. Values written before the first option are lost, and values without any
      option are handed over as one group without a name. */
  lemma GroupsBack(stray: seq<string>, groups: seq<Group>)
    requires forall i :: 0 <= i < |groups| ==> GoodGroup(groups[i])
    requires forall i :: 0 <= i < |stray| ==> !IsOption(stray[i])
    ensures Calls(stray + Print(groups)) == if groups == [] && stray != [] then [Handle("", stray)] else Handles(groups)
  {
    LeadingValues(stray, Print(groups));
    var args := stray + Print(groups);
    if groups != [] {
      assert args[|stray|..] == Print(groups);
      OptionsBack(groups);
    } else {
      assert args == stray;
    }
  }

  lemma OptionNamed(name: string)
    ensures IsOption(OPTION_PREFIX + name) && (OPTION_PREFIX + name)[2..] == name
  {
  }

  lemma OneOption(name: string, values: seq<string>, rest: seq<string>)
    requires name != "" && (forall i :: 0 <= i < |values| ==> !IsOption(values[i])) && (rest != [] ==> IsOption(rest[0]))
    ensures IsOption(OPTION_PREFIX + name)
    ensures OptionCalls([OPTION_PREFIX + name] + (values + rest)) == [Handle(name, values)] + OptionCalls(rest)
  {
    hide IsOption, Leading;
    OptionNamed(name);
    LeadingValues(values, rest);
    var tail := values + rest;
    var args := [OPTION_PREFIX + name] + tail;
    assert args[1..] == tail && args[0] == OPTION_PREFIX + name;
    assert tail[..|values|] == values && tail[|values|..] == rest;
  }

  lemma {:induction false} OptionsBack(groups: seq<Group>)
    requires forall i :: 0 <= i < |groups| ==> GoodGroup(groups[i])
    ensures OptionCalls(Print(groups)) == Handles(groups)
    decreases |groups|
  {
    hide OptionCalls, IsOption;
    if groups == [] {
      assert OptionCalls([]) == [] by {
        NoOptions();
      }
    } else {
      var g := groups[0];
      assert GoodGroup(g);
      OneOption(g.name, g.values, Print(groups[1..]));
      assert Print(groups) == [OPTION_PREFIX + g.name] + (g.values + Print(groups[1..]));
      OptionsBack(groups[1..]);
      assert Handles(groups) == [Handle(g.name, g.values)] + Handles(groups[1..]);
    }
  }

  lemma NoOptions()
    ensures OptionCalls([]) == []
  {
  }

  lemma {:induction false} OptionsThen(groups: seq<Group>, tail: seq<string>)
    requires forall i :: 0 <= i < |groups| ==> GoodGroup(groups[i])
    requires tail != [] && IsOption(tail[0])
    ensures IsOption((Print(groups) + tail)[0])
    ensures OptionCalls(Print(groups) + tail) == Handles(groups) + OptionCalls(tail)
    decreases |groups|
  {
    hide IsOption, OptionCalls, Print, Handles;
    if groups == [] {
      NonePrinted(tail, OptionCalls(tail));
    } else {
      var g := groups[0];
      var more := Print(groups[1..]) + tail;
      OptionsThen(groups[1..], tail);
      assert GoodGroup(g);
      OneOption(g.name, g.values, more);
      FirstPrinted(groups, tail);
      FirstHandled(groups, OptionCalls(tail));
    }
  }

  lemma NonePrinted(tail: seq<string>, calls: seq<Call>)
    ensures Print([]) + tail == tail && Handles([]) + calls == calls
  {
  }

  lemma FirstHandled(groups: seq<Group>, calls: seq<Call>)
    requires groups != []
    ensures Handles(groups) + calls == [Handle(groups[0].name, groups[0].values)] + (Handles(groups[1..]) + calls)
  {
  }

  lemma FirstPrinted(groups: seq<Group>, tail: seq<string>)
    requires groups != []
    ensures Print(groups) + tail == [OPTION_PREFIX + groups[0].name] + (groups[0].values + (Print(groups[1..]) + tail))
  {
  }

  /** An option without a name is refused, after whatever options stand before it, and
      what stands behind it plays no part. */
  lemma NamelessRefused(groups: seq<Group>, rest: seq<string>)
    requires forall i :: 0 <= i < |groups| ==> GoodGroup(groups[i])
    ensures IsOption((Print(groups) + (["--"] + rest))[0])
    ensures OptionCalls(Print(groups) + (["--"] + rest)) == Handles(groups) + [Refuse]
  {
    hide Print, Handles;
    NamelessFirst(["--"] + rest);
    OptionsThen(groups, ["--"] + rest);
  }

  lemma NamelessFirst(args: seq<string>)
    requires args != [] && args[0] == "--"
    ensures IsOption(args[0]) && OptionCalls(args) == [Refuse]
  {
  }

  /** The SCOMO states that a sequence of calls asks for. */
  function ScomoCalls(calls: seq<Call>): seq<bool> {
    if calls == [] then []
    else
      (if calls[0].Handle? && calls[0].name == "activated" then [true]
       else if calls[0].Handle? && calls[0].name == "deactivated" then [false]
       else []) + ScomoCalls(calls[1..])
  }

  ghost predicate ScomoKept(c: Command) {
    c.ListCommand? ==> (c.scomoStateSet <==> c.filter.activated.Some?)
  }

  lemma ListOptionScomo(c: Command, name: string, values: seq<string>)
    requires c.ListCommand? && ScomoKept(c) && ListOption(c, name, values).Ok?
    ensures ListOption(c, name, values).value.ListCommand? && ScomoKept(ListOption(c, name, values).value)
    ensures ListOption(c, name, values).value.filter.activated ==
            if name == "activated" || name == "deactivated" then Some(name == "activated") else c.filter.activated
    ensures name == "activated" || name == "deactivated" ==> c.filter.activated == None
  {
  }

  /** A list command that is accepted has set the SCOMO filter at most once: as the
      single option that asked for it says, or not at all. */
  lemma {:induction false} ScomoOnce(c: Command, calls: seq<Call>)
    requires c.ListCommand? && ScomoKept(c) && HandleAll(c, calls).Ok?
    ensures var d := HandleAll(c, calls).value;
            && d.ListCommand?
            && |ScomoCalls(calls)| <= (if c.filter.activated.Some? then 0 else 1)
            && d.filter.activated == (if ScomoCalls(calls) == [] then c.filter.activated else Some(ScomoCalls(calls)[0]))
    decreases |calls|
  {
    hide ListOption;
    if calls != [] {
      var (name, values) := (calls[0].name, calls[0].values);
      ListOptionScomo(c, name, values);
      ScomoOnce(ListOption(c, name, values).value, calls[1..]);
    }
  }

  // ---------------------------------------------------------------------------
  // What a list command comes to
  // ---------------------------------------------------------------------------

  /** An option the list command takes, whatever went before it. */
  predicate ListTakes(call: Call) {
    && call.Handle?
    && var (name, values) := (call.name, call.values);
       || (name in {"name", "vendor", "type"} && |values| == 1)
       || (name in {"activated", "deactivated", "removable"} && |values| == 0)
       || (name == "property" && |values| == 2)
       || (name == "property" && |values| == 3 && Language(values[2]).Ok?)
       || (name == "intproperty" && |values| == 2 && Number(values[1], -0x8000_0000_0000_0000, 0x7FFF_FFFF_FFFF_FFFF).Ok?)
       || (name == "drives" && |values| == 1 && Drives(values[0]).Ok?)
       || (name == "locale" && |values| == 1 && Language(values[0]).Ok?)
  }

  lemma ListOptionTaken(c: Command, name: string, values: seq<string>)
    requires c.ListCommand?
    ensures ListOption(c, name, values).Ok? <==>
              ListTakes(Handle(name, values)) && !(c.scomoStateSet && name in {"activated", "deactivated"})
    ensures ListOption(c, name, values).Ok? ==>
              && ListOption(c, name, values).value.ListCommand?
              && ListOption(c, name, values).value.scomoStateSet == (c.scomoStateSet || name in {"activated", "deactivated"})
  {
    hide Language, Number, Drives;
  }

  /** A list command is accepted exactly if each option is one it takes and at most
      one of them asks for a SCOMO state. */
  lemma {:induction false} ListAccepted(c: Command, calls: seq<Call>)
    requires c.ListCommand?
    ensures HandleAll(c, calls).Ok? <==>
              && (forall i :: 0 <= i < |calls| ==> ListTakes(calls[i]))
              && |ScomoCalls(calls)| <= if c.scomoStateSet then 0 else 1
    decreases |calls|
  {
    hide ListOption, ListTakes, Language, Number, Drives;
    if calls != [] {
      TakesHandles(calls[0]);
      if calls[0].Handle? {
        ListOptionTaken(c, calls[0].name, calls[0].values);
        var next := ListOption(c, calls[0].name, calls[0].values);
        if next.Ok? {
          ListAccepted(next.value, calls[1..]);
          assert forall i :: 1 <= i < |calls| ==> calls[i] == calls[1..][i - 1];
        }
      }
    }
  }

  lemma TakesHandles(call: Call)
    ensures ListTakes(call) ==> call.Handle?
  {
  }

  /** The values of the last option with a name. */
  function LastValues(calls: seq<Call>, name: string): Option<seq<string>> {
    if calls == [] then None
    else
      var k := |calls| - 1;
      if calls[k].Handle? && calls[k].name == name then Some(calls[k].values) else LastValues(calls[..k], name)
  }

  /** What one option adds to the properties asked for. */
  function PropertyOf(call: Call): seq<Property> {
    if !call.Handle? || !ListTakes(call) then []
    else if call.name == "intproperty" then
      [IntProperty(call.values[0], Number(call.values[1], -0x8000_0000_0000_0000, 0x7FFF_FFFF_FFFF_FFFF).value)]
    else if call.name == "property" then
      [TextProperty(call.values[0], call.values[1], if |call.values| == 3 then Language(call.values[2]).value else UNSPECIFIED_LOCALE)]
    else []
  }

  function PropertiesOf(calls: seq<Call>): seq<Property> {
    if calls == [] then [] else PropertiesOf(calls[..|calls| - 1]) + PropertyOf(calls[|calls| - 1])
  }

  /** What is asked for by the last of the options with a name, if there is one. */
  ghost predicate LastWins<T(!new)>(before: T, after: T, calls: seq<Call>, name: string, read: string -> Outcome<T>) {
    match LastValues(calls, name)
    case None => after == before
    case Some(values) => |values| == 1 && Ok(after) == read(values[0])
  }

  function AsText(value: string): Outcome<Option<string>> {
    Ok(Some(value))
  }

  function AsDrives(value: string): Outcome<Option<set<int>>> {
    var drives :- Drives(value);
    Ok(Some(drives))
  }

  /** An accepted list command asks, for each criterion by itself, for what its own
      options say: the last of them, or for properties all of them in their order. */
  ghost predicate Asks(c: Command, d: Command, calls: seq<Call>)
    requires c.ListCommand?
  {
    && d.ListCommand?
    && LastWins(c.filter.name, d.filter.name, calls, "name", AsText)
    && LastWins(c.filter.vendor, d.filter.vendor, calls, "vendor", AsText)
    && LastWins(c.filter.softwareType, d.filter.softwareType, calls, "type", AsText)
    && LastWins(c.filter.drives, d.filter.drives, calls, "drives", AsDrives)
    && LastWins(c.locale, d.locale, calls, "locale", Language)
    && d.filter.removable == (c.filter.removable || LastValues(calls, "removable").Some?)
    && d.filter.properties == c.filter.properties + PropertiesOf(calls)
  }

  lemma LastOrBefore(calls: seq<Call>, name: string, values: seq<string>)
    ensures forall n :: LastValues(calls + [Handle(name, values)], n) == if n == name then Some(values) else LastValues(calls, n)
  {
    var more := calls + [Handle(name, values)];
    assert more[..|calls|] == calls && more[|calls|] == Handle(name, values);
  }

  lemma PropertiesAfter(calls: seq<Call>, call: Call)
    ensures PropertiesOf(calls + [call]) == PropertiesOf(calls) + PropertyOf(call)
  {
    hide PropertyOf;
    var more := calls + [call];
    assert more[..|calls|] == calls && more[|calls|] == call;
  }

  lemma OptionProperty(d: Command, name: string, values: seq<string>)
    requires d.ListCommand? && ListOption(d, name, values).Ok?
    ensures ListOption(d, name, values).value.ListCommand?
    ensures ListOption(d, name, values).value.filter.properties == d.filter.properties + PropertyOf(Handle(name, values))
  {
    hide Language, Number, Drives;
    assert d.filter.properties + [] == d.filter.properties;
  }

  /** What one value does to one criterion. */
  ghost predicate Sets<T(!new)>(before: T, after: T, name: string, own: string, values: seq<string>, read: string -> Outcome<T>) {
    if name == own then |values| == 1 && Ok(after) == read(values[0]) else after == before
  }

  lemma OptionSets(d: Command, name: string, values: seq<string>)
    requires d.ListCommand? && ListOption(d, name, values).Ok?
    ensures var e := ListOption(d, name, values).value;
            && e.ListCommand?
            && Sets(d.filter.name, e.filter.name, name, "name", values, AsText)
            && Sets(d.filter.vendor, e.filter.vendor, name, "vendor", values, AsText)
            && Sets(d.filter.softwareType, e.filter.softwareType, name, "type", values, AsText)
            && Sets(d.filter.drives, e.filter.drives, name, "drives", values, AsDrives)
            && Sets(d.locale, e.locale, name, "locale", values, Language)
            && e.filter.removable == (d.filter.removable || name == "removable")
  {
    hide Language, Number, Drives;
  }

  lemma LastSets<T(!new)>(c: T, d: T, e: T, calls: seq<Call>, name: string, own: string, values: seq<string>, read: string -> Outcome<T>)
    requires LastWins(c, d, calls, own, read) && Sets(d, e, name, own, values, read)
    ensures LastWins(c, e, calls + [Handle(name, values)], own, read)
  {
    hide LastValues;
    LastOrBefore(calls, name, values);
  }

  lemma AsksMore(c: Command, d: Command, calls: seq<Call>, name: string, values: seq<string>)
    requires c.ListCommand? && Asks(c, d, calls) && ListOption(d, name, values).Ok?
    ensures Asks(c, ListOption(d, name, values).value, calls + [Handle(name, values)])
  {
    hide ListOption, LastWins, Sets, LastValues, PropertiesOf, PropertyOf;
    OptionSets(d, name, values);
    var e := ListOption(d, name, values).value;
    LastSets(c.filter.name, d.filter.name, e.filter.name, calls, name, "name", values, AsText);
    LastSets(c.filter.vendor, d.filter.vendor, e.filter.vendor, calls, name, "vendor", values, AsText);
    LastSets(c.filter.softwareType, d.filter.softwareType, e.filter.softwareType, calls, name, "type", values, AsText);
    LastSets(c.filter.drives, d.filter.drives, e.filter.drives, calls, name, "drives", values, AsDrives);
    LastSets(c.locale, d.locale, e.locale, calls, name, "locale", values, Language);
    LastOrBefore(calls, name, values);
    PropertiesAfter(calls, Handle(name, values));
    OptionProperty(d, name, values);
    assert c.filter.properties + PropertiesOf(calls) + PropertyOf(Handle(name, values))
        == c.filter.properties + (PropertiesOf(calls) + PropertyOf(Handle(name, values)));
  }

  lemma {:induction false} HandleLast(c: Command, calls: seq<Call>, call: Call)
    ensures HandleAll(c, calls + [call]) ==
            if HandleAll(c, calls).Ok? then HandleAll(HandleAll(c, calls).value, [call]) else HandleAll(c, calls)
    decreases |calls|
  {
    hide OptionHandler;
    if calls == [] {
      assert [] + [call] == [call];
    } else {
      assert (calls + [call])[0] == calls[0] && (calls + [call])[1..] == calls[1..] + [call];
      if calls[0].Handle? {
        var next := OptionHandler(c, calls[0].name, calls[0].values);
        if next.Ok? {
          HandleLast(next.value, calls[1..], call);
        }
      }
    }
  }

  lemma {:induction false} ListAsks(c: Command, calls: seq<Call>)
    requires c.ListCommand? && HandleAll(c, calls).Ok?
    ensures Asks(c, HandleAll(c, calls).value, calls)
    decreases |calls|
  {
    if calls != [] {
      var (front, last) := (calls[..|calls| - 1], calls[|calls| - 1]);
      assert calls == front + [last];
      HandleLast(c, front, last);
      ListAsks(c, front);
      hide Asks, ListOption;
      var d := HandleAll(c, front).value;
      assert [last][1..] == [];
      assert d.ListCommand? by {
        AsksList(c, d, front);
      }
      AsksMore(c, d, front, last.name, last.values);
    }
  }

  lemma AsksList(c: Command, d: Command, calls: seq<Call>)
    requires c.ListCommand? && Asks(c, d, calls)
    ensures d.ListCommand?
  {
  }

  /** A delete command is accepted exactly if it is followed by nothing, and then it
      has no component to delete, or by a single value that starts with a number. */
  lemma DeleteAccepted(args: seq<string>)
    ensures var r := HandleAll(NEW_DELETE, Calls(args));
            if args == [] then r == Ok(NEW_DELETE)
            else if |args| == 1 && !IsOption(args[0]) && Int32(args[0]).Ok? then r == Ok(DeleteCommand(Int32(args[0]).value))
            else r == Refused()
  {
    hide PkgText.LexVal;
    var k := Leading(args);
    if args != [] {
      if k == |args| {
        assert Calls(args) == [Handle("", args)];
        assert [Handle("", args)][1..] == [];
        assert HandleAll(NEW_DELETE, [Handle("", args)]) == DeleteOption("", args);
      } else {
        assert Calls(args) == OptionCalls(args[k..]) && Calls(args) != [];
        assert Calls(args)[0].Handle? ==> Calls(args)[0].name != "";
      }
    }
  }

  // ---------------------------------------------------------------------------
  // Words, numbers and letters
  // ---------------------------------------------------------------------------

  /** Which word selects which command. */
  lemma WordsMean(c: Command, word: string)
    ensures IsOption("--" + word) && ("--" + word)[2..] == word
    ensures NameOf(c) == "list" <==> c.ListCommand?
    ensures NameOf(c) == "delete" <==> c.DeleteCommand?
    ensures word != "list" && word != "delete" ==> NameOf(c) != word
  {
  }

  /** A number in decimal digits, with or without a sign, whatever follows the digits,
      is read as that number if it is in range and refused otherwise. */
  lemma NumberMeans(n: int, rest: string, lo: int, hi: int)
    requires rest == "" || !PkgText.IsDigit(rest[0])
    ensures Number(PkgTextLaws.Signed(n) + rest, lo, hi) == if lo <= n <= hi then Ok(n) else Refused()
    ensures n >= 0 ==> Number("+" + PkgTextLaws.Signed(n) + rest, lo, hi) == if lo <= n <= hi then Ok(n) else Refused()
  {
    hide PkgText.LexVal, PkgTextLaws.Signed;
    PkgTextLaws.LexSigned(n, false, rest, lo, hi);
    if n >= 0 {
      PkgTextLaws.AfterPlus(n, rest, lo, hi);
    }
  }

  /** A text that starts with neither a digit nor a sign is no number. */
  lemma NoNumber(text: string, lo: int, hi: int)
    requires text == "" || (!PkgText.IsDigit(text[0]) && text[0] != '-' && text[0] != '+')
    ensures Number(text, lo, hi) == Refused()
  {
  }

  /** The codes of languages go from 1 to 65534. */
  lemma LanguageMeans(n: int, rest: string)
    requires rest == "" || !PkgText.IsDigit(rest[0])
    ensures Language(PkgTextLaws.Signed(n) + rest) == if 1 <= n <= 65534 then Ok(n) else Refused()
  {
    hide Number, PkgTextLaws.Signed;
    NumberMeans(n, rest, -0x8000_0000, 0x7FFF_FFFF);
  }

  /** The k-th letter of either case is drive k; nothing else is a drive. */
  lemma DriveMeans(c: char, k: nat)
    ensures k < 26 && c == ("abcdefghijklmnopqrstuvwxyz")[k] ==> Drive(c) == Ok(k)
    ensures k < 26 && c == ("ABCDEFGHIJKLMNOPQRSTUVWXYZ")[k] ==> Drive(c) == Ok(k)
    ensures c !in "abcdefghijklmnopqrstuvwxyz" && c !in "ABCDEFGHIJKLMNOPQRSTUVWXYZ" ==> Drive(c) == Fail(Leave(ERR_BAD_NAME))
  {
    Alphabet(c);
  }

  /** The delete command is for the component whose identifier is written. */
  lemma DeleteMeans(n: int, rest: string)
    requires rest == "" || !PkgText.IsDigit(rest[0])
    ensures HandleAll(NEW_DELETE, Calls([PkgTextLaws.Signed(n) + rest])) ==
            if -0x8000_0000 <= n <= 0x7FFF_FFFF then Ok(DeleteCommand(n)) else Refused()
  {
    hide Number, PkgTextLaws.Signed;
    var text := PkgTextLaws.Signed(n) + rest;
    NumberMeans(n, rest, -0x8000_0000, 0x7FFF_FFFF);
    PkgTextLaws.NoDashes(n, rest);
    DeleteAccepted([text]);
  }

  // ---------------------------------------------------------------------------
  // The parser as it runs
  // ---------------------------------------------------------------------------

  class ConsoleCommand {
    var state: Command

    constructor (state: Command)
      ensures this.state == state
    {
      this.state := state;
    }

    method OptionHandlerL(aName: string, aValues: seq<string>) returns (r: Outcome<()>)
      modifies this
      ensures match OptionHandler(old(state), aName, aValues)
              case Ok(c) => r == Ok(()) && state == c
              case Fail(f) => r == Fail(f) && state == old(state)
    {
      hide ListOption, DeleteOption;
      if state.ListCommand? {
        r := ListOptionHandlerL(aName, aValues);
      } else {
        r := DeleteOptionHandlerL(aName, aValues);
      }
    }

    /** CListCommand::OptionHandlerL. */
    method ListOptionHandlerL(aName: string, aValues: seq<string>) returns (r: Outcome<()>)
      requires state.ListCommand?
      modifies this
      ensures match ListOption(old(state), aName, aValues)
              case Ok(c) => r == Ok(()) && state == c
              case Fail(f) => r == Fail(f) && state == old(state)
    {
      hide Int32, Number, Drives, Language;
      var filter := state.filter;
      if aName == "name" {
        var _ :- AssertNumValuesL(aValues, 1);
        filter := filter.(name := Some(aValues[0]));
      } else if aName == "vendor" {
        var _ :- AssertNumValuesL(aValues, 1);
        filter := filter.(vendor := Some(aValues[0]));
      } else if aName == "type" {
        var _ :- AssertNumValuesL(aValues, 1);
        filter := filter.(softwareType := Some(aValues[0]));
      } else if aName == "activated" {
        var _ :- AssertNumValuesL(aValues, 0);
        if state.scomoStateSet {
          return Fail(Leave(ERR_ARGUMENT));
        }
        state := state.(scomoStateSet := true);
        filter := filter.(activated := Some(true));
      } else if aName == "deactivated" {
        var _ :- AssertNumValuesL(aValues, 0);
        if state.scomoStateSet {
          return Fail(Leave(ERR_ARGUMENT));
        }
        state := state.(scomoStateSet := true);
        filter := filter.(activated := Some(false));
      } else if aName == "removable" {
        var _ :- AssertNumValuesL(aValues, 0);
        filter := filter.(removable := true);
      } else if aName == "property" {
        var numValues := |aValues|;
        if numValues < 2 || numValues > 3 {
          return Fail(Leave(ERR_ARGUMENT));
        }
        var language := UNSPECIFIED_LOCALE;
        if numValues == 3 {
          language :- Language(aValues[2]);
        }
        filter := filter.(properties := filter.properties + [TextProperty(aValues[0], aValues[1], language)]);
      } else if aName == "intproperty" {
        var _ :- AssertNumValuesL(aValues, 2);
        var val :- Number(aValues[1], -0x8000_0000_0000_0000, 0x7FFF_FFFF_FFFF_FFFF);
        filter := filter.(properties := filter.properties + [IntProperty(aValues[0], val)]);
      } else if aName == "drives" {
        var _ :- AssertNumValuesL(aValues, 1);
        var drives :- DriveListL(aValues[0]);
        filter := filter.(drives := Some(drives));
      } else if aName == "locale" {
        var _ :- AssertNumValuesL(aValues, 1);
        var val :- Language(aValues[0]);
        state := state.(locale := val);
      } else {
        return Fail(Leave(ERR_ARGUMENT));
      }
      state := state.(filter := filter);
      return Ok(());
    }

    /** CDeleteCommand::OptionHandlerL. */
    method DeleteOptionHandlerL(aName: string, aValues: seq<string>) returns (r: Outcome<()>)
      requires state.DeleteCommand?
      modifies this
      ensures match DeleteOption(aName, aValues)
              case Ok(c) => r == Ok(()) && state == c
              case Fail(f) => r == Fail(f) && state == old(state)
    {
      hide Int32;
      if |aName| > 0 || |aValues| != 1 {
        return Fail(Leave(ERR_ARGUMENT));
      }
      var id :- Int32(aValues[0]);
      state := state.(componentId := id);
      return Ok(());
    }
  }

  method AssertNumValuesL(aValues: seq<string>, aCount: nat) returns (r: Outcome<()>)
    ensures r == if |aValues| == aCount then Ok(()) else Refused()
  {
    if |aValues| != aCount {
      return Fail(Leave(ERR_ARGUMENT));
    }
    return Ok(());
  }

  ghost function Marking(marked: set<int>, letters: string): Outcome<set<int>> {
    var more :- Drives(letters);
    Ok(marked + more)
  }

  lemma MarkOne(marked: set<int>, letters: string)
    requires letters != []
    ensures Marking(marked, letters) ==
            if Drive(letters[0]).Ok? then Marking(marked + {Drive(letters[0]).value}, letters[1..]) else Fail(Leave(ERR_BAD_NAME))
  {
    hide Drive;
    if Drive(letters[0]).Ok? && Drives(letters[1..]).Ok? {
      var (first, more) := ({Drive(letters[0]).value}, Drives(letters[1..]).value);
      assert marked + (first + more) == marked + first + more;
    }
    assert Drive(letters[0]).Fail? ==> Drive(letters[0]).fault == Leave(ERR_BAD_NAME) by {
      BadDrive(letters[0]);
    }
  }

  lemma BadDrive(c: char)
    ensures Drive(c).Fail? ==> Drive(c).fault == Leave(ERR_BAD_NAME)
  {
  }

  lemma MarkEnds(letters: string, marked: set<int>)
    ensures Marking({}, letters) == Drives(letters) && Marking(marked, []) == Ok(marked)
  {
    assert marked + {} == marked;
    if Drives(letters).Ok? {
      assert {} + Drives(letters).value == Drives(letters).value;
    }
  }

  /** The drives marked letter by letter. */
  method DriveListL(drives: string) returns (r: Outcome<set<int>>)
    ensures r == Drives(drives)
  {
    hide Drives, Drive, Marking;
    var driveList := new bool[MAX_DRIVES](_ => false);
    ghost var marked: set<int> := {};
    assert drives[0..] == drives;
    MarkEnds(drives, {});
    for i := 0 to |drives|
      invariant Marking(marked, drives[i..]) == Drives(drives)
      invariant forall d :: 0 <= d < MAX_DRIVES ==> driveList[d] == (d in marked)
      invariant forall d :: d in marked ==> 0 <= d < MAX_DRIVES
    {
      MarkOne(marked, drives[i..]);
      assert drives[i..][0] == drives[i] && drives[i..][1..] == drives[i + 1..];
      BadDrive(drives[i]);
      var driveNumber :- Drive(drives[i]);
      driveList[driveNumber] := true;
      marked := marked + {driveNumber};
    }
    assert drives[|drives|..] == [];
    MarkEnds(drives, marked);
    r := Ok(set d | 0 <= d < MAX_DRIVES && driveList[d]);
    assert r.value == marked;
  }

  /** What is still to be handed over, given the option being collected. */
  ghost function Remaining(optName: string, optValues: seq<string>, rest: seq<string>): seq<Call> {
    var k := Leading(rest);
    var values := optValues + rest[..k];
    if optName != "" then [Handle(optName, values)] + OptionCalls(rest[k..])
    else if k < |rest| then OptionCalls(rest[k..])
    else if values == [] then [] else [Handle("", values)]
  }

  lemma RemainingValue(optName: string, optValues: seq<string>, rest: seq<string>)
    requires rest != [] && !IsOption(rest[0])
    ensures Remaining(optName, optValues, rest) == Remaining(optName, optValues + [rest[0]], rest[1..])
  {
    var k := Leading(rest[1..]);
    assert rest[..k + 1] == [rest[0]] + rest[1..][..k];
    assert rest[k + 1..] == rest[1..][k..];
    assert optValues + rest[..k + 1] == optValues + [rest[0]] + rest[1..][..k];
  }

  lemma RemainingOption(optName: string, optValues: seq<string>, rest: seq<string>)
    requires rest != [] && IsOption(rest[0])
    ensures Remaining(optName, optValues, rest)
         == (if optName != "" then [Handle(optName, optValues)] else [])
            + (if rest[0][2..] == "" then [Refuse] else Remaining(rest[0][2..], [], rest[1..]))
  {
    var k := Leading(rest[1..]);
    assert Leading(rest) == 0 && rest[0..] == rest;
    assert optValues + rest[..0] == optValues;
    assert [] + rest[1..][..k] == rest[1..][..k];
  }

  lemma RemainingAll(args: seq<string>)
    ensures Remaining("", [], args) == Calls(args)
  {
    assert args[..|args|] == args;
    assert [] + args[..Leading(args)] == args[..Leading(args)];
  }

  lemma HandleOne(c: Command, name: string, values: seq<string>, more: seq<Call>)
    ensures var r := OptionHandler(c, name, values);
            HandleAll(c, [Handle(name, values)] + more) == if r.Ok? then HandleAll(r.value, more) else r
  {
    hide OptionHandler;
    assert ([Handle(name, values)] + more)[1..] == more;
  }

  /** Finds the command, the last one registered under its name, and hands it the
      options. */
  method ParseL(args: seq<string>, commands: seq<ConsoleCommand>) returns (r: Outcome<ConsoleCommand>)
    modifies commands
    ensures r.Ok? ==> r.value in commands
    ensures if |args| <= 1 || !IsOption(args[1]) || (forall c :: c in commands ==> NameOf(old(c.state)) != args[1][2..]) then
              r == Refused() && forall c :: c in commands ==> c.state == old(c.state)
            else exists i :: 0 <= i < |commands|
                   && NameOf(old(commands[i].state)) == args[1][2..]
                   && (forall j :: i < j < |commands| ==> NameOf(old(commands[j].state)) != args[1][2..])
                   && (forall c :: c in commands && c != commands[i] ==> c.state == old(c.state))
                   && match HandleAll(old(commands[i].state), Calls(args[2..]))
                      case Ok(s) => r == Ok(commands[i]) && commands[i].state == s
                      case Fail(f) => r == Fail(f)
  {
    hide OptionHandler;
    var numArgs := |args|;
    if numArgs <= 1 {
      return Fail(Leave(ERR_ARGUMENT));
    }
    if !(OPTION_PREFIX <= args[1]) {
      return Fail(Leave(ERR_ARGUMENT));
    }
    var cmdName := args[1][2..];
    var found := -1;
    for i := 0 to |commands|
      invariant -1 <= found < i
      invariant found >= 0 ==> NameOf(commands[found].state) == cmdName
      invariant forall j :: found < j < i ==> NameOf(commands[j].state) != cmdName
    {
      if cmdName == NameOf(commands[i].state) {
        found := i;
      }
    }
    if found < 0 {
      return Fail(Leave(ERR_ARGUMENT));
    }
    var cmd := commands[found];
    var done := HandleOptionsL(cmd, args[2..]);
    if done.Fail? {
      return Fail(done.fault);
    }
    return Ok(cmd);
  }

  /** The loop that collects an option's name and values and hands them over when the
      next option or the end comes. */
  method HandleOptionsL(cmd: ConsoleCommand, args: seq<string>) returns (r: Outcome<()>)
    modifies cmd
    ensures match HandleAll(old(cmd.state), Calls(args))
            case Ok(s) => r == Ok(()) && cmd.state == s
            case Fail(f) => r == Fail(f)
  {
    hide OptionHandler, HandleAll, Calls, Remaining;
    ghost var answer := HandleAll(cmd.state, Calls(args));
    var optName := "";
    var optValues: seq<string> := [];
    RemainingAll(args);
    assert args[0..] == args;
    for i := 0 to |args|
      invariant answer == HandleAll(cmd.state, Remaining(optName, optValues, args[i..]))
    {
      var arg := args[i];
      ghost var rest := args[i..];
      assert rest[0] == arg && rest[1..] == args[i + 1..];
      if OPTION_PREFIX <= arg {
        ghost var next := if arg[2..] == "" then [Refuse] else Remaining(arg[2..], [], rest[1..]);
        RemainingOption(optName, optValues, rest);
        HandleOne(cmd.state, optName, optValues, next);
        assert [] + next == next;
        if |optName| > 0 {
          var _ :- cmd.OptionHandlerL(optName, optValues);
        }
        optName := arg[2..];
        if |optName| == 0 {
          RefusedNow(cmd.state);
          return Fail(Leave(ERR_ARGUMENT));
        }
        optValues := [];
      } else {
        RemainingValue(optName, optValues, rest);
        optValues := optValues + [arg];
      }
    }
    RemainingNone(cmd.state, optName, optValues);
    assert args[|args|..] == [];
    if |optName| > 0 || |optValues| > 0 {
      var _ :- cmd.OptionHandlerL(optName, optValues);
    }
    return Ok(());
  }

  lemma RefusedNow(c: Command)
    ensures HandleAll(c, [Refuse]) == Refused()
  {
  }

  lemma RemainingNone(c: Command, optName: string, optValues: seq<string>)
    ensures HandleAll(c, Remaining(optName, optValues, []))
         == if optName == "" && optValues == [] then Ok(c) else OptionHandler(c, optName, optValues)
  {
    hide OptionHandler;
    assert optValues + [] == optValues;
    var one := [Handle(optName, optValues)];
    assert one + [] == one && one[1..] == [];
  }
}
