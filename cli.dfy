/** The command-line tool's text syntax for states: `aurora`, `off`,
    `flash:<color>` and `static:<color>`, with lower-case colour names. */
module Cli {
  import opened Wrappers
  import opened Protocol

  /** The lower-case name of a colour (serde's `rename_all = "lowercase"`). */
  function ColorName(c: Color): (name: string)
    ensures |name| > 0
    ensures forall i :: 0 <= i < |name| ==> 'a' <= name[i] <= 'z'
  {
    match c
    case Blue => "blue"
    case Green => "green"
    case Orange => "orange"
    case Purple => "purple"
    case Red => "red"
    case Yellow => "yellow"
  }

  /** The colour with the given name; any other text names no colour. */
  function ColorFromName(name: string): (r: Option<Color>)
    ensures r.Some? ==> ColorName(r.value) == name
    ensures r.None? ==> forall c :: ColorName(c) != name
  {
    if name == "blue" then Some(Blue)
    else if name == "green" then Some(Green)
    else if name == "orange" then Some(Orange)
    else if name == "purple" then Some(Purple)
    else if name == "red" then Some(Red)
    else if name == "yellow" then Some(Yellow)
    else None
  }

  /** A state named by its variant alone. Only the variants without a colour
      can be; `flash` and `static` alone lack their colour. */
  function UnitStateFromName(name: string): (r: Option<State>)
    ensures r.Some? ==> (r.value.Aurora? || r.value.Off?) && StateIntoString(r.value) == name
    ensures r.None? ==> forall s: State :: (s.Aurora? || s.Off?) ==> StateIntoString(s) != name
  {
    if name == "aurora" then Some(Aurora)
    else if name == "off" then Some(Off)
    else None
  }

  /** The segments joined back, with `sep` between neighbours. */
  function Join(segments: seq<string>, sep: char): (s: string)
    requires |segments| >= 1
    decreases |segments|
  {
    if |segments| == 1 then segments[0]
    else segments[0] + [sep] + Join(segments[1..], sep)
  }

  /** The text cut at every `sep`, as `str::split` does: the segments hold no
      `sep`, and joining them with `sep` gives the text back. */
  function Split(s: string, sep: char): (segments: seq<string>)
    ensures |segments| >= 1
    ensures forall i :: 0 <= i < |segments| ==> sep !in segments[i]
    ensures Join(segments, sep) == s
    decreases |s|
  {
    if s == [] then [""]
    else
      var rest := Split(s[1..], sep);
      if s[0] == sep then
        [""] + rest
      else
        assert |rest| == 1 || Join(rest, sep) == rest[0] + [sep] + Join(rest[1..], sep);
        [[s[0]] + rest[0]] + rest[1..]
  }

  /** Splitting a text with no separator gives the text alone. */
  lemma {:induction false} SplitWithoutSeparator(s: string, sep: char)
    requires sep !in s
    ensures Split(s, sep) == [s]
  {
    if s != [] {
      SplitWithoutSeparator(s[1..], sep);
    }
  }

  /** A separator-free head is split off as the first segment. */
  lemma {:induction false} SplitAtSeparator(a: string, sep: char, t: string)
    requires sep !in a
    ensures Split(a + [sep] + t, sep) == [a] + Split(t, sep)
  {
    var s := a + [sep] + t;
    if a != [] {
      assert s[0] == a[0] != sep;
      assert s[1..] == a[1..] + [sep] + t;
      SplitAtSeparator(a[1..], sep, t);
      var rest := Split(s[1..], sep);
      assert rest[0] == a[1..] && rest[1..] == Split(t, sep);
      assert Split(s, sep) == [[s[0]] + rest[0]] + rest[1..];
      assert [a[0]] + a[1..] == a;
    } else {
      assert s[1..] == t;
    }
  }

  datatype TextError = InvalidColor(text: string) | InvalidState(text: string)

  /** The optional `--set` argument as a state: `flash:<color>` and
      `static:<color>` when the text is two segments around one colon with
      one of those two heads, otherwise the whole text as a variant name. */
  function DeserializeOptionState(input: Option<string>): (r: Result<Option<State>, TextError>)
    ensures r == Ok(None) <==> input.None?
  {
    match input
    case None => Ok(None)
    case Some(text) =>
      var segments := Split(text, ':');
      if |segments| == 2 && segments[0] in ["flash", "static"] then
        match ColorFromName(segments[1])
        case Some(color) => Ok(Some(if segments[0] == "flash" then Flash(color) else Static(color)))
        case None => Err(InvalidColor(segments[1]))
      else
        match UnitStateFromName(text)
        case Some(state) => Ok(Some(state))
        case None => Err(InvalidState(text))
  }

  /** The text of a state, as the tool prints it: lower-case, and holding a
      colon exactly when the state carries a colour. */
  function StateIntoString(state: State): (text: string)
    ensures |text| > 0
    ensures ':' in text <==> state.Flash? || state.Static?
  {
    match state
    case Flash(color) => "flash" + ":" + ColorName(color)
    case Static(color) => "static" + ":" + ColorName(color)
    case Aurora => "aurora"
    case Off => "off"
  }

  /** A head without a colon, a colon and a colour name split into the head
      and the name. */
  lemma {:induction false} SplitHeadAndColor(head: string, c: Color)
    requires ':' !in head
    ensures Split(head + ":" + ColorName(c), ':') == [head, ColorName(c)]
  {
    assert head + ":" + ColorName(c) == head + [':'] + ColorName(c);
    SplitAtSeparator(head, ':', ColorName(c));
    SplitWithoutSeparator(ColorName(c), ':');
  }

  /** The text of a state is a colon-free head, a colon and a colour name,
      or a bare variant name. */
  lemma SplitStateText(state: State)
    ensures state.Flash? ==> Split(StateIntoString(state), ':') == ["flash", ColorName(state.color)]
    ensures state.Static? ==> Split(StateIntoString(state), ':') == ["static", ColorName(state.color)]
    ensures state.Aurora? || state.Off? ==> Split(StateIntoString(state), ':') == [StateIntoString(state)]
  {
    match state
    case Flash(c) => SplitHeadAndColor("flash", c);
    case Static(c) => SplitHeadAndColor("static", c);
    case Aurora => SplitWithoutSeparator("aurora", ':');
    case Off => SplitWithoutSeparator("off", ':');
  }

  /** Every colour is found again by its own name. */
  lemma ColorFromNameOfName(c: Color)
    ensures ColorFromName(ColorName(c)) == Some(c)
  {
    match c
    case Blue =>
    case Green =>
    case Orange =>
    case Purple =>
    case Red =>
    case Yellow =>
  }

  /** Round trip for the states with a colour: `flash:<color>` and
      `static:<color>` parse back to that state. */
  lemma ParsePrintedColored(state: State)
    requires state.Flash? || state.Static?
    ensures DeserializeOptionState(Some(StateIntoString(state))) == Ok(Some(state))
  {
    SplitStateText(state);
    ColorFromNameOfName(state.color);
  }

  /** Round trip for the states without a colour: `aurora` and `off` parse
      back as variant names. */
  lemma ParsePrintedUnit(state: State)
    requires state.Aurora? || state.Off?
    ensures DeserializeOptionState(Some(StateIntoString(state))) == Ok(Some(state))
  {
    SplitStateText(state);
  }

  /** Round trip: parsing the printed text of a state gives that state. */
  lemma ParsePrinted(state: State)
    ensures DeserializeOptionState(Some(StateIntoString(state))) == Ok(Some(state))
  {
    if state.Flash? || state.Static? {
      ParsePrintedColored(state);
    } else {
      ParsePrintedUnit(state);
    }
  }

  /** Parsing succeeds on exactly the printed texts of states. */
  lemma {:induction false} ParseExactlyPrinted(text: string, state: State)
    ensures DeserializeOptionState(Some(text)) == Ok(Some(state)) <==> text == StateIntoString(state)
  {
    if text == StateIntoString(state) {
      ParsePrinted(state);
    }
    if DeserializeOptionState(Some(text)) == Ok(Some(state)) {
      var segments := Split(text, ':');
      if |segments| == 2 && segments[0] in ["flash", "static"] {
        assert Join(segments[1..], ':') == segments[1];
        assert text == segments[0] + [':'] + segments[1];
        assert StateIntoString(state) == segments[0] + [':'] + ColorName(state.color);
      }
    }
  }

  /** A variant name that needs a colour is rejected without one. */
  lemma RejectsVariantWithoutColor(head: string)
    requires head == "flash" || head == "static"
    ensures DeserializeOptionState(Some(head)) == Err(InvalidState(head))
  {
    SplitWithoutSeparator(head, ':');
  }

  /** A text with a colon names no colour-free variant. */
  lemma ColonNamesNoUnitState(text: string)
    requires ':' in text
    ensures UnitStateFromName(text) == None
  {
    assert ':' !in "aurora" && ':' !in "off";
  }

  /** A colour after any head but `flash` or `static` is rejected as a whole. */
  lemma {:induction false} RejectsColorAfterOtherHead(head: string, c: Color)
    requires ':' !in head && head != "flash" && head != "static"
    ensures DeserializeOptionState(Some(head + ":" + ColorName(c))) == Err(InvalidState(head + ":" + ColorName(c)))
  {
    SplitHeadAndColor(head, c);
    ColonNamesNoUnitState(head + ":" + ColorName(c));
  }

  /** More than one colon makes the text one variant name, which is rejected. */
  lemma {:induction false} RejectsManySegments(text: string)
    requires |Split(text, ':')| > 2
    ensures DeserializeOptionState(Some(text)) == Err(InvalidState(text))
  {
    var segments := Split(text, ':');
    assert text == segments[0] + [':'] + Join(segments[1..], ':');
    assert text[|segments[0]|] == ':';
    ColonNamesNoUnitState(text);
  }

  /** An unknown colour name after `flash` or `static` is rejected. */
  lemma {:induction false} RejectsUnknownColor(head: string, name: string)
    requires head == "flash" || head == "static"
    requires ':' !in name && ColorFromName(name) == None
    ensures DeserializeOptionState(Some(head + ":" + name)) == Err(InvalidColor(name))
  {
    assert head + ":" + name == head + [':'] + name;
    SplitAtSeparator(head, ':', name);
    SplitWithoutSeparator(name, ':');
  }

  /** Names are case-sensitive. */
  lemma RejectsCapitalized()
    ensures DeserializeOptionState(Some("Aurora")) == Err(InvalidState("Aurora"))
  {
    SplitWithoutSeparator("Aurora", ':');
  }
}
