/** The receiver's configuration file (app/config.cpp, app/config.h). */
module Config {
  import opened Bytes
  import opened Text

  datatype ReceiverConfig =
    ReceiverConfig(width: int, height: int, bitrateKbps: int, fullscreen: bool, adaptiveResolution: bool)

  const DEFAULTS := ReceiverConfig(1280, 720, 18000, false, false)

  datatype DisplaySize = DisplaySize(width: int, height: int)

  datatype Fault = ExpectedKeyValue | UnknownSetting | InvalidValue

  /** A warning and the number of the line it is about, counted from 1. */
  datatype Warning = Warning(line: nat, fault: Fault)

  function TrimEnd(s: string): (r: string)
    ensures r <= s
  {
    if s != "" && s[|s| - 1] in SPACES then TrimEnd(s[..|s| - 1]) else s
  }

  function Trim(s: string): string {
    TrimEnd(s[SkipSpaces(s, 0, SPACES)..])
  }

  /** std::from_chars over the whole text, failing outside the range of int. */
  function ReadInt(s: string): Option<int> {
    var negative := s != "" && s[0] == '-';
    var digits := if negative then s[1..] else s;
    if digits == "" || DigitsEnd(digits, 0) < |digits| then None
    else
      var n: int := NatValue(digits);
      var v := if negative then -n else n;
      if Wrap32(v) == v then Some(v) else None
  }

  function ReadBool(s: string): Option<bool> {
    if s == "true" || s == "1" then Some(true)
    else if s == "false" || s == "0" then Some(false)
    else None
  }

  /** What one line does to the configuration. */
  datatype Effect =
    | Nothing
    | Enter(section: string)
    | Width(n: int)
    | Height(n: int)
    | Fullscreen(on: bool)
    | Adaptive(on: bool)
    | Bitrate(n: int)
    | Faulty(fault: Fault)

  predicate EvenWithin(v: int, lo: int, hi: int) { lo <= v <= hi && v % 2 == 0 }

  function Setting(section: string, key: string, value: string): Effect {
    if section == "display" && key == "width" then
      var n := ReadInt(value);
      if n.Some? && EvenWithin(n.value, 320, 8192) then Width(n.value) else Faulty(InvalidValue)
    else if section == "display" && key == "height" then
      var n := ReadInt(value);
      if n.Some? && EvenWithin(n.value, 240, 8192) then Height(n.value) else Faulty(InvalidValue)
    else if section == "display" && key == "fullscreen" then
      var b := ReadBool(value);
      if b.Some? then Fullscreen(b.value) else Faulty(InvalidValue)
    else if section == "display" && key == "adaptive_resolution" then
      var b := ReadBool(value);
      if b.Some? then Adaptive(b.value) else Faulty(InvalidValue)
    else if section == "video" && key == "bitrate_kbps" then
      var n := ReadInt(value);
      if n.Some? && 1000 <= n.value <= 100000 then Bitrate(n.value) else Faulty(InvalidValue)
    else Faulty(UnknownSetting)
  }

  /** How a line reads before the current section is looked at. */
  datatype Form = Blank | Section(name: string) | Assign(key: string, value: string) | NoEquals

  function FormOf(line: string): Form {
    var text := Trim(line);
    if text == "" || text[0] == ';' || text[0] == '#' then Blank
    else if text[0] == '[' && text[|text| - 1] == ']' then Section(Trim(text[1..|text| - 1]))
    else
      var equals := FindChar(text, '=', 0);
      if equals < 0 then NoEquals else Assign(Trim(text[..equals]), Trim(text[equals + 1..]))
  }

  function EffectOf(section: string, form: Form): Effect {
    match form
    case Blank => Nothing
    case Section(name) => Enter(name)
    case NoEquals => Faulty(ExpectedKeyValue)
    case Assign(key, value) => Setting(section, key, value)
  }

  function Apply(c: ReceiverConfig, e: Effect): ReceiverConfig {
    match e
    case Width(n) => c.(width := n)
    case Height(n) => c.(height := n)
    case Fullscreen(on) => c.(fullscreen := on)
    case Adaptive(on) => c.(adaptiveResolution := on)
    case Bitrate(n) => c.(bitrateKbps := n)
    case _ => c
  }

  /** Lines as std::getline reads them. */
  function Lines(text: string): seq<string>
    decreases |text|
  {
    if text == "" then []
    else
      var n := FindChar(text, '\n', 0);
      if n < 0 then [text] else [text[..n]] + Lines(text[n + 1..])
  }

  function Forms(lines: seq<string>): seq<Form> {
    if lines == [] then [] else [FormOf(lines[0])] + Forms(lines[1..])
  }

  /** The effects of the lines, each read in the section the lines before it chose. */
  function Effects(section: string, forms: seq<Form>): seq<Effect>
    decreases |forms|
  {
    if forms == [] then []
    else
      var e := EffectOf(section, forms[0]);
      [e] + Effects(if e.Enter? then e.section else section, forms[1..])
  }

  function ApplyAll(c: ReceiverConfig, effects: seq<Effect>): ReceiverConfig
    decreases |effects|
  {
    if effects == [] then c else ApplyAll(Apply(c, effects[0]), effects[1..])
  }

  /** One warning for each faulty line, with its number. */
  function Faults(effects: seq<Effect>, before: nat): seq<Warning>
    decreases |effects|
  {
    if effects == [] then []
    else
      (if effects[0].Faulty? then [Warning(before + 1, effects[0].fault)] else []) +
      Faults(effects[1..], before + 1)
  }

  function EffectsOf(text: string): seq<Effect> {
    Effects("", Forms(Lines(text)))
  }

  lemma FirstForm(line: string, lines: seq<string>)
    ensures Forms([line] + lines) == [FormOf(line)] + Forms(lines)
  {
    assert ([line] + lines)[1..] == lines;
  }

  lemma FirstEffect(section: string, form: Form, forms: seq<Form>)
    ensures var e := EffectOf(section, form);
            Effects(section, [form] + forms) == [e] + Effects(if e.Enter? then e.section else section, forms)
  {
    assert ([form] + forms)[1..] == forms;
  }

  lemma FirstApplied(c: ReceiverConfig, e: Effect, effects: seq<Effect>, before: nat)
    ensures ApplyAll(c, [e] + effects) == ApplyAll(Apply(c, e), effects)
    ensures Faults([e] + effects, before) ==
            (if e.Faulty? then [Warning(before + 1, e.fault)] else []) + Faults(effects, before + 1)
  {
    assert ([e] + effects)[1..] == effects;
  }

  /** What reading `lines` from a point in the file adds. */
  ghost predicate Remaining(config: ReceiverConfig, warnings: seq<Warning>, section: string, line: nat,
                            forms: seq<Form>, effects: seq<Effect>)
  {
    && ApplyAll(config, Effects(section, forms)) == ApplyAll(DEFAULTS, effects)
    && warnings + Faults(Effects(section, forms), line) == Faults(effects, 0)
  }

  /** Reading one line moves on by its effect. */
  lemma OneLineOn(config: ReceiverConfig, warnings: seq<Warning>, section: string, line: nat,
                  form: Form, forms: seq<Form>, effects: seq<Effect>, e: Effect)
    requires Remaining(config, warnings, section, line, [form] + forms, effects)
    requires e == EffectOf(section, form)
    ensures Remaining(Apply(config, e), if e.Faulty? then warnings + [Warning(line + 1, e.fault)] else warnings,
                      if e.Enter? then e.section else section, line + 1, forms, effects)
  {
    var rest := Effects(if e.Enter? then e.section else section, forms);
    var warned := if e.Faulty? then [Warning(line + 1, e.fault)] else [];
    FirstEffect(section, form, forms);
    FirstApplied(config, e, rest, line);
    ConcatAssoc(warnings, warned, Faults(rest, line + 1));
    assert warnings + [] == warnings;
  }

  lemma NextLine(text: string, n: int, line: string, rest: string)
    requires text != "" && n == FindChar(text, '\n', 0)
    requires if n < 0 then line == text && rest == "" else line == text[..n] && rest == text[n + 1..]
    ensures Forms(Lines(text)) == [FormOf(line)] + Forms(Lines(rest))
  {
    FirstForm(line, Lines(rest));
    assert Lines(text) == [line] + Lines(rest);
  }

  lemma AtStart(effects: seq<Effect>)
    ensures [] + Faults(effects, 0) == Faults(effects, 0)
  {
  }

  lemma AtEnd(config: ReceiverConfig, warnings: seq<Warning>, section: string, line: nat, effects: seq<Effect>)
    requires Remaining(config, warnings, section, line, [], effects)
    ensures config == ApplyAll(DEFAULTS, effects) && warnings == Faults(effects, 0)
  {
    assert warnings + [] == warnings;
  }

  method ParseConfig(text: string) returns (config: ReceiverConfig, warnings: seq<Warning>)
    ensures config == ApplyAll(DEFAULTS, EffectsOf(text))
    ensures warnings == Faults(EffectsOf(text), 0)
  {
    config, warnings := DEFAULTS, [];
    var section, lineNumber, rest := "", 0, text;
    ghost var effects := EffectsOf(text);
    AtStart(effects);
    while rest != ""
      invariant Remaining(config, warnings, section, lineNumber, Forms(Lines(rest)), effects)
      decreases |rest|
    {
      var n := FindChar(rest, '\n', 0);
      var line := if n < 0 then rest else rest[..n];
      var after := if n < 0 then "" else rest[n + 1..];
      NextLine(rest, n, line, after);
      var effect := EffectOf(section, FormOf(line));
      OneLineOn(config, warnings, section, lineNumber, FormOf(line), Forms(Lines(after)), effects, effect);
      rest := after;
      lineNumber := lineNumber + 1;
      warnings := if effect.Faulty? then warnings + [Warning(lineNumber, effect.fault)] else warnings;
      section := if effect.Enter? then effect.section else section;
      config := Apply(config, effect);
    }
    AtEnd(config, warnings, section, lineNumber, effects);
  }

  // ----- What the file means --------------------------------------------------------------

  datatype Field = WidthField | HeightField | FullscreenField | AdaptiveField | BitrateField

  predicate Sets(e: Effect, f: Field) {
    match f
    case WidthField => e.Width?
    case HeightField => e.Height?
    case FullscreenField => e.Fullscreen?
    case AdaptiveField => e.Adaptive?
    case BitrateField => e.Bitrate?
  }

  /** The two configurations have the same value for the field. */
  predicate SameField(a: ReceiverConfig, b: ReceiverConfig, f: Field) {
    match f
    case WidthField => a.width == b.width
    case HeightField => a.height == b.height
    case FullscreenField => a.fullscreen == b.fullscreen
    case AdaptiveField => a.adaptiveResolution == b.adaptiveResolution
    case BitrateField => a.bitrateKbps == b.bitrateKbps
  }

  /** Each field has the last valid value the file gives it, and its default if there is none. */
  lemma {:induction false} LastValidWins(c: ReceiverConfig, effects: seq<Effect>, f: Field) returns (k: int)
    ensures -1 <= k < |effects|
    ensures forall j | k < j < |effects| :: !Sets(effects[j], f)
    ensures k >= 0 ==> Sets(effects[k], f) && SameField(ApplyAll(c, effects), Apply(c, effects[k]), f)
    ensures k < 0 ==> SameField(ApplyAll(c, effects), c, f)
    decreases |effects|
  {
    k := -1;
    if effects != [] {
      var m := LastValidWins(Apply(c, effects[0]), effects[1..], f);
      k := if m >= 0 then m + 1 else if Sets(effects[0], f) then 0 else -1;
      forall j | k < j < |effects|
        ensures !Sets(effects[j], f)
      {
        if j > 0 {
          assert effects[j] == effects[1..][j - 1];
        }
      }
    }
  }

  function FaultCount(effects: seq<Effect>): nat
    decreases |effects|
  {
    if effects == [] then 0 else (if effects[0].Faulty? then 1 else 0) + FaultCount(effects[1..])
  }

  /** There are as many warnings as faulty lines, and each faulty line has its own, in line order. */
  lemma {:induction false} FaultReported(effects: seq<Effect>, before: nat, k: nat)
    requires k < |effects| && effects[k].Faulty?
    ensures var warnings, i := Faults(effects, before), FaultCount(effects[..k]);
            && |warnings| == FaultCount(effects)
            && i < |warnings| && warnings[i] == Warning(before + k + 1, effects[k].fault)
    decreases |effects|
  {
    FaultsCounted(effects, before);
    if k > 0 {
      assert effects[..k][1..] == effects[1..][..k - 1];
      FaultReported(effects[1..], before + 1, k - 1);
    }
  }

  lemma {:induction false} FaultsCounted(effects: seq<Effect>, before: nat)
    ensures |Faults(effects, before)| == FaultCount(effects)
    decreases |effects|
  {
    if effects != [] {
      FaultsCounted(effects[1..], before + 1);
    }
  }

  /** A size the sender can encode. */
  predicate Encodable(d: DisplaySize) {
    EvenWithin(d.width, 320, 8192) && EvenWithin(d.height, 240, 8192)
  }

  predicate Usable(c: ReceiverConfig) {
    Encodable(DisplaySize(c.width, c.height)) && 1000 <= c.bitrateKbps <= 100000
  }

  /** Every setting a line can make is in range. */
  lemma SettingUsable(c: ReceiverConfig, section: string, key: string, value: string)
    requires Usable(c)
    ensures Usable(Apply(c, Setting(section, key, value)))
  {
  }

  lemma {:induction false} AllUsable(c: ReceiverConfig, section: string, forms: seq<Form>)
    requires Usable(c)
    ensures Usable(ApplyAll(c, Effects(section, forms)))
    decreases |forms|
  {
    if forms != [] {
      var e := EffectOf(section, forms[0]);
      assert Usable(Apply(c, e)) by {
        if forms[0].Assign? {
          SettingUsable(c, section, forms[0].key, forms[0].value);
        }
      }
      var next := if e.Enter? then e.section else section;
      AllUsable(Apply(c, e), next, forms[1..]);
      FirstApplied(c, e, Effects(next, forms[1..]), 0);
    }
  }

  /** AdaptiveDisplaySize: the client area rounded down to even, or the configured size for a small window. */
  function AdaptiveDisplaySize(config: ReceiverConfig, clientWidth: int, clientHeight: int): DisplaySize {
    if clientWidth < 320 || clientHeight < 240 then DisplaySize(config.width, config.height)
    else DisplaySize(RoundEven(Min(clientWidth, 8192)), RoundEven(Min(clientHeight, 8192)))
  }

  /** v & ~1 */
  function RoundEven(v: nat): int { v - v % 2 }

  /** Whatever the file says and the window is, the size asked for can be encoded. */
  lemma AnySizeEncodable(text: string, clientWidth: int, clientHeight: int)
    ensures var config := ApplyAll(DEFAULTS, EffectsOf(text));
            && Encodable(DisplaySize(config.width, config.height))
            && Encodable(AdaptiveDisplaySize(config, clientWidth, clientHeight))
  {
    AllUsable(DEFAULTS, "", Forms(Lines(text)));
  }

  // ----- What is written is read back ------------------------------------------------------

  function Written(lines: seq<string>): string {
    if lines == [] then "" else lines[0] + ("\n" + Written(lines[1..]))
  }

  predicate OneLine(s: string) {
    forall i | 0 <= i < |s| :: s[i] != '\n'
  }

  lemma {:induction false} LinesWritten(lines: seq<string>)
    requires forall k | 0 <= k < |lines| :: OneLine(lines[k])
    ensures Lines(Written(lines)) == lines
    decreases |lines|
  {
    if lines != [] {
      var first, rest := lines[0], Written(lines[1..]);
      var text := Written(lines);
      assert text == first + ("\n" + rest);
      assert text[|first|] == '\n';
      assert text[..|first|] == first && text[|first| + 1..] == rest;
      LinesWritten(lines[1..]);
    }
  }

  /** No whitespace at either end. */
  predicate Tidy(s: string) {
    s != "" && s[0] !in SPACES && s[|s| - 1] !in SPACES
  }

  ghost predicate Spaces(s: string) {
    forall i | 0 <= i < |s| :: s[i] in SPACES
  }

  /** Whitespace around a tidy text is trimmed off. */
  lemma TrimSpaced(before: string, s: string, after: string)
    requires Spaces(before) && Spaces(after) && Tidy(s)
    ensures Trim(before + (s + after)) == s
  {
    var text := before + (s + after);
    assert text[|before|] == s[0];
    SkipsSpaces(text, 0, |before|, SPACES);
    assert text[|before|..] == s + after;
    TrimEndSpaced(s, after);
  }

  lemma {:induction false} TrimEndSpaced(s: string, after: string)
    requires s != "" && s[|s| - 1] !in SPACES && Spaces(after)
    ensures TrimEnd(s + after) == s
    decreases |after|
  {
    if after == "" {
      assert s + after == s;
    } else {
      var text := s + after;
      assert text[|text| - 1] == after[|after| - 1];
      assert text[..|text| - 1] == s + after[..|after| - 1];
      TrimEndSpaced(s, after[..|after| - 1]);
    }
  }

  /** A trimmed line splits at its first equals sign. */
  lemma SplitAtEquals(line: string, left: string, right: string)
    requires Trim(line) == left + ("=" + right)
    requires left != "" && left[0] !in {';', '#', '['}
    requires forall i | 0 <= i < |left| :: left[i] != '='
    ensures FormOf(line) == Assign(Trim(left), Trim(right))
  {
    var text := left + ("=" + right);
    assert text[0] == left[0];
    FirstEquals(left, right);
    assert text[..|left|] == left && text[|left| + 1..] == right;
  }

  lemma FirstEquals(left: string, right: string)
    requires forall i | 0 <= i < |left| :: left[i] != '='
    ensures FindChar(left + ("=" + right), '=', 0) == |left|
  {
    var text := left + ("=" + right);
    assert text[|left|] == '=';
    assert forall i | 0 <= i < |left| :: text[i] == left[i] && text[i] != '=';
  }

  /** A setting is read from its line whatever whitespace surrounds the key and the value. */
  lemma SettingLine(a: string, key: string, b: string, c: string, value: string, d: string)
    requires Spaces(a) && Spaces(b) && Spaces(c) && Spaces(d)
    requires Tidy(key) && Tidy(value) && key[0] !in {';', '#', '['}
    requires forall i | 0 <= i < |key| :: key[i] != '='
    ensures FormOf(a + (((key + b) + ("=" + (c + value))) + d)) == Assign(key, value)
  {
    var left, right := key + b, c + value;
    var text := left + ("=" + right);
    assert left[0] == key[0];
    assert text[0] == key[0] && text[|text| - 1] == value[|value| - 1];
    TrimSpaced(a, text, d);
    Padded(key, b, c, value);
    SplitAtEquals(a + (text + d), left, right);
  }

  lemma Padded(key: string, b: string, c: string, value: string)
    requires Spaces(b) && Spaces(c) && Tidy(key) && Tidy(value)
    requires forall i | 0 <= i < |key| :: key[i] != '='
    ensures Trim(key + b) == key && Trim(c + value) == value
    ensures forall i | 0 <= i < |key + b| :: (key + b)[i] != '='
  {
    assert "" + (key + b) == key + b && value + "" == value;
    TrimSpaced("", key, b);
    TrimSpaced(c, value, "");
  }

  lemma NumberRead(n: int)
    requires -0x8000_0000 <= n < 0x8000_0000
    ensures Tidy(IntText(n)) && ReadInt(IntText(n)) == Some(n)
  {
    var digits := NatText(if n < 0 then -n else n);
    NatTextValue(if n < 0 then -n else n);
    assert IsDigit(digits[0]) && IsDigit(digits[|digits| - 1]);
    if n < 0 {
      assert IntText(n)[1..] == digits;
    }
  }

  lemma SectionLine(name: string)
    requires Tidy(name)
    ensures FormOf("[" + (name + "]")) == Section(name)
  {
    var text := "[" + (name + "]");
    assert "" + (text + "") == text && "" + (name + "") == name;
    assert text[0] == '[' && text[|text| - 1] == ']';
    TrimSpaced("", text, "");
    assert text[1..|text| - 1] == name;
    TrimSpaced("", name, "");
  }

  lemma PlainLine(key: string, value: string)
    requires Tidy(key) && Tidy(value) && key[0] !in {';', '#', '['}
    requires forall i | 0 <= i < |key| :: key[i] != '='
    ensures FormOf(key + ("=" + value)) == Assign(key, value)
  {
    var text := key + ("=" + value);
    assert text == (key + "") + ("=" + ("" + value));
    assert "" + (text + "") == text;
    SettingLine("", key, "", "", value, "");
  }

  function BoolText(b: bool): string { if b then "true" else "false" }

  /** The lines of a configuration file that sets everything, as the settings they are. */
  function ConfigForms(c: ReceiverConfig): seq<Form> {
    [Section("display")] + ([Assign("width", IntText(c.width))] + ([Assign("height", IntText(c.height))] +
    ([Assign("fullscreen", BoolText(c.fullscreen))] +
    ([Assign("adaptive_resolution", BoolText(c.adaptiveResolution))] +
    ([Section("video")] + ([Assign("bitrate_kbps", IntText(c.bitrateKbps))] + []))))))
  }

  function LineOf(f: Form): string
    requires f.Section? || f.Assign?
  {
    match f
    case Section(name) => "[" + (name + "]")
    case Assign(key, value) => key + ("=" + value)
  }

  /** A form that is read back from the line written for it. */
  ghost predicate Writable(f: Form) {
    match f
    case Section(name) => Tidy(name)
    case Assign(key, value) =>
      && Tidy(key) && Tidy(value) && key[0] !in {';', '#', '['}
      && forall i | 0 <= i < |key| :: key[i] != '='
    case _ => false
  }

  lemma {:induction false} FormsAt(lines: seq<string>, k: nat)
    requires k < |lines|
    ensures |Forms(lines)| == |lines| && Forms(lines)[k] == FormOf(lines[k])
    decreases |lines|
  {
    if k > 0 {
      FormsAt(lines[1..], k - 1);
    } else if |lines| > 1 {
      FormsAt(lines[1..], 0);
    }
  }

  lemma FormsWritten(forms: seq<Form>, lines: seq<string>)
    requires |lines| == |forms|
    requires forall k | 0 <= k < |forms| :: Writable(forms[k]) && lines[k] == LineOf(forms[k])
    ensures Forms(lines) == forms
  {
    forall k | 0 <= k < |lines|
      ensures |Forms(lines)| == |lines| && Forms(lines)[k] == forms[k]
    {
      FormsAt(lines, k);
      FormWritten(forms[k], lines[k]);
    }
    assert lines == [] ==> Forms(lines) == [];
  }

  lemma FormWritten(f: Form, line: string)
    requires Writable(f) && line == LineOf(f)
    ensures FormOf(line) == f
  {
    match f
    case Section(name) => SectionLine(name);
    case Assign(key, value) => PlainLine(key, value);
  }

  lemma WidthRead(n: int)
    requires EvenWithin(n, 320, 8192)
    ensures Setting("display", "width", IntText(n)) == Width(n)
  {
    NumberRead(n);
  }

  lemma HeightRead(n: int)
    requires EvenWithin(n, 240, 8192)
    ensures Setting("display", "height", IntText(n)) == Height(n)
  {
    NumberRead(n);
  }

  lemma BitrateRead(n: int)
    requires 1000 <= n <= 100000
    ensures Setting("video", "bitrate_kbps", IntText(n)) == Bitrate(n)
  {
    NumberRead(n);
  }

  lemma SwitchesRead(on: bool)
    ensures Setting("display", "fullscreen", BoolText(on)) == Fullscreen(on)
    ensures Setting("display", "adaptive_resolution", BoolText(on)) == Adaptive(on)
  {
  }

  /** The settings of a usable configuration give exactly that configuration, without a warning. */
  lemma FormsReadBack(c: ReceiverConfig)
    requires Usable(c)
    ensures ApplyAll(DEFAULTS, Effects("", ConfigForms(c))) == c
    ensures Faults(Effects("", ConfigForms(c)), 0) == []
  {
    WidthRead(c.width);
    HeightRead(c.height);
    BitrateRead(c.bitrateKbps);
    SwitchesRead(c.fullscreen);
    SwitchesRead(c.adaptiveResolution);
    var b := [Assign("bitrate_kbps", IntText(c.bitrateKbps))] + [];
    var v := [Section("video")] + b;
    var a := [Assign("adaptive_resolution", BoolText(c.adaptiveResolution))] + v;
    var f := [Assign("fullscreen", BoolText(c.fullscreen))] + a;
    var h := [Assign("height", IntText(c.height))] + f;
    var w := [Assign("width", IntText(c.width))] + h;
    FirstEffect("video", Assign("bitrate_kbps", IntText(c.bitrateKbps)), []);
    FirstEffect("display", Section("video"), b);
    FirstEffect("display", Assign("adaptive_resolution", BoolText(c.adaptiveResolution)), v);
    FirstEffect("display", Assign("fullscreen", BoolText(c.fullscreen)), a);
    FirstEffect("display", Assign("height", IntText(c.height)), f);
    FirstEffect("display", Assign("width", IntText(c.width)), h);
    FirstEffect("", Section("display"), w);
    SevenEffects(c);
  }

  lemma SevenEffects(c: ReceiverConfig)
    ensures var es := [Enter("display")] + ([Width(c.width)] + ([Height(c.height)] + ([Fullscreen(c.fullscreen)] +
                      ([Adaptive(c.adaptiveResolution)] + ([Enter("video")] + ([Bitrate(c.bitrateKbps)] + []))))));
            ApplyAll(DEFAULTS, es) == c && Faults(es, 0) == []
  {
    var b := [Bitrate(c.bitrateKbps)] + [];
    var v := [Enter("video")] + b;
    var a := [Adaptive(c.adaptiveResolution)] + v;
    var f := [Fullscreen(c.fullscreen)] + a;
    var h := [Height(c.height)] + f;
    var w := [Width(c.width)] + h;
    var c1 := DEFAULTS.(width := c.width);
    var c2 := c1.(height := c.height);
    var c3 := c2.(fullscreen := c.fullscreen);
    var c4 := c3.(adaptiveResolution := c.adaptiveResolution);
    FirstApplied(DEFAULTS, Enter("display"), w, 0);
    FirstApplied(DEFAULTS, Width(c.width), h, 1);
    FirstApplied(c1, Height(c.height), f, 2);
    FirstApplied(c2, Fullscreen(c.fullscreen), a, 3);
    FirstApplied(c3, Adaptive(c.adaptiveResolution), v, 4);
    FirstApplied(c4, Enter("video"), b, 5);
    FirstApplied(c4, Bitrate(c.bitrateKbps), [], 6);
  }

  /** Lines written for forms, each on its own line, are read back as those forms. */
  lemma {:induction false} FileRead(forms: seq<Form>, lines: seq<string>)
    requires |lines| == |forms|
    requires forall k | 0 <= k < |forms| :: Writable(forms[k]) && lines[k] == LineOf(forms[k]) && OneLine(lines[k])
    ensures Forms(Lines(Written(lines))) == forms
  {
    LinesWritten(lines);
    FormsWritten(forms, lines);
  }

  ghost predicate WritableLine(f: Form) { Writable(f) && OneLine(LineOf(f)) }

  /** A name that can stand before the equals sign. */
  ghost predicate PlainName(key: string) {
    && Tidy(key) && key[0] !in {';', '#', '['} && OneLine(key)
    && forall i | 0 <= i < |key| :: key[i] != '='
  }

  lemma NamesPlain()
    ensures PlainName("width") && PlainName("height") && PlainName("bitrate_kbps")
    ensures PlainName("fullscreen") && PlainName("adaptive_resolution")
  {
  }

  lemma NumberLine(key: string, n: int)
    requires -0x8000_0000 <= n < 0x8000_0000 && PlainName(key)
    ensures WritableLine(Assign(key, IntText(n)))
  {
    NumberRead(n);
    var v := IntText(n);
    assert forall i | 0 <= i < |v| :: v[i] != '\n';
    LineWhole(key, v);
  }

  lemma BoolLine(key: string, b: bool)
    requires PlainName(key)
    ensures WritableLine(Assign(key, BoolText(b)))
  {
    LineWhole(key, BoolText(b));
  }

  lemma LineWhole(key: string, v: string)
    requires OneLine(key) && OneLine(v)
    ensures OneLine(key + ("=" + v))
  {
  }

  ghost predicate AllWritable(forms: seq<Form>) {
    forall k | 0 <= k < |forms| :: WritableLine(forms[k])
  }

  lemma OneMoreLine(f: Form, forms: seq<Form>)
    requires WritableLine(f) && AllWritable(forms)
    ensures AllWritable([f] + forms)
  {
  }

  lemma {:induction false} ConfigWritable(c: ReceiverConfig)
    requires Usable(c)
    ensures AllWritable(ConfigForms(c))
  {
    SectionsWritable();
    NumbersWritable(c);
    BoolLine("fullscreen", c.fullscreen);
    BoolLine("adaptive_resolution", c.adaptiveResolution);
    SevenLines(Section("display"), Assign("width", IntText(c.width)), Assign("height", IntText(c.height)),
               Assign("fullscreen", BoolText(c.fullscreen)),
               Assign("adaptive_resolution", BoolText(c.adaptiveResolution)),
               Section("video"), Assign("bitrate_kbps", IntText(c.bitrateKbps)));
  }

  lemma SectionsWritable()
    ensures WritableLine(Section("display")) && WritableLine(Section("video"))
    ensures PlainName("fullscreen") && PlainName("adaptive_resolution")
  {
    NamesPlain();
  }

  lemma {:induction false} NumbersWritable(c: ReceiverConfig)
    requires Usable(c)
    ensures WritableLine(Assign("width", IntText(c.width))) && WritableLine(Assign("height", IntText(c.height)))
    ensures WritableLine(Assign("bitrate_kbps", IntText(c.bitrateKbps)))
  {
    NamesPlain();
    NumberLine("width", c.width);
    NumberLine("height", c.height);
    NumberLine("bitrate_kbps", c.bitrateKbps);
  }

  lemma SevenLines(d: Form, w: Form, h: Form, f: Form, a: Form, v: Form, b: Form)
    requires WritableLine(d) && WritableLine(w) && WritableLine(h) && WritableLine(f) && WritableLine(a)
    requires WritableLine(v) && WritableLine(b)
    ensures AllWritable([d] + ([w] + ([h] + ([f] + ([a] + ([v] + ([b] + [])))))))
  {
    OneMoreLine(b, []);
    OneMoreLine(v, [b] + []);
    OneMoreLine(a, [v] + ([b] + []));
    OneMoreLine(f, [a] + ([v] + ([b] + [])));
    OneMoreLine(h, [f] + ([a] + ([v] + ([b] + []))));
    OneMoreLine(w, [h] + ([f] + ([a] + ([v] + ([b] + [])))));
    OneMoreLine(d, [w] + ([h] + ([f] + ([a] + ([v] + ([b] + []))))));
  }

  /** The text of a configuration file that sets everything. */
  function ConfigText(c: ReceiverConfig): string
    requires Usable(c)
  {
    ConfigWritable(c);
    var forms := ConfigForms(c);
    Written(seq(|forms|, k requires 0 <= k < |forms| => LineOf(forms[k])))
  }

  /** A file that sets everything gives exactly that configuration, without a warning. */
  lemma ConfigReadBack(c: ReceiverConfig)
    requires Usable(c)
    ensures ApplyAll(DEFAULTS, EffectsOf(ConfigText(c))) == c
    ensures Faults(EffectsOf(ConfigText(c)), 0) == []
  {
    ConfigWritable(c);
    FormsReadBack(c);
    var forms := ConfigForms(c);
    FileRead(forms, seq(|forms|, k requires 0 <= k < |forms| => LineOf(forms[k])));
  }

  // ----- What single lines mean ---------------------------------------------------------------

  /** The words for switches. */
  lemma SwitchWords(on: bool)
    ensures var word, digit := if on then "true" else "false", if on then "1" else "0";
            && Setting("display", "fullscreen", word) == Setting("display", "fullscreen", digit) == Fullscreen(on)
            && Setting("display", "adaptive_resolution", word) == Setting("display", "adaptive_resolution", digit)
               == Adaptive(on)
  {
  }

  /** Any other word for a switch is an invalid value. */
  lemma SwitchFault(value: string)
    requires value !in {"true", "false", "1", "0"}
    ensures Setting("display", "fullscreen", value) == Faulty(InvalidValue)
    ensures Setting("display", "adaptive_resolution", value) == Faulty(InvalidValue)
  {
  }

  /** An integer out of range, or odd where it must be even, is an invalid value. */
  lemma RangeFault(n: int)
    requires -0x8000_0000 <= n < 0x8000_0000
    ensures n < 320 || n > 8192 || n % 2 == 1 ==> Setting("display", "width", IntText(n)) == Faulty(InvalidValue)
    ensures n < 240 || n > 8192 || n % 2 == 1 ==> Setting("display", "height", IntText(n)) == Faulty(InvalidValue)
    ensures n < 1000 || n > 100000 ==> Setting("video", "bitrate_kbps", IntText(n)) == Faulty(InvalidValue)
  {
    NumberRead(n);
  }

  /** A text with anything but digits behind an optional sign is no integer. */
  lemma NoInteger(value: string, i: nat)
    requires i < |value| && !IsDigit(value[i]) && (i == 0 ==> value[i] != '-')
    ensures ReadInt(value) == None
  {
    var digits := if value[0] == '-' then value[1..] else value;
    assert digits[if value[0] == '-' then i - 1 else i] == value[i];
  }

  lemma NumberFault(section: string, key: string, value: string)
    requires ReadInt(value) == None
    requires (section == "display" && (key == "width" || key == "height")) ||
             (section == "video" && key == "bitrate_kbps")
    ensures Setting(section, key, value) == Faulty(InvalidValue)
  {
  }

  /** The five settings there are, by section and key; anything else is unknown. */
  lemma UnknownFault(section: string, key: string, value: string)
    requires section == "display" ==> key !in {"width", "height", "fullscreen", "adaptive_resolution"}
    requires section == "video" ==> key != "bitrate_kbps"
    ensures Setting(section, key, value) == Faulty(UnknownSetting)
  {
  }

  /** Empty lines and comments do nothing. */
  lemma CommentLine(before: string, text: string, after: string, section: string)
    requires Spaces(before) && Spaces(after) && Tidy(text) && (text[0] == ';' || text[0] == '#')
    ensures EffectOf(section, FormOf(before + (text + after))) == Nothing
  {
    TrimSpaced(before, text, after);
  }

  lemma {:induction false} BlankLine(line: string, section: string)
    requires Spaces(line)
    ensures EffectOf(section, FormOf(line)) == Nothing
  {
    SkipsSpaces(line, 0, |line|, SPACES);
    assert line[|line|..] == "";
  }

  /** A bracketed name enters its section, whatever whitespace is around the brackets and the name. */
  lemma SectionEntered(before: string, b: string, name: string, c: string, after: string, section: string)
    requires Spaces(before) && Spaces(b) && Tidy(name) && Spaces(c) && Spaces(after)
    ensures EffectOf(section, FormOf(before + (("[" + ((b + (name + c)) + "]")) + after))) == Enter(name)
  {
    var inner := b + (name + c);
    var text := "[" + (inner + "]");
    assert text[0] == '[' && text[|text| - 1] == ']';
    TrimSpaced(before, text, after);
    assert text[1..|text| - 1] == inner;
    TrimSpaced(b, name, c);
  }

  /** Any other line without an equals sign is faulty as such. */
  lemma NoEqualsFault(before: string, text: string, after: string, section: string)
    requires Spaces(before) && Spaces(after) && Tidy(text) && text[0] !in {';', '#'}
    requires (text[0] != '[' || text[|text| - 1] != ']') && forall i | 0 <= i < |text| :: text[i] != '='
    ensures EffectOf(section, FormOf(before + (text + after))) == Faulty(ExpectedKeyValue)
  {
    TrimSpaced(before, text, after);
  }

  /** The size derived from a window: both axes rounded down to even numbers up to 8192. */
  lemma AdaptiveSize(config: ReceiverConfig, width: int, height: int)
    ensures width < 320 || height < 240 ==>
              AdaptiveDisplaySize(config, width, height) == DisplaySize(config.width, config.height)
    ensures width >= 320 && height >= 240 ==>
              LargestEven(AdaptiveDisplaySize(config, width, height).width, width) &&
              LargestEven(AdaptiveDisplaySize(config, width, height).height, height)
  {
  }

  /** The largest even number not above `limit` and 8192. */
  ghost predicate LargestEven(v: int, limit: int) {
    v % 2 == 0 && v <= limit && v <= 8192 && forall w | w % 2 == 0 && w <= limit && w <= 8192 :: w <= v
  }

  /** An empty file gives 1280x720 at 18000 kbit/s, neither full screen nor adaptive, and no warning. */
  lemma EmptyFile()
    ensures ApplyAll(DEFAULTS, EffectsOf("")) == ReceiverConfig(1280, 720, 18000, false, false)
    ensures Faults(EffectsOf(""), 0) == []
  {
    assert Lines("") == [];
    assert Forms([]) == [];
  }

  /** A last line needs no newline. */
  lemma {:induction false} LastLineRead(lines: seq<string>, last: string)
    requires (forall k | 0 <= k < |lines| :: OneLine(lines[k])) && OneLine(last) && last != ""
    ensures Lines(Written(lines) + last) == lines + [last]
    decreases |lines|
  {
    if lines == [] {
      assert "" + last == last && [] + [last] == [last];
    } else {
      var first, rest := lines[0], Written(lines[1..]) + last;
      var text := Written(lines) + last;
      ConcatAssoc(first, "\n" + Written(lines[1..]), last);
      ConcatAssoc("\n", Written(lines[1..]), last);
      LineOff(text, first, rest);
      LastLineRead(lines[1..], last);
      assert lines + [last] == [first] + (lines[1..] + [last]);
    }
  }

  lemma LineOff(text: string, first: string, rest: string)
    requires text == first + ("\n" + rest) && OneLine(first)
    ensures Lines(text) == [first] + Lines(rest)
  {
    assert text[|first|] == '\n';
    assert forall i | 0 <= i < |first| :: text[i] == first[i] && text[i] != '\n';
    assert text[..|first|] == first && text[|first| + 1..] == rest;
  }
}
