/** The configuration that all devices share: two settings, and the keys of applications. */
module GlobalConfig {
  import opened Bytes
  import opened TextLines
  import opened ConfigFile
  import opened ConfigRoundTrip
  import opened HexDump

  const LAST_DEVICE: seq<byte> := [0x6c, 0x61, 0x73, 0x74, 0x5f, 0x64, 0x65, 0x76, 0x69, 0x63, 0x65] // last_device
  const VERBOSE: seq<byte> :=
    [0x76, 0x65, 0x72, 0x62, 0x6f, 0x73, 0x65, 0x5f, 0x6c, 0x6f, 0x67, 0x67, 0x69, 0x6e, 0x67] // verbose_logging

  type KeyMap = map<seq<byte>, seq<byte>>

  datatype Global = Global(lastDevice: nat, verbose: bool, keys: KeyMap)

  predicate IsAppKey(keyword: seq<byte>) {
    |keyword| >= 2 && keyword[0] == 0x58 && keyword[1] == 0x2d
  }

  function StepGlobal(g: Global, line: seq<byte>): Global {
    var keyword, arg := Keyword(line), Argument(line);
    if keyword == LAST_DEVICE then
      var pin := Number(arg, MAX32);
      g.(lastDevice := if pin.Parsed? then pin.value else 0)
    else if keyword == VERBOSE then g.(verbose := Flag(false, arg))
    else if IsAppKey(keyword) then g.(keys := g.keys[keyword := arg])
    else g
  }

  function RunGlobal(g: Global, lines: seq<seq<byte>>): Global
    decreases |lines|
  {
    if lines == [] then g else RunGlobal(StepGlobal(g, lines[0]), lines[1..])
  }

  const FRESH := Global(0, false, map[])

  function KeyLines(keys: KeyMap, order: seq<seq<byte>>): seq<seq<byte>>
    requires forall k :: k in order ==> k in keys
  {
    if order == [] then [] else KeyLines(keys, order[..|order| - 1]) + [KeyLine(keys, order[|order| - 1])]
  }

  function KeyLine(keys: KeyMap, k: seq<byte>): seq<byte>
    requires k in keys
  {
    Assignment(k, keys[k])
  }

  function SettingLines(g: Global): seq<seq<byte>> {
    (if g.lastDevice == 0 then [] else [Assignment(LAST_DEVICE, HexDigits(g.lastDevice))])
    + [Assignment(VERBOSE, FlagDigit(g.verbose))]
  }

  /** Saved with the keys in some order, each of them once. */
  ghost predicate IsOrder(keys: KeyMap, order: seq<seq<byte>>) {
    (forall k :: k in keys <==> k in order) && forall i, j :: 0 <= i < j < |order| ==> order[i] != order[j]
  }

  function SavedGlobal(g: Global, order: seq<seq<byte>>): seq<byte>
    requires forall k :: k in order ==> k in g.keys
  {
    TextOf(SettingLines(g) + KeyLines(g.keys, order))
  }

  // --------------------------------------------------------- the class

  class GlobalConfigFile {
    const appname: seq<byte>
    var loaded: bool
    var lastDevice: nat
    var verboseLogging: bool
    var keymap: KeyMap

    function View(): Global
      reads this
    {
      Global(lastDevice, verboseLogging, keymap)
    }

    constructor (appname: seq<byte>, file: FileContent)
      requires Without(appname, SPACE)
      ensures this.appname == appname && loaded == file.File?
      ensures View() == if file.File? then RunGlobal(FRESH, Lines(file.text)) else FRESH
    {
      this.appname := appname;
      loaded, lastDevice, verboseLogging, keymap := false, 0, false, map[];
      new;
      Load(file);
    }

    /** Only the device is forgotten before; keys and the flag are kept. */
    method Load(file: FileContent)
      modifies this
      ensures loaded == file.File?
      ensures var start := old(View()).(lastDevice := 0);
              View() == if file.File? then RunGlobal(start, Lines(file.text)) else start
    {
      hide Lines, StepGlobal;
      loaded, lastDevice := false, 0;
      if file.NoFile? {
        return;
      }
      var input := new Stream(file.text);
      ghost var start := View();
      while true
        invariant input.Valid() && fresh(input)
        invariant RunGlobal(View(), input.Rest()) == RunGlobal(start, Lines(file.text))
        decreases |input.text| - input.pos
      {
        var line, ok := input.GetLine();
        if !ok {
          break;
        }
        LoadLine(line);
      }
      loaded := true;
    }

    method LoadLine(line: seq<byte>)
      modifies `lastDevice, `verboseLogging, `keymap
      ensures View() == StepGlobal(old(View()), line)
    {
      hide Keyword, Argument, Number, Flag;
      var keyword, arg := Keyword(line), Argument(line);
      if keyword == LAST_DEVICE {
        lastDevice := 0;
        var pin := Number(arg, MAX32);
        if pin.Parsed? {
          lastDevice := pin.value;
        }
      } else if keyword == VERBOSE {
        verboseLogging := Flag(false, arg);
      } else if IsAppKey(keyword) {
        keymap := keymap[keyword := arg];
      }
    }

    /** `usable` is whether the directory of the file exists or can be made. */
    method Save(usable: bool) returns (ok: bool, out: seq<byte>, ghost order: seq<seq<byte>>)
      ensures ok == usable
      ensures ok ==> IsOrder(keymap, order) && out == SavedGlobal(View(), order)
    {
      hide Assignment, TextOf, HexDigits;
      ok, out, order := usable, [], [];
      if !usable {
        return;
      }
      NoText();
      if lastDevice != 0 {
        var device := Assignment(LAST_DEVICE, HexDigits(lastDevice));
        out := device + [NL];
        TextOfSnoc([], device);
        assert [] + [device] == [device] && [] + out == out;
      }
      TextOfSnoc(if lastDevice == 0 then [] else [Assignment(LAST_DEVICE, HexDigits(lastDevice))],
                 Assignment(VERBOSE, FlagDigit(verboseLogging)));
      out := out + (Assignment(VERBOSE, FlagDigit(verboseLogging)) + [NL]);
      ghost var head := SettingLines(View());
      assert head + [] == head;
      var todo := keymap.Keys;
      while todo != {}
        invariant todo <= keymap.Keys
        invariant forall k :: k in keymap <==> k in order || k in todo
        invariant forall k :: k in order ==> k !in todo
        invariant forall i, j :: 0 <= i < j < |order| ==> order[i] != order[j]
        invariant out == TextOf(head + KeyLines(keymap, order))
        decreases |todo|
      {
        var k :| k in todo;
        out := out + (KeyLine(keymap, k) + [NL]);
        MoreKeys(keymap, order, k, head);
        todo := todo - {k};
        order := order + [k];
      }
    }

    /** False where the C++ method throws. */
    method SetKey(key: seq<byte>, value: seq<byte>) returns (ok: bool)
      modifies `keymap
      ensures ok <==> appname != [] && Without(value, NL) && Without(value, 0x0d)
      ensures keymap == if ok then old(keymap)[FullKey(appname, key) := value] else old(keymap)
    {
      if appname == [] || Find(value, NL) < |value| || Find(value, 0x0d) < |value| {
        return false;
      }
      keymap := keymap[FullKey(appname, key) := value];
      ok := true;
    }

    method GetKey(key: seq<byte>, default_: seq<byte>) returns (value: seq<byte>, ok: bool)
      ensures ok <==> appname != []
      ensures ok ==> value == if FullKey(appname, key) in keymap then keymap[FullKey(appname, key)] else default_
    {
      if appname == [] {
        return [], false;
      }
      var full := FullKey(appname, key);
      value, ok := if full in keymap then keymap[full] else default_, true;
    }
  }

  function FullKey(appname: seq<byte>, key: seq<byte>): seq<byte> {
    [0x58, 0x2d] + appname + [0x2d] + key
  }

  lemma MoreKeys(keys: KeyMap, order: seq<seq<byte>>, k: seq<byte>, head: seq<seq<byte>>)
    requires k in keys && forall o :: o in order ==> o in keys
    ensures forall o :: o in order + [k] ==> o in keys
    ensures TextOf(head + KeyLines(keys, order + [k]))
         == TextOf(head + KeyLines(keys, order)) + (KeyLine(keys, k) + [NL])
  {
    hide TextOf, KeyLine;
    assert (order + [k])[..|order|] == order;
    TextOfSnoc(head + KeyLines(keys, order), KeyLine(keys, k));
    assert head + (KeyLines(keys, order) + [KeyLine(keys, k)]) == (head + KeyLines(keys, order)) + [KeyLine(keys, k)];
  }

  // ------------------------------------------------------------ round trip

  predicate GoodKey(k: seq<byte>) {
    IsAppKey(k) && Visible(k)
  }

  predicate GoodValue(v: seq<byte>) {
    v == [] || GoodText(v)
  }

  predicate Good(keys: KeyMap) {
    forall k :: k in keys ==> GoodKey(k) && GoodValue(keys[k])
  }

  lemma {:induction false} TokenVisible(s: seq<byte>)
    ensures Token(s) == [] || Visible(Token(s))
  {
    if s != [] && !Ws(s[0]) {
      TokenVisible(s[1..]);
    }
  }

  lemma StepGood(g: Global, line: seq<byte>)
    requires Good(g.keys) && Without(line, NL)
    ensures Good(StepGlobal(g, line).keys)
  {
    hide Token, Argument, SkipWs, Visible, GoodText, Number, Flag;
    TokenVisible(SkipWs(line));
    ArgumentClean(line);
  }

  lemma {:induction false} RunGood(g: Global, lines: seq<seq<byte>>)
    requires Good(g.keys) && Single(lines)
    ensures Good(RunGlobal(g, lines).keys)
    decreases |lines|
  {
    hide StepGlobal, Good;
    if lines != [] {
      StepGood(g, lines[0]);
      RunGood(StepGlobal(g, lines[0]), lines[1..]);
    }
  }

  /** Whatever a file holds, only keys without white space are loaded, with values that do not begin with any. */
  lemma LoadedIsGood(text: seq<byte>)
    ensures Good(RunGlobal(FRESH, Lines(text)).keys)
  {
    hide Lines, RunGlobal;
    forall k | 0 <= k < |Lines(text)| ensures Without(Lines(text)[k], NL) {
      LinesWithout(text, k);
    }
    RunGood(FRESH, Lines(text));
  }

  lemma {:induction false} RunAppend(g: Global, a: seq<seq<byte>>, b: seq<seq<byte>>)
    ensures RunGlobal(g, a + b) == RunGlobal(RunGlobal(g, a), b)
    decreases |a|
  {
    hide StepGlobal;
    if a == [] {
      assert a + b == b;
    } else {
      assert (a + b)[1..] == a[1..] + b;
      RunAppend(StepGlobal(g, a[0]), a[1..], b);
    }
  }

  lemma NamesVisible()
    ensures Visible(LAST_DEVICE) && Visible(VERBOSE) && LAST_DEVICE != VERBOSE
    ensures !IsAppKey(LAST_DEVICE) && !IsAppKey(VERBOSE)
  {
  }

  lemma OneLine(g: Global, keyword: seq<byte>, value: seq<byte>)
    requires Visible(keyword)
    ensures Keyword(Assignment(keyword, value)) == keyword && Argument(Assignment(keyword, value)) == SkipWs(value)
    ensures RunGlobal(g, [Assignment(keyword, value)]) == StepGlobal(g, Assignment(keyword, value))
  {
    hide StepGlobal, Keyword, Argument;
    var line: seq<byte> := Assignment(keyword, value);
    AssignmentWords(keyword, value);
    assert [line][1..] == [];
  }

  lemma KeyStep(g: Global, k: seq<byte>, v: seq<byte>)
    requires GoodKey(k) && GoodValue(v)
    ensures RunGlobal(g, [Assignment(k, v)]) == g.(keys := g.keys[k := v])
  {
    hide Keyword, Argument, Number, Flag, RunGlobal;
    OneLine(g, k, v);
    NamesVisible();
    assert SkipWs(v) == v;
  }

  /** Just the keys of the order have been read. */
  ghost predicate Read(m: KeyMap, keys: KeyMap, order: seq<seq<byte>>) {
    (forall k :: k in m <==> k in order) && forall k :: k in m ==> k in keys && m[k] == keys[k]
  }

  lemma {:induction false} RunKeys(g: Global, keys: KeyMap, order: seq<seq<byte>>)
    requires Good(keys) && g.keys == map[] && forall k :: k in order ==> k in keys
    ensures var r := RunGlobal(g, KeyLines(keys, order));
            r.lastDevice == g.lastDevice && r.verbose == g.verbose && Read(r.keys, keys, order)
    decreases |order|
  {
    hide StepGlobal, GoodKey, GoodValue;
    if order != [] {
      var front, k := order[..|order| - 1], order[|order| - 1];
      RunKeys(g, keys, front);
      RunAppend(g, KeyLines(keys, front), [KeyLine(keys, k)]);
      assert GoodKey(k) && GoodValue(keys[k]);
      KeyStep(RunGlobal(g, KeyLines(keys, front)), k, keys[k]);
      assert order == front + [k];
    }
  }

  lemma RunSettings(g: Global)
    requires g.lastDevice < MAX32
    ensures RunGlobal(FRESH, SettingLines(g)) == Global(g.lastDevice, g.verbose, map[])
  {
    hide StepGlobal, RunGlobal, Number, Flag, Assignment, HexDigits;
    NamesVisible();
    var verbose := Assignment(VERBOSE, FlagDigit(g.verbose));
    var device := Assignment(LAST_DEVICE, HexDigits(g.lastDevice));
    var next := Global(g.lastDevice, false, map[]);
    if g.lastDevice != 0 {
      DeviceStep(g.lastDevice);
      RunAppend(FRESH, [device], [verbose]);
      assert SettingLines(g) == [device] + [verbose];
    } else {
      assert SettingLines(g) == [verbose];
    }
    VerboseStep(next, g.verbose);
  }

  lemma DeviceStep(pin: nat)
    requires pin < MAX32
    ensures RunGlobal(FRESH, [Assignment(LAST_DEVICE, HexDigits(pin))]) == Global(pin, false, map[])
  {
    hide Keyword, Argument, Number, Flag, RunGlobal, Padded;
    NamesVisible();
    OneLine(FRESH, LAST_DEVICE, HexDigits(pin));
    NumberRead([], pin, 0, [], MAX32);
    DigitsAlone(pin);
  }

  lemma DigitsAlone(pin: nat)
    ensures SkipWs(HexDigits(pin)) == HexDigits(pin) == [] + Padded(pin, 0) + []
  {
    var d := HexDigits(pin);
    assert IsHex(d[0]);
    assert [] + Padded(pin, 0) + [] == d;
  }

  lemma VerboseStep(g: Global, verbose: bool)
    ensures RunGlobal(g, [Assignment(VERBOSE, FlagDigit(verbose))]) == g.(verbose := verbose)
  {
    hide Keyword, Argument, Number, Flag, RunGlobal;
    NamesVisible();
    OneLine(g, VERBOSE, FlagDigit(verbose));
    FlagOfDigit(Env(_ => true, [], false), verbose);
  }

  lemma {:induction false} LinesSingle(g: Global, order: seq<seq<byte>>)
    requires Good(g.keys) && forall k :: k in order ==> k in g.keys
    ensures Single(SettingLines(g) + KeyLines(g.keys, order))
    decreases |order|
  {
    hide Assignment, HexDigits, Visible, GoodText;
    if order == [] {
      NamesVisible();
      NumericSingle(HexDigits(g.lastDevice));
      AssignmentSingle(LAST_DEVICE, HexDigits(g.lastDevice));
      AssignmentSingle(VERBOSE, FlagDigit(g.verbose));
    } else {
      var front, k := order[..|order| - 1], order[|order| - 1];
      LinesSingle(g, front);
      assert GoodKey(k) && GoodValue(g.keys[k]);
      ValueSingle(g.keys[k]);
      AssignmentSingle(k, g.keys[k]);
      assert SettingLines(g) + KeyLines(g.keys, order)
          == (SettingLines(g) + KeyLines(g.keys, front)) + [KeyLine(g.keys, k)];
    }
  }

  lemma ValueSingle(v: seq<byte>)
    requires GoodValue(v)
    ensures Without(v, NL)
  {
  }

  /** The shared configuration is the same after saving and loading, whatever the order of its keys, exactly
   * if no key has white space in it and no value a newline, or white space in front. */
  lemma SavedLoads(g: Global, order: seq<seq<byte>>)
    requires g.lastDevice < MAX32 && IsOrder(g.keys, order)
    ensures RunGlobal(FRESH, Lines(SavedGlobal(g, order))) == g <==> Good(g.keys)
  {
    hide Lines, RunGlobal, SettingLines, KeyLines, TextOf, Good;
    LoadedIsGood(SavedGlobal(g, order));
    if Good(g.keys) {
      var lines := SettingLines(g) + KeyLines(g.keys, order);
      LinesSingle(g, order);
      LinesOfText(lines);
      RunAppend(FRESH, SettingLines(g), KeyLines(g.keys, order));
      RunSettings(g);
      RunKeys(Global(g.lastDevice, g.verbose, map[]), g.keys, order);
      assert RunGlobal(FRESH, lines).keys == g.keys;
    }
  }
}
