/** The configuration of a device: a text file of keywords, two of which begin lists. */
module ConfigFile {
  import opened Bytes
  import opened TextLines

  const BACKUP_LIST: seq<byte> :=
    [0x62, 0x61, 0x63, 0x6b, 0x75, 0x70, 0x5f, 0x6c, 0x69, 0x73, 0x74] // backup_list
  const RESTORE_LIST: seq<byte> :=
    [0x72, 0x65, 0x73, 0x74, 0x6f, 0x72, 0x65, 0x5f, 0x6c, 0x69, 0x73, 0x74] // restore_list
  const DEVICE_NAME: seq<byte> :=
    [0x64, 0x65, 0x76, 0x69, 0x63, 0x65, 0x5f, 0x6e, 0x61, 0x6d, 0x65] // device_name
  const BACKUP_PATH: seq<byte> :=
    [0x62, 0x61, 0x63, 0x6b, 0x75, 0x70, 0x5f, 0x70, 0x61, 0x74, 0x68] // backup_path
  const PROMPT_BACKUP_LABEL: seq<byte> :=
    [0x70, 0x72, 0x6f, 0x6d, 0x70, 0x74, 0x5f, 0x62, 0x61, 0x63, 0x6b, 0x75, 0x70, 0x5f,
     0x6c, 0x61, 0x62, 0x65, 0x6c] // prompt_backup_label
  const AUTO_SELECT_ALL: seq<byte> :=
    [0x61, 0x75, 0x74, 0x6f, 0x5f, 0x73, 0x65, 0x6c, 0x65, 0x63, 0x74, 0x5f, 0x61, 0x6c, 0x6c] // auto_select_all

  // ---------------------------------------------------- words of a line (iostream)

  function Token(s: seq<byte>): (t: seq<byte>)
    ensures |t| <= |s|
  {
    if s == [] || Ws(s[0]) then [] else [s[0]] + Token(s[1..])
  }

  function Keyword(line: seq<byte>): seq<byte> {
    Token(SkipWs(line))
  }

  /** What follows the keyword and the white space behind it. */
  function Argument(line: seq<byte>): seq<byte> {
    SkipWs(SkipWs(line)[|Keyword(line)|..])
  }

  function CString(s: seq<byte>): seq<byte> {
    s[..Find(s, 0)]
  }

  predicate NonZeroNumber(s: seq<byte>) {
    s != [] && 0x30 <= s[0] <= 0x39 && (s[0] != 0x30 || NonZeroNumber(s[1..]))
  }

  // ------------------------------------------------------------------ meaning

  /** What is decided outside: which paths exist or can be made, the path used otherwise, and what an
   * int holds that was never written. */
  datatype Env = Env(check: seq<byte> -> bool, defaultPath: seq<byte>, unwritten: bool)

  datatype Config = Config(backup: seq<seq<byte>>, restore: seq<seq<byte>>, name: seq<byte>, path: seq<byte>,
                           prompt: bool, auto: bool)

  datatype Current = Neither | Backup | Restore

  datatype State = State(cfg: Config, list: Current)

  function Flag(unwritten: bool, arg: seq<byte>): bool {
    if arg == [] then unwritten
    else NonZeroNumber(if arg[0] in {0x2b, 0x2d} then arg[1..] else arg)
  }

  function NewName(before: seq<byte>, arg: seq<byte>): seq<byte> {
    if arg != [] then arg else if before != [] then before else [SPACE]
  }

  function NewPath(env: Env, before: seq<byte>, arg: seq<byte>): seq<byte> {
    var path := if arg != [] then arg else before;
    if path == [] || !env.check(path) then env.defaultPath else path
  }

  function Push(st: State, entry: seq<byte>): State {
    match st.list
    case Neither => st
    case Backup => st.(cfg := st.cfg.(backup := st.cfg.backup + [entry]))
    case Restore => st.(cfg := st.cfg.(restore := st.cfg.restore + [entry]))
  }

  predicate IsEntry(line: seq<byte>) {
    line != [] && line[0] == SPACE && Keyword(line) != BACKUP_LIST && Keyword(line) != RESTORE_LIST
  }

  function Setting(env: Env, c: Config, line: seq<byte>): Config {
    var keyword, arg := Keyword(line), Argument(line);
    if keyword == DEVICE_NAME then c.(name := NewName(c.name, arg))
    else if keyword == BACKUP_PATH then c.(path := NewPath(env, c.path, arg))
    else if keyword == PROMPT_BACKUP_LABEL then c.(prompt := Flag(env.unwritten, arg))
    else if keyword == AUTO_SELECT_ALL then c.(auto := Flag(env.unwritten, arg))
    else c
  }

  function Step(env: Env, st: State, line: seq<byte>): State {
    if Keyword(line) == BACKUP_LIST then st.(list := Backup)
    else if Keyword(line) == RESTORE_LIST then st.(list := Restore)
    else if IsEntry(line) && st.list != Neither then Push(st, CString(line[1..]))
    else State(Setting(env, st.cfg, line), Neither)
  }

  function Run(env: Env, st: State, lines: seq<seq<byte>>): State
    decreases |lines|
  {
    if lines == [] then st else Run(env, Step(env, st, lines[0]), lines[1..])
  }

  /** Only the path survives from before. */
  function Cleared(path: seq<byte>): State {
    State(Config([], [], [], path, false, false), Neither)
  }

  function Loaded(env: Env, path: seq<byte>, text: seq<byte>): Config {
    Run(env, Cleared(path), Lines(text)).cfg
  }

  // ------------------------------------------------------------------- saving

  function Indented(list: seq<seq<byte>>): (lines: seq<seq<byte>>)
    ensures |lines| == |list|
  {
    seq(|list|, k requires 0 <= k < |list| => [SPACE] + list[k])
  }

  function Assignment(keyword: seq<byte>, value: seq<byte>): seq<byte> {
    keyword + [SPACE] + value
  }

  function FlagDigit(flag: bool): seq<byte> {
    [if flag then 0x31 else 0x30]
  }

  function SaveLists(c: Config): seq<seq<byte>> {
    [BACKUP_LIST] + Indented(c.backup) + [RESTORE_LIST] + Indented(c.restore)
  }

  function SaveSettings(c: Config): seq<seq<byte>> {
    (if c.name == [] then [] else [Assignment(DEVICE_NAME, c.name)])
    + (if c.path == [] then [] else [Assignment(BACKUP_PATH, c.path)])
    + [Assignment(PROMPT_BACKUP_LABEL, FlagDigit(c.prompt)), Assignment(AUTO_SELECT_ALL, FlagDigit(c.auto))]
  }

  function Saved(c: Config): seq<byte> {
    TextOf(SaveLists(c) + SaveSettings(c))
  }

  lemma SavedText(c: Config)
    ensures Saved(c) == BACKUP_LIST + [NL] + TextOf(Indented(c.backup)) + (RESTORE_LIST + [NL])
                        + TextOf(Indented(c.restore)) + TextOf(SaveSettings(c))
  {
    hide SaveSettings, Indented, TextOf;
    var backup, restore := Indented(c.backup), Indented(c.restore);
    NoText();
    TextOfSnoc([], BACKUP_LIST);
    assert [] + [BACKUP_LIST] == [BACKUP_LIST];
    assert [] + (BACKUP_LIST + [NL]) == BACKUP_LIST + [NL];
    TextOfAppend([BACKUP_LIST], backup);
    TextOfSnoc([BACKUP_LIST] + backup, RESTORE_LIST);
    TextOfAppend([BACKUP_LIST] + backup + [RESTORE_LIST], restore);
    TextOfAppend(SaveLists(c), SaveSettings(c));
  }

  // ---------------------------------------------------------------- the class

  datatype FileContent = NoFile | File(text: seq<byte>)

  class DeviceConfig {
    const env: Env
    var loaded: bool
    var backupList: seq<seq<byte>>
    var restoreList: seq<seq<byte>>
    var deviceName: seq<byte>
    var path: seq<byte>
    var promptBackupLabel: bool
    var autoSelectAll: bool

    function View(): Config
      reads this
    {
      Config(backupList, restoreList, deviceName, path, promptBackupLabel, autoSelectAll)
    }

    constructor (env: Env, file: FileContent)
      ensures this.env == env && loaded == file.File?
      ensures View() == if file.File? then Loaded(env, env.defaultPath, file.text) else Cleared(env.defaultPath).cfg
    {
      this.env := env;
      loaded, promptBackupLabel, autoSelectAll := false, false, false;
      backupList, restoreList, deviceName, path := [], [], [], env.defaultPath;
      new;
      Load(file);
    }

    method Clear()
      modifies this
      ensures View() == Cleared(old(path)).cfg && !loaded
    {
      loaded := false;
      backupList, restoreList, deviceName := [], [], [];
      promptBackupLabel, autoSelectAll := false, false;
    }

    method Load(file: FileContent)
      modifies this
      ensures loaded == file.File?
      ensures View() == if file.File? then Loaded(env, old(path), file.text) else Cleared(old(path)).cfg
    {
      hide Lines;
      Clear();
      if file.NoFile? {
        return;
      }
      var input := new Stream(file.text);
      var list := Neither;
      ghost var start := State(View(), list);
      while true
        invariant input.Valid() && fresh(input)
        invariant Run(env, State(View(), list), input.Rest()) == Run(env, start, Lines(file.text))
        decreases |input.text| - input.pos
      {
        var line, ok := input.GetLine();
        if !ok {
          break;
        }
        list := LoadLine(line, list);
      }
      loaded := true;
    }

    method LoadLine(line: seq<byte>, list: Current) returns (next: Current)
      modifies this
      ensures State(View(), next) == Step(env, State(old(View()), list), line)
    {
      hide Keyword, Argument, CString, NonZeroNumber;
      var keyword, arg := Keyword(line), Argument(line);
      next := list;
      if keyword == BACKUP_LIST {
        next := Backup;
      } else if keyword == RESTORE_LIST {
        next := Restore;
      } else if |line| > 0 && line[0] == SPACE && list != Neither {
        if list == Backup {
          backupList := backupList + [CString(line[1..])];
        } else {
          restoreList := restoreList + [CString(line[1..])];
        }
      } else {
        next := Neither;
        if keyword == DEVICE_NAME {
          if |arg| > 0 {
            deviceName := arg;
          }
          if |deviceName| == 0 {
            deviceName := [SPACE];
          }
        } else if keyword == BACKUP_PATH {
          if |arg| > 0 {
            path := arg;
          }
          if |path| == 0 || !env.check(path) {
            path := env.defaultPath;
          }
        } else if keyword == PROMPT_BACKUP_LABEL {
          promptBackupLabel := Flag(env.unwritten, arg);
        } else if keyword == AUTO_SELECT_ALL {
          autoSelectAll := Flag(env.unwritten, arg);
        }
      }
    }

    method Save() returns (ok: bool, out: seq<byte>)
      ensures ok == env.check(path) && (ok ==> out == Saved(View()))
    {
      hide Saved, SaveSettings, Indented, TextOf;
      if !env.check(path) {
        return false, [];
      }
      SavedText(View());
      out := BACKUP_LIST + [NL];
      var list := SaveList(backupList);
      out := out + list;
      out := out + (RESTORE_LIST + [NL]);
      list := SaveList(restoreList);
      out := out + list;
      var settings := SaveRest();
      out := out + settings;
      ok := true;
    }

    method SaveRest() returns (out: seq<byte>)
      ensures out == TextOf(SaveSettings(View()))
    {
      hide Assignment, TextOf;
      ghost var lines: seq<seq<byte>> := [];
      out := [];
      NoText();
      if |deviceName| > 0 {
        out := out + Assignment(DEVICE_NAME, deviceName) + [NL];
        TextOfSnoc(lines, Assignment(DEVICE_NAME, deviceName));
        lines := lines + [Assignment(DEVICE_NAME, deviceName)];
      }
      if |path| > 0 {
        out := out + Assignment(BACKUP_PATH, path) + [NL];
        TextOfSnoc(lines, Assignment(BACKUP_PATH, path));
        lines := lines + [Assignment(BACKUP_PATH, path)];
      }
      var prompt := Assignment(PROMPT_BACKUP_LABEL, FlagDigit(promptBackupLabel));
      out := out + prompt + [NL];
      TextOfSnoc(lines, prompt);
      var auto := Assignment(AUTO_SELECT_ALL, FlagDigit(autoSelectAll));
      out := out + auto + [NL];
      TextOfSnoc(lines + [prompt], auto);
      assert lines + [prompt] + [auto] == SaveSettings(View());
    }
  }

  method SaveList(list: seq<seq<byte>>) returns (out: seq<byte>)
    ensures out == TextOf(Indented(list))
  {
    out := [];
    assert Indented(list)[..0] == [];
    for k := 0 to |list|
      invariant out == TextOf(Indented(list)[..k])
    {
      TextOfSnoc(Indented(list)[..k], [SPACE] + list[k]);
      assert Indented(list)[..k + 1] == Indented(list)[..k] + [[SPACE] + list[k]];
      out := out + ([SPACE] + list[k] + [NL]);
    }
    assert Indented(list)[..|list|] == Indented(list);
  }
}
