/** Loading a saved configuration. */
module ConfigRoundTrip {
  import opened Bytes
  import opened TextLines
  import opened ConfigFile

  // ------------------------------------------------- what survives being saved

  predicate CleanEntry(e: seq<byte>) {
    Without(e, NL) && Without(e, 0)
  }

  predicate GoodEntry(e: seq<byte>) {
    CleanEntry(e) && Keyword(e) != BACKUP_LIST && Keyword(e) != RESTORE_LIST
  }

  predicate GoodList(list: seq<seq<byte>>) {
    forall k :: 0 <= k < |list| ==> GoodEntry(list[k])
  }

  predicate CleanList(list: seq<seq<byte>>) {
    forall k :: 0 <= k < |list| ==> CleanEntry(list[k])
  }

  predicate GoodText(path: seq<byte>) {
    path != [] && !Ws(path[0]) && Without(path, NL)
  }

  predicate GoodName(name: seq<byte>) {
    name == [] || name == [SPACE] || GoodText(name)
  }

  predicate GoodConfig(c: Config) {
    GoodList(c.backup) && GoodList(c.restore) && GoodName(c.name) && GoodText(c.path)
  }

  predicate CleanConfig(c: Config) {
    CleanList(c.backup) && CleanList(c.restore) && GoodName(c.name) && GoodText(c.path)
  }

  // ------------------------------------- whatever is loaded is clean

  lemma {:induction false} SkipWsClean(s: seq<byte>)
    requires Without(s, NL)
    ensures SkipWs(s) == [] || GoodText(SkipWs(s))
  {
    if s != [] && Ws(s[0]) {
      SkipWsClean(s[1..]);
    }
  }

  lemma {:induction false} SkipWsWithout(s: seq<byte>)
    requires Without(s, NL)
    ensures Without(SkipWs(s), NL)
  {
    if s != [] && Ws(s[0]) {
      SkipWsWithout(s[1..]);
    }
  }

  lemma ArgumentClean(line: seq<byte>)
    requires Without(line, NL)
    ensures Argument(line) == [] || GoodText(Argument(line))
  {
    SkipWsWithout(line);
    SkipWsClean(SkipWs(line)[|Keyword(line)|..]);
  }

  lemma StepClean(env: Env, st: State, line: seq<byte>)
    requires CleanConfig(st.cfg) && GoodText(env.defaultPath) && Without(line, NL)
    ensures CleanConfig(Step(env, st, line).cfg)
  {
    hide Keyword, Argument, Flag, GoodText;
    ArgumentClean(line);
    if IsEntry(line) {
      assert CleanEntry(CString(line[1..]));
    }
  }

  lemma {:induction false} RunClean(env: Env, st: State, lines: seq<seq<byte>>)
    requires CleanConfig(st.cfg) && GoodText(env.defaultPath)
    requires forall k :: 0 <= k < |lines| ==> Without(lines[k], NL)
    ensures CleanConfig(Run(env, st, lines).cfg)
    decreases |lines|
  {
    hide Step, CleanConfig, GoodText;
    if lines != [] {
      StepClean(env, st, lines[0]);
      RunClean(env, Step(env, st, lines[0]), lines[1..]);
    }
  }

  /** From any file whatsoever, only entries without newline and NUL, a name that is absent, a single
   * space or begins with something visible, and a path of that kind are loaded. */
  lemma LoadedIsClean(env: Env, path: seq<byte>, text: seq<byte>)
    requires GoodText(env.defaultPath) && GoodText(path)
    ensures CleanConfig(Loaded(env, path, text))
  {
    hide Lines, GoodText;
    forall k | 0 <= k < |Lines(text)| ensures Without(Lines(text)[k], NL) {
      LinesWithout(text, k);
    }
    assert CleanConfig(Cleared(path).cfg);
    RunClean(env, Cleared(path), Lines(text));
  }

  // --------------------------------------------------- counting list entries

  function Total(c: Config): nat {
    |c.backup| + |c.restore|
  }

  function Count(lines: seq<seq<byte>>): (n: nat)
    ensures n <= |lines|
  {
    if lines == [] then 0 else (if IsEntry(lines[0]) then 1 else 0) + Count(lines[1..])
  }

  lemma {:induction false} RunCount(env: Env, st: State, lines: seq<seq<byte>>)
    ensures Total(Run(env, st, lines).cfg) <= Total(st.cfg) + Count(lines)
    decreases |lines|
  {
    hide IsEntry, Keyword, Argument, CString;
    if lines != [] {
      RunCount(env, Step(env, st, lines[0]), lines[1..]);
    }
  }

  lemma {:induction false} CountAppend(a: seq<seq<byte>>, b: seq<seq<byte>>)
    ensures Count(a + b) == Count(a) + Count(b)
  {
    hide IsEntry;
    if a == [] {
      assert a + b == b;
    } else {
      CountAppend(a[1..], b);
      assert (a + b)[1..] == a[1..] + b;
    }
  }

  lemma EntryLine(e: seq<byte>)
    ensures Keyword([SPACE] + e) == Keyword(e)
    ensures IsEntry([SPACE] + e) <==> Keyword(e) != BACKUP_LIST && Keyword(e) != RESTORE_LIST
  {
    assert ([SPACE] + e)[1..] == e;
  }

  lemma {:induction false} CountEntries(list: seq<seq<byte>>)
    requires CleanList(list)
    ensures Count(Indented(list)) == |list| ==> GoodList(list)
  {
    hide IsEntry, Keyword, CleanEntry;
    if list != [] {
      EntryLine(list[0]);
      assert Indented(list)[1..] == Indented(list[1..]);
      CountEntries(list[1..]);
      assert forall k :: 1 <= k < |list| ==> list[k] == list[1..][k - 1];
    }
  }

  // ------------------------------------------------------------- single lines

  lemma KeywordsDiffer()
    ensures BACKUP_LIST != RESTORE_LIST
    ensures forall k :: k in {DEVICE_NAME, BACKUP_PATH, PROMPT_BACKUP_LABEL, AUTO_SELECT_ALL}
              ==> k != BACKUP_LIST && k != RESTORE_LIST && Visible(k)
    ensures DEVICE_NAME != BACKUP_PATH && PROMPT_BACKUP_LABEL != DEVICE_NAME && PROMPT_BACKUP_LABEL != BACKUP_PATH
    ensures AUTO_SELECT_ALL != DEVICE_NAME && AUTO_SELECT_ALL != BACKUP_PATH && AUTO_SELECT_ALL != PROMPT_BACKUP_LABEL
    ensures Visible(BACKUP_LIST) && Visible(RESTORE_LIST)
  {
    assert BACKUP_LIST[7] != BACKUP_PATH[7] && DEVICE_NAME[0] != BACKUP_PATH[0] && DEVICE_NAME[0] != BACKUP_LIST[0];
    assert AUTO_SELECT_ALL[0] != BACKUP_PATH[0];
  }

  predicate Visible(s: seq<byte>) {
    s != [] && forall k :: 0 <= k < |s| ==> !Ws(s[k])
  }

  lemma {:induction false} TokenIs(word: seq<byte>, rest: seq<byte>)
    requires forall k :: 0 <= k < |word| ==> !Ws(word[k])
    requires rest == [] || Ws(rest[0])
    ensures Token(word + rest) == word
  {
    if word == [] {
      assert word + rest == rest;
    } else {
      assert (word + rest)[1..] == word[1..] + rest;
      TokenIs(word[1..], rest);
    }
  }

  lemma KeywordAlone(word: seq<byte>)
    requires Visible(word)
    ensures Keyword(word) == word
  {
    TokenIs(word, []);
    assert word + [] == word;
  }

  lemma AssignmentWords(keyword: seq<byte>, value: seq<byte>)
    requires Visible(keyword)
    ensures Keyword(Assignment(keyword, value)) == keyword
    ensures Argument(Assignment(keyword, value)) == SkipWs(value)
    ensures Assignment(keyword, value)[0] != SPACE
  {
    hide Token, SkipWs;
    var line := Assignment(keyword, value);
    assert line == keyword + ([SPACE] + value);
    NothingSkipped(line);
    TokenIs(keyword, [SPACE] + value);
    assert line[|keyword|..] == [SPACE] + value;
    SpaceSkipped(value);
  }

  lemma NothingSkipped(s: seq<byte>)
    requires s != [] && !Ws(s[0])
    ensures SkipWs(s) == s
  {
  }

  lemma SpaceSkipped(s: seq<byte>)
    ensures SkipWs([SPACE] + s) == SkipWs(s)
  {
    assert ([SPACE] + s)[1..] == s;
  }

  // ------------------------------------------------------------ all the lines

  lemma CleanLines(c: Config)
    requires CleanConfig(c)
    ensures Single(SaveLists(c) + SaveSettings(c))
  {
    hide Assignment, Indented, CleanList, GoodName, GoodText;
    KeywordsDiffer();
    EntriesSingle(c.backup);
    EntriesSingle(c.restore);
    ValuesSingle(c);
    AssignmentSingle(DEVICE_NAME, c.name);
    AssignmentSingle(BACKUP_PATH, c.path);
    AssignmentSingle(PROMPT_BACKUP_LABEL, FlagDigit(c.prompt));
    AssignmentSingle(AUTO_SELECT_ALL, FlagDigit(c.auto));
  }

  lemma ValuesSingle(c: Config)
    requires GoodName(c.name) && GoodText(c.path)
    ensures Without(c.name, NL) && Without(c.path, NL)
  {
  }

  lemma EntriesSingle(list: seq<seq<byte>>)
    requires CleanList(list)
    ensures Single(Indented(list))
  {
    assert forall k :: 0 <= k < |list| ==> CleanEntry(list[k]);
  }

  lemma AssignmentSingle(keyword: seq<byte>, value: seq<byte>)
    requires Visible(keyword) && Without(value, NL)
    ensures Without(Assignment(keyword, value), NL)
  {
  }

  lemma CountSettings(c: Config)
    ensures Count(SaveSettings(c)) == 0
  {
    hide Keyword, Assignment, IsEntry;
    forall keyword, value | keyword in {DEVICE_NAME, BACKUP_PATH, PROMPT_BACKUP_LABEL, AUTO_SELECT_ALL}
      ensures !IsEntry(Assignment(keyword, value))
    {
      SettingLine(keyword, value);
    }
    NoneCounted(SaveSettings(c));
  }

  lemma SettingLine(keyword: seq<byte>, value: seq<byte>)
    requires keyword in {DEVICE_NAME, BACKUP_PATH, PROMPT_BACKUP_LABEL, AUTO_SELECT_ALL}
    ensures !IsEntry(Assignment(keyword, value))
  {
    KeywordsDiffer();
    AssignmentWords(keyword, value);
  }

  lemma {:induction false} NoneCounted(lines: seq<seq<byte>>)
    requires forall k :: 0 <= k < |lines| ==> !IsEntry(lines[k])
    ensures Count(lines) == 0
  {
    hide IsEntry;
    if lines != [] {
      NoneCounted(lines[1..]);
    }
  }

  lemma CountLists(c: Config)
    requires CleanList(c.backup) && CleanList(c.restore)
    ensures Count(SaveLists(c)) <= Total(c)
    ensures Count(SaveLists(c)) == Total(c) ==> GoodList(c.backup) && GoodList(c.restore)
  {
    hide IsEntry, Keyword, CleanList, GoodList;
    var b, r := Indented(c.backup), Indented(c.restore);
    ListLines();
    CountAppend([BACKUP_LIST] + b + [RESTORE_LIST], r);
    CountAppend([BACKUP_LIST] + b, [RESTORE_LIST]);
    CountAppend([BACKUP_LIST], b);
    CountEntries(c.backup);
    CountEntries(c.restore);
  }

  lemma ListLines()
    ensures Count([BACKUP_LIST]) == 0 && Count([RESTORE_LIST]) == 0
    ensures Keyword(BACKUP_LIST) == BACKUP_LIST && Keyword(RESTORE_LIST) == RESTORE_LIST
  {
    hide Keyword, Token, SkipWs;
    KeywordsDiffer();
    KeywordAlone(BACKUP_LIST);
    KeywordAlone(RESTORE_LIST);
    NoneCounted([BACKUP_LIST]);
    NoneCounted([RESTORE_LIST]);
  }

  // --------------------------------------------------------- what is restored

  lemma {:induction false} RunAppend(env: Env, st: State, a: seq<seq<byte>>, b: seq<seq<byte>>)
    ensures Run(env, st, a + b) == Run(env, Run(env, st, a), b)
    decreases |a|
  {
    hide Step;
    if a == [] {
      assert a + b == b;
    } else {
      assert (a + b)[1..] == a[1..] + b;
      RunAppend(env, Step(env, st, a[0]), a[1..], b);
    }
  }

  function PushAll(st: State, list: seq<seq<byte>>): State {
    match st.list
    case Neither => st
    case Backup => st.(cfg := st.cfg.(backup := st.cfg.backup + list))
    case Restore => st.(cfg := st.cfg.(restore := st.cfg.restore + list))
  }

  lemma EntryStep(env: Env, st: State, e: seq<byte>)
    requires st.list != Neither && GoodEntry(e)
    ensures Step(env, st, [SPACE] + e) == PushAll(st, [e])
  {
    hide Keyword, Argument, Flag, IsEntry;
    EntryLine(e);
    assert ([SPACE] + e)[1..] == e;
    WholeCString(e);
  }

  lemma WholeCString(e: seq<byte>)
    requires Without(e, 0)
    ensures CString(e) == e
  {
    assert Find(e, 0) == |e|;
    assert e[..|e|] == e;
  }

  lemma {:induction false} RunEntries(env: Env, st: State, list: seq<seq<byte>>)
    requires st.list != Neither && GoodList(list)
    ensures Run(env, st, Indented(list)) == PushAll(st, list)
    decreases |list|
  {
    hide Step, GoodEntry;
    if list == [] {
      assert Indented(list) == [];
      assert st.cfg.backup + [] == st.cfg.backup && st.cfg.restore + [] == st.cfg.restore;
    } else {
      EntryStep(env, st, list[0]);
      assert Indented(list)[1..] == Indented(list[1..]);
      RunEntries(env, PushAll(st, [list[0]]), list[1..]);
      assert [list[0]] + list[1..] == list;
      assert st.cfg.backup + [list[0]] + list[1..] == st.cfg.backup + list;
      assert st.cfg.restore + [list[0]] + list[1..] == st.cfg.restore + list;
    }
  }

  lemma ListStep(env: Env, st: State)
    ensures Run(env, st, [BACKUP_LIST]) == st.(list := Backup)
    ensures Run(env, st, [RESTORE_LIST]) == st.(list := Restore)
  {
    hide Keyword, IsEntry, Setting, CString;
    ListLines();
    KeywordsDiffer();
    assert [BACKUP_LIST][1..] == [] && [RESTORE_LIST][1..] == [];
  }

  lemma RunLists(env: Env, path: seq<byte>, c: Config)
    requires GoodList(c.backup) && GoodList(c.restore)
    ensures Run(env, Cleared(path), SaveLists(c))
         == State(Config(c.backup, c.restore, [], path, false, false), Restore)
  {
    hide Run, GoodList;
    var b, r := Indented(c.backup), Indented(c.restore);
    var st := Cleared(path);
    RunAppend(env, st, [BACKUP_LIST] + b + [RESTORE_LIST], r);
    RunAppend(env, st, [BACKUP_LIST] + b, [RESTORE_LIST]);
    RunAppend(env, st, [BACKUP_LIST], b);
    ListStep(env, st);
    RunEntries(env, st.(list := Backup), c.backup);
    var half := PushAll(st.(list := Backup), c.backup);
    assert half.cfg.backup == c.backup;
    ListStep(env, half);
    RunEntries(env, half.(list := Restore), c.restore);
    assert [] + c.restore == c.restore;
  }

  lemma SettingStep(env: Env, st: State, keyword: seq<byte>, value: seq<byte>)
    requires keyword in {DEVICE_NAME, BACKUP_PATH, PROMPT_BACKUP_LABEL, AUTO_SELECT_ALL}
    ensures var arg := SkipWs(value);
            Run(env, st, [Assignment(keyword, value)])
            == State(if keyword == DEVICE_NAME then st.cfg.(name := NewName(st.cfg.name, arg))
                     else if keyword == BACKUP_PATH then st.cfg.(path := NewPath(env, st.cfg.path, arg))
                     else if keyword == PROMPT_BACKUP_LABEL then st.cfg.(prompt := Flag(env.unwritten, arg))
                     else st.cfg.(auto := Flag(env.unwritten, arg)), Neither)
  {
    hide Keyword, Argument, Assignment, IsEntry, Flag, NewName, NewPath, CString, SkipWs;
    var line: seq<byte> := Assignment(keyword, value);
    KeywordsDiffer();
    AssignmentWords(keyword, value);
    SettingLine(keyword, value);
    assert |[line][1..]| == 0;
  }

  lemma Arguments(env: Env, c: Config, path: seq<byte>)
    requires GoodName(c.name) && GoodText(c.path) && env.check(c.path)
    ensures c.name != [] ==> NewName([], SkipWs(c.name)) == c.name
    ensures NewPath(env, path, SkipWs(c.path)) == c.path
    ensures Flag(env.unwritten, SkipWs(FlagDigit(c.prompt))) == c.prompt
    ensures Flag(env.unwritten, SkipWs(FlagDigit(c.auto))) == c.auto
  {
    FlagOfDigit(env, c.prompt);
    FlagOfDigit(env, c.auto);
    if c.name == [SPACE] {
      assert c.name[1..] == [];
    }
  }

  lemma FlagOfDigit(env: Env, flag: bool)
    ensures Flag(env.unwritten, SkipWs(FlagDigit(flag))) == flag
  {
    var d := FlagDigit(flag);
    assert !NonZeroNumber(d[1..]);
    assert d[0] != 0x2b && d[0] != 0x2d;
    assert SkipWs(d) == d;
  }

  lemma RunSettings(env: Env, st: State, c: Config)
    requires GoodName(c.name) && GoodText(c.path) && env.check(c.path) && st.cfg.name == []
    ensures Run(env, st, SaveSettings(c)).cfg == Config(st.cfg.backup, st.cfg.restore, c.name, c.path, c.prompt, c.auto)
  {
    hide Run, Flag, NewName, NewPath, SkipWs, Assignment, FlagDigit, GoodText, GoodName;
    Arguments(env, c, st.cfg.path);
    NotEmpty(c.path);
    var prompt := Assignment(PROMPT_BACKUP_LABEL, FlagDigit(c.prompt));
    var auto := Assignment(AUTO_SELECT_ALL, FlagDigit(c.auto));
    var path := Assignment(BACKUP_PATH, c.path);
    var named := st;
    KeywordsDiffer();
    if c.name != [] {
      SettingStep(env, st, DEVICE_NAME, c.name);
      named := Run(env, st, [Assignment(DEVICE_NAME, c.name)]);
      RunAppend(env, st, [Assignment(DEVICE_NAME, c.name)], [path] + [prompt] + [auto]);
      assert SaveSettings(c) == [Assignment(DEVICE_NAME, c.name)] + ([path] + [prompt] + [auto]);
    } else {
      assert SaveSettings(c) == [path] + [prompt] + [auto];
    }
    RunAppend(env, named, [path] + [prompt], [auto]);
    RunAppend(env, named, [path], [prompt]);
    SettingStep(env, named, BACKUP_PATH, c.path);
    var placed := Run(env, named, [path]);
    SettingStep(env, placed, PROMPT_BACKUP_LABEL, FlagDigit(c.prompt));
    SettingStep(env, Run(env, placed, [prompt]), AUTO_SELECT_ALL, FlagDigit(c.auto));
    Arguments(env, c, named.cfg.path);
  }

  lemma NotEmpty(path: seq<byte>)
    requires GoodText(path)
    ensures path != []
  {
  }

  // -------------------------------------------------------------- round trip

  /** A configuration is the same after saving and loading exactly if no list entry has a newline, a NUL
   * or a list's keyword as its first word, and name and path have no newline and begin with something
   * visible; an absent name and the single space that stands for an ignored one survive as well. */
  lemma SavedLoads(env: Env, path: seq<byte>, c: Config)
    requires GoodText(env.defaultPath) && GoodText(path) && env.check(c.path)
    ensures Loaded(env, path, Saved(c)) == c <==> GoodConfig(c)
  {
    hide Lines, Run, SaveLists, SaveSettings, GoodText, GoodName, GoodList, CleanList, TextOf, Count;
    var lists, settings := SaveLists(c), SaveSettings(c);
    LoadedIsClean(env, path, Saved(c));
    if GoodConfig(c) {
      GoodIsClean(c.backup);
      GoodIsClean(c.restore);
    }
    if CleanConfig(c) {
      CleanLines(c);
      LinesOfText(lists + settings);
      if GoodConfig(c) {
        RunAppend(env, Cleared(path), lists, settings);
        RunLists(env, path, c);
        RunSettings(env, Run(env, Cleared(path), lists), c);
      } else {
        RunCount(env, Cleared(path), lists + settings);
        CountAppend(lists, settings);
        CountLists(c);
        CountSettings(c);
      }
    }
  }

  lemma GoodIsClean(list: seq<seq<byte>>)
    requires GoodList(list)
    ensures CleanList(list)
  {
    assert forall k :: 0 <= k < |list| ==> GoodEntry(list[k]);
  }
}
