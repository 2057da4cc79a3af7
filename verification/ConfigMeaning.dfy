/** What a configuration file means, whatever is in it, said about its lines and not about the reading of them. */
module ConfigMeaning {
  import opened Bytes
  import opened TextLines
  import opened HexDump
  import opened ConfigFile
  import opened ConfigRoundTrip
  import GlobalConfig

  // ------------------------------------------------------------------- words

  lemma Spelled()
    ensures BACKUP_LIST == Text("backup_list") && RESTORE_LIST == Text("restore_list")
    ensures DEVICE_NAME == Text("device_name") && BACKUP_PATH == Text("backup_path")
    ensures PROMPT_BACKUP_LABEL == Text("prompt_backup_label") && AUTO_SELECT_ALL == Text("auto_select_all")
    ensures GlobalConfig.LAST_DEVICE == Text("last_device") && GlobalConfig.VERBOSE == Text("verbose_logging")
  {
  }

  predicate White(s: seq<byte>) {
    forall k :: 0 <= k < |s| ==> s[k] in {0x20, 0x09, 0x0a, 0x0b, 0x0c, 0x0d}
  }

  predicate Dark(s: seq<byte>) {
    forall k :: 0 <= k < |s| ==> s[k] !in {0x20, 0x09, 0x0a, 0x0b, 0x0c, 0x0d}
  }

  lemma {:induction false} WhiteSkipped(s: seq<byte>, rest: seq<byte>)
    requires White(s)
    ensures SkipWs(s + rest) == SkipWs(rest)
  {
    if s == [] {
      assert s + rest == rest;
    } else {
      assert (s + rest)[1..] == s[1..] + rest;
      WhiteSkipped(s[1..], rest);
    }
  }

  /** The keyword is the first word of a line, and its argument all that follows, from the next word on. */
  lemma WordsOf(before: seq<byte>, keyword: seq<byte>, between: seq<byte>, argument: seq<byte>)
    requires White(before) && keyword != [] && Dark(keyword) && White(between)
    requires (between == [] ==> argument == []) && (argument != [] ==> Dark(argument[..1]))
    ensures var line := before + keyword + between + argument;
            Keyword(line) == keyword && Argument(line) == argument
  {
    hide Token, SkipWs;
    var behind := between + argument;
    var line := before + keyword + between + argument;
    assert line == before + (keyword + behind);
    WhiteSkipped(before, keyword + behind);
    NothingSkipped(keyword + behind);
    TokenIs(keyword, behind);
    assert (keyword + behind)[|keyword|..] == behind;
    WhiteSkipped(between, argument);
    if argument != [] {
      assert argument[..1][0] == argument[0];
      NothingSkipped(argument);
    } else {
      NothingToSkip();
    }
  }

  lemma NothingToSkip()
    ensures SkipWs([]) == []
  {
  }

  predicate Decimals(d: seq<byte>) {
    forall k :: 0 <= k < |d| ==> 0x30 <= d[k] <= 0x39
  }

  lemma {:induction false} NonZeroIs(d: seq<byte>, rest: seq<byte>)
    requires Decimals(d) && (rest == [] || rest[0] < 0x30 || rest[0] > 0x39)
    ensures NonZeroNumber(d + rest) <==> exists k :: 0 <= k < |d| && d[k] != 0x30
  {
    if d == [] {
      assert d + rest == rest;
    } else {
      assert (d + rest)[1..] == d[1..] + rest;
      NonZeroIs(d[1..], rest);
      if k :| 0 <= k < |d[1..]| && d[1..][k] != 0x30 {
        assert d[k + 1] != 0x30;
      }
      if k :| 0 <= k < |d| && d[k] != 0x30 {
        assert k > 0 ==> d[1..][k - 1] != 0x30;
      }
    }
  }

  /** A flag is set exactly by a number other than zero, with or without a sign, and whatever follows it. */
  lemma FlagIs(unwritten: bool, sign: seq<byte>, d: seq<byte>, rest: seq<byte>)
    requires sign in {[], [0x2b], [0x2d]} && Decimals(d) && sign + d + rest != []
    requires rest == [] || rest[0] < 0x30 || rest[0] > 0x39
    requires sign == [] && d == [] ==> rest[0] != 0x2b && rest[0] != 0x2d
    ensures Flag(unwritten, sign + d + rest) <==> exists k :: 0 <= k < |d| && d[k] != 0x30
    ensures Flag(unwritten, []) == unwritten
  {
    hide NonZeroNumber;
    NonZeroIs(d, rest);
    var arg := sign + d + rest;
    if sign == [] {
      assert arg == d + rest;
      assert arg[0] == if d == [] then rest[0] else d[0];
    } else {
      assert arg[1..] == d + rest;
    }
  }

  // -------------------------------------------------------------------- lists

  predicate IsIndented(line: seq<byte>) {
    line != [] && line[0] == 0x20 && Keyword(line) != BACKUP_LIST && Keyword(line) != RESTORE_LIST
  }

  /** Behind these lines a list is open: its keyword, and only indented lines since. */
  ghost predicate Open(lines: seq<seq<byte>>, keyword: seq<byte>) {
    exists j :: 0 <= j < |lines| && Keyword(lines[j]) == keyword && forall i :: j < i < |lines| ==> IsIndented(lines[i])
  }

  /** The entries of a list: what is indented while it is open, without the blank, and up to a NUL. */
  ghost function ListIn(lines: seq<seq<byte>>, keyword: seq<byte>): seq<seq<byte>> {
    if lines == [] then [] else
    var line, above := lines[|lines| - 1], lines[..|lines| - 1];
    ListIn(above, keyword)
    + if IsIndented(line) && Open(above, keyword) then [line[1..1 + Find(line[1..], 0)]] else []
  }

  lemma OpenSnoc(above: seq<seq<byte>>, line: seq<byte>, keyword: seq<byte>)
    ensures Open(above + [line], keyword) <==> Keyword(line) == keyword || (IsIndented(line) && Open(above, keyword))
  {
    hide IsIndented, Keyword;
    var lines := above + [line];
    if Keyword(line) == keyword {
      assert Keyword(lines[|above|]) == keyword;
    }
    if IsIndented(line) && Open(above, keyword) {
      var j :| 0 <= j < |above| && Keyword(above[j]) == keyword && forall i :: j < i < |above| ==> IsIndented(above[i]);
      assert lines[j] == above[j];
      forall i | j < i < |lines| ensures IsIndented(lines[i]) {
        assert lines[i] == if i < |above| then above[i] else line;
      }
    }
    if Open(lines, keyword) && Keyword(line) != keyword {
      var j :| 0 <= j < |lines| && Keyword(lines[j]) == keyword && forall i :: j < i < |lines| ==> IsIndented(lines[i]);
      assert j < |above| && IsIndented(lines[|above|]);
      assert above[j] == lines[j];
      forall i | j < i < |above| ensures IsIndented(above[i]) {
        assert above[i] == lines[i] && IsIndented(lines[i]);
      }
    }
  }

  lemma RunSnoc(env: Env, st: State, lines: seq<seq<byte>>)
    requires lines != []
    ensures Run(env, st, lines) == Step(env, Run(env, st, lines[..|lines| - 1]), lines[|lines| - 1])
  {
    hide Step;
    var above, line := lines[..|lines| - 1], lines[|lines| - 1];
    assert lines == above + [line];
    RunAppend(env, st, above, [line]);
    var one: seq<seq<byte>> := [line];
    assert one[1..] == [];
  }

  /** Both lists are what is indented under their keywords; any other line in between ends a list. */
  lemma {:induction false} ListsAre(env: Env, path: seq<byte>, lines: seq<seq<byte>>)
    ensures var st := Run(env, Cleared(path), lines);
            && st.cfg.backup == ListIn(lines, BACKUP_LIST) && st.cfg.restore == ListIn(lines, RESTORE_LIST)
            && (st.list == Backup <==> Open(lines, BACKUP_LIST))
            && (st.list == Restore <==> Open(lines, RESTORE_LIST))
    decreases |lines|
  {
    hide Run, Keyword, Argument, Setting, Open;
    if lines == [] {
      NothingOpen(env, path);
    } else {
      var above, line := lines[..|lines| - 1], lines[|lines| - 1];
      assert lines == above + [line];
      ListsAre(env, path, above);
      RunSnoc(env, Cleared(path), lines);
      OpenSnoc(above, line, BACKUP_LIST);
      OpenSnoc(above, line, RESTORE_LIST);
      KeywordsDiffer();
      SettingsKeepLists(env, Run(env, Cleared(path), above).cfg, line);
      if line != [] {
        EntryText(line);
      }
    }
  }

  lemma NothingOpen(env: Env, path: seq<byte>)
    ensures Run(env, Cleared(path), []) == Cleared(path) && !Open([], BACKUP_LIST) && !Open([], RESTORE_LIST)
  {
  }

  lemma EntryText(line: seq<byte>)
    requires line != []
    ensures 1 + Find(line[1..], 0) <= |line| && line[1..1 + Find(line[1..], 0)] == CString(line[1..])
  {
  }

  lemma SettingsKeepLists(env: Env, c: Config, line: seq<byte>)
    ensures Setting(env, c, line).backup == c.backup && Setting(env, c, line).restore == c.restore
  {
  }

  // ----------------------------------------------------------------- settings

  datatype Given = Unset | Given(argument: seq<byte>)

  /** The argument of the last line that begins with the keyword and is no entry of a list. */
  ghost function LastGiven(lines: seq<seq<byte>>, keyword: seq<byte>): Given {
    if lines == [] then Unset else
    var line, above := lines[|lines| - 1], lines[..|lines| - 1];
    if Keyword(line) == keyword && !(IsIndented(line) && (Open(above, BACKUP_LIST) || Open(above, RESTORE_LIST)))
    then Given(Argument(line)) else LastGiven(above, keyword)
  }

  ghost predicate FlagGiven(env: Env, g: Given, flag: bool) {
    flag == if g.Unset? then false else Flag(env.unwritten, g.argument)
  }

  /** A path is taken if it can be used, and the default one otherwise; a name without text leaves a blank. */
  ghost predicate TextsGiven(env: Env, path: seq<byte>, name: Given, newPath: Given, c: Config) {
    && (name.Unset? ==> c.name == [])
    && (name.Given? ==> c.name != [] && (name.argument != [] ==> c.name == name.argument))
    && (newPath.Unset? ==> c.path == path)
    && (newPath.Given? && newPath.argument != [] ==>
          c.path == if env.check(newPath.argument) then newPath.argument else env.defaultPath)
  }

  /** One line, for each setting; entries of an open list have no effect on any. */
  lemma StepSettings(env: Env, st: State, line: seq<byte>)
    ensures var c, d := st.cfg, Step(env, st, line).cfg; var skipped := IsIndented(line) && st.list != Neither;
            var word, arg := Keyword(line), Argument(line);
            && d.prompt == (if word == PROMPT_BACKUP_LABEL && !skipped then Flag(env.unwritten, arg) else c.prompt)
            && d.auto == (if word == AUTO_SELECT_ALL && !skipped then Flag(env.unwritten, arg) else c.auto)
            && d.name == (if word == DEVICE_NAME && !skipped then NewName(c.name, arg) else c.name)
            && d.path == (if word == BACKUP_PATH && !skipped then NewPath(env, c.path, arg) else c.path)
  {
    hide Keyword, Argument, Flag, CString, NewName, NewPath;
    KeywordsDiffer();
  }

  /** Each setting has what the last line for it says. */
  lemma {:induction false} SettingsAre(env: Env, path: seq<byte>, lines: seq<seq<byte>>)
    ensures var c := Run(env, Cleared(path), lines).cfg;
            && FlagGiven(env, LastGiven(lines, PROMPT_BACKUP_LABEL), c.prompt)
            && FlagGiven(env, LastGiven(lines, AUTO_SELECT_ALL), c.auto)
            && TextsGiven(env, path, LastGiven(lines, DEVICE_NAME), LastGiven(lines, BACKUP_PATH), c)
    decreases |lines|
  {
    hide Run, Step, Keyword, Argument, Open, Flag, IsIndented, ListIn;
    if lines == [] {
      NothingOpen(env, path);
    } else {
      var above, line := lines[..|lines| - 1], lines[|lines| - 1];
      SettingsAre(env, path, above);
      ListsAre(env, path, above);
      RunSnoc(env, Cleared(path), lines);
      StepSettings(env, Run(env, Cleared(path), above), line);
    }
  }

  // ----------------------------------------------------- the shared configuration

  /** The argument of the last line with that keyword. */
  function LastOf(lines: seq<seq<byte>>, keyword: seq<byte>): Given {
    if lines == [] then Unset else
    var line := lines[|lines| - 1];
    if Keyword(line) == keyword then Given(Argument(line)) else LastOf(lines[..|lines| - 1], keyword)
  }

  /** The last device is the hexadecimal number of its last line, and none if that holds no number. */
  ghost predicate DeviceGiven(g: Given, device: nat) {
    device == if g.Unset? then 0 else
              match Number(g.argument, MAX32)
              case Parsed(value, _) => value
              case Unparsed => 0
  }

  /** The keys are the keywords that begin with X and a hyphen, each with the argument of its last line. */
  lemma {:induction false} SharedIs(lines: seq<seq<byte>>, key: seq<byte>)
    ensures var g := GlobalConfig.RunGlobal(GlobalConfig.FRESH, lines); var last := LastOf(lines, key);
            && (key in g.keys <==> last.Given? && |key| >= 2 && key[..2] == Text("X-"))
            && (key in g.keys ==> g.keys[key] == last.argument)
            && g.verbose == (var v := LastOf(lines, GlobalConfig.VERBOSE); v.Given? && Flag(false, v.argument))
            && DeviceGiven(LastOf(lines, GlobalConfig.LAST_DEVICE), g.lastDevice)
    decreases |lines|
  {
    hide GlobalConfig.RunGlobal, Keyword, Argument, Flag, Number;
    var g := GlobalConfig.RunGlobal(GlobalConfig.FRESH, lines);
    if lines == [] {
      NothingShared();
    } else {
      var above, line := lines[..|lines| - 1], lines[|lines| - 1];
      assert lines == above + [line];
      SharedIs(above, key);
      SharedSnoc(above, line);
      GlobalConfig.NamesVisible();
      AppKeyIs(key);
    }
  }

  lemma AppKeyIs(key: seq<byte>)
    ensures GlobalConfig.IsAppKey(key) <==> |key| >= 2 && key[..2] == Text("X-")
  {
    if |key| >= 2 {
      assert key[..2] == [key[0], key[1]];
    }
  }

  lemma NothingShared()
    ensures GlobalConfig.RunGlobal(GlobalConfig.FRESH, []) == GlobalConfig.FRESH
  {
  }

  lemma SharedSnoc(above: seq<seq<byte>>, line: seq<byte>)
    ensures GlobalConfig.RunGlobal(GlobalConfig.FRESH, above + [line])
         == GlobalConfig.StepGlobal(GlobalConfig.RunGlobal(GlobalConfig.FRESH, above), line)
  {
    hide GlobalConfig.StepGlobal;
    GlobalConfig.RunAppend(GlobalConfig.FRESH, above, [line]);
    var one: seq<seq<byte>> := [line];
    assert one[1..] == [];
  }

  // ------------------------------------------------------- keys of applications

  predicate NoHyphen(s: seq<byte>) {
    forall k :: 0 <= k < |s| ==> s[k] != 0x2d
  }

  lemma KeyIs(app: seq<byte>, key: seq<byte>)
    ensures GlobalConfig.FullKey(app, key) == Text("X-") + app + Text("-") + key
    ensures GlobalConfig.IsAppKey(GlobalConfig.FullKey(app, key))
  {
  }

  lemma ShorterApart(app: seq<byte>, key: seq<byte>, longer: seq<byte>, key': seq<byte>)
    requires NoHyphen(longer) && |app| < |longer|
    ensures GlobalConfig.FullKey(app, key) != GlobalConfig.FullKey(longer, key')
  {
    assert GlobalConfig.FullKey(app, key)[2 + |app|] == 0x2d;
    assert GlobalConfig.FullKey(longer, key')[2 + |app|] == longer[|app|];
  }

  /** Applications do not touch each other's keys, if their names have no hyphens. */
  lemma KeysApart(app: seq<byte>, key: seq<byte>, app': seq<byte>, key': seq<byte>)
    requires app == app' || (NoHyphen(app) && NoHyphen(app'))
    ensures GlobalConfig.FullKey(app, key) == GlobalConfig.FullKey(app', key') <==> app == app' && key == key'
  {
    var k, l := GlobalConfig.FullKey(app, key), GlobalConfig.FullKey(app', key');
    if k == l {
      if |app| < |app'| {
        ShorterApart(app, key, app', key');
      } else if |app'| < |app| {
        ShorterApart(app', key', app, key);
      } else {
        assert k[2..2 + |app|] == app && l[2..2 + |app|] == app';
        assert k[3 + |app|..] == key && l[3 + |app|..] == key';
      }
    }
  }

  /** With hyphens they can: the application a-b with the key c, and a with the key b-c. */
  lemma KeysMeet(a: seq<byte>, b: seq<byte>, c: seq<byte>)
    ensures GlobalConfig.FullKey(a + [0x2d] + b, c) == GlobalConfig.FullKey(a, b + [0x2d] + c)
  {
    assert GlobalConfig.FullKey(a + [0x2d] + b, c) == [0x58, 0x2d] + a + [0x2d] + (b + [0x2d] + c);
  }

  /** What an application has set is found again after saving and loading, and so is everything else. */
  lemma SetIsFound(g: GlobalConfig.Global, app: seq<byte>, key: seq<byte>, value: seq<byte>, order: seq<seq<byte>>)
    requires g.lastDevice < MAX32 && GlobalConfig.Good(g.keys)
    requires GlobalConfig.GoodKey(GlobalConfig.FullKey(app, key)) && GlobalConfig.GoodValue(value)
    requires var full := GlobalConfig.FullKey(app, key); GlobalConfig.IsOrder(g.keys[full := value], order)
    ensures var full := GlobalConfig.FullKey(app, key); var h := g.(keys := g.keys[full := value]);
            var r := GlobalConfig.RunGlobal(GlobalConfig.FRESH, Lines(GlobalConfig.SavedGlobal(h, order)));
            && full in r.keys && r.keys[full] == value
            && forall k :: k != full ==> (k in r.keys <==> k in g.keys) && (k in g.keys ==> r.keys[k] == g.keys[k])
  {
    hide GlobalConfig.RunGlobal, Lines, GlobalConfig.SavedGlobal, GlobalConfig.GoodKey, GlobalConfig.GoodValue,
         GlobalConfig.FullKey;
    var full := GlobalConfig.FullKey(app, key);
    var h := g.(keys := g.keys[full := value]);
    GlobalConfig.SavedLoads(h, order);
  }
}
