/**
 * Deciding whether the dependency manifest changed since the last packaged
 * build, and recording the manifest's mtime.  The file system is a map from
 * path to integer mtime (seconds since the epoch); a path that is not in the
 * map does not exist.
 */
module ChangeDetector {
  import opened Wrappers
  import opened ConfigStore
  import opened IntText

  type FileTimes = map<string, int>

  /** The `st_mtime` of a file; a missing file raises FileNotFoundError. */
  function GetFileModifiedTime(fs: FileTimes, path: string): (r: Result<int, Error>)
    ensures r.Ok? <==> path in fs
    ensures r.Ok? ==> r.value == fs[path]
    ensures r.Err? ==> r.error == FileNotFoundError(path)
  {
    if path in fs then Ok(fs[path]) else Err(FileNotFoundError(path))
  }

  /**
   * Whether the manifest changed: always when no dependency state is recorded,
   * otherwise whenever the recorded and the current mtime differ in either
   * direction.  The recorded value is read and parsed before the manifest is
   * looked up, so a bad recorded value is reported even if the manifest is gone.
   */
  function RequirementChanged(conf: Option<Store>, fs: FileTimes): (r: Result<bool, Error>)
    ensures PROJECT_DETAILS !in ReadConfigurationFile(conf) ==> r == Ok(true)
    ensures var c := ReadConfigurationFile(conf);
      r == Ok(false) <==>
        PROJECT_DETAILS in c && MTIME_OPTION in c[PROJECT_DETAILS] && REQUIREMENTS_FILE in fs
        && ParseInt(c[PROJECT_DETAILS][MTIME_OPTION]) == Some(fs[REQUIREMENTS_FILE])
    ensures var c := ReadConfigurationFile(conf);
      r == Ok(true) <==>
        PROJECT_DETAILS !in c
        || (MTIME_OPTION in c[PROJECT_DETAILS] && REQUIREMENTS_FILE in fs
            && ParseInt(c[PROJECT_DETAILS][MTIME_OPTION]).Some?
            && ParseInt(c[PROJECT_DETAILS][MTIME_OPTION]).value != fs[REQUIREMENTS_FILE])
    ensures var c := ReadConfigurationFile(conf);
      r.Err? ==>
        PROJECT_DETAILS in c
        && (r.error == KeyError(MTIME_OPTION) <==> MTIME_OPTION !in c[PROJECT_DETAILS])
        && (r.error.ValueError? <==>
              MTIME_OPTION in c[PROJECT_DETAILS] && ParseInt(c[PROJECT_DETAILS][MTIME_OPTION]).None?)
        && (r.error == FileNotFoundError(REQUIREMENTS_FILE) <==>
              MTIME_OPTION in c[PROJECT_DETAILS] && ParseInt(c[PROJECT_DETAILS][MTIME_OPTION]).Some?)
  {
    var configuration := ReadConfigurationFile(conf);
    if PROJECT_DETAILS !in configuration then Ok(true)
    else if MTIME_OPTION !in configuration[PROJECT_DETAILS] then Err(KeyError(MTIME_OPTION))
    else
      var text := configuration[PROJECT_DETAILS][MTIME_OPTION];
      match ParseInt(text)
      case None => Err(ValueError(text))
      case Some(recorded) =>
        match GetFileModifiedTime(fs, REQUIREMENTS_FILE)
        case Err(e) => Err(e)
        case Ok(current) => Ok(current - recorded != 0)
  }

  /**
   * The configuration that recording the mtime of `path` writes back: the
   * file is stat'ed first (a missing file raises and nothing is written);
   * then PROJECT_DETAILS is added if absent, its mtime option is set to the
   * decimal text of the mtime, and every other section and option is kept.
   */
  function RecordModifiedTime(conf: Option<Store>, fs: FileTimes, path: string): (r: Result<Store, Error>)
    ensures r.Ok? <==> path in fs
    ensures r.Err? ==> r.error == FileNotFoundError(path)
    ensures var before := ReadConfigurationFile(conf);
      r.Ok? ==>
        && r.value.Keys == before.Keys + {PROJECT_DETAILS}
        && MTIME_OPTION in r.value[PROJECT_DETAILS]
        && r.value[PROJECT_DETAILS][MTIME_OPTION] == IntToString(fs[path])
        && (forall s :: s in before && s != PROJECT_DETAILS ==> r.value[s] == before[s])
    ensures var before := ReadConfigurationFile(conf);
      r.Ok? && PROJECT_DETAILS in before ==>
        && r.value[PROJECT_DETAILS].Keys == before[PROJECT_DETAILS].Keys + {MTIME_OPTION}
        && (forall o :: o in before[PROJECT_DETAILS] && o != MTIME_OPTION ==>
              r.value[PROJECT_DETAILS][o] == before[PROJECT_DETAILS][o])
    ensures var before := ReadConfigurationFile(conf);
      r.Ok? && PROJECT_DETAILS !in before ==>
        r.value[PROJECT_DETAILS] == map[MTIME_OPTION := IntToString(fs[path])]
  {
    match GetFileModifiedTime(fs, path)
    case Err(e) => Err(e)
    case Ok(mtime) =>
      var parser := ReadConfigurationFile(conf);
      var withSection := if PROJECT_DETAILS in parser then parser else parser[PROJECT_DETAILS := map[]];
      Ok(SetOption(withSection, PROJECT_DETAILS, MTIME_OPTION, IntToString(mtime)))
  }

  /**
   * After recording the mtime of `path`, the change check compares exactly
   * that mtime with the manifest's current one.
   */
  lemma RecordThenCheck(conf: Option<Store>, fs: FileTimes, path: string)
    requires path in fs && REQUIREMENTS_FILE in fs
    ensures RecordModifiedTime(conf, fs, path).Ok?
    ensures RequirementChanged(Some(RecordModifiedTime(conf, fs, path).value), fs)
            == Ok(fs[path] != fs[REQUIREMENTS_FILE])
  {
    ParseIntToString(fs[path]);
  }

  /** Round trip: record the manifest's mtime, leave the file alone, and it reads as unchanged. */
  lemma RecordThenUnchanged(conf: Option<Store>, fs: FileTimes)
    requires REQUIREMENTS_FILE in fs
    ensures RecordModifiedTime(conf, fs, REQUIREMENTS_FILE).Ok?
    ensures RequirementChanged(Some(RecordModifiedTime(conf, fs, REQUIREMENTS_FILE).value), fs) == Ok(false)
  {
    RecordThenCheck(conf, fs, REQUIREMENTS_FILE);
  }

  /**
   * Record the manifest's mtime, then give the manifest any other mtime
   * (newer or older): it reads as changed.
   */
  lemma RecordThenTouched(conf: Option<Store>, fs: FileTimes, mtime: int)
    requires REQUIREMENTS_FILE in fs && mtime != fs[REQUIREMENTS_FILE]
    ensures RecordModifiedTime(conf, fs, REQUIREMENTS_FILE).Ok?
    ensures RequirementChanged(Some(RecordModifiedTime(conf, fs, REQUIREMENTS_FILE).value),
                               fs[REQUIREMENTS_FILE := mtime]) == Ok(true)
  {
    ParseIntToString(fs[REQUIREMENTS_FILE]);
  }

  /** Recording the same file twice leaves the configuration as recording it once. */
  lemma RecordIdempotent(conf: Option<Store>, fs: FileTimes, path: string)
    requires path in fs
    ensures var once := RecordModifiedTime(conf, fs, path);
      once.Ok? && RecordModifiedTime(Some(once.value), fs, path) == once
  {
    var once := RecordModifiedTime(conf, fs, path).value;
    var twice := RecordModifiedTime(Some(once), fs, path).value;
    assert twice[PROJECT_DETAILS] == once[PROJECT_DETAILS];
    assert twice == once;
  }

  /** A fresh project directory has no configuration file, so the manifest counts as changed. */
  lemma FreshProjectChanged(fs: FileTimes)
    ensures ReadConfigurationFile(None) == map[]
    ensures RequirementChanged(None, fs) == Ok(true)
  {
  }

  /** Recorded mtime 1000 against a manifest at 1000 is unchanged; touched to 1001 it is changed. */
  lemma TouchScenario()
    ensures var conf := Some(map[PROJECT_DETAILS := map[MTIME_OPTION := "1000"]]);
      && RequirementChanged(conf, map[REQUIREMENTS_FILE := 1000]) == Ok(false)
      && RequirementChanged(conf, map[REQUIREMENTS_FILE := 1001]) == Ok(true)
  {
    ParseIntToString(1000);
    assert IntToString(1000) == "1000" by {
      assert NatToString(1) == "1";
      assert NatToString(10) == "10";
      assert NatToString(100) == "100";
    }
  }
}
