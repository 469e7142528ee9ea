/**
 * The project directory the helpers work in: the lamlight configuration file
 * (absent, or holding a store) and the mtimes of the files around it.  The
 * two helpers that write the configuration file are methods that replace it.
 */
module ProjectDir {
  import opened Wrappers
  import opened ConfigStore
  import opened IntText
  import opened ChangeDetector

  class Project {
    /** Contents of the configuration file; `None` while the file does not exist. */
    var conf: Option<Store>
    /** The mtime of every existing file, by path. */
    var fs: FileTimes

    constructor (conf: Option<Store>, fs: FileTimes)
      ensures this.conf == conf && this.fs == fs
    {
      this.conf := conf;
      this.fs := fs;
    }

    /**
     * Binds the project to a lambda function.  The file is opened for writing,
     * and so emptied, before the function name is looked up: when the
     * information lacks it, an empty configuration is left behind and
     * KeyError is raised.  Otherwise the whole file is replaced by the single
     * LAMBDA_FUNCTION section, so any recorded dependency state is discarded.
     */
    method SaveLamlightConf(info: map<string, string>) returns (r: Result<(), Error>)
      modifies this
      ensures fs == old(fs)
      ensures r.Ok? <==> FUNCTION_NAME_FIELD in info
      ensures r.Err? ==> r.error == KeyError(FUNCTION_NAME_FIELD) && conf == Some(map[])
      ensures r.Ok? ==>
        conf == Some(map[LAMBDA_FUNCTION := map[FUNCTION_NAME_OPTION := info[FUNCTION_NAME_FIELD]]])
      ensures RequirementChanged(conf, fs) == Ok(true)
    {
      conf := Some(map[]);
      var parser: Store := map[];
      parser := parser[LAMBDA_FUNCTION := map[]];
      if FUNCTION_NAME_FIELD !in info {
        return Err(KeyError(FUNCTION_NAME_FIELD));
      }
      parser := parser[LAMBDA_FUNCTION := parser[LAMBDA_FUNCTION][FUNCTION_NAME_OPTION := info[FUNCTION_NAME_FIELD]]];
      assert parser == map[LAMBDA_FUNCTION := map[FUNCTION_NAME_OPTION := info[FUNCTION_NAME_FIELD]]] by {
        assert parser[LAMBDA_FUNCTION] == map[FUNCTION_NAME_OPTION := info[FUNCTION_NAME_FIELD]];
      }
      conf := Some(parser);
      r := Ok(());
    }

    /**
     * Records the current mtime of `path` in PROJECT_DETAILS: stat the file
     * (a missing file raises and nothing is written), load the configuration,
     * add the section if it is absent, set the option and write the store back.
     */
    method UpdateLastModifiedTime(path: string) returns (r: Result<(), Error>)
      modifies this
      ensures fs == old(fs)
      ensures r.Ok? <==> path in fs
      ensures r.Err? ==> r.error == FileNotFoundError(path) && conf == old(conf)
      ensures r.Ok? ==> conf == Some(RecordModifiedTime(old(conf), fs, path).value)
      ensures r.Ok? ==> conf.Some? && PROJECT_DETAILS in conf.value
                        && MTIME_OPTION in conf.value[PROJECT_DETAILS]
                        && conf.value[PROJECT_DETAILS][MTIME_OPTION] == IntToString(fs[path])
      ensures r.Ok? && path == REQUIREMENTS_FILE ==> RequirementChanged(conf, fs) == Ok(false)
    {
      var stat := GetFileModifiedTime(fs, path);
      if stat.Err? {
        return Err(stat.error);
      }
      var parser := ReadConfigurationFile(conf);
      if PROJECT_DETAILS !in parser {
        parser := parser[PROJECT_DETAILS := map[]];
      }
      parser := SetOption(parser, PROJECT_DETAILS, MTIME_OPTION, IntToString(stat.value));
      conf := Some(parser);
      if path == REQUIREMENTS_FILE {
        RecordThenUnchanged(old(conf), fs);
      }
      r := Ok(());
    }
  }
}
