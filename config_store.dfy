/**
 * The lamlight project configuration, as the INI parser sees it: a map from
 * section name to a map from option name to string value.  The configuration
 * file on disk is an `Option<Store>`: `None` when the file does not exist.
 */
module ConfigStore {
  import opened Wrappers

  type Section = map<string, string>
  type Store = map<string, Section>

  /** Section written when the project is bound to a lambda function. */
  const LAMBDA_FUNCTION: string := "LAMBDA_FUNCTION"
  /** Option of LAMBDA_FUNCTION holding the function name (spelled as in the code). */
  const FUNCTION_NAME_OPTION: string := "funtionname"
  /** Key of the lambda information dictionary that carries the function name. */
  const FUNCTION_NAME_FIELD: string := "FunctionName"
  /** Section that records the dependency state of the project. */
  const PROJECT_DETAILS: string := "PROJECT_DETAILS"
  /** Option of PROJECT_DETAILS holding the recorded manifest mtime. */
  const MTIME_OPTION: string := "last_requirement_mtime"
  /** The dependency manifest whose mtime drives change detection. */
  const REQUIREMENTS_FILE: string := "requirements.txt"

  /** The Python exceptions the core can raise. */
  datatype Error =
    | KeyError(key: string)
    | ValueError(text: string)
    | FileNotFoundError(path: string)

  /**
   * Reading the configuration file: the stored sections when the file exists,
   * and an empty configuration (no sections) when it does not.
   */
  function ReadConfigurationFile(file: Option<Store>): (s: Store)
    ensures file.None? ==> s == map[]
    ensures file.Some? ==> s == file.value
  {
    match file
    case None => map[]
    case Some(stored) => stored
  }

  /**
   * The parser's `set(section, option, value)` on an existing section: the
   * option takes the new value, and every other section and every other option
   * of that section keeps its value.
   */
  function SetOption(store: Store, section: string, option: string, value: string): (r: Store)
    requires section in store
    ensures r.Keys == store.Keys
    ensures forall s :: s in store && s != section ==> r[s] == store[s]
    ensures r[section].Keys == store[section].Keys + {option}
    ensures r[section][option] == value
    ensures forall o :: o in store[section] && o != option ==> r[section][o] == store[section][o]
  {
    store[section := store[section][option := value]]
  }
}
