/** Values held by the configuration store, the resolver's error taxonomy and the
    result wrappers shared by the other modules. */
module ConfigValues {

  datatype Option<+T> = None | Some(value: T)

  /** A value parsed from a TOML configuration file. Floats and date-times are kept
      as opaque tokens: nothing in the configuration layer computes with them.
      `Null` stands for Python's `None` stored under a key. */
  datatype Value =
    | Table(entries: map<string, Value>)
    | Str(text: string)
    | Integer(i: int)
    | Float(repr: string)
    | Boolean(b: bool)
    | DateTime(repr: string)
    | Array(items: seq<Value>)
    | Null

  /** Why resolving a data path failed. */
  datatype ConfigError =
    /** NotValidConfigDataPathException: declared, but never raised for a string path. */
    | NotValidConfigDataPath
    /** NotExistsInConfigException: carries the whole data path that was asked for. */
    | NotExistsInConfig(dataPath: string)
    /** Python's AttributeError: `.get` was called on something that is not a table
        (a scalar, an array, or the `None` of a store that was never loaded). */
    | NoGetAttribute
    /** Python's ValueError from `str.split` with an empty separator. */
    | EmptySeparator

  datatype Result<+T> = Ok(value: T) | Err(error: ConfigError)

  /** The text the exception classes give their messages. */
  function Message(e: ConfigError): (msg: string)
    ensures e.NotExistsInConfig? ==>
              |msg| > 29 + |e.dataPath| && msg[29..29 + |e.dataPath|] == e.dataPath
  {
    match e
    case NotValidConfigDataPath => "The data path for the loaded config is not valid."
    case NotExistsInConfig(p) => "The config value searched at " + p + " does not exist."
    case NoGetAttribute => "object has no attribute 'get'"
    case EmptySeparator => "empty separator"
  }

  /** Python's `dict.get(key)`: the stored value, or `None` when the key is absent. */
  function Get(entries: map<string, Value>, key: string): Value
  {
    if key in entries then entries[key] else Null
  }
}
