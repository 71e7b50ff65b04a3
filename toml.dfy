/** The TOML document tree as the manifest engine sees it, and the small
    failure-carrying wrappers every fallible operation returns. */
module Toml {

  datatype Option<+T> = None | Some(value: T)

  datatype Result<+T, +E> = Ok(value: T) | Err(error: E)

  /** The result of an operation that returns `Result<(), E>`. */
  datatype Outcome<+E> = Pass | Fail(error: E)

  /** A TOML value. Only strings and tables matter to the dependency engine;
      integers, floats, booleans, datetimes and arrays are kept as an opaque
      token so that two different ones stay different. */
  datatype Value =
    | Str(s: string)
    | Table(t: map<string, Value>)
    | Other(text: string)

  /** `toml::value::Table`. The source's table is a `BTreeMap`, whose key
      order is the sorted order; no operation modelled here depends on it. */
  type TomlTable = map<string, Value>

  /** The entry under `k`, if any. */
  function Get(t: TomlTable, k: string): Option<Value> {
    if k in t then Some(t[k]) else None
  }
}
