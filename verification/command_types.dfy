/** The values a command registry is made of: keys, entries, and the
    outcomes of the two library services it relies on (regular-expression
    matching and value conversion), which the model takes as parameters. */
module CommandTypes {

  datatype Option<+T> = None | Some(value: T) {
    /** The value, or `default` when there is none. */
    function GetOr(default: T): T {
      match this
      case Some(v) => v
      case None => default
    }
  }

  /** The ValueError that `type_check` raises, with what its message reports. */
  datatype ValueError =
    | ArityError(given: nat)                         // no target types, yet groups were captured
    | ConversionFailed(item: string, target: TypeId) // a conversion raised

  datatype Result<+T> = Ok(value: T) | Err(error: ValueError)

  /** A compiled regular expression; two keys compare equal exactly when their ids do. */
  type PatternId = nat
  /** A conversion target (`int`, `float`, `bool`, `str` or a user callable). */
  type TypeId = nat
  /** A registered handler. */
  type HandlerId = nat
  /** A Python object produced by a conversion. */
  type Value = nat

  /** A command key: a compiled pattern, or a literal command string. */
  datatype Key = Pattern(id: PatternId) | Literal(text: string)

  /** One registered command: its key, its target types (or none), its handler. */
  datatype Entry = Entry(key: Key, types: Option<seq<TypeId>>, handler: HandlerId)

  /** What converting one captured group to one target type does: raise, or
      produce a value, where Python's `None` is `Produced(None)`. */
  datatype ConvertOutcome = Raised | Produced(result: Option<Value>)

  /** `pattern.match(command)`: `None` when it does not match, otherwise the captured groups. */
  type Matcher = (PatternId, string) -> Option<seq<string>>

  /** Converting a captured group to a target type. */
  type Converter = (TypeId, string) -> ConvertOutcome
}
