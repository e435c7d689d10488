/** A single configuration value, as ModConfig sees it: an immutable declaration (path, comment,
    restart and sync flags, type and default) plus the stored value and an optional synced override. */
module Values {
  import opened Outcomes

  /** The four kinds of value the builder can declare, each with its default. */
  datatype Entry =
    | BooleanEntry(defaultBool: bool)
    | IntegerEntry(defaultInt: int, minInt: int, maxInt: int)
    | FloatingEntry(defaultReal: real, minReal: real, maxReal: real)
    | EnumEntry(defaultOrdinal: nat, constants: seq<string>)

  /** A runtime value of one of the four kinds. */
  datatype Value = BooleanValue(b: bool) | IntegerValue(i: int) | FloatingValue(r: real) | EnumValue(ordinal: nat)

  function DefaultOf(e: Entry): Value {
    match e
    case BooleanEntry(b) => BooleanValue(b)
    case IntegerEntry(i, _, _) => IntegerValue(i)
    case FloatingEntry(r, _, _) => FloatingValue(r)
    case EnumEntry(o, _) => EnumValue(o)
  }

  /** What the builder fixes when it creates a value; none of it changes afterwards. */
  datatype Declaration = Declaration(path: string, comment: string, restart: bool, sync: bool, entry: Entry)

  /** The persistence backend: given a path and whether this is the initial update, the value it holds. */
  type Backend = (string, bool) -> Value

  datatype ConfigValue = ConfigValue(decl: Declaration, stored: Value, override: Option<Value>) {

    /** The effective value: the synced override when there is one, otherwise the stored value. */
    function Get(): Value {
      if override.Some? then override.value else stored
    }

    /** Re-reads the stored value from the backend; the override is kept. */
    function UpdateValue(initial: bool, read: Backend): (v: ConfigValue)
      ensures v.decl == decl && v.override == override
      ensures v.stored == read(decl.path, initial)
      ensures override.None? ==> v.Get() == read(decl.path, initial)
    {
      this.(stored := read(decl.path, initial))
    }

    function SetSyncedValue(x: Value): (v: ConfigValue)
      ensures v.decl == decl && v.stored == stored
      ensures v.Get() == x && v.override == Some(x)
    {
      this.(override := Some(x))
    }

    function ClearSyncedValue(): (v: ConfigValue)
      ensures v.decl == decl && v.stored == stored
      ensures v.Get() == stored && v.override.None?
    {
      this.(override := None)
    }
  }

  /** A value as the builder creates it: stored value = default, no override. */
  function NewValue(d: Declaration): (v: ConfigValue)
    ensures v.decl == d && v.Get() == DefaultOf(d.entry) && v.override.None?
  {
    ConfigValue(d, DefaultOf(d.entry), None)
  }
}
