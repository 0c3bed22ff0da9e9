/** The loosely typed records the parsers pass around: dictionaries from field names to arbitrary values. */
module Values {

  /** None, a string, the constant True, or any other value, known by its truth value and its printed form. */
  datatype Value =
    | Null
    | Text(text: string)
    | True
    | Other(truthy: bool, shown: string)
  {
    predicate Truthy() {
      match this
      case Null => false
      case Text(s) => s != ""
      case True => true
      case Other(b, _) => b
    }

    /** What str() prints. */
    function Show(): string {
      match this
      case Null => "None"
      case Text(s) => s
      case True => "True"
      case Other(_, s) => s
    }

    /** Neither None nor the empty string. */
    predicate Filled() {
      this != Null && this != Text("")
    }
  }

  type Item = map<string, Value>

  function Get(item: Item, key: string): Value {
    if key in item then item[key] else Null
  }

  /** Python's `item.get(a) or item.get(b)`. */
  function GetOr(item: Item, a: string, b: string): Value {
    if Get(item, a).Truthy() then Get(item, a) else Get(item, b)
  }
}
