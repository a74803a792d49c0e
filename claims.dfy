/**
 * Claim values as the Python policy sees them: JSON-compatible values plus the
 * `datetime` values the policy itself stamps into a payload, and the durations
 * (`int` seconds or `datetime.timedelta`) it accepts for an expiration.
 * Python's truthiness, on which the policy branches, is spelled out.
 */
module Claims {

  /** A claim value. `Null` is Python's `None`; `Time` is a `datetime`,
      carried as whole seconds since the epoch. */
  datatype Value =
    | Null
    | Bool(b: bool)
    | Int(i: int)
    | Str(s: string)
    | Time(seconds: int)
    | List(items: seq<Value>)
    | Object(fields: map<string, Value>)
  {
    /** Python's `bool(v)`: `None`, `False`, `0`, `""`, `[]` and `{}` are
        falsy; every `datetime` is truthy. */
    predicate Truthy() {
      match this
      case Null => false
      case Bool(b) => b
      case Int(i) => i != 0
      case Str(s) => s != ""
      case Time(_) => true
      case List(items) => items != []
      case Object(fields) => fields != map[]
    }
  }

  /** A claims payload: a dictionary from claim name to value. */
  type Claims = map<string, Value>

  const Subject := "sub"
  const IssuedAt := "iat"
  const ExpiresAt := "exp"
  const Audience := "aud"

  /** The claim names the policy may stamp itself. */
  const Reserved: set<string> := {Subject, IssuedAt, ExpiresAt, Audience}

  /** A duration: a plain number of seconds, or a `datetime.timedelta`. */
  datatype Duration = Seconds(n: int) | Delta(seconds: int) {

    function TotalSeconds(): int {
      match this
      case Seconds(n) => n
      case Delta(s) => s
    }

    /** Both `0` and `timedelta(0)` are falsy. */
    predicate Truthy() {
      TotalSeconds() != 0
    }

    /** `timedelta(seconds=n)` for a plain number, the value itself for a
        `timedelta`: the `isinstance` conversion the policy applies. */
    function AsDelta(): (d: Duration)
      ensures d.Delta? && d.TotalSeconds() == TotalSeconds()
      ensures Delta? ==> d == this
    {
      match this
      case Seconds(n) => Delta(n)
      case Delta(_) => this
    }
  }
}
