/** Shared helpers: an optional value, the larger of two sizes, and joining strings. */
module Lists {

  datatype Option<+T> = None | Some(value: T)

  function Max(a: nat, b: nat): nat {
    if a >= b then a else b
  }

  /** Array.join. */
  function Join(parts: seq<string>, separator: string): string {
    if parts == [] then ""
    else if |parts| == 1 then parts[0]
    else parts[0] + separator + Join(parts[1..], separator)
  }
}
