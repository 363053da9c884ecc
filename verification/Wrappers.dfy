/** Notions that several modules share: a value that may be missing, bytes, lists without repetition, and division in C. */
module Wrappers {
  datatype Option<+T> = None | Some(value: T)
}

module Octets {
  type Byte = x: int | 0 <= x < 0x100
}

module Sequences {
  ghost predicate Distinct(s: seq<nat>) {
    forall i, j :: 0 <= i < j < |s| ==> s[i] != s[j]
  }

  /** The k-th element, and a value of its own behind the last. */
  function Nth<T>(s: seq<T>, k: nat, none: T): T {
    if k < |s| then s[k] else none
  }
}

module Division {
  function Abs(a: int): nat {
    if a < 0 then -a else a
  }

  /** The quotient of the magnitudes with the sign of the product: it truncates toward zero. */
  function TruncDiv(a: int, b: int): int
    requires b != 0
  {
    if (a < 0) == (b < 0) then Abs(a) / Abs(b) else -(Abs(a) / Abs(b))
  }

  /** The remainder with the sign of the dividend. */
  function TruncMod(a: int, b: int): int
    requires b != 0
  {
    if a < 0 then -(Abs(a) % Abs(b)) else Abs(a) % Abs(b)
  }
}
