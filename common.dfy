/** Small value types shared by every part of the model. */
module Common {

  /** A reference that may be absent (Java `null`). */
  datatype Option<T> = None | Some(value: T)

  /** An integer coordinate pair (Java `Point2D` / `java.awt.Point`): `x` is the row, `y` the column. */
  datatype Pos = Pos(x: int, y: int)

  function Abs(n: int): (a: nat)
    ensures a == n || a == -n
  {
    if n < 0 then -n else n
  }

  /** The elements of a sequence, as a set. */
  ghost function Elems<T>(s: seq<T>): set<T>
  {
    set x | x in s
  }

  /** No element occurs twice. */
  ghost predicate Distinct<T>(s: seq<T>)
  {
    forall i, j :: 0 <= i < j < |s| ==> s[i] != s[j]
  }

  /** Both coordinates odd: the lattice the Prim carvings keep their passage cells on. */
  predicate Odd(p: Pos)
  {
    p.x % 2 == 1 && p.y % 2 == 1
  }

  /** Manhattan distance between two positions. */
  function Manhattan(r1: int, c1: int, r2: int, c2: int): nat
  {
    Abs(r1 - r2) + Abs(c1 - c2)
  }

  /** Java's `/` on `int`: the quotient truncated toward zero. */
  function JavaDiv(a: int, b: int): (q: int)
    requires b != 0
    ensures a >= 0 && b > 0 ==> q == a / b
  {
    if a >= 0 then (if b > 0 then a / b else -(a / -b))
    else if b > 0 then -((-a) / b) else (-a) / (-b)
  }

  /** Java's `%` on `int`: the remainder takes the sign of the dividend. */
  function JavaMod(a: int, b: int): (m: int)
    requires b != 0
    ensures a == JavaDiv(a, b) * b + m
    ensures a >= 0 ==> 0 <= m < Abs(b)
    ensures a < 0 ==> 0 < m + Abs(b) && m <= 0
  {
    a - JavaDiv(a, b) * b
  }
}
