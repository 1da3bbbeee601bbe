/** The types and small functions shared by the modules of the model. */
module Wrappers {

  /** An inode number. */
  type Ino = nat

  datatype Option<+T> = None | Some(value: T)

  datatype Result<+T, +E> = Ok(value: T) | Err(error: E)

  function Min(a: int, b: int): (m: int)
    ensures m <= a && m <= b && (m == a || m == b)
  {
    if a <= b then a else b
  }

  function Max(a: int, b: int): (m: int)
    ensures m >= a && m >= b && (m == a || m == b)
  {
    if a >= b then a else b
  }

  /** `Instant::duration_since` saturates at zero. */
  function Elapsed(now: int, since: int): nat {
    if now >= since then now - since else 0
  }
}
