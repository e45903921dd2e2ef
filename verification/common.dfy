/** Shared vocabulary: machine integers, failure-compatible wrappers, and the
    small string and path predicates the rest of the model relies on. */
module Common {

  newtype byte = x: int | 0 <= x < 0x100
  newtype uint8 = x: int | 0 <= x < 0x100
  newtype uint64 = x: int | 0 <= x < 0x1_0000_0000_0000_0000

  type Bytes = seq<byte>
  type Path = string

  /** A node identifier: the BLAKE2b-256 digest of its public keys. */
  type NodeId = Bytes
  type Digest = Bytes

  datatype Option<+T> = None | Some(value: T) {
    function GetOr(default: T): T {
      match this
      case Some(v) => v
      case None => default
    }
  }

  datatype Result<+T, +E> = Ok(value: T) | Err(error: E) {
    predicate IsFailure() {
      Err?
    }

    function PropagateFailure<U>(): Result<U, E>
      requires Err?
    {
      Err(error)
    }

    function Extract(): T
      requires Ok?
    {
      value
    }
  }

  /** A path is absolute when it starts at the root, as path.IsAbs decides it. */
  predicate IsAbs(p: Path) {
    |p| > 0 && p[0] == '/'
  }

  predicate HasSuffix(s: string, suffix: string) {
    |suffix| <= |s| && s[|s| - |suffix|..] == suffix
  }

  function TrimSuffix(s: string, suffix: string): (r: string)
    ensures HasSuffix(s, suffix) ==> r + suffix == s
    ensures !HasSuffix(s, suffix) ==> r == s
  {
    if HasSuffix(s, suffix) then s[..|s| - |suffix|] else s
  }

  /** Go's string(b): one character per byte. */
  function Str(b: Bytes): (s: string)
    ensures |s| == |b|
  {
    seq(|b|, i requires 0 <= i < |b| => (b[i] as int) as char)
  }

  /** The path-manipulation functions of the standard library (Clean, Join, Dir,
      Base) are not modelled; they are supplied as uninterpreted functions. */
  datatype PathOps = PathOps(
    clean: Path -> Path,
    join: (Path, Path) -> Path,
    dir: Path -> Path,
    base: Path -> Path
  )
}
