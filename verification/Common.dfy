/** Small definitions that several parts share. */
module Common {
  datatype Option<+T> = None | Some(value: T)

  /** math.Ceil. */
  function Ceil(x: real): int { -((-x).Floor) }

  function NonNegative(v: int): int { if v < 0 then 0 else v }

  /** What indexing a Go map of strings yields. */
  function At(m: map<string, string>, k: string): string { if k in m then m[k] else "" }
}
