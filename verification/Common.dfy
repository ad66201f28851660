/** What several components share: optional values, error numbers, machine word sizes. */
module Common {

  datatype Option<+T> = None | Some(value: T)

  const EAGAIN := 11
  const ENOMEM := 12
  const EFAULT := 14
  const EBUSY := 16
  const EINVAL := 22

  const MOD32 := 0x1_0000_0000
  const MOD64 := 0x1_0000_0000_0000_0000

  function Min(a: int, b: int): int {
    if a < b then a else b
  }

  function Max(a: int, b: int): int {
    if a < b then b else a
  }
}
