/** Optional values, error numbers and the width of an unsigned int. */
module MapTypes {
  const EEXIST: int := 17
  const ENOMEM: int := 12
  const UINT_MOD: nat := 0x1_0000_0000   // unsigned int

  /** A counter kept modulo the word size steps with the count it stands for. */
  lemma NextTid(tid: nat, epoch: nat)
    requires tid == (1 + epoch) % UINT_MOD
    ensures (tid + 1) % UINT_MOD == (2 + epoch) % UINT_MOD
  {
  }

  datatype Option<+T> = None | Some(value: T)
}
