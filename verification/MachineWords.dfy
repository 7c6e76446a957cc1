/** The unsigned machine integers of the program and their wrap-around. */
module MachineWords {
  import opened ModularIndex

  const TWO32: nat := 0x1_0000_0000
  const TWO64: nat := 0x1_0000_0000_0000_0000

  type uint32 = x: int | 0 <= x < 0x1_0000_0000
  type uint64 = x: int | 0 <= x < 0x1_0000_0000_0000_0000

  function Wrap(x: int): uint64 {
    x % 0x1_0000_0000_0000_0000
  }

  lemma WrapTurns(a: int, c: int)
    ensures Wrap(a + c * 0x1_0000_0000_0000_0000) == Wrap(a)
  {
    AddMultiple(a, c, 0x1_0000_0000_0000_0000);
  }

  lemma WrapSum(a: int, b: int)
    ensures Wrap(Wrap(a) + b) == Wrap(a + b)
    ensures Wrap(a - Wrap(b)) == Wrap(a - b)
  {
    WrapTurns(Wrap(a) + b, a / 0x1_0000_0000_0000_0000);
    WrapTurns(a - b, b / 0x1_0000_0000_0000_0000);
  }

  /** An unsigned 32-bit counter that has been incremented x times. */
  function Wrap32(x: nat): uint32 {
    Rem(x, 0x1_0000_0000)
  }

  lemma CountedOnce(k: nat)
    ensures Wrap32(Wrap32(k) + 1) == Wrap32(k + 1)
  {
    RemSuccessor(k, 0x1_0000_0000);
  }
}
