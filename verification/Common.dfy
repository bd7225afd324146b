// Limits of the C types and what every part of the model uses.
module Common {
  const U32 := 0x1_0000_0000
  const UINT_MAX := 0xffff_ffff
  const INT_MAX := 0x7fff_ffff

  // The longest a character can be, in bytes or columns.
  const UTF8_SIZE := 9

  datatype Option<+T> = None | Some(value: T)

  function Min(a: int, b: int): int {
    if a <= b then a else b
  }

  function Max(a: int, b: int): int {
    if a <= b then b else a
  }

  // Arithmetic on u_int.
  function Wrap(x: int): nat {
    x % U32
  }

  lemma Wraps(x: int)
    requires -U32 <= x < U32
    ensures Wrap(x) == if 0 <= x then x else x + U32
  {
  }

  // A u_int taken as an int.
  function Signed(x: int): int {
    if Wrap(x) < U32 / 2 then Wrap(x) else Wrap(x) - U32
  }

  lemma SignedIs(x: int)
    requires -U32 / 2 <= x < U32 / 2
    ensures Signed(x) == x
  {
    Wraps(x);
  }
}
