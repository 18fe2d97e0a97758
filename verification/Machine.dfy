/** Machine integers of the modelled program, for a 64-bit target.
    Every local variable of type `usize` or `u64` carries a range check, so an
    addition or subtraction stored in one is proved not to wrap. */
module Machine {

  const TWO_TO_THE_64: int := 0x1_0000_0000_0000_0000
  const USIZE_MAX: int := TWO_TO_THE_64 - 1

  type byte = x: int | 0 <= x < 256
  type u64 = x: int | 0 <= x < TWO_TO_THE_64
  type usize = x: int | 0 <= x < TWO_TO_THE_64

  datatype Option<+T> = None | Some(value: T)

  /** The sign of a three-way comparison of two numbers. */
  function CompareInt(x: int, y: int): int {
    if x < y then -1 else if x > y then 1 else 0
  }

  /** Does the 64-bit number `a` not exceed the size `b`?  The quotients guard
      against a size wider than 64 bits. */
  function U64LteSizet(a: u64, b: usize): (r: bool)
    ensures r <==> a <= b
  {
    var q1 := b / 32768;
    var q2 := q1 / 32768;
    var q3 := q2 / 32768;
    var q4 := q3 / 32768;
    q4 >= 16 || a <= b
  }

  /** Does a size fit into 64 bits? */
  function SizetFitsU64(b: usize): (r: bool)
    ensures r
  {
    var q1 := b / 32768;
    var q2 := q1 / 32768;
    var q3 := q2 / 32768;
    var q4 := q3 / 32768;
    q4 < 16
  }
}
