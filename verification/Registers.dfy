/** Arithmetic in an 8-bit register and the number the register holds. */
module Registers {

  function Value(x: bv8): (r: nat) { x as int }

  function Plus(x: bv8, y: bv8): bv8 { x + y }

  function Less(x: bv8): bv8 { x - 1 }

  function Rotated(x: bv8): bv8 { x.RotateRight(1) }

  lemma RotatedIs(x: bv8)
    ensures Value(Rotated(x)) == Value(x) / 2 + if Value(x) % 2 == 1 then 0x80 else 0
  {
  }

  lemma IncIs(x: bv8)
    ensures Value(Plus(x, 1)) == (Value(x) + 1) % 256
  {
  }

  lemma LessIs(x: bv8)
    requires x != 0
    ensures Value(Less(x)) == Value(x) - 1
  {
  }

  lemma PlusSteps(x: bv8, y: bv8)
    ensures Plus(Plus(x, Less(y)), 1) == Plus(x, y) && Plus(x, 0) == x && Value(0) == 0 && Value(x) < 256
  {
  }

  /** Addition drops the carry. */
  lemma {:induction false} PlusIs(x: bv8, y: bv8)
    ensures Value(Plus(x, y)) == (Value(x) + Value(y)) % 256
    decreases Value(y)
  {
    hide Value, Plus, Less;
    PlusSteps(x, y);
    if y != 0 {
      LessIs(y);
      PlusIs(x, Less(y));
      IncIs(Plus(x, Less(y)));
      CarryDrops(Value(x) + Value(y) - 1);
    }
  }

  lemma CarryDrops(n: int)
    ensures (n % 256 + 1) % 256 == (n + 1) % 256
  {
  }

  /** The register after counting up to `n` from zero. */
  function Counted(n: nat): bv8 { if n == 0 then 0 else Plus(Counted(n - 1), 1) }

  lemma {:induction false} CountedIs(n: nat)
    requires n < 256
    ensures Value(Counted(n)) == n
  {
    hide Value, Plus;
    if n == 0 {
      PlusSteps(0, 0);
    } else {
      CountedIs(n - 1);
      IncIs(Counted(n - 1));
    }
  }
}
