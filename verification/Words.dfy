/** Machine words and the page size shared by every part of the kernel model. */
module Words {

  const PAGE_SIZE := 4096
  const TWO32 := 0x1_0000_0000

  /** The value a 32-bit unsigned variable keeps of the integer `x`. */
  function Wrap(x: int): (r: nat)
    ensures r < 0x1_0000_0000
    decreases if x < 0 then 0x1_0000_0000 - x else x
  {
    if x < 0 then Wrap(x + 0x1_0000_0000)
    else if x < 0x1_0000_0000 then x
    else Wrap(x - 0x1_0000_0000)
  }

  /** A 32-bit sum may be wrapped at every step or once at the end. */
  lemma {:induction false} WrapSum(x: int, y: int)
    ensures Wrap(Wrap(x) + y) == Wrap(x + y)
    decreases if x < 0 then 0x1_0000_0000 - x else x
  {
    if x < 0 {
      WrapSum(x + 0x1_0000_0000, y);
      WrapPeriod(x + y);
    } else if x >= 0x1_0000_0000 {
      WrapSum(x - 0x1_0000_0000, y);
      WrapPeriod(x + y - 0x1_0000_0000);
    }
  }

  lemma WrapPeriod(x: int)
    ensures Wrap(x + 0x1_0000_0000) == Wrap(x)
  {
  }

  lemma {:induction false} WrapDifference(x: int, y: int)
    ensures Wrap(x - Wrap(y)) == Wrap(x - y)
    decreases if y < 0 then 0x1_0000_0000 - y else y
  {
    if y < 0 {
      WrapDifference(x, y + 0x1_0000_0000);
      WrapPeriod(x - y - 0x1_0000_0000);
    } else if y >= 0x1_0000_0000 {
      WrapDifference(x, y - 0x1_0000_0000);
      WrapPeriod(x - y);
    }
  }

  /** `(x + PAGE_SIZE - 1) & ~(PAGE_SIZE - 1)` in 32-bit arithmetic. */
  function PageAlign(x: nat): nat {
    Wrap(x + 4095) / 4096 * 4096
  }

  /** A subset is no larger. */
  lemma SmallerSet(a: set<nat>, b: set<nat>)
    requires a <= b
    ensures |a| <= |b|
    decreases a
  {
    if x :| x in a {
      SmallerSet(a - {x}, b - {x});
    }
  }

  datatype Option<+T> = None | Some(value: T)
}
