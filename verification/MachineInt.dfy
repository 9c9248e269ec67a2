/** The C++ integer operations that date.h relies on, over Dafny's unbounded `int`. */
module MachineInt {

  type short = x: int | -0x8000 <= x < 0x8000
  type uchar = x: int | 0 <= x < 0x100
  type int32 = x: int | -0x8000_0000 <= x < 0x8000_0000
  type uint32 = x: int | 0 <= x < 0x1_0000_0000

  /** Division that truncates toward zero. */
  function TruncDiv(a: int, b: int): int
    requires b > 0
  {
    if a >= 0 then a / b else -((-a) / b)
  }

  function ToShort(x: int): short {
    var r := x % 0x1_0000;
    if r < 0x8000 then r else r - 0x1_0000
  }

  function ToUchar(x: int): uchar {
    x % 0x100
  }

  function ToInt32(x: int): int32 {
    var r := x % 0x1_0000_0000;
    if r < 0x8000_0000 then r else r - 0x1_0000_0000
  }

  function ToUint32(x: int): uint32 {
    x % 0x1_0000_0000
  }

  lemma SmallUint32(x: int)
    requires 0 <= x < 0x1_0000_0000
    ensures ToUint32(x) == x
  {
  }

  /** A negative number wraps to the top, and a number past the top to the bottom. */
  lemma WrappedUint32(x: int)
    requires 0 <= x < 0x1_0000_0000
    ensures ToUint32(x - 0x1_0000_0000) == x && ToUint32(x + 0x1_0000_0000) == x
  {
    DivUnique(x - 0x1_0000_0000, 0x1_0000_0000, -1, x);
    DivUnique(x + 0x1_0000_0000, 0x1_0000_0000, 1, x);
  }

  lemma SmallUchar(x: int)
    requires 0 <= x < 0x100
    ensures ToUchar(x) == x
  {
  }

  lemma WrapAndBack(a: int, b: int)
    requires 0 <= a < 0x4000_0000 && -0x4000_0000 <= b < 0x4000_0000
    ensures ToInt32(ToUint32(a + ToUint32(b))) == a + b
  {
  }

  lemma ShortFits(x: int)
    ensures ToShort(x) == x <==> -0x8000 <= x < 0x8000
  {
  }

  lemma ShortWraps(y: int)
    requires -0x7fff <= y <= 0x8000
    ensures ToShort(ToShort(y) - 1) == y - 1
  {
  }

  // ---------- facts about division ----------

  lemma DivStep(y: int, n: int)
    requires n > 0
    ensures (y + 1) / n == y / n + (if (y + 1) % n == 0 then 1 else 0)
  {
    var q, r := y / n, y % n;
    assert y == n * q + r;
    if r + 1 < n {
      DivUnique(y + 1, n, q, r + 1);
    } else {
      assert n * (q + 1) == n * q + n;
      DivUnique(y + 1, n, q + 1, 0);
    }
  }

  lemma DivUnique(x: int, n: int, q: int, r: int)
    requires n > 0 && x == n * q + r && 0 <= r < n
    ensures x / n == q && x % n == r
  {
    var q', r' := x / n, x % n;
    assert x == n * q' + r';
    assert n * (q' - q) == n * q' - n * q == r - r';
    SmallMultiple(n, q' - q);
  }

  lemma SmallMultiple(n: int, k: int)
    requires n > 0 && -n < n * k < n
    ensures k == 0
  {
    if k > 0 {
      MulNonneg(n, k - 1);
    } else if k < 0 {
      MulNonneg(n, -k - 1);
    }
  }

  lemma MulNonneg(a: nat, b: nat)
    ensures a * b >= 0
    ensures a * (b + 1) == a * b + a && a * -(b + 1) == -(a * b) - a
  {
  }

  lemma FloorByTruncation(y: int, n: int)
    requires n > 0
    ensures TruncDiv(if y >= 0 then y else y - (n - 1), n) == y / n
  {
    if y < 0 {
      var q, r := y / n, y % n;
      DivUnique(-(y - (n - 1)), n, -q, n - 1 - r);
    }
  }
}
