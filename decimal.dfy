/** ffs_fromuint_10: decimal formatting of an unsigned 32-bit integer
    into a caller buffer of given capacity. */
module Decimal {
  import opened Bytes

  const Zero: byte := 0x30

  /** Decimal digits of i, most significant first, no leading zeros. */
  function Digits(i: nat): (s: seq<byte>)
    decreases i
  {
    if i < 10 then [Zero + i] else Digits(i / 10) + [Zero + i % 10]
  }

  predicate IsDigit(c: byte)
  {
    Zero <= c < Zero + 10
  }

  /** Value of a string of decimal digits. */
  function Value(s: seq<byte>): nat
    requires forall k :: 0 <= k < |s| ==> IsDigit(s[k])
  {
    if s == [] then 0
    else
      assert IsDigit(s[|s| - 1]);
      Value(s[..|s| - 1]) * 10 + (s[|s| - 1] as int - Zero as int)
  }

  /** The digit string is canonical: non-empty, digits only, and no
      leading zero unless the number is 0 itself. */
  lemma {:induction false} DigitsWellFormed(i: nat)
    ensures |Digits(i)| >= 1
    ensures forall k :: 0 <= k < |Digits(i)| ==> IsDigit(Digits(i)[k])
    ensures |Digits(i)| > 1 ==> Digits(i)[0] != Zero
    decreases i
  {
    if i >= 10 {
      DigitsWellFormed(i / 10);
      assert Digits(i)[0] == Digits(i / 10)[0];
    }
  }

  /** Reading the digits back gives the number: the formatting is
      lossless. */
  lemma {:induction false} DigitsValue(i: nat)
    ensures forall k :: 0 <= k < |Digits(i)| ==> IsDigit(Digits(i)[k])
    ensures Value(Digits(i)) == i
    decreases i
  {
    DigitsWellFormed(i);
    if i >= 10 {
      DigitsValue(i / 10);
      var s := Digits(i);
      assert s[..|s| - 1] == Digits(i / 10);
    }
  }

  /** An unsigned 32-bit number has at most 10 decimal digits. */
  lemma {:induction false} DigitsLength(i: nat, bound: nat, n: nat)
    requires i < bound && bound == Pow10(n) && n >= 1
    ensures |Digits(i)| <= n
    decreases n
  {
    if i >= 10 {
      assert Pow10(1) == 10;
      DivBound(i, n);
      DigitsLength(i / 10, Pow10(n - 1), n - 1);
    }
  }

  lemma DivBound(i: nat, n: nat)
    requires n >= 1 && i < Pow10(n)
    ensures i / 10 < Pow10(n - 1)
  {
  }

  function Pow10(n: nat): nat
  {
    if n == 0 then 1 else 10 * Pow10(n - 1)
  }

  lemma Digits32(i: u32)
    ensures |Digits(i)| <= 10
  {
    assert Pow10(10) == 10_000_000_000;
    DigitsLength(i, Pow10(10), 10);
  }

  /** ffs_fromuint_10: the digits are produced backwards into a 32-byte
      scratch buffer, then copied to dst when they fit its capacity.
      Returns the number of bytes written, or 0 (dst untouched) when they
      do not fit. */
  method FromUint10(i: u32, dst: array<byte>, cap: nat) returns (len: nat)
    requires cap <= dst.Length
    modifies dst
    ensures |Digits(i)| > cap ==> len == 0 && dst[..] == old(dst[..])
    ensures |Digits(i)| <= cap ==>
              len == |Digits(i)| && dst[..len] == Digits(i) && dst[len..] == old(dst[len..])
  {
    var buf := new byte[32];
    var k := 32;
    var i4: nat := i;
    Digits32(i);
    buf[k - 1] := Zero + i4 % 10;
    k := k - 1;
    i4 := i4 / 10;
    while i4 != 0
      modifies buf
      invariant 0 < k < 32
      invariant i4 == 0 ==> buf[k..] == Digits(i)
      invariant i4 != 0 ==> Digits(i) == Digits(i4) + buf[k..]
      decreases i4
    {
      buf[k - 1] := Zero + i4 % 10;
      k := k - 1;
      i4 := i4 / 10;
    }
    len := 32 - k;
    if len > cap {
      return 0;
    }
    forall j | 0 <= j < len {
      dst[j] := buf[k + j];
    }
    assert dst[..len] == buf[k..];
  }
}
