/** internal/restic/types.go: the unit in which a byte count is printed. */
module FormatBytes {

  newtype uint64 = x: int | 0 <= x < 0x1_0000_0000_0000_0000

  const UNIT: uint64 := 1024
  const UNITS := "KMGTPE"

  /** 1024 to the power e. */
  function Power(e: nat): (p: nat)
    ensures p >= 1
  {
    if e == 0 then 1 else 1024 * Power(e - 1)
  }

  lemma {:induction false} PowerGrows(a: nat, b: nat)
    ensures a <= b ==> Power(a) <= Power(b)
  {
    if a < b { PowerGrows(a, b - 1); }
  }

  lemma MulGrows(d: nat, a: int, b: int)
    ensures a <= b ==> d * a <= d * b
  {
  }

  lemma QuotientIs(b: nat, d: nat, n: nat, r: nat)
    requires d >= 1 && b == d * n + r && r < d
    ensures b / d == n
  {
    var m := b / d;
    assert b == d * m + b % d;
    MulGrows(d, m + 1, n);
    MulGrows(d, n + 1, m);
    assert d * (m + 1) == d * m + d && d * (n + 1) == d * n + d;
  }

  lemma Composed(b: nat, div: nat, q: nat, r: nat, n: nat, s: nat)
    requires b == div * q + r && r < div && q == 1024 * n + s && s < 1024
    ensures b / (div * 1024) == n
  {
    var d := div * 1024;
    assert div * q == d * n + div * s;
    MulGrows(div, s, 1023);
    QuotientIs(b, d, n, div * s + r);
  }

  /** Dividing in steps is dividing once. */
  lemma IteratedDivision(b: nat, div: nat)
    requires div >= 1
    ensures b / div / 1024 == b / (div * 1024)
  {
    var q := b / div;
    assert b == div * q + b % div;
    Composed(b, div, q, b % div, q / 1024, q % 1024);
  }

  lemma DivisorFits(b: nat, div: nat)
    requires div >= 1
    ensures b / div >= 1 ==> div <= b
    ensures b / div >= 1024 <==> b >= 1024 * div
  {
    var q, r := b / div, b % div;
    assert b == div * q + r;
    MulGrows(div, 1, q);
    MulGrows(div, 1024, q);
    MulGrows(div, q, 1023);
  }

  lemma SeventhPower()
    ensures Power(7) == 0x40_0000_0000_0000_0000
  {
    assert Power(3) == 0x4000_0000;
    assert Power(5) == 0x4_0000_0000_0000;
  }

  lemma Powers()
    ensures Power(1) == 0x400 && Power(2) == 0x10_0000 && Power(3) == 0x4000_0000
    ensures Power(4) == 0x100_0000_0000 && Power(5) == 0x4_0000_0000_0000 && Power(6) == 0x1000_0000_0000_0000
  {
  }

  datatype Formatted = Bytes(count: uint64) | Scaled(div: uint64, suffix: char)

  /** No step overflows, the unit index stays in range, and the printed quotient is below 1024. */
  method FormatBytes(b: uint64) returns (f: Formatted, ghost exp: nat)
    ensures b < UNIT ==> f == Bytes(b)
    ensures b >= UNIT ==>
      && exp <= 5 && f.Scaled? && f.suffix == UNITS[exp]
      && f.div as int == Power(exp + 1)
      && f.div as int <= b as int < 1024 * f.div as int
    ensures 0x400 <= b < 0x10_0000 ==> f == Scaled(0x400, 'K')
    ensures 0x10_0000 <= b < 0x4000_0000 ==> f == Scaled(0x10_0000, 'M')
    ensures 0x4000_0000 <= b < 0x100_0000_0000 ==> f == Scaled(0x4000_0000, 'G')
    ensures 0x100_0000_0000 <= b < 0x4_0000_0000_0000 ==> f == Scaled(0x100_0000_0000, 'T')
    ensures 0x4_0000_0000_0000 <= b < 0x1000_0000_0000_0000 ==> f == Scaled(0x4_0000_0000_0000, 'P')
    ensures 0x1000_0000_0000_0000 <= b ==> f == Scaled(0x1000_0000_0000_0000, 'E')
  {
    exp := 0;
    if b < UNIT {
      return Bytes(b), 0;
    }
    var div, e := UNIT, 0;
    var n := b / UNIT;
    assert Power(1) == 1024 * Power(0);
    while n >= UNIT
      invariant e >= 0 && div as int == Power(e + 1)
      invariant n as int == b as int / Power(e + 1) && n >= 1
      decreases n
    {
      DivisorFits(b as int, Power(e + 1));
      IteratedDivision(b as int, Power(e + 1));
      div := div * UNIT;
      e := e + 1;
      n := n / UNIT;
    }
    DivisorFits(b as int, Power(e + 1));
    PowerGrows(7, e + 1);
    SeventhPower();
    exp := e;
    f := Scaled(div, UNITS[e]);
    Powers();
  }

  /** The exponent is determined by the count: there is one unit that fits. */
  lemma ExponentIsUnique(b: nat, e: nat, f: nat)
    requires Power(e + 1) <= b < 1024 * Power(e + 1)
    requires Power(f + 1) <= b < 1024 * Power(f + 1)
    ensures e == f
  {
    PowerGrows(e + 2, f + 1);
    PowerGrows(f + 2, e + 1);
  }
}
