/** Uint32ToString: a DWORD in decimal, ten digits, written from the last cell back. */
module Decimal {
  import opened Text

  /** MAX_STR_LENGTH_OF_UINT32, which is 10. */
  const DIGITS := |"4294967295"|
  const WRAP := 0x1_0000_0000

  function Digit(d: nat): char
    requires d < 10
  {
    '0' + d as char
  }

  function Pow10(k: nat): (p: nat)
    ensures p > 0
  {
    if k == 0 then 1 else 10 * Pow10(k - 1)
  }

  /** The low `k` decimal digits of `value`, zero-padded. */
  function Decimal(value: nat, k: nat): (s: string)
    ensures |s| == k
  {
    if k == 0 then "" else Decimal(value / 10, k - 1) + [Digit(value % 10)]
  }

  predicate IsNumeral(s: string) {
    forall i | 0 <= i < |s| :: '0' <= s[i] <= '9'
  }

  function Parse(s: string): nat
    requires IsNumeral(s)
  {
    if s == "" then 0 else 10 * Parse(s[..|s| - 1]) + (s[|s| - 1] - '0') as nat
  }

  /** Printing then parsing: `k` digits hold the value mod 10^k. */
  lemma {:induction false} ParseDecimal(value: nat, k: nat)
    ensures IsNumeral(Decimal(value, k)) && Parse(Decimal(value, k)) == value % Pow10(k)
  {
    if k > 0 {
      ParseDecimal(value / 10, k - 1);
      assert Decimal(value, k)[..k - 1] == Decimal(value / 10, k - 1);
      LowDigit(value, Pow10(k - 1));
    }
  }

  lemma LowDigit(value: nat, p: nat)
    requires p > 0
    ensures value % (10 * p) == 10 * (value / 10 % p) + value % 10
  {
    var q, r := value / 10 / p, value / 10 % p;
    assert value / 10 == q * p + r;
    Remainder(value, 10 * p, q, 10 * r + value % 10);
  }

  lemma Remainder(x: nat, n: nat, q: nat, r: nat)
    requires r < n && x == q * n + r
    ensures x / n == q && x % n == r
  {
    Scale(x / n + 1, q, n);
    Scale(q + 1, x / n, n);
  }

  lemma Scale(a: nat, b: nat, n: nat)
    ensures a <= b ==> a * n <= b * n
  {
  }

  /** Parsing then printing: `Decimal` is the only zero-padded form. */
  lemma {:induction false} DecimalParse(s: string)
    requires IsNumeral(s)
    ensures Decimal(Parse(s), |s|) == s
  {
    if s != "" { DecimalParse(s[..|s| - 1]); }
  }

  lemma DivideTwice(value: nat, p: nat)
    requires p > 0
    ensures value / 10 / p == value / (10 * p)
  {
    var q, r := value / 10 / p, value / 10 % p;
    assert value / 10 == q * p + r;
    Remainder(value, 10 * p, q, 10 * r + value % 10);
  }

  /** The digit that the loop computes goes before the ones already written. */
  lemma {:induction false} NextDigit(value: nat, k: nat)
    ensures Decimal(value, k + 1) == [Digit(value / Pow10(k) % 10)] + Decimal(value, k)
  {
    if k > 0 {
      NextDigit(value / 10, k - 1);
      DivideTwice(value, Pow10(k - 1));
    }
  }

  /** No divisor that is used overflows 32 bits; the one after the last does. */
  lemma DivisorsFit(k: nat)
    ensures Pow10(k) < WRAP <==> k < DIGITS
  {
    assert Pow10(9) == 1_000_000_000;
    if k < 9 { Grows(k, 9); } else if k > 9 { Grows(10, k); }
  }

  lemma Grows(i: nat, j: nat)
    requires i <= j
    ensures Pow10(i) <= Pow10(j)
  {
  }

  /** Where the last digit goes. */
  function LastCell(v: Version): nat {
    if v == AsWritten then DIGITS - 2 else DIGITS - 1
  }

  function Nuls(n: nat): string {
    seq(n, _ => '\0')
  }

  method ClearMemory(mem: array<char>, at: nat, n: nat)
    requires at + n <= mem.Length
    modifies mem
    ensures mem[..] == old(mem[..at]) + Nuls(n) + old(mem[at + n..])
  {
    for c := 0 to n
      invariant mem[..] == old(mem[..at]) + Nuls(c) + old(mem[at + c..])
    {
      mem[at + c] := '\0';
    }
  }

  lemma DigitStored(s: string, end: nat, value: nat, i: nat)
    requires i < end <= |s|
    ensures (s[..end - i] + Decimal(value, i) + s[end..])[end - i - 1 := Digit(value / Pow10(i) % 10)]
         == s[..end - (i + 1)] + Decimal(value, i + 1) + s[end..]
  {
    NextDigit(value, i);
  }

  /** The offset counts down in 32 bits; the address it makes is the same as if it did not. */
  lemma Wrapped(at: nat, off: int, off': int)
    requires -1 <= off && 0 <= at + off < WRAP && off < WRAP && off' == off % WRAP
    ensures (at + off') % WRAP == at + off
    ensures (off' - 1) % WRAP == (off - 1) % WRAP
  {
  }

  lemma NextDivisor(i: nat, divisor: nat)
    requires i < DIGITS && divisor == Pow10(i)
    ensures i + 1 < DIGITS ==> divisor * 10 % WRAP == Pow10(i + 1)
  {
    DivisorsFit(i + 1);
  }

  /** The memory `s` with the digits stored for the buffer at `at`: over its ten cells, or as
      written one cell lower, with a NUL left in the buffer's last. */
  function Placed(v: Version, s: string, at: nat, digits: string): string
    requires 0 < at && at + DIGITS <= |s|
  {
    if v == Repaired then s[..at] + digits + s[at + DIGITS..] else s[..at - 1] + digits + ['\0'] + s[at + DIGITS..]
  }

  lemma PlacedInCleared(v: Version, s: string, at: nat, cleared: string, end: nat, digits: string)
    requires 0 < at && at + DIGITS <= |s| && |digits| == DIGITS && end == at + LastCell(v) + 1
    requires cleared == s[..at] + Nuls(DIGITS) + s[at + DIGITS..]
    ensures cleared[..end - DIGITS] + digits + cleared[end..] == Placed(v, s, at, digits)
  {
  }

  /** `mem` is the memory around the buffer, which starts at `at`. */
  method Uint32ToString(v: Version, value: nat, mem: array<char>, at: nat)
    requires value < WRAP && 0 < at && at + DIGITS <= mem.Length < WRAP
    modifies mem
    ensures mem[..] == Placed(v, old(mem[..]), at, Decimal(value, DIGITS))
  {
    var off := LastCell(v);
    ClearMemory(mem, at, DIGITS);
    ghost var cleared := mem[..];
    ghost var end := at + off + 1;
    var divisor := 1;
    for i := 0 to DIGITS
      invariant off == (LastCell(v) - i) % WRAP
      invariant i < DIGITS ==> divisor == Pow10(i)
      invariant mem[..] == cleared[..end - i] + Decimal(value, i) + cleared[end..]
    {
      NextDivisor(i, divisor);
      DigitStored(cleared, end, value, i);
      var cell := (at + off) % WRAP;
      Wrapped(at, LastCell(v) - i, off);
      assert cell == end - i - 1;
      var digit := value / divisor % 10;
      mem[cell] := Digit(digit);
      divisor := divisor * 10 % WRAP;
      off := (off - 1) % WRAP;
    }
    PlacedInCleared(v, old(mem[..]), at, cleared, end, Decimal(value, DIGITS));
  }

  /** The string in the cells, up to a NUL. */
  function UpToNul(cells: string): string {
    if cells == "" || cells[0] == '\0' then "" else [cells[0]] + UpToNul(cells[1..])
  }

  lemma {:induction false} NumeralBeforeNul(s: string, rest: string)
    requires IsNumeral(s) && (rest == "" || rest[0] == '\0')
    ensures UpToNul(s + rest) == s
  {
    if s != "" {
      assert (s + rest)[1..] == s[1..] + rest;
      NumeralBeforeNul(s[1..], rest);
    }
  }

  lemma ParsesBack(value: nat, k: nat)
    ensures IsNumeral(Decimal(value, k)) && (Parse(Decimal(value, k)) == value <==> value < Pow10(k))
  {
    ParseDecimal(value, k);
  }

  /** The buffer reads back as the value for every DWORD; as written exactly below 10^9, and
      the cell in front of the buffer is overwritten with the tenth digit. */
  lemma BufferExact(v: Version, s: string, at: nat, value: nat)
    requires value < WRAP && 0 < at && at + DIGITS <= |s|
    ensures var shown := UpToNul(Placed(v, s, at, Decimal(value, DIGITS))[at..at + DIGITS]);
            && IsNumeral(shown)
            && (Parse(shown) == value <==> v == Repaired || value < 1_000_000_000)
    ensures Placed(v, s, at, Decimal(value, DIGITS))[at - 1] ==
              if v == Repaired then s[at - 1] else Digit(value / 1_000_000_000 % 10)
  {
    var k := DIGITS - 1;
    var cells := Placed(v, s, at, Decimal(value, k + 1))[at..at + DIGITS];
    ParsesBack(value, k + 1);
    ParsesBack(value, k);
    DivisorsFit(k + 1);
    NextDigit(value, k);
    assert cells == if v == Repaired then Decimal(value, k + 1) + "" else Decimal(value, k) + "\0";
    NumeralBeforeNul(if v == Repaired then Decimal(value, k + 1) else Decimal(value, k), if v == Repaired then "" else "\0");
    assert Pow10(9) == 1_000_000_000;
  }
}
