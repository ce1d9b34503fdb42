/** Number printing and parsing (print_num, print_hex, atoi) in 32-bit arithmetic. */
module Numbers {
  import opened Words
  import opened Sequences

  /** Character codes, as signed C characters. */
  type Text = seq<int>

  const ZERO := 48

  function Letter(d: nat): int
    requires d < 16
  {
    if d < 10 then ZERO + d else 97 + d - 10
  }

  function Base(hex: bool): nat { if hex then 16 else 10 }

  /** Quotient and remainder by the base, 16 or 10. */
  function Quot(n: nat, hex: bool): (q: nat)
    ensures n > 0 ==> q < n
  {
    if hex then n / 16 else n / 10
  }

  function Rem(n: nat, hex: bool): (d: nat)
    ensures d < 16 && (!hex ==> d < 10)
    ensures n > 0 && Quot(n, hex) == 0 ==> d > 0
    ensures d == n - Quot(n, hex) * Base(hex)
  {
    if hex then n % 16 else n % 10
  }

  /** Positional digits of a number, most significant first; none for 0. */
  function Digits(n: nat, hex: bool): Text {
    if n == 0 then [] else Digits(Quot(n, hex), hex) + [Letter(Rem(n, hex))]
  }

  /** What the printing functions emit. */
  function Printed(n: nat, hex: bool): Text {
    if n == 0 then [ZERO] else Digits(n, hex)
  }

  function Pow(hex: bool, k: nat): nat {
    if k == 0 then 1 else Base(hex) * Pow(hex, k - 1)
  }

  lemma {:induction false} DigitsBound(n: nat, hex: bool, k: nat)
    requires n < Pow(hex, k)
    ensures |Digits(n, hex)| <= k
    decreases k
  {
    if k > 0 && n > 0 { DigitsBound(Quot(n, hex), hex, k - 1); }
  }

  /** The 10 and 8 of the printing functions. */
  function Width(hex: bool): nat { if hex then 8 else 10 }

  lemma Widths(n: nat, hex: bool)
    requires n < WORD
    ensures |Digits(n, hex)| <= Width(hex)
  {
    assert Pow(false, 5) == 100000 && Pow(true, 4) == 65536;
    assert Pow(false, 10) == 100000 * Pow(false, 5) by { assert Pow(false, 7) == 100 * Pow(false, 5); }
    assert Pow(true, 8) == 65536 * Pow(true, 4) by { assert Pow(true, 6) == 256 * Pow(true, 4); }
    DigitsBound(n, hex, Width(hex));
  }

  lemma {:induction false} NoLeadingZero(n: nat, hex: bool)
    requires n > 0
    ensures |Digits(n, hex)| > 0 && Digits(n, hex)[0] != ZERO
    decreases n
  {
    if Quot(n, hex) > 0 { NoLeadingZero(Quot(n, hex), hex); }
  }

  /** Positional decimal value; characters other than digits count by their code minus 48. */
  function Value(s: Text): int {
    if s == [] then 0 else Value(s[..|s| - 1]) * 10 + (s[|s| - 1] - ZERO)
  }

  lemma {:induction false} ValueOfDigits(n: nat)
    ensures Value(Digits(n, false)) == n
  {
    if n > 0 {
      ValueOfDigits(n / 10);
      var ds := Digits(n / 10, false);
      assert (ds + [Letter(n % 10)])[..|ds|] == ds;
    }
  }

  /** Printed decimal numbers consist of decimal digits. */
  lemma {:induction false} DecimalDigits(n: nat)
    ensures forall i | 0 <= i < |Digits(n, false)| :: 48 <= Digits(n, false)[i] <= 57
  {
    if n > 0 { DecimalDigits(n / 10); }
  }

  /** atoi's result as an unsigned word. */
  function Atoi(s: Text): nat { Value(s) % WORD }

  /** atoi is 0 for the empty string, and one more character multiplies by ten and adds its digit, modulo 2^32. */
  lemma AtoiAppend(s: Text, c: int)
    ensures Atoi([]) == 0 && Atoi(s + [c]) == (Atoi(s) * 10 + c - 48) % WORD
  {
    assert (s + [c])[..|s|] == s;
    ModMul(Value(s), 10);
    ModAdd(Value(s) % WORD * 10, c - 48);
    ModAdd(Value(s) * 10, c - 48);
  }

  /** atoi of a printed 32-bit number is that number. */
  lemma AtoiOfPrinted(n: nat)
    requires n < WORD
    ensures Atoi(Printed(n, false)) == n
  {
    if n == 0 {
      assert [ZERO][..0] == [];
      assert Value([ZERO]) == 0;
    } else {
      ValueOfDigits(n);
    }
  }

  /** What a character counts for in hexadecimal: 0 to 9 and a to f. */
  function HexDigit(c: int): int {
    if 48 <= c <= 57 then c - 48 else if 97 <= c <= 102 then c - 97 + 10 else 0
  }

  /** Positional hexadecimal value. */
  function HexValue(s: Text): int {
    if s == [] then 0 else HexValue(s[..|s| - 1]) * 16 + HexDigit(s[|s| - 1])
  }

  /** Printed hexadecimal numbers consist of hexadecimal digits and have the value of the number. */
  lemma {:induction false} HexOfDigits(n: nat)
    ensures HexValue(Digits(n, true)) == n
    ensures forall i | 0 <= i < |Digits(n, true)| :: 48 <= Digits(n, true)[i] <= 57 || 97 <= Digits(n, true)[i] <= 102
  {
    if n > 0 {
      HexOfDigits(n / 16);
      var ds := Digits(n / 16, true);
      assert (ds + [Letter(n % 16)])[..|ds|] == ds;
    }
  }

  lemma HexOfPrinted(n: nat)
    ensures HexValue(Printed(n, true)) == n
  {
    if n == 0 {
      assert [ZERO][..0] == [];
      assert HexValue([ZERO]) == 0;
    } else {
      HexOfDigits(n);
    }
  }

  // ---- The loops ----

  function Reversed(s: Text): Text {
    if s == [] then [] else [s[|s| - 1]] + Reversed(s[..|s| - 1])
  }

  lemma ReversedSnoc(s: Text, x: int)
    ensures Reversed(s + [x]) == [x] + Reversed(s)
  {
    assert (s + [x])[..|s|] == s;
  }

  /** The digit loop of print_num and print_hex, which fills a 16-character buffer from the lowest digit. */
  method FillDigits(input: nat, hex: bool) returns (buf: array<int>, i: nat)
    requires input < WORD
    ensures fresh(buf) && i <= buf.Length == 16
    ensures Reversed(buf[..i]) == Digits(input, hex)
  {
    Widths(input, hex);
    buf := new int[16];
    i := 0;
    var a: nat := input;
    while a != 0
      invariant i + |Digits(a, hex)| <= Width(hex)
      invariant Digits(a, hex) + Reversed(buf[..i]) == Digits(input, hex)
      decreases a
    {
      var d := Quot(a, hex);
      ghost var done := buf[..i];
      buf[i] := Letter(a - d * Base(hex));
      assert buf[..i + 1] == done + [Letter(Rem(a, hex))];
      ReversedSnoc(done, Letter(Rem(a, hex)));
      ConcatAssoc(Digits(d, hex), [Letter(Rem(a, hex))], Reversed(done));
      i := i + 1;
      a := d;
    }
  }

  /** print_num and print_hex: the digits, most significant first, at most 10 or 8 of them and no leading zero. */
  method Print(input: nat, hex: bool) returns (out: Text)
    requires input < WORD
    ensures out == Printed(input, hex)
    ensures 1 <= |out| <= Width(hex)
    ensures input > 0 ==> out[0] != ZERO
  {
    Widths(input, hex);
    if input > 0 { NoLeadingZero(input, hex); }
    out := if input == 0 then [ZERO] else [];
    var buf, n := FillDigits(input, hex);
    assert out + Digits(input, hex) == Printed(input, hex);
    var i: nat := n;
    while i > 0
      invariant i <= buf.Length
      invariant out + Reversed(buf[..i]) == Printed(input, hex)
    {
      i := i - 1;
      assert buf[..i + 1] == buf[..i] + [buf[i]];
      ReversedSnoc(buf[..i], buf[i]);
      out := out + [buf[i]];
    }
  }

  lemma ModMul(x: int, y: int)
    ensures (x % WORD * y) % WORD == (x * y) % WORD
  {
    var k, r := x / WORD, x % WORD;
    assert x * y == r * y + (k * y) * WORD;
    AddMultiple(r * y, k * y);
  }

  lemma ModAdd(a: int, b: int)
    ensures (a % WORD + b) % WORD == (a + b) % WORD
  {}

  /** One turn of atoi on the true values instead of the words. */
  lemma AtoiTurn(tail: int, c: int, power: int)
    ensures (tail % WORD + c * (power % WORD)) % WORD == (tail + c * power) % WORD
    ensures power % WORD * 10 % WORD == power * 10 % WORD
  {
    ModMul(power, c);
    ModMul(power, 10);
    ModAdd(tail, c * (power % WORD));
    ModAdd(c * (power % WORD), tail);
    ModAdd(c * power, tail);
  }

  /** atoi: from the last character down, the index ending by wrap-around below 0. */
  method AtoiLoop(s: Text) returns (output: nat)
    requires |s| < WORD
    ensures output == Atoi(s)
  {
    output := 0;
    var p: nat := 1;
    var i: nat := if |s| == 0 then WORD - 1 else |s| - 1;
    ghost var m: nat, power: int, tail: int := |s|, 1, 0;
    assert s[..m] == s;
    while i != WORD - 1
      invariant m <= |s| && i == (if m == 0 then WORD - 1 else m - 1)
      invariant Value(s) == Value(s[..m]) * power + tail
      invariant output == tail % WORD && p == power % WORD
      decreases m
    {
      ghost var c := s[i] - ZERO;
      AtoiTurn(tail, c, power);
      assert s[..m][..m - 1] == s[..m - 1];
      output := (output + (s[i] - ZERO) * p) % WORD;
      p := p * 10 % WORD;
      i := if i == 0 then WORD - 1 else i - 1;
      Rearrange(Value(s[..m - 1]), c, power, tail);
      m, power, tail := m - 1, power * 10, tail + c * power;
    }
  }

  lemma Rearrange(x: int, c: int, power: int, tail: int)
    ensures (x * 10 + c) * power + tail == x * (power * 10) + (tail + c * power)
  {}
}
