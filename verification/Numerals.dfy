/**
 Numbers as text: the printers of libk/io.c fill a 32-byte buffer backwards, and the
 parser of libk/ppm.c reads digits back in 32-bit arithmetic.
 */
module Numerals {
  import opened Words
  import opened Bytes
  import opened Places

  // ------------------------------------------------------------------ digits

  /** The digits of `n`, most significant first and without leading zeros. */
  function Digits(n: nat, base: nat): (d: seq<nat>)
    requires base >= 2
    ensures d != []
  {
    if n < base then [n] else DivFacts(n, base); Digits(n / base, base) + [n % base]
  }

  lemma DivFacts(n: nat, base: nat)
    requires 2 <= base <= n
    ensures 0 < n / base < n && n % base < base && n / base * base + n % base == n
  {
    var q, r := n / base, n % base;
    assert q * base + r == n;
    assert q > 0;
    MulMono(2, base, q);
  }

  function Value(d: seq<nat>, base: nat): nat {
    if d == [] then 0 else Value(d[..|d| - 1], base) * base + d[|d| - 1]
  }

  ghost predicate Canonical(d: seq<nat>, base: nat) {
    d != [] && (forall x <- d :: x < base) && (|d| > 1 ==> d[0] != 0)
  }

  lemma {:induction false} DigitsCanonical(n: nat, base: nat)
    requires base >= 2
    ensures Canonical(Digits(n, base), base) && Value(Digits(n, base), base) == n
    ensures n > 0 ==> Digits(n, base)[0] != 0
  {
    if n < base {
      assert Digits(n, base)[..0] == [];
    } else {
      DivFacts(n, base);
      DigitsCanonical(n / base, base);
      DigitsSnoc(Digits(n / base, base), n % base, base);
    }
  }

  lemma DigitsSnoc(d: seq<nat>, x: nat, base: nat)
    requires Canonical(d, base) && d[0] != 0 && x < base
    ensures Canonical(d + [x], base) && Value(d + [x], base) == Value(d, base) * base + x
  {
    assert (d + [x])[..|d|] == d;
  }

  lemma DivModOf(v: nat, l: nat, base: nat)
    requires l < base
    ensures (v * base + l) / base == v && (v * base + l) % base == l
  {
    var q, r := (v * base + l) / base, (v * base + l) % base;
    assert (q - v) * base == l - r;
    if q != v {
      MulMono(1, if q > v then q - v else v - q, base);
    }
  }

  lemma {:induction false} ValuePositive(d: seq<nat>, base: nat)
    requires base >= 2 && d != [] && d[0] != 0
    ensures Value(d, base) > 0
  {
    if |d| > 1 {
      ValuePositive(d[..|d| - 1], base);
      MulMono(1, Value(d[..|d| - 1], base), base);
    }
  }

  lemma DigitsGrow(v: nat, l: nat, base: nat)
    requires base >= 2 && v > 0 && l < base
    ensures Digits(v * base + l, base) == Digits(v, base) + [l]
  {
    MulMono(1, v, base);
    DivModOf(v, l, base);
  }

  /** There is only one way to write a number without leading zeros. */
  lemma {:induction false} CanonicalUnique(d: seq<nat>, base: nat)
    requires base >= 2 && Canonical(d, base)
    ensures Digits(Value(d, base), base) == d
  {
    var init, last := d[..|d| - 1], d[|d| - 1];
    assert last in d && d == init + [last];
    if |d| > 1 {
      assert forall x <- init :: x in d;
      CanonicalUnique(init, base);
      ValuePositive(init, base);
      DigitsGrow(Value(init, base), last, base);
    }
  }

  lemma {:induction false} DigitsLength(n: nat, base: nat, k: nat)
    requires base >= 2 && k >= 1 && n < Pow(base, k)
    ensures |Digits(n, base)| <= k
    decreases k
  {
    if k == 1 {
      assert Pow(base, 0) == 1;
    } else if n >= base {
      DivBound(n, base, Pow(base, k - 1));
      DigitsLength(n / base, base, k - 1);
    }
  }

  lemma DivBound(n: nat, base: nat, p: nat)
    requires base > 0 && n < base * p
    ensures n / base < p
  {
    if n / base >= p {
      MulMono(p, n / base, base);
    }
  }

  lemma U64Lengths(n: nat)
    requires n < U64
    ensures |Digits(n, 10)| <= 20 && |Digits(n, 16)| <= 16
  {
    assert Pow(10, 5) == 100000 && Pow(16, 4) == 65536;
    PowAdd(10, 5, 5);
    PowAdd(10, 10, 10);
    PowAdd(16, 4, 4);
    PowAdd(16, 8, 8);
    DigitsLength(n, 10, 20);
    DigitsLength(n, 16, 16);
  }

  lemma {:induction false} PowAdd(base: nat, j: nat, k: nat)
    ensures Pow(base, j + k) == Pow(base, j) * Pow(base, k)
    decreases j
  {
    if j > 0 {
      PowAdd(base, j - 1, k);
      var p, q := Pow(base, j - 1), Pow(base, k);
      assert base * (p * q) == (base * p) * q;
    }
  }

  /** The last digit is at place 0, and so on to the first. */
  lemma {:induction false} DigitAt(n: nat, base: nat, i: nat)
    requires base >= 2 && i < |Digits(n, base)|
    ensures Digits(n, base)[i] == Place(n, base, |Digits(n, base)| - 1 - i)
    decreases n
  {
    if n >= base {
      DivFacts(n, base);
      if i < |Digits(n, base)| - 1 {
        DigitAt(n / base, base, i);
      }
    }
  }

  // ---------------------------------------------------------------- printing

  /** '0' to '9', then 'A' to 'F'. */
  function Glyph(d: nat): Byte
    requires d < 16
  {
    if d < 10 then 48 + d else 55 + d
  }

  ghost function Text(d: seq<nat>): (t: seq<Byte>)
    requires forall x <- d :: x < 16
    ensures |t| == |d|
  {
    seq(|d|, i requires 0 <= i < |d| => assert d[i] in d; Glyph(d[i]))
  }

  /** What `io_printuq` (base 10) and `io_printhq` (base 16) hand to their callback. */
  ghost function Printed(n: nat, base: nat): seq<Byte>
    requires 2 <= base <= 16
  {
    DigitsCanonical(n, base);
    Text(Digits(n, base))
  }

  lemma PrintedStep(n: nat, base: nat)
    requires 2 <= base <= 16
    ensures n < base ==> Printed(n, base) == [Glyph(n)]
    ensures n >= base ==> Printed(n, base) == Printed(n / base, base) + [Glyph(n % base)]
  {
    DigitsCanonical(n, base);
    if n >= base {
      DigitsCanonical(n / base, base);
    }
  }

  /** The text of a number, character by character: of each digit, the ASCII code of '0' to '9' or 'A' to 'F'. */
  lemma PrintedAt(n: nat, base: nat, i: nat)
    requires 2 <= base <= 16 && i < |Printed(n, base)|
    ensures var d := Place(n, base, |Printed(n, base)| - 1 - i);
      Printed(n, base)[i] == if d < 10 then 48 + d else 65 + (d - 10)
    ensures |Printed(n, base)| > 1 ==> Printed(n, base)[0] != 48
  {
    DigitAt(n, base, i);
    DigitsCanonical(n, base);
    var d := Digits(n, base);
    assert d[0] in d;
  }

  /** `io_printuq` and `io_printhq`: digits that read as the number, in decimal or hexadecimal. */
  method PrintUnsigned(n: nat, base: nat) returns (out: seq<Byte>)
    requires n < U64 && (base == 10 || base == 16)
    ensures out == Printed(n, base)
    ensures base == 10 ==> AllDigits(out) && Number(out) == n
    ensures base == 16 ==> AllHex(out) && HexNumber(out) == n
  {
    out := FillBackwards(n, base);
    NumberPrinted(n);
    HexPrinted(n);
  }

  /** libk/io.c:4-17 and 36-49: the buffer is filled backwards from its end, and never overrun. */
  method FillBackwards(n: nat, base: nat) returns (out: seq<Byte>)
    requires n < U64 && (base == 10 || base == 16)
    ensures out == Printed(n, base)
  {
    var buf := new Byte[32](i => 0);
    var it := 31;
    var m: nat := n;
    U64Lengths(n);
    while m >= base
      invariant 0 <= it <= 31 && |Printed(m, base)| + (31 - it) == |Printed(n, base)| <= 20
      invariant Printed(n, base) == Printed(m, base) + buf[it + 1..]
      decreases m
    {
      PrintedStep(m, base);
      PrintedLength(m / base, base);
      DivFacts(m, base);
      ghost var tail := buf[it + 1..];
      buf[it] := Glyph(m % base);
      assert buf[it..] == [Glyph(m % base)] + tail;
      Shifted(Printed(m / base, base), Glyph(m % base), tail);
      it := it - 1;
      m := m / base;
    }
    PrintedStep(m, base);
    buf[it] := Glyph(m);
    out := buf[it..];
  }

  lemma Shifted(a: seq<Byte>, c: Byte, b: seq<Byte>)
    ensures a + [c] + b == a + ([c] + b)
  {
  }

  lemma PrintedLength(n: nat, base: nat)
    requires 2 <= base <= 16
    ensures |Printed(n, base)| >= 1
  {
  }

  /** Wrapping negation of a 64-bit number, read back as unsigned. */
  function Negated(n: int): nat
    requires -0x8000_0000_0000_0000 <= n < 0
  {
    var neg := if n == -0x8000_0000_0000_0000 then n else -n;
    if neg < 0 then neg + U64 else neg
  }

  /** `io_printiq`: right for every 64-bit number, even the least, whose negation wraps to itself. */
  method PrintSigned(n: int) returns (out: seq<Byte>)
    requires -0x8000_0000_0000_0000 <= n < 0x8000_0000_0000_0000
    ensures out == if n < 0 then [45] + Printed(-n, 10) else Printed(n, 10)
  {
    if n < 0 {
      out := PrintUnsigned(Negated(n), 10);
      out := [45] + out;
    } else {
      out := PrintUnsigned(n, 10);
    }
  }

  // ----------------------------------------------------------------- parsing

  predicate IsDigit(c: Byte) { 48 <= c <= 57 }

  ghost predicate AllDigits(s: seq<Byte>) { forall c <- s :: IsDigit(c) }

  /** The number a decimal digit string stands for. */
  function Number(s: seq<Byte>): nat
    requires forall c <- s :: IsDigit(c)
  {
    if s == [] then 0 else assert s[|s| - 1] in s && IsDigit(s[|s| - 1]); Number(s[..|s| - 1]) * 10 + (s[|s| - 1] - 48)
  }

  lemma NumberUnfold(s: seq<Byte>)
    requires AllDigits(s) && s != []
    ensures AllDigits(s[..|s| - 1]) && 48 <= s[|s| - 1] <= 57
    ensures Number(s) == Number(s[..|s| - 1]) * 10 + (s[|s| - 1] - 48)
  {
    assert s[|s| - 1] in s && IsDigit(s[|s| - 1]);
    assert forall c <- s[..|s| - 1] :: c in s;
  }

  /** The number place by place: the last digit is at place 0, and so on to the first. */
  lemma {:induction false} NumberAt(s: seq<Byte>, i: nat)
    requires AllDigits(s) && i < |s|
    ensures s[i] == 48 + Place(Number(s), 10, |s| - 1 - i)
  {
    NumberUnfold(s);
    DivModOf(Number(s[..|s| - 1]), s[|s| - 1] as int - 48, 10);
    if i < |s| - 1 {
      NumberAt(s[..|s| - 1], i);
    }
  }

  predicate IsHex(c: Byte) { 48 <= c <= 57 || 65 <= c <= 70 }

  ghost predicate AllHex(s: seq<Byte>) { forall c <- s :: IsHex(c) }

  /** The number a string of hexadecimal digits stands for. */
  ghost function HexNumber(s: seq<Byte>): nat
    requires AllHex(s)
  {
    if s == [] then 0
    else
      var c := s[|s| - 1];
      assert c in s && IsHex(c);
      HexNumber(s[..|s| - 1]) * 16 + if c <= 57 then c - 48 else c - 65 + 10
  }

  lemma {:induction false} HexPrinted(n: nat)
    ensures AllHex(Printed(n, 16)) && HexNumber(Printed(n, 16)) == n
  {
    PrintedStep(n, 16);
    var p := Printed(n, 16);
    if n < 16 {
      assert p[..0] == [];
    } else {
      HexPrinted(n / 16);
      assert p[..|p| - 1] == Printed(n / 16, 16);
    }
  }

  lemma ModStep(a: nat, d: nat)
    ensures (a % WORD * 10 % WORD + d) % WORD == (a * 10 + d) % WORD
  {
    var q, r := a / WORD, a % WORD;
    assert a == q * WORD + r;
    var q', r' := r * 10 / WORD, r * 10 % WORD;
    assert a * 10 + d == (q * 10 + q') * WORD + (r' + d);
    ModAdd(q * 10 + q', r' + d);
  }

  lemma ModAdd(q: nat, x: nat)
    ensures (q * WORD + x) % WORD == x % WORD
  {
  }

  /** `parse_uint32`: the number, modulo 2^32. */
  method ParseUint32(s: seq<Byte>) returns (val: u32)
    requires AllDigits(s)
    ensures val == Number(s) % WORD
  {
    val := 0;
    var i := 0;
    while i < |s|
      invariant 0 <= i <= |s| && val == Number(s[..i]) % WORD
    {
      assert s[..i + 1][..i] == s[..i] && s[i] in s;
      ModStep(Number(s[..i]), s[i] - 48);
      val := val * 10 % WORD;
      val := (val + (s[i] - 48)) % WORD;
      i := i + 1;
    }
    assert s[..i] == s;
  }

  lemma {:induction false} NumberPrinted(n: nat)
    ensures AllDigits(Printed(n, 10)) && Number(Printed(n, 10)) == n
  {
    PrintedStep(n, 10);
    var p := Printed(n, 10);
    if n < 10 {
      assert p[..0] == [];
    } else {
      NumberPrinted(n / 10);
      assert p[..|p| - 1] == Printed(n / 10, 10);
    }
  }

  /** Parsing a printed 32-bit number gives it back. */
  method PrintThenParse(n: u32) returns (val: u32)
    ensures val == n
  {
    var text := PrintUnsigned(n, 10);
    NumberPrinted(n);
    val := ParseUint32(text);
  }
}
