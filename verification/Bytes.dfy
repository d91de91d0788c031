/** Bytes, C strings in buffers, and little-endian numbers. */
module Bytes {
  import opened Words
  import opened Places

  type Byte = n: nat | n < 256

  function Zeros(n: nat): (z: seq<Byte>)
    ensures |z| == n
  {
    seq(n, i => 0)
  }

  // ----------------------------------------------------------------- strings

  /** The first at most `n` characters of a string that ends at a zero byte. */
  function Cut(s: seq<Byte>, n: nat): seq<Byte> {
    if n == 0 || s == [] || s[0] == 0 then [] else [s[0]] + Cut(s[1..], n - 1)
  }

  /** That is: all up to the first zero byte, the end, or the limit. */
  lemma {:induction false} CutIs(s: seq<Byte>, n: nat)
    ensures var k := |Cut(s, n)|;
      && k <= n && k <= |s| && Cut(s, n) == s[..k] && 0 !in Cut(s, n)
      && (k < n && k < |s| ==> s[k] == 0)
    decreases n
  {
    if n > 0 && s != [] && s[0] != 0 {
      CutIs(s[1..], n - 1);
    }
  }

  /** Reading up to `n` characters of `s` stays inside the buffer. */
  ghost predicate Terminated(s: seq<Byte>, n: nat) { |s| >= n || 0 in s }

  ghost predicate NoNul(s: seq<Byte>) { 0 !in s }

  /** `strneq` (libk/memory.c:10-20): do the strings agree on their first `maxlen` characters? */
  method Strneq(a: seq<Byte>, b: seq<Byte>, maxlen: nat) returns (eq: bool)
    requires Terminated(a, maxlen) && Terminated(b, maxlen)
    ensures eq == (Cut(a, maxlen) == Cut(b, maxlen))
  {
    var i := 0;
    while i < maxlen
      invariant 0 <= i <= maxlen && i <= |a| && i <= |b|
      invariant Terminated(a[i..], maxlen - i) && Terminated(b[i..], maxlen - i)
      invariant (Cut(a, maxlen) == Cut(b, maxlen)) == (Cut(a[i..], maxlen - i) == Cut(b[i..], maxlen - i))
    {
      ghost var x, y := a[i..], b[i..];
      assert x != [] && y != [];
      assert x[1..] == a[i + 1..] && y[1..] == b[i + 1..];
      if a[i] != b[i] {
        CutHead(x, y, maxlen - i);
        return false;
      }
      if a[i] == 0 {
        return true;
      }
      CutTail(x, y, maxlen - i);
      i := i + 1;
    }
    eq := true;
  }

  lemma CutHead(x: seq<Byte>, y: seq<Byte>, n: nat)
    requires x != [] && y != [] && n > 0 && x[0] != y[0]
    ensures Cut(x, n) != Cut(y, n)
  {
    if x[0] != 0 {
      assert Cut(x, n)[0] == x[0];
    } else {
      assert Cut(y, n)[0] == y[0];
    }
  }

  lemma CutTail(x: seq<Byte>, y: seq<Byte>, n: nat)
    requires x != [] && y != [] && n > 0 && x[0] == y[0] != 0
    ensures (Cut(x, n) == Cut(y, n)) == (Cut(x[1..], n - 1) == Cut(y[1..], n - 1))
  {
    assert Cut(x, n)[1..] == Cut(x[1..], n - 1);
    assert Cut(y, n)[1..] == Cut(y[1..], n - 1);
  }

  /** `strncpy` into a field of `n` bytes: cut off, or padded with zeros. */
  function Field(s: seq<Byte>, n: nat): (f: seq<Byte>)
    ensures |f| == n
  {
    if |s| >= n then s[..n] else s + Zeros(n - |s|)
  }

  /** A name survives being stored in a field and read back. */
  lemma {:induction false} CutField(s: seq<Byte>, n: nat)
    requires NoNul(s)
    ensures Cut(Field(s, n), n) == Cut(s, n)
    decreases n
  {
    if n > 0 {
      if s == [] {
        assert Field(s, n)[0] == 0;
      } else {
        CutField(s[1..], n - 1);
        assert Field(s, n)[1..] == Field(s[1..], n - 1);
      }
    }
  }

  lemma {:induction false} CutTerminator(s: seq<Byte>, n: nat)
    ensures Cut(s + [0], n) == Cut(s, n)
    decreases n
  {
    if n > 0 && s != [] && s[0] != 0 {
      assert (s + [0])[1..] == s[1..] + [0];
      CutTerminator(s[1..], n - 1);
    }
  }

  // ------------------------------------------------------------ little endian

  function Encode(n: nat, k: nat): (b: seq<Byte>)
    ensures |b| == k
    decreases k
  {
    if k == 0 then [] else [n % 256] + Encode(n / 256, k - 1)
  }

  function Decode(b: seq<Byte>): nat {
    if b == [] then 0 else b[0] + 256 * Decode(b[1..])
  }

  /** Least significant byte first. */
  lemma {:induction false} EncodeAt(n: nat, k: nat, i: nat)
    requires i < k
    ensures Encode(n, k)[i] == Place(n, 256, i)
    decreases k
  {
    if i > 0 {
      EncodeAt(n / 256, k - 1, i - 1);
    }
  }

  lemma {:induction false} DecodeEncode(n: nat, k: nat)
    requires n < Pow(256, k)
    ensures Decode(Encode(n, k)) == n
    decreases k
  {
    if k > 0 {
      assert n / 256 < Pow(256, k - 1);
      DecodeEncode(n / 256, k - 1);
      assert Encode(n, k)[1..] == Encode(n / 256, k - 1);
    }
  }

  /** Reading, too, takes the first byte as the least significant. */
  lemma {:induction false} DecodeAt(b: seq<Byte>, i: nat)
    requires i < |b|
    ensures b[i] == Place(Decode(b), 256, i)
  {
    assert Decode(b) == b[0] + 256 * Decode(b[1..]);
    if i > 0 {
      DecodeAt(b[1..], i - 1);
    }
  }

  lemma PowEight()
    ensures Pow(256, 8) == U64
  {
    assert Pow(256, 4) == 0x1_0000_0000;
  }

  lemma DecodeU64(n: nat)
    requires n < U64
    ensures Decode(Encode(n, 8)) == n
  {
    PowEight();
    DecodeEncode(n, 8);
  }

  lemma {:induction false} DecodeZeros(k: nat)
    ensures Decode(Zeros(k)) == 0
  {
    if k > 0 {
      assert Zeros(k)[1..] == Zeros(k - 1);
      DecodeZeros(k - 1);
    }
  }
}
