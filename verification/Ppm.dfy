/**
 The raw PPM loader (libk/ppm.c): a header of numbers separated by white space and
 comments, then three bytes per pixel.  The format is the raw form (magic "P6") of the
 Netpbm ppm specification, section "Description".
 */
module Ppm {
  import opened Words
  import opened Bytes
  import opened Numerals

  const NEWLINE: Byte := 10
  const HASH: Byte := 35
  const MAGIC: seq<Byte> := [80, 54]

  predicate IsSpace(c: Byte) { c == 32 || c == 9 || c == 13 || c == 10 }

  /** A comment runs up to, and not over, its newline. */
  function SkipLine(s: seq<Byte>): (r: seq<Byte>)
    ensures |r| <= |s| && (s != [] && s[0] != NEWLINE ==> |r| < |s|)
  {
    if s == [] || s[0] == NEWLINE then s else SkipLine(s[1..])
  }

  /** What is left of `s` after leading white space and comments. */
  function Skip(s: seq<Byte>): (r: seq<Byte>)
    ensures |r| <= |s|
    ensures s != [] && (IsSpace(s[0]) || s[0] == HASH) ==> |r| < |s|
    decreases |s|
  {
    if s == [] then s
    else if IsSpace(s[0]) then Skip(s[1..])
    else if s[0] == HASH then Skip(SkipLine(s))
    else s
  }

  function DigitLen(s: seq<Byte>): (n: nat)
    ensures n <= |s| && forall i :: 0 <= i < n ==> IsDigit(s[i])
  {
    if s == [] || !IsDigit(s[0]) then 0 else 1 + DigitLen(s[1..])
  }

  /** A number and the white space that must follow it. */
  function TakeValue(s: seq<Byte>): Option<(u32, seq<Byte>)> {
    var n := DigitLen(s);
    var rest := Skip(s[n..]);
    if n == 0 || |rest| == |s[n..]| then None
    else
      assert forall c <- s[..n] :: IsDigit(c);
      Some((Number(s[..n]) % WORD, rest))
  }

  datatype Header = Bad | Header(width: u32, height: u32, max: u32, rest: seq<Byte>)

  function ParseHeader(data: seq<Byte>): Header {
    if |data| < 2 || data[..2] != MAGIC then Bad
    else
      var s := Skip(data[2..]);
      if |s| == |data| - 2 then Bad
      else
        match TakeValue(s)
        case None => Bad
        case Some((w, s1)) =>
          match TakeValue(s1)
          case None => Bad
          case Some((h, s2)) =>
            match TakeValue(s2)
            case None => Bad
            case Some((max, s3)) => Header(w, h, max, s3)
  }

  function Pixel(r: Byte, g: Byte, b: Byte): u32 { 0xFF00_0000 + r * 0x10000 + g * 0x100 + b }

  lemma LowByte(q: nat, b: Byte)
    ensures (q * 0x100 + b) / 0x100 == q && (q * 0x100 + b) % 0x100 == b
  {
  }

  lemma Halves(p: nat)
    ensures p / 0x10000 == p / 0x100 / 0x100 && p / 0x100_0000 == p / 0x10000 / 0x100
  {
  }

  /** An opaque pixel: from the most significant byte, full alpha, red, green and blue. */
  lemma PixelChannels(r: Byte, g: Byte, b: Byte)
    ensures var p := Pixel(r, g, b);
      p / 0x100_0000 == 255 && p / 0x10000 % 256 == r && p / 0x100 % 256 == g && p % 256 == b
  {
    var high: nat := 255 * 0x100 + r;
    LowByte(high * 0x100 + g, b);
    LowByte(high, g);
    LowByte(255, r);
    Halves(Pixel(r, g, b));
  }

  function Pixels(raw: seq<Byte>, n: nat): (p: seq<u32>)
    requires 3 * n <= |raw|
    ensures |p| == n
  {
    seq(n, i requires 0 <= i < n => Pixel(raw[3 * i], raw[3 * i + 1], raw[3 * i + 2]))
  }

  /** `Stray` stands for reading past the end of the buffer. */
  datatype Result = Invalid | Stray | Loaded(width: u32, height: u32, count: u32, pixels: Option<seq<u32>>)

  /** The end of `ppm_load`: `rest` are the last bytes of a buffer that ends at address `end`.  Sizes
      and addresses are computed modulo 2^32. */
  function Finish(w: u32, h: u32, count: u32, rest: seq<Byte>, end: nat, fill: bool): Result
    requires |rest| <= end
  {
    if (end - |rest| + count * 3 % WORD) % WORD > end then Invalid
    else if !fill then Loaded(w, h, count, None)
    else if 3 * count > |rest| then Stray
    else Loaded(w, h, count, Some(Pixels(rest, count)))
  }

  /** `ppm_load` behind the header, in a buffer that ends at address `end`. */
  function LoadBody(hd: Header, end: nat, fill: bool): Result
    requires hd.Header? ==> |hd.rest| <= end
  {
    if hd == Bad || hd.max != 255 then Invalid
    else Finish(hd.width, hd.height, hd.width * hd.height % WORD, hd.rest, end, fill)
  }

  /** `ppm_load` on a buffer at address `addr`; without an output array only the size is found.  The test
      for the two bytes of the magic number compares 32-bit addresses, too. */
  function Load(data: seq<Byte>, addr: nat, fill: bool): Result {
    if (addr + 2) % WORD > addr + |data| then Invalid
    else if |data| < 2 then Stray
    else HeaderShrinks(data); LoadBody(ParseHeader(data), addr + |data|, fill)
  }

  lemma HeaderShrinks(data: seq<Byte>)
    ensures ParseHeader(data).Header? ==> |ParseHeader(data).rest| <= |data|
  {
  }

  // ------------------------------------------------------------------ method

  /** The inner loop of `consume_whitespace`: a comment up to its newline. */
  method ConsumeComment(data: seq<Byte>, start: nat) returns (it: nat)
    requires start < |data| && data[start] == HASH
    ensures start < it <= |data| && data[it..] == SkipLine(data[start..])
  {
    it := start;
    while it < |data| && data[it] != NEWLINE
      invariant start <= it <= |data| && SkipLine(data[start..]) == SkipLine(data[it..])
      invariant it == start ==> data[it] != NEWLINE
    {
      assert data[it..][1..] == data[it + 1..];
      it := it + 1;
    }
  }

  method ConsumeWhitespace(data: seq<Byte>, start: nat) returns (it: nat, success: bool)
    requires start <= |data|
    ensures it <= |data| && data[it..] == Skip(data[start..]) && success == (it > start)
  {
    it, success := start, false;
    while it < |data|
      invariant start <= it <= |data| && success == (it > start)
      invariant Skip(data[start..]) == Skip(data[it..])
      decreases |data| - it
    {
      assert data[it..][1..] == data[it + 1..];
      if IsSpace(data[it]) {
        it := it + 1;
      } else if data[it] == HASH {
        it := ConsumeComment(data, it);
      } else {
        break;
      }
      success := true;
    }
  }

  method ConsumeValue(data: seq<Byte>, start: nat) returns (it: nat)
    requires start <= |data|
    ensures it == start + DigitLen(data[start..])
  {
    it := start;
    while it < |data|
      invariant start <= it <= |data| && DigitLen(data[start..]) == (it - start) + DigitLen(data[it..])
    {
      if !IsDigit(data[it]) {
        return;
      }
      assert data[it..][1..] == data[it + 1..];
      it := it + 1;
    }
  }

  /** One number of the header with the white space behind it. */
  method ReadValue(data: seq<Byte>, start: nat) returns (ok: bool, val: u32, it: nat)
    requires start <= |data|
    ensures it <= |data|
    ensures TakeValue(data[start..]) == if ok then Some((val, data[it..])) else None
  {
    val := 0;
    it := ConsumeValue(data, start);
    var len := it - start;
    ghost var s := data[start..];
    assert s[len..] == data[it..] && s[..len] == data[start..it];
    var after, spaced := ConsumeWhitespace(data, it);
    if len == 0 || !spaced {
      return false, 0, it;
    }
    assert forall c <- s[..len] :: IsDigit(c);
    val := ParseUint32(data[start..it]);
    ok, it := true, after;
  }

  method ReadHeader(data: seq<Byte>) returns (ok: bool, w: u32, h: u32, max: u32, it: nat)
    requires |data| >= 2
    ensures it <= |data|
    ensures ParseHeader(data) == if ok then Header(w, h, max, data[it..]) else Bad
  {
    ok, w, h, max, it := false, 0, 0, 0, 0;
    if data[..2] != MAGIC {
      return;
    }
    var spaced;
    it, spaced := ConsumeWhitespace(data, 2);
    if !spaced {
      return;
    }
    ok, w, it := ReadValue(data, it);
    if !ok { return; }
    ok, h, it := ReadValue(data, it);
    if !ok { return; }
    ok, max, it := ReadValue(data, it);
  }

  /** The filling loop; `ok` is false if it would read past the end. */
  method ReadPixels(data: seq<Byte>, start: nat, count: nat) returns (ok: bool, pixels: seq<u32>)
    requires start <= |data|
    ensures ok == (3 * count <= |data| - start)
    ensures ok ==> pixels == Pixels(data[start..], count)
  {
    pixels := [];
    ghost var rest := data[start..];
    var it := start;
    for i := 0 to count
      invariant it == start + 3 * i <= |data|
      invariant pixels == Pixels(rest, i)
    {
      if it + 3 > |data| {
        return false, [];
      }
      pixels := pixels + [Pixel(data[it], data[it + 1], data[it + 2])];
      it := it + 3;
    }
    ok := true;
  }

  /** The end of `ppm_load`, from libk/ppm.c:95 on. */
  method LoadPixels(data: seq<Byte>, it: nat, addr: nat, w: u32, h: u32, count: u32, fill: bool) returns (r: Result)
    requires it <= |data| && addr + |data| < WORD
    ensures r == Finish(w, h, count, data[it..], addr + |data|, fill)
  {
    if (addr + it + count * 3 % WORD) % WORD > addr + |data| {
      return Invalid;
    }
    if !fill {
      return Loaded(w, h, count, None);
    }
    var ok, pixels := ReadPixels(data, it, count);
    r := if ok then Loaded(w, h, count, Some(pixels)) else Stray;
  }

  /** `ppm_load`. */
  method PpmLoad(data: seq<Byte>, addr: nat, fill: bool) returns (r: Result)
    requires addr + |data| < WORD
    ensures r == Load(data, addr, fill)
  {
    if (addr + 2) % WORD > addr + |data| {
      return Invalid;
    }
    if |data| < 2 {
      return Stray;
    }
    var ok, w, h, max, it := ReadHeader(data);
    if !ok || max != 255 {
      return Invalid;
    }
    r := LoadPixels(data, it, addr, w, h, w * h % WORD, fill);
  }

  // -------------------------------------------------------------- round trip

  /** White space (blank, tabulator, carriage return, line feed) and comments, each from '#' to its line feed. */
  ghost predicate Blank(l: seq<Byte>)
    decreases |l|, 0
  {
    || l == []
    || (l[0] in {32, 9, 13, 10} && Blank(l[1..]))
    || (l[0] == 35 && Comment(l[1..]))
  }

  ghost predicate Comment(l: seq<Byte>)
    decreases |l|, 1
  {
    l != [] && if l[0] == 10 then Blank(l) else Comment(l[1..])
  }

  /** Nothing at the start that passes for white space or a comment. */
  ghost predicate Solid(s: seq<Byte>) { s != [] ==> s[0] !in {32, 9, 13, 10, 35} }

  /** A layout is skipped together with whatever white space follows it. */
  lemma {:induction false} SkipOver(l: seq<Byte>, s: seq<Byte>)
    requires Blank(l)
    ensures Skip(l + s) == Skip(s)
    decreases |l|, 0
  {
    if l == [] {
      assert l + s == s;
    } else {
      assert (l + s)[1..] == l[1..] + s;
      if l[0] == 35 {
        CommentOver(l[1..], s);
      } else {
        SkipOver(l[1..], s);
      }
    }
  }

  lemma {:induction false} CommentOver(l: seq<Byte>, s: seq<Byte>)
    requires Comment(l)
    ensures Skip(SkipLine(l + s)) == Skip(s)
    decreases |l|, 1
  {
    if l[0] == 10 {
      SkipOver(l, s);
    } else {
      assert (l + s)[1..] == l[1..] + s;
      CommentOver(l[1..], s);
    }
  }

  lemma {:induction false} DigitLenOf(d: seq<Byte>, s: seq<Byte>)
    requires AllDigits(d) && (s == [] || !IsDigit(s[0]))
    ensures DigitLen(d + s) == |d|
  {
    if d == [] {
      assert d + s == s;
    } else {
      assert d[0] in d && (d + s)[1..] == d[1..] + s;
      DigitLenOf(d[1..], s);
    }
  }

  lemma Concat(d: seq<Byte>, l: seq<Byte>, s: seq<Byte>)
    ensures d + l + s == d + (l + s)
    ensures (d + (l + s))[..|d|] == d && (d + (l + s))[|d|..] == l + s
  {
  }

  lemma TakeDigits(d: seq<Byte>, l: seq<Byte>, s: seq<Byte>)
    requires AllDigits(d) && d != [] && Layout(l)
    ensures TakeValue(d + l + s) == Some((Number(d) % WORD, Skip(s)))
  {
    Concat(d, l, s);
    DigitLenOf(d, l + s);
    SkipOver(l, s);
  }

  ghost predicate Layout(l: seq<Byte>) { l != [] && Blank(l) }

  lemma SkipStops(d: seq<Byte>, s: seq<Byte>)
    requires AllDigits(d) && d != []
    ensures Skip(d + s) == d + s
  {
    assert d[0] in d;
  }

  /** A raw PPM file: digit strings for width, height and the largest colour value, any layout between
      the parts of the header, and the pixel bytes. */
  ghost function WriteP6(dw: seq<Byte>, dh: seq<Byte>, dm: seq<Byte>,
                         l0: seq<Byte>, l1: seq<Byte>, l2: seq<Byte>, l3: seq<Byte>, raw: seq<Byte>): seq<Byte> {
    [80, 54] + (l0 + (dw + l1 + (dh + l2 + (dm + l3 + raw))))
  }

  ghost predicate Numeral(d: seq<Byte>) { d != [] && AllDigits(d) }

  lemma HeaderOf(dw: seq<Byte>, dh: seq<Byte>, dm: seq<Byte>,
                 l0: seq<Byte>, l1: seq<Byte>, l2: seq<Byte>, l3: seq<Byte>, raw: seq<Byte>)
    requires Numeral(dw) && Numeral(dh) && Numeral(dm)
    requires Layout(l0) && Layout(l1) && Layout(l2) && Layout(l3)
    ensures ParseHeader(WriteP6(dw, dh, dm, l0, l1, l2, l3, raw))
      == Header(Number(dw) % WORD, Number(dh) % WORD, Number(dm) % WORD, Skip(raw))
    ensures |raw| <= |WriteP6(dw, dh, dm, l0, l1, l2, l3, raw)|
  {
    var s2 := dm + l3 + raw;
    var s1 := dh + l2 + s2;
    var s0 := dw + l1 + s1;
    var data := MAGIC + (l0 + s0);
    assert data[..2] == MAGIC && data[2..] == l0 + s0;
    assert Skip(l0 + s0) == s0 by {
      SkipOver(l0, s0);
      SkipStops(dw, l1 + s1);
      Concat(dw, l1, s1);
    }
    assert TakeValue(s0) == Some((Number(dw) % WORD, s1)) by {
      TakeDigits(dw, l1, s1);
      SkipStops(dh, l2 + s2);
      Concat(dh, l2, s2);
    }
    assert TakeValue(s1) == Some((Number(dh) % WORD, s2)) by {
      TakeDigits(dh, l2, s2);
      SkipStops(dm, l3 + raw);
      Concat(dm, l3, raw);
    }
    TakeDigits(dm, l3, raw);
  }

  lemma LoadIs(data: seq<Byte>, addr: nat, fill: bool, hd: Header)
    requires ParseHeader(data) == hd && |data| >= 2 && addr + |data| < WORD
    ensures hd.Header? ==> |hd.rest| <= |data|
    ensures Load(data, addr, fill) == LoadBody(hd, addr + |data|, fill)
  {
    HeaderShrinks(data);
    MagicFits(data, addr);
  }

  /** Where there are two bytes, the first test passes. */
  lemma MagicFits(data: seq<Byte>, addr: nat)
    requires addr + |data| < WORD
    ensures |data| >= 2 ==> (addr + 2) % WORD <= addr + |data|
    ensures |data| < 2 ==> ((addr + 2) % WORD <= addr + |data| <==> addr + 2 >= WORD)
  {
    if addr + 2 < WORD {
      SmallMod(addr + 2);
    }
  }

  lemma SmallMod(x: nat)
    requires x < WORD
    ensures x % WORD == x
  {
  }

  lemma FinishInverts(w: u32, h: u32, count: u32, raw: seq<Byte>, end: nat)
    requires 3 * count < WORD && |raw| == 3 * count && end < WORD && |raw| <= end
    ensures var r := Finish(w, h, count, Skip(raw), end, true);
      if Solid(raw) then r == Loaded(w, h, count, Some(Pixels(raw, count))) else !r.Loaded?
  {
    SmallMod(3 * count);
    if Solid(raw) {
      assert Skip(raw) == raw;
      SmallMod(end);
    }
  }

  lemma BodyInverts(w: u32, h: u32, n: u32, raw: seq<Byte>, hd: Header, end: nat, r: Result)
    requires w * h == n && 3 * n < WORD && |raw| == 3 * n <= end < WORD
    requires hd == Header(w, h, 255, Skip(raw)) && r == LoadBody(hd, end, true)
    ensures if Solid(raw) then r == Loaded(w, h, n, Some(Pixels(raw, n))) else !r.Loaded?
  {
    SmallMod(n);
    FinishInverts(w, h, n, raw, end);
  }

  lemma LoadAfterHeader(data: seq<Byte>, addr: nat, w: u32, h: u32, n: u32, raw: seq<Byte>, hd: Header, r: Result)
    requires ParseHeader(data) == hd && 2 <= |data| && addr + |data| < WORD && r == Load(data, addr, true)
    requires w * h == n && 3 * n < WORD && |raw| == 3 * n <= |data| && hd == Header(w, h, 255, Skip(raw))
    ensures if Solid(raw) then r == Loaded(w, h, n, Some(Pixels(raw, n))) else !r.Loaded?
  {
    LoadIs(data, addr, true, hd);
    BodyInverts(w, h, n, raw, hd, addr + |data|, r);
  }

  /** A pixel from the most significant byte: full alpha, red, green and blue. */
  predicate IsPixel(p: u32, r: Byte, g: Byte, b: Byte) {
    p / 0x100_0000 == 255 && p / 0x10000 % 256 == r && p / 0x100 % 256 == g && p % 256 == b
  }

  /** `n` pixels whose red, green and blue are the bytes of `raw`, three by three. */
  ghost predicate IsImage(pixels: seq<u32>, raw: seq<Byte>, n: nat) {
    && |pixels| == n && 3 * n <= |raw|
    && forall i :: 0 <= i < n ==> IsPixel(pixels[i], raw[3 * i], raw[3 * i + 1], raw[3 * i + 2])
  }

  lemma PixelsAreImage(raw: seq<Byte>, n: nat)
    requires 3 * n <= |raw|
    ensures IsImage(Pixels(raw, n), raw, n)
  {
    forall i | 0 <= i < n ensures IsPixel(Pixels(raw, n)[i], raw[3 * i], raw[3 * i + 1], raw[3 * i + 2]) {
      PixelChannels(raw[3 * i], raw[3 * i + 1], raw[3 * i + 2]);
    }
  }

  /** The result is the image of `w` by `h` pixels that `raw` contains. */
  ghost predicate Shows(r: Result, w: u32, h: u32, raw: seq<Byte>) {
    && r.Loaded? && r.width == w && r.height == h && r.count == w * h
    && r.pixels.Some? && IsImage(r.pixels.value, raw, w * h)
  }

  lemma ShowsPixels(r: Result, w: u32, h: u32, n: u32, raw: seq<Byte>)
    requires n == w * h && |raw| == 3 * n
    requires if Solid(raw) then r == Loaded(w, h, n, Some(Pixels(raw, n))) else !r.Loaded?
    ensures Shows(r, w, h, raw) <==> Solid(raw)
  {
    PixelsAreImage(raw, n);
  }

  lemma HeaderIs(w: u32, h: u32, dw: seq<Byte>, dh: seq<Byte>, dm: seq<Byte>,
                 l0: seq<Byte>, l1: seq<Byte>, l2: seq<Byte>, l3: seq<Byte>,
                 raw: seq<Byte>, rest: seq<Byte>, data: seq<Byte>)
    requires Numeral(dw) && Numeral(dh) && Numeral(dm) && Number(dw) == w && Number(dh) == h && Number(dm) == 255
    requires Layout(l0) && Layout(l1) && Layout(l2) && Layout(l3)
    requires data == WriteP6(dw, dh, dm, l0, l1, l2, l3, raw) && rest == Skip(raw)
    ensures ParseHeader(data) == Header(w, h, 255, rest) && |raw| <= |data| && |data| >= 2
  {
    var hd := ParseHeader(data);
    assert hd == Header(Number(dw) % WORD, Number(dh) % WORD, Number(dm) % WORD, Skip(raw)) && |raw| <= |data| by {
      HeaderOf(dw, dh, dm, l0, l1, l2, l3, raw);
    }
    SmallMod(w);
    SmallMod(h);
  }

  /** The loader inverts the writer, whatever the layout, exactly when no pixel byte is taken for the
      end of the header: there are no pixels, or the first byte is neither white space nor '#'. */
  lemma LoadInverts(w: u32, h: u32, n: u32, dw: seq<Byte>, dh: seq<Byte>, dm: seq<Byte>,
                    l0: seq<Byte>, l1: seq<Byte>, l2: seq<Byte>, l3: seq<Byte>, raw: seq<Byte>,
                    addr: nat, data: seq<Byte>)
    requires Numeral(dw) && Numeral(dh) && Numeral(dm) && Number(dw) == w && Number(dh) == h && Number(dm) == 255
    requires Layout(l0) && Layout(l1) && Layout(l2) && Layout(l3)
    requires w * h == n && 3 * n < WORD && |raw| == 3 * n
    requires data == WriteP6(dw, dh, dm, l0, l1, l2, l3, raw) && addr + |data| < WORD
    ensures Shows(Load(data, addr, true), w, h, raw) <==> Solid(raw)
  {
    var rest := Skip(raw);
    HeaderIs(w, h, dw, dh, dm, l0, l1, l2, l3, raw, rest, data);
    var r := Load(data, addr, true);
    LoadAfterHeader(data, addr, w, h, n, raw, Header(w, h, 255, rest), r);
    ShowsPixels(r, w, h, n, raw);
  }

  /** With the printer's own numerals: what is printed as a header is loaded again. */
  lemma LoadInvertsPrinted(w: u32, h: u32, n: u32, l0: seq<Byte>, l1: seq<Byte>, l2: seq<Byte>, l3: seq<Byte>,
                           raw: seq<Byte>, addr: nat, max: nat, data: seq<Byte>)
    requires Layout(l0) && Layout(l1) && Layout(l2) && Layout(l3) && max == 255
    requires w * h == n && 3 * n < WORD && |raw| == 3 * n
    requires data == WriteP6(Printed(w, 10), Printed(h, 10), Printed(max, 10), l0, l1, l2, l3, raw)
    requires addr + |data| < WORD
    ensures Shows(Load(data, addr, true), w, h, raw) <==> Solid(raw)
  {
    NumberPrinted(w);
    NumberPrinted(h);
    NumberPrinted(max);
    LoadInverts(w, h, n, Printed(w, 10), Printed(h, 10), Printed(max, 10), l0, l1, l2, l3, raw, addr, data);
  }

  lemma SpacePixelIsShort(w: u32, h: u32, raw: seq<Byte>, rest: seq<Byte>, end: nat)
    requires |raw| == 3 <= end < WORD - 1 && raw[0] == 32 && !IsSpace(raw[1]) && raw[1] != HASH
    requires w == h == 1 && rest == Skip(raw)
    ensures LoadBody(Header(w, h, 255, rest), end, true) == Invalid
  {
    assert Skip(raw[1..]) == raw[1..];
    SmallMod(end + 1);
  }

  lemma LoadShort(data: seq<Byte>, addr: nat, w: u32, h: u32, raw: seq<Byte>, rest: seq<Byte>)
    requires ParseHeader(data) == Header(w, h, 255, rest) && 3 <= |data| && addr + |data| < WORD - 1
    requires |raw| == 3 && raw[0] == 32 && !IsSpace(raw[1]) && raw[1] != HASH
    requires w == h == 1 && rest == Skip(raw)
    ensures Load(data, addr, true) == Invalid
  {
    SpacePixelIsShort(w, h, raw, rest, addr + |data|);
    LoadIs(data, addr, true, Header(w, h, 255, rest));
  }

  /** A single pixel whose red is 32, and whose green is no white space, is lost: the first byte passes
      for white space, and what is left is too short. */
  lemma SpacePixelIsLost(dw: seq<Byte>, dh: seq<Byte>, dm: seq<Byte>,
                         l0: seq<Byte>, l1: seq<Byte>, l2: seq<Byte>, l3: seq<Byte>, raw: seq<Byte>,
                         addr: nat, data: seq<Byte>)
    requires Numeral(dw) && Numeral(dh) && Numeral(dm) && Number(dw) == 1 && Number(dh) == 1 && Number(dm) == 255
    requires Layout(l0) && Layout(l1) && Layout(l2) && Layout(l3)
    requires |raw| == 3 && raw[0] == 32 && !IsSpace(raw[1]) && raw[1] != HASH
    requires data == WriteP6(dw, dh, dm, l0, l1, l2, l3, raw) && addr + |data| < WORD - 1
    ensures Load(data, addr, true) == Invalid
  {
    var rest := Skip(raw);
    HeaderIs(1, 1, dw, dh, dm, l0, l1, l2, l3, raw, rest, data);
    LoadShort(data, addr, 1, 1, raw, rest);
  }

  // ------------------------------------------------------------ safe reading

  /** The sizing pass and the filling pass agree on every input that does not stray. */
  lemma PassesAgree(data: seq<Byte>, addr: nat)
    requires Load(data, addr, true) != Stray
    ensures var size, full := Load(data, addr, false), Load(data, addr, true);
      size == if full.Loaded? then full.(pixels := None) else full
  {
  }

  lemma ModAbsorbs(x: nat, y: nat)
    ensures (x + y % WORD) % WORD == (x + y) % WORD
  {
    assert x + y == x + y % WORD + y / WORD * WORD;
  }

  lemma FinishStrays(w: u32, h: u32, count: u32, rest: seq<Byte>, end: nat)
    requires |rest| <= end < WORD
    ensures Finish(w, h, count, rest, end, true) == Stray <==>
      var stop := end - |rest| + 3 * count; stop > end && stop % WORD <= end
  {
    ModAbsorbs(end - |rest|, count * 3);
  }

  /** The pixel bytes end past the buffer, but the 32-bit address where they end does not. */
  predicate PixelsStray(hd: Header, end: nat) {
    && hd.Header? && hd.max == 255
    && var stop := end - |hd.rest| + 3 * (hd.width * hd.height % WORD);
       stop > end && stop % WORD <= end
  }

  lemma BodyStrays(hd: Header, end: nat, fill: bool)
    requires end < WORD && (hd.Header? ==> |hd.rest| <= end)
    ensures LoadBody(hd, end, fill) == Stray <==> fill && PixelsStray(hd, end)
  {
    if hd.Header? {
      FinishStrays(hd.width, hd.height, hd.width * hd.height % WORD, hd.rest, end);
    }
  }

  /** Exactly when a read leaves the buffer: fewer than two bytes at the very end of the address space are
      searched for the magic number, or pixels are read as above. */
  lemma StraysExactly(data: seq<Byte>, addr: nat, fill: bool)
    requires addr + |data| < WORD
    ensures Load(data, addr, fill) == Stray <==>
      if |data| < 2 then addr + 2 >= WORD else fill && PixelsStray(ParseHeader(data), addr + |data|)
  {
    if |data| < 2 {
      MagicFits(data, addr);
    } else {
      var hd := ParseHeader(data);
      HeaderShrinks(data);
      BodyStrays(hd, addr + |data|, fill);
      LoadIs(data, addr, fill, hd);
    }
  }

  /** A single byte at the last address but one. */
  lemma ShortBufferStrays(fill: bool)
    ensures Load([80], 0xFFFF_FFFE, fill) == Stray
  {
    StraysExactly([80], 0xFFFF_FFFE, fill);
  }

  lemma LongRowStrays(w: u32, hd: Header, end: nat, r: Result)
    requires w == 0x5555_5556 && hd.Header? && hd == Header(w, 1, 255, hd.rest) && |hd.rest| == 2 <= end < WORD
    requires r == LoadBody(hd, end, true)
    ensures r == Stray
  {
    SmallMod(w);
    FinishStrays(w, 1, w, hd.rest, end);
    assert end - 2 + 3 * w == end + WORD;
    assert (end + WORD) % WORD == end;
  }

  lemma LoadLong(data: seq<Byte>, addr: nat, w: u32, hd: Header, r: Result)
    requires ParseHeader(data) == hd && 2 <= |data| && addr + |data| < WORD && r == Load(data, addr, true)
    requires w == 0x5555_5556 && hd.Header? && hd == Header(w, 1, 255, hd.rest) && |hd.rest| == 2
    ensures r == Stray
  {
    LoadIs(data, addr, true, hd);
    LongRowStrays(w, hd, addr + |data|, r);
  }

  /** Such files exist: one row of 0x55555556 pixels passes the length check with two bytes of data. */
  lemma WrappingStrays(dw: seq<Byte>, dh: seq<Byte>, dm: seq<Byte>,
                       l0: seq<Byte>, l1: seq<Byte>, l2: seq<Byte>, l3: seq<Byte>, raw: seq<Byte>,
                       addr: nat, data: seq<Byte>)
    requires Numeral(dw) && Numeral(dh) && Numeral(dm)
    requires Number(dw) == 0x5555_5556 && Number(dh) == 1 && Number(dm) == 255
    requires Layout(l0) && Layout(l1) && Layout(l2) && Layout(l3)
    requires |raw| == 2 && !IsSpace(raw[0]) && raw[0] != HASH
    requires data == WriteP6(dw, dh, dm, l0, l1, l2, l3, raw) && addr + |data| < WORD
    ensures Load(data, addr, true) == Stray
  {
    HeaderIs(0x5555_5556, 1, dw, dh, dm, l0, l1, l2, l3, raw, raw, data);
    LoadLong(data, addr, 0x5555_5556, Header(0x5555_5556, 1, 255, raw), Load(data, addr, true));
  }

  // --------------------------------------------------------------- acceptance

  lemma {:induction false} CommentMade(c: seq<Byte>, l: seq<Byte>)
    requires 10 !in c && l != [] && l[0] == 10 && Blank(l)
    ensures Comment(c + l)
    decreases |c|
  {
    if c == [] {
      assert c + l == l;
    } else {
      assert c[0] in c && (c + l)[1..] == c[1..] + l;
      CommentMade(c[1..], l);
    }
  }

  lemma {:induction false} SkipLineSplit(s: seq<Byte>) returns (c: seq<Byte>)
    ensures s == c + SkipLine(s) && 10 !in c && (SkipLine(s) != [] ==> SkipLine(s)[0] == 10)
  {
    c := [];
    if s != [] && s[0] != 10 {
      c := SkipLineSplit(s[1..]);
      c := [s[0]] + c;
    }
  }

  /** What is skipped is a layout, and what is left does not start like one; only at the very end of the file may a
      comment stay open. */
  lemma {:induction false} SkipSplit(s: seq<Byte>) returns (l: seq<Byte>)
    ensures s == l + Skip(s) && Solid(Skip(s)) && (Skip(s) != [] ==> Blank(l))
    decreases |s|
  {
    l := [];
    if s != [] && IsSpace(s[0]) {
      l := SkipSplit(s[1..]);
      ghost var m := [s[0]] + l;
      assert m[1..] == l;
      l := m;
    } else if s != [] && s[0] == HASH {
      l := CommentSplit(s);
    }
  }

  lemma {:induction false} CommentSplit(s: seq<Byte>) returns (l: seq<Byte>)
    requires s != [] && s[0] == HASH
    ensures s == l + Skip(s) && Solid(Skip(s)) && (Skip(s) != [] ==> Blank(l))
    decreases |s|, 0
  {
    var c := SkipLineSplit(s);
    var t := SkipLine(s);
    l := SkipSplit(t);
    if Skip(s) != [] {
      assert l != [] && l[0] == 10;
      assert c[0] == 35 && c == [35] + c[1..];
      CommentMade(c[1..], l);
      assert (c + l)[1..] == c[1..] + l;
    }
    l := c + l;
  }

  lemma TakeSplit(s: seq<Byte>, v: u32, rest: seq<Byte>) returns (d: seq<Byte>, l: seq<Byte>)
    requires TakeValue(s) == Some((v, rest))
    ensures s == d + l + rest && Numeral(d) && v == Number(d) % WORD
    ensures l != [] && Solid(rest) && (rest != [] ==> Layout(l))
  {
    var n := DigitLen(s);
    d := s[..n];
    l := SkipSplit(s[n..]);
  }

  /** Only raw PPM files have a header that parses: whatever is accepted starts with "P6" and three numbers,
      each followed by a layout.  (The last layout may end the file with an open comment.) */
  lemma HeaderSound(data: seq<Byte>, w: u32, h: u32, max: u32, rest: seq<Byte>)
    returns (dw: seq<Byte>, dh: seq<Byte>, dm: seq<Byte>, l0: seq<Byte>, l1: seq<Byte>, l2: seq<Byte>, l3: seq<Byte>)
    requires ParseHeader(data) == Header(w, h, max, rest)
    ensures data == WriteP6(dw, dh, dm, l0, l1, l2, l3, rest)
    ensures Numeral(dw) && Numeral(dh) && Numeral(dm)
    ensures w == Number(dw) % WORD && h == Number(dh) % WORD && max == Number(dm) % WORD
    ensures Layout(l0) && Layout(l1) && Layout(l2) && l3 != [] && (rest != [] ==> Layout(l3)) && Solid(rest)
  {
    var s := Skip(data[2..]);
    l0 := SkipSplit(data[2..]);
    var s1 := TakeValue(s).value.1;
    var s2 := TakeValue(s1).value.1;
    dw, l1 := TakeSplit(s, w, s1);
    dh, l2 := TakeSplit(s1, h, s2);
    dm, l3 := TakeSplit(s2, max, rest);
    assert data == data[..2] + data[2..];
  }

  /** What is behind an accepted header: an image if it is said to use 255 for full colour and the bytes are
      there, which the sizing pass only asks modulo 2^32. */
  lemma BodyExactly(hd: Header, end: nat, fill: bool)
    requires end < WORD && (hd.Header? ==> |hd.rest| <= end)
    ensures var r := LoadBody(hd, end, fill);
      && (r.Loaded? <==>
            && hd.Header? && hd.max == 255
            && var count := hd.width * hd.height % WORD;
               (end - |hd.rest| + 3 * count) % WORD <= end && (fill ==> 3 * count <= |hd.rest|))
      && (r.Loaded? ==>
            && r.width == hd.width && r.height == hd.height && r.count == hd.width * hd.height % WORD
            && (r.pixels.Some? <==> fill) && (fill ==> IsImage(r.pixels.value, hd.rest, r.count)))
  {
    if hd.Header? {
      var count := hd.width * hd.height % WORD;
      ModAbsorbs(end - |hd.rest|, count * 3);
      if 3 * count <= |hd.rest| {
        PixelsAreImage(hd.rest, count);
      }
    }
  }

  /** So with `HeaderSound` and `LoadIs`, everything that `ppm_load` accepts is a raw PPM file, and shown as such. */
  lemma AcceptsOnlyP6(data: seq<Byte>, addr: nat, hd: Header, r: Result)
    requires addr + |data| < WORD && ParseHeader(data) == hd && r == Load(data, addr, true) && r.Loaded?
    ensures hd.Header? && hd.max == 255 && r.width == hd.width && r.height == hd.height
    ensures r.pixels.Some? && IsImage(r.pixels.value, hd.rest, hd.width * hd.height % WORD)
  {
    var end := addr + |data|;
    assert (hd.Header? ==> |hd.rest| <= |data|) && r == LoadBody(hd, end, true) by {
      LoadIs(data, addr, true, hd);
    }
    BodyExactly(hd, end, true);
  }
}
