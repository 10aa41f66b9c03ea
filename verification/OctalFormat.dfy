// What ustar.c uses of the C library: snprintf with "%0Wo" (Pintos/lib/stdio.c)
// and strlcpy (Pintos/lib/string.c).
module OctalFormat {
  import opened Prelude

  function Pow8(n: nat): (p: nat)
    ensures p > 0
  {
    if n == 0 then 1 else 8 * Pow8(n - 1)
  }

  /** v in octal, padded with zeros to the width. */
  function Octal(v: nat, width: nat): (s: seq<byte>)
    ensures |s| >= width
    decreases v + width
  {
    if v == 0 && width == 0 then []
    else Octal(v / 8, if width == 0 then 0 else width - 1) + [48 + v % 8]
  }

  lemma {:induction false} OctalLength(v: nat, width: nat)
    ensures v < Pow8(width) ==> |Octal(v, width)| == width
    decreases width
  {
    if width > 0 { OctalLength(v / 8, width - 1); }
  }

  lemma {:induction false} OctalZero(width: nat)
    ensures |Octal(0, width)| == width && forall i | 0 <= i < width :: Octal(0, width)[i] == 48
  {
    if width > 0 { OctalZero(width - 1); }
  }

  const UINT_MAX := 0xffff_ffff

  // ----- snprintf of one unsigned number with "%0Wo" -----

  function Reversed(s: seq<byte>): (r: seq<byte>)
    ensures |r| == |s|
  {
    seq(|s|, i requires 0 <= i < |s| => s[|s| - 1 - i])
  }

  /** The aux structure of vsnprintf: characters go to the buffer until it is full. */
  class Output {
    const buffer: array<byte>
    const at: nat
    const maxLength: nat
    var p: nat
    var length: nat
    ghost const was: seq<byte>
    ghost var text: seq<byte>

    ghost predicate Valid()
      reads this, buffer
    {
      && at + maxLength <= buffer.Length == |was| && length == |text|
      && p == at + |Kept()|
      && buffer[..] == Overwrite(was, at, Kept())
    }

    ghost function Kept(): seq<byte>
      reads this
    {
      if |text| <= maxLength then text else text[..maxLength]
    }

    constructor (buffer: array<byte>, at: nat, bufSize: nat)
      requires at + bufSize <= buffer.Length
      ensures Valid() && this.buffer == buffer && this.at == at && maxLength == if bufSize > 0 then bufSize - 1 else 0
      ensures text == [] && was == buffer[..]
    {
      this.buffer, this.at, p, length := buffer, at, at, 0;
      maxLength := if bufSize > 0 then bufSize - 1 else 0;
      was, text := buffer[..], [];
    }

    /** vsnprintf_helper */
    method Put(ch: byte)
      requires Valid()
      modifies this, buffer
      ensures Valid() && text == old(text) + [ch]
    {
      if length < maxLength {
        buffer[p] := ch;
        p := p + 1;
      }
      length := length + 1;
      text := text + [ch];
      assert old(|text|) < maxLength ==> Kept() == old(Kept()) + [ch];
      assert old(|text|) >= maxLength ==> Kept() == old(Kept());
      assert buffer[..] == Overwrite(was, at, Kept());
    }

    /** output_dup of cnt zeros. */
    method PutZeros(cnt: nat)
      requires Valid()
      modifies this, buffer
      ensures Valid() && text == old(text) + Octal(0, cnt)
    {
      for i := 0 to cnt
        invariant Valid() && text == old(text) + Octal(0, i)
      {
        ZerosMore(i);
        Put(48);
      }
    }
  }

  lemma ZerosMore(n: nat)
    ensures Octal(0, n + 1) == Octal(0, n) + [48]
  {
  }

  /** The zeros that are missing in front of n digits. */
  function Missing(width: nat, n: nat): nat { if n < width then width - n else 0 }

  /** One more digit moves from the number to the reversed digits. */
  lemma DigitStep(value: nat, width: nat, v: nat, s: seq<byte>, cp: nat)
    requires v > 0 && |s| == cp <= 11 && v < Pow8(11 - cp)
    requires Octal(value, width) == Octal(v, Missing(width, cp)) + Reversed(s)
    ensures cp < 11 && v / 8 < Pow8(11 - (cp + 1))
    ensures Octal(value, width) == Octal(v / 8, Missing(width, cp + 1)) + Reversed(s + [48 + v % 8])
  {
    ReversedMore(s, 48 + v % 8);
  }

  lemma JustZero(width: nat)
    requires width > 0
    ensures Octal(0, width) == Octal(0, Missing(width, 1)) + Reversed([48])
  {
    ZerosMore(width - 1);
    assert Reversed([48]) == [48];
  }

  /** The digit loop of format_integer: the digits of value in reverse order, at least one. */
  method Digits(value: nat, width: nat) returns (buf: array<byte>, cp: nat)
    requires value <= UINT_MAX && width > 0
    ensures fresh(buf) && cp <= buf.Length
    ensures Octal(value, width) == Octal(0, Missing(width, cp)) + Reversed(buf[..cp])
  {
    buf, cp := new byte[64], 0;
    var v: nat := value;
    DigitBound();
    assert Octal(value, width) == Octal(v, Missing(width, cp)) + Reversed(buf[..cp]);
    hide Octal, Reversed, Missing;
    while v > 0
      invariant cp <= 11 && v < Pow8(11 - cp)
      invariant Octal(value, width) == Octal(v, Missing(width, cp)) + Reversed(buf[..cp])
      decreases v
    {
      DigitStep(value, width, v, buf[..cp], cp);
      ghost var before := buf[..cp];
      buf[cp] := 48 + v % 8;
      assert buf[..cp + 1] == before + [buf[cp]];
      v := v / 8;
      cp := cp + 1;
    }
    if cp < 1 { // the precision is 1
      buf[cp] := 48;
      cp := cp + 1;
      assert buf[..cp] == [48];
      JustZero(width);
    }
  }

  /** format_integer in base 8 with the flag 0 and no precision. */
  method FormatOctal(value: nat, width: nat, out: Output)
    requires out.Valid() && value <= UINT_MAX && width > 0
    modifies out, out.buffer
    ensures out.Valid() && out.text == old(out.text) + Octal(value, width)
  {
    hide Octal, Reversed, Pow8;
    var buf, cp := Digits(value, width);
    var padCnt := if cp < width then width - cp else 0;
    out.PutZeros(padCnt);
    PutReversed(buf, cp, out);
  }

  method PutReversed(buf: array<byte>, n: nat, out: Output)
    requires n <= buf.Length && out.Valid() && buf != out.buffer
    modifies out, out.buffer
    ensures out.Valid() && out.text == old(out.text) + Reversed(buf[..n])
  {
    var cp := n;
    ghost var digits, text := Reversed(buf[..cp]), out.text;
    ReversedAt(buf[..cp]);
    hide Reversed;
    while cp > 0
      invariant 0 <= cp <= |digits| && forall i | 0 <= i < cp :: buf[i] == digits[|digits| - 1 - i]
      invariant out.Valid() && out.text == text + digits[..|digits| - cp]
    {
      cp := cp - 1;
      ghost var n := |digits| - 1 - cp;
      assert digits[..n + 1] == digits[..n] + [digits[n]];
      out.Put(buf[cp]);
    }
    assert digits[..|digits|] == digits;
  }

  lemma ReversedAt(s: seq<byte>)
    ensures |Reversed(s)| == |s| && forall i | 0 <= i < |s| :: s[i] == Reversed(s)[|s| - 1 - i]
  {
  }

  lemma DigitBound()
    ensures Pow8(11) == 0x2_0000_0000 && Pow8(0) == 1
  {
  }

  lemma ReversedMore(s: seq<byte>, x: byte)
    ensures Reversed(s + [x]) == [x] + Reversed(s)
  {
  }

  /** What a buffer of bufSize bytes gets of a text: as much as fits before a final 0. */
  function Terminated(text: seq<byte>, bufSize: nat): seq<byte> {
    if bufSize == 0 then [] else (if |text| < bufSize then text else text[..bufSize - 1]) + [0]
  }

  /** snprintf(buffer + at, bufSize, "%0Wo", value); returns the length of the whole numeral. */
  method Snprintf(buffer: array<byte>, at: nat, bufSize: nat, width: nat, value: nat) returns (length: nat)
    requires at + bufSize <= buffer.Length && value <= UINT_MAX && width > 0
    modifies buffer
    ensures length == |Octal(value, width)|
    ensures buffer[..] == Overwrite(old(buffer[..]), at, Terminated(Octal(value, width), bufSize))
    ensures length < bufSize ==> Terminated(Octal(value, width), bufSize) == Octal(value, width) + [0]
  {
    hide Octal;
    var out := new Output(buffer, at, bufSize);
    FormatOctal(value, width, out);
    assert out.text == Octal(value, width);
    if bufSize > 0 {
      OverwriteOne(out.was, at, out.Kept(), 0);
      buffer[out.p] := 0;
    }
    length := out.length;
  }

  lemma OverwriteOne(s: seq<byte>, at: nat, x: seq<byte>, y: byte)
    requires at + |x| < |s|
    ensures Overwrite(s, at, x)[at + |x| := y] == Overwrite(s, at, x + [y])
  {
  }

  /** strlcpy(dst + at, src, size) */
  method Strlcpy(dst: array<byte>, at: nat, src: seq<byte>, size: nat) returns (srcLen: nat)
    requires at + size <= dst.Length
    modifies dst
    ensures srcLen == |src|
    ensures dst[..] == Overwrite(old(dst[..]), at, Terminated(src, size))
    ensures srcLen < size ==> Terminated(src, size) == src + [0]
  {
    srcLen := |src|;
    if size > 0 {
      var dstLen := size - 1;
      if srcLen < dstLen {
        dstLen := srcLen;
      }
      ghost var was := dst[..];
      forall i | 0 <= i < dstLen {
        dst[at + i] := src[i];
      }
      ghost var text := src[..dstLen];
      assert dst[..] == Overwrite(was, at, text);
      OverwriteOne(was, at, text, 0);
      hide Overwrite;
      dst[at + dstLen] := 0;
      assert text == if |src| < size then src else src[..size - 1];
    }
  }
}
