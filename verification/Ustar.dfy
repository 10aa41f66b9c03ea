// Headers of ustar archives: Pintos/lib/ustar.c.  Strings are the bytes before
// the terminating null byte.
module Ustar {
  import opened Prelude
  import opened OctalFormat

  // ----- strip_antisocial_prefixes -----

  const DOT: seq<byte> := [46]
  const DOT_DOT: seq<byte> := [46, 46]

  /** The length of the prefix "/", "./" or "../" that the name starts with, if any. */
  function AntisocialPrefix(s: seq<byte>): (n: nat)
    ensures n <= |s|
    ensures n > 0 ==> s[n - 1] == 47 && forall j | 0 <= j < n - 1 :: s[j] != 47
  {
    if |s| >= 1 && s[0] == 47 then 1
    else if |s| >= 2 && s[0] == 46 && s[1] == 47 then 2
    else if |s| >= 3 && s[0] == 46 && s[1] == 46 && s[2] == 47 then 3
    else 0
  }

  function Strip(s: seq<byte>): (r: seq<byte>)
    ensures AntisocialPrefix(r) == 0 && r != [] && r != DOT_DOT
    ensures AntisocialPrefix(s) == 0 && s != [] && s != DOT_DOT ==> r == s
  {
    if AntisocialPrefix(s) > 0 then Strip(s[AntisocialPrefix(s)..])
    else if s == [] || s == DOT_DOT then DOT else s
  }

  /** Stripping a stripped name changes nothing. */
  lemma StripIdempotent(s: seq<byte>)
    ensures Strip(Strip(s)) == Strip(s)
  {
  }

  lemma StripStep(s: seq<byte>)
    ensures AntisocialPrefix(s) > 0 ==> Strip(s) == Strip(s[AntisocialPrefix(s)..])
    ensures AntisocialPrefix(s) == 0 ==> Strip(s) == DOT || Strip(s) == s
  {
  }

  /** A "/", "./" or "../" in front is dropped, "" and ".." become ".", and every other name stays. */
  lemma StripLaws(s: seq<byte>)
    ensures Strip([47] + s) == Strip([46, 47] + s) == Strip([46, 46, 47] + s) == Strip(s)
    ensures Strip([]) == Strip([46, 46]) == [46]
    ensures !([47] <= s) && !([46, 47] <= s) && !([46, 46, 47] <= s) && s != [] && s != [46, 46] ==> Strip(s) == s
  {
    hide Strip, AntisocialPrefix;
    PrefixGone([47], s);
    PrefixGone([46, 47], s);
    PrefixGone([46, 46, 47], s);
    NoName();
    CleanStays(s);
  }

  lemma NoName()
    ensures Strip([]) == Strip([46, 46]) == [46]
  {
  }

  lemma CleanStays(s: seq<byte>)
    ensures !([47] <= s) && !([46, 47] <= s) && !([46, 46, 47] <= s) && s != [] && s != [46, 46] ==> Strip(s) == s
  {
    hide Strip;
    assert AntisocialPrefix(s) == 0 || AntisocialPrefix(s) == 1 || s[..2] == [46, 47] || s[..3] == [46, 46, 47];
    assert [47] <= s <==> |s| > 0 && s[0] == 47;
  }

  lemma PrefixGone(p: seq<byte>, s: seq<byte>)
    requires p == [47] || p == [46, 47] || p == [46, 46, 47]
    ensures Strip(p + s) == Strip(s)
  {
    hide Strip;
    StripStep(p + s);
    assert (p + s)[|p|..] == s;
    assert (p + s)[..|p|] == p;
  }

  /** What is left of the rest of a name is "." or a suffix of the name. */
  lemma {:induction false} StripIsSuffix(s: seq<byte>, p: nat)
    requires p <= |s|
    ensures Strip(s[p..]) == DOT || exists k :: p <= k <= |s| && Strip(s[p..]) == s[k..]
    decreases |s| - p
  {
    hide AntisocialPrefix, Strip;
    var n := AntisocialPrefix(s[p..]);
    StripStep(s[p..]);
    assert s[p..][n..] == s[p + n..];
    if n > 0 {
      StripIsSuffix(s, p + n);
    }
  }

  /** The index of the first '/' (strchr). */
  function FirstSlash(s: seq<byte>): (k: nat)
    requires 47 in s
    ensures k < |s| && s[k] == 47 && forall j | 0 <= j < k :: s[j] != 47
  {
    if s[0] == 47 then 0 else 1 + FirstSlash(s[1..])
  }

  method StripAntisocialPrefixes(fileName: seq<byte>) returns (r: seq<byte>)
    ensures r == Strip(fileName)
  {
    var p := 0;
    while AntisocialPrefix(fileName[p..]) > 0
      invariant p <= |fileName| && Strip(fileName[p..]) == Strip(fileName)
      decreases |fileName| - p
    {
      var rest := fileName[p..];
      assert rest[AntisocialPrefix(rest) - 1] == 47;
      var slash := FirstSlash(rest);
      assert slash + 1 == AntisocialPrefix(rest);
      assert rest[slash + 1..] == fileName[p + slash + 1..];
      p := p + slash + 1;
    }
    r := if p == |fileName| || fileName[p..] == DOT_DOT then DOT else fileName[p..];
  }

  // ----- Reading octal numbers -----

  const ULONG_MAX := 0xffff_ffff

  /** What parse_octal_field makes of the rest of a field; `any` tells that digits came before. */
  function ParseOctal(s: seq<byte>, value: nat, any: bool): Option<nat> {
    if s == [] then None
    else if 48 <= s[0] <= 55 then
      if value > ULONG_MAX / 8 then None else ParseOctal(s[1..], s[0] - 48 + value * 8, true)
    else if s[0] == 32 || s[0] == 0 then
      if any then Some(value) else None
    else None
  }

  predicate IsOctal(s: seq<byte>) { forall i | 0 <= i < |s| :: 48 <= s[i] <= 55 }

  /** The number that `value` becomes when these digits follow it. */
  function OctalValue(value: nat, s: seq<byte>): (v: nat)
    requires IsOctal(s)
    ensures v >= value
    decreases |s|
  {
    if s == [] then value else OctalValue(s[0] - 48 + value * 8, s[1..])
  }

  /** The first k bytes are the digits that make v, which fits, and a space or null byte follows. */
  ghost predicate ReadsAs(s: seq<byte>, value: nat, any: bool, k: nat, v: nat) {
    && k < |s| && (any || k > 0) && IsOctal(s[..k]) && (s[k] == 32 || s[k] == 0)
    && OctalValue(value, s[..k]) == v && v <= ULONG_MAX
  }

  lemma ReadsNext(s: seq<byte>, value: nat, any: bool, k: nat, v: nat)
    requires s != []
    ensures ReadsAs(s, value, any, k + 1, v) <==>
            48 <= s[0] <= 55 && ReadsAs(s[1..], s[0] - 48 + value * 8, true, k, v)
  {
    if k + 1 < |s| {
      var a, b := s[..k + 1], s[1..][..k];
      assert a[0] == s[0] && a[1..] == b && a == [s[0]] + b && s[1..][k] == s[k + 1];
      assert IsOctal(a) ==> IsOctal(b);
    }
  }

  /** A field is accepted exactly when it is a number that fits, and then with that number. */
  lemma {:induction false} OctalExactly(s: seq<byte>, value: nat, any: bool, v: nat)
    requires value <= ULONG_MAX
    ensures ParseOctal(s, value, any) == Some(v) <==> exists k :: ReadsAs(s, value, any, k, v)
  {
    if s != [] && 48 <= s[0] <= 55 {
      var next := s[0] - 48 + value * 8;
      forall k: nat | ReadsAs(s, value, any, k, v)
        ensures k > 0 && ReadsAs(s[1..], next, true, k - 1, v)
      {
        ReadsNext(s, value, any, k - 1, v);
      }
      forall k: nat | ReadsAs(s[1..], next, true, k, v)
        ensures ReadsAs(s, value, any, k + 1, v)
      {
        ReadsNext(s, value, any, k, v);
      }
      if next <= ULONG_MAX { OctalExactly(s[1..], next, true, v); }
    } else if s != [] {
      forall k: nat | ReadsAs(s, value, any, k, v)
        ensures k == 0
      {
        if k > 0 { ReadsNext(s, value, any, k - 1, v); }
      }
      if any && (s[0] == 32 || s[0] == 0) { assert s[..0] == [] && (v == value ==> ReadsAs(s, value, any, 0, v)); }
    }
  }

  /** A printed number is read back. */
  lemma {:induction false} ParseDigits(v: nat, width: nat, rest: seq<byte>)
    requires v <= ULONG_MAX
    ensures ParseOctal(Octal(v, width) + rest, 0, false) == ParseOctal(rest, v, v > 0 || width > 0)
    decreases v + width
  {
    if v == 0 && width == 0 {
      assert Octal(v, width) + rest == rest;
    } else {
      var before := Octal(v / 8, if width == 0 then 0 else width - 1);
      var digit: seq<byte> := [48 + v % 8];
      assert (before + digit) + rest == before + (digit + rest);
      ParseDigits(v / 8, if width == 0 then 0 else width - 1, digit + rest);
      assert (digit + rest)[1..] == rest;
    }
  }

  method ParseOctalField(s: array<byte>, at: nat, size: nat) returns (r: Option<nat>)
    requires at + size <= s.Length
    ensures r == ParseOctal(s[at..at + size], 0, false)
  {
    var value: nat := 0;
    for ofs := 0 to size
      invariant ParseOctal(s[at..at + size][ofs..], value, ofs > 0) == ParseOctal(s[at..at + size], 0, false)
    {
      var c := s[at + ofs];
      assert s[at..at + size][ofs..][0] == c && s[at..at + size][ofs..][1..] == s[at..at + size][ofs + 1..];
      if 48 <= c <= 55 {
        if value > ULONG_MAX / 8 {
          return None;
        }
        value := c - 48 + value * 8;
      } else if c == 32 || c == 0 {
        return if ofs > 0 then Some(value) else None;
      } else {
        return None;
      }
    }
    r := None;
  }

  // ----- The checksum -----

  /** The sum of the first n bytes, those of the chksum field counted as spaces. */
  function Chksum(h: seq<byte>, n: nat): (sum: nat)
    requires n <= |h|
    ensures sum <= 255 * n
  {
    if n == 0 then 0 else Chksum(h, n - 1) + if 148 <= n - 1 < 156 then 32 else h[n - 1]
  }

  method CalculateChksum(header: array<byte>) returns (chksum: nat)
    requires header.Length == 512
    ensures chksum == Chksum(header[..], 512)
  {
    chksum := 0;
    for i := 0 to 512
      invariant chksum == Chksum(header[..], i)
    {
      var inChksumField := i >= 148 && i < 156;
      chksum := chksum + if inChksumField then 32 else header[i];
    }
  }

  function Sum(s: seq<byte>): nat { if s == [] then 0 else Sum(s[..|s| - 1]) + s[|s| - 1] }

  const SPACES: seq<byte> := [32, 32, 32, 32, 32, 32, 32, 32]

  lemma {:induction false} ChksumOfPrefix(h: seq<byte>, n: nat)
    requires n <= |h| && |h| >= 156
    ensures Chksum(h, n) == Sum(Overwrite(h, 148, SPACES)[..n])
  {
    if n > 0 {
      ChksumOfPrefix(h, n - 1);
      var g := Overwrite(h, 148, SPACES);
      assert g[..n][..n - 1] == g[..n - 1];
      assert g[n - 1] == if 148 <= n - 1 < 156 then 32 else h[n - 1];
    }
  }

  /** The checksum is the sum of the header's bytes once its own field holds eight spaces. */
  lemma ChksumIsSum(h: seq<byte>)
    requires |h| == 512
    ensures Chksum(h, 512) == Sum(Overwrite(h, 148, SPACES))
  {
    ChksumOfPrefix(h, 512);
    var g := Overwrite(h, 148, SPACES);
    assert g[..512] == g;
  }

  /** The checksum does not depend on its own field, and any other single byte changes it. */
  lemma {:induction false} ChksumDiffers(h: seq<byte>, g: seq<byte>, k: nat, n: nat)
    requires n <= |h| == |g| && k < |h| && !(148 <= k < 156)
    requires forall i | 0 <= i < |h| && !(148 <= i < 156) && i != k :: h[i] == g[i]
    ensures Chksum(g, n) - Chksum(h, n) == if k < n then (g[k] as int) - (h[k] as int) else 0
  {
    if n > 0 { ChksumDiffers(h, g, k, n - 1); }
  }

  // ----- Fields -----

  ghost predicate Field(h: seq<byte>, at: nat, x: seq<byte>) {
    at + |x| <= |h| && h[at..at + |x|] == x
  }

  /** A write sets its own field and no other. */
  lemma FieldWrite(h: seq<byte>, at: nat, x: seq<byte>)
    requires at + |x| <= |h|
    ensures Field(Overwrite(h, at, x), at, x)
    ensures forall b: nat, y {:trigger Field(Overwrite(h, at, x), b, y)} |
              Field(h, b, y) && (b + |y| <= at || at + |x| <= b) :: Field(Overwrite(h, at, x), b, y)
  {
    forall b: nat, y {:trigger Field(Overwrite(h, at, x), b, y)} | Field(h, b, y) && (b + |y| <= at || at + |x| <= b)
      ensures Field(Overwrite(h, at, x), b, y)
    {
      var l := Overwrite(h, at, x)[b..b + |y|];
      forall i | 0 <= i < |y|
        ensures l[i] == y[i]
      {
        assert h[b + i] == h[b..b + |y|][i];
      }
    }
  }

  datatype Kind = Regular | Directory
  {
    function Flag(): byte { if Regular? then 48 else 53 }

    function Mode(): nat { if Regular? then 0x1a4 else 0x1ed } // 0644 and 0755 in octal
  }

  /** A 32-bit int passed for an unsigned one. */
  function Unsigned(size: int): nat
    requires -0x8000_0000 <= size < 0x8000_0000
  {
    if size < 0 then size + 0x1_0000_0000 else size
  }

  const MAGIC: seq<byte> := [117, 115, 116, 97, 114] // "ustar"
  const ROOT: seq<byte> := [114, 111, 111, 116]      // "root"
  const ZERO_7: seq<byte> := [48, 48, 48, 48, 48, 48, 48]

  lemma FieldsOfZeros(h: seq<byte>)
    requires |h| == 512 && forall i | 0 <= i < 512 :: h[i] == 0
    ensures forall at: nat, n: nat {:trigger Field(h, at, Zeros(n))} | at + n <= 512 :: Field(h, at, Zeros(n))
  {
  }

  lemma Pow8Values()
    ensures Pow8(7) == 0x20_0000 && Pow8(11) == 0x2_0000_0000
  {
  }

  /** Only bytes from lo up to hi have changed. */
  ghost predicate ChangedWithin(h: seq<byte>, g: seq<byte>, lo: nat, hi: nat) {
    |g| == |h| && lo <= hi <= |h| && g[..lo] == h[..lo] && g[hi..] == h[hi..]
  }

  lemma FieldsOutside(h: seq<byte>, g: seq<byte>, lo: nat, hi: nat)
    requires ChangedWithin(h, g, lo, hi)
    ensures forall b: nat, y {:trigger Field(g, b, y)} | Field(h, b, y) && (b + |y| <= lo || hi <= b) :: Field(g, b, y)
  {
    forall b: nat, y {:trigger Field(g, b, y)} | Field(h, b, y) && (b + |y| <= lo || hi <= b)
      ensures Field(g, b, y)
    {
      var l := g[b..b + |y|];
      forall i | 0 <= i < |y|
        ensures l[i] == y[i]
      {
        assert h[b + i] == h[b..b + |y|][i];
        if hi <= b {
          assert g[hi..][b + i - hi] == h[hi..][b + i - hi];
        } else {
          assert g[..lo][b + i] == h[..lo][b + i];
        }
      }
    }
  }

  lemma WriteWithin(h: seq<byte>, g: seq<byte>, at: nat, x: seq<byte>, lo: nat, hi: nat)
    requires ChangedWithin(h, g, lo, hi) && lo <= at && at + |x| <= hi
    ensures ChangedWithin(h, Overwrite(g, at, x), lo, hi)
  {
  }

  ghost predicate NameFields(h: seq<byte>, name: seq<byte>, kind: Kind)
    requires |name| <= 99
  {
    && Field(h, 0, name + [0]) && Field(h, |name| + 1, Zeros(99 - |name|))
    && Field(h, 100, Octal(kind.Mode(), 7) + [0])
    && Field(h, 108, ZERO_7 + [0]) && Field(h, 116, ZERO_7 + [0])
  }

  ghost predicate NumberFields(h: seq<byte>, kind: Kind, size: int)
    requires -0x8000_0000 <= size < 0x8000_0000
  {
    && Field(h, 124, Octal(Unsigned(size), 11) + [0])
    && Field(h, 136, Octal(1136102400, 11) + [0])
    && Field(h, 156, [kind.Flag()])
  }

  ghost predicate OriginFields(h: seq<byte>) {
    && Field(h, 257, MAGIC + [0]) && Field(h, 263, [48, 48])
    && Field(h, 265, ROOT + [0]) && Field(h, 270, Zeros(27))
    && Field(h, 297, ROOT + [0]) && Field(h, 302, Zeros(27))
  }

  /** All the fields of a header except the checksum. */
  ghost predicate Filled(h: seq<byte>, name: seq<byte>, kind: Kind, size: int)
    requires |name| <= 99 && -0x8000_0000 <= size < 0x8000_0000
  {
    && |h| == 512 && NameFields(h, name, kind) && NumberFields(h, kind, size) && OriginFields(h)
    && ZeroFields(h)
  }

  ghost predicate IsHeader(h: seq<byte>, name: seq<byte>, kind: Kind, size: int)
    requires |name| <= 99 && -0x8000_0000 <= size < 0x8000_0000
  {
    Filled(h, name, kind, size) && Field(h, 148, Octal(Chksum(h, 512), 7) + [0])
  }

  method FillName(name: seq<byte>, kind: Kind, header: array<byte>)
    requires header.Length == 512 && |name| <= 99 && Field(header[..], |name| + 1, Zeros(99 - |name|))
    modifies header
    ensures NameFields(header[..], name, kind) && ChangedWithin(old(header[..]), header[..], 0, 124)
  {
    hide Field, Octal, Pow8, Overwrite, ChangedWithin, Terminated, Zeros;
    Pow8Values();
    OctalLength(kind.Mode(), 7);
    ghost var h := header[..];
    assert ChangedWithin(h, h, 0, 124) by { Unchanged(h, 0, 124); }
    WriteWithin(h, header[..], 0, name + [0], 0, 124);
    FieldWrite(header[..], 0, name + [0]);
    var _ := Strlcpy(header, 0, name, 100);
    WriteWithin(h, header[..], 100, Octal(kind.Mode(), 7) + [0], 0, 124);
    FieldWrite(header[..], 100, Octal(kind.Mode(), 7) + [0]);
    var _ := Snprintf(header, 100, 8, 7, kind.Mode());
    WriteWithin(h, header[..], 108, ZERO_7 + [0], 0, 124);
    FieldWrite(header[..], 108, ZERO_7 + [0]);
    var _ := Strlcpy(header, 108, ZERO_7, 8);
    WriteWithin(h, header[..], 116, ZERO_7 + [0], 0, 124);
    FieldWrite(header[..], 116, ZERO_7 + [0]);
    var _ := Strlcpy(header, 116, ZERO_7, 8);
  }

  method FillNumbers(kind: Kind, size: int, header: array<byte>)
    requires header.Length == 512 && -0x8000_0000 <= size < 0x8000_0000
    modifies header
    ensures NumberFields(header[..], kind, size) && ChangedWithin(old(header[..]), header[..], 124, 157)
  {
    hide Field, Octal, Pow8, Overwrite, ChangedWithin, Terminated;
    Pow8Values();
    OctalLength(Unsigned(size), 11);
    OctalLength(1136102400, 11);
    ghost var h := header[..];
    assert ChangedWithin(h, h, 124, 157) by { Unchanged(h, 124, 157); }
    WriteWithin(h, header[..], 124, Octal(Unsigned(size), 11) + [0], 124, 157);
    FieldWrite(header[..], 124, Octal(Unsigned(size), 11) + [0]);
    var _ := Snprintf(header, 124, 12, 11, Unsigned(size));
    WriteWithin(h, header[..], 136, Octal(1136102400, 11) + [0], 124, 157);
    FieldWrite(header[..], 136, Octal(1136102400, 11) + [0]);
    var _ := Snprintf(header, 136, 12, 11, 1136102400);
    WriteWithin(h, header[..], 156, [kind.Flag()], 124, 157);
    FieldWrite(header[..], 156, [kind.Flag()]);
    SetByte(header, 156, kind.Flag());
  }

  method FillOrigin(header: array<byte>)
    requires header.Length == 512 && OriginZeros(header[..])
    modifies header
    ensures OriginFields(header[..]) && ChangedWithin(old(header[..]), header[..], 257, 329)
  {
    ghost var h := header[..];
    hide Field, Overwrite, ChangedWithin, Terminated;
    assert ChangedWithin(h, h, 257, 329) by { Unchanged(h, 257, 329); }
    WriteWithin(h, header[..], 257, MAGIC + [0], 257, 329);
    FieldWrite(header[..], 257, MAGIC + [0]);
    var _ := Strlcpy(header, 257, MAGIC, 6);
    WriteWithin(h, header[..], 263, [48, 48], 257, 329);
    FieldWrite(header[..], 263, [48, 48]);
    SetTwo(header, 263, 48, 48);
    WriteWithin(h, header[..], 297, ROOT + [0], 257, 329);
    FieldWrite(header[..], 297, ROOT + [0]);
    var _ := Strlcpy(header, 297, ROOT, 32);
    WriteWithin(h, header[..], 265, ROOT + [0], 257, 329);
    FieldWrite(header[..], 265, ROOT + [0]);
    var _ := Strlcpy(header, 265, ROOT, 32);
  }

  lemma Unchanged(h: seq<byte>, lo: nat, hi: nat)
    requires lo <= hi <= |h|
    ensures ChangedWithin(h, h, lo, hi)
  {
  }

  lemma NameFieldsStay(h: seq<byte>, g: seq<byte>, lo: nat, hi: nat, name: seq<byte>, kind: Kind)
    requires |name| <= 99 && NameFields(h, name, kind) && ChangedWithin(h, g, lo, hi) && 124 <= lo
    ensures NameFields(g, name, kind)
  {
    Pow8Values();
    OctalLength(kind.Mode(), 7);
    FieldsOutside(h, g, lo, hi);
    hide Field, ChangedWithin, Octal, Pow8;
  }

  lemma NumberFieldsStay(h: seq<byte>, g: seq<byte>, lo: nat, hi: nat, kind: Kind, size: int)
    requires -0x8000_0000 <= size < 0x8000_0000 && NumberFields(h, kind, size)
    requires ChangedWithin(h, g, lo, hi) && 157 <= lo
    ensures NumberFields(g, kind, size)
  {
    Pow8Values();
    OctalLength(Unsigned(size), 11);
    OctalLength(1136102400, 11);
    FieldsOutside(h, g, lo, hi);
    hide Field, ChangedWithin, Octal, Pow8;
  }

  /** The fields that stay zero. */
  ghost predicate ZeroFields(h: seq<byte>) {
    Field(h, 157, Zeros(100)) && Field(h, 329, Zeros(183))
  }

  ghost predicate OriginZeros(h: seq<byte>) {
    Field(h, 270, Zeros(27)) && Field(h, 302, Zeros(27))
  }

  lemma ZerosStay(h: seq<byte>, g: seq<byte>, lo: nat, hi: nat)
    requires ChangedWithin(h, g, lo, hi) && (hi <= 157 || (257 <= lo && hi <= 329))
    ensures ZeroFields(h) ==> ZeroFields(g)
    ensures hi <= 157 && OriginZeros(h) ==> OriginZeros(g)
  {
    FieldsOutside(h, g, lo, hi);
    hide Field, ChangedWithin;
  }

  /** ustar_make_header up to the checksum. */
  method FillFields(name: seq<byte>, kind: Kind, size: int, header: array<byte>)
    requires header.Length == 512 && |name| <= 99 && -0x8000_0000 <= size < 0x8000_0000
    modifies header
    ensures Filled(header[..], name, kind, size)
  {
    forall i | 0 <= i < 512 {
      header[i] := 0;
    }
    FieldsOfZeros(header[..]);
    ghost var h0 := header[..];
    assert ZeroFields(h0) && OriginZeros(h0);
    FillName(name, kind, header);
    ghost var h1 := header[..];
    hide Field, ChangedWithin, NameFields, NumberFields, OriginFields, ZeroFields;
    ZerosStay(h0, h1, 0, 124);
    FillNumbers(kind, size, header);
    ghost var h2 := header[..];
    ZerosStay(h1, h2, 124, 157);
    NameFieldsStay(h1, h2, 124, 157, name, kind);
    FillOrigin(header);
    ghost var h3 := header[..];
    ZerosStay(h2, h3, 257, 329);
    NameFieldsStay(h2, h3, 257, 329, name, kind);
    NumberFieldsStay(h2, h3, 257, 329, kind, size);
  }

  method SetByte(header: array<byte>, at: nat, x: byte)
    requires at < header.Length
    modifies header
    ensures header[..] == Overwrite(old(header[..]), at, [x])
  {
    header[at] := x;
  }

  method SetTwo(header: array<byte>, at: nat, x: byte, y: byte)
    requires at + 1 < header.Length
    modifies header
    ensures header[..] == Overwrite(old(header[..]), at, [x, y])
  {
    header[at], header[at + 1] := x, y;
  }

  /** ustar_make_header */
  method MakeHeader(fileName: seq<byte>, kind: Kind, size: int, header: array<byte>) returns (ok: bool)
    requires header.Length == 512 && -0x8000_0000 <= size < 0x8000_0000
    modifies header
    ensures ok <==> |Strip(fileName)| <= 99
    ensures if ok then IsHeader(header[..], Strip(fileName), kind, size) else header[..] == old(header[..])
  {
    var name := StripAntisocialPrefixes(fileName);
    if |name| > 99 {
      return false;
    }
    FillFields(name, kind, size, header);
    var chksum := CalculateChksum(header);
    ghost var h := header[..];
    Pow8Values();
    OctalLength(chksum, 7);
    var _ := Snprintf(header, 148, 8, 7, chksum);
    ChksumStays(h, header[..], name, kind, size, chksum);
    return true;
  }

  /** Filling in the checksum keeps the other fields and the checksum itself. */
  lemma ChksumStays(h: seq<byte>, g: seq<byte>, name: seq<byte>, kind: Kind, size: int, chksum: nat)
    requires |name| <= 99 && -0x8000_0000 <= size < 0x8000_0000
    requires Filled(h, name, kind, size) && chksum == Chksum(h, 512)
    requires |Octal(chksum, 7)| == 7 && g == Overwrite(h, 148, Octal(chksum, 7) + [0])
    ensures IsHeader(g, name, kind, size)
  {
    var x := Octal(chksum, 7) + [0];
    FieldWrite(h, 148, x);
    assert ChangedWithin(h, g, 148, 156);
    ChksumDiffers(h, g, 0, 512) by { assert h[0] == g[0]; }
    NameFieldsStay(h, g, 148, 156, name, kind);
    NumberFieldsAround(h, g, kind, size);
    OriginFieldsAround(h, g);
    hide Octal, Field, NameFields, NumberFields, OriginFields;
  }

  lemma NumberFieldsAround(h: seq<byte>, g: seq<byte>, kind: Kind, size: int)
    requires -0x8000_0000 <= size < 0x8000_0000 && NumberFields(h, kind, size) && ChangedWithin(h, g, 148, 156)
    ensures NumberFields(g, kind, size)
  {
    Pow8Values();
    OctalLength(Unsigned(size), 11);
    OctalLength(1136102400, 11);
    FieldsOutside(h, g, 148, 156);
    hide Field, ChangedWithin, Octal, Pow8;
  }

  lemma OriginFieldsAround(h: seq<byte>, g: seq<byte>)
    requires OriginFields(h) && ZeroFields(h) && ChangedWithin(h, g, 148, 156)
    ensures OriginFields(g) && ZeroFields(g)
  {
    FieldsOutside(h, g, 148, 156);
    hide Field, ChangedWithin;
  }

  // ----- ustar_parse_header -----

  datatype ParseError =
    | NotUstar | InvalidVersion | CorruptChksum | ChksumMismatch | NameTooLong | UnimplementedType
    | CorruptSize | FileTooLarge

  datatype Parsed = EndOfArchive | Entry(name: seq<byte>, kind: Kind, size: nat) | Error(error: ParseError)

  /** The string at the start of s. */
  function CString(s: seq<byte>): seq<byte> {
    if s == [] || s[0] == 0 then [] else [s[0]] + CString(s[1..])
  }

  lemma {:induction false} CStringEnds(s: seq<byte>, t: seq<byte>)
    requires 0 !in t && t + [0] <= s
    ensures CString(s) == t
  {
    if t != [] {
      assert t[0] == (t + [0])[0] == s[0] && t[0] in t;
      assert t[1..] + [0] == (t + [0])[1..] <= s[1..];
      assert forall x | x in t[1..] :: x in t;
      CStringEnds(s[1..], t[1..]);
    }
  }

  const INT_MAX := 0x7fff_ffff

  /** The tests of ustar_parse_header after the one for the end of the archive, in their order. */
  function ParseFields(h: seq<byte>): Parsed
    requires |h| == 512
  {
    var chksum := ParseOctal(h[148..156], 0, false);
    var size := ParseOctal(h[124..136], 0, false);
    if h[257..263] != MAGIC + [0] then Error(NotUstar)
    else if h[263] != 48 || h[264] != 48 then Error(InvalidVersion)
    else if chksum == None then Error(CorruptChksum)
    else if chksum.value != Chksum(h, 512) then Error(ChksumMismatch)
    else if h[99] != 0 || h[345] != 0 then Error(NameTooLong)
    else if h[156] == Directory.Flag() then Entry(Strip(CString(h[..100])), Directory, 0)
    else if h[156] != Regular.Flag() then Error(UnimplementedType)
    else if size == None then Error(CorruptSize)
    else if size.value > INT_MAX then Error(FileTooLarge)
    else Entry(Strip(CString(h[..100])), Regular, size.value)
  }

  function Parse(h: seq<byte>): Parsed
    requires |h| == 512
  {
    if h == Zeros(512) then EndOfArchive else ParseFields(h)
  }

  method IsAllZeros(block: array<byte>, cnt: nat) returns (r: bool)
    requires cnt <= block.Length
    ensures r <==> block[..cnt] == Zeros(cnt)
  {
    for k := 0 to cnt
      invariant forall i | 0 <= i < k :: block[i] == 0
    {
      if block[k] != 0 {
        assert block[..cnt][k] != Zeros(cnt)[k];
        return false;
      }
    }
    return true;
  }

  /** ustar_parse_header */
  method ParseHeader(header: array<byte>) returns (r: Parsed)
    requires header.Length == 512
    ensures r == Parse(header[..])
  {
    assert header[..512] == header[..];
    var zeros := IsAllZeros(header, 512);
    if zeros {
      return EndOfArchive;
    }
    ghost var h := header[..];
    assert h[148..156] == header[148..156] && h[124..136] == header[124..136];
    assert h[257..263] == header[257..263] && h[..100] == header[..100];
    if header[257..263] != MAGIC + [0] {
      return Error(NotUstar);
    } else if header[263] != 48 || header[264] != 48 {
      return Error(InvalidVersion);
    }
    var chksum := ParseOctalField(header, 148, 8);
    if chksum == None {
      return Error(CorruptChksum);
    }
    var calculated := CalculateChksum(header);
    if chksum.value != calculated {
      return Error(ChksumMismatch);
    } else if header[99] != 0 || header[345] != 0 {
      return Error(NameTooLong);
    } else if header[156] != Regular.Flag() && header[156] != Directory.Flag() {
      return Error(UnimplementedType);
    }
    var size := 0;
    if header[156] == Regular.Flag() {
      var field := ParseOctalField(header, 124, 12);
      if field == None {
        return Error(CorruptSize);
      } else if field.value > INT_MAX {
        return Error(FileTooLarge);
      }
      size := field.value;
    }
    var name := StripAntisocialPrefixes(CString(header[..100]));
    return Entry(name, if header[156] == Regular.Flag() then Regular else Directory, size);
  }

  // ----- The round trip -----

  /** A header that was made parses to what it was made from.  It does unless a regular file's
      size was negative: that is written as an unsigned number, which is too large to accept. */
  lemma RoundTrip(h: seq<byte>, fileName: seq<byte>, kind: Kind, size: int)
    requires -0x8000_0000 <= size < 0x8000_0000 && 0 !in fileName && |Strip(fileName)| <= 99
    requires IsHeader(h, Strip(fileName), kind, size)
    ensures Parse(h) ==
            if kind.Directory? then Entry(Strip(fileName), kind, 0)
            else if size < 0 then Error(FileTooLarge) else Entry(Strip(fileName), kind, size)
  {
    var name := Strip(fileName);
    NoNullInStrip(fileName);
    MadeFields(h, name, kind, size);
    StripIdempotent(fileName);
    assert h[257] != Zeros(512)[257];
    hide Strip, Chksum, IsHeader, Octal, ParseOctal, CString;
  }

  lemma NoNullInStrip(s: seq<byte>)
    requires 0 !in s
    ensures 0 !in Strip(s)
  {
    assert s[0..] == s;
    StripIsSuffix(s, 0);
  }

  /** What the parser finds in the fields of a header that was made. */
  lemma MadeFields(h: seq<byte>, name: seq<byte>, kind: Kind, size: int)
    requires -0x8000_0000 <= size < 0x8000_0000 && 0 !in name && |name| <= 99 && IsHeader(h, name, kind, size)
    ensures |h| == 512 && h[257] == 117 && h[257..263] == MAGIC + [0] && h[263] == 48 && h[264] == 48
    ensures ParseOctal(h[148..156], 0, false) == Some(Chksum(h, 512))
    ensures ParseOctal(h[124..136], 0, false) == Some(Unsigned(size))
    ensures h[99] == 0 && h[345] == 0 && h[156] == kind.Flag() && CString(h[..100]) == name
  {
    hide Octal, Chksum, Strip, CString, ParseOctal, Field, Pow8;
    Pow8Values();
    MadeNumber(h, 148, 7, Chksum(h, 512));
    MadeNumber(h, 124, 11, Unsigned(size));
    MadeName(h, name);
    MadeMagic(h);
    FieldByte(h, 263, [48, 48], 0);
    FieldByte(h, 263, [48, 48], 1);
    FieldByte(h, 156, [kind.Flag()], 0);
    FieldByte(h, 329, Zeros(183), 16);
  }

  lemma MadeMagic(h: seq<byte>)
    requires |h| == 512 && Field(h, 257, MAGIC + [0])
    ensures h[257] == 117 && h[257..263] == MAGIC + [0]
  {
    assert h[257..263][0] == h[257];
  }

  /** The other numbers of a made header: permissions 644 or 755 in octal, owner 0, and 2006-01-01. */
  lemma MadeNumbers(h: seq<byte>, name: seq<byte>, kind: Kind, size: int)
    requires -0x8000_0000 <= size < 0x8000_0000 && |name| <= 99 && IsHeader(h, name, kind, size)
    ensures |h| == 512
    ensures ParseOctal(h[100..108], 0, false) == Some(if kind.Regular? then 6 * 64 + 4 * 8 + 4 else 7 * 64 + 5 * 8 + 5)
    ensures ParseOctal(h[108..116], 0, false) == Some(0) && ParseOctal(h[116..124], 0, false) == Some(0)
    ensures ParseOctal(h[136..148], 0, false) == Some(1136102400)
  {
    hide Octal, Chksum, ParseOctal, Field, Pow8;
    Pow8Values();
    ZerosAreOctal();
    MadeNumber(h, 100, 7, kind.Mode());
    MadeNumber(h, 108, 7, 0);
    MadeNumber(h, 116, 7, 0);
    MadeNumber(h, 136, 11, 1136102400);
  }

  lemma ZerosAreOctal()
    ensures Octal(0, 7) == ZERO_7
  {
    assert Octal(0, 1) == [48];
    assert Octal(0, 2) == [48, 48];
    assert Octal(0, 3) == [48, 48, 48];
    assert Octal(0, 4) == [48, 48, 48, 48];
    assert Octal(0, 5) == [48, 48, 48, 48, 48];
    assert Octal(0, 6) == [48, 48, 48, 48, 48, 48];
  }

  lemma FieldByte(h: seq<byte>, at: nat, x: seq<byte>, i: nat)
    requires Field(h, at, x) && i < |x|
    ensures h[at + i] == x[i]
  {
    assert h[at..at + |x|][i] == h[at + i];
  }

  lemma MadeNumber(h: seq<byte>, at: nat, width: nat, v: nat)
    requires v <= ULONG_MAX && v < Pow8(width) && width > 0 && Field(h, at, Octal(v, width) + [0])
    ensures at + width + 1 <= |h| && ParseOctal(h[at..at + width + 1], 0, false) == Some(v)
  {
    OctalLength(v, width);
    ParseDigits(v, width, [0]);
  }

  lemma MadeName(h: seq<byte>, name: seq<byte>)
    requires |h| == 512 && |name| <= 99 && 0 !in name
    requires Field(h, 0, name + [0]) && Field(h, |name| + 1, Zeros(99 - |name|))
    ensures h[99] == 0 && CString(h[..100]) == name
  {
    LastNameByte(h, name);
    assert h[0..|name| + 1] == name + [0];
    assert name + [0] <= h[..100];
    CStringEnds(h[..100], name);
  }

  lemma LastNameByte(h: seq<byte>, name: seq<byte>)
    requires |h| == 512 && |name| <= 99 && Field(h, 0, name + [0]) && Field(h, |name| + 1, Zeros(99 - |name|))
    ensures h[99] == 0
  {
    if |name| == 99 {
      assert h[0..100][99] == 0;
    } else {
      assert h[|name| + 1..100][99 - |name| - 1] == 0;
    }
  }

  /** Which blocks are accepted, whatever the order of the tests. */
  ghost predicate Acceptable(h: seq<byte>)
    requires |h| == 512
  {
    && h[257..263] == [117, 115, 116, 97, 114, 0] && h[263..265] == [48, 48] && h[99] == 0 && h[345] == 0
    && (exists k :: ReadsAs(h[148..156], 0, false, k, Sum(Overwrite(h, 148, SPACES))))
    && (h[156] == 53
        || (h[156] == 48 && exists k, size :: size <= 0x7fff_ffff && ReadsAs(h[124..136], 0, false, k, size)))
  }

  lemma AcceptsExactly(h: seq<byte>)
    requires |h| == 512
    ensures Parse(h).Entry? <==> Acceptable(h)
  {
    ChksumIsSum(h);
    OctalExactly(h[148..156], 0, false, Sum(Overwrite(h, 148, SPACES)));
    SizeExactly(h[124..136]);
    assert h[263..265] == [h[263], h[264]];
    assert h[257..263] == [117, 115, 116, 97, 114, 0] ==> h[257] == h[257..263][0] == 117;
    assert h[257] == 117 ==> h[257] != Zeros(512)[257];
    hide Chksum, ParseOctal, Strip, CString, ReadsAs, Sum;
  }

  lemma SizeExactly(s: seq<byte>)
    ensures ParseOctal(s, 0, false).Some? && ParseOctal(s, 0, false).value <= INT_MAX <==>
            exists k, size :: size <= 0x7fff_ffff && ReadsAs(s, 0, false, k, size)
  {
    hide ParseOctal, ReadsAs;
    if ParseOctal(s, 0, false).Some? {
      OctalExactly(s, 0, false, ParseOctal(s, 0, false).value);
    }
    if k, size :| size <= 0x7fff_ffff && ReadsAs(s, 0, false, k, size) {
      OctalExactly(s, 0, false, size);
    }
  }

  lemma {:induction false} CStringHasNoNull(s: seq<byte>)
    ensures 0 !in CString(s) && |CString(s)| <= |s| && (s != [] && s[|s| - 1] == 0 ==> |CString(s)| < |s|)
  {
    if s != [] && s[0] != 0 { CStringHasNoNull(s[1..]); }
  }

  /** What was read can be written again: a header made from an accepted entry gives that entry. */
  lemma RemadeIsRead(h: seq<byte>, g: seq<byte>)
    requires |h| == 512 && Parse(h).Entry?
    ensures |Parse(h).name| <= 99 && 0 !in Parse(h).name && Strip(Parse(h).name) == Parse(h).name
    ensures Parse(h).size < 0x8000_0000
    ensures IsHeader(g, Parse(h).name, Parse(h).kind, Parse(h).size) ==> |g| == 512 && Parse(g) == Parse(h)
  {
    var e := Parse(h);
    EntryName(h);
    assert e.size <= INT_MAX && (e.kind.Directory? ==> e.size == 0);
    hide Parse, Strip, IsHeader;
    if IsHeader(g, e.name, e.kind, e.size) {
      HeaderSize(g, e.name, e.kind, e.size);
      RoundTrip(g, e.name, e.kind, e.size);
    }
  }

  lemma HeaderSize(g: seq<byte>, name: seq<byte>, kind: Kind, size: int)
    requires |name| <= 99 && -0x8000_0000 <= size < 0x8000_0000 && IsHeader(g, name, kind, size)
    ensures |g| == 512
  {
  }

  lemma EntryName(h: seq<byte>)
    requires |h| == 512 && Parse(h).Entry?
    ensures var name := Parse(h).name;
            |name| <= 99 && 0 !in name && Strip(name) == name
  {
    hide Chksum, ParseOctal, Strip, CString, Zeros;
    var s := CString(h[..100]);
    CStringHasNoNull(h[..100]);
    NoNullInStrip(s);
    StripIdempotent(s);
    assert s[0..] == s;
    StripIsSuffix(s, 0);
  }

  /** Any change of a single byte outside the checksum field makes the parser reject a header
      that it accepted. */
  lemma CorruptionIsDetected(h: seq<byte>, g: seq<byte>, k: nat)
    requires |h| == |g| == 512 && k < 512 && !(148 <= k < 156) && h[k] != g[k]
    requires forall i | 0 <= i < 512 && i != k :: h[i] == g[i]
    requires Parse(h).Entry?
    ensures Parse(g).Error?
  {
    ChksumDiffers(h, g, k, 512);
    assert h[148..156] == g[148..156];
    assert h[257..263][0] == h[257] && h[257..263][1] == h[258];
    assert g != Zeros(512) by {
      assert h[257] == 117 && h[258] == 115;
      assert g[257] != Zeros(512)[257] || g[258] != Zeros(512)[258];
    }
    hide Chksum, ParseOctal, Strip, CString, Zeros;
  }
}
