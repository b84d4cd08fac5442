/** Byte-level reading of a recording file held in memory, and the few text
    helpers the plugin uses (case-insensitive comparison, bounded
    `g_snprintf` output, decimal rendering of 64-bit ids). */
module Bytes {

  newtype byte = x: int | 0 <= x < 256

  datatype Option<T> = None | Some(value: T)

  /** The bytes `fread` delivers when asked for `n` bytes at file position
      `pos`: fewer than `n`, possibly none, when the file ends first. */
  function Read(file: seq<byte>, pos: nat, n: nat): (r: seq<byte>)
    ensures |r| <= n
    ensures pos + n <= |file| ==> |r| == n
    ensures pos + |r| <= |file| || r == []
    ensures |r| < n ==> pos + |r| >= |file|
  {
    if pos >= |file| then []
    else if pos + n <= |file| then file[pos..pos + n]
    else file[pos..]
  }

  /** What `fread` delivers are the file's bytes from `pos` on. */
  lemma ReadBytes(file: seq<byte>, pos: nat, n: nat)
    ensures var r := Read(file, pos, n);
      forall i :: 0 <= i < |r| ==> r[i] == file[pos + i]
  {
  }

  /** The front of a buffer after `data` has been read into it: the bytes
      `fread` did not reach keep their previous (stale) values. */
  function Overlay(w: seq<byte>, data: seq<byte>): (r: seq<byte>)
    ensures |r| == |w|
    ensures forall i :: 0 <= i < |w| ==> r[i] == if i < |data| then data[i] else w[i]
  {
    if |data| >= |w| then data[..|w|] else data + w[|data|..]
  }

  function Zeros(n: nat): (r: seq<byte>)
    ensures |r| == n && forall i :: 0 <= i < n ==> r[i] == 0
  {
    seq(n, _ => 0)
  }

  /** Network (big-endian) order, as `ntohs`/`ntohl` give it. */
  function Be16(hi: byte, lo: byte): (r: nat)
    ensures r < 0x1_0000
  {
    hi as nat * 0x100 + lo as nat
  }

  function Be32(w: seq<byte>, i: nat): (r: nat)
    requires i + 4 <= |w|
    ensures r < 0x1_0000_0000
  {
    Be16(w[i], w[i + 1]) * 0x1_0000 + Be16(w[i + 2], w[i + 3])
  }

  /** `fread(&len, 2, 1, file); len = ntohs(len);` on a little-endian host.
      With both bytes present this is the big-endian value. A short read
      leaves the variable's stale bytes in place (glibc copies the partial
      element), and `ntohs` then swaps the mixture: with one byte `b` the
      result is `b*256 + stale/256`, with none it is the stale value
      byte-swapped. */
  function ReadLength(file: seq<byte>, pos: nat, stale: nat): (len: nat)
    requires stale < 0x1_0000
    ensures len < 0x1_0000
    ensures pos + 2 <= |file| ==> len == Be16(file[pos], file[pos + 1])
    ensures pos >= |file| ==> len == (stale % 0x100) * 0x100 + stale / 0x100
  {
    var d := Read(file, pos, 2);
    if |d| == 2 then Be16(d[0], d[1])
    else if |d| == 1 then d[0] as nat * 0x100 + stale / 0x100
    else (stale % 0x100) * 0x100 + stale / 0x100
  }

  /** The C string a buffer holds: everything before the first NUL byte. */
  function CString(s: seq<byte>): (r: seq<byte>)
    ensures |r| <= |s| && r == s[..|r|]
    ensures forall i :: 0 <= i < |r| ==> r[i] != 0
    ensures |r| == |s| || s[|r|] == 0
  {
    if s == [] || s[0] == 0 then [] else [s[0]] + CString(s[1..])
  }

  /** The bytes of an ASCII string. */
  function Ascii(s: string): (r: seq<byte>)
    requires forall i :: 0 <= i < |s| ==> s[i] as int < 0x100
    ensures |r| == |s| && forall i :: 0 <= i < |s| ==> r[i] as int == s[i] as int
  {
    seq(|s|, i requires 0 <= i < |s| => s[i] as int as byte)
  }

  function LowerChar(c: char): char
  {
    if 'A' <= c <= 'Z' then (c as int + 32) as char else c
  }

  function Lower(s: string): (r: string)
    ensures |r| == |s| && forall i :: 0 <= i < |s| ==> r[i] == LowerChar(s[i])
  {
    seq(|s|, i requires 0 <= i < |s| => LowerChar(s[i]))
  }

  /** `strcasecmp(a, b) == 0` for ASCII text. */
  predicate EqualsIgnoreCase(a: string, b: string)
  {
    Lower(a) == Lower(b)
  }

  /** What `g_snprintf(buf, size, ...)` stores: at most `size - 1` characters. */
  function Truncate(s: string, size: nat): (r: string)
    requires size > 0
    ensures |r| < size && |r| <= |s| && r == s[..|r|]
    ensures |s| < size ==> r == s
  {
    if |s| < size then s else s[..size - 1]
  }

  function DigitChar(d: nat): char
    requires d < 10
  {
    ('0' as int + d) as char
  }

  /** Decimal rendering of a number, as `%"SCNu64` prints it. */
  function Decimal(n: nat): (r: string)
    ensures |r| > 0
    ensures forall i :: 0 <= i < |r| ==> '0' <= r[i] <= '9'
    ensures n >= 10 ==> r[0] != '0'
  {
    if n < 10 then [DigitChar(n)] else Decimal(n / 10) + [DigitChar(n % 10)]
  }

  function DigitsValue(s: string): nat
    requires forall i :: 0 <= i < |s| ==> '0' <= s[i] <= '9'
  {
    if s == [] then 0
    else DigitsValue(s[..|s| - 1]) * 10 + (s[|s| - 1] as int - '0' as int)
  }

  /** Reading the decimal rendering back gives the number: the id in a
      generated file name identifies the recording. */
  lemma {:induction false} DecimalRoundTrip(n: nat)
    ensures DigitsValue(Decimal(n)) == n
  {
    if n >= 10 {
      DecimalRoundTrip(n / 10);
      var s := Decimal(n);
      assert s[..|s| - 1] == Decimal(n / 10);
    }
  }

  /** Different numbers have different renderings. */
  lemma DecimalInjective(m: nat, n: nat)
    requires Decimal(m) == Decimal(n)
    ensures m == n
  {
    DecimalRoundTrip(m);
    DecimalRoundTrip(n);
  }
}
