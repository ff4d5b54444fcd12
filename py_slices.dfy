/**
 * The Python primitives the file system is built on: bytes, `str.encode()`
 * (UTF-8), and the clipping rules of slicing and slice assignment.
 */
module PySlices {

  type Byte = b: int | 0 <= b < 0x100

  function Min(a: int, b: int): int { if a <= b then a else b }

  function Max(a: int, b: int): int { if a <= b then b else a }

  /** Every character of `s` is encoded by a single byte. */
  predicate IsAscii(s: string) {
    forall i :: 0 <= i < |s| ==> s[i] as int < 0x80
  }

  /** The UTF-8 encoding of one Unicode scalar value. */
  function EncodeChar(c: char): (r: seq<Byte>)
    ensures 1 <= |r| <= 4
    ensures |r| == 1 <==> c as int < 0x80
    ensures c as int < 0x80 ==> r == [c as int]
  {
    var n := c as int;
    if n < 0x80 then [n]
    else if n < 0x800 then [0xC0 + n / 0x40, 0x80 + n % 0x40]
    else if n < 0x1_0000 then [0xE0 + n / 0x1000, 0x80 + (n / 0x40) % 0x40, 0x80 + n % 0x40]
    else [0xF0 + n / 0x4_0000, 0x80 + (n / 0x1000) % 0x40, 0x80 + (n / 0x40) % 0x40, 0x80 + n % 0x40]
  }

  /** `s.encode()`: the UTF-8 bytes of `s`. */
  function Encode(s: string): (r: seq<Byte>)
    ensures |r| >= |s|
  {
    if s == [] then [] else EncodeChar(s[0]) + Encode(s[1..])
  }

  /** The encoding is one byte per character exactly for ASCII text, and then it is the code points themselves. */
  lemma {:induction false} EncodeAscii(s: string)
    ensures |Encode(s)| == |s| <==> IsAscii(s)
    ensures IsAscii(s) ==> forall i :: 0 <= i < |s| ==> Encode(s)[i] == s[i] as int
  {
    if s != [] {
      EncodeAscii(s[1..]);
      if IsAscii(s) {
        assert IsAscii(s[1..]) by {
          forall i | 0 <= i < |s[1..]| ensures s[1..][i] as int < 0x80 {
            assert s[1..][i] == s[i + 1];
          }
        }
      } else if s[0] as int < 0x80 {
        assert !IsAscii(s[1..]) by {
          var j :| 0 <= j < |s| && s[j] as int >= 0x80;
          assert s[1..][j - 1] == s[j];
        }
      }
    }
  }

  /** `s[:k]` for a Python str; a negative `k` counts from the end. */
  function StrPrefix(s: string, k: int): (r: string)
    ensures |r| <= |s| && r == s[..|r|]
    ensures 0 <= k ==> |r| == Min(k, |s|)
    ensures k < 0 ==> |r| == Max(0, |s| + k)
  {
    if 0 <= k then s[..Min(k, |s|)] else s[..Max(0, |s| + k)]
  }

  /** The index range Python's `b[lo:hi]` denotes on a sequence of length `len`. */
  function Clip(len: nat, lo: nat, hi: nat): (r: (nat, nat))
    ensures r.0 <= r.1 <= len
    ensures lo <= hi <= len ==> r == (lo, hi)
    ensures hi <= lo ==> r.0 == r.1
  {
    var l := Min(lo, len);
    (l, Max(l, Min(hi, len)))
  }

  /** `len(b[lo:hi])`. */
  function SliceLen(b: seq<Byte>, lo: nat, hi: nat): (r: nat)
    ensures r <= |b|
    ensures lo <= hi <= |b| ==> r == hi - lo
    ensures hi <= lo ==> r == 0
  {
    var (l, h) := Clip(|b|, lo, hi);
    h - l
  }

  /** `b[lo:hi] = x` on a bytearray: the clipped range is replaced by `x`, whatever its length. */
  function SliceAssign(b: seq<Byte>, lo: nat, hi: nat, x: seq<Byte>): (r: seq<Byte>)
    ensures |r| == |b| - SliceLen(b, lo, hi) + |x|
    ensures lo <= hi <= |b| ==> r == b[..lo] + x + b[hi..]
  {
    var (l, h) := Clip(|b|, lo, hi);
    b[..l] + x + b[h..]
  }

  /** `bytearray(n)` for `n >= 0`: `n` zero bytes. */
  function Zeros(n: nat): (r: seq<Byte>)
    ensures |r| == n
    ensures forall i :: 0 <= i < n ==> r[i] == 0
  {
    seq(n, _ => 0)
  }
}
