/** Little-endian bytes. */
module ByteCodec {
  import opened FloatGrid

  newtype Byte = x: int | 0 <= x < 256

  function LeBytes(v: nat, width: nat): (r: seq<Byte>)
    ensures |r| == width
  {
    if width == 0 then [] else [(v % 256) as Byte] + LeBytes(v / 256, width - 1)
  }

  function FromLe(s: seq<Byte>): nat {
    if s == [] then 0 else s[0] as nat + 256 * FromLe(s[1..])
  }

  function Range(width: nat): (r: nat)
    ensures r > 0
  {
    if width == 0 then 1 else 256 * Range(width - 1)
  }

  /** Reading back gives the value modulo the range of its width. */
  lemma {:induction false} LeRoundTrip(v: nat, width: nat)
    ensures FromLe(LeBytes(v, width)) == v % Range(width)
  {
    if width > 0 {
      LeRoundTrip(v / 256, width - 1);
      assert LeBytes(v, width)[1..] == LeBytes(v / 256, width - 1);
      DigitOut(v, Range(width - 1));
    }
  }

  lemma DigitOut(v: nat, m: nat)
    requires m > 0
    ensures v % (256 * m) == v % 256 + 256 * (v / 256 % m)
  {
    var q, d := v / 256, v % 256;
    QuotientNat(q, m);
    var a, b := q / m, q % m;
    Scaled256(a, m);
    DivMod(a, 256 * b + d, 256 * m);
  }

  lemma Scaled256(a: nat, m: nat)
    ensures Mul(a, 256 * m) == 256 * Mul(a, m)
  {
  }

  // ----- writing bytes in place -----

  /** `s` with `src` at `at`. */
  function Written(s: seq<Byte>, at: nat, src: seq<Byte>): (r: seq<Byte>)
    requires at + |src| <= |s|
    ensures |r| == |s| && forall i :: 0 <= i < |s| ==> r[i] == if at <= i < at + |src| then src[i - at] else s[i]
  {
    s[..at] + src + s[at + |src|..]
  }

  /** A write at a place in a window is that write in the window's contents. */
  lemma WindowWritten(s: seq<Byte>, offset: nat, size: nat, at: nat, src: seq<Byte>)
    requires offset + size <= |s| && at + |src| <= size
    ensures Written(s, offset + at, src)[offset..offset + size] == Written(s[offset..offset + size], at, src)
  {
    var window := Written(s, offset + at, src)[offset..offset + size];
    forall k | 0 <= k < size ensures window[k] == Written(s[offset..offset + size], at, src)[k] {
      assert window[k] == Written(s, offset + at, src)[offset + k];
    }
  }

  method CopyInto(dst: array<Byte>, offset: nat, src: seq<Byte>)
    requires offset + |src| <= dst.Length
    modifies dst
    ensures dst[..] == Written(old(dst[..]), offset, src)
  {
    for k := 0 to |src|
      invariant forall i :: 0 <= i < dst.Length ==>
        dst[i] == if offset <= i < offset + k then src[i - offset] else old(dst[i])
    {
      dst[offset + k] := src[k];
    }
  }
}
