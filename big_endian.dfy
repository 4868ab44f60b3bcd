/**
 * Big-endian integer decoding of byte strings, the part of Python's `struct`
 * module that the TZif reader relies on ("!" byte order: `I`, `l`, `q`, `B`),
 * together with the encoders used to state round trips, and Python's
 * clamping slice semantics.
 */
module BigEndian {

  /** An octet, as Python's `bytes` holds them. */
  type Byte = x: int | 0 <= x < 256

  /** 256 to the power `w`: the number of values of a `w`-byte unsigned integer. */
  function Pow256(w: nat): (r: nat)
    ensures r >= 1
  {
    if w == 0 then 1 else 256 * Pow256(w - 1)
  }

  /** Half the range of a `w`-byte integer: the bound of its two's-complement values. */
  function Half(w: nat): (r: nat)
    requires w >= 1
    ensures 2 * r == Pow256(w)
  {
    128 * Pow256(w - 1)
  }

  /** Unsigned big-endian value of `s` (`struct` formats `B`, `I`). */
  function Unsigned(s: seq<Byte>): (r: nat)
    ensures r < Pow256(|s|)
  {
    if |s| == 0 then 0
    else
      var p := Unsigned(s[..|s| - 1]);
      assert p + 1 <= Pow256(|s| - 1);
      assert (p + 1) * 256 <= Pow256(|s| - 1) * 256;
      p * 256 + s[|s| - 1]
  }

  /** Signed (two's-complement) big-endian value of `s` (`struct` formats `l`, `q`). */
  function Signed(s: seq<Byte>): (r: int)
    requires |s| >= 1
    ensures InSignedRange(r, |s|)
    ensures r >= 0 <==> Unsigned(s) < Half(|s|)
  {
    var u := Unsigned(s);
    if u < Half(|s|) then u else u - Pow256(|s|)
  }

  /** The `w` low-order bytes of `x`, most significant first (`struct.pack` with `!`). */
  function EncodeUnsigned(x: int, w: nat): (r: seq<Byte>)
    ensures |r| == w
    decreases w
  {
    if w == 0 then [] else EncodeUnsigned(x / 256, w - 1) + [x % 256]
  }

  /** Two's-complement encoding of `x` in `w` bytes. */
  function EncodeSigned(x: int, w: nat): (r: seq<Byte>)
    ensures |r| == w
  {
    EncodeUnsigned(if x < 0 then x + Pow256(w) else x, w)
  }

  predicate InSignedRange(x: int, w: nat)
  {
    w >= 1 && -(Half(w) as int) <= x < Half(w)
  }

  lemma DivMod256(x: nat, p: nat)
    requires x < 256 * p
    ensures x / 256 < p && x / 256 * 256 + x % 256 == x
  {
  }

  lemma {:induction false} UnsignedRoundTrip(x: nat, w: nat)
    requires x < Pow256(w)
    ensures Unsigned(EncodeUnsigned(x, w)) == x
  {
    if w > 0 {
      var e := EncodeUnsigned(x, w);
      var init := EncodeUnsigned(x / 256, w - 1);
      assert e == init + [x % 256];
      assert e[..w - 1] == init;
      DivMod256(x, Pow256(w - 1));
      UnsignedRoundTrip(x / 256, w - 1);
    }
  }

  lemma {:induction false} EncodeOfUnsigned(s: seq<Byte>)
    ensures EncodeUnsigned(Unsigned(s), |s|) == s
  {
    if |s| > 0 {
      var n := |s|;
      var u := Unsigned(s);
      var p := Unsigned(s[..n - 1]);
      assert u == p * 256 + s[n - 1];
      assert u / 256 == p && u % 256 == s[n - 1];
      EncodeOfUnsigned(s[..n - 1]);
      assert s == s[..n - 1] + [s[n - 1]];
    }
  }

  lemma SignedRoundTrip(x: int, w: nat)
    requires InSignedRange(x, w)
    ensures Signed(EncodeSigned(x, w)) == x
  {
    var u := if x < 0 then x + Pow256(w) else x;
    UnsignedRoundTrip(u, w);
  }

  lemma EncodeOfSigned(s: seq<Byte>)
    requires |s| >= 1
    ensures InSignedRange(Signed(s), |s|)
    ensures EncodeSigned(Signed(s), |s|) == s
  {
    EncodeOfUnsigned(s);
  }

  lemma ShiftStep(a: int, q: int, b: int)
    ensures (a * q + b) * 256 == a * (q * 256) + b * 256
  {
  }

  /** Unsigned value of a concatenation: the prefix is shifted by the suffix's width. */
  lemma {:induction false} UnsignedAppend(p: seq<Byte>, s: seq<Byte>)
    ensures Unsigned(p + s) == Unsigned(p) * Pow256(|s|) + Unsigned(s)
  {
    if |s| == 0 {
      assert p + s == p;
    } else {
      var n := |s|;
      var s', last := s[..n - 1], s[n - 1];
      assert (p + s)[..|p + s| - 1] == p + s';
      UnsignedAppend(p, s');
      var a, b, q := Unsigned(p), Unsigned(s'), Pow256(n - 1);
      calc {
        Unsigned(p + s);
        Unsigned(p + s') * 256 + last;
        (a * q + b) * 256 + last;
        { ShiftStep(a, q, b); }
        a * (q * 256) + (b * 256 + last);
        { assert Pow256(n) == q * 256; }
        a * Pow256(n) + Unsigned(s);
      }
    }
  }

  /** The 8-byte sign extension of a 4-byte time value, as a version-2 writer emits it. */
  function SignExtend4(s: seq<Byte>): (r: seq<Byte>)
    requires |s| == 4
    ensures |r| == 8 && r[4..] == s
  {
    (if s[0] >= 128 then [255, 255, 255, 255] else [0, 0, 0, 0]) + s
  }

  lemma HighByte4(s: seq<Byte>)
    requires |s| == 4
    ensures Unsigned(s) < Half(4) <==> s[0] < 128
  {
    UnsignedAppend(s[..1], s[1..]);
    assert s[..1] + s[1..] == s;
    assert Unsigned(s[..1]) == s[0] by {
      assert s[..1][..0] == [];
    }
  }

  /** The value of four bytes, written out. */
  lemma Unsigned4(s: seq<Byte>)
    requires |s| == 4
    ensures Unsigned(s) == s[0] as nat * 0x100_0000 + s[1] as nat * 0x1_0000 + s[2] as nat * 0x100 + s[3] as nat
  {
    assert Unsigned(s[..1]) == s[0] by { assert s[..1][..0] == []; }
    assert s[..2][..1] == s[..1];
    assert Unsigned(s[..2]) == s[0] as nat * 0x100 + s[1];
    assert s[..3][..2] == s[..2];
    assert Unsigned(s[..3]) == s[0] as nat * 0x1_0000 + s[1] as nat * 0x100 + s[2];
    assert s[..3] == s[..|s| - 1];
  }

  lemma ConstantValue(s: seq<Byte>, b: Byte)
    requires |s| == 4 && forall k | 0 <= k < 4 :: s[k] == b
    ensures Unsigned(s) == b * 0x0101_0101
  {
    Unsigned4(s);
  }

  /**
   * Cross-layout agreement: a 32-bit value read from its sign-extended 64-bit
   * encoding is the value read from the 32-bit encoding.
   */
  lemma WidenedTimeAgrees(s: seq<Byte>)
    requires |s| == 4
    ensures Signed(SignExtend4(s)) == Signed(s)
  {
    var pre := SignExtend4(s)[..4];
    assert SignExtend4(s) == pre + s;
    UnsignedAppend(pre, s);
    HighByte4(s);
    assert Pow256(4) == 0x1_0000_0000;
    assert Pow256(8) == 0x1_0000_0000_0000_0000;
    if s[0] >= 128 {
      assert Unsigned(pre) == 0xFFFF_FFFF by {
        ConstantValue(pre, 255);
      }
    } else {
      assert Unsigned(pre) == 0 by {
        ConstantValue(pre, 0);
      }
    }
  }

  /** Python's `s[i:j]` for `0 <= i <= j`: both ends are clamped to the length. */
  function Slice<T>(s: seq<T>, i: nat, j: nat): (r: seq<T>)
    requires i <= j
    ensures |r| == (if j <= |s| then j - i else if i <= |s| then |s| - i else 0)
    ensures j <= |s| ==> r == s[i..j]
    ensures forall k | 0 <= k < |r| :: r[k] == s[i + k]
  {
    if j <= |s| then s[i..j] else if i <= |s| then s[i..] else []
  }

  /** Python's `s[i:]`. */
  function Drop<T>(s: seq<T>, i: nat): (r: seq<T>)
    ensures |r| == (if i <= |s| then |s| - i else 0)
    ensures forall k | 0 <= k < |r| :: r[k] == s[i + k]
  {
    if i <= |s| then s[i..] else []
  }

  /** Where `s` goes on with `a` and then `b` from `i`: the slice as long as `a` is `a`, the rest is `b`. */
  lemma SplitAt<T>(s: seq<T>, i: nat, a: seq<T>, b: seq<T>)
    requires i <= |s| && s[i..] == a + b
    ensures Slice(s, i, i + |a|) == a && Drop(s, i + |a|) == b
  {
    assert s[i..i + |a|] == (a + b)[..|a|];
    assert s[i + |a|..] == (a + b)[|a|..];
  }

  /** A slice inside a prefix is the same slice of the whole. */
  lemma SliceOfPrefix<T>(s: seq<T>, n: nat, i: nat, j: nat)
    requires i <= j <= n <= |s|
    ensures s[..n][i..j] == s[i..j]
  {
  }

  /** Concatenation of byte chunks, in order. */
  function Concat(chunks: seq<seq<Byte>>): seq<Byte>
  {
    if |chunks| == 0 then [] else Concat(chunks[..|chunks| - 1]) + chunks[|chunks| - 1]
  }

  /** Chunk `i` of `n` chunks of `w` bytes ends within the `n * w` bytes. */
  lemma MulStep(i: nat, n: nat, w: nat)
    requires i < n
    ensures i * w + w <= n * w
  {
    var d := n - i - 1;
    assert n * w == i * w + w + d * w;
  }

  /** Chunk `i` of a concatenation of `w`-byte chunks sits at bytes `[i*w, i*w+w)`. */
  lemma {:induction false} ConcatChunks(chunks: seq<seq<Byte>>, w: nat)
    requires forall j | 0 <= j < |chunks| :: |chunks[j]| == w
    ensures |Concat(chunks)| == |chunks| * w
    ensures forall i | 0 <= i < |chunks| :: i * w + w <= |chunks| * w && Concat(chunks)[i * w..i * w + w] == chunks[i]
  {
    var n := |chunks|;
    if n > 0 {
      var init := chunks[..n - 1];
      ConcatChunks(init, w);
      var c := Concat(chunks);
      assert c == Concat(init) + chunks[n - 1];
      assert |c| == n * w;
      forall i | 0 <= i < n
        ensures i * w + w <= n * w && c[i * w..i * w + w] == chunks[i]
      {
        MulStep(i, n, w);
        if i < n - 1 {
          MulStep(i, n - 1, w);
          assert c[i * w..i * w + w] == Concat(init)[i * w..i * w + w];
        } else {
          assert c[i * w..i * w + w] == chunks[n - 1];
        }
      }
    }
  }
}
