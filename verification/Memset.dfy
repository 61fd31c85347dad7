/** The byte fill of string.c over a memory of little-endian 64-bit words. */
module Memset {
  import opened Bits
  import opened KernelState

  function Byte(w: nat, k: nat): nat
    decreases k
  {
    if k == 0 then w % 256 else Byte(w / 256, k - 1)
  }

  function SetByte(w: nat, k: nat, c: nat): nat
    decreases k
  {
    if k == 0 then w / 256 * 256 + c else SetByte(w / 256, k - 1, c) * 256 + w % 256
  }

  function Pow256(n: nat): nat {
    if n == 0 then 1 else 256 * Pow256(n - 1)
  }

  lemma {:induction false} SetByteBound(w: nat, k: nat, c: nat, n: nat)
    requires k < n && w < Pow256(n) && c < 256
    ensures SetByte(w, k, c) < Pow256(n)
    decreases k
  {
    var p := Pow256(n - 1);
    assert w / 256 < p;
    if k > 0 {
      SetByteBound(w / 256, k - 1, c, n - 1);
    }
  }

  lemma {:induction false} ByteOfSetByte(w: nat, k: nat, c: nat, j: nat)
    requires c < 256
    ensures Byte(SetByte(w, k, c), j) == if j == k then c else Byte(w, j)
    decreases k
  {
    if k == 0 {
      assert (w / 256 * 256 + c) / 256 == w / 256;
    } else {
      var r := SetByte(w / 256, k - 1, c);
      assert (r * 256 + w % 256) / 256 == r;
      if j > 0 {
        ByteOfSetByte(w / 256, k - 1, c, j - 1);
      }
    }
  }

  lemma {:induction false} WordIsItsBytes(w: nat, v: nat, n: nat)
    requires w < Pow256(n) && v < Pow256(n)
    requires forall j :: 0 <= j < n ==> Byte(w, j) == Byte(v, j)
    ensures w == v
    decreases n
  {
    if n > 0 {
      assert Byte(w, 0) == Byte(v, 0);
      forall j | 0 <= j < n - 1
        ensures Byte(w / 256, j) == Byte(v / 256, j)
      {
        assert Byte(w, j + 1) == Byte(v, j + 1);
      }
      WordIsItsBytes(w / 256, v / 256, n - 1);
    }
  }

  lemma EightBytes()
    ensures Pow256(8) == TWO64
  {
  }

  function StoreByte(m: seq<u64>, a: nat, c: nat): (r: seq<u64>)
    requires a < 8 * |m| && c < 256
    ensures |r| == |m|
  {
    EightBytes();
    SetByteBound(m[a / 8], a % 8, c, 8);
    m[a / 8 := SetByte(m[a / 8], a % 8, c)]
  }

  function ByteAt(m: seq<u64>, a: nat): nat
    requires a < 8 * |m|
  {
    Byte(m[a / 8], a % 8)
  }

  /** The memory after the first `n` turns of the fill loop. */
  function Filled(m: seq<u64>, dst: nat, c: nat, n: nat): (r: seq<u64>)
    requires dst + n <= 8 * |m| && c < 256
    ensures |r| == |m|
  {
    if n == 0 then m else StoreByte(Filled(m, dst, c, n - 1), dst + n - 1, c)
  }

  /** The fill sets exactly the bytes of its range. */
  lemma {:induction false} FilledBytes(m: seq<u64>, dst: nat, c: nat, n: nat, a: nat)
    requires dst + n <= 8 * |m| && c < 256 && a < 8 * |m|
    ensures ByteAt(Filled(m, dst, c, n), a) == if dst <= a < dst + n then c else ByteAt(m, a)
    decreases n
  {
    if n > 0 {
      var r, e := Filled(m, dst, c, n - 1), dst + n - 1;
      FilledBytes(m, dst, c, n - 1, a);
      ByteOfSetByte(r[e / 8], e % 8, c, a % 8);
    }
  }

  function Splat(c: nat, n: nat): nat {
    if n == 0 then 0 else Splat(c, n - 1) * 256 + c
  }

  lemma {:induction false} SplatBytes(c: nat, n: nat, j: nat)
    requires c < 256 && j < n
    ensures Byte(Splat(c, n), j) == c && Splat(c, n) < Pow256(n)
    decreases n
  {
    assert (Splat(c, n - 1) * 256 + c) / 256 == Splat(c, n - 1);
    if n == 1 {
      assert Splat(c, 0) == 0;
    } else {
      SplatBytes(c, n - 1, if j > 0 then j - 1 else 0);
    }
  }

  lemma FilledWord(m: seq<u64>, p: nat, c: nat, k: nat)
    requires p * 4096 + 4096 <= 8 * |m| && c < 256 && k < |m|
    ensures Filled(m, p * 4096, c, 4096)[k] == if p * 512 <= k < p * 512 + 512 then Splat(c, 8) else m[k]
  {
    EightBytes();
    SplatBytes(c, 8, 0);
    var r := Filled(m, p * 4096, c, 4096);
    var want := if p * 512 <= k < p * 512 + 512 then Splat(c, 8) else m[k];
    forall j | 0 <= j < 8
      ensures Byte(r[k], j) == Byte(want, j)
    {
      var a := k * 8 + j;
      assert a / 8 == k && a % 8 == j;
      FilledBytes(m, p * 4096, c, 4096, a);
      SplatBytes(c, 8, j);
    }
    WordIsItsBytes(r[k], want, 8);
  }

  /** Filling a whole page with a byte makes each of its words eight copies of it. */
  lemma FilledPage(m: seq<u64>, p: nat, c: nat)
    requires p * 4096 + 4096 <= 8 * |m| && c < 256
    ensures Splat(c, 8) < TWO64
    ensures Filled(m, p * 4096, c, 4096) == FillPage(m, p, Splat(c, 8))
  {
    EightBytes();
    SplatBytes(c, 8, 0);
    forall k | 0 <= k < |m|
      ensures Filled(m, p * 4096, c, 4096)[k] == FillPage(m, p, Splat(c, 8))[k]
    {
      FilledWord(m, p, c, k);
    }
  }

  lemma FillWords()
    ensures Splat(0xee, 8) == ALLOC_FILL && Splat(0xbb, 8) == FREE_FILL && Splat(0, 8) == 0
  {
  }
}
