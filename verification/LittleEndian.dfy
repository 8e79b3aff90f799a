/** Little-endian fields of any width, as numbers. */
module LittleEndian {
  import opened Prelude

  type Bytes = seq<byte>

  function Le(b: Bytes): nat {
    if b == [] then 0 else b[0] + 256 * Le(b[1..])
  }

  function ToLe(v: nat, n: nat): (b: Bytes)
    ensures |b| == n
  {
    if n == 0 then [] else [v % 256] + ToLe(v / 256, n - 1)
  }

  function Pow256(n: nat): nat {
    if n == 0 then 1 else 256 * Pow256(n - 1)
  }

  lemma {:induction false} ToLeThenLe(v: nat, n: nat)
    requires v < Pow256(n)
    ensures Le(ToLe(v, n)) == v
  {
    if n > 0 {
      ToLeThenLe(v / 256, n - 1);
      assert ToLe(v, n)[1..] == ToLe(v / 256, n - 1);
    }
  }

  lemma {:induction false} LeThenToLe(b: Bytes)
    ensures Le(b) < Pow256(|b|) && ToLe(Le(b), |b|) == b
  {
    if b != [] {
      LeThenToLe(b[1..]);
      assert b == [b[0]] + b[1..];
    }
  }

  lemma Widths()
    ensures Pow256(2) == 0x1_0000 && Pow256(4) == TWO_32
  { }
}
