/** Little-endian integers as byte sequences. */
module LittleEndian {
  import opened Common

  function Pow(base: nat, n: nat): (r: nat)
    ensures base > 0 ==> r > 0
  {
    if n == 0 then 1 else base * Pow(base, n - 1)
  }

  function Le(bytes: Bytes): nat {
    if bytes == [] then 0 else bytes[0] + 256 * Le(bytes[1..])
  }

  function LeBytes(v: nat, n: nat): (r: Bytes)
    ensures |r| == n
  {
    if n == 0 then [] else [v % 256] + LeBytes(v / 256, n - 1)
  }

  lemma {:induction false} LeBound(bytes: Bytes)
    ensures Le(bytes) < Pow(256, |bytes|)
  {
    if bytes != [] {
      LeBound(bytes[1..]);
    }
  }

  lemma DivBound(v: nat, p: nat)
    requires v < 256 * p
    ensures v / 256 < p
  {
  }

  lemma {:induction false} LeOfBytes(v: nat, n: nat)
    requires v < Pow(256, n)
    ensures Le(LeBytes(v, n)) == v
  {
    if n > 0 {
      DivBound(v, Pow(256, n - 1));
      LeOfBytes(v / 256, n - 1);
      assert LeBytes(v, n)[1..] == LeBytes(v / 256, n - 1);
    }
  }

  lemma {:induction false} BytesOfLe(bytes: Bytes)
    ensures LeBytes(Le(bytes), |bytes|) == bytes
  {
    if bytes != [] {
      BytesOfLe(bytes[1..]);
      assert Le(bytes) % 256 == bytes[0] && Le(bytes) / 256 == Le(bytes[1..]);
    }
  }

  lemma Powers()
    ensures Pow(256, 2) == 0x1_0000 && Pow(256, 4) == 0x1_0000_0000 && Pow(256, 8) == 0x1_0000_0000_0000_0000
  {
    assert Pow(256, 0) == 1;
    assert Pow(256, 1) == 256;
    assert Pow(256, 2) == 0x1_0000;
    assert Pow(256, 3) == 0x100_0000;
    assert Pow(256, 4) == 0x1_0000_0000;
    assert Pow(256, 5) == 0x100_0000_0000;
    assert Pow(256, 6) == 0x1_0000_0000_0000;
    assert Pow(256, 7) == 0x100_0000_0000_0000;
  }
}
