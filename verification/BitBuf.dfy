/** Bit-addressed reads, low bit first within each byte. */
module BitBuf {
  import opened Common
  import opened LittleEndian
  import opened Arithmetic

  datatype BitError = TooWide | OffsetOverflow | PastEnd

  // The n bits that start at bit `at` of the buffer, read as one little-endian number.
  function Bits(bytes: Bytes, at: nat, n: nat): nat {
    (Le(bytes) / Pow(2, at)) % Pow(2, n)
  }

  function ReadBits(bytes: Bytes, at: nat, n: nat): Result<nat, BitError> {
    if n == 0 then Ok(0)
    else if n > 64 then Err(TooWide)
    else if at + n > U64_MAX then Err(OffsetOverflow)
    else if at + n > 8 * |bytes| then Err(PastEnd)
    else Ok(Bits(bytes, at, n))
  }

  // Bytes before and after a window, as numbers.
  lemma AroundWindow(a: Bytes, w: Bytes, z: Bytes)
    ensures Le(a + w + z) == Pow(2, 8 * |a|) * (Le(w) + Pow(2, 8 * |w|) * Le(z)) + Le(a)
    ensures Le(a) < Pow(2, 8 * |a|)
  {
    assert a + w + z == a + (w + z);
    LeConcat(a, w + z);
    LeConcat(w, z);
    PowBytes(|a|);
    PowBytes(|w|);
    LeBound(a);
  }

  lemma WindowArithmetic(a: nat, w: nat, z: nat, before: nat, span: nat, shift: nat, n: nat)
    requires a < Pow(2, before) && shift + n <= span
    ensures ((Pow(2, before) * (w + Pow(2, span) * z) + a) / Pow(2, before + shift)) % Pow(2, n)
            == (w / Pow(2, shift)) % Pow(2, n)
  {
    var k := span - shift - n;
    var mid := w + Pow(2, span) * z;
    DivUnique(Pow(2, before) * mid + a, Pow(2, before), mid, a);
    PowAdd(2, before, shift);
    DivDiv(Pow(2, before) * mid + a, Pow(2, before), Pow(2, shift));
    PowAdd(2, shift, n + k);
    PowAdd(2, n, k);
    MulAssoc(Pow(2, n), Pow(2, k), z);
    MulAssoc(Pow(2, shift), Pow(2, n + k), z);
    HighPartDrops(w, Pow(2, shift), Pow(2, n), Pow(2, k) * z);
  }

  // Only the bytes that hold them decide the bits that are read.
  lemma BitsInWindow(bytes: Bytes, from: nat, to: nat, shift: nat, n: nat)
    requires from <= to <= |bytes| && shift + n <= 8 * (to - from)
    ensures Bits(bytes, 8 * from + shift, n) == Bits(bytes[from..to], shift, n)
  {
    hide Pow, Le;
    var a, w, z := bytes[..from], bytes[from..to], bytes[to..];
    assert bytes == a + w + z;
    AroundWindow(a, w, z);
    WindowArithmetic(Le(a), Le(w), Le(z), 8 * from, 8 * (to - from), shift, n);
  }

  // --- Reading -------------------------------------------------------------------------------------------------

  lemma AppendByte(w: Bytes, x: byte)
    ensures Le(w + [x]) == Le(w) + Pow(256, |w|) * x && Le(w) < Pow(256, |w|)
  {
    LeConcat(w, [x]);
    LeBound(w);
    assert Le([x]) == x;
  }

  // Gathers the bytes the bits lie in, low byte first; each lands above all bits gathered before, so adding is the
  // same as or-ing. The accumulator is 128 bits wide and holds at most nine bytes.
  method ReadU64(bytes: Bytes, at: nat, n: nat) returns (r: Result<nat, BitError>)
    ensures r == ReadBits(bytes, at, n)
  {
    if n == 0 {
      return Ok(0);
    }
    if n > 64 {
      return Err(TooWide);
    }
    var end := at + n;
    if end > U64_MAX {
      return Err(OffsetOverflow);
    }
    if end > 8 * |bytes| {
      return Err(PastEnd);
    }
    var first := at / 8;
    var shift := at % 8;
    var span := (shift + n + 7) / 8;
    var acc: nat := 0;
    for i := 0 to span
      invariant acc == Le(bytes[first..first + i])
    {
      AppendByte(bytes[first..first + i], bytes[first + i]);
      assert bytes[first..first + i + 1] == bytes[first..first + i] + [bytes[first + i]];
      acc := acc + Pow(256, i) * bytes[first + i];
    }
    BitsInWindow(bytes, first, first + span, shift, n);
    return Ok((acc / Pow(2, shift)) % Pow(2, n));
  }

  // --- Signed reads --------------------------------------------------------------------------------------------

  // What `as i64` makes of a 64-bit pattern.
  function AsI64(v: nat): int {
    if v < 0x8000_0000_0000_0000 then v else v - 0x1_0000_0000_0000_0000
  }

  // A pattern of n bits is or-ed with ones from bit n up when its bit n - 1 is set.
  function SignExtend(raw: nat, n: nat): int
    requires 0 < n <= 64 && raw < Pow(2, n)
  {
    PowGrows(n, 64);
    if n == 64 then AsI64(raw)
    else if (raw / Pow(2, n - 1)) % 2 != 0 then AsI64(raw + (Pow(2, 64) - Pow(2, n)))
    else AsI64(raw)
  }

  function ReadI64(bytes: Bytes, at: nat, n: nat): Result<int, BitError> {
    if n == 0 then Ok(0)
    else if n > 64 then Err(TooWide)
    else match ReadBits(bytes, at, n)
      case Err(e) => Err(e)
      case Ok(raw) => Ok(SignExtend(raw, n))
  }

  // The two's-complement reading: the one number of n signed bits that is congruent to the pattern.
  lemma SignedIsTwosComplement(raw: nat, n: nat)
    requires 0 < n <= 64 && raw < Pow(2, n)
    ensures 0 <= SignExtend(raw, n) + Pow(2, n - 1) < Pow(2, n)
    ensures SignExtend(raw, n) == raw || SignExtend(raw, n) == raw - Pow(2, n)
  {
    SignedArithmetic(raw, n);
  }

  // So a signed read gives the number of n signed bits that is congruent to the bits it reads.
  lemma SignedReadIsCongruent(bytes: Bytes, at: nat, n: nat, v: int)
    requires n > 0 && ReadI64(bytes, at, n) == Ok(v)
    ensures n <= 64 && at + n <= 8 * |bytes|
    ensures 0 <= v + Pow(2, n - 1) < Pow(2, n)
    ensures v == Bits(bytes, at, n) || v == Bits(bytes, at, n) - Pow(2, n)
  {
    hide Bits, Pow, SignExtend;
    BitsBound(bytes, at, n);
    SignedIsTwosComplement(Bits(bytes, at, n), n);
  }

  lemma BitsBound(bytes: Bytes, at: nat, n: nat)
    ensures Bits(bytes, at, n) < Pow(2, n)
  {
  }

  lemma SignedArithmetic(raw: nat, n: nat)
    requires 0 < n <= 64 && raw < Pow(2, n)
    ensures Pow(2, n) == 2 * Pow(2, n - 1) && Pow(2, 63) == 0x8000_0000_0000_0000
    ensures (raw / Pow(2, n - 1)) % 2 != 0 <==> raw >= Pow(2, n - 1)
    ensures Pow(2, n) <= Pow(2, 64) == 0x1_0000_0000_0000_0000
    ensures n < 64 ==> Pow(2, n) <= 0x8000_0000_0000_0000
  {
    var half := Pow(2, n - 1);
    Pow64();
    PowGrows(n, 64);
    if n < 64 {
      PowGrows(n, 63);
    }
    if raw < half {
      DivUnique(raw, half, 0, raw);
    } else {
      DivUnique(raw, half, 1, raw - half);
    }
  }

  // --- Packing -------------------------------------------------------------------------------------------------

  datatype Extent = Extent(value: nat, width: nat)

  predicate Narrow(e: Extent) {
    e.value < Pow(2, e.width)
  }

  function TotalWidth(es: seq<Extent>): nat {
    if es == [] then 0 else es[0].width + TotalWidth(es[1..])
  }

  // Values laid end to end, the first in the lowest bits.
  function Packed(es: seq<Extent>): nat {
    if es == [] then 0 else es[0].value + Pow(2, es[0].width) * Packed(es[1..])
  }

  lemma {:induction false} PackedBound(es: seq<Extent>)
    requires forall i :: 0 <= i < |es| ==> Narrow(es[i])
    ensures Packed(es) < Pow(2, TotalWidth(es))
  {
    if es != [] {
      PackedBound(es[1..]);
      PowAdd(2, es[0].width, TotalWidth(es[1..]));
      assert Narrow(es[0]);
      MulStep(Pow(2, es[0].width), Packed(es[1..]), Pow(2, TotalWidth(es[1..])));
    }
  }

  lemma {:induction false} PackedAt(es: seq<Extent>, k: nat)
    requires k < |es| && forall i :: 0 <= i < |es| ==> Narrow(es[i])
    ensures (Packed(es) / Pow(2, TotalWidth(es[..k]))) % Pow(2, es[k].width) == es[k].value
  {
    var p, rest := Pow(2, es[0].width), Packed(es[1..]);
    assert Narrow(es[0]);
    DivUnique(Packed(es), p, rest, es[0].value);
    if k > 0 {
      PackedAt(es[1..], k - 1);
      assert es[..k][1..] == es[1..][..k - 1];
      PowAdd(2, es[0].width, TotalWidth(es[1..][..k - 1]));
      DivDiv(Packed(es), p, Pow(2, TotalWidth(es[1..][..k - 1])));
    }
  }

  function PackedBytes(es: seq<Extent>, n: nat): Bytes {
    LeBytes(Packed(es), n)
  }

  lemma PackedBytesHold(es: seq<Extent>, n: nat)
    requires TotalWidth(es) <= 8 * n && forall i :: 0 <= i < |es| ==> Narrow(es[i])
    ensures Le(PackedBytes(es, n)) == Packed(es)
  {
    PackedBound(es);
    PowGrows(TotalWidth(es), 8 * n);
    PowBytes(n);
    LeOfBytes(Packed(es), n);
  }

  // Any values packed at any widths read back one by one at the running sum of the widths before them, whatever
  // whole bytes come before and after.
  lemma ReadInvertsPacking(front: Bytes, es: seq<Extent>, n: nat, back: Bytes, k: nat)
    requires k < |es| && es[k].width <= 64 && TotalWidth(es) <= 8 * n && 8 * (|front| + n) <= U64_MAX
    requires forall i :: 0 <= i < |es| ==> Narrow(es[i])
    ensures ReadBits(front + PackedBytes(es, n) + back, 8 * |front| + TotalWidth(es[..k]), es[k].width)
            == Ok(es[k].value)
  {
    hide Bits, PackedBytes, Packed, TotalWidth, Pow, Narrow;
    var bytes := front + PackedBytes(es, n) + back;
    WidthsUpTo(es, k);
    PackedLen(es, n);
    assert bytes[|front|..|front| + n] == PackedBytes(es, n);
    BitsInWindow(bytes, |front|, |front| + n, TotalWidth(es[..k]), es[k].width);
    PackedBitsAt(es, n, k);
  }

  lemma PackedLen(es: seq<Extent>, n: nat)
    ensures |PackedBytes(es, n)| == n
  {
  }

  lemma PackedBitsAt(es: seq<Extent>, n: nat, k: nat)
    requires k < |es| && TotalWidth(es) <= 8 * n && forall i :: 0 <= i < |es| ==> Narrow(es[i])
    ensures Bits(PackedBytes(es, n), TotalWidth(es[..k]), es[k].width) == es[k].value
    ensures es[k].width == 0 ==> es[k].value == 0
  {
    PackedBytesHold(es, n);
    PackedAt(es, k);
    assert Narrow(es[k]);
    hide Le, PackedBytes, Packed, TotalWidth;
    assert es[k].width == 0 ==> Pow(2, es[k].width) == 1;
  }

  lemma {:induction false} WidthsUpTo(es: seq<Extent>, k: nat)
    requires k < |es|
    ensures TotalWidth(es[..k]) + es[k].width <= TotalWidth(es)
  {
    if k > 0 {
      WidthsUpTo(es[1..], k - 1);
      assert es[..k][1..] == es[1..][..k - 1];
    }
  }
}
