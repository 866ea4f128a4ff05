/** Conversions between byte buffers and nibble buffers (src/Nibbles.ts). */
module Nibbles {
  import opened Results
  import opened Bytes
  import opened GeneratorErrors

  // ---------- The bitwise steps of the two loops ----------

  function HighNibble(b: byte): byte {
    (b as bv8 >> 4) as int
  }

  function LowNibble(b: byte): byte {
    (b as bv8 & 0x0F) as int
  }

  /** The high entry shifted left by four, or-ed with the low one; storing it keeps eight bits. */
  function Combine(high: byte, low: byte): byte {
    ((high as bv8 << 4) | low as bv8) as int
  }

  predicate IsNibble(b: byte) {
    b as bv8 & 0xF0 == 0
  }

  lemma HalvesOfBits(v: bv8)
    ensures (v >> 4) as int == v as int / 16
    ensures (v & 0x0F) as int == v as int % 16
    ensures v & 0xF0 == 0 <==> v < 16
  {
    assert v >> 4 == v / 16;
    assert v & 0x0F == v % 16;
  }

  lemma SmallBits(v: bv8)
    ensures v < 16 <==> v as int < 16
    ensures v < 255 <==> v as int < 255
  {
  }

  lemma NextBits(v: bv8)
    requires v < 255
    ensures (v + 1) as int == v as int + 1
  {
  }

  lemma BitsThroughInt(v: bv8)
    ensures (v as int) as bv8 == v
  {
  }

  lemma {:induction false} BitsOf(b: byte) returns (v: bv8)
    ensures v as int == b
  {
    v := 0;
    if b > 0 {
      v := BitsOf(b - 1);
      SmallBits(v);
      NextBits(v);
      v := v + 1;
    }
  }

  lemma ThroughBits(b: byte)
    ensures (b as bv8) as int == b
  {
    var v := BitsOf(b);
    BitsThroughInt(v);
  }

  lemma NibbleArithmetic(b: byte)
    ensures HighNibble(b) == b / 16
    ensures LowNibble(b) == b % 16
    ensures IsNibble(b) <==> b < 16
  {
    ThroughBits(b);
    SmallBits(b as bv8);
    HalvesOfBits(b as bv8);
  }

  lemma CombineBits(high: bv8, low: bv8)
    requires high < 16 && low < 16
    ensures ((high << 4) | low) >> 4 == high
    ensures ((high << 4) | low) & 0x0F == low
  {
  }

  lemma CombinedValue(high: bv8, low: bv8)
    requires high < 16 && low < 16
    ensures ((high << 4) | low) as int == 16 * (high as int) + low as int
  {
    CombineBits(high, low);
    HalvesOfBits((high << 4) | low);
    QuotientAndRemainder(((high << 4) | low) as int, high as int, low as int);
  }

  lemma QuotientAndRemainder(n: int, quotient: int, remainder: int)
    requires n / 16 == quotient && n % 16 == remainder
    ensures n == 16 * quotient + remainder
  {
  }

  lemma CombineArithmetic(high: byte, low: byte)
    requires high < 16 && low < 16
    ensures Combine(high, low) == 16 * high + low
  {
    ThroughBits(high);
    SmallBits(high as bv8);
    ThroughBits(low);
    SmallBits(low as bv8);
    CombinedValue(high as bv8, low as bv8);
  }

  // ---------- Whole buffers ----------

  /** Every byte split into its high and its low half. */
  function NibblesOf(buffer: Buffer): (nibbles: Buffer)
    ensures IsNibbleArray(nibbles)
  {
    seq(2 * |buffer|, i requires 0 <= i < 2 * |buffer| =>
      if i % 2 == 0 then buffer[i / 2] / 16 else buffer[i / 2] % 16)
  }

  predicate IsNibbleArray(nibbles: Buffer) {
    forall i | 0 <= i < |nibbles| :: nibbles[i] < 16
  }

  /** Consecutive nibbles joined into one byte each, the first one on the high side. */
  function Packed(nibbles: Buffer): Result<Buffer, Error>
    requires IsNibbleArray(nibbles)
  {
    if |nibbles| % 2 != 0 then Failure(AssertionFailed)
    else Success(seq(|nibbles| / 2, i requires 0 <= i < |nibbles| / 2 =>
      16 * nibbles[2 * i] + nibbles[2 * i + 1]))
  }

  method ToNibbles(buffer: Buffer) returns (nibbles: Buffer)
    ensures nibbles == NibblesOf(buffer)
  {
    var cells := new byte[2 * |buffer|];
    for i := 0 to |buffer|
      invariant forall k | 0 <= k < 2 * i :: cells[k] == NibblesOf(buffer)[k]
    {
      NibbleArithmetic(buffer[i]);
      cells[2 * i] := HighNibble(buffer[i]);
      cells[2 * i + 1] := LowNibble(buffer[i]);
    }
    nibbles := cells[..];
  }

  /** Entries above 15 are combined too, the source does not refuse them here. */
  method NibblesToBuffer(nibbles: Buffer) returns (r: Result<Buffer, Error>)
    ensures r.Success? <==> |nibbles| % 2 == 0
    ensures r.Success? ==>
              && |r.value| == |nibbles| / 2
              && forall i | 0 <= i < |r.value| :: r.value[i] == Combine(nibbles[2 * i], nibbles[2 * i + 1])
    ensures IsNibbleArray(nibbles) ==> r == Packed(nibbles)
  {
    if |nibbles| % 2 != 0 {
      return Failure(AssertionFailed);
    }
    var cells := new byte[|nibbles| / 2];
    for i := 0 to cells.Length
      invariant forall k | 0 <= k < i :: cells[k] == Combine(nibbles[2 * k], nibbles[2 * k + 1])
    {
      cells[i] := Combine(nibbles[2 * i], nibbles[2 * i + 1]);
    }
    r := Success(cells[..]);
    if IsNibbleArray(nibbles) {
      CombinedIsPacked(nibbles, r.value);
    }
  }

  lemma CombinedIsPacked(nibbles: Buffer, bytes: Buffer)
    requires IsNibbleArray(nibbles) && |nibbles| == 2 * |bytes|
    requires forall i | 0 <= i < |bytes| :: bytes[i] == Combine(nibbles[2 * i], nibbles[2 * i + 1])
    ensures Packed(nibbles) == Success(bytes)
  {
    forall i | 0 <= i < |bytes|
      ensures bytes[i] == Packed(nibbles).value[i]
    {
      CombineArithmetic(nibbles[2 * i], nibbles[2 * i + 1]);
    }
    assert bytes == Packed(nibbles).value;
  }

  method AssertNibbleArray(nibbles: Buffer) returns (r: Outcome<Error>)
    ensures r == (if IsNibbleArray(nibbles) then Pass else Fail(AssertionFailed))
  {
    for i := 0 to |nibbles|
      invariant IsNibbleArray(nibbles[..i])
    {
      NibbleArithmetic(nibbles[i]);
      if !IsNibble(nibbles[i]) {
        return Fail(AssertionFailed);
      }
    }
    r := Pass;
  }

  /** Splitting and joining are inverse: bytes survive a trip through nibbles. */
  lemma PackSplit(buffer: Buffer)
    ensures Packed(NibblesOf(buffer)) == Success(buffer)
  {
    var packed := Packed(NibblesOf(buffer)).value;
    forall i | 0 <= i < |buffer|
      ensures packed[i] == buffer[i]
    {
      assert NibblesOf(buffer)[2 * i] == buffer[i] / 16 && NibblesOf(buffer)[2 * i + 1] == buffer[i] % 16;
    }
    assert packed == buffer;
  }

  /** And nibbles survive a trip through bytes, when there is an even number of them. */
  lemma SplitPack(nibbles: Buffer)
    requires |nibbles| % 2 == 0 && IsNibbleArray(nibbles)
    ensures Packed(nibbles).Success? && NibblesOf(Packed(nibbles).value) == nibbles
  {
    var packed := Packed(nibbles).value;
    forall k | 0 <= k < |nibbles|
      ensures NibblesOf(packed)[k] == nibbles[k]
    {
      assert packed[k / 2] == 16 * nibbles[2 * (k / 2)] + nibbles[2 * (k / 2) + 1];
    }
  }
}
