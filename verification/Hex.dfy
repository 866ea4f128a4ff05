/** Hexadecimal text, as web3 reads and writes it. */
module Hex {
  import opened Bytes
  import Rlp

  const DIGITS := "0123456789abcdef"

  function DigitValue(c: char): int {
    if '0' <= c <= '9' then c as int - '0' as int
    else if 'a' <= c <= 'f' then c as int - 'a' as int + 10
    else if 'A' <= c <= 'F' then c as int - 'A' as int + 10
    else -1
  }

  predicate IsHex(s: string) {
    forall i | 0 <= i < |s| :: DigitValue(s[i]) != -1
  }

  /** Hexadecimal digits as web3 writes them, without capitals. */
  predicate IsLowerHex(s: string) {
    forall i | 0 <= i < |s| :: '0' <= s[i] <= '9' || 'a' <= s[i] <= 'f'
  }

  lemma DigitRoundTrip(n: nat)
    requires n < 16
    ensures DigitValue(DIGITS[n]) == n && IsLowerHex([DIGITS[n]])
  {
    assert |DIGITS| == 16;
    assert DIGITS[0] == '0' && DIGITS[1] == '1' && DIGITS[2] == '2' && DIGITS[3] == '3';
    assert DIGITS[4] == '4' && DIGITS[5] == '5' && DIGITS[6] == '6' && DIGITS[7] == '7';
    assert DIGITS[8] == '8' && DIGITS[9] == '9' && DIGITS[10] == 'a' && DIGITS[11] == 'b';
    assert DIGITS[12] == 'c' && DIGITS[13] == 'd' && DIGITS[14] == 'e' && DIGITS[15] == 'f';
  }

  function ToHex(n: nat): (s: string)
    ensures s != ""
  {
    if n < 16 then [DIGITS[n]] else ToHex(n / 16) + [DIGITS[n % 16]]
  }

  function FromHex(s: string): nat
    requires IsHex(s)
  {
    if s == "" then 0 else 16 * FromHex(s[..|s| - 1]) + DigitValue(s[|s| - 1])
  }

  lemma {:induction false} HexRoundTrip(n: nat)
    ensures IsHex(ToHex(n)) && FromHex(ToHex(n)) == n && IsLowerHex(ToHex(n))
  {
    DigitRoundTrip(n % 16);
    if n < 16 {
      assert ToHex(n)[..0] == "";
    } else {
      HexRoundTrip(n / 16);
      assert ToHex(n)[..|ToHex(n)| - 1] == ToHex(n / 16);
    }
  }

  lemma LowerDigitInjective(c: char, d: char)
    requires IsLowerHex([c]) && IsLowerHex([d]) && DigitValue(c) == DigitValue(d)
    ensures c == d
  {
    assert [c][0] == c && [d][0] == d;
  }

  /** The last digit and what is before it. */
  lemma LastDigit(s: string)
    requires s != "" && IsHex(s) && IsLowerHex(s)
    ensures var n := |s| - 1;
            && IsHex(s[..n]) && IsLowerHex(s[..n]) && IsLowerHex([s[n]])
            && FromHex(s) / 16 == FromHex(s[..n]) && FromHex(s) % 16 == DigitValue(s[n])
  {
    var n := |s| - 1;
    assert DigitValue(s[n]) != -1;
  }

  /** Texts of one length without capitals are told apart by their values. */
  lemma {:induction false} LowerHexInjective(s: string, t: string)
    requires |s| == |t| && IsHex(s) && IsHex(t) && IsLowerHex(s) && IsLowerHex(t)
    requires FromHex(s) == FromHex(t)
    ensures s == t
    decreases |s|
  {
    if s != "" {
      var n := |s| - 1;
      LastDigit(s);
      LastDigit(t);
      LowerDigitInjective(s[n], t[n]);
      LowerHexInjective(s[..n], t[..n]);
      SameParts(s, t, n);
    }
  }

  lemma SameParts(s: string, t: string, n: nat)
    requires |s| == |t| == n + 1 && s[..n] == t[..n] && s[n] == t[n]
    ensures s == t
  {
    assert s == s[..n] + [s[n]];
  }

  function Pow16(k: nat): nat {
    if k == 0 then 1 else 16 * Pow16(k - 1)
  }

  lemma {:induction false} HexLength(n: nat, k: nat)
    requires 1 <= k
    ensures |ToHex(n)| <= k <==> n < Pow16(k)
  {
    if k == 1 {
      assert Pow16(1) == 16;
    } else if n < 16 {
      Pow16Positive(k - 1);
    } else {
      HexLength(n / 16, k - 1);
    }
  }

  lemma {:induction false} Pow16Positive(k: nat)
    ensures 1 <= Pow16(k)
  {
    if k > 0 {
      Pow16Positive(k - 1);
    }
  }

  function Zeros(n: nat): string {
    seq(n, _ => '0')
  }

  function PadLeft(s: string, width: nat): string {
    if |s| < width then Zeros(width - |s|) + s else s
  }

  lemma {:induction false} LeadingZeros(n: nat, s: string)
    requires IsHex(s)
    ensures IsHex(Zeros(n) + s) && FromHex(Zeros(n) + s) == FromHex(s)
  {
    if s != "" {
      LeadingZeros(n, s[..|s| - 1]);
      assert (Zeros(n) + s)[..n + |s| - 1] == Zeros(n) + s[..|s| - 1];
    } else if n > 0 {
      LeadingZeros(n - 1, s);
      assert (Zeros(n) + s)[..n - 1] == Zeros(n - 1) + s;
    }
  }

  lemma PaddingKeepsValue(s: string, width: nat)
    requires IsHex(s)
    ensures IsHex(PadLeft(s, width)) && FromHex(PadLeft(s, width)) == FromHex(s)
  {
    if |s| < width {
      LeadingZeros(width - |s|, s);
    }
  }

  /** Two digits for every byte. */
  function HexText(b: Buffer): (s: string)
    ensures |s| == 2 * |b|
  {
    if b == [] then "" else [DIGITS[b[0] / 16], DIGITS[b[0] % 16]] + HexText(b[1..])
  }

  lemma {:induction false} HexTextIsHex(b: Buffer)
    ensures IsHex(HexText(b)) && IsLowerHex(HexText(b))
  {
    if b != [] {
      DigitRoundTrip(b[0] / 16);
      DigitRoundTrip(b[0] % 16);
      HexTextIsHex(b[1..]);
    }
  }

  function TwoDigits(x: byte): string {
    [DIGITS[x / 16], DIGITS[x % 16]]
  }

  lemma Regroup<T>(a: seq<T>, b: seq<T>, c: seq<T>)
    ensures a + (b + c) == (a + b) + c
  {
  }

  lemma HexTextFirst(first: byte, b: Buffer)
    ensures HexText([first] + b) == TwoDigits(first) + HexText(b)
  {
    assert ([first] + b)[1..] == b;
  }

  lemma {:induction false} HexTextOneMore(b: Buffer, x: byte)
    ensures HexText(b + [x]) == HexText(b) + TwoDigits(x)
    decreases |b|
  {
    if b == [] {
      HexTextFirst(x, []);
      assert [] + [x] == [x] + [];
    } else {
      HexTextOneMore(b[1..], x);
      HexTextFirst(b[0], b[1..] + [x]);
      assert b + [x] == [b[0]] + (b[1..] + [x]);
      Regroup(TwoDigits(b[0]), HexText(b[1..]), TwoDigits(x));
    }
  }

  lemma FromTwoDigits(s: string, x: byte)
    requires IsHex(s)
    ensures IsHex(s + TwoDigits(x)) && FromHex(s + TwoDigits(x)) == 256 * FromHex(s) + x
  {
    DigitRoundTrip(x / 16);
    DigitRoundTrip(x % 16);
    var high := s + [DIGITS[x / 16]];
    assert high[..|high| - 1] == s;
    assert s + TwoDigits(x) == high + [DIGITS[x % 16]];
    assert (high + [DIGITS[x % 16]])[..|high|] == high;
  }

  /** The text of a buffer and the buffer are the same number. */
  lemma {:induction false} HexTextValue(b: Buffer)
    ensures IsHex(HexText(b)) && FromHex(HexText(b)) == Rlp.FromBigEndian(b)
  {
    if b != [] {
      var n := |b| - 1;
      HexTextValue(b[..n]);
      assert b == b[..n] + [b[n]];
      HexTextOneMore(b[..n], b[n]);
      FromTwoDigits(HexText(b[..n]), b[n]);
    }
  }

  lemma {:induction false} HexTextDrop(b: Buffer, n: nat)
    requires n <= |b|
    ensures HexText(b)[2 * n..] == HexText(b[n..])
  {
    if n > 0 {
      HexTextDrop(b[1..], n - 1);
      assert HexText(b)[2 * n..] == HexText(b[1..])[2 * (n - 1)..];
      assert b[1..][n - 1..] == b[n..];
    }
  }

  lemma LeadingZero(s: string)
    requires IsHex(s)
    ensures IsHex("0" + s) && FromHex("0" + s) == FromHex(s)
  {
    assert Zeros(1) == "0";
    LeadingZeros(1, s);
  }

  /** A text of odd length with a zero put in front. */
  function Even(s: string): (even: string)
    requires IsHex(s)
    ensures IsHex(even) && FromHex(even) == FromHex(s) && |even| == |s| + |s| % 2
  {
    LeadingZero(s);
    if |s| % 2 == 1 then "0" + s else s
  }

  /** The bytes of a hexadecimal text. */
  function HexBytes(s: string): Buffer
    requires IsHex(s)
  {
    PairBytes(Even(s))
  }

  function PairBytes(s: string): Buffer
    requires IsHex(s)
  {
    if |s| < 2 then []
    else
      var n := |s| - 2;
      PairBytes(s[..n]) + [16 * DigitValue(s[n]) + DigitValue(s[n + 1])]
  }

  lemma LastTwoDigits(s: string)
    requires IsHex(s) && 2 <= |s|
    ensures var n := |s| - 2;
            IsHex(s[..n]) && FromHex(s) == 256 * FromHex(s[..n]) + 16 * DigitValue(s[n]) + DigitValue(s[n + 1])
  {
    var n := |s| - 2;
    assert s[..n + 1][..n] == s[..n];
  }

  lemma {:induction false} PairBytesValue(s: string)
    requires IsHex(s) && |s| % 2 == 0
    ensures 2 * |PairBytes(s)| == |s| && Rlp.FromBigEndian(PairBytes(s)) == FromHex(s)
    decreases |s|
  {
    if s != "" {
      var n := |s| - 2;
      LastTwoDigits(s);
      PairBytesValue(s[..n]);
      assert PairBytes(s)[..|PairBytes(s)| - 1] == PairBytes(s[..n]);
    }
  }

  lemma HalfRoundedUp(n: nat, half: nat)
    requires 2 * half == n + n % 2
    ensures half == (n + 1) / 2
  {
  }

  /** The bytes of a text are the same number, in half as many bytes as there are digits. */
  lemma HexBytesValue(s: string)
    requires IsHex(s)
    ensures |HexBytes(s)| == (|s| + 1) / 2 && Rlp.FromBigEndian(HexBytes(s)) == FromHex(s)
  {
    PairBytesValue(Even(s));
    HalfRoundedUp(|s|, |HexBytes(s)|);
  }
}
