/** Recursive Length Prefix encoding (Appendix B of the Ethereum Yellow Paper), the
    serialization behind every node hash and behind the transported list of nodes. */
module Rlp {
  import opened Results
  import opened Bytes

  datatype Item = Str(bytes: Buffer) | List(items: seq<Item>)

  /** The standard leaves longer strings and payloads without an encoding. */
  const LENGTH_LIMIT := 0x1_0000_0000_0000_0000

  const STRING_OFFSET := 0x80
  const LIST_OFFSET := 0xc0

  /** The shortest big-endian representation of a number; the empty buffer for zero. */
  function BigEndian(n: nat): Buffer {
    if n == 0 then [] else BigEndian(n / 256) + [n % 256]
  }

  function FromBigEndian(b: Buffer): nat {
    if b == [] then 0 else 256 * FromBigEndian(b[..|b| - 1]) + b[|b| - 1]
  }

  /** A length prefix. The reduction modulo 256 acts only from LENGTH_LIMIT upwards. */
  function Header(offset: int, length: nat): Buffer
    requires offset == STRING_OFFSET || offset == LIST_OFFSET
  {
    if length < 56 then [offset + length]
    else [(offset + 55 + |BigEndian(length)|) % 256] + BigEndian(length)
  }

  function EncodeString(b: Buffer): Buffer {
    if |b| == 1 && b[0] < 0x80 then b else Header(STRING_OFFSET, |b|) + b
  }

  function Encode(item: Item): Buffer
    decreases item, 1
  {
    match item
    case Str(b) => EncodeString(b)
    case List(items) => Header(LIST_OFFSET, |EncodeAll(items)|) + EncodeAll(items)
  }

  function EncodeAll(items: seq<Item>): Buffer
    decreases items, 0
  {
    if items == [] then [] else Encode(items[0]) + EncodeAll(items[1..])
  }

  /** What a prefix announces: a list or a string, where its payload starts and its length. */
  datatype Prefix = Prefix(isList: bool, start: nat, length: nat)

  /** Reads the prefix of a buffer, refusing prefixes that are not the shortest ones and
      payloads that run past the end. */
  function ReadPrefix(b: Buffer): (r: Option<Prefix>)
    ensures r.Some? ==> r.value.start + r.value.length <= |b|
    ensures r.Some? ==> 0 < r.value.start + r.value.length
    ensures r.Some? && r.value.isList ==> 0 < r.value.start
  {
    if b == [] then None
    else if b[0] < STRING_OFFSET then Some(Prefix(false, 0, 1))
    else
      var isList := LIST_OFFSET <= b[0];
      var short := b[0] - (if isList then LIST_OFFSET else STRING_OFFSET);
      if short < 56 then
        if |b| < 1 + short then None
        else if !isList && short == 1 && b[1] < 0x80 then None
        else Some(Prefix(isList, 1, short))
      else
        var width := short - 55;
        if |b| < 1 + width || b[1] == 0 then None
        else
          var length := FromBigEndian(b[1..1 + width]);
          if length < 56 || |b| < 1 + width + length then None
          else Some(Prefix(isList, 1 + width, length))
  }

  /** Decodes a whole buffer; `rlp.decode` throws on a remainder, here the result is None. */
  function Decode(b: Buffer): Option<Item>
    decreases |b|, 1
  {
    match ReadPrefix(b)
    case None => None
    case Some(Prefix(isList, start, length)) =>
      if |b| != start + length then None
      else if !isList then Some(Str(b[start..]))
      else
        match DecodeAll(b[start..])
        case None => None
        case Some(items) => Some(List(items))
  }

  /** Decodes a concatenation of items. */
  function DecodeAll(b: Buffer): Option<seq<Item>>
    decreases |b|, 2
  {
    if b == [] then Some([])
    else
      match ReadPrefix(b)
      case None => None
      case Some(Prefix(isList, start, length)) =>
        match Decode(b[..start + length])
        case None => None
        case Some(item) =>
          match DecodeAll(b[start + length..])
          case None => None
          case Some(items) => Some([item] + items)
  }

  // ---------- The encoding in the words of the standard ----------

  /** A prefix for a payload of this length: a single byte up to 55, above that the number of bytes the
      length takes, and the length without a leading zero. */
  predicate PrefixFor(prefix: Buffer, short: int, length: nat) {
    if length <= 55 then |prefix| == 1 && prefix[0] == short + length
    else
      && 2 <= |prefix| && prefix[0] == short + 54 + |prefix|
      && prefix[1] != 0 && FromBigEndian(prefix[1..]) == length
  }

  lemma HeaderIsPrefix(offset: int, length: nat)
    requires (offset == STRING_OFFSET || offset == LIST_OFFSET) && length < LENGTH_LIMIT
    ensures PrefixFor(Header(offset, length), offset, length)
  {
    if 56 <= length {
      var digits := LongHeader(offset, length);
      assert Header(offset, length)[1..] == digits;
    }
  }

  /** A byte below 128 stands for itself; any other string follows a prefix from 0x80 on, and the
      concatenated encodings of the items of a list one from 0xc0 on. */
  lemma EncodingsOfTheStandard(b: Buffer, items: seq<Item>)
    requires |b| < LENGTH_LIMIT && |EncodeAll(items)| < LENGTH_LIMIT
    ensures |b| == 1 && b[0] < 128 ==> Encode(Str(b)) == b
    ensures !(|b| == 1 && b[0] < 128) ==> exists prefix :: PrefixFor(prefix, 0x80, |b|) && Encode(Str(b)) == prefix + b
    ensures exists prefix :: PrefixFor(prefix, 0xc0, |EncodeAll(items)|) && Encode(List(items)) == prefix + EncodeAll(items)
  {
    HeaderIsPrefix(STRING_OFFSET, |b|);
    HeaderIsPrefix(LIST_OFFSET, |EncodeAll(items)|);
  }

  lemma {:induction false} EncodeAllIsFlatten(items: seq<Item>, parts: seq<Buffer>)
    requires |parts| == |items| && forall i | 0 <= i < |items| :: parts[i] == Encode(items[i])
    ensures EncodeAll(items) == Flatten(parts)
  {
    if items != [] {
      EncodeAllIsFlatten(items[1..], parts[1..]);
    }
  }

  // ---------- Big-endian numbers ----------

  lemma {:induction false} BigEndianRoundTrip(n: nat)
    ensures FromBigEndian(BigEndian(n)) == n
    ensures n > 0 ==> BigEndian(n) != [] && BigEndian(n)[0] != 0
  {
    if n > 0 {
      BigEndianRoundTrip(n / 256);
      assert BigEndian(n)[..|BigEndian(n)| - 1] == BigEndian(n / 256);
    }
  }

  /** Buffers of one length are told apart by their numbers. */
  lemma {:induction false} FromBigEndianInjective(a: Buffer, b: Buffer)
    requires |a| == |b| && FromBigEndian(a) == FromBigEndian(b)
    ensures a == b
    decreases |a|
  {
    if a != [] {
      var n := |a| - 1;
      FromBigEndianInjective(a[..n], b[..n]);
      assert a == a[..n] + [a[n]] && b == b[..n] + [b[n]];
    }
  }

  lemma {:induction false} BigEndianShortest(b: Buffer)
    requires b == [] || b[0] != 0
    ensures BigEndian(FromBigEndian(b)) == b
    ensures b != [] ==> FromBigEndian(b) > 0
  {
    if b != [] {
      BigEndianShortest(b[..|b| - 1]);
      assert b == b[..|b| - 1] + [b[|b| - 1]];
    }
  }

  function Pow256(k: nat): nat {
    if k == 0 then 1 else 256 * Pow256(k - 1)
  }

  lemma {:induction false} BigEndianWidth(n: nat, k: nat)
    requires n < Pow256(k)
    ensures |BigEndian(n)| <= k
  {
    if n > 0 {
      BigEndianWidth(n / 256, k - 1);
    }
  }

  lemma LengthWidth(length: nat)
    requires length < LENGTH_LIMIT
    ensures |BigEndian(length)| <= 8
    ensures 56 <= length ==> 1 <= |BigEndian(length)|
  {
    assert Pow256(4) == 0x1_0000_0000;
    assert Pow256(8) == LENGTH_LIMIT;
    BigEndianWidth(length, 8);
  }

  // ---------- Prefixes ----------

  lemma ReadHeader(offset: int, length: nat, rest: Buffer)
    requires offset == STRING_OFFSET || offset == LIST_OFFSET
    requires length < LENGTH_LIMIT && length <= |rest|
    requires offset == STRING_OFFSET && length == 1 ==> rest[0] >= 0x80
    ensures ReadPrefix(Header(offset, length) + rest)
         == Some(Prefix(offset == LIST_OFFSET, |Header(offset, length)|, length))
  {
    if length < 56 {
      assert Header(offset, length) == [offset + length];
    } else {
      ReadLongHeader(offset, length, rest);
    }
  }

  lemma ReadLongHeader(offset: int, length: nat, rest: Buffer)
    requires offset == STRING_OFFSET || offset == LIST_OFFSET
    requires 56 <= length < LENGTH_LIMIT && length <= |rest|
    ensures ReadPrefix(Header(offset, length) + rest)
         == Some(Prefix(offset == LIST_OFFSET, |Header(offset, length)|, length))
  {
    var digits := LongHeader(offset, length);
    ReadLengthDigits(offset, digits, length, rest);
  }

  lemma LongHeader(offset: int, length: nat) returns (digits: Buffer)
    requires offset == STRING_OFFSET || offset == LIST_OFFSET
    requires 56 <= length < LENGTH_LIMIT
    ensures 1 <= |digits| <= 8 && digits[0] != 0 && FromBigEndian(digits) == length
    ensures Header(offset, length) == [offset + 55 + |digits|] + digits
  {
    digits := BigEndian(length);
    LengthWidth(length);
    BigEndianRoundTrip(length);
  }

  lemma ReadLengthDigits(offset: int, digits: Buffer, length: nat, rest: Buffer)
    requires offset == STRING_OFFSET || offset == LIST_OFFSET
    requires 1 <= |digits| <= 8 && digits[0] != 0
    requires 56 <= length <= |rest| && FromBigEndian(digits) == length
    ensures ReadPrefix([offset + 55 + |digits|] + digits + rest)
         == Some(Prefix(offset == LIST_OFFSET, 1 + |digits|, length))
  {
    var b := [offset + 55 + |digits|] + digits + rest;
    var isList := LIST_OFFSET <= b[0];
    assert isList <==> offset == LIST_OFFSET;
    var width := b[0] - (if isList then LIST_OFFSET else STRING_OFFSET) - 55;
    assert width == |digits| && b[1] == digits[0];
    assert |b| == 1 + width + |rest|;
    var taken := b[1..1 + width];
    assert taken == digits;
    assert FromBigEndian(taken) == length;
  }

  /** The prefix of an encoded item spans exactly that item, whatever follows it. */
  lemma ReadItem(item: Item, rest: Buffer)
    requires |Encode(item)| < LENGTH_LIMIT
    ensures var r := ReadPrefix(Encode(item) + rest);
            r.Some? && r.value.isList == item.List? && r.value.start + r.value.length == |Encode(item)|
    ensures item.Str? ==> Encode(item)[ReadPrefix(Encode(item) + rest).value.start..] == item.bytes
    ensures item.List? ==> Encode(item)[ReadPrefix(Encode(item) + rest).value.start..] == EncodeAll(item.items)
  {
    match item
    case Str(b) =>
      if !(|b| == 1 && b[0] < 0x80) {
        assert Encode(item) + rest == Header(STRING_OFFSET, |b|) + (b + rest);
        ReadHeader(STRING_OFFSET, |b|, b + rest);
      }
    case List(items) =>
      var payload := EncodeAll(items);
      assert Encode(item) + rest == Header(LIST_OFFSET, |payload|) + (payload + rest);
      ReadHeader(LIST_OFFSET, |payload|, payload + rest);
  }

  // ---------- Round trips ----------

  /** Decoding undoes encoding, for every item the standard gives an encoding. */
  lemma {:induction false} DecodeEncode(item: Item)
    requires |Encode(item)| < LENGTH_LIMIT
    ensures Decode(Encode(item)) == Some(item)
    decreases item, 1
  {
    ReadItem(item, []);
    assert Encode(item) + [] == Encode(item);
    if item.List? {
      DecodeEncodeAll(item.items);
    }
  }

  lemma {:induction false} DecodeEncodeAll(items: seq<Item>)
    requires |EncodeAll(items)| < LENGTH_LIMIT
    ensures DecodeAll(EncodeAll(items)) == Some(items)
    decreases items, 0
  {
    if items != [] {
      var first, rest := Encode(items[0]), EncodeAll(items[1..]);
      ReadItem(items[0], rest);
      DecodeEncode(items[0]);
      DecodeEncodeAll(items[1..]);
      DecodeFirst(first, rest, items[0], items[1..]);
      assert items == [items[0]] + items[1..];
    }
  }

  /** Decoding a concatenation, once its first item and the others decode. */
  lemma DecodeFirst(first: Buffer, rest: Buffer, item: Item, items: seq<Item>)
    requires first != [] && Decode(first) == Some(item) && DecodeAll(rest) == Some(items)
    requires ReadPrefix(first + rest).Some?
    requires ReadPrefix(first + rest).value.start + ReadPrefix(first + rest).value.length == |first|
    ensures DecodeAll(first + rest) == Some([item] + items)
  {
    var b := first + rest;
    assert b[..|first|] == first && b[|first|..] == rest;
  }

  lemma HeaderOfPrefix(b: Buffer)
    requires ReadPrefix(b).Some? && 0 < ReadPrefix(b).value.start
    ensures var p := ReadPrefix(b).value;
            b[..p.start] == Header(if p.isList then LIST_OFFSET else STRING_OFFSET, p.length)
    ensures var p := ReadPrefix(b).value;
            !p.isList && p.length == 1 ==> b[p.start] >= 0x80
  {
    var p := ReadPrefix(b).value;
    var offset := if p.isList then LIST_OFFSET else STRING_OFFSET;
    if 56 <= b[0] - offset {
      HeaderOfDigits(offset, b[1..1 + (b[0] - offset - 55)], p.length);
      assert b[..p.start] == [b[0]] + b[1..1 + (b[0] - offset - 55)];
    } else {
      assert b[..p.start] == [offset + p.length];
    }
  }

  lemma HeaderOfDigits(offset: int, digits: Buffer, length: nat)
    requires offset == STRING_OFFSET || offset == LIST_OFFSET
    requires 1 <= |digits| && digits[0] != 0 && offset + 55 + |digits| < 256
    requires length == FromBigEndian(digits) && 56 <= length
    ensures Header(offset, length) == [offset + 55 + |digits|] + digits
  {
    BigEndianShortest(digits);
    HeaderWithDigits(offset, digits, length);
  }

  lemma HeaderWithDigits(offset: int, digits: Buffer, length: nat)
    requires offset == STRING_OFFSET || offset == LIST_OFFSET
    requires 56 <= length && BigEndian(length) == digits && offset + 55 + |digits| < 256
    ensures Header(offset, length) == [offset + 55 + |digits|] + digits
  {
  }

  /** Encoding undoes decoding: a buffer that decodes is the one encoding of what it decodes to. */
  lemma {:induction false} EncodeDecode(b: Buffer)
    requires Decode(b).Some?
    ensures Encode(Decode(b).value) == b
    decreases |b|, 1
  {
    if ReadPrefix(b).value.isList {
      EncodeDecodeAll(b[ReadPrefix(b).value.start..]);
      EncodeDecodeList(b);
    } else {
      EncodeDecodeString(b);
    }
  }

  lemma EncodeDecodeList(b: Buffer)
    requires Decode(b).Some? && ReadPrefix(b).value.isList
    requires var payload := b[ReadPrefix(b).value.start..];
             DecodeAll(payload).Some? && EncodeAll(DecodeAll(payload).value) == payload
    ensures Encode(Decode(b).value) == b
  {
    var p := ReadPrefix(b).value;
    HeaderOfPrefix(b);
    assert b == b[..p.start] + b[p.start..];
  }

  lemma EncodeDecodeString(b: Buffer)
    requires Decode(b).Some? && !ReadPrefix(b).value.isList
    ensures Encode(Decode(b).value) == b
  {
    var p := ReadPrefix(b).value;
    assert b == b[..p.start] + b[p.start..];
    if 0 < p.start {
      HeaderOfPrefix(b);
    }
  }

  lemma {:induction false} EncodeDecodeAll(b: Buffer)
    requires DecodeAll(b).Some?
    ensures EncodeAll(DecodeAll(b).value) == b
    decreases |b|, 2
  {
    if b != [] {
      var p := ReadPrefix(b).value;
      var k := p.start + p.length;
      EncodeDecode(b[..k]);
      EncodeDecodeAll(b[k..]);
      assert b == b[..k] + b[k..];
      var items := DecodeAll(b).value;
      assert items[1..] == DecodeAll(b[k..]).value;
    }
  }

  /** Different items never share an encoding. */
  lemma EncodeInjective(x: Item, y: Item)
    requires |Encode(x)| < LENGTH_LIMIT
    requires Encode(x) == Encode(y)
    ensures x == y
  {
    DecodeEncode(x);
    DecodeEncode(y);
  }
}
