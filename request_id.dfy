/** Request identifiers: twelve bytes from the system's entropy source, written as
    lowercase hexadecimal, high nibble first. */
module RequestId {
  import opened Wrappers

  type Byte = x: int | 0 <= x < 256

  /** The number of random bytes in an identifier. */
  const IdLength: nat := 12

  type IdBytes = s: seq<Byte> | |s| == IdLength witness [0, 0, 0, 0, 0, 0, 0, 0, 0, 0, 0, 0]

  const HexDigits: string := "0123456789abcdef"

  /** The characters of `HexDigits`. */
  predicate IsLowerHex(c: char) {
    '0' <= c <= '9' || 'a' <= c <= 'f'
  }

  /** Each byte as two characters of `HexDigits`, the high nibble first. */
  function Hex(b: seq<Byte>): (h: string)
    ensures |h| == 2 * |b|
    ensures forall k :: 0 <= k < |h| ==> IsLowerHex(h[k])
  {
    if b == [] then [] else [HexDigits[b[0] / 16], HexDigits[b[0] % 16]] + Hex(b[1..])
  }

  /** The value of a hexadecimal digit of either case. */
  function NibbleOf(c: char): (r: Option<nat>)
    ensures r.Some? ==> r.value < 16
  {
    if '0' <= c <= '9' then Some(c as int - '0' as int)
    else if 'a' <= c <= 'f' then Some(c as int - 'a' as int + 10)
    else if 'A' <= c <= 'F' then Some(c as int - 'A' as int + 10)
    else None
  }

  /** Decoding of a hexadecimal string, two digits a byte; odd lengths and other
      characters are rejected. */
  function Unhex(h: string): (r: Option<seq<Byte>>)
    ensures r.Some? ==> 2 * |r.value| == |h|
    decreases |h|
  {
    if h == [] then Some([])
    else if |h| == 1 then None
    else
      match (NibbleOf(h[0]), NibbleOf(h[1]), Unhex(h[2..]))
      case (Some(hi), Some(lo), Some(rest)) => Some([16 * hi + lo] + rest)
      case _ => None
  }

  lemma NibbleOfHexDigit(n: nat)
    requires n < 16
    ensures NibbleOf(HexDigits[n]) == Some(n)
  {
  }

  lemma UnhexStep(h: string, hi: nat, lo: nat, rest: seq<Byte>)
    requires |h| >= 2 && NibbleOf(h[0]) == Some(hi) && NibbleOf(h[1]) == Some(lo)
    requires Unhex(h[2..]) == Some(rest)
    ensures Unhex(h) == Some([16 * hi + lo] + rest)
  {
  }

  lemma SplitByte(x: Byte)
    ensures x / 16 < 16 && 16 * (x / 16) + x % 16 == x
  {
  }

  lemma HexCons(x: Byte, tail: seq<Byte>)
    ensures Hex([x] + tail) == [HexDigits[x / 16], HexDigits[x % 16]] + Hex(tail)
  {
    assert ([x] + tail)[1..] == tail;
  }

  /** Decoding undoes the encoding. */
  lemma {:induction false} UnhexHex(b: seq<Byte>)
    ensures Unhex(Hex(b)) == Some(b)
  {
    if b != [] {
      var x, tail := b[0], b[1..];
      assert b == [x] + tail;
      HexCons(x, tail);
      SplitByte(x);
      NibbleOfHexDigit(x / 16);
      NibbleOfHexDigit(x % 16);
      UnhexHex(tail);
      var h := [HexDigits[x / 16], HexDigits[x % 16]] + Hex(tail);
      assert h[2..] == Hex(tail);
      UnhexStep(h, x / 16, x % 16, tail);
    }
  }

  /** Two nibbles make the byte whose quotient and remainder by 16 they are. */
  lemma NibblesByte(hi: nat, lo: nat)
    requires hi < 16 && lo < 16
    ensures 0 <= 16 * hi + lo < 256
    ensures (16 * hi + lo) / 16 == hi && (16 * hi + lo) % 16 == lo
  {
  }

  lemma LowerHexTail(h: string)
    requires |h| >= 2 && forall k :: 0 <= k < |h| ==> IsLowerHex(h[k])
    ensures IsLowerHex(h[0]) && IsLowerHex(h[1])
    ensures forall k :: 0 <= k < |h[2..]| ==> IsLowerHex(h[2..][k])
    ensures h == [h[0], h[1]] + h[2..]
  {
    assert forall k :: 0 <= k < |h[2..]| ==> h[2..][k] == h[k + 2];
  }

  /** A string of lowercase hexadecimal digits of even length is the encoding of
      what it decodes to. */
  lemma {:induction false} HexUnhex(h: string)
    requires |h| % 2 == 0 && forall k :: 0 <= k < |h| ==> IsLowerHex(h[k])
    ensures Unhex(h).Some? && Hex(Unhex(h).value) == h
    decreases |h|
  {
    if h != [] {
      LowerHexTail(h);
      var hi := HexIndex(h[0]);
      var lo := HexIndex(h[1]);
      NibbleOfHexDigit(hi);
      NibbleOfHexDigit(lo);
      HexUnhex(h[2..]);
      var tail := Unhex(h[2..]).value;
      UnhexStep(h, hi, lo, tail);
      NibblesByte(hi, lo);
      var x: Byte := 16 * hi + lo;
      HexCons(x, tail);
      assert Unhex(h).value == [x] + tail;
      assert Hex([x] + tail) == [h[0], h[1]] + Hex(tail);
    }
  }

  /** The position of a lowercase hexadecimal digit in `HexDigits`. */
  function HexIndex(c: char): (n: nat)
    requires IsLowerHex(c)
    ensures n < 16 && HexDigits[n] == c
  {
    if '0' <= c <= '9' then c as int - '0' as int else c as int - 'a' as int + 10
  }

  /** Different bytes never share an encoding. */
  lemma HexInjective(a: seq<Byte>, b: seq<Byte>)
    requires Hex(a) == Hex(b)
    ensures a == b
  {
    UnhexHex(a);
    UnhexHex(b);
  }

  /** The identifier written for twelve bytes: 24 lowercase hexadecimal digits that
      decode back to those bytes. */
  function IdOf(bytes: IdBytes): (id: string)
    ensures |id| == 2 * IdLength
    ensures forall k :: 0 <= k < |id| ==> IsLowerHex(id[k])
    ensures Unhex(id) == Some(bytes)
  {
    UnhexHex(bytes);
    Hex(bytes)
  }

  /** The identifier for one read of the entropy source, if the read succeeded. */
  function IdFrom(read: Option<IdBytes>): (r: Option<string>)
    ensures r.Some? <==> read.Some?
    ensures r.Some? ==> |r.value| == 2 * IdLength && Unhex(r.value) == Some(read.value)
  {
    match read
    case None => None
    case Some(bytes) => Some(IdOf(bytes))
  }

  /** The entropy source: its `n`-th read returns `draw(n)`, twelve bytes or a
      failure. */
  class Entropy {
    var calls: nat
    const draw: nat -> Option<IdBytes>

    constructor (draw: nat -> Option<IdBytes>)
      ensures calls == 0 && this.draw == draw
    {
      calls := 0;
      this.draw := draw;
    }

    method Read() returns (r: Option<IdBytes>)
      modifies this
      ensures calls == old(calls) + 1
      ensures r == draw(old(calls))
    {
      r := draw(calls);
      calls := calls + 1;
    }
  }

  /** One read of twelve bytes, encoded; a failed read gives no identifier. */
  method GenerateRequestId(source: Entropy) returns (id: Option<string>)
    modifies source
    ensures source.calls == old(source.calls) + 1
    ensures id == IdFrom(source.draw(old(source.calls)))
  {
    var bytes := source.Read();
    match bytes
    case None =>
      id := None;
    case Some(b) =>
      id := Some(Hex(b));
  }
}
