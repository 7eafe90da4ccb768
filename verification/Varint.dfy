/**
 Unsigned LEB128 (`write_varint`, `read_varint`; section 7.6 of DWARF Version 5). Bytes are
 numbers below 256: masking with 0x7F and shifting by 7 are remainder and quotient by 128, and
 the bits set by `|` are below those set later, so `|` is addition.
 */
module Varint {
  type Byte = b: int | 0 <= b < 256

  /** A `bytearray` that grows. */
  class ByteArray {
    var data: seq<Byte>

    constructor ()
      ensures data == []
    {
      data := [];
    }

    method Append(b: Byte)
      modifies this
      ensures data == old(data) + [b]
    {
      data := data + [b];
    }

    method Extend(more: seq<Byte>)
      modifies this
      ensures data == old(data) + more
    {
      data := data + more;
    }
  }

  /** Seven bits a byte, low bits first; the high bit says more follow. */
  function Encoded(value: nat): seq<Byte> {
    if value < 128 then [value] else [value % 128 + 128] + Encoded(value / 128)
  }

  /** A number and the position after it, or the IndexError of a truncated one. */
  datatype Reading = Truncated | Read(value: nat, next: nat)

  function Decoded(buf: seq<Byte>, pos: nat): Reading
    decreases |buf| - pos
  {
    if pos >= |buf| then Truncated
    else if buf[pos] < 128 then Read(buf[pos], pos + 1)
    else
      match Decoded(buf, pos + 1)
      case Truncated => Truncated
      case Read(high, next) => Read(buf[pos] % 128 + 128 * high, next)
  }

  // ------------------------------------------------------------- the two loops

  /** `write_varint`: false, and nothing written, for a negative number. */
  method WriteVarint(value: int, out: ByteArray) returns (ok: bool)
    modifies out
    ensures ok == (value >= 0)
    ensures out.data == old(out.data) + if ok then Encoded(value) else []
  {
    if value < 0 {
      return false;
    }
    var rest := value;
    while true
      invariant rest >= 0 && out.data + Encoded(rest) == old(out.data) + Encoded(value)
      decreases rest
    {
      var chunk := rest % 128;
      ghost var whole := Encoded(rest);
      rest := rest / 128;
      if rest != 0 {
        assert whole == [chunk + 128] + Encoded(rest);
        out.Append(chunk + 128);
      } else {
        out.Append(chunk);
        return true;
      }
    }
  }

  /** `read_varint` */
  method ReadVarint(buf: seq<Byte>, pos: nat) returns (r: Reading)
    ensures r == Decoded(buf, pos)
  {
    var result: nat, weight: nat, at: nat := 0, 1, pos;
    while true
      invariant result < weight && at >= pos
      invariant Decoded(buf, pos) == Above(Decoded(buf, at), result, weight)
      decreases |buf| - at
    {
      if at >= |buf| {
        return Truncated;
      }
      ReadStep(buf, at, result, weight);
      var byte := buf[at];
      at := at + 1;
      result := WithDigit(result, byte % 128, weight);
      if byte < 128 {
        return Read(result, at);
      }
      weight := weight * 128;
    }
  }

  /** `result | digit << shift`: no bit of `result` is as high as the shift, so nothing is lost in adding. */
  function WithDigit(result: nat, digit: nat, weight: nat): (r: nat)
    ensures result < weight && digit < 128 ==> r < weight * 128
  {
    assert digit < 128 ==> digit * weight <= 127 * weight;
    result + digit * weight
  }

  /** A number with the digits already read put below it. */
  function Above(r: Reading, low: nat, weight: nat): Reading {
    if r.Truncated? then r else Read(low + weight * r.value, r.next)
  }

  lemma ReadStep(buf: seq<Byte>, at: nat, low: nat, weight: nat)
    requires at < |buf|
    ensures Above(Decoded(buf, at), low, weight) ==
            if buf[at] < 128 then Read(WithDigit(low, buf[at] % 128, weight), at + 1)
            else Above(Decoded(buf, at + 1), WithDigit(low, buf[at] % 128, weight), weight * 128)
  {
    var rest := Decoded(buf, at + 1);
    if buf[at] >= 128 && rest.Read? {
      var digit, high := buf[at] % 128, rest.value;
      Shifted(weight, digit, high);
    }
  }

  lemma Shifted(weight: nat, digit: nat, high: nat)
    ensures weight * (digit + 128 * high) == digit * weight + weight * 128 * high
  {
  }

  // ------------------------------------------------------------- inverse

  /** `chunk` stands in the data at an offset, whatever comes before and after it. */
  predicate At(data: seq<Byte>, pos: nat, chunk: seq<Byte>) {
    pos + |chunk| <= |data| && data[pos..pos + |chunk|] == chunk
  }

  lemma AtParts(data: seq<Byte>, pos: nat, a: seq<Byte>, b: seq<Byte>)
    ensures At(data, pos, a + b) <==> At(data, pos, a) && At(data, pos + |a|, b)
  {
    var n := |a| + |b|;
    if pos + n <= |data| {
      assert data[pos..pos + n] == data[pos..pos + |a|] + data[pos + |a|..pos + n];
      if data[pos..pos + n] == a + b {
        assert data[pos..pos + |a|] == data[pos..pos + n][..|a|] == a;
        assert data[pos + |a|..pos + n] == data[pos..pos + n][|a|..] == b;
      }
    }
  }

  /** Reading inverts writing at any offset and whatever follows. */
  lemma {:induction false} RoundTrip(data: seq<Byte>, pos: nat, value: nat)
    requires At(data, pos, Encoded(value))
    ensures Decoded(data, pos) == Read(value, pos + |Encoded(value)|)
    decreases value
  {
    if value < 128 {
      assert data[pos] == data[pos..pos + 1][0];
    } else {
      AtParts(data, pos, [value % 128 + 128], Encoded(value / 128));
      assert data[pos] == data[pos..pos + 1][0];
      RoundTrip(data, pos + 1, value / 128);
    }
  }

  /** What was read is what writing gives, unless the number was padded with a final zero byte. */
  lemma {:induction false} Canonical(buf: seq<Byte>, pos: nat)
    requires Decoded(buf, pos).Read?
    ensures var r := Decoded(buf, pos);
            && pos < r.next <= |buf|
            && (buf[pos..r.next] == Encoded(r.value) <==> r.next == pos + 1 || buf[r.next - 1] != 0)
    decreases |buf| - pos
  {
    if buf[pos] >= 128 {
      Canonical(buf, pos + 1);
      var r, high := Decoded(buf, pos), Decoded(buf, pos + 1);
      assert r.value % 128 == buf[pos] - 128 && r.value / 128 == high.value;
      assert buf[pos..r.next] == [buf[pos]] + buf[pos + 1..r.next];
      if high.value > 0 {
        assert Encoded(r.value) == [buf[pos]] + Encoded(high.value);
        TailSame(buf[pos], buf[pos + 1..r.next], Encoded(high.value));
      } else {
        ZeroEnds(buf, pos + 1);
      }
    }
  }

  lemma TailSame(b: Byte, x: seq<Byte>, y: seq<Byte>)
    ensures [b] + x == [b] + y <==> x == y
  {
    if [b] + x == [b] + y {
      assert ([b] + x)[1..] == x && ([b] + y)[1..] == y;
    }
  }

  lemma {:induction false} ZeroEnds(buf: seq<Byte>, pos: nat)
    requires Decoded(buf, pos).Read? && Decoded(buf, pos).value == 0
    ensures var next := Decoded(buf, pos).next; pos < next <= |buf| && buf[next - 1] == 0
    decreases |buf| - pos
  {
    if buf[pos] >= 128 {
      ZeroEnds(buf, pos + 1);
    }
  }

  /** A number below 128 to the n takes at most n bytes, and only such a number does. */
  lemma {:induction false} Size(value: nat, n: nat)
    requires n >= 1
    ensures |Encoded(value)| <= n <==> value < Power128(n)
    decreases n
  {
    if value >= 128 && n > 1 {
      Size(value / 128, n - 1);
    } else if value < 128 && n > 1 {
      Size(value, n - 1);
    }
  }

  function Power128(n: nat): (p: nat)
    ensures p >= 1
  {
    if n == 0 then 1 else 128 * Power128(n - 1)
  }

  /** Seven bits a byte, the lowest first, every byte but the last marked. */
  lemma ThreeHundred()
    ensures Encoded(0) == [0] && Encoded(127) == [127] && Encoded(128) == [128, 1] && Encoded(300) == [172, 2]
  {
    assert Encoded(2) == [2] && Encoded(1) == [1];
  }
}
