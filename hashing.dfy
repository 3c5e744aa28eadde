/** `Util.getHash`, `Util.getHashLong` and `Util.getHashInt`, from the digest
    bytes on: the digest algorithm itself is not part of this model, so each
    operation takes the bytes `MessageDigest.digest` returned. */
module Hashing {

  import opened Wrappers
  import opened JvmInts

  /** The value 0..255 of a signed Java byte, as `%02x` and `ByteBuffer`
      read it. */
  function Unsigned(b: JByte): (u: nat)
    ensures u < 256
    ensures u == b || u == b + 256
  {
    if b < 0 then b + 256 else b
  }

  /** The lowercase hexadecimal digit for a value 0..15. */
  function HexDigit(n: nat): (c: char)
    requires n < 16
    ensures '0' <= c <= '9' || 'a' <= c <= 'f'
  {
    if n < 10 then ('0' as int + n) as char else ('a' as int + n - 10) as char
  }

  /** `"%02x".format(b)`: two lowercase hexadecimal digits. */
  function ByteHex(b: JByte): (s: string)
    ensures |s| == 2
  {
    [HexDigit(Unsigned(b) / 16), HexDigit(Unsigned(b) % 16)]
  }

  /** `getHash`: the left fold that appends the hex of each digest byte to the
      string built so far. */
  function GetHash(digest: seq<JByte>): (hex: string)
    ensures |hex| == 2 * |digest|
    ensures forall i :: 0 <= i < |digest| ==>
      hex[2 * i] == HexDigit(Unsigned(digest[i]) / 16) && hex[2 * i + 1] == HexDigit(Unsigned(digest[i]) % 16)
  {
    if digest == [] then ""
    else
      var init := digest[..|digest| - 1];
      var hex := GetHash(init) + ByteHex(digest[|digest| - 1]);
      assert forall i :: 0 <= i < |init| ==> init[i] == digest[i];
      hex
  }

  /** The value of one lowercase hexadecimal digit. */
  function HexValue(c: char): Option<nat> {
    if '0' <= c <= '9' then Some(c as int - '0' as int)
    else if 'a' <= c <= 'f' then Some(c as int - 'a' as int + 10)
    else None
  }

  /** Reads a string of lowercase hex digit pairs back into byte values. */
  function ParseHex(hex: string): (r: Option<seq<nat>>)
    ensures r.Some? ==> 2 * |r.value| == |hex|
  {
    if hex == [] then Some([])
    else if |hex| == 1 then None
    else
      var init := ParseHex(hex[..|hex| - 2]);
      var hi := HexValue(hex[|hex| - 2]);
      var lo := HexValue(hex[|hex| - 1]);
      if init.Some? && hi.Some? && lo.Some? then Some(init.value + [hi.value * 16 + lo.value]) else None
  }

  /** The unsigned values of the digest bytes, in order. */
  function Octets(digest: seq<JByte>): (r: seq<nat>)
    ensures |r| == |digest|
    ensures forall i :: 0 <= i < |digest| ==> r[i] == Unsigned(digest[i])
  {
    seq(|digest|, i requires 0 <= i < |digest| => Unsigned(digest[i]))
  }

  lemma HexValueOfDigit(n: nat)
    requires n < 16
    ensures HexValue(HexDigit(n)) == Some(n)
  {
  }

  /** The hex string determines the digest: reading it back gives every byte
      mod 256, in digest order. */
  lemma {:induction false} ParseGetHash(digest: seq<JByte>)
    ensures ParseHex(GetHash(digest)) == Some(Octets(digest))
  {
    if digest != [] {
      var n := |digest|;
      var init := digest[..n - 1];
      var u := Unsigned(digest[n - 1]);
      assert GetHash(digest) == GetHash(init) + ByteHex(digest[n - 1]);
      ParseGetHash(init);
      ParsePair(GetHash(init), Octets(init), u);
      OctetsLast(digest);
    }
  }

  lemma OctetsLast(digest: seq<JByte>)
    requires digest != []
    ensures Octets(digest) == Octets(digest[..|digest| - 1]) + [Unsigned(digest[|digest| - 1])]
  {
    var init := digest[..|digest| - 1];
    assert forall i :: 0 <= i < |init| ==> init[i] == digest[i];
  }

  /** Two more hex digits read back as one more octet. */
  lemma ParsePair(hex: string, octets: seq<nat>, u: nat)
    requires u < 256 && ParseHex(hex) == Some(octets)
    ensures ParseHex(hex + [HexDigit(u / 16), HexDigit(u % 16)]) == Some(octets + [u])
  {
    var h := hex + [HexDigit(u / 16), HexDigit(u % 16)];
    assert h[..|h| - 2] == hex;
    HexValueOfDigit(u / 16);
    HexValueOfDigit(u % 16);
  }

  /** Distinct digests render to distinct hex strings. */
  lemma GetHashInjective(a: seq<JByte>, b: seq<JByte>)
    requires GetHash(a) == GetHash(b)
    ensures a == b
  {
    ParseGetHash(a);
    ParseGetHash(b);
    assert Octets(a) == Octets(b);
    forall i | 0 <= i < |a| ensures a[i] == b[i] {
      assert Octets(a)[i] == Octets(b)[i];
    }
  }

  /** 256^n */
  function Pow256(n: nat): (p: nat)
    ensures p >= 1
  {
    if n == 0 then 1 else 256 * Pow256(n - 1)
  }

  /** The bytes as one unsigned big-endian number: `ByteBuffer`'s default
      byte order. */
  function BigEndian(bytes: seq<JByte>): (v: nat)
    ensures v < Pow256(|bytes|)
  {
    if bytes == [] then 0
    else
      var init := BigEndian(bytes[..|bytes| - 1]);
      assert init <= Pow256(|bytes| - 1) - 1;
      init * 256 + Unsigned(bytes[|bytes| - 1])
  }

  /** Two's complement reading of a 64-bit pattern. */
  function ToLong(u: nat): (v: Long)
    requires u < LongModulus
    ensures (v - u) % LongModulus == 0
  {
    if u <= LongMax then u else u - LongModulus
  }

  /** Two's complement reading of a 32-bit pattern. */
  function ToInt(u: nat): (v: Int)
    requires u < IntModulus
    ensures (v - u) % IntModulus == 0
  {
    if u <= IntMax then u else u - IntModulus
  }

  lemma Pow256Widths()
    ensures Pow256(4) == IntModulus && Pow256(8) == LongModulus
  {
  }

  /** The signed Long whose big-endian two's complement is these 8 bytes. */
  function DecodeLong(bytes: seq<JByte>): Long
    requires |bytes| == 8
  {
    Pow256Widths();
    ToLong(BigEndian(bytes))
  }

  /** The signed Int whose big-endian two's complement is these 4 bytes. */
  function DecodeInt(bytes: seq<JByte>): Int
    requires |bytes| == 4
  {
    Pow256Widths();
    ToInt(BigEndian(bytes))
  }

  /** `java.nio.ByteBuffer` over a backing array, with the position that
      relative `put` and `get` calls advance. */
  class ByteBuffer {
    var hb: array<JByte>
    var position: nat

    ghost predicate Valid()
      reads this
    {
      position <= hb.Length
    }

    /** `ByteBuffer.allocate(capacity)`: zero-filled, position 0. */
    constructor Allocate(capacity: nat)
      ensures Valid() && fresh(hb)
      ensures hb.Length == capacity && position == 0
      ensures hb[..] == seq(capacity, _ => 0)
    {
      hb := new JByte[capacity](_ => 0);
      position := 0;
    }

    /** `put(src)` for a source that fits in the remaining space. */
    method Put(src: seq<JByte>)
      requires Valid() && |src| <= hb.Length - position
      modifies this, hb
      ensures Valid() && hb == old(hb)
      ensures position == old(position) + |src|
      ensures hb[..] == old(hb[..position]) + src + old(hb[position + |src|..])
    {
      for i := 0 to |src|
        invariant forall k :: 0 <= k < hb.Length ==>
          hb[k] == if position <= k < position + i then src[k - position] else old(hb[k])
        modifies hb
      {
        hb[position + i] := src[i];
      }
      assert hb[..] == old(hb[..position]) + src + old(hb[position + |src|..]);
      position := position + |src|;
    }

    /** `rewind()` */
    method Rewind()
      requires Valid()
      modifies this`position
      ensures Valid()
      ensures position == 0
    {
      position := 0;
    }

    /** Reads the next `width` bytes as an unsigned big-endian number and
        moves past them; None where `get` throws BufferUnderflowException. */
    method Next(width: nat) returns (u: Option<nat>)
      requires Valid()
      modifies this`position
      ensures Valid()
      ensures u.Some? <==> old(position) + width <= hb.Length
      ensures u.Some? ==> u.value == BigEndian(hb[old(position)..old(position) + width])
      ensures position == if u.Some? then old(position) + width else old(position)
    {
      if hb.Length - position < width {
        return None;
      }
      var acc := 0;
      var i := 0;
      while i < width
        invariant i <= width
        invariant acc == BigEndian(hb[position..position + i])
      {
        assert hb[position..position + i + 1][..i] == hb[position..position + i];
        acc := acc * 256 + Unsigned(hb[position + i]);
        i := i + 1;
      }
      position := position + width;
      u := Some(acc);
    }

    /** `getLong()` */
    method GetLong() returns (r: Option<Long>)
      requires Valid()
      modifies this`position
      ensures Valid()
      ensures r.Some? <==> old(position) + 8 <= hb.Length
      ensures r.Some? ==> r.value == DecodeLong(hb[old(position)..old(position) + 8])
      ensures position == if r.Some? then old(position) + 8 else old(position)
    {
      var u := Next(8);
      Pow256Widths();
      r := if u.Some? then Some(ToLong(u.value)) else None;
    }

    /** `getInt()` */
    method GetInt() returns (r: Option<Int>)
      requires Valid()
      modifies this`position
      ensures Valid()
      ensures r.Some? <==> old(position) + 4 <= hb.Length
      ensures r.Some? ==> r.value == DecodeInt(hb[old(position)..old(position) + 4])
      ensures position == if r.Some? then old(position) + 4 else old(position)
    {
      var u := Next(4);
      Pow256Widths();
      r := if u.Some? then Some(ToInt(u.value)) else None;
    }
  }

  /** `getHashLong`: the first 8 digest bytes, big-endian, as a signed Long;
      None where a digest shorter than 8 bytes makes `getLong` throw. */
  method GetHashLong(digest: seq<JByte>) returns (r: Option<Long>)
    ensures r.Some? <==> |digest| >= 8
    ensures r.Some? ==> r.value == DecodeLong(digest[..8])
  {
    Pow256Widths();
    var buffer := new ByteBuffer.Allocate(|digest|);
    buffer.Put(digest);
    assert buffer.hb[..] == digest;
    buffer.Rewind();
    r := buffer.GetLong();
  }

  /** `getHashInt`: the first 4 digest bytes, big-endian, as a signed Int. */
  method GetHashInt(digest: seq<JByte>) returns (r: Option<Int>)
    ensures r.Some? <==> |digest| >= 4
    ensures r.Some? ==> r.value == DecodeInt(digest[..4])
  {
    Pow256Widths();
    var buffer := new ByteBuffer.Allocate(|digest|);
    buffer.Put(digest);
    assert buffer.hb[..] == digest;
    buffer.Rewind();
    r := buffer.GetInt();
  }

  /** Splitting off the most significant byte. */
  lemma {:induction false} BigEndianFront(bytes: seq<JByte>)
    requires bytes != []
    ensures BigEndian(bytes) == Unsigned(bytes[0]) * Pow256(|bytes| - 1) + BigEndian(bytes[1..])
  {
    var n := |bytes|;
    if n > 1 {
      var init := bytes[..n - 1];
      assert bytes[1..][..n - 2] == init[1..];
      BigEndianFront(init);
      var ap, r, l := Unsigned(init[0]) * Pow256(n - 2), BigEndian(init[1..]), Unsigned(bytes[n - 1]);
      assert BigEndian(bytes) == (ap + r) * 256 + l;
      assert BigEndian(bytes[1..]) == r * 256 + l;
      MulAssoc(Unsigned(bytes[0]), Pow256(n - 2));
    }
  }

  lemma MulAssoc(a: int, p: int)
    ensures (a * p) * 256 == a * (p * 256)
  {
  }

  /** The sign of the number is the sign of the first (most significant)
      byte of the big-endian pattern. */
  lemma SignFollowsFirstByte(bytes: seq<JByte>)
    requires |bytes| == 8 || |bytes| == 4
    ensures |bytes| == 8 ==> (DecodeLong(bytes) < 0 <==> bytes[0] < 0)
    ensures |bytes| == 4 ==> (DecodeInt(bytes) < 0 <==> bytes[0] < 0)
  {
    Pow256Widths();
    BigEndianFront(bytes);
    var p := Pow256(|bytes| - 1);
    var rest := BigEndian(bytes[1..]);
    assert rest < p;
    if |bytes| == 8 {
      assert p * 128 == LongMax + 1;
    } else {
      assert p * 128 == IntMax + 1;
    }
  }

  /** The byte that keeps the low 8 bits of `x`. */
  function LowByte(x: nat): (b: JByte)
    requires x < 256
    ensures Unsigned(b) == x
  {
    if x < 128 then x else x - 256
  }

  /** The `width` big-endian bytes of the unsigned number `u`. */
  function Bytes(u: nat, width: nat): (bytes: seq<JByte>)
    ensures |bytes| == width
  {
    if width == 0 then [] else Bytes(u / 256, width - 1) + [LowByte(u % 256)]
  }

  /** The 8 big-endian bytes of v's two's complement: the specification
      helper that shows every Long is reached by the decoding. */
  function LongBytes(v: Long): (bytes: seq<JByte>)
    ensures |bytes| == 8
  {
    Bytes(if v < 0 then v + LongModulus else v, 8)
  }

  /** The 4 big-endian bytes of v's two's complement, the Int counterpart
      of `LongBytes`. */
  function IntBytes(v: Int): (bytes: seq<JByte>)
    ensures |bytes| == 4
  {
    Bytes(if v < 0 then v + IntModulus else v, 4)
  }

  lemma {:induction false} BigEndianBytes(u: nat, width: nat)
    requires u < Pow256(width)
    ensures BigEndian(Bytes(u, width)) == u
  {
    if width > 0 {
      var bytes := Bytes(u, width);
      assert bytes[..width - 1] == Bytes(u / 256, width - 1);
      BigEndianBytes(u / 256, width - 1);
    }
  }

  /** Decoding the 8 two's-complement bytes of a Long gives the Long back,
      so every Long is some digest's `getHashLong`. */
  lemma LongRoundTrip(v: Long)
    ensures DecodeLong(LongBytes(v)) == v
  {
    Pow256Widths();
    BigEndianBytes(if v < 0 then v + LongModulus else v, 8);
  }

  /** Decoding the 4 two's-complement bytes of an Int gives the Int back. */
  lemma IntRoundTrip(v: Int)
    ensures DecodeInt(IntBytes(v)) == v
  {
    Pow256Widths();
    BigEndianBytes(if v < 0 then v + IntModulus else v, 4);
  }
}
