/** Fixed-width unsigned integers, their big-endian byte layout, and an
    in-memory cursor that writes 32-bit big-endian words into a byte buffer
    (the parts of `std::io::Cursor` and `byteorder` the generator relies on). */
module ByteOrder {
  import opened Arith
  import opened Wrappers

  type byte = x: int | 0 <= x < 0x100
  type u32 = x: int | 0 <= x < 0x1_0000_0000

  /** The failures a cursor read or write can report. */
  datatype IoError = WriteZero | UnexpectedEof

  /** n zero bytes. */
  function Zeros(n: nat): (bs: seq<byte>)
    ensures |bs| == n && forall i :: 0 <= i < n ==> bs[i] == 0
  {
    if n == 0 then [] else Zeros(n - 1) + [0]
  }

  /** The number a byte string denotes, most significant byte first. */
  function FromBigEndian(bs: seq<byte>): (v: nat)
    ensures v < Pow(256, |bs|)
  {
    if bs == [] then 0
    else
      var init := FromBigEndian(bs[..|bs| - 1]);
      assert init * 256 <= (Pow(256, |bs| - 1) - 1) * 256;
      init * 256 + bs[|bs| - 1]
  }

  /** The n low-order bytes of v, most significant first. */
  function ToBigEndian(v: nat, n: nat): (bs: seq<byte>)
    ensures |bs| == n
  {
    if n == 0 then [] else ToBigEndian(v / 256, n - 1) + [v % 256]
  }

  /** Encoding v in n bytes and reading it back keeps v modulo 256^n. */
  lemma {:induction false} FromToBigEndian(v: nat, n: nat)
    ensures FromBigEndian(ToBigEndian(v, n)) == v % Pow(256, n)
  {
    if n > 0 {
      var bs := ToBigEndian(v, n);
      assert bs[..n - 1] == ToBigEndian(v / 256, n - 1);
      FromToBigEndian(v / 256, n - 1);
      DivModSplit(v, 256, Pow(256, n - 1));
    }
  }

  /** Reading a byte string and encoding the value in as many bytes gives the
      byte string back: the big-endian layout loses nothing. */
  lemma {:induction false} ToFromBigEndian(bs: seq<byte>)
    ensures ToBigEndian(FromBigEndian(bs), |bs|) == bs
  {
    if bs != [] {
      var n := |bs|;
      var v := FromBigEndian(bs);
      var init := FromBigEndian(bs[..n - 1]);
      DivModUnique(v, 256, init, bs[n - 1]);
      ToFromBigEndian(bs[..n - 1]);
      assert bs == bs[..n - 1] + [bs[n - 1]];
    }
  }

  /** A value below 256^n keeps the extra leading bytes of a wider encoding zero. */
  lemma {:induction false} ToBigEndianWiden(v: nat, n: nat, m: nat)
    requires v < Pow(256, n)
    ensures ToBigEndian(v, m + n) == Zeros(m) + ToBigEndian(v, n)
  {
    if n == 0 {
      ZeroToBigEndian(m);
    } else {
      DivModUnique(v, 256, v / 256, v % 256);
      assert v / 256 < Pow(256, n - 1);
      ToBigEndianWiden(v / 256, n - 1, m);
      assert ToBigEndian(v, m + n) == ToBigEndian(v / 256, m + n - 1) + [v % 256];
    }
  }

  /** Zero is encoded as zero bytes whatever the width. */
  lemma {:induction false} ZeroToBigEndian(m: nat)
    ensures ToBigEndian(0, m) == Zeros(m)
  {
    if m > 0 {
      ZeroToBigEndian(m - 1);
    }
  }

  /** A four-byte string denotes b0·2^24 + b1·2^16 + b2·2^8 + b3. */
  lemma FromBigEndian4(bs: seq<byte>)
    requires |bs| == 4
    ensures FromBigEndian(bs) == bs[0] as int * 0x100_0000 + bs[1] as int * 0x1_0000 + bs[2] as int * 0x100 + bs[3]
  {
    assert bs[..3][..2] == bs[..2] && bs[..2][..1] == bs[..1] && bs[..1][..0] == [];
    assert FromBigEndian(bs[..1]) == bs[0];
    assert FromBigEndian(bs[..2]) == bs[0] as int * 0x100 + bs[1];
    assert FromBigEndian(bs[..3]) == (bs[0] as int * 0x100 + bs[1]) * 0x100 + bs[2];
  }

  /** A u32 survives the trip through its four big-endian bytes. */
  lemma WordRoundTrip(v: u32)
    ensures FromBigEndian(ToBigEndian(v, 4)) == v
  {
    FromToBigEndian(v, 4);
    assert Pow(256, 4) == 0x1_0000_0000;
    DivModUnique(v, Pow(256, 4), 0, v);
  }

  /** Four bytes denote a u32. */
  lemma WordBound(bs: seq<byte>)
    requires |bs| == 4
    ensures FromBigEndian(bs) < 0x1_0000_0000
  {
    assert Pow(256, 4) == 0x1_0000_0000;
  }

  /** `read_u32::<BigEndian>` on a cursor at the start of bs: the first four
      bytes as one unsigned word, or UnexpectedEof when fewer than four remain. */
  function ReadU32(bs: seq<byte>): (r: Result<u32, IoError>)
    ensures r.Ok? <==> |bs| >= 4
    ensures r.Err? ==> r.error == UnexpectedEof
    ensures r.Ok? ==> ToBigEndian(r.value, 4) == bs[..4]
  {
    if |bs| < 4 then Err(UnexpectedEof)
    else
      ToFromBigEndian(bs[..4]);
      WordBound(bs[..4]);
      Ok(FromBigEndian(bs[..4]))
  }

  /** A cursor over a fixed byte buffer, initially zero-filled, with a write
      position. */
  class Cursor {
    var data: array<byte>
    var pos: nat

    ghost predicate Valid()
      reads this
    {
      pos <= data.Length
    }

    /** A cursor at position 0 over `len` zero bytes. */
    constructor (len: nat)
      ensures Valid() && fresh(data)
      ensures pos == 0 && data[..] == Zeros(len)
    {
      data := new byte[len](_ => 0);
      pos := 0;
    }

    /** `write_u32::<BigEndian>`: store the four big-endian bytes of v at the
        position and move past them; when they do not fit, report WriteZero
        and leave the cursor as it was. */
    method WriteU32(v: u32) returns (r: Result<(), IoError>)
      requires Valid()
      modifies this`pos, data
      ensures Valid() && data == old(data)
      ensures r.Ok? <==> old(pos) + 4 <= data.Length
      ensures r.Err? ==> r.error == WriteZero && pos == old(pos) && data[..] == old(data[..])
      ensures r.Ok? ==> pos == old(pos) + 4
      ensures r.Ok? ==> data[..] == old(data[..])[..old(pos)] + ToBigEndian(v, 4) + old(data[..])[old(pos) + 4..]
    {
      if pos + 4 > data.Length {
        return Err(WriteZero);
      }
      var bytes := ToBigEndian(v, 4);
      data[pos], data[pos + 1], data[pos + 2], data[pos + 3] := bytes[0], bytes[1], bytes[2], bytes[3];
      pos := pos + 4;
      assert data[..] == old(data[..])[..old(pos)] + bytes + old(data[..])[old(pos) + 4..];
      r := Ok(());
    }
  }
}
