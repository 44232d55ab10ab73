/** Byte strings, Python's negative slices, and the little-endian integers of the wire. */
module Bytes {
  import opened Wrappers

  newtype byte = x: int | 0 <= x < 256
  type Bytes = seq<byte>

  const U32_LIMIT: int := 0x1_0000_0000
  type u32 = x: int | 0 <= x < 0x1_0000_0000

  // A byte string whose length fits the signed length field of the wire.
  type Text = s: Bytes | |s| < 0x8000_0000

  /** s[-n:] for n > 0. */
  function LastBytes(s: Bytes, n: nat): Bytes {
    if n >= |s| then s else s[|s| - n..]
  }

  /** s[:-n] for n > 0. */
  function ButLastBytes(s: Bytes, n: nat): Bytes {
    if n >= |s| then [] else s[..|s| - n]
  }

  function Repeat(b: byte, n: nat): (s: Bytes)
    ensures |s| == n && forall i | 0 <= i < n :: s[i] == b
  {
    seq(n, i => b)
  }

  function Join(parts: seq<Bytes>): Bytes {
    if parts == [] then [] else parts[0] + Join(parts[1..])
  }

  lemma {:induction false} JoinAppend(a: seq<Bytes>, b: seq<Bytes>)
    ensures Join(a + b) == Join(a) + Join(b)
  {
    if a == [] {
      assert a + b == b;
    } else {
      assert (a + b)[1..] == a[1..] + b;
      JoinAppend(a[1..], b);
    }
  }

  function PackU32(n: u32): (b: Bytes)
    ensures |b| == 4
  {
    [(n % 256) as byte, (n / 256 % 256) as byte, (n / 65536 % 256) as byte, (n / 16777216) as byte]
  }

  function UnpackU32(b: Bytes): u32
    requires |b| == 4
  {
    b[0] as int + 256 * b[1] as int + 65536 * b[2] as int + 16777216 * b[3] as int
  }

  lemma U32RoundTrip(n: u32)
    ensures UnpackU32(PackU32(n)) == n
  {
    var q := n / 256;
    var r := q / 256;
    assert n / 65536 == r && n / 16777216 == r / 256;
  }

  /** Reading from the front of a byte string: the value and what is left. */
  datatype Cursor<+T> = Cursor(value: T, rest: Bytes)

  function ReadBytes(data: Bytes, n: nat): Result<Cursor<Bytes>, Error> {
    if n > |data| then Err(NotEnoughData) else Ok(Cursor(data[..n], data[n..]))
  }

  function ReadU32(data: Bytes): Result<Cursor<u32>, Error> {
    var c :- ReadBytes(data, 4);
    Ok(Cursor(UnpackU32(c.value), c.rest))
  }

  /** The lowest byte comes first. */
  lemma LittleEndian(n: u32)
    ensures var b := PackU32(n);
            n == b[0] as int + 0x100 * b[1] as int + 0x1_0000 * b[2] as int + 0x100_0000 * b[3] as int
  {
    U32RoundTrip(n);
    hide PackU32;
  }

  /** Four bytes are the packed form of what they unpack to. */
  lemma PackUnpacked(b: Bytes)
    requires |b| == 4
    ensures PackU32(UnpackU32(b)) == b
  {
    U32RoundTrip(UnpackU32(b));
    hide PackU32, UnpackU32;
    SameDigits(PackU32(UnpackU32(b)), b);
  }

  lemma SameDigits(a: Bytes, b: Bytes)
    requires |a| == |b| == 4 && UnpackU32(a) == UnpackU32(b)
    ensures a == b
  {
    var (x, y) := (UnpackU32(a), UnpackU32(b));
    LowDigit(x, a[0], a[1] as int + 256 * a[2] as int + 65536 * a[3] as int);
    LowDigit(y, b[0], b[1] as int + 256 * b[2] as int + 65536 * b[3] as int);
    LowDigit(x / 256, a[1], a[2] as int + 256 * a[3] as int);
    LowDigit(y / 256, b[1], b[2] as int + 256 * b[3] as int);
    LowDigit(x / 256 / 256, a[2], a[3] as int);
    LowDigit(y / 256 / 256, b[2], b[3] as int);
    hide UnpackU32;
    assert a == [a[0], a[1], a[2], a[3]] && b == [b[0], b[1], b[2], b[3]];
  }

  lemma LowDigit(n: int, digit: byte, rest: int)
    requires n == digit as int + 256 * rest
    ensures n % 256 == digit as int && n / 256 == rest
  {
  }

  lemma ReadPackedU32(n: u32, rest: Bytes)
    ensures ReadU32(PackU32(n) + rest) == Ok(Cursor(n, rest))
  {
    U32RoundTrip(n);
    assert (PackU32(n) + rest)[..4] == PackU32(n);
    assert (PackU32(n) + rest)[4..] == rest;
  }

  /** A string or byte string: a signed length, -1 for None, then the bytes. */
  function PackText(t: Option<Text>): (b: Bytes)
    ensures t.None? ==> b == [255, 255, 255, 255]
    ensures t.Some? ==> |b| == 4 + |t.value| && b[4..] == t.value
  {
    match t
    case None => PackU32(0xFFFF_FFFF)
    case Some(s) => PackU32(|s|) + s
  }

  // A length below -1 makes Buffer.read move backwards; here it reads as an error.
  function ReadText(data: Bytes): Result<Cursor<Option<Text>>, Error> {
    var c :- ReadU32(data);
    if c.value == 0xFFFF_FFFF then Ok(Cursor(None, c.rest))
    else if c.value >= 0x8000_0000 then Err(NotEnoughData)
    else
      var d :- ReadBytes(c.rest, c.value);
      Ok(Cursor(Some(d.value), d.rest))
  }

  lemma ReadPackedText(t: Option<Text>, rest: Bytes)
    ensures ReadText(PackText(t) + rest) == Ok(Cursor(t, rest))
  {
    match t
    case None => ReadPackedU32(0xFFFF_FFFF, rest);
    case Some(s) =>
      ReadPackedU32(|s|, s + rest);
      assert PackText(t) + rest == PackU32(|s|) + (s + rest);
      assert (s + rest)[..|s|] == s && (s + rest)[|s|..] == rest;
  }

  /** What was read is the packed form of the value. */
  lemma TextWasPacked(data: Bytes)
    requires ReadText(data).Ok?
    ensures var c := ReadText(data).value;
            PackText(c.value) + c.rest == data
  {
    PackUnpacked(data[..4]);
    var c := ReadText(data).value;
    if c.value.Some? {
      assert data == data[..4] + (data[4..][..|c.value.value|] + c.rest);
    }
  }

  /** The cursor over a byte string that every decoder of the stack moves along. */
  class Buffer {
    const data: Bytes
    var curPos: nat
    var size: nat

    ghost predicate Valid()
      reads this
    {
      curPos + size <= |data|
    }

    function Contents(): Bytes
      requires Valid()
      reads this
    {
      data[curPos..curPos + size]
    }

    constructor (data: Bytes)
      ensures Valid() && Contents() == data
    {
      this.data := data;
      curPos := 0;
      size := |data|;
    }

    constructor View(data: Bytes, startPos: nat, size: nat)
      requires startPos + size <= |data|
      ensures Valid() && Contents() == data[startPos..startPos + size]
    {
      this.data := data;
      curPos := startPos;
      this.size := size;
    }

    method Read(n: nat) returns (r: Result<Bytes, Error>)
      requires Valid()
      modifies this
      ensures Valid()
      ensures n > |old(Contents())| ==> r == Err(NotEnoughData) && Contents() == old(Contents())
      ensures n <= |old(Contents())| ==>
                r == Ok(old(Contents())[..n]) && Contents() == old(Contents())[n..]
    {
      if n > size {
        return Err(NotEnoughData);
      }
      size := size - n;
      var pos := curPos;
      curPos := curPos + n;
      r := Ok(data[pos..curPos]);
      assert data[pos..curPos] == old(Contents())[..n];
    }

    method Copy(n: nat) returns (b: Buffer)
      requires Valid()
      ensures fresh(b) && b.Valid()
      ensures b.Contents() == if n > |Contents()| then Contents() else Contents()[..n]
    {
      b := new Buffer.View(data, curPos, if n > size then size else n);
    }

    method Skip(n: nat) returns (r: Result<(), Error>)
      requires Valid()
      modifies this
      ensures Valid()
      ensures r == if n > |old(Contents())| then Err(NotEnoughData) else Ok(())
      ensures Contents() == if n > |old(Contents())| then old(Contents()) else old(Contents())[n..]
    {
      if n > size {
        return Err(NotEnoughData);
      }
      size := size - n;
      curPos := curPos + n;
      r := Ok(());
    }
  }
}
