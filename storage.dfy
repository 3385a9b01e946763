/** The compound-file view the parser works on: a finite tree of named
    storages (directories) and streams (documents), already extracted from the
    container, and a document stream read front to back through a cursor. */
module Storage {
  import opened Results

  /** One byte of a stream. */
  newtype byte = b: int | 0 <= b < 0x100

  /** A directory entry: a storage with named children, or a stream's bytes. */
  datatype Entry = Dir(children: map<string, Entry>) | Doc(bytes: seq<byte>)

  /** Looking up a storage by name: fails when the entry is missing
      or is not a storage. */
  function GetDirectory(dir: map<string, Entry>, name: string): Result<Entry> {
    if name in dir && dir[name].Dir? then Ok(dir[name]) else Fail
  }

  /** Looking up a stream by name, giving its bytes: fails when the
      entry is missing or is not a stream. */
  function GetDocument(dir: map<string, Entry>, name: string): Result<seq<byte>> {
    if name in dir && dir[name].Doc? then Ok(dir[name].bytes) else Fail
  }

  /** Whether a directory has an entry of that name, of either kind. */
  predicate HasEntry(dir: map<string, Entry>, name: string) {
    name in dir
  }

  predicate IsInt32(v: int) {
    -0x8000_0000 <= v < 0x8000_0000
  }

  /** The Java `int` stored little-endian in `bytes[off..off + 4]`. */
  function Int32At(bytes: seq<byte>, off: nat): (v: int)
    requires off + 4 <= |bytes|
    ensures IsInt32(v)
    ensures v < 0 <==> bytes[off + 3] >= 0x80
  {
    var u := bytes[off] as int + 0x100 * bytes[off + 1] as int
      + 0x1_0000 * bytes[off + 2] as int + 0x100_0000 * bytes[off + 3] as int;
    if u >= 0x8000_0000 then u - 0x1_0000_0000 else u
  }

  /** The four little-endian bytes of a Java `int` (two's complement). */
  function Int32Bytes(v: int): (b: seq<byte>)
    requires IsInt32(v)
    ensures |b| == 4
  {
    var u0 := if v < 0 then v + 0x1_0000_0000 else v;
    var u1 := u0 / 0x100;
    var u2 := u1 / 0x100;
    var u3 := u2 / 0x100;
    [(u0 % 0x100) as byte, (u1 % 0x100) as byte, (u2 % 0x100) as byte, u3 as byte]
  }

  /** Reading an `int` back from its bytes, wherever they sit in a stream,
      gives the value written. */
  lemma Int32RoundTrip(prefix: seq<byte>, v: int, suffix: seq<byte>)
    requires IsInt32(v)
    ensures Int32At(prefix + Int32Bytes(v) + suffix, |prefix|) == v
  {
    var bytes := prefix + Int32Bytes(v) + suffix;
    var k := |prefix|;
    var u0 := if v < 0 then v + 0x1_0000_0000 else v;
    var u1 := u0 / 0x100;
    var u2 := u1 / 0x100;
    var u3 := u2 / 0x100;
    assert u0 == u0 % 0x100 + 0x100 * u1;
    assert u1 == u1 % 0x100 + 0x100 * u2;
    assert u2 == u2 % 0x100 + 0x100 * u3;
    assert u3 < 0x100;
    assert bytes[k..k + 4] == Int32Bytes(v);
    var b0, b1, b2, b3 := bytes[k] as int, bytes[k + 1] as int, bytes[k + 2] as int, bytes[k + 3] as int;
    assert b0 == u0 % 0x100 && b1 == u1 % 0x100 && b2 == u2 % 0x100 && b3 == u3;
    assert b0 + 0x100 * b1 + 0x1_0000 * b2 + 0x100_0000 * b3 == u0;
  }

  /** A `DocumentInputStream` over one stream: the bytes never change and the
      cursor only moves forward. */
  class DocumentStream {
    const bytes: seq<byte>
    var pos: nat

    ghost predicate Valid()
      reads this
    {
      pos <= |bytes|
    }

    constructor (document: seq<byte>)
      ensures bytes == document && pos == 0 && Valid()
    {
      bytes := document;
      pos := 0;
    }

    /** `available()`: the number of bytes not yet read. */
    function Available(): nat
      reads this
      requires Valid()
    {
      |bytes| - pos
    }

    /** `skip(n)`; a stream with fewer than `n` bytes left is a failure. */
    method Skip(n: nat) returns (ok: bool)
      requires Valid()
      modifies this
      ensures Valid()
      ensures ok <==> old(pos) + n <= |bytes|
      ensures pos == if ok then old(pos) + n else old(pos)
    {
      ok := pos + n <= |bytes|;
      if ok {
        pos := pos + n;
      }
    }

    /** `readInt()`: the next four bytes as a little-endian Java `int`; fewer
        than four bytes left is a failure. */
    method ReadInt() returns (r: Result<int>)
      requires Valid()
      modifies this
      ensures Valid()
      ensures r.Ok? <==> old(pos) + 4 <= |bytes|
      ensures r.Ok? ==> r.value == Int32At(bytes, old(pos)) && pos == old(pos) + 4
      ensures r.Fail? ==> pos == old(pos)
    {
      if pos + 4 <= |bytes| {
        r := Ok(Int32At(bytes, pos));
        pos := pos + 4;
      } else {
        r := Fail;
      }
    }
  }
}
