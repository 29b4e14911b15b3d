/** The byte cursor `stream_t`: a buffer and a read position. Reads are
    bounds-checked and may peek without advancing; writes append to the end
    of the buffer. Integers travel through the in-place byte reversal, so on
    the wire they are big-endian; strings are a 4-byte length followed by
    their raw bytes. */
module Streams {
  import opened ByteOrder

  /** The outcome of a cursor operation: a value, or the `runtime_error`
      ("empty flow") `stream_t` throws when a read runs past the end. */
  datatype Result<+T> = Ok(value: T) | EmptyFlow {
    predicate IsFailure() {
      EmptyFlow?
    }

    function PropagateFailure<U>(): Result<U>
      requires EmptyFlow?
    {
      EmptyFlow
    }

    function Extract(): T
      requires Ok?
    {
      value
    }
  }

  class Stream {
    var buf: seq<byte>
    var pos: nat

    ghost predicate Valid()
      reads this
    {
      pos <= |buf|
    }

    constructor (data: seq<byte>)
      ensures Valid() && buf == data && pos == 0
    {
      buf := data;
      pos := 0;
    }

    /** True when nothing is left to read: even a one-byte read would fail. */
    function Empty(): (e: bool)
      reads this
      requires Valid()
      ensures e <==> pos + 1 > |buf|
    {
      pos == |buf|
    }

    /** Copies `len` bytes from the read position; advances past them unless
        `peek` is set. Fails, leaving the position alone, when fewer than
        `len` bytes remain. */
    method ReadData(len: nat, peek: bool) returns (r: Result<seq<byte>>)
      requires Valid()
      modifies this`pos
      ensures Valid()
      ensures old(pos) + len <= |buf| ==>
        r == Ok(buf[old(pos)..old(pos) + len]) && pos == (if peek then old(pos) else old(pos) + len)
      ensures old(pos) + len > |buf| ==> r == EmptyFlow && pos == old(pos)
    {
      if pos + len <= |buf| {
        r := Ok(buf[pos..pos + len]);
        if !peek {
          pos := pos + len;
        }
      } else {
        r := EmptyFlow;
      }
    }

    /** Appends `data` to the buffer; the read position does not move. */
    method WriteData(data: seq<byte>)
      requires Valid()
      modifies this`buf
      ensures Valid()
      ensures buf == old(buf) + data
    {
      buf := buf + data;
    }

    /** Advances past `len` bytes, under the same bounds rule as `ReadData`. */
    method Skip(len: nat) returns (r: Result<()>)
      requires Valid()
      modifies this`pos
      ensures Valid()
      ensures old(pos) + len <= |buf| ==> r == Ok(()) && pos == old(pos) + len
      ensures old(pos) + len > |buf| ==> r == EmptyFlow && pos == old(pos)
    {
      if pos + len <= |buf| {
        pos := pos + len;
        r := Ok(());
      } else {
        r := EmptyFlow;
      }
    }

    /** Reads an unsigned integer of `width` bytes (the template `read<T>` with
        `sizeof(T) == width`): the bytes are copied into the value's storage,
        reversed in place and read in host order. */
    method ReadUInt(width: nat, peek: bool) returns (r: Result<nat>)
      requires Valid()
      modifies this`pos
      ensures Valid()
      ensures old(pos) + width <= |buf| ==>
        r == Ok(BeValue(buf[old(pos)..old(pos) + width])) &&
        pos == (if peek then old(pos) else old(pos) + width)
      ensures old(pos) + width > |buf| ==> r == EmptyFlow && pos == old(pos)
      ensures r.Ok? ==> r.value < Pow256(width)
    {
      var data :- ReadData(width, peek);
      var value := new byte[width](k requires 0 <= k < |data| => data[k]);
      ReverseBytes(value, width);
      assert value[..] == Reversed(data);
      LeValueOfReversed(data);
      r := Ok(LeValue(value[..]));
    }

    /** The template `write<T>`: appends the storage of `value` byte-swapped,
        then swaps it back, so `value` is left as it was. */
    method Write(value: array<byte>)
      requires Valid()
      modifies this`buf, value
      ensures Valid()
      ensures buf == old(buf) + Reversed(old(value[..]))
      ensures value[..] == old(value[..])
    {
      ReverseBytes(value, value.Length);
      assert value[..] == Reversed(old(value[..]));
      WriteData(value[..]);
      ReverseBytes(value, value.Length);
      ReversedTwice(old(value[..]));
    }

    /** Writes the `width`-byte unsigned integer `v` held in host storage:
        the buffer grows by its big-endian bytes, most significant first. */
    method WriteUInt(v: nat, width: nat)
      requires Valid() && v < Pow256(width)
      modifies this`buf
      ensures Valid()
      ensures buf == old(buf) + BeBytes(v, width)
    {
      var host := LeBytes(v, width);
      var value := new byte[width](k requires 0 <= k < |host| => host[k]);
      assert value[..] == host;
      Write(value);
      ReversedLeBytes(v, width);
    }

    /** Reads a 4-byte big-endian length and then that many raw bytes. When
        the length is there but the bytes are not, the length stays consumed. */
    method ReadString() returns (r: Result<seq<byte>>)
      requires Valid()
      modifies this`pos
      ensures Valid()
      ensures old(pos) + 4 > |buf| ==> r == EmptyFlow && pos == old(pos)
      ensures old(pos) + 4 <= |buf| ==>
        var size := BeValue(buf[old(pos)..old(pos) + 4]);
        if old(pos) + 4 + size <= |buf|
        then r == Ok(buf[old(pos) + 4..old(pos) + 4 + size]) && pos == old(pos) + 4 + size
        else r == EmptyFlow && pos == old(pos) + 4
    {
      var size :- ReadUInt(4, false);
      r := ReadData(size, false);
    }

    /** Writes the length of `s`, cut to 32 bits, then the bytes of `s`. */
    method WriteString(s: seq<byte>)
      requires Valid()
      modifies this`buf
      ensures Valid()
      ensures buf == old(buf) + BeBytes(|s| % U32_MOD, 4) + s
    {
      Pow256Widths();
      var size := |s| % U32_MOD;
      WriteUInt(size, 4);
      WriteData(s);
    }
  }

  /** Writing an integer and reading it back from where the reader stands
      returns it and consumes exactly its width. */
  method WriteThenReadUInt(s: Stream, v: nat, width: nat) returns (r: Result<nat>)
    requires s.Valid() && s.pos == |s.buf| && v < Pow256(width)
    modifies s
    ensures s.Valid() && r == Ok(v) && s.pos == old(s.pos) + width
  {
    s.WriteUInt(v, width);
    assert s.buf[old(s.pos)..old(s.pos) + width] == BeBytes(v, width);
    r := s.ReadUInt(width, false);
    BeValueOfBytes(v, width);
  }

  /** Writing a string shorter than 2^32 bytes and reading it back returns it
      and consumes its 4-byte length and its bytes. */
  method WriteThenReadString(s: Stream, str: seq<byte>) returns (r: Result<seq<byte>>)
    requires s.Valid() && s.pos == |s.buf| && |str| < U32_MOD
    modifies s
    ensures s.Valid() && r == Ok(str) && s.pos == old(s.pos) + 4 + |str|
  {
    ghost var before := s.buf;
    assert |str| % U32_MOD == |str|;
    s.WriteString(str);
    ghost var p := |before|;
    assert s.buf == before + BeBytes(|str|, 4) + str;
    assert s.buf[p..p + 4] == BeBytes(|str|, 4);
    assert s.buf[p + 4..p + 4 + |str|] == str;
    Pow256Widths();
    BeValueOfBytes(|str|, 4);
    r := s.ReadString();
  }
}
