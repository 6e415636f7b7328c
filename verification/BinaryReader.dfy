/** The cursor over received bytes (sources/Base/BinaryReader.cpp): reading past the end moves to the
    end and yields zero. */
module BinaryReading {
  import opened Bytes
  import opened SevenBit

  class BinaryReader {
    const data: seq<byte>
    var current: nat
    var end: nat

    ghost predicate Valid()
      reads this
    {
      current <= end <= |data|
    }

    /** What is left to read. */
    function Rest(): (s: seq<byte>)
      reads this
      requires Valid()
      ensures |s| == end - current
    {
      data[current..end]
    }

    constructor (data: seq<byte>)
      ensures Valid() && Rest() == data && end == |data| && this.data == data && fresh(this)
    {
      this.data, current, end := data, 0, |data|;
    }

    function Available(): (n: nat)
      reads this
      requires Valid()
      ensures n == |Rest()|
    {
      end - current
    }

    method Next(count: nat) returns (n: nat)
      requires Valid()
      modifies this
      ensures Valid() && end == old(end) && n == (if count > |old(Rest())| then |old(Rest())| else count)
      ensures Rest() == old(Rest())[n..]
    {
      n := if count > Available() then Available() else count;
      current := current + n;
    }

    /** Gives up what lies beyond the next `available` bytes. */
    method Shrink(available: nat) returns (n: nat)
      requires Valid()
      modifies this
      ensures Valid() && n == (if available > |old(Rest())| then |old(Rest())| else available)
      ensures Rest() == old(Rest())[..n]
    {
      var rest := Available();
      if available > rest { return rest; }
      end := current + available;
      n := available;
    }

    /** The next bytes, or none when there are not enough. */
    method Read(size: nat) returns (value: Option<seq<byte>>)
      requires Valid()
      modifies this
      ensures Valid() && end == old(end)
      ensures size > |old(Rest())| ==> value == None && Rest() == []
      ensures size <= |old(Rest())| ==> value == Some(old(Rest())[..size]) && Rest() == old(Rest())[size..]
    {
      var available := Available();
      if size > available {
        current := current + available;
        return None;
      }
      value := Some(data[current..current + size]);
      assert data[current..end][..size] == data[current..current + size];
      current := current + size;
    }

    method Read8() returns (v: byte)
      requires Valid()
      modifies this
      ensures Valid() && end == old(end) && Parsed(v, Rest()) == Parse8(old(Rest()))
    {
      if current == end { return 0; }
      v := data[current];
      current := current + 1;
    }

    method Read16() returns (v: int)
      requires Valid()
      modifies this
      ensures Valid() && end == old(end) && Parsed(v, Rest()) == Parse16(old(Rest()))
    {
      var bytes := Read(2);
      if bytes.None? { return 0; }
      v := (bytes.value[0] as int) * 0x100 + bytes.value[1];
    }

    method Read24() returns (v: int)
      requires Valid()
      modifies this
      ensures Valid() && end == old(end) && Parsed(v, Rest()) == Parse24(old(Rest()))
    {
      var bytes := Read(3);
      if bytes.None? { return 0; }
      v := (bytes.value[0] as int) * 0x1_0000 + (bytes.value[1] as int) * 0x100 + bytes.value[2];
    }

    method Read32() returns (v: int)
      requires Valid()
      modifies this
      ensures Valid() && end == old(end) && Parsed(v, Rest()) == Parse32(old(Rest()))
    {
      var bytes := Read(4);
      if bytes.None? { return 0; }
      v := (bytes.value[0] as int) * 0x100_0000 + (bytes.value[1] as int) * 0x1_0000
         + (bytes.value[2] as int) * 0x100 + bytes.value[3];
    }

    /** At most `bytes` bytes, the last of which counts for eight bits. */
    method Read7Bit(bytes: nat) returns (result: nat)
      requires Valid() && bytes >= 1
      modifies this
      ensures Valid() && end == old(end) && Parsed(result, Rest()) == Parse7Bit(old(Rest()), bytes)
    {
      hide Parse7Bit;
      var left := bytes;
      result := 0;
      while true
        invariant Valid() && end == old(end) && 1 <= left
        invariant Parse7Bit(Rest(), left, result) == Parse7Bit(old(Rest()), bytes)
        decreases left
      {
        ParseOne(Rest(), left, result);
        var b := Read8();
        left := left - 1;
        if left == 0 { return result * 256 + b; }
        result := result * 128 + b % 128;
        if b < 128 { return; }
      }
    }
  }
}
