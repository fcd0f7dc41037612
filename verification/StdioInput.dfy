/** The stdin-backed input buffer of the native zkVM interface. */
module StdioInput {
  import opened Words

  type uint8 = n: nat | n < 256

  const INITIAL_CAPACITY: nat := 0x1_0000

  /** A finite standard input that hands out its bytes in chunks of its own choosing. */
  class Stdin {
    var data: seq<uint8>
    var failing: bool

    constructor (data: seq<uint8>, failing: bool)
      ensures this.data == data && this.failing == failing
    {
      this.data, this.failing := data, failing;
    }

    /** Reads between one and `max` bytes, or none at the end of the input or at an error. */
    method Fread(max: nat) returns (chunk: seq<uint8>)
      requires 0 < max
      modifies this`data
      ensures old(data) == chunk + data && |chunk| <= max
      ensures chunk == [] <==> old(data) == []
    {
      if data == [] {
        return [];
      }
      var n: nat :| 0 < n <= max && n <= |data|;
      chunk := data[..n];
      data := data[n..];
    }
  }

  /** Either the call returns, or the process has died. */
  datatype Status = Done | Died

  /** The buffer is at most twice as long as needed, and growing it has copied less than its length. */
  ghost predicate IsWithinBounds(len: nat, cap: nat, copied: nat) {
    && len <= cap
    && 65536 <= cap <= Max(65536, 2 * len)
    && copied == cap - 65536
  }

  class Input {
    var buf: array<uint8>
    var len: nat
    var loaded: bool
    ghost var copied: nat

    /** What a reader of the buffer sees. */
    ghost function Contents(): seq<uint8>
      requires len <= buf.Length
      reads this, buf
    {
      buf[..len]
    }

    constructor ()
      ensures !loaded && fresh(buf) && len == 0 && len <= buf.Length
    {
      buf := new uint8[0];
      len, loaded, copied := 0, false, 0;
    }

    /** Doubles the buffer and copies what it holds, if the allocation succeeds. */
    method Grow(memory: nat) returns (status: Status)
      requires 0 < buf.Length == len
      modifies this`buf, this`copied
      ensures status == Done <==> 2 * old(buf.Length) <= memory
      ensures status == Done ==>
                && fresh(buf) && buf.Length == 2 * len && buf[..len] == old(buf[..len])
                && copied == old(copied) + len
      ensures status == Died ==> buf == old(buf) && copied == old(copied)
    {
      if memory < 2 * buf.Length {
        return Died;
      }
      var grown := new uint8[2 * buf.Length];
      var i := 0;
      while i < len
        invariant 0 <= i <= len && grown[..i] == buf[..i]
        modifies grown
      {
        grown[i] := buf[i];
        i := i + 1;
      }
      buf := grown;
      copied := copied + len;
      return Done;
    }

    /** Stores a chunk behind the bytes already there. */
    method Append(chunk: seq<uint8>)
      requires len + |chunk| <= buf.Length
      modifies this`len, buf
      ensures len == old(len) + |chunk| && Contents() == old(Contents()) + chunk
    {
      var i := 0;
      while i < |chunk|
        invariant 0 <= i <= |chunk|
        invariant buf[..len] == old(buf[..len]) && buf[len..len + i] == chunk[..i]
        modifies buf
      {
        buf[len + i] := chunk[i];
        i := i + 1;
      }
      assert buf[..len + |chunk|] == buf[..len] + buf[len..len + |chunk|];
      len := len + |chunk|;
    }

    /** One turn of the reading loop: grows a full buffer, and reads a chunk, the last one being empty. */
    method ReadChunk(stdin: Stdin, memory: nat) returns (status: Status, last: bool)
      requires IsWithinBounds(len, buf.Length, copied)
      modifies this`buf, this`len, this`copied, buf, stdin`data
      ensures buf == old(buf) || fresh(buf)
      ensures status == Died <==> old(len) == old(buf.Length) && memory < 2 * old(len)
      ensures len <= buf.Length
      ensures status == Done ==>
                && IsWithinBounds(len, buf.Length, copied)
                && buf.Length == (if old(len) == old(buf.Length) then 2 * old(len) else old(buf.Length))
                && Contents() + stdin.data == old(Contents() + stdin.data)
                && (if last then old(stdin.data) == [] && len == old(len) < buf.Length
                    else |stdin.data| < |old(stdin.data)|)
    {
      if len == buf.Length {
        status := Grow(memory);
        if status == Died {
          return Died, false;
        }
      }
      var chunk := stdin.Fread(buf.Length - len);
      Append(chunk);
      return Done, chunk == [];
    }

    /**
     * Reads all of standard input, however it is chunked: the buffer ends up with exactly the input, within
     * the bounds. It fails only at a read error or when the memory is not there. Once loaded, nothing is read
     * again and the buffer stays the same.
     */
    method Load(stdin: Stdin, memory: nat) returns (status: Status)
      requires len <= buf.Length && (!loaded ==> len == 0)
      modifies this, stdin`data
      ensures len <= buf.Length && loaded
      ensures old(loaded) ==>
                status == Done && buf == old(buf) && Contents() == old(Contents()) && stdin.data == old(stdin.data)
      ensures !old(loaded) && status == Done ==>
                && Contents() == old(stdin.data) && stdin.data == []
                && IsWithinBounds(len, buf.Length, copied)
      ensures !old(loaded) ==>
                (status == Done <==> !stdin.failing && NeededMemory(65536, |old(stdin.data)|) <= memory)
    {
      if loaded {
        return Done;
      }
      loaded := true;
      if memory < INITIAL_CAPACITY {
        NeededMemoryGrows(INITIAL_CAPACITY, |stdin.data|);
        return Died;
      }
      buf := new uint8[INITIAL_CAPACITY];
      copied := 0;
      var last := false;
      while !last
        invariant fresh(buf) && loaded
        invariant IsWithinBounds(len, buf.Length, copied) && buf.Length <= memory
        invariant Contents() + stdin.data == old(stdin.data)
        invariant NeededMemory(buf.Length, |old(stdin.data)|) == NeededMemory(INITIAL_CAPACITY, |old(stdin.data)|)
        invariant last ==> stdin.data == [] && len < buf.Length
        decreases !last, |stdin.data|
      {
        assert |Contents()| == len <= |old(stdin.data)|;
        NeededMemoryGrows(2 * buf.Length, |old(stdin.data)|);
        status, last := ReadChunk(stdin, memory);
        if status == Died {
          return;
        }
      }
      return if stdin.failing then Died else Done;
    }
  }

  /** The capacity with which an input of this length is read to its end: the first doubling that is longer. */
  function NeededMemory(cap: nat, length: nat): nat
    requires 0 < cap
    decreases length + 1 - cap
  {
    if length < cap then cap else NeededMemory(2 * cap, length)
  }

  lemma {:induction false} NeededMemoryGrows(cap: nat, length: nat)
    requires 0 < cap
    ensures cap <= NeededMemory(cap, length)
    decreases length + 1 - cap
  {
    if cap <= length {
      NeededMemoryGrows(2 * cap, length);
    }
  }

  /** It is longer than the input, and unless the input is short, at most twice as long. */
  lemma {:induction false} NeededMemoryIsTight(cap: nat, length: nat)
    requires 0 < cap
    ensures length < NeededMemory(cap, length) <= Max(cap, 2 * length)
    decreases length + 1 - cap
  {
    if cap <= length {
      NeededMemoryIsTight(2 * cap, length);
    }
  }
}
