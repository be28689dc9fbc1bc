/** The logger's buffer in front of its file (src/common/log.cpp, `emit`, `flush_file`, `write_pending`, `set_file`). */
module LogFile {
  import opened Bytes

  const CAPACITY: nat := 65536
  const CHUNK: nat := 4096

  /** How much waits in the buffer, and the clock of the line that last emptied it. */
  datatype Buffer = Buffer(size: nat, flushed: int)

  /** The buffer after a line: emptied if the line is important or the last flush is too long ago, else holding it. */
  function Appended(b: Buffer, line: nat, important: bool, clock: int, interval: nat): Buffer {
    if important || clock - b.flushed >= interval then Buffer(0, clock)
    else if b.size + line <= 65536 then b.(size := b.size + line)
    else b.(size := if line <= 65536 then line else 0)
  }

  /** A log file that raw writes always reach. `emitted` is what a file without a buffer would hold. */
  class BufferedFile {
    const pending: array<byte>
    const interval: nat
    var pendingSize: nat
    var open: bool
    var content: bytes
    var flushed: int
    ghost var emitted: bytes

    ghost predicate Valid()
      reads this, pending
    {
      && pending.Length == CAPACITY && pendingSize <= CAPACITY
      && content + pending[..pendingSize] == emitted
      && (!open ==> pendingSize == 0)
    }

    function State(): Buffer
      reads `pendingSize, `flushed
    {
      Buffer(pendingSize, flushed)
    }

    constructor (interval: nat)
      ensures Valid() && fresh(pending) && !open && emitted == [] && this.interval == interval
    {
      pending := new byte[CAPACITY];
      pendingSize, open, content, flushed, emitted := 0, false, [], 0, [];
      this.interval := interval;
    }

    /** Copies the buffer to the file, a chunk at a time. */
    method WritePending()
      requires Valid()
      modifies this`content
      ensures content == old(content) + pending[..pendingSize]
    {
      var at := 0;
      while at < pendingSize
        invariant at <= pendingSize && content == old(content) + pending[..at]
      {
        var count := if pendingSize - at < CHUNK then pendingSize - at else CHUNK;
        content := content + pending[at..at + count];
        assert pending[..at] + pending[at..at + count] == pending[..at + count];
        at := at + count;
      }
    }

    method FlushFile()
      requires Valid()
      modifies this`content, this`pendingSize
      ensures Valid() && pendingSize == 0
    {
      if !open {
        return;
      }
      WritePending();
      pendingSize := 0;
      assert content + [] == content;
    }

    /** Adds a line: buffered if it fits, and flushed at once if it is important or the last flush is too long ago. */
    method Append(line: bytes, important: bool, clock: int)
      requires Valid()
      modifies this, pending
      ensures Valid() && open == old(open)
      ensures emitted == if open then old(emitted) + line else old(emitted)
      ensures open && important ==> content == emitted && pendingSize == 0
      ensures open ==> pendingSize == 0 || clock - flushed < interval
      ensures State() == if open then Appended(old(State()), |line|, important, clock, interval) else old(State())
    {
      if !open {
        return;
      }
      if |line| > CAPACITY - pendingSize {
        FlushFile();
      }
      if |line| > CAPACITY {
        content := content + line;
      } else {
        StoreLine(line);
        pendingSize := pendingSize + |line|;
      }
      emitted := emitted + line;
      if important || clock - flushed >= interval {
        FlushFile();
        flushed := clock;
      }
    }

    method StoreLine(line: bytes)
      requires pending.Length == CAPACITY && pendingSize + |line| <= CAPACITY
      modifies pending
      ensures pending[..pendingSize + |line|] == old(pending[..pendingSize]) + line
    {
      for i := 0 to |line|
        invariant pending[..pendingSize] == old(pending[..pendingSize])
        invariant pending[pendingSize..pendingSize + i] == line[..i]
      {
        pending[pendingSize + i] := line[i];
      }
      assert pending[..pendingSize + |line|] == pending[..pendingSize] + pending[pendingSize..pendingSize + |line|];
    }

    /** Closes the file, complete, and continues at the end of another one (or of none). */
    method Switch(existing: Option<bytes>) returns (ghost closed: bytes)
      requires Valid()
      modifies this
      ensures Valid() && pendingSize == 0 && open == existing.Some?
      ensures closed == old(emitted)
      ensures emitted == match existing case Some(b) => b case None => []
    {
      FlushFile();
      closed := content;
      assert content + [] == content;
      open := existing.Some?;
      content := match existing case Some(b) => b case None => [];
      emitted := content;
    }
  }
}
