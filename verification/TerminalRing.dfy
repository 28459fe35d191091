/** The terminal output ring: the last `capacity` bytes of a stream, addressed by
    cursors that count from the stream's first byte. */
module TerminalRing {
  import opened Bytes

  datatype Ring = Ring(bytes: Bytes, start: nat, end: nat, capacity: nat)

  function EmptyRing(capacity: nat): Ring {
    Ring([], 0, 0, capacity)
  }

  function Pushed(r: Ring, data: Bytes): Ring {
    var all := r.bytes + data;
    var dropped := if |all| > r.capacity then |all| - r.capacity else 0;
    Ring(all[dropped..], r.start + dropped, r.end + |data|, r.capacity)
  }

  /** What `snapshot` answers, before the lossy decoding of its bytes. */
  datatype TerminalSnapshot = TerminalSnapshot(data: Bytes, cursor: nat, truncated: bool)

  function SnapshotAt(r: Ring, cursor: nat): TerminalSnapshot
    requires r.start <= r.end && |r.bytes| == r.end - r.start
  {
    var effective := if cursor < r.start then r.start else if cursor > r.end then r.end else cursor;
    TerminalSnapshot(r.bytes[effective - r.start..], r.end, cursor < r.start)
  }

  /** The ring is the window of the last `capacity` bytes of `stream`. */
  predicate Holds(r: Ring, stream: Bytes) {
    && r.end == |stream|
    && r.start == (if |stream| > r.capacity then |stream| - r.capacity else 0)
    && r.bytes == stream[r.start..]
  }

  lemma PushHolds(r: Ring, stream: Bytes, data: Bytes)
    requires Holds(r, stream)
    ensures Holds(Pushed(r, data), stream + data)
    ensures r.start <= Pushed(r, data).start
  {
    assert r.bytes + data == (stream + data)[r.start..];
  }

  /** `stream` is all that was ever pushed. */
  class TerminalBuffer {
    var bytes: Bytes
    var start: nat
    var end: nat
    const capacity: nat
    ghost var stream: Bytes

    ghost function View(): Ring
      reads this
    {
      Ring(bytes, start, end, capacity)
    }

    ghost predicate Valid()
      reads this
    {
      Holds(View(), stream)
    }

    constructor (capacity: nat)
      ensures Valid() && View() == EmptyRing(capacity) && stream == []
    {
      this.capacity := capacity;
      bytes, start, end, stream := [], 0, 0, [];
    }

    method Push(data: Bytes)
      requires Valid()
      modifies this
      ensures Valid() && stream == old(stream) + data
      ensures View() == Pushed(old(View()), data)
    {
      PushHolds(View(), stream, data);
      end := end + |data|;
      bytes := bytes + data;
      stream := stream + data;
      ghost var all := bytes;
      while |bytes| > capacity
        invariant start >= old(start) && start - old(start) <= |all|
        invariant bytes == all[start - old(start)..]
        invariant |bytes| >= capacity || start == old(start)
        invariant end == old(end) + |data| && stream == old(stream) + data
      {
        DropDrop(all, start - old(start), 1);
        bytes := bytes[1..];
        start := start + 1;
      }
    }

    /** A read gives all that came after the cursor, unless the answer says it was
        truncated: then the last `capacity` bytes. It moves the cursor to the end. */
    method Snapshot(cursor: nat) returns (s: TerminalSnapshot)
      requires Valid()
      ensures s.cursor == |stream|
      ensures s.truncated <==> cursor + capacity < |stream|
      ensures !s.truncated ==> s.data == if cursor <= |stream| then stream[cursor..] else []
      ensures s.truncated ==> |s.data| == capacity && s.data == stream[|stream| - capacity..]
      ensures s == SnapshotAt(View(), cursor)
    {
      var effective := if cursor < start then start else if cursor > end then end else cursor;
      s := TerminalSnapshot(bytes[effective - start..], end, cursor < start);
    }
  }

  // ----- A client that reads from where it last stopped

  datatype Op = Push(data: Bytes) | Read

  /** A client's cursor, what it received so far, and whether no read was truncated. */
  datatype Client = Client(cursor: nat, received: Bytes, intact: bool)

  function Poll(r: Ring, c: Client): Client
    requires r.start <= r.end && |r.bytes| == r.end - r.start
  {
    var s := SnapshotAt(r, c.cursor);
    Client(s.cursor, c.received + s.data, c.intact && !s.truncated)
  }

  function Play(r: Ring, stream: Bytes, c: Client, ops: seq<Op>): (Ring, Bytes, Client)
    requires Holds(r, stream)
    decreases |ops|
  {
    if ops == [] then (r, stream, c)
    else
      match ops[0]
      case Push(data) =>
        PushHolds(r, stream, data);
        Play(Pushed(r, data), stream + data, c, ops[1..])
      case Read => Play(r, stream, Poll(r, c), ops[1..])
  }

  /** `c` has what the stream held between `from` and its cursor. */
  predicate Received(stream: Bytes, from: nat, c: Client) {
    from <= c.cursor <= |stream| && (c.intact ==> c.received == stream[from..c.cursor])
  }

  lemma PollReceives(r: Ring, stream: Bytes, from: nat, c: Client)
    requires Holds(r, stream) && Received(stream, from, c)
    ensures Received(stream, from, Poll(r, c))
  {
    if c.cursor >= r.start {
      assert r.bytes[c.cursor - r.start..] == stream[c.cursor..];
      assert stream[from..c.cursor] + stream[c.cursor..] == stream[from..|stream|];
    }
  }

  lemma PushReceives(stream: Bytes, data: Bytes, from: nat, c: Client)
    requires Received(stream, from, c)
    ensures Received(stream + data, from, c)
  {
    assert (stream + data)[from..c.cursor] == stream[from..c.cursor];
  }

  /** Over any run of pushes and reads the ring holds exactly the last bytes of the
      stream, and a client no read of which was truncated has received exactly the
      stream between the cursor it started from and the one it has now. */
  lemma {:induction false} ReadsAreTheStream(r: Ring, stream: Bytes, from: nat, c: Client, ops: seq<Op>)
    requires Holds(r, stream) && Received(stream, from, c)
    ensures var (r', stream', c') := Play(r, stream, c, ops);
            Holds(r', stream') && Received(stream', from, c')
    decreases |ops|
  {
    if ops != [] {
      match ops[0] {
        case Push(data) =>
          PushHolds(r, stream, data);
          PushReceives(stream, data, from, c);
          hide Received, Holds, Pushed;
          ReadsAreTheStream(Pushed(r, data), stream + data, from, c, ops[1..]);
        case Read =>
          PollReceives(r, stream, from, c);
          hide Received, Poll;
          ReadsAreTheStream(r, stream, from, Poll(r, c), ops[1..]);
      }
    }
  }

  /** `truncated` says exactly that bytes after the cursor are gone. */
  lemma TruncatedIffBytesAreGone(r: Ring, stream: Bytes, cursor: nat)
    requires Holds(r, stream) && cursor <= |stream|
    ensures SnapshotAt(r, cursor).truncated <==> |SnapshotAt(r, cursor).data| < |stream| - cursor
    ensures SnapshotAt(r, cursor).data == stream[|stream| - |SnapshotAt(r, cursor).data|..]
  {
  }
}
