/** The byte buffer between two sockets: an array with a read and a write position,
    compacted for free when it runs empty and by a move on demand. */
module Buffers {
  import opened Wrappers
  import opened Bytes

  /** A buffer seen from outside, with the history of the bytes put in and taken out.
      `tail` is the write position: the room left is `limit - tail`, even when bytes
      already taken left a gap at the front. */
  datatype Pipe = Pipe(put: seq<byte>, taken: seq<byte>, pending: seq<byte>, tail: nat, limit: nat) {

    ghost predicate Valid() {
      && |pending| <= tail <= limit
      && (pending == [] ==> tail == 0)
      && put == taken + pending
    }

    function Put(chunk: seq<byte>): Pipe
    {
      Pipe(put + chunk, taken, pending + chunk, tail + |chunk|, limit)
    }

    function Take(n: nat): Pipe
      requires n <= |pending|
    {
      Pipe(put, taken + pending[..n], pending[n..], if n == |pending| then 0 else tail, limit)
    }

    function Compact(): Pipe {
      this.(tail := |pending|)
    }

    function Room(): int {
      limit - tail
    }
  }

  lemma TakeNothing(p: Pipe)
    requires p.Valid()
    ensures p.Take(0) == p
  {
    assert p.taken + p.pending[..0] == p.taken;
  }

  lemma TakeOneMore(p: Pipe, k: nat)
    requires p.Valid() && k < |p.pending|
    ensures p.Take(k).Take(1) == p.Take(k + 1)
  {
    assert p.pending[k..][1..] == p.pending[k + 1..];
    assert p.taken + p.pending[..k] + p.pending[k..][..1] == p.taken + p.pending[..k + 1];
  }

  function EmptyPipe(limit: nat): Pipe {
    Pipe([], [], [], 0, limit)
  }

  datatype PipeOp = PutBytes(chunk: seq<byte>) | TakeBytes(n: nat) | CompactBytes

  predicate Allowed(p: Pipe, op: PipeOp) {
    match op
    case PutBytes(chunk) => |chunk| <= p.Room()
    case TakeBytes(n) => n <= |p.pending|
    case CompactBytes => true
  }

  function Do(p: Pipe, op: PipeOp): Pipe
    requires Allowed(p, op)
  {
    match op
    case PutBytes(chunk) => p.Put(chunk)
    case TakeBytes(n) => p.Take(n)
    case CompactBytes => p.Compact()
  }

  ghost predicate PipeRun(p: Pipe, ops: seq<PipeOp>, q: Pipe)
    decreases |ops|
  {
    if ops == [] then p == q else Allowed(p, ops[0]) && PipeRun(Do(p, ops[0]), ops[1..], q)
  }

  /** Everything a run puts in. */
  function AllPut(ops: seq<PipeOp>): seq<byte> {
    if ops == [] then [] else (if ops[0].PutBytes? then ops[0].chunk else []) + AllPut(ops[1..])
  }

  /** How much a run takes out. */
  function AllTaken(ops: seq<PipeOp>): nat {
    if ops == [] then 0 else (if ops[0].TakeBytes? then ops[0].n else 0) + AllTaken(ops[1..])
  }

  /** What each operation does to the pending bytes and to the room: a read that leaves
      something reclaims no room, one that empties the buffer and a compaction reclaim all. */
  lemma RoomExactly(p: Pipe, chunk: seq<byte>, n: nat)
    requires p.Valid() && n <= |p.pending|
    ensures p.Put(chunk).pending == p.pending + chunk && p.Put(chunk).Room() == p.Room() - |chunk|
    ensures p.Take(n).pending == p.pending[n..] && p.Take(n).taken == p.taken + p.pending[..n]
    ensures p.Take(n).Room() == if |p.pending| == n then p.limit else p.Room()
    ensures p.Compact().pending == p.pending && p.Compact().taken == p.taken
    ensures p.Compact().Room() == p.limit - |p.pending|
  {
  }

  lemma PutKeeps(p: Pipe, chunk: seq<byte>)
    requires p.Valid() && |chunk| <= p.Room()
    ensures p.Put(chunk).Valid() && (chunk != [] ==> p.Put(chunk).pending != [])
    ensures p.Put(chunk).limit == p.limit && p.Put(chunk).taken == p.taken && p.Put(chunk).put == p.put + chunk
  {
    assert p.taken + p.pending + chunk == p.taken + (p.pending + chunk);
  }

  lemma TakeKeeps(p: Pipe, n: nat)
    requires p.Valid() && n <= |p.pending|
    ensures p.Take(n).Valid() && p.Take(n).put == p.put && p.Take(n).limit == p.limit
    ensures p.Take(n).pending == [] <==> n == |p.pending|
    ensures |p.Take(n).taken| == |p.taken| + n
  {
    assert p.pending == p.pending[..n] + p.pending[n..];
    assert p.taken + p.pending[..n] + p.pending[n..] == p.taken + (p.pending[..n] + p.pending[n..]);
  }

  lemma DoKeeps(p: Pipe, op: PipeOp)
    requires p.Valid() && Allowed(p, op)
    ensures var q := Do(p, op);
            && q.Valid() && q.limit == p.limit
            && q.put == p.put + AllPut([op])
            && |q.taken| == |p.taken| + AllTaken([op])
  {
    assert [op][1..] == [];
    assert AllPut([op]) == if op.PutBytes? then op.chunk else [];
    match op {
      case PutBytes(chunk) => PutKeeps(p, chunk);
      case TakeBytes(n) => TakeKeeps(p, n);
      case CompactBytes =>
    }
    hide Pipe.Put, Pipe.Take;
  }

  /** First in, first out over any run: what was put in is what was taken out followed
      by what is pending, and the positions stay ordered. */
  lemma {:induction false} PipeConserves(p: Pipe, ops: seq<PipeOp>, q: Pipe)
    requires p.Valid() && PipeRun(p, ops, q)
    ensures q.Valid() && q.limit == p.limit
    ensures p.put + AllPut(ops) == q.put == q.taken + q.pending
    ensures |q.taken| == |p.taken| + AllTaken(ops)
    decreases |ops|
  {
    if ops != [] {
      DoKeeps(p, ops[0]);
      PipeConserves(Do(p, ops[0]), ops[1..], q);
      assert [ops[0]][1..] == [];
      Reassociate(p.put, AllPut([ops[0]]), AllPut(ops[1..]));
    }
  }

  class Buffer {
    const data: array<byte>
    var read: nat
    var write: nat
    ghost var put: seq<byte>
    ghost var taken: seq<byte>

    ghost predicate Ordered()
      reads this, data
    {
      read <= write <= data.Length && put == taken + Contents()
    }

    /** Between calls an empty buffer is always rewound. */
    ghost predicate Valid()
      reads this, data
    {
      Ordered() && (read == write ==> read == 0)
    }

    ghost function Contents(): seq<byte>
      requires read <= write <= data.Length
      reads this, data
    {
      data[read..write]
    }

    ghost function View(): Pipe
      requires read <= write <= data.Length
      reads this, data
    {
      Pipe(put, taken, Contents(), write, data.Length)
    }

    constructor (n: nat)
      ensures Valid() && fresh(data) && View() == EmptyPipe(n)
    {
      data := new byte[n](_ => 0);
      read, write := 0, 0;
      put, taken := [], [];
    }

    method Reset()
      requires Valid()
      modifies this
      ensures Valid() && View() == EmptyPipe(data.Length)
    {
      read, write := 0, 0;
      put, taken := [], [];
    }

    method CanWrite() returns (yes: bool)
      requires Valid()
      ensures yes <==> View().Room() > 0
    {
      yes := data.Length - write > 0;
    }

    method CanRead() returns (yes: bool)
      requires Valid()
      ensures yes <==> View().pending != []
    {
      yes := write - read > 0;
    }

    method WritePtr() returns (n: nat)
      requires Valid()
      ensures n == View().Room()
    {
      n := data.Length - write;
    }

    method ReadPtr() returns (n: nat)
      requires Valid()
      ensures n == |View().pending|
    {
      n := write - read;
    }

    /** Commits `bytes` bytes already stored behind the write position; a negative
        count, as a failed receive gives, changes nothing. */
    method WriteAdv(bytes: int)
      requires Valid() && bytes <= data.Length - write
      modifies this
      ensures Valid()
      ensures View() == if bytes > -1 then old(View()).Put(data[old(write)..old(write) + bytes]) else old(View())
    {
      if bytes > -1 {
        ghost var chunk := data[write..write + bytes];
        assert data[read..write + bytes] == Contents() + chunk;
        Reassociate(taken, Contents(), chunk);
        put := put + chunk;
        write := write + bytes;
      }
    }

    method ReadAdv(bytes: int)
      requires Valid() && bytes <= write - read
      modifies this, data
      ensures Valid()
      ensures View() == if bytes > -1 then old(View()).Take(bytes) else old(View())
    {
      if bytes > -1 {
        ghost var before := Contents();
        assert before == before[..bytes] + before[bytes..];
        assert data[read + bytes..write] == before[bytes..];
        taken := taken + before[..bytes];
        read := read + bytes;
        if read == write {
          Compact();
        }
      }
    }

    /** One byte, or zero from an empty buffer. */
    method Read() returns (c: byte)
      requires Valid()
      modifies this, data
      ensures Valid()
      ensures old(View().pending) == [] ==> c == 0 && View() == old(View())
      ensures old(View().pending) != [] ==>
                c == old(View().pending)[0] && View() == old(View()).Take(1) && Contents() == old(Contents())[1..]
    {
      var can := CanRead();
      if can {
        c := data[read];
        ReadAdv(1);
      } else {
        c := 0;
      }
    }

    /** One byte; a full buffer drops it. */
    method Write(c: byte)
      requires Valid()
      modifies this, data
      ensures Valid()
      ensures View() == if old(View()).Room() > 0 then old(View()).Put([c]) else old(View())
      ensures Contents() == old(Contents()) + if old(write) < data.Length then [c] else []
    {
      var can := CanWrite();
      if can {
        ghost var before := Contents();
        data[write] := c;
        assert data[read..write] == before;
        assert data[write..write + 1] == [c];
        WriteAdv(1);
      }
    }

    /** Moves the unread bytes to the front, reclaiming the gap. */
    method Compact()
      requires Ordered()
      modifies this`read, this`write, data
      ensures Valid() && View() == old(View()).Compact()
      ensures Contents() == old(Contents()) && read == 0 && data.Length - write == data.Length - |Contents()|
    {
      if read == 0 {
      } else if read == write {
        read, write := 0, 0;
      } else {
        var n := write - read;
        ghost var before := Contents();
        MoveDown(read, n);
        read, write := 0, n;
        assert Contents() == before;
      }
    }

    /** `memmove` towards the front: the two ranges may overlap. */
    method MoveDown(from: nat, n: nat)
      requires from + n <= data.Length
      modifies data
      ensures data[..n] == old(data[from..from + n])
    {
      var i := 0;
      while i < n
        invariant 0 <= i <= n
        invariant data[..i] == old(data[from..from + i])
        invariant forall k :: from + i <= k < data.Length ==> data[k] == old(data[k])
      {
        data[i] := data[from + i];
        i := i + 1;
      }
    }

    /** `recv` into the free room, followed by the commit. */
    method Receive(chunk: seq<byte>)
      requires Valid() && |chunk| <= data.Length - write
      modifies this, data
      ensures Valid() && View() == old(View()).Put(chunk)
      ensures Contents() == old(Contents()) + chunk && read == old(read)
    {
      ghost var before := Contents();
      forall i | 0 <= i < |chunk| {
        data[write + i] := chunk[i];
      }
      assert data[read..write] == before;
      assert data[write..write + |chunk|] == chunk;
      WriteAdv(|chunk|);
    }
  }
}
