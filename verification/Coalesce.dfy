// The coalescing reader: a queue of one pending read that grows while requests are
// contiguous in the file and in memory.

module Coalesce {
  import opened Bytes

  /** Read `len` bytes at file position `pos` to memory offset `buf`. */
  datatype Request = Request(buf: int, len: nat, pos: nat)

  /** NULL, where no request goes. */
  const NOWHERE: int := -1

  /** memcpy. */
  function Fill(mem: seq<byte>, buf: nat, data: seq<byte>): (m: seq<byte>)
    requires buf + |data| <= |mem|
    ensures |m| == |mem|
  {
    mem[..buf] + data + mem[buf + |data|..]
  }

  predicate InMemory(size: nat, r: Request) {
    0 <= r.buf && r.buf + r.len <= size
  }

  /** Performing one request at once. */
  function ReadNow(mem: seq<byte>, f: seq<byte>, r: Request): (m: Option<seq<byte>>)
    requires r.len > 0 ==> InMemory(|mem|, r)
    ensures m.Some? ==> |m.value| == |mem|
  {
    if r.len == 0 then Some(mem)
    else
      match Pread(f, r.pos, r.len)
      case None => None
      case Some(data) => Some(Fill(mem, r.buf, data))
  }

  predicate AllInMemory(size: nat, rs: seq<Request>) {
    forall i :: 0 <= i < |rs| ==> InMemory(size, rs[i])
  }

  /** Performing the requests one by one. */
  function ReadEach(mem: seq<byte>, f: seq<byte>, rs: seq<Request>): (m: Option<seq<byte>>)
    requires AllInMemory(|mem|, rs)
    ensures m.Some? ==> |m.value| == |mem|
  {
    if rs == [] then Some(mem)
    else
      match ReadEach(mem, f, rs[..|rs| - 1])
      case None => None
      case Some(m) => ReadNow(m, f, rs[|rs| - 1])
  }

  /** Memory, and the read that has not been performed yet. */
  datatype Queue = Queue(mem: seq<byte>, pending: Request)

  predicate QueueOk(q: Queue) {
    q.pending.len > 0 ==> InMemory(|q.mem|, q.pending)
  }

  function Empty(mem: seq<byte>): Queue {
    Queue(mem, Request(NOWHERE, 0, 0))
  }

  /** CoalescedPreaderExec. */
  function Flush(q: Queue, f: seq<byte>): Option<seq<byte>>
    requires QueueOk(q)
  {
    ReadNow(q.mem, f, q.pending)
  }

  /** CoalescedPreaderPread. */
  function Enqueue(q: Queue, f: seq<byte>, r: Request): (q': Option<Queue>)
    requires QueueOk(q) && InMemory(|q.mem|, r)
    ensures q'.Some? ==> QueueOk(q'.value) && |q'.value.mem| == |q.mem|
  {
    var p := q.pending;
    if r.len != 0 && p.pos + p.len == r.pos && r.buf == p.buf + p.len then
      Some(q.(pending := p.(len := p.len + r.len)))
    else if r.len != 0 then
      match Flush(q, f)
      case None => None
      case Some(mem) => Some(Queue(mem, r))
    else Some(q.(pending := r))
  }

  function EnqueueAll(mem: seq<byte>, f: seq<byte>, rs: seq<Request>): (q: Option<Queue>)
    requires AllInMemory(|mem|, rs)
    ensures q.Some? ==> QueueOk(q.value) && |q.value.mem| == |mem|
  {
    if rs == [] then Some(Empty(mem))
    else
      match EnqueueAll(mem, f, rs[..|rs| - 1])
      case None => None
      case Some(q) => Enqueue(q, f, rs[|rs| - 1])
  }

  /** Queueing every request and a final exec. */
  function ReadCoalesced(mem: seq<byte>, f: seq<byte>, rs: seq<Request>): Option<seq<byte>>
    requires AllInMemory(|mem|, rs)
  {
    match EnqueueAll(mem, f, rs)
    case None => None
    case Some(q) => Flush(q, f)
  }

  lemma FillJoin(mem: seq<byte>, buf: nat, a: seq<byte>, b: seq<byte>)
    requires buf + |a| + |b| <= |mem|
    ensures Fill(Fill(mem, buf, a), buf + |a|, b) == Fill(mem, buf, a + b)
  {
  }

  /** One more request, queued or performed at once: the same memory after an exec. */
  lemma EnqueueIsRead(q: Queue, f: seq<byte>, r: Request)
    requires QueueOk(q) && InMemory(|q.mem|, r) && r.len > 0 && (q.pending.len == 0 ==> q.pending.buf == NOWHERE)
    ensures (match Enqueue(q, f, r) case None => None case Some(q') => Flush(q', f))
            == match Flush(q, f) case None => None case Some(m) => ReadNow(m, f, r)
    ensures Enqueue(q, f, r).Some? ==> Enqueue(q, f, r).value.pending.len > 0
  {
    var p := q.pending;
    if p.pos + p.len == r.pos && r.buf == p.buf + p.len {
      assert p.len > 0;
      if r.pos + r.len <= |f| {
        var a, b := f[p.pos..p.pos + p.len], f[r.pos..r.pos + r.len];
        assert a + b == f[p.pos..p.pos + (p.len + r.len)];
        FillJoin(q.mem, p.buf, a, b);
      }
    }
  }

  lemma {:induction false} QueueIsEager(mem: seq<byte>, f: seq<byte>, rs: seq<Request>)
    requires AllInMemory(|mem|, rs) && forall i :: 0 <= i < |rs| ==> rs[i].len > 0
    ensures ReadCoalesced(mem, f, rs) == ReadEach(mem, f, rs)
    ensures var q := EnqueueAll(mem, f, rs);
            q.Some? && q.value.pending.len == 0 ==> q.value.pending.buf == NOWHERE
  {
    if rs != [] {
      var n := |rs| - 1;
      QueueIsEager(mem, f, rs[..n]);
      match EnqueueAll(mem, f, rs[..n])
      case None =>
      case Some(q) => EnqueueIsRead(q, f, rs[n]);
    }
  }

  /** Coalescing is invisible: for any sequence of non-empty requests, queueing them and a
      final exec gives what performing each at once in order gives, including failure. */
  lemma CoalescedIsEager(mem: seq<byte>, f: seq<byte>, rs: seq<Request>)
    requires AllInMemory(|mem|, rs) && forall i :: 0 <= i < |rs| ==> rs[i].len > 0
    ensures ReadCoalesced(mem, f, rs) == ReadEach(mem, f, rs)
  {
    QueueIsEager(mem, f, rs);
  }

  /** An empty request makes the reader forget the read that was pending: behind any sequence
      of non-empty requests it leaves the memory as it was before that read, and so agrees
      with performing each request at once exactly when the forgotten read would have
      succeeded without changing anything. */
  lemma EmptyRequestDropsPending(mem: seq<byte>, f: seq<byte>, rs: seq<Request>, z: Request)
    requires AllInMemory(|mem|, rs) && forall i :: 0 <= i < |rs| ==> rs[i].len > 0
    requires InMemory(|mem|, z) && z.len == 0
    ensures AllInMemory(|mem|, rs + [z])
    ensures var q := EnqueueAll(mem, f, rs);
            && ReadCoalesced(mem, f, rs + [z]) == (if q.Some? then Some(q.value.mem) else None)
            && (ReadCoalesced(mem, f, rs + [z]) == ReadEach(mem, f, rs + [z]) <==>
                (q.Some? ==> Flush(q.value, f) == Some(q.value.mem)))
  {
    QueueIsEager(mem, f, rs);
    var all := rs + [z];
    assert all[..|all| - 1] == rs && all[|all| - 1] == z;
    assert ReadEach(mem, f, all) == ReadEach(mem, f, rs);
  }

  /** The reader as an object over the destination memory. */
  class CoalescedPreader {
    const f: seq<byte>
    const mem: array<byte>
    var pos: nat
    var buf: int
    var len: nat

    function State(): Queue
      reads this, mem
    {
      Queue(mem[..], Request(buf, len, pos))
    }

    constructor (f: seq<byte>, mem: array<byte>)
      ensures this.f == f && this.mem == mem && State() == Empty(mem[..])
    {
      this.f, this.mem := f, mem;
      pos, buf, len := 0, NOWHERE, 0;
    }

    method Exec() returns (ok: bool)
      requires QueueOk(State())
      modifies mem
      ensures ok <==> Flush(old(State()), f).Some?
      ensures ok ==> mem[..] == Flush(old(State()), f).value
      ensures !ok ==> mem[..] == old(mem[..])
    {
      if len == 0 {
        return true;
      }
      var data := Bytes.Pread(f, pos, len);
      if data.None? {
        return false;
      }
      forall i | 0 <= i < len {
        mem[buf + i] := data.value[i];
      }
      assert mem[..] == Fill(old(mem[..]), buf, data.value);
      ok := true;
    }

    method Pread(r: Request) returns (ok: bool)
      requires QueueOk(State()) && InMemory(mem.Length, r)
      modifies this, mem
      ensures ok <==> Enqueue(old(State()), f, r).Some?
      ensures ok ==> State() == Enqueue(old(State()), f, r).value
    {
      if r.len != 0 {
        if pos + len == r.pos && r.buf == buf + len {
          len := len + r.len;
          return true;
        }
        ok := Exec();
        if !ok {
          return;
        }
      }
      buf, len, pos := r.buf, r.len, r.pos;
      ok := true;
    }
  }
}
