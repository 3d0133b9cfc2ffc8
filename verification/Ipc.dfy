/** kernel/ipc.c: pipes and message queues in their fixed tables. */
module Ipc {
  import opened Collections
  import opened Words
  import opened RingBuffer

  const IPC_MAX_PIPES: nat := 32
  const IPC_MAX_QUEUES: nat := 32
  const IPC_PIPE_SIZE: nat := 4096
  const IPC_MSG_MAX_SIZE: nat := 512
  const IPC_MSG_MAX: nat := 64

  // ------------------------------------------------------------------ one pipe

  class Pipe {
    const data: array<byte>
    var head: word
    var tail: word
    var count: word
    var active: bool
    var readerPid: word
    var writerPid: word

    ghost predicate Valid()
      reads this
    {
      data.Length == 4096 && RingOk(head, tail, count, 4096, WORD)
    }

    /** The bytes written and not yet read. */
    ghost function Contents(): (r: seq<byte>)
      requires Valid()
      reads this, data
      ensures |r| == count <= IPC_PIPE_SIZE
    {
      Window(data[..], head, count)
    }

    /** A zeroed entry of the table. */
    constructor ()
      ensures Valid() && !active && fresh(data) && Contents() == []
    {
      data := new byte[4096](_ => 0);
      head, tail, count, active, readerPid, writerPid := 0, 0, 0, false, 0, 0;
    }

    /** Head, tail and count back to zero. */
    method Open(rpid: word, wpid: word)
      requires Valid()
      modifies this
      ensures Valid() && active && Contents() == [] && readerPid == rpid && writerPid == wpid
    {
      active := true;
      head, tail, count := 0, 0, 0;
      readerPid, writerPid := rpid, wpid;
    }

    /** The loop of ipc_pipe_write.  When the pipe fills up the call fails, but what did fit
        stays in it. */
    method Write(bytes: seq<byte>) returns (ok: bool)
      requires Valid()
      modifies this`tail, this`count, data
      ensures Valid() && Contents() == old(Contents()) + Accepted(old(Contents()), bytes, IPC_PIPE_SIZE)
      ensures ok <==> old(count) + |bytes| <= IPC_PIPE_SIZE
    {
      ghost var c := Contents();
      for i := 0 to |bytes|
        invariant Valid() && Contents() == c + bytes[..i]
      {
        if count >= 4096 {
          return false;
        }
        Push(data[..], head, tail, count, WORD, 0x10_0000, bytes[i]);
        ghost var m := data[..];
        assert tail % 4096 == Cell(tail, 4096);
        data[tail % 4096] := bytes[i];
        assert data[..] == m[Cell(tail, 4096) := bytes[i]];
        tail := (tail + 1) % WORD;
        count := count + 1;
        assert bytes[..i + 1] == bytes[..i] + [bytes[i]];
      }
      assert bytes[..|bytes|] == bytes;
      ok := true;
    }

    /** The oldest byte leaves the pipe. */
    method TakeByte() returns (b: byte)
      requires Valid() && count > 0
      modifies this`head, this`count
      ensures Valid() && [b] + Contents() == old(Contents())
    {
      Pop(data[..], head, tail, count, WORD, 0x10_0000);
      assert head % 4096 == Cell(head, 4096);
      b := data[head % 4096];
      head := (head + 1) % WORD;
      count := count - 1;
    }

    /** The loop of ipc_pipe_read: as many bytes as there are and fit, oldest first. */
    method Read(buf: array<byte>, size: nat) returns (n: nat)
      requires Valid() && buf != data && size <= buf.Length
      modifies this`head, this`count, buf
      ensures Valid() && n == |Delivered(old(Contents()), size)| <= size
      ensures buf[..n] == Delivered(old(Contents()), size) && buf[n..] == old(buf[n..])
      ensures Contents() == old(Contents())[n..]
    {
      hide Window, RingOk;
      ghost var c := Contents();
      n := 0;
      while n < size && count > 0
        invariant Valid() && n <= size && n + count == |c| && Contents() == c[n..]
        invariant forall k :: 0 <= k < n ==> buf[k] == c[k]
        invariant forall k :: n <= k < buf.Length ==> buf[k] == old(buf[k])
        decreases size - n
      {
        var b := TakeByte();
        NextOf(c, n, b, Contents());
        buf[n] := b;
        n := n + 1;
      }
      assert buf[..n] == c[..n];
    }
  }

  lemma NextOf(c: seq<byte>, n: nat, b: byte, rest: seq<byte>)
    requires n < |c| && [b] + rest == c[n..]
    ensures b == c[n] && rest == c[n + 1..]
  {
    assert c[n..][1..] == c[n + 1..];
    assert ([b] + rest)[1..] == rest;
  }

  // ------------------------------------------------------------------ one message queue

  /** ipc_message_t: what lies behind the first `size` bytes is left over from earlier messages. */
  datatype Message = Message(data: seq<byte>, size: nat, senderPid: word, kind: word)

  /** What a message says. */
  datatype Letter = Letter(kind: word, payload: seq<byte>)

  ghost function Read(m: Message): Letter {
    Letter(m.kind, if m.size <= |m.data| then m.data[..m.size] else m.data)
  }

  ghost function Letters(ms: seq<Message>): (r: seq<Letter>)
    ensures |r| == |ms|
  {
    seq(|ms|, i requires 0 <= i < |ms| => Read(ms[i]))
  }

  class Queue {
    const messages: array<Message>
    var head: word
    var tail: word
    var count: word
    var active: bool
    var ownerPid: word

    ghost predicate Valid()
      reads this, messages
    {
      && messages.Length == 64 && RingOk(head, tail, count, 64, WORD)
      && forall i :: 0 <= i < 64 ==> |messages[i].data| == IPC_MSG_MAX_SIZE
    }

    /** The messages sent and not yet received. */
    ghost function Contents(): (r: seq<Letter>)
      requires Valid()
      reads this, messages
      ensures |r| == count <= IPC_MSG_MAX
    {
      Letters(Window(messages[..], head, count))
    }

    constructor ()
      ensures Valid() && !active && fresh(messages) && Contents() == []
    {
      messages := new Message[64](_ => Message(seq(512, _ => 0), 0, 0, 0));
      head, tail, count, active, ownerPid := 0, 0, 0, false, 0;
    }

    method Open(owner: word)
      requires Valid()
      modifies this
      ensures Valid() && active && Contents() == [] && ownerPid == owner
    {
      active := true;
      ownerPid := owner;
      head, tail, count := 0, 0, 0;
    }

    /** ipc_queue_send on an open queue. */
    method Send(kind: word, bytes: seq<byte>) returns (ok: bool)
      requires Valid()
      modifies this`tail, this`count, messages
      ensures Valid() && Contents() == old(Contents()) + Accepted(old(Contents()), [Letter(kind, Cut(bytes, IPC_MSG_MAX_SIZE))], IPC_MSG_MAX)
      ensures ok <==> old(count) < IPC_MSG_MAX
    {
      if count >= 64 { return false; }
      ghost var m, w := messages[..], Window(messages[..], head, count);
      var i := tail % 64;
      var size := if |bytes| < 512 then |bytes| else 512;
      var msg := messages[i].(kind := kind, size := size, data := bytes[..size] + messages[i].data[size..]);
      assert i == Cell(tail, 64);
      Push(m, head, tail, count, WORD, 0x400_0000, msg);
      messages[i] := msg;
      tail := (tail + 1) % WORD;
      count := count + 1;
      assert messages[..] == m[i := msg];
      assert Read(msg) == Letter(kind, Cut(bytes, IPC_MSG_MAX_SIZE));
      assert Letters(w + [msg]) == Letters(w) + [Read(msg)];
      ok := true;
    }

    /** ipc_queue_recv on an open queue: the message copied out, if there is one. */
    method Receive() returns (ok: bool, msg: Message)
      requires Valid()
      modifies this`head, this`count
      ensures Valid() && (ok <==> old(count) > 0)
      ensures Contents() == old(Contents())[|Delivered(old(Contents()), 1)|..]
      ensures ok ==> [Read(msg)] == Delivered(old(Contents()), 1)
    {
      msg := messages[0];
      if count == 0 { return false, msg; }
      Pop(messages[..], head, tail, count, WORD, 0x400_0000);
      assert head % 64 == Cell(head, 64);
      msg := messages[head % 64];
      head := (head + 1) % WORD;
      count := count - 1;
      ok := true;
    }
  }

  // ------------------------------------------------------------------ the table of pipes

  class PipeTable {
    const pipes: seq<Pipe>

    ghost predicate Valid()
      reads this, pipes
    {
      && |pipes| == IPC_MAX_PIPES
      && (forall i :: 0 <= i < |pipes| ==> pipes[i].Valid())
      && (forall i, j :: 0 <= i < j < |pipes| ==> pipes[i] != pipes[j] && pipes[i].data != pipes[j].data)
    }

    /** Every entry: whether it is in use and what it holds. */
    ghost function Slots(): (r: seq<Slot<byte>>)
      requires Valid()
      reads this, pipes, set p | p in pipes :: p.data
      ensures |r| == IPC_MAX_PIPES
    {
      seq(|pipes|, i requires 0 <= i < |pipes| && pipes[i].Valid() reads pipes, set p | p in pipes :: p.data =>
        Slot(pipes[i].active, pipes[i].Contents()))
    }

    /** ipc_init. */
    constructor ()
      ensures Valid() && Slots() == seq(IPC_MAX_PIPES, _ => Slot(false, []))
    {
      var all: seq<Pipe> := [];
      for k := 0 to 32
        invariant |all| == k
        invariant forall i :: 0 <= i < k ==> all[i].Valid() && !all[i].active && all[i].Contents() == []
        invariant forall i, j :: 0 <= i < j < k ==> all[i] != all[j] && all[i].data != all[j].data
      {
        var p := new Pipe();
        all := all + [p];
      }
      pipes := all;
    }

    /** ipc_pipe_create: the first entry that is not in use, emptied; -1 when all are. */
    method Create(rpid: word, wpid: word) returns (fd: int)
      requires Valid()
      modifies pipes
      ensures Valid() && fd == FirstFree(old(Slots())) && Slots() == Step(old(Slots()), Op.Create, IPC_PIPE_SIZE)
      ensures fd >= 0 ==> pipes[fd].readerPid == rpid && pipes[fd].writerPid == wpid
    {
      ghost var s := Slots();
      for i := 0 to 32
        invariant forall k :: 0 <= k < i ==> s[k].active
        invariant Slots() == s
      {
        if !pipes[i].active {
          assert !s[i].active;
          pipes[i].Open(rpid, wpid);
          assert FirstFree(s) == i;
          assert Slots() == s[i := Slot(true, [])];
          return i;
        }
      }
      assert FirstFree(s) == -1;
      fd := -1;
    }

    /** ipc_pipe_write. */
    method Write(fd: int, bytes: seq<byte>) returns (ok: bool)
      requires Valid()
      modifies pipes, set p | p in pipes :: p.data
      ensures Valid() && Slots() == Step(old(Slots()), Offer(fd, bytes), IPC_PIPE_SIZE)
      ensures ok <==> RingBuffer.Open(old(Slots()), fd) && TakesIn(old(Slots()), Offer(fd, bytes), IPC_PIPE_SIZE, fd) == bytes
    {
      if fd < 0 || fd >= 32 || !pipes[fd].active { return false; }
      ok := pipes[fd].Write(bytes);
      assert Slots() == old(Slots())[fd := Slot(true, pipes[fd].Contents())];
    }

    /** ipc_pipe_read. */
    method ReadInto(fd: int, buf: array<byte>, size: nat) returns (n: nat)
      requires Valid() && size <= buf.Length && forall i :: 0 <= i < |pipes| ==> pipes[i].data != buf
      modifies pipes, buf
      ensures Valid() && Slots() == Step(old(Slots()), Take(fd, size), IPC_PIPE_SIZE)
      ensures n <= size && buf[..n] == GivesOut(old(Slots()), Take(fd, size), fd) && buf[n..] == old(buf[n..])
    {
      if fd < 0 || fd >= 32 || !pipes[fd].active { return 0; }
      n := pipes[fd].Read(buf, size);
      assert Slots() == old(Slots())[fd := Slot(true, pipes[fd].Contents())];
    }

    /** ipc_pipe_close: the bytes stay until the entry is used again. */
    method Close(fd: int) returns (ok: bool)
      requires Valid()
      modifies pipes
      ensures Valid() && Slots() == Step(old(Slots()), Op.Close(fd), IPC_PIPE_SIZE) && (ok <==> 0 <= fd < IPC_MAX_PIPES)
    {
      if fd < 0 || fd >= 32 { return false; }
      pipes[fd].active := false;
      assert Slots() == old(Slots())[fd := Slot(false, pipes[fd].Contents())];
      ok := true;
    }
  }

  // ------------------------------------------------------------------ the table of queues

  class QueueTable {
    const queues: seq<Queue>

    ghost predicate Valid()
      reads this, queues, set q | q in queues :: q.messages
    {
      && |queues| == IPC_MAX_QUEUES
      && (forall i :: 0 <= i < |queues| ==> queues[i].Valid())
      && (forall i, j :: 0 <= i < j < |queues| ==> queues[i] != queues[j] && queues[i].messages != queues[j].messages)
    }

    ghost function Slots(): (r: seq<Slot<Letter>>)
      requires Valid()
      reads this, queues, set q | q in queues :: q.messages
      ensures |r| == IPC_MAX_QUEUES
    {
      seq(|queues|, i requires 0 <= i < |queues| && queues[i].Valid() reads queues, set q | q in queues :: q.messages =>
        Slot(queues[i].active, queues[i].Contents()))
    }

    constructor ()
      ensures Valid() && Slots() == seq(IPC_MAX_QUEUES, _ => Slot(false, []))
    {
      var all: seq<Queue> := [];
      for k := 0 to 32
        invariant |all| == k
        invariant forall i :: 0 <= i < k ==> all[i].Valid() && !all[i].active && all[i].Contents() == []
        invariant forall i, j :: 0 <= i < j < k ==> all[i] != all[j] && all[i].messages != all[j].messages
      {
        var q := new Queue();
        all := all + [q];
      }
      queues := all;
    }

    /** ipc_queue_create. */
    method Create(owner: word) returns (qid: int)
      requires Valid()
      modifies queues
      ensures Valid() && qid == FirstFree(old(Slots())) && Slots() == Step(old(Slots()), Op.Create, IPC_MSG_MAX)
      ensures qid >= 0 ==> queues[qid].ownerPid == owner
    {
      ghost var s := Slots();
      for i := 0 to 32
        invariant forall k :: 0 <= k < i ==> s[k].active
        invariant Slots() == s
      {
        if !queues[i].active {
          assert !s[i].active;
          queues[i].Open(owner);
          assert FirstFree(s) == i;
          assert Slots() == s[i := Slot(true, [])];
          return i;
        }
      }
      assert FirstFree(s) == -1;
      qid := -1;
    }

    /** ipc_queue_send: a message is taken in whole, with its payload cut to 512 bytes, or not
        at all. */
    method Send(qid: int, kind: word, bytes: seq<byte>) returns (ok: bool)
      requires Valid()
      modifies queues, set q | q in queues :: q.messages
      ensures Valid() && Slots() == Step(old(Slots()), Offer(qid, [Letter(kind, Cut(bytes, IPC_MSG_MAX_SIZE))]), IPC_MSG_MAX)
      ensures ok <==> TakesIn(old(Slots()), Offer(qid, [Letter(kind, Cut(bytes, IPC_MSG_MAX_SIZE))]), IPC_MSG_MAX, qid) != []
    {
      if qid < 0 || qid >= 32 || !queues[qid].active { return false; }
      ok := queues[qid].Send(kind, bytes);
      assert Slots() == old(Slots())[qid := Slot(true, queues[qid].Contents())];
    }

    /** ipc_queue_recv. */
    method Receive(qid: int, empty: Message) returns (ok: bool, msg: Message)
      requires Valid()
      modifies queues
      ensures Valid() && Slots() == Step(old(Slots()), Take(qid, 1), IPC_MSG_MAX)
      ensures if ok then [Read(msg)] == GivesOut(old(Slots()), Take(qid, 1), qid)
              else msg == empty && GivesOut(old(Slots()), Take(qid, 1), qid) == []
    {
      if qid < 0 || qid >= 32 || !queues[qid].active { return false, empty; }
      ok, msg := queues[qid].Receive();
      if !ok { msg := empty; }
      assert Slots() == old(Slots())[qid := Slot(true, queues[qid].Contents())];
    }

    /** ipc_queue_destroy. */
    method Destroy(qid: int) returns (ok: bool)
      requires Valid()
      modifies queues
      ensures Valid() && Slots() == Step(old(Slots()), Op.Close(qid), IPC_MSG_MAX) && (ok <==> 0 <= qid < IPC_MAX_QUEUES)
    {
      if qid < 0 || qid >= 32 { return false; }
      queues[qid].active := false;
      assert Slots() == old(Slots())[qid := Slot(false, queues[qid].Contents())];
      ok := true;
    }
  }
}
