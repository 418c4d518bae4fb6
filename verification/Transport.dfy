/**
 Exact reads and writes over a descriptor that may transfer fewer bytes than asked for, be interrupted, or fail.
 */
module Transport {
  import opened Basics

  /** How the kernel answers one call: at most `most` bytes, an interrupted call, or an error. */
  datatype Reply = Transfer(most: nat) | Interrupted | Fault

  /** A descriptor with the bytes still to come and the answers to come; after those, full transfers. */
  class Source {
    const content: seq<byte>
    var pos: nat
    var schedule: seq<Reply>

    ghost predicate Valid()
      reads this
    {
      pos <= |content|
    }

    ghost function Rest(): seq<byte>
      reads this
      requires Valid()
    {
      content[pos..]
    }

    constructor (content: seq<byte>, schedule: seq<Reply>)
      ensures Valid() && Rest() == content && this.schedule == schedule && this.content == content
    {
      this.content, this.pos, this.schedule := content, 0, schedule;
    }

    /** One read call for at most `max` bytes; an empty answer to a non-empty request is the end of the stream. */
    method Read(max: nat) returns (reply: Reply, bytes: seq<byte>)
      requires Valid() && max > 0
      modifies this`pos, this`schedule
      ensures Valid()
      ensures reply == if old(schedule) == [] then Transfer(max) else old(schedule)[0]
      ensures schedule == if old(schedule) == [] then [] else old(schedule)[1..]
      ensures !reply.Transfer? ==> bytes == [] && Rest() == old(Rest())
      ensures reply.Transfer? ==> |bytes| <= max && old(Rest()) == bytes + Rest() && pos == old(pos) + |bytes|
      ensures reply.Transfer? && bytes == [] ==> Rest() == []
    {
      reply := Transfer(max);
      if schedule != [] {
        reply := schedule[0];
        schedule := schedule[1..];
      }
      bytes := [];
      if reply.Transfer? {
        var most := if reply.most == 0 then 1 else reply.most;
        var n := Min(Min(most, max), |content| - pos);
        bytes := content[pos..pos + n];
        pos := pos + n;
      }
    }
  }

  function Min(a: nat, b: nat): nat {
    if a < b then a else b
  }

  ghost predicate Faultless(schedule: seq<Reply>) {
    forall r | r in schedule :: !r.Fault?
  }

  /** Every call is answered with a transfer, if a short one. */
  ghost predicate Undisturbed(schedule: seq<Reply>) {
    forall r | r in schedule :: r.Transfer?
  }

  /** read_exact_fd: keep reading until the buffer is full, the stream ends, or a call fails. */
  method ReadExact(source: Source, len: nat) returns (r: Option<seq<byte>>)
    requires source.Valid()
    modifies source`pos, source`schedule
    ensures source.Valid()
    ensures r.Some? ==> |r.value| == len && old(source.Rest()) == r.value + source.Rest()
    ensures Faultless(old(source.schedule)) ==> Faultless(source.schedule)
    ensures Faultless(old(source.schedule)) ==> (r.Some? <==> len <= |old(source.Rest())|)
    ensures |old(source.Rest())| < len ==> r.None?
  {
    var buf: seq<byte> := [];
    ghost var start := source.Rest();
    while |buf| < len
      invariant source.Valid() && |buf| <= len
      invariant start == buf + source.Rest()
      invariant Faultless(old(source.schedule)) ==> Faultless(source.schedule)
      decreases |source.schedule|, len - |buf|
    {
      var reply, bytes := source.Read(len - |buf|);
      match reply
      case Transfer(_) =>
        if bytes == [] {
          return None;
        }
        AppendAssoc(buf, bytes, source.Rest());
        buf := buf + bytes;
      case Interrupted =>
      case Fault =>
        return None;
    }
    r := Some(buf);
  }

  /** A descriptor that takes bytes, with the answers it will give. */
  class Sink {
    var written: seq<byte>
    var schedule: seq<Reply>

    constructor (schedule: seq<Reply>)
      ensures written == [] && this.schedule == schedule
    {
      written, this.schedule := [], schedule;
    }

    method Write(data: seq<byte>) returns (reply: Reply, n: nat)
      requires data != []
      modifies this
      ensures old(schedule) == [] ==> schedule == [] && reply.Transfer?
      ensures old(schedule) != [] ==> schedule == old(schedule)[1..]
      ensures reply.Fault? ==> old(schedule) != [] && old(schedule)[0].Fault?
      ensures reply.Transfer? ==> n <= |data| && written == old(written) + data[..n]
      ensures old(schedule) == [] ==> n == |data|
      ensures !reply.Transfer? ==> written == old(written)
    {
      reply := Transfer(|data|);
      if schedule != [] {
        reply := schedule[0];
        schedule := schedule[1..];
      }
      n := 0;
      if reply.Transfer? {
        n := Min(reply.most, |data|);
        written := written + data[..n];
      }
    }
  }

  /** write_all_fd: what reaches the descriptor is the data, or a prefix of it when a call fails. */
  method WriteAll(sink: Sink, data: seq<byte>) returns (ok: bool)
    modifies sink
    ensures ok ==> sink.written == old(sink.written) + data
    ensures !ok ==> exists n | 0 <= n < |data| :: sink.written == old(sink.written) + data[..n]
    ensures Faultless(old(sink.schedule)) ==> ok
  {
    var written := 0;
    while written < |data|
      invariant 0 <= written <= |data|
      invariant sink.written == old(sink.written) + data[..written]
      invariant Faultless(old(sink.schedule)) ==> Faultless(sink.schedule)
      decreases |sink.schedule|, |data| - written
    {
      var reply, n := sink.Write(data[written..]);
      match reply
      case Transfer(_) =>
        assert data[..written] + data[written..][..n] == data[..written + n];
        written := written + n;
      case Interrupted =>
      case Fault =>
        return false;
    }
    assert data[..written] == data;
    ok := true;
  }
}
