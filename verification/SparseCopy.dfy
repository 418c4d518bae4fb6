/**
 Copying a file into a fresh sparse one: blocks of zeros are skipped, and nothing is lost by it.
 */
module SparseCopy {
  import opened Basics
  import opened Transport

  const BLOCK_SIZE: nat := 1024 * 1024

  predicate AllZero(s: seq<byte>) {
    forall i | 0 <= i < |s| :: s[i] == 0
  }

  /** A file opened for writing; `touched` are the offsets that were written to. */
  class Destination {
    const data: array<byte>
    ghost var touched: set<nat>

    constructor (size: nat)
      ensures data.Length == size && fresh(data) && AllZero(data[..]) && touched == {}
    {
      data := new byte[size](_ => 0);
      touched := {};
    }

    /** Seek and write_all. */
    method WriteAt(offset: nat, bytes: seq<byte>)
      requires offset + |bytes| <= data.Length
      modifies this, data
      ensures data[..] == old(data[..offset]) + bytes + old(data[offset + |bytes|..])
      ensures forall i :: i in touched <==> i in old(touched) || offset <= i < offset + |bytes|
    {
      ghost var before := data[..];
      for i := 0 to |bytes|
        invariant data[..] == before[..offset] + bytes[..i] + before[offset + i..]
        invariant forall k :: k in touched <==> k in old(touched) || offset <= k < offset + i
      {
        data[offset + i] := bytes[i];
        touched := touched + {offset + i};
      }
      assert bytes[..|bytes|] == bytes;
    }
  }

  /** A byte is only written for the sake of one that is not zero, less than a block away. */
  ghost predicate NearNonZero(content: seq<byte>, i: nat) {
    exists j: nat | j < |content| :: content[j] != 0 && i < j + 1_048_576 && j < i + 1_048_576
  }

  lemma BlockIsNear(content: seq<byte>, offset: nat, bytes: seq<byte>)
    requires offset + |bytes| <= |content| && |bytes| <= BLOCK_SIZE && bytes == content[offset..offset + |bytes|]
    requires !AllZero(bytes)
    ensures forall i | offset <= i < offset + |bytes| :: NearNonZero(content, i)
  {
    var k :| 0 <= k < |bytes| && bytes[k] != 0;
    assert content[offset + k] != 0;
  }

  /** The content up to `n`, zeros from there. */
  ghost predicate IsCopiedTo(data: seq<byte>, content: seq<byte>, n: nat)
    requires n <= |content|
  {
    |data| == |content| && data[..n] == content[..n] && AllZero(data[n..])
  }

  lemma NextBlock(data: seq<byte>, content: seq<byte>, offset: nat, bytes: seq<byte>)
    requires offset + |bytes| <= |content| && IsCopiedTo(data, content, offset)
    requires content[offset..] == bytes + content[offset + |bytes|..]
    ensures bytes == content[offset..offset + |bytes|]
    ensures IsCopiedTo(data[..offset] + bytes + data[offset + |bytes|..], content, offset + |bytes|)
    ensures AllZero(bytes) ==> IsCopiedTo(data, content, offset + |bytes|)
  {
    assert content[offset..][..|bytes|] == bytes;
    var end := offset + |bytes|;
    assert content[..end] == content[..offset] + bytes;
    assert data[end..] == data[offset..][|bytes|..];
    if AllZero(bytes) {
      assert data[..end] == data[..offset] + data[offset..][..|bytes|];
      assert data[offset..][..|bytes|] == bytes;
    }
  }

  /**
   The copy loop of sparsify_file, into a destination that was created with the source's length. Whatever the
   reads return, the destination is the source up to where the loop came and zero after; it is the source if no
   read failed.
   */
  method CopySparse(source: Source, dest: Destination) returns (ok: bool, ghost copied: nat)
    requires source.Valid() && source.pos == 0
    requires dest.data.Length == |source.content| && AllZero(dest.data[..]) && dest.touched == {}
    modifies source`pos, source`schedule, dest, dest.data
    ensures copied <= |source.content| && IsCopiedTo(dest.data[..], source.content, copied)
    ensures ok ==> dest.data[..] == source.content
    ensures forall i | i in dest.touched :: NearNonZero(source.content, i)
    ensures Undisturbed(old(source.schedule)) ==> ok
  {
    var offset: nat := 0;
    while true
      invariant source.Valid() && offset == source.pos
      invariant dest.data.Length == |source.content| && IsCopiedTo(dest.data[..], source.content, offset)
      invariant forall i | i in dest.touched :: NearNonZero(source.content, i)
      invariant Undisturbed(old(source.schedule)) ==> Undisturbed(source.schedule)
      decreases |source.content| - offset
    {
      var reply, bytes := source.Read(BLOCK_SIZE);
      if !reply.Transfer? {
        return false, offset;
      }
      if bytes == [] {
        assert source.content[..offset] == source.content && dest.data[..][..offset] == dest.data[..];
        return true, offset;
      }
      NextBlock(dest.data[..], source.content, offset, bytes);
      if !AllZero(bytes) {
        BlockIsNear(source.content, offset, bytes);
        dest.WriteAt(offset, bytes);
      }
      offset := offset + |bytes|;
    }
  }

}
