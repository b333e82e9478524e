/** Read-only strings that discard bytes from the front, alone (`Buffer`) and in a queue (`BufferList`). */
module Buffers {
  import opened Machine

  /** A view of a shared string; the storage is dropped once the whole string has been discarded. */
  datatype Buffer = Buffer(storage: Option<seq<byte>>, offset: nat)
  {
    ghost predicate Valid()
    {
      storage.Some? ==> offset <= |storage.value|
    }

    function Str(): seq<byte>
      requires Valid()
    {
      if storage.None? then [] else storage.value[offset..]
    }

    /** The view without its first `n` bytes, or `None` where the source throws `out_of_range`. */
    function RemovePrefix(n: nat): (r: Option<Buffer>)
      requires Valid()
      ensures r.None? <==> n > |Str()|
      ensures r.Some? ==> r.value.Valid() && r.value.Str() == Str()[n..]
    {
      if n > |Str()| then None
      else if storage.Some? && offset + n == |storage.value| then Some(Buffer(None, offset + n))
      else Some(Buffer(storage, offset + n))
    }
  }

  function FromString(s: seq<byte>): (b: Buffer)
    ensures b.Valid() && b.Str() == s
  {
    Buffer(Some(s), 0)
  }

  ghost predicate AllValid(bs: seq<Buffer>)
  {
    forall b <- bs :: b.Valid()
  }

  ghost function Concat(bs: seq<Buffer>): seq<byte>
    requires AllValid(bs)
  {
    if bs == [] then [] else bs[0].Str() + Concat(bs[1..])
  }

  lemma {:induction false} ConcatAppend(bs: seq<Buffer>, cs: seq<Buffer>)
    requires AllValid(bs) && AllValid(cs)
    ensures AllValid(bs + cs) && Concat(bs + cs) == Concat(bs) + Concat(cs)
  {
    if bs == [] {
      assert bs + cs == cs;
    } else {
      var all := bs + cs;
      ConcatAppend(bs[1..], cs);
      assert all[1..] == bs[1..] + cs && all[0] == bs[0];
      Assoc(bs[0].Str(), Concat(bs[1..]), Concat(cs));
    }
  }

  lemma ConcatOne(b: Buffer)
    requires b.Valid()
    ensures AllValid([b]) && Concat([b]) == b.Str()
  {
    var bs := [b];
    assert bs[1..] == [];
  }

  lemma ConcatLast(bs: seq<Buffer>, i: nat)
    requires i < |bs| && AllValid(bs)
    ensures Concat(bs[..i + 1]) == Concat(bs[..i]) + bs[i].Str()
  {
    ConcatAppend(bs[..i], [bs[i]]);
    assert bs[..i + 1] == bs[..i] + [bs[i]];
    ConcatOne(bs[i]);
  }

  lemma FrontShorter(bs: seq<Buffer>, n: nat)
    requires AllValid(bs) && bs != [] && n <= |bs[0].Str()|
    ensures var cs := bs[0 := bs[0].RemovePrefix(n).value];
            AllValid(cs) && Concat(cs) == Concat(bs)[n..]
  {
    assert bs[0 := bs[0].RemovePrefix(n).value][1..] == bs[1..];
  }

  class BufferList {
    var buffers: seq<Buffer>

    ghost predicate Valid()
      reads this
    {
      AllValid(buffers)
    }

    ghost function Contents(): seq<byte>
      reads this
      requires Valid()
    {
      Concat(buffers)
    }

    constructor ()
      ensures Valid() && Contents() == []
    {
      buffers := [];
    }

    method Append(other: seq<Buffer>)
      requires Valid() && AllValid(other)
      modifies this
      ensures Valid() && Contents() == old(Contents()) + Concat(other)
    {
      ghost var whole := buffers;
      for i := 0 to |other|
        invariant buffers == whole + other[..i]
      {
        buffers := buffers + [other[i]];
      }
      assert other[..|other|] == other;
      ConcatAppend(whole, other);
    }

    method Concatenate() returns (s: seq<byte>)
      requires Valid()
      ensures s == Contents()
    {
      s := [];
      for i := 0 to |buffers|
        invariant s == Concat(buffers[..i])
      {
        ConcatLast(buffers, i);
        s := s + buffers[i].Str();
      }
      assert buffers[..|buffers|] == buffers;
    }

    method Size() returns (n: nat)
      requires Valid()
      ensures n == |Contents()|
    {
      n := 0;
      for i := 0 to |buffers|
        invariant n == |Concat(buffers[..i])|
      {
        ConcatLast(buffers, i);
        n := n + |buffers[i].Str()|;
      }
      assert buffers[..|buffers|] == buffers;
    }

    /** Discards exactly `n` bytes of the concatenation, whatever empty buffers are queued; where the
        source throws because fewer are queued, `ok` is false and everything has been discarded. */
    method RemovePrefix(n: nat) returns (ok: bool)
      requires Valid()
      modifies this
      ensures Valid()
      ensures ok <==> n <= old(|Contents()|)
      ensures Contents() == if ok then old(Contents())[n..] else []
    {
      var left := n;
      ghost var whole := Contents();
      while left > 0
        invariant Valid() && 0 <= left <= n
        invariant n - left <= |whole|
        invariant Contents() == whole[n - left..]
        decreases left, |buffers|
      {
        if buffers == [] {
          return false;
        }
        if left < |buffers[0].Str()| {
          FrontShorter(buffers, left);
          buffers := buffers[0 := buffers[0].RemovePrefix(left).value];
          left := 0;
        } else {
          left := left - |buffers[0].Str()|;
          buffers := buffers[1..];
        }
      }
      return true;
    }
  }
}
