/** The message buffers each worker allocates: one send and one receive
    buffer per neighbour slot, eight of each, every buffer `count` elements
    long and filled with a single value before the first exchange. */
module Buffers {

  /** `bs` is a set of eight buffers, each holding `count` copies of `value`. */
  predicate Uniform(bs: seq<seq<int>>, value: int, count: nat) {
    && |bs| == 8
    && forall i :: 0 <= i < 8 ==>
         |bs[i]| == count && forall j :: 0 <= j < count ==> bs[i][j] == value
  }

  /** Reference definition of eight freshly filled buffers. */
  function Filled(value: int, count: nat): (bs: seq<seq<int>>)
    ensures Uniform(bs, value, count)
  {
    seq(8, _ => seq(count, _ => value))
  }

  /** A uniform buffer set is determined by its value and length. */
  lemma UniformUnique(bs: seq<seq<int>>, value: int, count: nat)
    requires Uniform(bs, value, count)
    ensures bs == Filled(value, count)
  {
    var f := Filled(value, count);
    forall i | 0 <= i < 8
      ensures bs[i] == f[i]
    {
      assert |bs[i]| == |f[i]|;
      forall j | 0 <= j < count
        ensures bs[i][j] == f[i][j]
      {
      }
    }
  }

  /** The initialisation loop: for each of the eight slots, every element of
      the send buffer gets `sendValue` and every element of the receive
      buffer gets `recvValue`. */
  method InitBuffers(sendValue: int, recvValue: int, count: nat)
    returns (send: seq<seq<int>>, recv: seq<seq<int>>)
    ensures Uniform(send, sendValue, count)
    ensures Uniform(recv, recvValue, count)
  {
    send := [];
    recv := [];
    var i := 0;
    while i < 8
      invariant 0 <= i <= 8
      invariant |send| == i && |recv| == i
      invariant forall k :: 0 <= k < i ==>
        |send[k]| == count && forall j :: 0 <= j < count ==> send[k][j] == sendValue
      invariant forall k :: 0 <= k < i ==>
        |recv[k]| == count && forall j :: 0 <= j < count ==> recv[k][j] == recvValue
    {
      var s: seq<int> := [];
      var r: seq<int> := [];
      var j := 0;
      while j < count
        invariant 0 <= j <= count
        invariant |s| == j && |r| == j
        invariant forall m :: 0 <= m < j ==> s[m] == sendValue
        invariant forall m :: 0 <= m < j ==> r[m] == recvValue
      {
        s := s + [sendValue];
        r := r + [recvValue];
        j := j + 1;
      }
      send := send + [s];
      recv := recv + [r];
      i := i + 1;
    }
  }

  /** Elements per buffer in the stencil benchmark. */
  const StencilCount: nat := 1000

  /** The receive sentinel of the stencil benchmark; no rank equals it. */
  const Sentinel: int := -1

  /** The stencil benchmark's buffers: a thousand ints per buffer, every send
      element the owner's rank and every receive element the sentinel. */
  method StencilBuffers(rank: nat) returns (send: seq<seq<int>>, recv: seq<seq<int>>)
    ensures Uniform(send, rank, StencilCount)
    ensures Uniform(recv, Sentinel, StencilCount)
  {
    send, recv := InitBuffers(rank, Sentinel, StencilCount);
  }

  /** Elements per buffer in the repository's char benchmark. */
  const RepoCount: nat := 1

  /** The char benchmark's buffers: a single char per buffer, every send
      element 8 and every receive element 1 (both fit any `char`). */
  method RepoBuffers() returns (send: seq<seq<int>>, recv: seq<seq<int>>)
    ensures Uniform(send, 8, RepoCount)
    ensures Uniform(recv, 1, RepoCount)
  {
    send, recv := InitBuffers(8, 1, RepoCount);
  }
}
