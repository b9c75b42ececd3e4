/** An idealised exchange round over the whole grid of workers. Every worker
    posts one receive per slot from that slot's peer and one send per slot
    to it; message passing is taken to be reliable and complete, so a
    receive on slot `i` of A is filled with the buffer that its peer B sends
    to A, and a slot whose peer is the null peer keeps its buffer. The
    runtime's matching, ordering and completion are not modelled. */
module Exchange {
  import opened Wrappers
  import opened Grid
  import opened Slots
  import opened Topology
  import opened Buffers
  import opened Validator

  /** One worker's state: its neighbour table and its eight send and eight
      receive buffers. */
  datatype Worker = Worker(neighbors: seq<Option<nat>>, send: seq<seq<int>>, recv: seq<seq<int>>)

  /** All workers, indexed by rank. */
  type World = seq<Worker>

  /** The first slot of table `t` whose peer is `a`, if any. */
  function SlotOf(t: seq<Option<nat>>, a: nat): (k: Option<nat>)
    ensures k.None? <==> Some(a) !in t
    ensures k.Some? ==> k.value < |t| && t[k.value] == Some(a)
    ensures k.Some? ==> forall m :: 0 <= m < k.value ==> t[m] != Some(a)
  {
    if |t| == 0 then None
    else if t[0] == Some(a) then Some(0)
    else
      assert t == [t[0]] + t[1..];
      match SlotOf(t[1..], a)
      case None => None
      case Some(k) => Some(k + 1)
  }

  /** The message slot `i` of worker `a` receives in a round: the peer `b`
      named in the slot sends to `a` from the first slot of its own table
      that names `a`. A null slot, or a peer with no slot naming `a`, gets
      nothing. */
  function Incoming(w: World, a: nat, i: nat): Option<seq<int>>
    requires a < |w| && i < |w[a].neighbors|
  {
    match w[a].neighbors[i]
    case None => None
    case Some(b) =>
      if b < |w| then
        match SlotOf(w[b].neighbors, a)
        case None => None
        case Some(k) => if k < |w[b].send| then Some(w[b].send[k]) else None
      else None
  }

  /** The receive buffers of worker `a` after a round. */
  function Deliver(w: World, a: nat): seq<seq<int>>
    requires a < |w|
  {
    seq(|w[a].recv|, i requires 0 <= i < |w[a].recv| =>
      if i < |w[a].neighbors| && Incoming(w, a, i).Some? then Incoming(w, a, i).value
      else w[a].recv[i])
  }

  /** One round: every worker's receive buffers are refilled; tables and send
      buffers never change. */
  function Round(w: World): (w': World)
    ensures |w'| == |w|
    ensures forall a :: 0 <= a < |w| ==>
      && w'[a].neighbors == w[a].neighbors
      && w'[a].send == w[a].send
      && |w'[a].recv| == |w[a].recv|
  {
    seq(|w|, a requires 0 <= a < |w| => w[a].(recv := Deliver(w, a)))
  }

  /** `k` consecutive rounds. */
  function Rounds(w: World, k: nat): World {
    if k == 0 then w else Round(Rounds(w, k - 1))
  }

  /** The workers of a `D x D` grid, each holding the table the resolver
      gives its rank and eight buffers of each kind. */
  predicate WellFormed(w: World, d: nat) {
    && |w| == Square(d)
    && forall a :: 0 <= a < |w| ==>
         w[a].neighbors == Neighbors(a, d) && |w[a].send| == 8 && |w[a].recv| == 8
  }

  /** In a table whose entry `k` is the only one naming `a`, the first slot
      naming `a` is `k`. */
  lemma SlotOfUnique(t: seq<Option<nat>>, a: nat, k: nat)
    requires k < |t| && t[k] == Some(a)
    requires forall m :: 0 <= m < |t| && m != k ==> t[m] != Some(a)
    ensures SlotOf(t, a) == Some(k)
  {
    assert t[k] in t;
  }

  /** Message matching: the peer B in slot `i` of A sends to A from slot
      `7 - i`, the only slot of B that names A. */
  lemma MatchingSlot(a: nat, b: nat, d: nat, i: nat)
    requires a < Square(d) && i < 8
    requires Neighbors(a, d)[i] == Some(b)
    ensures b < Square(d)
    ensures SlotOf(Neighbors(b, d), a) == Some(7 - i)
  {
    Symmetry(a, b, d, i);
    var t := Neighbors(b, d);
    forall m | 0 <= m < 8 && m != 7 - i
      ensures t[m] != Some(a)
    {
      if t[m].Some? {
        NeighborsDistinct(b, d, m, 7 - i);
      }
    }
    SlotOfUnique(t, a, 7 - i);
  }

  /** What a round does to one slot of a grid worker: a slot with peer B
      receives B's send buffer `7 - i`, a null slot keeps its buffer. */
  lemma RoundReceives(w: World, d: nat, a: nat, i: nat)
    requires WellFormed(w, d) && a < |w| && i < 8
    ensures w[a].neighbors[i].None? ==> Round(w)[a].recv[i] == w[a].recv[i]
    ensures w[a].neighbors[i].Some? ==>
      && w[a].neighbors[i].value < |w|
      && Round(w)[a].recv[i] == w[w[a].neighbors[i].value].send[7 - i]
  {
    assert Round(w)[a].recv == Deliver(w, a);
    assert w[a].neighbors == Neighbors(a, d);
    if w[a].neighbors[i].Some? {
      var b := w[a].neighbors[i].value;
      MatchingSlot(a, b, d, i);
      assert w[b].neighbors == Neighbors(b, d);
      assert Incoming(w, a, i) == Some(w[b].send[7 - i]);
    }
  }

  /** Rounds keep a grid world well formed. */
  lemma RoundWellFormed(w: World, d: nat)
    requires WellFormed(w, d)
    ensures WellFormed(Round(w), d)
  {
  }

  /** Repeating a round changes nothing: sends and tables are fixed, so the
      same messages arrive again. */
  lemma {:induction false} RoundIdempotent(w: World)
    ensures Round(Round(w)) == Round(w)
  {
    var w1 := Round(w);
    var w2 := Round(w1);
    forall a | 0 <= a < |w|
      ensures w2[a] == w1[a]
    {
      forall i | 0 <= i < |w[a].recv|
        ensures w2[a].recv[i] == w1[a].recv[i]
      {
        if i < |w[a].neighbors| {
          assert Incoming(w1, a, i) == Incoming(w, a, i);
        }
      }
    }
  }

  /** Any positive number of rounds has the effect of one. */
  lemma {:induction false} RoundsCollapse(w: World, k: nat)
    requires k >= 1
    ensures Rounds(w, k) == Round(w)
  {
    if k > 1 {
      RoundsCollapse(w, k - 1);
      RoundIdempotent(w);
    }
  }

  /** Every worker's send buffers hold its own rank, `count` elements each,
      as the stencil benchmark initialises them. */
  predicate SendsOwnRank(w: World, count: nat) {
    forall a :: 0 <= a < |w| ==> Uniform(w[a].send, a, count)
  }

  /** After a round of the stencil benchmark the validator passes on every
      worker: each present slot received its peer's rank. */
  lemma ValidAfterRound(w: World, d: nat, count: nat, a: nat)
    requires WellFormed(w, d) && SendsOwnRank(w, count) && a < |w|
    ensures |Round(w)[a].recv| == |Round(w)[a].neighbors|
    ensures Valid(Round(w)[a].neighbors, Round(w)[a].recv)
  {
    var w' := Round(w);
    forall i, j | 0 <= i < 8 && w'[a].neighbors[i].Some? && 0 <= j < |w'[a].recv[i]|
      ensures w'[a].recv[i][j] == w'[a].neighbors[i].value
    {
      RoundReceives(w, d, a, i);
    }
  }

  /** The stencil validator passes after every one of any number of rounds. */
  lemma ValidAfterRounds(w: World, d: nat, count: nat, k: nat, a: nat)
    requires WellFormed(w, d) && SendsOwnRank(w, count) && a < |w| && k >= 1
    ensures |Rounds(w, k)| == |w|
    ensures |Rounds(w, k)[a].recv| == |Rounds(w, k)[a].neighbors|
    ensures Valid(Rounds(w, k)[a].neighbors, Rounds(w, k)[a].recv)
  {
    RoundsCollapse(w, k);
    ValidAfterRound(w, d, count, a);
  }

  /** A null slot still holds the stencil's sentinel after a round. */
  lemma NullSlotsKeepSentinel(w: World, d: nat, a: nat, i: nat)
    requires WellFormed(w, d) && a < |w| && i < 8
    requires Uniform(w[a].recv, Sentinel, StencilCount)
    requires w[a].neighbors[i].None?
    ensures forall j :: 0 <= j < StencilCount ==> Round(w)[a].recv[i][j] == Sentinel
  {
    RoundReceives(w, d, a, i);
  }

  /** The char benchmark: every worker sends 8 and starts its receives at 1.
      After a round every present slot holds 8 and every null slot still 1. */
  lemma RepoRoundReceivesEight(w: World, d: nat, a: nat, i: nat)
    requires WellFormed(w, d) && a < |w| && i < 8
    requires forall b :: 0 <= b < |w| ==> Uniform(w[b].send, 8, RepoCount)
    requires Uniform(w[a].recv, 1, RepoCount)
    ensures w[a].neighbors[i].Some? ==> Round(w)[a].recv[i] == [8]
    ensures w[a].neighbors[i].None? ==> Round(w)[a].recv[i] == [1]
  {
    RoundReceives(w, d, a, i);
  }
}
