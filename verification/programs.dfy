/** The two benchmark programs around the resolver: their exit statuses, the
    stencil benchmark's exchange-and-validate loop over an idealised world,
    and the order in which the char benchmark posts its receives and sends
    in each round. */
module Programs {
  import opened Wrappers
  import opened Grid
  import opened Topology
  import opened Buffers
  import opened Validator
  import opened Exchange

  /** `EXIT_FAILURE` of the C library the stencil benchmark returns on a
      configuration error. */
  const ExitFailure: int := 1

  /** Rounds the stencil benchmark runs. */
  const StencilRounds: nat := 100

  /** Rounds the char benchmark runs; each uses its round index as the tag. */
  const RepoRounds: nat := 10000

  /** The char benchmark's exit status: -1 when the worker count is not a
      perfect square, 0 after a completed run otherwise. */
  function RepoStatus(size: nat): (status: int)
    ensures status == -1 <==> !IsSquare(size)
    ensures status == 0 <==> IsSquare(size)
  {
    match LinDim(size)
    case Failure(_) => -1
    case Success(_) => 0
  }

  /** The stencil benchmark's world right after initialisation: worker `a`
      holds its resolved table, sends of its own rank and sentinel receives. */
  function InitialWorld(d: nat): (w: World)
    ensures WellFormed(w, d)
    ensures SendsOwnRank(w, StencilCount)
    ensures forall a :: 0 <= a < |w| ==> Uniform(w[a].recv, Sentinel, StencilCount)
  {
    seq(Square(d), a requires 0 <= a < Square(d) =>
      Worker(Neighbors(a, d), Filled(a, StencilCount), Filled(Sentinel, StencilCount)))
  }

  /** The stencil benchmark's main loop over all workers: `rounds` times, one
      exchange round followed by the validator on every worker, stopping with
      the failure status at the first rejection. When every worker sends its
      own rank, no validation fails and the run ends with status 0. */
  method StencilRun(w0: World, d: nat, count: nat, procNull: int, rounds: nat)
    returns (status: int, w: World)
    requires WellFormed(w0, d) && procNull < 0
    ensures status == 0 || status == ExitFailure
    ensures SendsOwnRank(w0, count) ==> status == 0
    ensures status == 0 ==> w == Rounds(w0, rounds)
  {
    w := w0;
    var k := 0;
    while k < rounds
      invariant 0 <= k <= rounds
      invariant w == Rounds(w0, k)
      invariant WellFormed(w, d)
      invariant SendsOwnRank(w0, count) ==> SendsOwnRank(w, count)
    {
      var prev := w;
      w := Round(w);
      k := k + 1;
      RoundWellFormed(prev, d);
      if SendsOwnRank(w0, count) {
        forall b | 0 <= b < |w|
          ensures Valid(w[b].neighbors, w[b].recv)
        {
          ValidAfterRound(prev, d, count, b);
        }
      }
      var a := 0;
      while a < |w|
        invariant 0 <= a <= |w|
      {
        var o := ValidateTable(w[a].neighbors, procNull, w[a].recv);
        if o.Fail? {
          return ExitFailure, w;
        }
        a := a + 1;
      }
    }
    status := 0;
  }

  /** The stencil benchmark from the worker count: the perfect-square check,
      then the initialised world and its hundred validated rounds. It fails
      exactly on a worker count that is not a perfect square. */
  method StencilMain(size: nat, procNull: int) returns (status: int)
    requires procNull < 0
    ensures status == ExitFailure <==> !IsSquare(size)
    ensures status == 0 <==> IsSquare(size)
  {
    match LinDim(size)
    case Failure(_) =>
      status := ExitFailure;
    case Success(d) =>
      var w := InitialWorld(d);
      status, w := StencilRun(w, d, StencilCount, procNull, StencilRounds);
  }

  /** A nonblocking operation posted on a slot: to or from the slot's peer,
      with a message tag. */
  datatype Post =
    | Irecv(slot: nat, peer: Option<nat>, tag: nat)
    | Isend(slot: nat, peer: Option<nat>, tag: nat)

  /** The posts of one round with tag `j`: a receive on each of the eight
      slots, then a send on each. */
  function RoundPosts(t: seq<Option<nat>>, j: nat): (ps: seq<Post>)
    requires |t| == 8
    ensures |ps| == 16
    ensures forall k :: 0 <= k < 16 ==>
      && ps[k].tag == j
      && (ps[k].Irecv? <==> k < 8)
      && ps[k].slot == (if k < 8 then k else k - 8)
      && ps[k].peer == t[ps[k].slot]
  {
    seq(16, k requires 0 <= k < 16 =>
      if k < 8 then Irecv(k, t[k], j) else Isend(k - 8, t[k - 8], j))
  }

  /** The posts of the first `rounds` rounds, in program order: the post at
      position `k` belongs to round `tag`, sits at offset `k - 16*tag` inside
      that round's block of sixteen, is a receive in the first half of the
      block and a send in the second, and goes to its slot's peer. */
  function Schedule(t: seq<Option<nat>>, rounds: nat): (ps: seq<Post>)
    requires |t| == 8
    ensures |ps| == 16 * rounds
    ensures forall k :: 0 <= k < |ps| ==>
      var off := k - 16 * ps[k].tag;
      && ps[k].tag < rounds
      && 0 <= off < 16
      && (ps[k].Irecv? <==> off < 8)
      && ps[k].slot == (if off < 8 then off else off - 8)
      && ps[k].peer == t[ps[k].slot]
  {
    if rounds == 0 then []
    else Schedule(t, rounds - 1) + RoundPosts(t, rounds - 1)
  }

  /** Round `j` of the schedule is the receive on every slot, in slot order,
      followed by the send on every slot, all tagged `j`. */
  lemma ScheduleRound(t: seq<Option<nat>>, rounds: nat, j: nat, m: nat)
    requires |t| == 8 && j < rounds && m < 8
    ensures 16 * j + 8 + m < |Schedule(t, rounds)|
    ensures Schedule(t, rounds)[16 * j + m] == Irecv(m, t[m], j)
    ensures Schedule(t, rounds)[16 * j + 8 + m] == Isend(m, t[m], j)
  {
    var ps := Schedule(t, rounds);
    assert 16 * j + 8 + m < 16 * rounds;
    assert ps[16 * j + m].tag == j;
    assert ps[16 * j + 8 + m].tag == j;
  }

  /** Tags never decrease along the schedule, and within one tag no receive
      is posted after a send: all eight receives of a round come first. */
  lemma ScheduleOrder(t: seq<Option<nat>>, rounds: nat, p: nat, q: nat)
    requires |t| == 8 && p < q < 16 * rounds
    ensures Schedule(t, rounds)[p].tag <= Schedule(t, rounds)[q].tag
    ensures Schedule(t, rounds)[p].tag == Schedule(t, rounds)[q].tag && Schedule(t, rounds)[p].Isend?
      ==> Schedule(t, rounds)[q].Isend?
  {
  }

  /** The char benchmark's tags are the round indices `0 .. 9999`. */
  lemma RepoTags(t: seq<Option<nat>>, k: nat)
    requires |t| == 8 && k < 16 * RepoRounds
    ensures 0 <= Schedule(t, RepoRounds)[k].tag < RepoRounds
  {
  }
}
