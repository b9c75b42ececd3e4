/** The check the stencil benchmark runs after every round: every element of
    the receive buffer of every non-null slot must equal that slot's
    neighbour rank. Null slots are skipped, and the first mismatch found
    ends the run with a failure status. */
module Validator {
  import opened Wrappers
  import opened Topology
  import opened Buffers

  /** The first offending element: its slot, its index in the slot's receive
      buffer, the rank expected there and the value found. */
  datatype Mismatch = Mismatch(slot: nat, element: nat, expected: int, actual: int)

  /** Every receive buffer of a present slot holds only that slot's rank. */
  predicate Valid(t: seq<Option<int>>, recv: seq<seq<int>>)
    requires |recv| == |t|
  {
    forall i, j :: 0 <= i < |t| && t[i].Some? && 0 <= j < |recv[i]| ==> recv[i][j] == t[i].value
  }

  /** The validation loop on the C encoding of the table: slots are scanned in
      order, slots holding the null-peer constant are skipped, and the
      elements of the others are compared with the slot's rank. It passes
      exactly when the decoded table is `Valid`, and a failure reports the
      first mismatch in scan order. */
  method Validate(neighbors: seq<int>, procNull: int, recv: seq<seq<int>>)
    returns (o: Outcome<Mismatch>)
    requires |recv| == |neighbors|
    ensures o.Pass? <==> Valid(FromMpi(neighbors, procNull), recv)
    ensures o.Fail? ==> var m := o.error;
      && m.slot < |neighbors| && m.element < |recv[m.slot]|
      && neighbors[m.slot] != procNull
      && m.expected == neighbors[m.slot]
      && m.actual == recv[m.slot][m.element]
      && m.actual != m.expected
      && (forall j :: 0 <= j < m.element ==> recv[m.slot][j] == m.expected)
      && (forall k, j :: 0 <= k < m.slot && neighbors[k] != procNull && 0 <= j < |recv[k]| ==>
            recv[k][j] == neighbors[k])
  {
    var i := 0;
    while i < |neighbors|
      invariant 0 <= i <= |neighbors|
      invariant forall k, j :: 0 <= k < i && neighbors[k] != procNull && 0 <= j < |recv[k]| ==>
        recv[k][j] == neighbors[k]
    {
      if neighbors[i] != procNull {
        var j := 0;
        while j < |recv[i]|
          invariant 0 <= j <= |recv[i]|
          invariant forall m :: 0 <= m < j ==> recv[i][m] == neighbors[i]
        {
          if recv[i][j] != neighbors[i] {
            assert FromMpi(neighbors, procNull)[i] == Some(neighbors[i]);
            return Fail(Mismatch(i, j, neighbors[i], recv[i][j]));
          }
          j := j + 1;
        }
      }
      i := i + 1;
    }
    return Pass;
  }

  /** The validator applied to a resolved table in its C encoding. With a
      negative null-peer constant it passes exactly when the table is
      `Valid`. */
  method ValidateTable(t: seq<Option<nat>>, procNull: int, recv: seq<seq<int>>)
    returns (o: Outcome<Mismatch>)
    requires procNull < 0 && |recv| == |t|
    ensures o.Pass? <==> Valid(t, recv)
  {
    MpiRoundTrip(t, procNull);
    o := Validate(ToMpi(t, procNull), procNull, recv);
  }

  /** Null slots are never inspected: changing their receive buffers does not
      change the verdict. */
  lemma NullSlotsIgnored(t: seq<Option<int>>, recv: seq<seq<int>>, recv': seq<seq<int>>)
    requires |recv| == |t| && |recv'| == |t|
    requires forall i :: 0 <= i < |t| && t[i].Some? ==> recv[i] == recv'[i]
    ensures Valid(t, recv) <==> Valid(t, recv')
  {
  }

  /** Before any exchange the validator cannot pass: the sentinel `-1` is no
      rank, so a table with a present slot fails on non-empty receive
      buffers still holding their initial value. */
  lemma SentinelNeverValidates(t: seq<Option<nat>>, count: nat)
    requires |t| == 8
    ensures Valid(t, Filled(Sentinel, count)) <==> count == 0 || forall i :: 0 <= i < 8 ==> t[i].None?
  {
    var f := Filled(Sentinel, count);
    if count > 0 && exists i :: 0 <= i < 8 && t[i].Some? {
      var i :| 0 <= i < 8 && t[i].Some?;
      assert f[i][0] == Sentinel;
    }
  }
}
