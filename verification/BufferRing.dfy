/** The circular doubly linked list of buffers (bio.c) and the order it stands for. */
module BufferRing {

  const NBUF := 30
  /** The list head, not a buffer. */
  const HEAD := 30

  /** Entry i of the circle: the head, then the buffers from most to least recently used. */
  function Cyc(order: seq<nat>, i: nat): nat
    requires i <= |order|
  {
    if i == 0 then HEAD else order[i - 1]
  }

  function After(order: seq<nat>, i: nat): nat
    requires i <= |order|
  {
    if i == |order| then 0 else i + 1
  }

  predicate Distinct(order: seq<nat>) {
    && (forall i :: 0 <= i < |order| ==> order[i] < NBUF)
    && (forall i, j :: 0 <= i < j < |order| ==> order[i] != order[j])
  }

  predicate LinkAt(next: seq<nat>, prev: seq<nat>, order: seq<nat>, i: nat)
    requires |next| == |prev| == NBUF + 1 && Distinct(order) && i <= |order|
  {
    next[Cyc(order, i)] == Cyc(order, After(order, i)) && prev[Cyc(order, After(order, i))] == Cyc(order, i)
  }

  /** next and prev are the circle through the head and order, both ways round. */
  predicate Ring(next: seq<nat>, prev: seq<nat>, order: seq<nat>) {
    && |next| == |prev| == NBUF + 1 && Distinct(order)
    && forall i :: 0 <= i <= |order| ==> LinkAt(next, prev, order, i)
  }

  lemma CycDistinct(order: seq<nat>, i: nat, j: nat)
    requires Distinct(order) && i <= |order| && j <= |order| && i != j
    ensures Cyc(order, i) != Cyc(order, j)
  {
  }

  function Without(order: seq<nat>, k: nat): (r: seq<nat>)
    requires k < |order|
    ensures |r| == |order| - 1 && forall j :: 0 <= j < |r| ==> r[j] == order[if j < k then j else j + 1]
  {
    order[..k] + order[k + 1..]
  }

  /** Taking order[k] out of the list. */
  lemma Unlinked(next: seq<nat>, prev: seq<nat>, order: seq<nat>, k: nat)
    requires Ring(next, prev, order) && k < |order|
    ensures prev[order[k]] <= NBUF && next[order[k]] <= NBUF && next[order[k]] != order[k]
    ensures Ring(next[prev[order[k]] := next[order[k]]], prev[next[order[k]] := prev[order[k]]], Without(order, k))
  {
    hide Without;
    var b, r := order[k], Without(order, k);
    assert LinkAt(next, prev, order, k) && LinkAt(next, prev, order, k + 1);
    CycDistinct(order, k + 1, After(order, k + 1));
    var next', prev' := next[prev[b] := next[b]], prev[next[b] := prev[b]];
    forall i | 0 <= i <= |r| ensures LinkAt(next', prev', r, i) {
      UnlinkedAt(next, prev, order, k, i);
    }
  }

  lemma UnlinkedAt(next: seq<nat>, prev: seq<nat>, order: seq<nat>, k: nat, i: nat)
    requires Ring(next, prev, order) && k < |order| && i < |order| && Distinct(Without(order, k))
    requires prev[order[k]] <= NBUF && next[order[k]] <= NBUF
    ensures LinkAt(next[prev[order[k]] := next[order[k]]], prev[next[order[k]] := prev[order[k]]], Without(order, k), i)
  {
    hide Without;
    var b, r := order[k], Without(order, k);
    assert LinkAt(next, prev, order, k) && LinkAt(next, prev, order, k + 1);
    var o := if i <= k then i else i + 1;
    assert Cyc(r, i) == Cyc(order, o);
    assert LinkAt(next, prev, order, o);
    var a := After(r, i);
    var oa := if i == k then After(order, k + 1) else After(order, o);
    assert Cyc(r, a) == Cyc(order, oa);
    if i == k {
      assert Cyc(order, k) == prev[b] && Cyc(order, oa) == next[b];
    } else {
      CycDistinct(order, o, k);
      CycDistinct(order, oa, After(order, k + 1));
    }
  }

  /** Putting b in after the head. */
  lemma Pushed(next: seq<nat>, prev: seq<nat>, order: seq<nat>, b: nat)
    requires Ring(next, prev, order) && b < NBUF && b !in order
    ensures next[HEAD] <= NBUF
    ensures Ring(next[b := next[HEAD]][HEAD := b], prev[b := HEAD][next[HEAD] := b], [b] + order)
  {
    var r := [b] + order;
    assert LinkAt(next, prev, order, 0);
    var next', prev' := next[b := next[HEAD]][HEAD := b], prev[b := HEAD][next[HEAD] := b];
    forall i | 0 <= i <= |r| ensures LinkAt(next', prev', r, i) {
      if i == 0 {
        assert Cyc(r, 1) == b;
      } else {
        assert LinkAt(next, prev, order, i - 1);
        assert Cyc(r, i) == if i == 1 then b else Cyc(order, i - 1);
        assert i > 1 ==> Cyc(r, After(r, i)) == Cyc(order, After(order, i - 1));
        if i > 1 { CycDistinct(order, After(order, i - 1), After(order, 0)); }
      }
    }
  }

  /** Where entry j of the list came from when order[k] was moved to the front. */
  function From(k: nat, j: nat): nat {
    if j == 0 then k else if j <= k then j - 1 else j
  }

  /** order[k] moved to the front. */
  function Front(order: seq<nat>, k: nat): (r: seq<nat>)
    requires k < |order|
    ensures |r| == |order| && forall j :: 0 <= j < |r| ==> r[j] == order[From(k, j)]
  {
    [order[k]] + Without(order, k)
  }

  lemma FrontDistinct(order: seq<nat>, k: nat)
    requires Distinct(order) && k < |order|
    ensures Distinct(Front(order, k)) && order[k] !in Without(order, k)
  {
    hide Front, Without;
    forall i, j | 0 <= i < j < |order| ensures Front(order, k)[i] != Front(order, k)[j] {
      assert From(k, i) != From(k, j);
    }
  }
}
