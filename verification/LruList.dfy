/** The buffer cache's doubly linked list: `next` and `prev` links through all buffers and a head,
    most recently used first. */
module LruList {
  import opened Seqs

  /** The buffer at a place in the list, or the head beyond either end. */
  function At(order: seq<nat>, i: int, head: nat): nat {
    if 0 <= i < |order| then order[i] else head
  }

  /** The buffers in `order`, most recently used first, closed to a ring by `head`. */
  ghost predicate Linked(next: seq<nat>, prev: seq<nat>, head: nat, order: seq<nat>) {
    && |next| == |prev| == head + 1 && Members(order, head)
    && forall i :: -1 <= i < |order| ==> Joined(next, prev, head, order, i)
  }

  ghost predicate Members(order: seq<nat>, head: nat) {
    Distinct(order) && forall i :: 0 <= i < |order| ==> order[i] < head
  }

  /** Places `i` and `i + 1` point at each other. */
  ghost predicate Joined(next: seq<nat>, prev: seq<nat>, head: nat, order: seq<nat>, i: int)
    requires |next| == |prev| == head + 1 && Members(order, head)
  {
    next[At(order, i, head)] == At(order, i + 1, head) && prev[At(order, i + 1, head)] == At(order, i, head)
  }

  /** All of `0..n`, each exactly once. */
  ghost predicate Permutation(order: seq<nat>, n: nat) {
    && |order| == n
    && (forall i :: 0 <= i < n ==> order[i] < n)
    && Distinct(order)
    && (forall b: nat :: b < n ==> b in order)
  }

  lemma AtWithout(order: seq<nat>, k: nat, head: nat, i: int)
    requires k < |order| && -1 <= i <= |order| - 1
    ensures At(Without(order, k), i, head) == At(order, if i < k then i else i + 1, head)
  {
  }

  lemma AtDistinct(order: seq<nat>, head: nat, i: int, j: int)
    requires Members(order, head) && -1 <= i < |order| && -1 <= j < |order| && i != j
    ensures At(order, i, head) != At(order, j, head)
  {
  }

  /** Taking a buffer out by joining its neighbours. */
  lemma Unlink(next: seq<nat>, prev: seq<nat>, head: nat, order: seq<nat>, k: nat)
    requires Linked(next, prev, head, order) && k < |order|
    ensures var b := order[k];
            && next[b] <= head && prev[b] <= head
            && Linked(next[prev[b] := next[b]], prev[next[b] := prev[b]], head, Without(order, k))
            && b !in Without(order, k)
  {
    var b, w := order[k], Without(order, k);
    assert Joined(next, prev, head, order, k) && Joined(next, prev, head, order, k - 1);
    assert prev[b] == At(order, k - 1, head) && next[b] == At(order, k + 1, head);
    var n', p' := next[prev[b] := next[b]], prev[next[b] := prev[b]];
    forall i | -1 <= i < |w| ensures Joined(n', p', head, w, i) {
      UnlinkAt(next, prev, head, order, k, i);
    }
  }

  lemma UnlinkAt(next: seq<nat>, prev: seq<nat>, head: nat, order: seq<nat>, k: nat, i: int)
    requires Linked(next, prev, head, order) && k < |order| && -1 <= i < |order| - 1
    requires Members(Without(order, k), head)
    ensures Joined(next[At(order, k - 1, head) := At(order, k + 1, head)],
                   prev[At(order, k + 1, head) := At(order, k - 1, head)],
                   head, Without(order, k), i)
  {
    AtWithout(order, k, head, i);
    AtWithout(order, k, head, i + 1);
    var j := if i < k then i else i + 1;
    if i != k - 1 {
      assert Joined(next, prev, head, order, j);
      AtDistinct(order, head, j, k - 1);
      var a, c := if j + 1 == |order| then -1 else j + 1, if k + 1 == |order| then -1 else k + 1;
      assert At(order, a, head) == At(order, j + 1, head) && At(order, c, head) == At(order, k + 1, head);
      AtDistinct(order, head, a, c);
    }
  }

  /** Putting a buffer in front. */
  lemma PushFront(next: seq<nat>, prev: seq<nat>, head: nat, order: seq<nat>, b: nat)
    requires Linked(next, prev, head, order) && b < head && b !in order
    ensures var first := next[head];
            && first <= head
            && Linked(next[b := first][head := b], prev[b := head][first := b], head, [b] + order)
  {
    var first, o := next[head], [b] + order;
    assert Joined(next, prev, head, order, -1);
    assert first == At(order, 0, head);
    var n', p' := next[b := first][head := b], prev[b := head][first := b];
    assert forall i :: 0 < i < |o| ==> o[i] == order[i - 1];
    forall i | -1 <= i < |o| ensures Joined(n', p', head, o, i) {
      assert forall k :: 0 < k <= |o| ==> At(o, k, head) == At(order, k - 1, head);
      if i >= 1 {
        assert Joined(next, prev, head, order, i - 1);
        AtDistinct(order, head, i - 1, -1);
        var a := if i == |order| then -1 else i;
        AtDistinct(order, head, a, 0);
      }
    }
  }

  lemma FrontPermutation(order: seq<nat>, k: nat, n: nat)
    requires Permutation(order, n) && k < n
    ensures Permutation([order[k]] + Without(order, k), n)
  {
    var o := [order[k]] + Without(order, k);
    forall i | 0 <= i < n
      ensures o[i] == order[if i == 0 then k else if i <= k then i - 1 else i]
    {
    }
    forall b: nat | b < n ensures b in o {
      assert b in order;
      var i :| 0 <= i < |order| && order[i] == b;
      assert o[if i == k then 0 else if i < k then i + 1 else i] == b;
    }
  }
}
