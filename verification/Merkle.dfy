/** The Merkle root of a block template (build_merkle_root of new_src/gapcoin_work.c): the
    reduction that overwrites its own buffer, against the level-by-level and the top-down
    definition of the tree.  The pair hash is an arbitrary function. */
module Merkle {

  import opened Wrappers

  /** The next level: pairs are hashed, an odd last node is paired with itself. */
  function Level<T>(h: (T, T) -> T, s: seq<T>): (r: seq<T>)
    ensures |r| == (|s| + 1) / 2
    ensures forall k :: 0 <= k < |r| ==> r[k] == Parent(h, s, k)
  {
    seq((|s| + 1) / 2, k requires 0 <= k < (|s| + 1) / 2 => Parent(h, s, k))
  }

  function Parent<T>(h: (T, T) -> T, s: seq<T>, k: nat): T
    requires 2 * k < |s|
  {
    h(s[2 * k], if 2 * k + 1 < |s| then s[2 * k + 1] else s[2 * k])
  }

  function Root<T>(h: (T, T) -> T, s: seq<T>): T
    requires |s| > 0
    decreases |s|
  {
    if |s| == 1 then s[0] else Root(h, Level(h, s))
  }

  /** Number of nodes at a height above n leaves. */
  function Width(n: nat, height: nat): nat {
    if height == 0 then n else (Width(n, height - 1) + 1) / 2
  }

  /** The node at a height and position, computed top-down from the leaves: a missing right
      child is the left child again. */
  function Node<T>(h: (T, T) -> T, s: seq<T>, height: nat, pos: nat): T
    requires pos < Width(|s|, height)
    decreases height
  {
    if height == 0 then s[pos]
    else
      var left := Node(h, s, height - 1, 2 * pos);
      h(left, if 2 * pos + 1 < Width(|s|, height - 1) then Node(h, s, height - 1, 2 * pos + 1) else left)
  }

  lemma {:induction false} WidthShift(n: nat, height: nat)
    ensures Width(n, height + 1) == Width((n + 1) / 2, height)
  {
    if height > 0 { WidthShift(n, height - 1); }
  }

  /** One level up is one level less to climb. */
  lemma {:induction false} NodeShift<T>(h: (T, T) -> T, s: seq<T>, height: nat, pos: nat)
    requires pos < Width(|s|, height + 1)
    ensures Width(|s|, height + 1) == Width(|Level(h, s)|, height)
    ensures Node(h, s, height + 1, pos) == Node(h, Level(h, s), height, pos)
    decreases height
  {
    WidthShift(|s|, height);
    if height > 0 {
      WidthShift(|s|, height - 1);
      NodeShift(h, s, height - 1, 2 * pos);
      if 2 * pos + 1 < Width(|s|, height) { NodeShift(h, s, height - 1, 2 * pos + 1); }
    }
  }

  /** The level-by-level root is the single node at the top of the tree. */
  lemma {:induction false} RootIsTopNode<T>(h: (T, T) -> T, s: seq<T>, height: nat)
    requires |s| > 0 && Width(|s|, height) == 1 && (height > 0 ==> Width(|s|, height - 1) > 1)
    ensures Root(h, s) == Node(h, s, height, 0)
    decreases height
  {
    if height > 0 {
      NodeShift(h, s, height - 1, 0);
      if height > 1 { WidthShift(|s|, height - 2); }
      WidthPositive(|s|, height - 1);
      if |s| > 1 { RootIsTopNode(h, Level(h, s), height - 1); }
    }
  }

  lemma {:induction false} WidthPositive(n: nat, height: nat)
    ensures n > 0 ==> Width(n, height) > 0
    ensures n <= 1 ==> Width(n, height) == n
  {
    if height > 0 { WidthPositive(n, height - 1); }
  }

  /** Every tree has a top. */
  lemma {:induction false} TopExists(n: nat) returns (height: nat)
    requires n > 0
    ensures Width(n, height) == 1 && (height > 0 ==> Width(n, height - 1) > 1)
    decreases n
  {
    if n == 1 {
      height := 0;
    } else {
      var up := TopExists((n + 1) / 2);
      WidthShift(n, up);
      if up > 0 { WidthShift(n, up - 1); }
      height := up + 1;
    }
  }

  /** One level of the in-place reduction: every node is read before its slot is overwritten. */
  method ReduceLevel<T>(h: (T, T) -> T, hashes: array<T>, count: nat)
    requires 1 < count <= hashes.Length
    modifies hashes
    ensures hashes[..(count + 1) / 2] == Level(h, old(hashes[..count]))
  {
    ghost var was := hashes[..count];
    ghost var next := Level(h, was);
    var index := 0;
    ghost var done := 0;
    hide *;
    while index < count
      invariant index == 2 * done && done <= |next|
      invariant hashes[..done] == next[..done]
      invariant index <= count ==> hashes[index..count] == was[index..]
    {
      var right := if index + 1 < count then index + 1 else index;
      assert hashes[index] == was[index] by { assert hashes[index..count][0] == was[index..][0]; }
      assert hashes[right] == was[right] by {
        assert hashes[index..count][right - index] == was[index..][right - index];
      }
      ParentOf(h, was, done);
      ghost var front, rest := hashes[..done], hashes[index..count];
      assert index / 2 == done;
      hashes[index / 2] := h(hashes[index], hashes[right]);
      index, done := index + 2, done + 1;
      assert hashes[..done] == front + [next[done - 1]];
      if index <= count { assert hashes[index..count] == rest[2..] && was[index..] == was[index - 2..][2..]; }
    }
  }

  lemma ParentOf<T>(h: (T, T) -> T, s: seq<T>, k: nat)
    requires 2 * k < |s|
    ensures Level(h, s)[k] == h(s[2 * k], s[if 2 * k + 1 < |s| then 2 * k + 1 else 2 * k])
  {
  }

  /** The whole reduction leaves the Merkle root in the first slot. */
  method Reduce<T>(h: (T, T) -> T, hashes: array<T>)
    requires hashes.Length > 0
    modifies hashes
    ensures hashes[0] == Root(h, old(hashes[..]))
  {
    ghost var was := hashes[..];
    var count := hashes.Length;
    assert hashes[..count] == was;
    while count > 1
      invariant 1 <= count <= hashes.Length && Root(h, hashes[..count]) == Root(h, was)
    {
      ghost var level := hashes[..count];
      ReduceLevel(h, hashes, count);
      count := (count + 1) / 2;
      assert hashes[..count] == Level(h, level);
    }
  }

  /** The leaves: the coinbase first, then the transactions; None stands for data that cannot
      be built or decoded. */
  function Leaves<T>(coinbase: Option<T>, txs: seq<Option<T>>): Option<seq<T>>
  {
    if coinbase.None? then None
    else if txs == [] then Some([coinbase.v])
    else
      var front := Leaves(coinbase, txs[..|txs| - 1]);
      if front.None? || txs[|txs| - 1].None? then None else Some(front.v + [txs[|txs| - 1].v])
  }

  lemma {:induction false} LeavesAre<T>(coinbase: Option<T>, txs: seq<Option<T>>)
    ensures Leaves(coinbase, txs).Some? <==> coinbase.Some? && forall i :: 0 <= i < |txs| ==> txs[i].Some?
    ensures Leaves(coinbase, txs).Some? ==>
              && |Leaves(coinbase, txs).v| == |txs| + 1 && Leaves(coinbase, txs).v[0] == coinbase.v
              && forall i :: 0 <= i < |txs| ==> Leaves(coinbase, txs).v[i + 1] == txs[i].v
  {
    if txs != [] { LeavesAre(coinbase, txs[..|txs| - 1]); }
  }

  /** build_merkle_root: no root as soon as one leaf is unusable. */
  method BuildMerkleRoot<T(0)>(h: (T, T) -> T, coinbase: Option<T>, txs: seq<Option<T>>) returns (root: Option<T>)
    ensures root.Some? <==> Leaves(coinbase, txs).Some?
    ensures root.Some? ==> |Leaves(coinbase, txs).v| > 0 && root.v == Root(h, Leaves(coinbase, txs).v)
  {
    LeavesAre(coinbase, txs);
    if coinbase.None? { return None; }
    var hashes := new T[|txs| + 1];
    hashes[0] := coinbase.v;
    for i := 0 to |txs|
      invariant hashes[0] == coinbase.v
      invariant forall k :: 0 <= k < i ==> txs[k].Some? && hashes[k + 1] == txs[k].v
    {
      if txs[i].None? { return None; }
      hashes[i + 1] := txs[i].v;
    }
    forall m | 0 <= m < hashes.Length ensures hashes[m] == Leaves(coinbase, txs).v[m] {
      if m > 0 { assert hashes[m - 1 + 1] == txs[m - 1].v; }
    }
    assert hashes[..] == Leaves(coinbase, txs).v;
    Reduce(h, hashes);
    root := Some(hashes[0]);
  }
}
