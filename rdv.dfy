/**
  Rendezvous (highest-random-weight) node selection over a set of string labels.

  A selector keeps a label-to-slot map and two parallel sequences: the labels and
  their precomputed hashes. A key is routed to the node whose mixed score
  xorshiftMult64(hash(key) ^ nodeHash) is largest, the earliest slot winning ties.
  The string hash is injected by the caller and is a parameter of the model.
 */
module Rendezvous {

  /* ---------------------------------------------------------------------- */
  /* The 64-bit mixer                                                        */
  /* ---------------------------------------------------------------------- */

  /**
    xorshift steps right 12, left 25, right 27, then multiplication by the odd constant
    2685821657736338717, wrapping modulo 2^64.
   */
  function XorshiftMult64(x: bv64): (r: bv64)
    ensures x == 0 ==> r == 0
    ensures Unmix(r) == x
  {
    var a := x ^ (x >> 12);
    var b := a ^ (a << 25);
    var c := b ^ (b >> 27);
    UndoMix(x, a, b, c);
    c * 2685821657736338717
  }

  /**
    Inverse of XorshiftMult64: multiplies by 6415128727920758069, the inverse of the
    multiplier modulo 2^64, then undoes each xorshift in reverse order.
   */
  function Unmix(r: bv64): bv64 {
    UnshiftRight12(UnshiftLeft25(UnshiftRight27(r * 6415128727920758069)))
  }

  function UnshiftRight27(c: bv64): bv64 {
    c ^ (c >> 27) ^ (c >> 54)
  }

  function UnshiftLeft25(b: bv64): bv64 {
    b ^ (b << 25) ^ (b << 50)
  }

  function UnshiftRight12(a: bv64): bv64 {
    a ^ (a >> 12) ^ (a >> 24) ^ (a >> 36) ^ (a >> 48) ^ (a >> 60)
  }

  /** Each step of the mixer is undone by the matching step of Unmix. */
  lemma UndoMix(x: bv64, a: bv64, b: bv64, c: bv64)
    requires a == x ^ (x >> 12) && b == a ^ (a << 25) && c == b ^ (b >> 27)
    ensures Unmix(c * 2685821657736338717) == x
  {
    assert (c * 2685821657736338717) * 6415128727920758069 == c;
    assert UnshiftRight27(c) == b;
    assert UnshiftLeft25(b) == a;
    assert UnshiftRight12(a) == x;
  }

  /** The mixer is a bijection of 64-bit words: distinct inputs never collide. */
  lemma MixInjective(x: bv64, y: bv64)
    ensures XorshiftMult64(x) == XorshiftMult64(y) ==> x == y
  {
  }

  lemma XorCancel(k: bv64, h: bv64)
    ensures (k ^ h) ^ k == h
  {
  }

  /** The score of a node for a key: the mixed xor of the two hashes. */
  function Score(keyHash: bv64, nodeHash: bv64): bv64 {
    XorshiftMult64(keyHash ^ nodeHash)
  }

  function Unscore(keyHash: bv64, score: bv64): bv64 {
    Unmix(score) ^ keyHash
  }
  lemma ScoreRoundTrip(keyHash: bv64, h: bv64)
    ensures Unscore(keyHash, Score(keyHash, h)) == h
  {
    var x := keyHash ^ h;
    var r := Score(keyHash, h);
    assert r == XorshiftMult64(x);
    assert Unmix(r) == x;
    XorCancel(keyHash, h);
  }
  lemma ScoreInjective(keyHash: bv64, h1: bv64, h2: bv64)
    ensures Score(keyHash, h1) == Score(keyHash, h2) ==> h1 == h2
  {
    ScoreRoundTrip(keyHash, h1);
    ScoreRoundTrip(keyHash, h2);
  }

  lemma BvIntInjective(x: bv64, y: bv64)
    ensures x as int == y as int ==> x == y
  {
    assert (x as int) as bv64 == x;
    assert (y as int) as bv64 == y;
  }

  /** Distinct node hashes give distinct unsigned score values. */
  lemma ScoreValueInjective(keyHash: bv64, h1: bv64, h2: bv64)
    ensures Score(keyHash, h1) as int == Score(keyHash, h2) as int ==> h1 == h2
  {
    BvIntInjective(Score(keyHash, h1), Score(keyHash, h2));
    ScoreInjective(keyHash, h1, h2);
  }

  /* ---------------------------------------------------------------------- */
  /* Selection by maximal score                                              */
  /* ---------------------------------------------------------------------- */

  /**
    The scores of all slots for one key, as the unsigned integers they denote
    (so that comparing two of them is Go's uint64 comparison).
   */
  function Scores(hashes: seq<bv64>, keyHash: bv64): (r: seq<int>)
    ensures |r| == |hashes|
  {
    if |hashes| == 0 then []
    else Scores(hashes[..|hashes| - 1], keyHash) + [Score(keyHash, hashes[|hashes| - 1]) as int]
  }

  /** Entry i of the scores is slot i's score. */
  lemma {:induction false} ScoreAt(hashes: seq<bv64>, keyHash: bv64, i: nat)
    requires i < |hashes|
    ensures Scores(hashes, keyHash)[i] == Score(keyHash, hashes[i]) as int
  {
    if i < |hashes| - 1 {
      ScoreAt(hashes[..|hashes| - 1], keyHash, i);
    }
  }

  /** The score of slot i for a key, as Lookup's loop computes it. */
  method ScoreSlot(hashes: seq<bv64>, keyHash: bv64, i: nat) returns (s: int)
    requires i < |hashes|
    ensures s == Scores(hashes, keyHash)[i]
  {
    s := XorshiftMult64(keyHash ^ hashes[i]) as int;
    ScoreAt(hashes, keyHash, i);
  }

  /** Slot m holds the maximal score, and no earlier slot reaches it. */
  ghost predicate FirstMax(scores: seq<int>, m: nat) {
    && m < |scores|
    && (forall i :: 0 <= i < |scores| ==> scores[i] <= scores[m])
    && (forall i :: 0 <= i < m ==> scores[i] < scores[m])
  }

  /** The winning slot is determined by the scores: lookups are deterministic. */
  lemma FirstMaxUnique(scores: seq<int>, m1: nat, m2: nat)
    requires FirstMax(scores, m1) && FirstMax(scores, m2)
    ensures m1 == m2
  {
    assert scores[m1] <= scores[m2] && scores[m2] <= scores[m1];
  }

  /** Appending a node keeps the old winner unless the new node scores strictly higher. */
  lemma AppendKeepsOrTakes(scores: seq<int>, s: int, m: nat)
    requires FirstMax(scores, m)
    ensures FirstMax(scores + [s], if s > scores[m] then |scores| else m)
  {
  }

  /** Appending a node leaves the scores of the earlier slots as they were. */
  lemma ScoresAppend(hashes: seq<bv64>, h: bv64, keyHash: bv64)
    ensures |Scores(hashes + [h], keyHash)| == |hashes| + 1
    ensures Scores(hashes + [h], keyHash)[..|hashes|] == Scores(hashes, keyHash)
  {
    assert (hashes + [h])[..|hashes|] == hashes;
  }

  /** Slot i removed by moving the last slot into it; the order of the other slots is kept. */
  function SwapRemove<T>(s: seq<T>, i: nat): (r: seq<T>)
    requires i < |s|
    ensures |r| == |s| - 1
    ensures forall j :: 0 <= j < |r| && j != i ==> r[j] == s[j]
    ensures i < |r| ==> r[i] == s[|s| - 1]
    ensures multiset(r) + multiset{s[i]} == multiset(s)
  {
    var last := |s| - 1;
    if i == last then
      assert s == s[..last] + [s[last]];
      s[..last]
    else
      assert s == s[..i] + [s[i]] + s[i + 1..last] + [s[last]];
      s[..i] + [s[last]] + s[i + 1..last]
  }

  /** Swap-remove as the source spells it: overwrite slot i with the last slot, then drop the last. */
  lemma UpdateThenTruncate<T>(s: seq<T>, i: nat)
    requires i < |s|
    ensures s[i := s[|s| - 1]][..|s| - 1] == SwapRemove(s, i)
  {
  }

  /** All elements pairwise distinct. */
  ghost predicate Distinct<T>(s: seq<T>) {
    forall i, j :: 0 <= i < j < |s| ==> s[i] != s[j]
  }

  /** Swap-removing from distinct elements keeps them distinct and drops the removed one. */
  lemma SwapRemoveDistinct<T>(s: seq<T>, i: nat)
    requires Distinct(s) && i < |s|
    ensures Distinct(SwapRemove(s, i))
    ensures forall j :: 0 <= j < |s| - 1 ==> SwapRemove(s, i)[j] != s[i]
  {
    var r := SwapRemove(s, i);
    forall a, b | 0 <= a < b < |r| ensures r[a] != r[b] {
      var sa := if a == i then |s| - 1 else a;
      var sb := if b == i then |s| - 1 else b;
      assert r[a] == s[sa] && r[b] == s[sb];
    }
    forall j | 0 <= j < |r| ensures r[j] != s[i] {
      var sj := if j == i then |s| - 1 else j;
      assert r[j] == s[sj];
    }
  }

  /** Distinct node hashes give distinct scores for every key. */
  lemma DistinctScores(hashes: seq<bv64>, keyHash: bv64)
    requires Distinct(hashes)
    ensures Distinct(Scores(hashes, keyHash))
  {
    var r := Scores(hashes, keyHash);
    forall i, j | 0 <= i < j < |r| ensures r[i] != r[j] {
      ScoreAt(hashes, keyHash, i);
      ScoreAt(hashes, keyHash, j);
      ScoreValueInjective(keyHash, hashes[i], hashes[j]);
    }
  }

  /** Slots holding the same hash hold the same score. */
  lemma SameHashSameScore(h1: seq<bv64>, h2: seq<bv64>, keyHash: bv64, j1: nat, j2: nat)
    requires j1 < |h1| && j2 < |h2| && h1[j1] == h2[j2]
    ensures Scores(h1, keyHash)[j1] == Scores(h2, keyHash)[j2]
  {
    ScoreAt(h1, keyHash, j1);
    ScoreAt(h2, keyHash, j2);
  }

  /** Swap-removing a slot swap-removes its score. */
  lemma ScoresSwapRemove(hashes: seq<bv64>, i: nat, keyHash: bv64)
    requires i < |hashes|
    ensures Scores(SwapRemove(hashes, i), keyHash) == SwapRemove(Scores(hashes, keyHash), i)
  {
    var a := Scores(SwapRemove(hashes, i), keyHash);
    var b := SwapRemove(Scores(hashes, keyHash), i);
    var r := SwapRemove(hashes, i);
    forall j | 0 <= j < |a| ensures a[j] == b[j] {
      var src := if j == i then |hashes| - 1 else j;
      assert r[j] == hashes[src];
      SameHashSameScore(r, hashes, keyHash, j, src);
    }
  }

  /**
    Removing a node that is not the winner keeps the winner, now at its new slot,
    when no two scores tie.
   */
  lemma RemoveKeepsWinner(scores: seq<int>, i: nat, m: nat)
    requires FirstMax(scores, m) && i < |scores| && m != i
    requires Distinct(scores)
    ensures FirstMax(SwapRemove(scores, i), if m == |scores| - 1 then i else m)
  {
    var r := SwapRemove(scores, i);
    var m' := if m == |scores| - 1 then i else m;
    assert r[m'] == scores[m];
    forall j | 0 <= j < |r| && j != m'
      ensures r[j] < r[m']
    {
      var src := if j == i then |scores| - 1 else j;
      assert r[j] == scores[src] && src != m;
    }
  }

  /**
    With distinct node hashes, the winner of a key survives the swap-removal of any other
    slot, and the new winner is the old one at its new slot.
   */
  lemma WinnerSurvivesRemove(hashes: seq<bv64>, keyHash: bv64, i: nat, m: nat, m': nat)
    requires Distinct(hashes) && i < |hashes| && m != i
    requires FirstMax(Scores(hashes, keyHash), m)
    requires FirstMax(Scores(SwapRemove(hashes, i), keyHash), m')
    ensures m' == if m == |hashes| - 1 then i else m
  {
    var scores := Scores(hashes, keyHash);
    ScoresSwapRemove(hashes, i, keyHash);
    DistinctScores(hashes, keyHash);
    RemoveKeepsWinner(scores, i, m);
    FirstMaxUnique(SwapRemove(scores, i), m', if m == |hashes| - 1 then i else m);
  }

  /** The slot Go's map lookup yields: an absent label gives the zero value, slot 0. */
  function SlotOf(nodes: map<string, int>, node: string): (idx: int)
    ensures node !in nodes ==> idx == 0
    ensures node in nodes ==> idx == nodes[node]
  {
    if node in nodes then nodes[node] else 0
  }

  /** A failed slice bounds check: the index read and the slice's length. */
  datatype BoundsFault = IndexOutOfRange(index: int, length: nat)

  /**
    Remove as written: after looking up the slot, it reads nodeStr[l] with l the length of
    nodeStr, so the bounds check for that read fails in every state.
   */
  function RemoveAsWritten(nodes: map<string, int>, nodeStr: seq<string>, node: string): (fault: BoundsFault)
    ensures fault.length == |nodeStr|
    ensures !(0 <= fault.index < fault.length)
  {
    var l := |nodeStr|;
    IndexOutOfRange(l, |nodeStr|)
  }

  /* ---------------------------------------------------------------------- */
  /* The selector                                                            */
  /* ---------------------------------------------------------------------- */

  /** p is the last slot of s that holds l. */
  ghost predicate IsLastIndex(s: seq<string>, l: string, p: int) {
    0 <= p < |s| && s[p] == l && forall j :: p < j < |s| ==> s[j] != l
  }

  /** The parallel sequences agree: one precomputed hash per label. */
  ghost predicate InStep(hash: string -> bv64, labels: seq<string>, hashes: seq<bv64>) {
    && |labels| == |hashes|
    && forall i :: 0 <= i < |labels| ==> hashes[i] == hash(labels[i])
  }

  /** Every mapped label points at a slot that holds it. */
  ghost predicate SlotsHold(nodes: map<string, int>, labels: seq<string>) {
    forall l :: l in nodes ==> 0 <= nodes[l] < |labels| && labels[nodes[l]] == l
  }

  /** The labels are distinct and each of them is mapped (so, with SlotsHold, nodes[labels[i]] == i). */
  ghost predicate AllMapped(nodes: map<string, int>, labels: seq<string>) {
    && Distinct(labels)
    && forall i :: 0 <= i < |labels| ==> labels[i] in nodes
  }

  /** The map holds exactly the labels, each at the last slot holding it (what New builds). */
  ghost predicate LastSlots(nodes: map<string, int>, labels: seq<string>) {
    && (forall l :: l in nodes <==> l in labels)
    && (forall l :: l in nodes ==> IsLastIndex(labels, l, nodes[l]))
  }

  /** Mapping one more label to the next slot keeps LastSlots. */
  lemma LastSlotsStep(nodes: map<string, int>, labels: seq<string>, x: string)
    requires LastSlots(nodes, labels)
    ensures LastSlots(nodes[x := |labels|], labels + [x])
  {
    var nodes', labels' := nodes[x := |labels|], labels + [x];
    forall l | l in nodes' ensures IsLastIndex(labels', l, nodes'[l]) {
      if l != x {
        assert IsLastIndex(labels, l, nodes[l]);
      }
    }
    forall l ensures l in nodes' <==> l in labels' {
      assert l in labels' <==> l in labels || l == x;
    }
  }

  /** LastSlots gives SlotsHold, and AllMapped when the labels are distinct. */
  lemma LastSlotsIndexed(nodes: map<string, int>, labels: seq<string>)
    requires LastSlots(nodes, labels)
    ensures SlotsHold(nodes, labels)
    ensures Distinct(labels) ==> AllMapped(nodes, labels)
  {
    forall j | 0 <= j < |labels| ensures labels[j] in nodes {
      assert labels[j] in labels;
    }
  }

  /**
    The map after removing the label at slot SlotOf(nodes, node): the label goes, and the
    label moved out of the last slot is re-pointed at the freed slot.
   */
  function RemovedMap(nodes: map<string, int>, labels: seq<string>, node: string): map<string, int>
    requires |labels| > 0
  {
    var nidx := SlotOf(nodes, node);
    var last := |labels| - 1;
    if nidx < last then (nodes - {node})[labels[last] := nidx] else nodes - {node}
  }

  /**
    Removing a label the map does not hold acts on slot 0: the map is left as it was,
    except that the last label is re-pointed to slot 0 when there is more than one slot.
   */
  lemma RemoveAbsent(nodes: map<string, int>, labels: seq<string>, node: string)
    requires node !in nodes && |labels| > 0
    ensures SlotOf(nodes, node) == 0
    ensures RemovedMap(nodes, labels, node) == if |labels| > 1 then nodes[labels[|labels| - 1] := 0] else nodes
  {
    assert nodes - {node} == nodes;
  }

  /** Swap-removing the same slot from both sequences keeps them in step. */
  lemma RemoveKeepsInStep(hash: string -> bv64, labels: seq<string>, hashes: seq<bv64>, i: nat)
    requires InStep(hash, labels, hashes) && i < |labels|
    ensures InStep(hash, SwapRemove(labels, i), SwapRemove(hashes, i))
  {
    var rl, rh := SwapRemove(labels, i), SwapRemove(hashes, i);
    forall j | 0 <= j < |rl| ensures rh[j] == hash(rl[j]) {
      var src := if j == i then |labels| - 1 else j;
      assert rl[j] == labels[src] && rh[j] == hashes[src];
    }
  }

  /** Removing a mapped label keeps every remaining map entry pointing at its label. */
  lemma RemoveKeepsSlots(nodes: map<string, int>, labels: seq<string>, node: string)
    requires SlotsHold(nodes, labels) && node in nodes
    ensures SlotsHold(RemovedMap(nodes, labels, node), SwapRemove(labels, nodes[node]))
  {
    var nidx := nodes[node];
    var last := |labels| - 1;
    var nodes' := RemovedMap(nodes, labels, node);
    var labels' := SwapRemove(labels, nidx);
    forall x | x in nodes' ensures 0 <= nodes'[x] < |labels'| && labels'[nodes'[x]] == x {
      if nidx < last && x == labels[last] {
        assert nodes'[x] == nidx;
      } else {
        var p := nodes[x];
        assert labels[p] == x && x != node && nodes'[x] == p;
        assert p != nidx && p != last;
      }
    }
  }

  /**
    Removing a mapped label from distinct, all-mapped labels keeps them so, and takes
    exactly that label out of the multiset of labels.
   */
  lemma RemoveKeepsAllMapped(nodes: map<string, int>, labels: seq<string>, node: string)
    requires SlotsHold(nodes, labels) && AllMapped(nodes, labels) && node in nodes
    ensures AllMapped(RemovedMap(nodes, labels, node), SwapRemove(labels, nodes[node]))
    ensures multiset(SwapRemove(labels, nodes[node])) + multiset{node} == multiset(labels)
  {
    var nidx := nodes[node];
    var nodes' := RemovedMap(nodes, labels, node);
    var labels' := SwapRemove(labels, nidx);
    SwapRemoveDistinct(labels, nidx);
    forall j | 0 <= j < |labels'| ensures labels'[j] in nodes' {
      if j != nidx {
        assert labels'[j] == labels[j] && labels[j] in nodes;
        assert labels[j] != labels[nidx];
      }
    }
  }

  /** What Remove relies on: the spelled-out swap-remove, and the invariants kept by it. */
  lemma RemoveKeepsInvariants(hash: string -> bv64, nodes: map<string, int>, labels: seq<string>, hashes: seq<bv64>, node: string)
    requires InStep(hash, labels, hashes) && |labels| > 0 && 0 <= SlotOf(nodes, node) < |labels|
    ensures var i := SlotOf(nodes, node);
      var last := |labels| - 1;
      && labels[i := labels[last]][..last] == SwapRemove(labels, i)
      && hashes[i := hashes[last]][..last] == SwapRemove(hashes, i)
      && InStep(hash, SwapRemove(labels, i), SwapRemove(hashes, i))
      && (SlotsHold(nodes, labels) && node in nodes ==>
            SlotsHold(RemovedMap(nodes, labels, node), SwapRemove(labels, i)))
      && (SlotsHold(nodes, labels) && node in nodes && AllMapped(nodes, labels) ==>
            AllMapped(RemovedMap(nodes, labels, node), SwapRemove(labels, i))
            && multiset(SwapRemove(labels, i)) + multiset{node} == multiset(labels))
  {
    var i := SlotOf(nodes, node);
    UpdateThenTruncate(labels, i);
    UpdateThenTruncate(hashes, i);
    RemoveKeepsInStep(hash, labels, hashes, i);
    if SlotsHold(nodes, labels) && node in nodes {
      RemoveKeepsSlots(nodes, labels, node);
      if AllMapped(nodes, labels) {
        RemoveKeepsAllMapped(nodes, labels, node);
      }
    }
  }

  /**
    Removing the absent label "z" from ["a", "b"] removes slot 0 and leaves "a" mapped to
    slot 0, which now holds "b": the map no longer points every label at its own slot, yet
    the slot of "a" is still in range, so Remove("a") may follow.
   */
  lemma RemoveAbsentLeavesStaleSlot()
    ensures var nodes, labels := map["a" := 0, "b" := 1], ["a", "b"];
      var nodes', labels' := RemovedMap(nodes, labels, "z"), SwapRemove(labels, SlotOf(nodes, "z"));
      && nodes' == map["a" := 0, "b" := 0]
      && labels' == ["b"]
      && !SlotsHold(nodes', labels')
      && 0 <= SlotOf(nodes', "a") < |labels'|
  {
    var nodes, labels := map["a" := 0, "b" := 1], ["a", "b"];
    var labels' := SwapRemove(labels, 0);
    assert labels'[0] == "b";
    assert labels' == ["b"];
    var nodes' := RemovedMap(nodes, labels, "z");
    assert nodes' == (nodes - {"z"})["b" := 0];
    assert nodes' == map["a" := 0, "b" := 0];
    assert labels'[nodes'["a"]] != "a";
  }

  class Rendezvous {
    var nodes: map<string, int>
    var nodeStr: seq<string>
    var nodeHashValue: seq<bv64>
    const hash: string -> bv64

    /** One precomputed hash per label. */
    ghost predicate Lockstep()
      reads this
    {
      InStep(hash, nodeStr, nodeHashValue)
    }

    /** Lockstep, and every mapped label points at a slot that holds it. */
    ghost predicate Valid()
      reads this
    {
      Lockstep() && SlotsHold(nodes, nodeStr)
    }

    /** Valid with distinct labels, each of them mapped (so nodes[nodeStr[i]] == i). */
    ghost predicate Indexed()
      reads this
    {
      Valid() && AllMapped(nodes, nodeStr)
    }

    /** Builds a selector over the labels in order; for a repeated label the last slot wins the map. */
    constructor New(labels: seq<string>, hash: string -> bv64)
      ensures this.hash == hash
      ensures nodeStr == labels
      ensures |nodeHashValue| == |labels|
      ensures forall i :: 0 <= i < |labels| ==> nodeHashValue[i] == hash(labels[i])
      ensures LastSlots(nodes, labels)
      ensures Valid()
      ensures Distinct(labels) ==> Indexed()
    {
      this.hash := hash;
      nodes := map[];
      nodeStr := seq(|labels|, _ => "");
      nodeHashValue := seq(|labels|, _ => 0);
      new;
      var i := 0;
      while i < |labels|
        invariant 0 <= i <= |labels|
        invariant |nodeStr| == |labels| && |nodeHashValue| == |labels|
        invariant forall j :: 0 <= j < i ==> nodeStr[j] == labels[j]
        invariant forall j :: 0 <= j < i ==> nodeHashValue[j] == hash(labels[j])
        invariant LastSlots(nodes, labels[..i])
      {
        var n := labels[i];
        LastSlotsStep(nodes, labels[..i], n);
        assert labels[..i + 1] == labels[..i] + [n];
        nodes := nodes[n := i];
        nodeStr := nodeStr[i := n];
        nodeHashValue := nodeHashValue[i := hash(n)];
        i := i + 1;
      }
      assert labels[..i] == labels;
      LastSlotsIndexed(nodes, labels);
    }

    /** The label whose score for k is maximal, the earliest slot winning ties. */
    method Lookup(k: string) returns (r: string, ghost midx: nat)
      requires Lockstep() && |nodeHashValue| > 0
      ensures FirstMax(Scores(nodeHashValue, hash(k)), midx)
      ensures r == nodeStr[midx] && r in nodeStr
    {
      var khash := hash(k);
      ghost var scores := Scores(nodeHashValue, khash);
      var m := 0;
      // uint64 values, compared as the unsigned integers they denote
      var mhash := ScoreSlot(nodeHashValue, khash, 0);
      var i := 1;
      while i < |nodeHashValue|
        invariant 1 <= i <= |nodeHashValue|
        invariant m < i
        invariant mhash == scores[m]
        invariant FirstMax(scores[..i], m)
      {
        var h := ScoreSlot(nodeHashValue, khash, i);
        if h > mhash {
          m := i;
          mhash := h;
        }
        assert scores[..i + 1] == scores[..i] + [scores[i]];
        i := i + 1;
      }
      assert scores[..i] == scores;
      midx := m;
      r := nodeStr[m];
    }

    /** Appends a node at the end; every earlier slot is unchanged. */
    method Add(node: string)
      modifies this
      ensures nodes == old(nodes)[node := |old(nodeStr)|]
      ensures nodeStr == old(nodeStr) + [node]
      ensures nodeHashValue == old(nodeHashValue) + [hash(node)]
      ensures old(Lockstep()) ==> Lockstep()
      ensures old(Valid()) ==> Valid()
      ensures old(Indexed()) && node !in old(nodeStr) ==> Indexed()
    {
      nodes := nodes[node := |nodeStr|];
      nodeStr := nodeStr + [node];
      nodeHashValue := nodeHashValue + [hash(node)];
    }

    /**
      Swap-remove with the last slot (index length - 1). A label that is not mapped
      removes slot 0, as Go's zero value for a missing key makes it.
     */
    method Remove(node: string)
      requires Lockstep() && |nodeStr| > 0 && 0 <= SlotOf(nodes, node) < |nodeStr|
      modifies this
      ensures nodeStr == SwapRemove(old(nodeStr), SlotOf(old(nodes), node))
      ensures nodeHashValue == SwapRemove(old(nodeHashValue), SlotOf(old(nodes), node))
      ensures nodes == RemovedMap(old(nodes), old(nodeStr), node)
      ensures Lockstep()
      ensures old(Valid()) && node in old(nodes) ==> Valid()
      ensures old(Indexed()) && node in old(nodes) ==>
                Indexed() && multiset(nodeStr) + multiset{node} == multiset(old(nodeStr))
    {
      RemoveKeepsInvariants(hash, nodes, nodeStr, nodeHashValue, node);
      RemoveSlot(node);
    }

    /**
      The statements of Remove: move the last slot into the node's slot in both sequences,
      truncate them, delete the node from the map and re-point the moved label, unless the
      removed slot was the last one.
     */
    method RemoveSlot(node: string)
      requires |nodeStr| > 0 && |nodeHashValue| == |nodeStr| && 0 <= SlotOf(nodes, node) < |nodeStr|
      modifies this
      ensures nodeStr == old(nodeStr[SlotOf(nodes, node) := nodeStr[|nodeStr| - 1]][..|nodeStr| - 1])
      ensures nodeHashValue == old(nodeHashValue[SlotOf(nodes, node) := nodeHashValue[|nodeStr| - 1]][..|nodeStr| - 1])
      ensures nodes == RemovedMap(old(nodes), old(nodeStr), node)
    {
      var nidx := SlotOf(nodes, node);
      var l := |nodeStr| - 1;
      ghost var oldNodes, oldStr := nodes, nodeStr;
      nodeStr := nodeStr[nidx := nodeStr[l]][..l];
      nodeHashValue := nodeHashValue[nidx := nodeHashValue[l]][..l];
      nodes := nodes - {node};
      if nidx < l {
        var moved := nodeStr[nidx];
        nodes := nodes[moved := nidx];
      }
      assert nodes == RemovedMap(oldNodes, oldStr, node);
    }

    /**
      After Add(x), a lookup returns its previous answer or x. It returns a different answer
      only when x's new slot scores strictly higher than every earlier slot, and then it
      always returns x.
     */
    method LookupAfterAdd(k: string, x: string) returns (before: string, after: string)
      requires Lockstep() && |nodeHashValue| > 0
      modifies this
      ensures nodeHashValue == old(nodeHashValue) + [hash(x)]
      ensures after == before || after == x
      ensures after != before ==>
                forall i :: 0 <= i < |old(nodeHashValue)| ==>
                  Scores(old(nodeHashValue), hash(k))[i] < Scores(nodeHashValue, hash(k))[|old(nodeHashValue)|]
      ensures (forall i :: 0 <= i < |old(nodeHashValue)| ==>
                 Scores(old(nodeHashValue), hash(k))[i] < Scores(nodeHashValue, hash(k))[|old(nodeHashValue)|]) ==>
                after == x
    {
      ghost var m;
      before, m := Lookup(k);
      ghost var hashes := nodeHashValue;
      ghost var scores := Scores(hashes, hash(k));
      Add(x);
      ghost var m';
      after, m' := Lookup(k);
      ghost var scores' := Scores(nodeHashValue, hash(k));
      ghost var s := scores'[|scores|];
      ScoresAppend(hashes, hash(x), hash(k));
      assert scores' == scores + [s];
      AppendKeepsOrTakes(scores, s, m);
      FirstMaxUnique(scores', m', if s > scores[m] then |scores| else m);
    }
  }
}
