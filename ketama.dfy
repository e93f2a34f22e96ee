/**
  A ketama consistent-hashing ring.

  Every real node of weight w is expanded into 40 * w replica labels "<label>-<j>"; the
  MD5 digest of each replica label is cut into four little-endian 32-bit words, and each
  word becomes one virtual node carrying the real node's label, weight and data. The
  virtual nodes are sorted by hash, and a key is routed by a binary search for its own
  hash, wrapping around to the first virtual node. MD5 is a parameter of the model.
 */
module Ketama {

  datatype Option<T> = None | Some(value: T)

  type byte = x: int | 0 <= x < 0x100
  type uint32 = x: int | 0 <= x < 0x1_0000_0000

  /** An MD5 digest: sixteen bytes. */
  type Digest = d: seq<byte> | |d| == 16 witness seq(16, _ => 0)

  /* ---------------------------------------------------------------------- */
  /* Nodes                                                                   */
  /* ---------------------------------------------------------------------- */

  /** A ring node: the real node's label, its opaque data, its weight and a 32-bit hash. */
  datatype Node<D> = Node(nodeLabel: string, data: D, weight: nat, hash: uint32)
  {
    function Key(): string { nodeLabel }
    function Data(): D { data }
    function Weight(): nat { weight }
  }

  /** A real node as callers create it: its hash field is left at zero. */
  function NewNode<D>(nodeLabel: string, data: D, weight: nat): (n: Node<D>)
    ensures n.Key() == nodeLabel && n.Data() == data && n.Weight() == weight
    ensures n.hash == 0
  {
    Node(nodeLabel, data, weight, 0)
  }

  /** The sort order of the ring: by hash alone. */
  function Less<D>(a: Node<D>, b: Node<D>): bool {
    a.hash < b.hash
  }

  /** Less is a strict weak order: irreflexive, transitive, and incomparable means equal hashes. */
  lemma LessIsStrictWeakOrder<D>(a: Node<D>, b: Node<D>, c: Node<D>)
    ensures !Less(a, a)
    ensures Less(a, b) && Less(b, c) ==> Less(a, c)
    ensures !Less(a, b) && !Less(b, a) <==> a.hash == b.hash
  {
  }

  /** No entry is Less than an earlier one. */
  ghost predicate SortedByHash<D>(s: seq<Node<D>>) {
    forall i, j :: 0 <= i < j < |s| ==> s[i].hash <= s[j].hash
  }

  /* ---------------------------------------------------------------------- */
  /* Hashing a label                                                         */
  /* ---------------------------------------------------------------------- */

  /**
    Word number align of the label's digest, read little-endian: digest bytes
    4 * align .. 4 * align + 3 become bits 0-7, 8-15, 16-23 and 24-31. Masking a byte
    with 0xff leaves it unchanged, and the four bytes occupy disjoint bits, so the
    shifts and ors are written as a sum.
   */
  function AlignHash(md5: string -> Digest, nodeLabel: string, align: int): uint32
    requires 0 <= align <= 3
  {
    var b := md5(nodeLabel);
    LittleEndianWord(b[0 + align * 4], b[1 + align * 4], b[2 + align * 4], b[3 + align * 4]);
    (b[3 + align * 4] as int) * 0x100_0000 + (b[2 + align * 4] as int) * 0x1_0000
      + (b[1 + align * 4] as int) * 0x100 + (b[0 + align * 4] as int)
  }

  /** The word's four bytes, low to high, are digest bytes 4 * align .. 4 * align + 3. */
  lemma AlignHashBytes(md5: string -> Digest, nodeLabel: string, align: int)
    requires 0 <= align <= 3
    ensures var r, d := AlignHash(md5, nodeLabel, align), md5(nodeLabel);
      && r % 0x100 == d[4 * align]
      && r / 0x100 % 0x100 == d[4 * align + 1]
      && r / 0x1_0000 % 0x100 == d[4 * align + 2]
      && r / 0x100_0000 == d[4 * align + 3]
  {
    var b := md5(nodeLabel);
    LittleEndianWord(b[0 + align * 4], b[1 + align * 4], b[2 + align * 4], b[3 + align * 4]);
  }

  /** Four bytes assembled little-endian: each byte is recovered from its own bits. */
  lemma LittleEndianWord(b0: byte, b1: byte, b2: byte, b3: byte)
    ensures var w := b3 * 0x100_0000 + b2 * 0x1_0000 + b1 * 0x100 + b0;
      && w < 0x1_0000_0000
      && w % 0x100 == b0
      && w / 0x100 % 0x100 == b1
      && w / 0x1_0000 % 0x100 == b2
      && w / 0x100_0000 == b3
  {
    var w := b3 * 0x100_0000 + b2 * 0x1_0000 + b1 * 0x100 + b0;
    var w1 := b3 * 0x1_0000 + b2 * 0x100 + b1;
    var w2 := b3 * 0x100 + b2;
    assert w == w1 * 0x100 + b0;
    assert w == w2 * 0x1_0000 + (b1 * 0x100 + b0);
    assert w == b3 * 0x100_0000 + (b2 * 0x1_0000 + b1 * 0x100 + b0);
    assert w1 == w2 * 0x100 + b1;
  }

  /* ---------------------------------------------------------------------- */
  /* Replica labels: "%s-%d"                                                 */
  /* ---------------------------------------------------------------------- */

  function Digit(n: nat): (c: char)
    requires n < 10
    ensures '0' <= c <= '9' && (c as int) - ('0' as int) == n
  {
    (('0' as int) + n) as char
  }

  predicate IsDigits(s: string) {
    forall i :: 0 <= i < |s| ==> '0' <= s[i] <= '9'
  }

  /** The decimal spelling of n, without leading zeros, as %d prints a non-negative int. */
  function Decimal(n: nat): (s: string)
    ensures |s| > 0 && IsDigits(s)
  {
    if n < 10 then [Digit(n)] else Decimal(n / 10) + [Digit(n % 10)]
  }

  /** The number a string of digits spells. */
  function ParseDecimal(s: string): nat
    requires IsDigits(s)
  {
    if |s| == 0 then 0
    else ParseDecimal(s[..|s| - 1]) * 10 + ((s[|s| - 1] as int) - ('0' as int))
  }

  /** Parsing a decimal spelling gives the number back. */
  lemma {:induction false} DecimalRoundTrip(n: nat)
    ensures ParseDecimal(Decimal(n)) == n
  {
    if n >= 10 {
      DecimalRoundTrip(n / 10);
      var s := Decimal(n);
      assert s[..|s| - 1] == Decimal(n / 10);
    }
  }

  /** The label of replica j of a real node. */
  function ReplicaLabel(nodeLabel: string, j: nat): string {
    nodeLabel + "-" + Decimal(j)
  }

  /** The length of the longest run of digits that s ends with. */
  function TrailingDigits(s: string): nat {
    if |s| == 0 || !('0' <= s[|s| - 1] <= '9') then 0 else 1 + TrailingDigits(s[..|s| - 1])
  }

  lemma {:induction false} TrailingDigitsOfReplica(nodeLabel: string, d: string)
    requires IsDigits(d)
    ensures TrailingDigits(nodeLabel + "-" + d) == |d|
  {
    var s := nodeLabel + "-" + d;
    if |d| > 0 {
      assert s[..|s| - 1] == nodeLabel + "-" + d[..|d| - 1];
      TrailingDigitsOfReplica(nodeLabel, d[..|d| - 1]);
    }
  }

  /**
    Replica labels are distinct: the digits after the last '-' spell the replica number,
    and the text before that '-' is the real node's label.
   */
  lemma ReplicaLabelInjective(l1: string, j1: nat, l2: string, j2: nat)
    ensures ReplicaLabel(l1, j1) == ReplicaLabel(l2, j2) ==> l1 == l2 && j1 == j2
  {
    var d1, d2 := Decimal(j1), Decimal(j2);
    var s1, s2 := ReplicaLabel(l1, j1), ReplicaLabel(l2, j2);
    TrailingDigitsOfReplica(l1, d1);
    TrailingDigitsOfReplica(l2, d2);
    if s1 == s2 {
      assert |l1| == |l2|;
      assert l1 == s1[..|l1|] && l2 == s2[..|l2|];
      assert d1 == s1[|l1| + 1..] && d2 == s2[|l2| + 1..];
      DecimalRoundTrip(j1);
      DecimalRoundTrip(j2);
    }
  }

  /* ---------------------------------------------------------------------- */
  /* The virtual nodes before sorting                                        */
  /* ---------------------------------------------------------------------- */

  /** The sum of the weights of the real nodes. */
  function SumWeights<D>(reals: seq<Node<D>>): nat {
    if |reals| == 0 then 0 else SumWeights(reals[..|reals| - 1]) + reals[|reals| - 1].weight
  }

  /** A ring is empty exactly when every real node has weight zero (in particular with no nodes). */
  lemma {:induction false} EmptyRingIff<D>(reals: seq<Node<D>>)
    ensures SumWeights(reals) == 0 <==> forall i :: 0 <= i < |reals| ==> reals[i].weight == 0
  {
    if |reals| > 0 {
      var init := reals[..|reals| - 1];
      EmptyRingIff(init);
      assert forall i :: 0 <= i < |init| ==> init[i] == reals[i];
    }
  }

  /** Weights of a prefix add up to no more than the whole. */
  lemma {:induction false} SumWeightsPrefix<D>(reals: seq<Node<D>>, i: nat)
    requires i <= |reals|
    ensures SumWeights(reals[..i]) <= SumWeights(reals)
  {
    if i < |reals| {
      assert reals[..|reals| - 1][..i] == reals[..i];
      SumWeightsPrefix(reals[..|reals| - 1], i);
    } else {
      assert reals[..i] == reals;
    }
  }

  /**
    The four virtual nodes for each of the 40 * weight replica labels of a real node, in
    order: position 4 * j + n holds word n of the digest of replica label j.
   */
  function Replicas<D>(node: Node<D>, md5: string -> Digest): (r: seq<Node<D>>)
    ensures |r| == 160 * node.weight
  {
    seq(160 * node.weight, k requires 0 <= k < 160 * node.weight =>
      Node(node.nodeLabel, node.data, node.weight, AlignHash(md5, ReplicaLabel(node.nodeLabel, k / 4), k % 4)))
  }

  /** Replica j, word n of a real node: the node's label, data and weight, and that word's hash. */
  lemma ReplicaAt<D>(node: Node<D>, md5: string -> Digest, j: nat, n: nat)
    requires j < 40 * node.weight && n < 4
    ensures 4 * j + n < |Replicas(node, md5)|
    ensures Replicas(node, md5)[4 * j + n]
         == Node(node.nodeLabel, node.data, node.weight, AlignHash(md5, ReplicaLabel(node.nodeLabel, j), n))
  {
    assert (4 * j + n) / 4 == j && (4 * j + n) % 4 == n;
  }

  /** The virtual nodes NewRing generates before sorting: each real node's replicas in turn. */
  function Expanded<D>(reals: seq<Node<D>>, md5: string -> Digest): (r: seq<Node<D>>)
    ensures |r| == 160 * SumWeights(reals)
  {
    if |reals| == 0 then []
    else Expanded(reals[..|reals| - 1], md5) + Replicas(reals[|reals| - 1], md5)
  }

  /**
    Real node i, replica j, word n sits after the 160 * (weights of nodes 0 .. i-1) entries
    of the earlier nodes, at offset 4 * j + n.
   */
  lemma {:induction false} ExpandedAt<D>(reals: seq<Node<D>>, md5: string -> Digest, i: nat, j: nat, n: nat)
    requires i < |reals| && j < 40 * reals[i].weight && n < 4
    ensures 160 * SumWeights(reals[..i]) + 4 * j + n < |Expanded(reals, md5)|
    ensures Expanded(reals, md5)[160 * SumWeights(reals[..i]) + 4 * j + n]
         == Node(reals[i].nodeLabel, reals[i].data, reals[i].weight,
                 AlignHash(md5, ReplicaLabel(reals[i].nodeLabel, j), n))
  {
    var init := reals[..|reals| - 1];
    ReplicaAt(reals[i], md5, j, n);
    if i == |reals| - 1 {
      assert reals[..i] == init;
    } else {
      assert init[..i] == reals[..i];
      ExpandedAt(init, md5, i, j, n);
    }
  }

  /** Every virtual node carries the label, data and weight of one of the real nodes. */
  lemma {:induction false} ExpandedOwned<D>(reals: seq<Node<D>>, md5: string -> Digest, e: Node<D>)
    requires e in Expanded(reals, md5)
    ensures exists i :: 0 <= i < |reals| && e.nodeLabel == reals[i].nodeLabel
              && e.data == reals[i].data && e.weight == reals[i].weight
  {
    var init := reals[..|reals| - 1];
    if e in Expanded(init, md5) {
      ExpandedOwned(init, md5, e);
      var i :| 0 <= i < |init| && e.nodeLabel == init[i].nodeLabel
              && e.data == init[i].data && e.weight == init[i].weight;
      assert init[i] == reals[i];
    } else {
      var last := reals[|reals| - 1];
      var r := Replicas(last, md5);
      var k :| 0 <= k < |r| && r[k] == e;
      assert e.nodeLabel == last.nodeLabel;
    }
  }

  /* ---------------------------------------------------------------------- */
  /* Counting the virtual nodes of a real node                               */
  /* ---------------------------------------------------------------------- */

  /** The number of entries carrying label l. */
  function CountLabel<D>(s: seq<Node<D>>, l: string): nat {
    if |s| == 0 then 0
    else CountLabel(s[..|s| - 1], l) + (if s[|s| - 1].nodeLabel == l then 1 else 0)
  }

  /** The total weight of the real nodes labelled l. */
  function LabelWeight<D>(reals: seq<Node<D>>, l: string): nat {
    if |reals| == 0 then 0
    else LabelWeight(reals[..|reals| - 1], l) + (if reals[|reals| - 1].nodeLabel == l then reals[|reals| - 1].weight else 0)
  }

  lemma {:induction false} CountAppend<D>(s: seq<Node<D>>, t: seq<Node<D>>, l: string)
    ensures CountLabel(s + t, l) == CountLabel(s, l) + CountLabel(t, l)
  {
    if |t| > 0 {
      assert (s + t)[..|s + t| - 1] == s + t[..|t| - 1];
      CountAppend(s, t[..|t| - 1], l);
    } else {
      assert s + t == s;
    }
  }

  /** Entries that all carry one label: l counts all of them or none. */
  lemma {:induction false} CountUniform<D>(s: seq<Node<D>>, owner: string, l: string)
    requires forall k :: 0 <= k < |s| ==> s[k].nodeLabel == owner
    ensures CountLabel(s, l) == if owner == l then |s| else 0
  {
    if |s| > 0 {
      CountUniform(s[..|s| - 1], owner, l);
    }
  }

  /** Label l owns 160 virtual nodes per unit of weight of the real nodes labelled l. */
  lemma {:induction false} CountExpanded<D>(reals: seq<Node<D>>, md5: string -> Digest, l: string)
    ensures CountLabel(Expanded(reals, md5), l) == 160 * LabelWeight(reals, l)
  {
    if |reals| > 0 {
      var init, last := reals[..|reals| - 1], reals[|reals| - 1];
      CountExpanded(init, md5, l);
      CountAppend(Expanded(init, md5), Replicas(last, md5), l);
      CountUniform(Replicas(last, md5), last.nodeLabel, l);
    }
  }

  /** With distinct labels, the weight of a label is that one node's weight. */
  lemma {:induction false} LabelWeightDistinct<D>(reals: seq<Node<D>>, i: nat)
    requires i < |reals|
    requires forall a, b :: 0 <= a < b < |reals| ==> reals[a].nodeLabel != reals[b].nodeLabel
    ensures LabelWeight(reals, reals[i].nodeLabel) == reals[i].weight
  {
    var init := reals[..|reals| - 1];
    if i < |reals| - 1 {
      assert init[i] == reals[i];
      LabelWeightDistinct(init, i);
    } else {
      LabelWeightAbsent(init, reals[i].nodeLabel);
    }
  }

  lemma {:induction false} LabelWeightAbsent<D>(reals: seq<Node<D>>, l: string)
    requires forall a :: 0 <= a < |reals| ==> reals[a].nodeLabel != l
    ensures LabelWeight(reals, l) == 0
  {
    if |reals| > 0 {
      LabelWeightAbsent(reals[..|reals| - 1], l);
    }
  }

  /** Taking out the entry at k leaves the other entries' multiset. */
  lemma MultisetRemoveAt<D>(b: seq<Node<D>>, k: nat)
    requires k < |b|
    ensures multiset(b[..k] + b[k + 1..]) + multiset{b[k]} == multiset(b)
  {
    assert b == b[..k] + [b[k]] + b[k + 1..];
  }

  /** Taking out the entry at k takes it out of the count. */
  lemma CountRemoveAt<D>(b: seq<Node<D>>, k: nat, l: string)
    requires k < |b|
    ensures CountLabel(b, l) == CountLabel(b[..k] + b[k + 1..], l) + (if b[k].nodeLabel == l then 1 else 0)
  {
    var x := b[k];
    assert b == (b[..k] + [x]) + b[k + 1..];
    CountAppend(b[..k] + [x], b[k + 1..], l);
    CountAppend(b[..k], [x], l);
    CountAppend(b[..k], b[k + 1..], l);
    assert CountLabel([x], l) == if x.nodeLabel == l then 1 else 0 by {
      assert [x][..0] == [];
    }
  }

  /** Adding the same element to two multisets keeps them apart or together. */
  lemma MultisetCancel<T>(m1: multiset<T>, m2: multiset<T>, x: T)
    requires m1 + multiset{x} == m2 + multiset{x}
    ensures m1 == m2
  {
    forall y ensures m1[y] == m2[y] {
      assert (m1 + multiset{x})[y] == (m2 + multiset{x})[y];
    }
  }

  /** Reordering entries does not change how many carry a label. */
  lemma {:induction false} CountPermutation<D>(a: seq<Node<D>>, b: seq<Node<D>>, l: string)
    requires multiset(a) == multiset(b)
    ensures CountLabel(a, l) == CountLabel(b, l)
    decreases |a|
  {
    if |a| > 0 {
      var init, x := a[..|a| - 1], a[|a| - 1];
      assert a == init + [x];
      assert x in multiset(b);
      var k :| 0 <= k < |b| && b[k] == x;
      var b' := b[..k] + b[k + 1..];
      MultisetRemoveAt(b, k);
      MultisetCancel(multiset(init), multiset(b'), x);
      CountPermutation(init, b', l);
      CountRemoveAt(b, k, l);
    } else {
      assert b == [];
    }
  }

  /* ---------------------------------------------------------------------- */
  /* Searching the ring                                                      */
  /* ---------------------------------------------------------------------- */

  /** Some entry has exactly hash x. */
  ghost predicate Occurs<D>(s: seq<Node<D>>, x: int) {
    exists i :: 0 <= i < |s| && s[i].hash == x
  }

  /** The first index whose hash is larger than x, or |s| when there is none. */
  function FirstAbove<D>(s: seq<Node<D>>, x: int): (t: nat)
    ensures t <= |s|
    ensures forall i :: 0 <= i < t ==> s[i].hash <= x
    ensures t < |s| ==> s[t].hash > x
  {
    if |s| == 0 || s[0].hash > x then 0 else 1 + FirstAbove(s[1..], x)
  }

  /** The first index whose hash is at least x, or |s| when there is none. */
  function FirstAtLeast<D>(s: seq<Node<D>>, x: int): (t: nat)
    ensures t <= |s|
    ensures forall i :: 0 <= i < t ==> s[i].hash < x
    ensures t < |s| ==> s[t].hash >= x
  {
    if |s| == 0 || s[0].hash >= x then 0 else 1 + FirstAtLeast(s[1..], x)
  }

  /** An index of the ring with one past the end wrapped round to the first entry. */
  function Wrap(t: nat, n: nat): (r: nat)
    requires 0 < n && t <= n
    ensures r < n && (t < n ==> r == t) && (t == n ==> r == 0)
  {
    if t == n then 0 else t
  }

  /** On a sorted ring, the entries above x are exactly those from FirstAbove on. */
  lemma FirstAboveSplits<D>(s: seq<Node<D>>, x: int)
    requires SortedByHash(s)
    ensures forall i :: 0 <= i < |s| ==> (s[i].hash > x <==> i >= FirstAbove(s, x))
  {
    var t := FirstAbove(s, x);
    forall i | t <= i < |s| ensures s[i].hash > x {
      assert s[t].hash <= s[i].hash;
    }
  }

  /** On a sorted ring, the entries at least x are exactly those from FirstAtLeast on. */
  lemma FirstAtLeastSplits<D>(s: seq<Node<D>>, x: int)
    requires SortedByHash(s)
    ensures forall i :: 0 <= i < |s| ==> (s[i].hash >= x <==> i >= FirstAtLeast(s, x))
  {
    var t := FirstAtLeast(s, x);
    forall i | t <= i < |s| ensures s[i].hash >= x {
      assert s[t].hash <= s[i].hash;
    }
  }

  /** Where x lies strictly between two neighbours (or below the first entry), x is no entry's hash. */
  lemma GapMeansAbsent<D>(s: seq<Node<D>>, mid: nat, x: int)
    requires SortedByHash(s) && mid < |s| && x < s[mid].hash
    requires mid > 0 ==> s[mid - 1].hash < x
    ensures !Occurs(s, x) && FirstAbove(s, x) == mid
  {
    FirstAboveSplits(s, x);
  }

  /**
    The binary search of Get over at least two entries, with its strict comparisons on
    both sides of the key hash.
   */
  method Search<D>(v: array<Node<D>>, hash: uint32) returns (r: Node<D>)
    requires v.Length >= 2
    ensures r in v[..]
    ensures SortedByHash(v[..]) && !Occurs(v[..], hash) ==>
              r == v[Wrap(FirstAbove(v[..], hash), v.Length)]
    ensures SortedByHash(v[..]) && Occurs(v[..], hash) ==> r == v[0]
  {
    ghost var s := v[..];
    ghost var sorted := SortedByHash(s);
    ghost var t := FirstAbove(s, hash);
    if sorted {
      FirstAboveSplits(s, hash);
    }
    var left, right := 0, v.Length;
    while true
      invariant 0 <= left <= right <= v.Length
      invariant sorted && !Occurs(s, hash) ==> left <= t <= right
      decreases right - left
    {
      var mid := (left + right) / 2;
      if mid == v.Length {
        return v[0];
      }
      var p: uint32;
      var m := v[mid].hash;
      if mid == 0 {
        p := 0;
      } else {
        p := v[mid - 1].hash;
      }
      if hash < m && hash > p {
        if sorted {
          GapMeansAbsent(s, mid, hash);
        }
        return v[mid];
      }
      if m < hash {
        left := mid + 1;
      } else {
        right := mid - 1;
      }
      if left > right {
        return v[0];
      }
    }
  }

  /**
    The search with the upper comparison made inclusive (hash <= m): it returns the first
    entry whose hash is at least the key hash, wrapping round after the last.
   */
  method SearchAtLeast<D>(v: array<Node<D>>, hash: uint32) returns (r: Node<D>)
    requires v.Length >= 2
    ensures r in v[..]
    ensures SortedByHash(v[..]) ==> r == v[Wrap(FirstAtLeast(v[..], hash), v.Length)]
  {
    ghost var s := v[..];
    ghost var sorted := SortedByHash(s);
    ghost var t := FirstAtLeast(s, hash);
    if sorted {
      FirstAtLeastSplits(s, hash);
    }
    var left, right := 0, v.Length;
    while true
      invariant 0 <= left <= right <= v.Length
      invariant sorted ==> left <= t <= right
      decreases right - left
    {
      var mid := (left + right) / 2;
      if mid == v.Length {
        return v[0];
      }
      var p: uint32;
      var m := v[mid].hash;
      if mid == 0 {
        p := 0;
      } else {
        p := v[mid - 1].hash;
      }
      if hash <= m && hash > p {
        return v[mid];
      }
      if m < hash {
        left := mid + 1;
      } else {
        right := mid - 1;
      }
      if left > right {
        return v[0];
      }
    }
  }

  /**
    Hashes [10, 20, 30] searched for 20: the strict search lands on the entry hashed 10,
    the inclusive one on the entry hashed 20.
   */
  method EqualHashExample() returns (asWritten: uint32, corrected: uint32)
    ensures asWritten == 10 && corrected == 20
  {
    var v := new Node<int>[3](i requires 0 <= i < 3 => Node("n", 0, 1, 10 * (i + 1)));
    assert v[..] == [Node("n", 0, 1, 10), Node("n", 0, 1, 20), Node("n", 0, 1, 30)];
    assert SortedByHash(v[..]);
    assert Occurs(v[..], 20) by {
      assert v[..][1].hash == 20;
    }
    var r := Search(v, 20);
    var c := SearchAtLeast(v, 20);
    assert FirstAtLeast(v[..], 20) == 1;
    asWritten, corrected := r.hash, c.hash;
  }

  /** Any reordering of the expanded nodes gives label l its 160 entries per unit of weight. */
  lemma CountInRing<D>(v: seq<Node<D>>, reals: seq<Node<D>>, md5: string -> Digest, l: string)
    requires multiset(v) == multiset(Expanded(reals, md5))
    ensures CountLabel(v, l) == 160 * LabelWeight(reals, l)
  {
    CountPermutation(v, Expanded(reals, md5), l);
    CountExpanded(reals, md5, l);
  }

  lemma PrefixExtend<T>(x: seq<T>, r: seq<T>, m: nat, m2: nat)
    requires m <= m2 <= |r|
    ensures (x + r[..m]) + r[m..m2] == x + r[..m2]
  {
    assert r[..m2] == r[..m] + r[m..m2];
  }

  /* ---------------------------------------------------------------------- */
  /* Sorting by hash                                                         */
  /* ---------------------------------------------------------------------- */

  /**
    Sorts the entries by hash in place with the Less order, by adjacent swaps, so the
    result is a permutation of the input. The order among equal hashes is not specified.
   */
  method SortByHash<D>(a: array<Node<D>>)
    modifies a
    ensures SortedByHash(a[..])
    ensures multiset(a[..]) == multiset(old(a[..]))
  {
    var i := 0;
    while i < a.Length
      invariant 0 <= i <= a.Length
      invariant SortedByHash(a[..i])
      invariant multiset(a[..]) == multiset(old(a[..]))
    {
      InsertLast(a, i);
      i := i + 1;
    }
  }

  /**
    The state of the insertion step: a[..i + 1] is sorted except at j, and the entry at j,
    the one being moved left, is no larger than anything after it.
   */
  ghost predicate Inserting<D>(s: seq<Node<D>>, i: nat, j: nat) {
    && j <= i < |s|
    && (forall p, q :: 0 <= p < q <= i && p != j && q != j ==> s[p].hash <= s[q].hash)
    && (forall q :: j < q <= i ==> s[j].hash <= s[q].hash)
  }

  /** Swapping the moved entry with a larger left neighbour keeps the step's state, one slot left. */
  lemma InsertingSwap<D>(s: seq<Node<D>>, i: nat, j: nat)
    requires Inserting(s, i, j) && 0 < j && Less(s[j], s[j - 1])
    ensures Inserting(s[j - 1 := s[j]][j := s[j - 1]], i, j - 1)
    ensures multiset(s[j - 1 := s[j]][j := s[j - 1]]) == multiset(s)
  {
  }

  /** The step ends sorted once the moved entry reaches slot 0 or a neighbour no larger. */
  lemma InsertingDone<D>(s: seq<Node<D>>, i: nat, j: nat)
    requires Inserting(s, i, j) && (j == 0 || !Less(s[j], s[j - 1]))
    ensures SortedByHash(s[..i + 1])
  {
  }

  /** Moves a[i] left past every larger hash, so that a[..i + 1] becomes sorted. */
  method InsertLast<D>(a: array<Node<D>>, i: nat)
    requires i < a.Length && SortedByHash(a[..i])
    modifies a
    ensures SortedByHash(a[..i + 1])
    ensures multiset(a[..]) == multiset(old(a[..]))
  {
    var j: nat := i;
    while j > 0 && Less(a[j], a[j - 1])
      invariant Inserting(a[..], i, j)
      invariant multiset(a[..]) == multiset(old(a[..]))
    {
      ghost var s := a[..];
      InsertingSwap(s, i, j);
      a[j - 1], a[j] := a[j], a[j - 1];
      assert a[..] == s[j - 1 := s[j]][j := s[j - 1]];
      j := j - 1;
    }
    InsertingDone(a[..], i, j);
  }

  /* ---------------------------------------------------------------------- */
  /* The ring                                                                */
  /* ---------------------------------------------------------------------- */

  /**
    Writes the virtual nodes of one real node from index k0 on: for each of its 40 * weight
    replica labels, the four words of that label's digest.
   */
  method PlaceReplicas<D>(a: array<Node<D>>, k0: nat, node: Node<D>, md5: string -> Digest)
    requires k0 + 160 * node.weight <= a.Length
    modifies a
    ensures a[..k0 + 160 * node.weight] == old(a[..k0]) + Replicas(node, md5)
  {
    ghost var prefix, reps := a[..k0], Replicas(node, md5);
    var k := k0;
    for j := 0 to node.weight * 40
      invariant k == k0 + 4 * j
      invariant a[..k] == prefix + reps[..4 * j]
    {
      var replica := ReplicaLabel(node.nodeLabel, j);
      PlaceWords(a, k, node, md5, j, replica);
      PrefixExtend(prefix, reps, 4 * j, 4 * j + 4);
      k := k + 4;
    }
    assert reps[..160 * node.weight] == reps;
  }

  /** Writes the four virtual nodes of replica j, whose label is replica, at k0 .. k0 + 3. */
  method PlaceWords<D>(a: array<Node<D>>, k0: nat, node: Node<D>, md5: string -> Digest, j: nat, replica: string)
    requires j < 40 * node.weight && k0 + 4 <= a.Length
    requires replica == ReplicaLabel(node.nodeLabel, j)
    modifies a
    ensures a[..k0 + 4] == old(a[..k0]) + Replicas(node, md5)[4 * j..4 * j + 4]
  {
    ghost var prefix, reps := a[..k0], Replicas(node, md5);
    var k := k0;
    for n := 0 to 4
      invariant k == k0 + n
      invariant a[..k0] == prefix
      invariant forall p :: k0 <= p < k ==> a[p] == reps[4 * j + (p - k0)]
    {
      ReplicaAt(node, md5, j, n);
      a[k] := Node(node.nodeLabel, node.data, node.weight, AlignHash(md5, replica, n));
      k := k + 1;
    }
    assert a[..k0 + 4] == prefix + reps[4 * j..4 * j + 4];
  }

  class Ring<D(0)> {
    var virtualNodes: array<Node<D>>
    const md5: string -> Digest

    /** The entries are in hash order, as NewRing leaves them. */
    ghost predicate Valid()
      reads this, virtualNodes
    {
      SortedByHash(virtualNodes[..])
    }

    /**
      Sizes the ring at 160 entries per unit of weight, fills it real node by real node,
      replica by replica, word by word, then sorts it by hash.
     */
    constructor NewRing(realsNodes: seq<Node<D>>, md5: string -> Digest)
      ensures this.md5 == md5
      ensures fresh(virtualNodes)
      ensures virtualNodes.Length == 160 * SumWeights(realsNodes)
      ensures multiset(virtualNodes[..]) == multiset(Expanded(realsNodes, md5))
      ensures Valid()
    {
      var length := 0;
      for i := 0 to |realsNodes|
        invariant length == 160 * SumWeights(realsNodes[..i])
      {
        assert realsNodes[..i + 1][..i] == realsNodes[..i];
        length := length + realsNodes[i].weight * 4 * 40;
      }
      assert realsNodes[..|realsNodes|] == realsNodes;
      var a := new Node<D>[length];
      var k := 0;
      for i := 0 to |realsNodes|
        invariant k == 160 * SumWeights(realsNodes[..i]) <= length
        invariant a[..k] == Expanded(realsNodes[..i], md5)
      {
        var node := realsNodes[i];
        assert realsNodes[..i + 1][..i] == realsNodes[..i];
        SumWeightsPrefix(realsNodes, i + 1);
        assert Expanded(realsNodes[..i + 1], md5) == Expanded(realsNodes[..i], md5) + Replicas(node, md5);
        PlaceReplicas(a, k, node, md5);
        k := k + 160 * node.weight;
      }
      assert a[..] == a[..k];
      assert realsNodes[..|realsNodes|] == realsNodes;
      virtualNodes := a;
      this.md5 := md5;
      new;
      SortByHash(virtualNodes);
    }

    /**
      The entry for a key: none on an empty ring, the sole entry of a one-entry ring
      without hashing, and otherwise the binary search for word 0 of the key's digest.
     */
    method Get(key: string) returns (r: Option<Node<D>>)
      ensures r.None? <==> virtualNodes.Length == 0
      ensures virtualNodes.Length == 1 ==> r == Some(virtualNodes[0])
      ensures r.Some? ==> r.value in virtualNodes[..]
      ensures Valid() && 0 < virtualNodes.Length && !Occurs(virtualNodes[..], AlignHash(md5, key, 0)) ==>
                r == Some(virtualNodes[Wrap(FirstAbove(virtualNodes[..], AlignHash(md5, key, 0)), virtualNodes.Length)])
      ensures Valid() && Occurs(virtualNodes[..], AlignHash(md5, key, 0)) ==> r == Some(virtualNodes[0])
    {
      if virtualNodes.Length == 0 {
        return None;
      }
      if virtualNodes.Length == 1 {
        return Some(virtualNodes[0]);
      }
      var hash := AlignHash(md5, key, 0);
      var node := Search(virtualNodes, hash);
      return Some(node);
    }

    /** Get with the inclusive comparison: the first entry whose hash is at least the key's. */
    method GetAtLeast(key: string) returns (r: Option<Node<D>>)
      ensures r.None? <==> virtualNodes.Length == 0
      ensures virtualNodes.Length == 1 ==> r == Some(virtualNodes[0])
      ensures r.Some? ==> r.value in virtualNodes[..]
      ensures Valid() && 0 < virtualNodes.Length ==>
                r == Some(virtualNodes[Wrap(FirstAtLeast(virtualNodes[..], AlignHash(md5, key, 0)), virtualNodes.Length)])
    {
      if virtualNodes.Length == 0 {
        return None;
      }
      if virtualNodes.Length == 1 {
        return Some(virtualNodes[0]);
      }
      var hash := AlignHash(md5, key, 0);
      var node := SearchAtLeast(virtualNodes, hash);
      return Some(node);
    }

    /** Two lookups of the same key on a ring built by NewRing give the same node. */
    method RepeatedGet(key: string) returns (n1: Option<Node<D>>, n2: Option<Node<D>>)
      requires Valid()
      ensures n1 == n2
    {
      n1 := Get(key);
      n2 := Get(key);
    }
  }
}
