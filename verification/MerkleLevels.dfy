/**
  The shape of the integrity tree: the bottom-up levels with odd-node promotion,
  and the top-down recursion of section 2.1 of RFC 6962 that must agree with them.
 */
module MerkleLevels {
  import opened Bytes
  import opened Hashing

  /** Whether node `index` of a level of length `len` moves up unchanged. */
  predicate IsPromoted(len: nat, index: nat) {
    len % 2 == 1 && index + 1 == len
  }

  function SiblingOf(index: nat): nat {
    if index % 2 == 0 then index + 1 else index - 1
  }

  /** What node `index` adds to its path at this level. */
  function SiblingStep(level: seq<Hash>, index: nat): seq<Hash>
    requires index < |level|
  {
    if IsPromoted(|level|, index) then [] else [level[SiblingOf(index)]]
  }

  /** The parent of node `index` within its level. */
  function ParentOf(level: seq<Hash>, index: nat): Hash
    requires index < |level|
  {
    if IsPromoted(|level|, index) then level[index]
    else
      var left := index - index % 2;
      NodeHash(level[left], level[left + 1])
  }

  /** One round of pairing: the level above. */
  function PairUp(level: seq<Hash>): (next: seq<Hash>)
    ensures |next| == (|level| + 1) / 2
  {
    seq((|level| + 1) / 2, i requires 0 <= i < (|level| + 1) / 2 => ParentOf(level, 2 * i))
  }

  /** All levels, leaves first. */
  function Levels(level: seq<Hash>): (levels: seq<seq<Hash>>)
    ensures |levels| > 0 && levels[0] == level
    decreases |level|
  {
    if |level| <= 1 then [level] else [level] + Levels(PairUp(level))
  }

  /** The single node left when pairing is repeated to the end. */
  function Apex(level: seq<Hash>): Hash
    requires |level| > 0
    decreases |level|
  {
    if |level| == 1 then level[0] else Apex(PairUp(level))
  }

  /** The siblings met on the way up from node `index`, promoted steps skipped. */
  function Path(level: seq<Hash>, index: nat): seq<Hash>
    requires index < |level|
    decreases |level|
  {
    if |level| == 1 then []
    else
      SiblingStep(level, index) + Path(PairUp(level), index / 2)
  }

  /** The published root: the apex bound to the number of leaves. */
  function RootOf(leaves: seq<Hash>): Hash
    requires 0 < |leaves| <= U32_MAX
  {
    RootHash(|leaves|, Apex(leaves))
  }

  // ---- Top-down definitions -------------------------------------------------

  /** Largest power of two strictly below `n`. */
  function SplitPoint(n: nat): (k: nat)
    requires n >= 2
    ensures 1 <= k < n <= 2 * k
  {
    if n == 2 then 1 else 2 * SplitPoint((n + 1) / 2)
  }

  /** The tree hash of RFC 6962: split at the largest power of two. */
  function Mth(leaves: seq<Hash>): Hash
    requires |leaves| > 0
    decreases |leaves|
  {
    if |leaves| == 1 then leaves[0]
    else
      var k := SplitPoint(|leaves|);
      NodeHash(Mth(leaves[..k]), Mth(leaves[k..]))
  }

  /** The audit path of RFC 6962 on the same recursion. */
  function AuditPath(leaves: seq<Hash>, index: nat): seq<Hash>
    requires index < |leaves|
    decreases |leaves|
  {
    if |leaves| == 1 then []
    else
      var k := SplitPoint(|leaves|);
      if index < k then AuditPath(leaves[..k], index) + [Mth(leaves[k..])]
      else AuditPath(leaves[k..], index - k) + [Mth(leaves[..k])]
  }

  /** `SUBPROOF` of section 2.1.4.1 of RFC 9162. */
  function Subproof(m: nat, leaves: seq<Hash>, complete: bool): seq<Hash>
    requires 0 < m <= |leaves|
    decreases |leaves|
  {
    if m == |leaves| then
      if complete then [] else [Mth(leaves)]
    else
      var k := SplitPoint(|leaves|);
      if m <= k then Subproof(m, leaves[..k], complete) + [Mth(leaves[k..])]
      else Subproof(m - k, leaves[k..], false) + [Mth(leaves[..k])]
  }

  /** The consistency path the tree hands out for its first `m` leaves. */
  function ConsistencyPath(m: nat, leaves: seq<Hash>): seq<Hash>
    requires 0 < m <= |leaves|
  {
    if m == |leaves| then []
    else (if IsPowerOfTwo(m) then [Mth(leaves[..m])] else []) + Subproof(m, leaves, true)
  }

  // ---- Arithmetic of the split ---------------------------------------------

  /** Above two leaves the split is even, and pairing halves it. */
  lemma {:induction false} SplitHalves(n: nat)
    requires n > 2
    ensures SplitPoint(n) % 2 == 0
    ensures SplitPoint((n + 1) / 2) == SplitPoint(n) / 2
  {
  }

  lemma {:induction false} SplitIsPower(n: nat)
    requires n >= 2
    ensures IsPowerOfTwo(SplitPoint(n))
  {
    if n > 2 { SplitIsPower((n + 1) / 2); }
  }

  /** Only one power of two lies in `[n/2, n)`. */
  lemma {:induction false} PowerBelowIsUnique(a: nat, b: nat, n: nat)
    requires IsPowerOfTwo(a) && IsPowerOfTwo(b)
    requires a < n <= 2 * a && b < n <= 2 * b
    ensures a == b
  {
    if a > 1 && b > 1 { PowerBelowIsUnique(a / 2, b / 2, (n + 1) / 2); }
  }

  // ---- Pairing and splitting commute ----------------------------------------

  lemma {:induction false} PairUpAt(level: seq<Hash>, i: nat)
    requires i < (|level| + 1) / 2
    ensures PairUp(level)[i] == if 2 * i + 1 < |level| then NodeHash(level[2 * i], level[2 * i + 1]) else level[2 * i]
  {
  }

  lemma {:induction false} PairUpOfFront(level: seq<Hash>, k: nat)
    requires k <= |level| && k % 2 == 0
    ensures PairUp(level)[..k / 2] == PairUp(level[..k])
  {
    hide PairUp;
    forall i | 0 <= i < k / 2
      ensures PairUp(level)[..k / 2][i] == PairUp(level[..k])[i]
    {
      PairUpAt(level, i);
      PairUpAt(level[..k], i);
    }
  }

  lemma {:induction false} PairUpOfBack(level: seq<Hash>, k: nat)
    requires k <= |level| && k % 2 == 0
    ensures PairUp(level)[k / 2..] == PairUp(level[k..])
  {
    hide PairUp;
    forall i | 0 <= i < (|level| - k + 1) / 2
      ensures PairUp(level)[k / 2..][i] == PairUp(level[k..])[i]
    {
      PairUpAt(level, k / 2 + i);
      PairUpAt(level[k..], i);
      assert 2 * (k / 2 + i) == k + 2 * i;
    }
  }

  lemma {:induction false} PairUpSplits(level: seq<Hash>, k: nat)
    requires k <= |level| && k % 2 == 0
    ensures PairUp(level)[..k / 2] == PairUp(level[..k])
    ensures PairUp(level)[k / 2..] == PairUp(level[k..])
  {
    hide PairUp;
    PairUpOfFront(level, k);
    PairUpOfBack(level, k);
  }

  /** One level of pairing leaves the top-down tree hash unchanged. */
  lemma {:induction false} MthOfPairUp(leaves: seq<Hash>)
    requires |leaves| > 1
    ensures Mth(PairUp(leaves)) == Mth(leaves)
    decreases |leaves|
  {
    var n := |leaves|;
    if n > 2 {
      var k := SplitPoint(n);
      SplitHalves(n);
      PairUpSplits(leaves, k);
      MthOfPairUp(leaves[..k]);
      if n - k > 1 { MthOfPairUp(leaves[k..]); } else { PairUpSingle(leaves[k..]); }
    }
  }

  lemma {:induction false} PairUpSingle(level: seq<Hash>)
    requires |level| == 1
    ensures PairUp(level) == level
  {
  }

  /** Bottom-up construction with promotion and top-down splitting meet at the same node. */
  lemma {:induction false} ApexIsMth(leaves: seq<Hash>)
    requires |leaves| > 0
    ensures Apex(leaves) == Mth(leaves)
    decreases |leaves|
  {
    if |leaves| > 1 {
      ApexIsMth(PairUp(leaves));
      MthOfPairUp(leaves);
    }
  }

  /** Both halves of a paired level hash to what the halves of the level hash to. */
  lemma {:induction false} SplitOfPairUp(leaves: seq<Hash>)
    requires |leaves| > 2
    ensures var k := SplitPoint(|leaves|);
            var up := PairUp(leaves);
            && k % 2 == 0
            && SplitPoint(|up|) == k / 2
            && up[..k / 2] == PairUp(leaves[..k]) && up[k / 2..] == PairUp(leaves[k..])
            && Mth(up[..k / 2]) == Mth(leaves[..k]) && Mth(up[k / 2..]) == Mth(leaves[k..])
  {
    var k := SplitPoint(|leaves|);
    SplitHalves(|leaves|);
    PairUpSplits(leaves, k);
    MthOfPairUp(leaves[..k]);
    if |leaves| - k > 1 { MthOfPairUp(leaves[k..]); } else { PairUpSingle(leaves[k..]); }
  }

  /** The audit path peels off one sibling per level. */
  lemma {:induction false} AuditPathOfPairUp(leaves: seq<Hash>, index: nat)
    requires index < |leaves| && |leaves| > 1
    ensures AuditPath(leaves, index) ==
            SiblingStep(leaves, index) + AuditPath(PairUp(leaves), index / 2)
    decreases |leaves|
  {
    if |leaves| == 2 {
      AuditPathOfTwo(leaves, index);
    } else {
      var k := SplitPoint(|leaves|);
      if index < k {
        AuditPathLeft(leaves, k, index);
      } else {
        AuditPathRight(leaves, k, index);
      }
    }
  }

  /** Gluing the left half: `step` is what the level below adds. */
  lemma {:induction false} AuditPathInLeft(leaves: seq<Hash>, up: seq<Hash>, k: nat, h: nat, j: nat, i: nat, step: seq<Hash>)
    requires |leaves| > 1 && j < k == SplitPoint(|leaves|)
    requires |up| > 1 && i < h == SplitPoint(|up|)
    requires Mth(up[h..]) == Mth(leaves[k..])
    requires AuditPath(leaves[..k], j) == step + AuditPath(up[..h], i)
    ensures AuditPath(leaves, j) == step + AuditPath(up, i)
  {
    hide SplitPoint, PairUp, Mth;
    Regroup(step, AuditPath(up[..h], i), [Mth(leaves[k..])]);
  }

  /** Gluing the right half. */
  lemma {:induction false} AuditPathInRight(leaves: seq<Hash>, up: seq<Hash>, k: nat, h: nat, j: nat, i: nat, step: seq<Hash>)
    requires |leaves| > 1 && k == SplitPoint(|leaves|) && k <= j < |leaves|
    requires |up| > 1 && h == SplitPoint(|up|) && h <= i < |up|
    requires Mth(up[..h]) == Mth(leaves[..k])
    requires AuditPath(leaves[k..], j - k) == step + AuditPath(up[h..], i - h)
    ensures AuditPath(leaves, j) == step + AuditPath(up, i)
  {
    hide SplitPoint, PairUp, Mth;
    Regroup(step, AuditPath(up[h..], i - h), [Mth(leaves[..k])]);
  }

  lemma {:induction false} AuditPathLeft(leaves: seq<Hash>, k: nat, j: nat)
    requires |leaves| > 2 && j < k == SplitPoint(|leaves|)
    ensures AuditPath(leaves, j) == SiblingStep(leaves, j) + AuditPath(PairUp(leaves), j / 2)
    decreases |leaves|, 0
  {
    hide SplitPoint, PairUp, Mth;
    SplitOfPairUp(leaves);
    AuditPathOfPairUp(leaves[..k], j);
    assert SiblingStep(leaves[..k], j) == SiblingStep(leaves, j);
    AuditPathInLeft(leaves, PairUp(leaves), k, k / 2, j, j / 2, SiblingStep(leaves, j));
  }

  lemma {:induction false} AuditPathRight(leaves: seq<Hash>, k: nat, index: nat)
    requires |leaves| > 2 && k == SplitPoint(|leaves|) && k <= index < |leaves|
    ensures AuditPath(leaves, index) ==
            SiblingStep(leaves, index) + AuditPath(PairUp(leaves), index / 2)
    decreases |leaves|, 0
  {
    hide SplitPoint, PairUp, Mth, AuditPath, SiblingStep;
    var right, j := leaves[k..], index - k;
    SplitOfPairUp(leaves);
    if |right| > 1 { AuditPathOfPairUp(right, j); } else { AuditPathOfSingle(right); }
    SiblingStepShift(leaves, k, j);
    assert index / 2 - k / 2 == j / 2;
    AuditPathInRight(leaves, PairUp(leaves), k, k / 2, index, index / 2, SiblingStep(leaves, index));
  }

  lemma {:induction false} AuditPathOfTwo(leaves: seq<Hash>, index: nat)
    requires index < |leaves| == 2
    ensures AuditPath(leaves, index) ==
            SiblingStep(leaves, index) + AuditPath(PairUp(leaves), index / 2)
  {
    var k := SplitPoint(2);
    assert AuditPath(leaves, index) == [leaves[1 - index]];
    assert index / 2 == 0;
  }

  lemma {:induction false} SiblingStepShift(level: seq<Hash>, k: nat, j: nat)
    requires k % 2 == 0 && k + j < |level|
    ensures SiblingStep(level[k..], j) == SiblingStep(level, k + j)
    ensures (k + j) / 2 == k / 2 + j / 2
  {
    assert (k + j) % 2 == j % 2;
  }

  lemma {:induction false} AuditPathOfSingle(leaves: seq<Hash>)
    requires |leaves| == 1
    ensures AuditPath(leaves, 0) == SiblingStep(leaves, 0) + AuditPath(PairUp(leaves), 0)
  {
    PairUpSingle(leaves);
  }

  /** The level-by-level siblings are the audit path of RFC 6962. */
  lemma {:induction false} PathIsAuditPath(leaves: seq<Hash>, index: nat)
    requires index < |leaves|
    ensures Path(leaves, index) == AuditPath(leaves, index)
    decreases |leaves|
  {
    if |leaves| > 1 {
      PathIsAuditPath(PairUp(leaves), index / 2);
      AuditPathOfPairUp(leaves, index);
    }
  }
}
