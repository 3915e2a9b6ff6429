/** The clue pool and getRandomClues. Only the answers of the pool are
    modelled. The shuffle is a comparator sort driven by Math.random, whose
    outcome is some order of the pool: the model takes that order as a
    permutation of the pool's indices, so getRandomClues is "the first count
    entries of the pool in the given order". */
module Selection {
  import opened CrosswordTypes

  /** The answers of CLUE_POOL, in the order the source lists them. */
  const CluePool: seq<string> := [
    "OBLIGASI", "KUPON", "DURASI", "POKOK", "ZEROCOUPON",
    "RATINGAGEN", "SECURED", "UNSECURED", "YTM", "KREDIT",
    "KONVERSI", "SEKUNDER", "FLOATING", "FIXED", "SPREAD",
    "JATUHTEMPO", "CALLABLE", "PUTABLE", "SPN", "ORI",
    "KORPORASI", "SUKUK", "BIRATE", "YIELDCURVE", "INFLASI",
    "INVESTMENT", "JUNK", "HOLDTOMATURITY", "GLOBAL", "DOMESTIK"]

  /** How many clues generateCrossword asks for. */
  const SelectedCount: nat := 10

  /** Every answer of the pool is a non-empty word of at most 14 letters. */
  lemma CluePoolAnswers()
    ensures |CluePool| == 30
    ensures forall w :: w in CluePool ==> 1 <= |w| <= 14
  {
  }

  /** perm lists each index below n exactly once. */
  predicate IsPermutation(perm: seq<nat>, n: nat) {
    && |perm| == n
    && (forall k :: 0 <= k < n ==> perm[k] < n)
    && (forall j, k :: 0 <= j < k < n ==> perm[j] != perm[k])
  }

  /** Distinct indices into pool. */
  predicate DistinctIndices(idx: seq<nat>, size: nat) {
    && (forall k :: 0 <= k < |idx| ==> idx[k] < size)
    && (forall j, k :: 0 <= j < k < |idx| ==> idx[j] != idx[k])
  }

  /** The pool entries at the given indices, in the order of the indices. */
  function Pick(pool: seq<string>, idx: seq<nat>): (r: seq<string>)
    requires forall k :: 0 <= k < |idx| ==> idx[k] < |pool|
    ensures |r| == |idx|
    ensures forall k :: 0 <= k < |idx| ==> r[k] == pool[idx[k]]
  {
    seq(|idx|, k requires 0 <= k < |idx| => pool[idx[k]])
  }

  /** The indices idx renumbered for the pool without entry x. */
  function Lower(idx: seq<nat>, x: nat): (r: seq<nat>)
    ensures |r| == |idx|
  {
    seq(|idx|, k requires 0 <= k < |idx| => if idx[k] > x then idx[k] - 1 else idx[k])
  }

  /** Distinct indices other than x stay distinct, and inside the smaller
      pool, once renumbered. */
  lemma LowerDistinct(idx: seq<nat>, x: nat, size: nat)
    requires x < size && DistinctIndices(idx + [x], size)
    ensures DistinctIndices(Lower(idx, x), size - 1)
  {
    var n := |idx|;
    forall k | 0 <= k < n ensures idx[k] != x && idx[k] < size {
      assert (idx + [x])[k] == idx[k] && (idx + [x])[n] == x;
    }
    forall j, k | 0 <= j < k < n ensures idx[j] != idx[k] {
      assert (idx + [x])[j] == idx[j] && (idx + [x])[k] == idx[k];
    }
  }

  /** Picking the renumbered indices from the pool without entry x picks
      what the original indices pick from the whole pool. */
  lemma PickLower(pool: seq<string>, idx: seq<nat>, x: nat)
    requires x < |pool| && forall k :: 0 <= k < |idx| ==> idx[k] < |pool| && idx[k] != x
    ensures forall k :: 0 <= k < |idx| ==> Lower(idx, x)[k] < |pool| - 1
    ensures Pick(pool[..x] + pool[x + 1..], Lower(idx, x)) == Pick(pool, idx)
  {
    var pool' := pool[..x] + pool[x + 1..];
    forall k | 0 <= k < |idx| ensures pool'[Lower(idx, x)[k]] == pool[idx[k]] {
    }
  }

  /** Picking entries at distinct indices takes each entry of the pool at
      most as often as the pool holds it: the selection is drawn without
      repetition. */
  lemma {:induction false} PickFromPool(pool: seq<string>, idx: seq<nat>)
    requires DistinctIndices(idx, |pool|)
    ensures multiset(Pick(pool, idx)) <= multiset(pool)
    decreases |pool|
  {
    if |idx| > 0 {
      var n := |idx| - 1;
      var x := idx[n];
      var rest := idx[..n];
      assert idx == rest + [x];
      var pool' := pool[..x] + pool[x + 1..];
      LowerDistinct(rest, x, |pool|);
      forall k | 0 <= k < n ensures rest[k] != x {
        assert idx[k] != idx[n];
      }
      PickLower(pool, rest, x);
      PickFromPool(pool', Lower(rest, x));
      assert Pick(pool, idx) == Pick(pool, rest) + [pool[x]];
      assert pool == pool[..x] + [pool[x]] + pool[x + 1..];
      assert multiset(pool) == multiset(pool') + multiset{pool[x]};
    }
  }

  /** getRandomClues: the shuffled pool, cut after count entries. It
      returns min(count, |pool|) entries of the pool, in the shuffled order
      and without repetition. */
  function GetRandomClues(pool: seq<string>, count: nat, perm: seq<nat>): (r: seq<string>)
    requires IsPermutation(perm, |pool|)
    ensures |r| == Min(count, |pool|)
    ensures forall k :: 0 <= k < |r| ==> r[k] == pool[perm[k]]
    ensures multiset(r) <= multiset(pool)
  {
    var m := Min(count, |pool|);
    assert DistinctIndices(perm[..m], |pool|);
    PickFromPool(pool, perm[..m]);
    Pick(pool, perm[..m])
  }

  /** The ten answers generateCrossword works with: all from the pool, each
      a non-empty word of at most 14 letters. */
  lemma SelectedAnswers(perm: seq<nat>)
    requires IsPermutation(perm, |CluePool|)
    ensures |GetRandomClues(CluePool, SelectedCount, perm)| == SelectedCount
    ensures forall w :: w in GetRandomClues(CluePool, SelectedCount, perm) ==> w in CluePool && 1 <= |w| <= 14
  {
    CluePoolAnswers();
    var r := GetRandomClues(CluePool, SelectedCount, perm);
    forall w | w in r ensures w in CluePool {
      assert multiset(r)[w] > 0;
    }
  }
}
