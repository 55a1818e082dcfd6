/** The bracket structure of an instruction sequence, seen through its opcodes:
    the nesting depth of every prefix and the compiler's backward depth-counting
    scan from a `]` to the `[` it pairs with. Index `k` here is an instruction
    index; the instruction occupies program slots `2k` and `2k + 1`. */
module Brackets {
  import opened Base

  /** How the backward scan changes its depth counter on passing an opcode:
      a `[` closes one level, a `]` opens one. */
  function ScanDelta(op: u16): int {
    if op == OPEN then -1 else if op == CLOSE then 1 else 0
  }

  /** Nesting depth after the first `n` instructions: `[`s minus `]`s. */
  function Depth(ops: seq<u16>, n: nat): int
    requires n <= |ops|
  {
    if n == 0 then 0 else Depth(ops, n - 1) - ScanDelta(ops[n - 1])
  }

  /** Consecutive prefix depths differ by at most one. */
  lemma DepthStep(ops: seq<u16>, n: nat)
    requires 0 < n <= |ops|
    ensures Depth(ops, n) - 1 <= Depth(ops, n - 1) <= Depth(ops, n) + 1
    ensures Depth(ops, n) > Depth(ops, n - 1) <==> ops[n - 1] == OPEN
    ensures Depth(ops, n) < Depth(ops, n - 1) <==> ops[n - 1] == CLOSE
  {
    assert OPEN != CLOSE;
  }

  /** The compiler's scan loop: while instructions remain before index `k` and the
      depth is positive, step back one instruction and adjust the depth. The result
      is the index where the scan stopped and the depth it stopped with. */
  function ScanBack(ops: seq<u16>, k: nat, depth: int): (r: (nat, int))
    requires k <= |ops|
    ensures r.0 <= k
    decreases k
  {
    if k > 0 && depth > 0 then ScanBack(ops, k - 1, depth + ScanDelta(ops[k - 1]))
    else (k, depth)
  }

  /** Where the scan for the `]` at instruction `m` stops, starting at depth 1. */
  function Target(ops: seq<u16>, m: nat): (nat, int)
    requires m <= |ops|
  {
    ScanBack(ops, m, 1)
  }

  /** The scan's counter is the starting depth plus the nesting it walked back out
      of; it stops at the first index where that reaches zero, or at index 0. */
  lemma {:induction false} ScanBackSpec(ops: seq<u16>, k: nat, depth: int)
    requires k <= |ops|
    ensures ScanBack(ops, k, depth).1 == depth - Depth(ops, k) + Depth(ops, ScanBack(ops, k, depth).0)
    ensures ScanBack(ops, k, depth).0 > 0 ==> ScanBack(ops, k, depth).1 <= 0
    ensures depth >= 0 ==> ScanBack(ops, k, depth).1 >= 0
    ensures forall j :: ScanBack(ops, k, depth).0 < j <= k ==> depth - Depth(ops, k) + Depth(ops, j) > 0
    decreases k
  {
    if k > 0 && depth > 0 {
      var d := depth + ScanDelta(ops[k - 1]);
      ScanBackSpec(ops, k - 1, d);
      DepthStep(ops, k);
    }
  }

  /** The `[` at `k` and the `]` at `m` enclose a balanced span, and no earlier
      `]` closes that `[`: the usual meaning of matching brackets. */
  predicate Matches(ops: seq<u16>, k: nat, m: nat) {
    k < m < |ops| && ops[k] == OPEN && ops[m] == CLOSE &&
    Depth(ops, m + 1) == Depth(ops, k) &&
    forall j :: k < j <= m ==> Depth(ops, j) > Depth(ops, k)
  }

  /** A scan that stops at depth zero has found the matching `[`. */
  lemma TargetMatches(ops: seq<u16>, m: nat)
    requires m < |ops| && ops[m] == CLOSE
    requires Target(ops, m).1 == 0
    ensures Matches(ops, Target(ops, m).0, m)
  {
    var k := Target(ops, m).0;
    ScanBackSpec(ops, m, 1);
    DepthStep(ops, m + 1);
    assert k < m;
    DepthStep(ops, k + 1);
  }

  /** From inside a span that returns to the depth of `k` only at `k`, the scan stops at `k`. */
  lemma {:induction false} ScanReaches(ops: seq<u16>, k: nat, j: nat)
    requires k <= j <= |ops|
    requires forall i :: k < i <= j ==> Depth(ops, i) > Depth(ops, k)
    ensures ScanBack(ops, j, Depth(ops, j) - Depth(ops, k)) == (k, 0)
    decreases j
  {
    if j > k {
      DepthStep(ops, j);
      ScanReaches(ops, k, j - 1);
    }
  }

  /** The scan for a `]` stops, at depth zero, exactly at the `[` it matches. */
  lemma MatchesTarget(ops: seq<u16>, k: nat, m: nat)
    requires Matches(ops, k, m)
    ensures Target(ops, m) == (k, 0)
  {
    DepthStep(ops, m + 1);
    ScanReaches(ops, k, m);
  }

  /** A `[` is matched by at most one `]`, and a `]` matches at most one `[`. */
  lemma MatchUnique(ops: seq<u16>, k: nat, m: nat, k': nat, m': nat)
    requires Matches(ops, k, m) && Matches(ops, k', m')
    ensures k == k' <==> m == m'
  {
    if m == m' {
      MatchesTarget(ops, k, m);
      MatchesTarget(ops, k', m');
    }
  }

  /** No prefix closes more brackets than it opens. */
  predicate NoUnmatchedClose(ops: seq<u16>) {
    forall n :: 0 <= n <= |ops| ==> Depth(ops, n) >= 0
  }

  /** Every bracket is matched: the prefix depths never go negative and end at zero. */
  predicate Balanced(ops: seq<u16>) {
    NoUnmatchedClose(ops) && Depth(ops, |ops|) == 0
  }

  /** When no prefix up to and including the `]` at `m` is negative, its scan finds a `[`. */
  lemma CloseFindsOpen(ops: seq<u16>, m: nat)
    requires m < |ops| && ops[m] == CLOSE
    requires forall n :: 0 <= n <= m + 1 ==> Depth(ops, n) >= 0
    ensures Target(ops, m).1 == 0
    ensures Matches(ops, Target(ops, m).0, m)
  {
    ScanBackSpec(ops, m, 1);
    DepthStep(ops, m + 1);
    TargetMatches(ops, m);
  }

  /** The first prefix with negative depth ends with a `]` that leaves depth -1. */
  lemma {:induction false} FirstNegative(ops: seq<u16>, n: nat) returns (q: nat)
    requires n <= |ops| && Depth(ops, n) < 0
    ensures 0 < q <= n && ops[q - 1] == CLOSE
    ensures Depth(ops, q - 1) == 0
    ensures forall j :: 0 <= j < q ==> Depth(ops, j) >= 0
    decreases n
  {
    if j :| 0 <= j < n && Depth(ops, j) < 0 {
      q := FirstNegative(ops, j);
    } else {
      q := n;
      DepthStep(ops, n);
    }
  }

  /** A `]` that closes more than was opened: its scan runs down to index 0 with
      the depth still positive. */
  lemma CloseWithoutOpen(ops: seq<u16>, n: nat) returns (m: nat)
    requires n <= |ops| && Depth(ops, n) < 0
    ensures m < n && ops[m] == CLOSE
    ensures Target(ops, m).0 == 0 && Target(ops, m).1 > 0
  {
    var q := FirstNegative(ops, n);
    m := q - 1;
    ScanBackSpec(ops, m, 1);
  }

  /** The scan of every `]` ends at depth zero exactly when no prefix is negative. */
  lemma NoUnmatchedCloseIff(ops: seq<u16>)
    ensures NoUnmatchedClose(ops) <==>
      forall m :: 0 <= m < |ops| && ops[m] == CLOSE ==> Target(ops, m).1 == 0
  {
    if NoUnmatchedClose(ops) {
      forall m | 0 <= m < |ops| && ops[m] == CLOSE ensures Target(ops, m).1 == 0 {
        CloseFindsOpen(ops, m);
      }
    } else {
      var n :| 0 <= n <= |ops| && Depth(ops, n) < 0;
      var m := CloseWithoutOpen(ops, n);
    }
  }

  /** Walking forward from just after `k`, the depth comes back down to that of `k`. */
  lemma {:induction false} FindReturn(ops: seq<u16>, k: nat, j: nat) returns (m: nat)
    requires k < j <= |ops|
    requires forall i :: k < i <= j ==> Depth(ops, i) > Depth(ops, k)
    requires Depth(ops, |ops|) <= Depth(ops, k)
    ensures Matches(ops, k, m)
    decreases |ops| - j
  {
    assert j < |ops| by {
      assert Depth(ops, j) > Depth(ops, k);
    }
    DepthStep(ops, k + 1);
    DepthStep(ops, j + 1);
    if Depth(ops, j + 1) <= Depth(ops, k) {
      m := j;
    } else {
      m := FindReturn(ops, k, j + 1);
    }
  }

  /** In a balanced sequence every `[` has a matching `]`. */
  lemma OpenFindsClose(ops: seq<u16>, k: nat) returns (m: nat)
    requires Balanced(ops)
    requires k < |ops| && ops[k] == OPEN
    ensures Matches(ops, k, m)
  {
    DepthStep(ops, k + 1);
    assert Depth(ops, k) >= 0;
    m := FindReturn(ops, k, k + 1);
  }

  /** Going down from `j`, the last index where the depth is one below `level`:
      a `[` whose level the sequence never comes back down to. */
  lemma {:induction false} LastRise(ops: seq<u16>, j: nat, level: int) returns (k: nat)
    requires j <= |ops| && level >= 1
    requires forall i :: j <= i <= |ops| ==> Depth(ops, i) >= level
    ensures k < j && ops[k] == OPEN && Depth(ops, k) == level - 1
    ensures forall i :: k < i <= |ops| ==> Depth(ops, i) >= level
    decreases j
  {
    assert j > 0 by {
      assert Depth(ops, j) >= level;
    }
    DepthStep(ops, j);
    if Depth(ops, j - 1) == level - 1 {
      k := j - 1;
    } else {
      k := LastRise(ops, j - 1, level);
    }
  }

  /** When no `]` is unmatched but the final depth is positive, some `[` is matched by no `]`. */
  lemma OpenWithoutClose(ops: seq<u16>) returns (k: nat)
    requires Depth(ops, |ops|) > 0
    ensures k < |ops| && ops[k] == OPEN
    ensures forall m: nat :: !Matches(ops, k, m)
  {
    k := LastRise(ops, |ops|, Depth(ops, |ops|));
    forall m: nat ensures !Matches(ops, k, m) {
      if k < m < |ops| {
        assert Depth(ops, m + 1) >= Depth(ops, |ops|);
      }
    }
  }

  /** The scan only reads the instructions before its start, so it is the same on
      any sequence with the same prefix. */
  lemma {:induction false} ScanBackPrefix(ops: seq<u16>, other: seq<u16>, k: nat, depth: int)
    requires k <= |ops| && k <= |other| && ops[..k] == other[..k]
    ensures ScanBack(ops, k, depth) == ScanBack(other, k, depth)
    decreases k
  {
    if k > 0 && depth > 0 {
      assert ops[k - 1] == ops[..k][k - 1] == other[..k][k - 1] == other[k - 1];
      assert ops[..k - 1] == ops[..k][..k - 1];
      assert other[..k - 1] == other[..k][..k - 1];
      ScanBackPrefix(ops, other, k - 1, depth + ScanDelta(ops[k - 1]));
    }
  }
}
