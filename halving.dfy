/** `halved_by_delimiter` of textEmbedding.py: split a string in two at an
    occurrence of a delimiter, trying to balance the tokens on each side. */
module Halving {
  import opened PyStr
  import opened Tokenizer

  function Abs(x: int): nat
  {
    if x < 0 then -x else x
  }

  /** `abs(halfway - num_tokens(delimiter.join(chunks[:m + 1])))`: how far the
      left part ending with piece `m` is from the halfway token count. */
  function LeftDiff(enc: Encoding, chunks: seq<string>, d: string, halfway: nat, m: nat): nat
    requires m < |chunks|
  {
    Abs(halfway - Tokens(enc, Join(d, chunks[..m + 1])))
  }

  /** `best_diff` when the scan reaches piece `m` without having stopped:
      `halfway` at first, then the difference of the piece before. */
  function BestBefore(enc: Encoding, chunks: seq<string>, d: string, halfway: nat, m: nat): nat
    requires m < |chunks|
  {
    if m == 0 then halfway else LeftDiff(enc, chunks, d, halfway, m - 1)
  }

  /** Piece `m` strictly improves on the best difference so far, so the scan
      goes on past it. */
  predicate Improves(enc: Encoding, chunks: seq<string>, d: string, halfway: nat, m: nat)
    requires m < |chunks|
  {
    LeftDiff(enc, chunks, d, halfway, m) < BestBefore(enc, chunks, d, halfway, m)
  }

  /** `k` is where the greedy scan stops: every piece before `k` improved on
      the best difference so far, and piece `k` does not, unless `k` is the
      last piece (the loop ran out without a `break`). */
  predicate IsGreedyStop(enc: Encoding, chunks: seq<string>, d: string, halfway: nat, k: nat)
  {
    && k < |chunks|
    && (forall m :: 0 <= m < k ==> Improves(enc, chunks, d, halfway, m))
    && (k == |chunks| - 1 || !Improves(enc, chunks, d, halfway, k))
  }

  /** There is at most one stopping index. */
  lemma GreedyStopUnique(enc: Encoding, chunks: seq<string>, d: string, halfway: nat, k1: nat, k2: nat)
    requires IsGreedyStop(enc, chunks, d, halfway, k1)
    requires IsGreedyStop(enc, chunks, d, halfway, k2)
    ensures k1 == k2
  {
  }

  /** The greedy scan from piece `i` on, every earlier piece having improved
      (where it stops is stated by `GreedyScanStops`). */
  function GreedyScan(enc: Encoding, chunks: seq<string>, d: string, halfway: nat, i: nat): (k: nat)
    requires i < |chunks|
    requires forall m :: 0 <= m < i ==> Improves(enc, chunks, d, halfway, m)
    ensures i <= k < |chunks|
    decreases |chunks| - i
  {
    if i == |chunks| - 1 || !Improves(enc, chunks, d, halfway, i) then i
    else GreedyScan(enc, chunks, d, halfway, i + 1)
  }

  /** Started at `i` with every earlier piece having improved, the scan
      returns the stopping index. */
  lemma {:induction false} GreedyScanStops(enc: Encoding, chunks: seq<string>, d: string, halfway: nat, i: nat)
    requires i < |chunks|
    requires forall m :: 0 <= m < i ==> Improves(enc, chunks, d, halfway, m)
    ensures IsGreedyStop(enc, chunks, d, halfway, GreedyScan(enc, chunks, d, halfway, i))
    decreases |chunks| - i
  {
    if i == |chunks| - 1 || !Improves(enc, chunks, d, halfway, i) {
    } else {
      GreedyScanStops(enc, chunks, d, halfway, i + 1);
    }
  }

  /** Whether a pair of halves can be used by the chunker: both non-empty. */
  predicate Usable(h: (string, string))
  {
    h.0 != "" && h.1 != ""
  }

  /** The pair `halved_by_delimiter(s, d)` returns. */
  function Halved(enc: Encoding, s: string, d: string): (string, string)
    requires d != ""
  {
    var chunks := Split(s, d);
    if |chunks| == 1 then (s, "")
    else if |chunks| == 2 then (chunks[0], chunks[1])
    else
      var i := GreedyScan(enc, chunks, d, Tokens(enc, s) / 2, 0);
      (Join(d, chunks[..i]), Join(d, chunks[i..]))
  }

  /** Without the delimiter the string comes back whole, with an empty right
      half. */
  lemma HalvedWithoutDelimiter(enc: Encoding, s: string, d: string)
    requires d != ""
    requires Find(s, d).None?
    ensures Halved(enc, s, d) == (s, "")
  {
  }

  /** With exactly one occurrence the two pieces of the split are the halves,
      and no token is counted. */
  lemma HalvedTwoPieces(enc: Encoding, s: string, d: string)
    requires d != ""
    requires |Split(s, d)| == 2
    ensures Halved(enc, s, d) == (Split(s, d)[0], Split(s, d)[1])
    ensures Halved(enc, s, d).0 + d + Halved(enc, s, d).1 == s
  {
    JoinSplit(s, d);
  }

  /** With three pieces or more the cut falls before the piece where the
      greedy scan, aiming at half the tokens of `s`, stops. */
  lemma HalvedGreedy(enc: Encoding, s: string, d: string, k: nat)
    requires d != ""
    requires |Split(s, d)| >= 3
    requires IsGreedyStop(enc, Split(s, d), d, Tokens(enc, s) / 2, k)
    ensures Halved(enc, s, d) == (Join(d, Split(s, d)[..k]), Join(d, Split(s, d)[k..]))
  {
    var chunks := Split(s, d);
    GreedyScanStops(enc, chunks, d, Tokens(enc, s) / 2, 0);
    GreedyStopUnique(enc, chunks, d, Tokens(enc, s) / 2, k, GreedyScan(enc, chunks, d, Tokens(enc, s) / 2, 0));
  }

  /** When the delimiter occurs, the halves put back together around one
      delimiter give the string, except when the cut falls before the first
      piece, which leaves the left half empty and the right half whole. */
  lemma HalvedRejoins(enc: Encoding, s: string, d: string)
    requires d != ""
    requires Find(s, d).Some?
    ensures var h := Halved(enc, s, d);
      h.0 + d + h.1 == s || (h.0 == "" && h.1 == s)
  {
    var chunks := Split(s, d);
    JoinSplit(s, d);
    if |chunks| >= 3 {
      var i := GreedyScan(enc, chunks, d, Tokens(enc, s) / 2, 0);
      if i >= 1 {
        JoinAt(d, chunks, i);
      } else {
        assert chunks[..0] == [] && chunks[0..] == chunks;
      }
    }
  }

  /** Usable halves lose exactly one occurrence of the delimiter, and each is
      shorter than the string. */
  lemma UsableHalvesRejoin(enc: Encoding, s: string, d: string)
    requires d != ""
    requires Usable(Halved(enc, s, d))
    ensures var h := Halved(enc, s, d);
      h.0 + d + h.1 == s && |h.0| < |s| && |h.1| < |s|
  {
    HalvedRejoins(enc, s, d);
  }

  /** `halved_by_delimiter(string, delimiter)`. */
  method HalvedByDelimiter(enc: Encoding, s: string, d: string) returns (left: string, right: string)
    requires d != ""
    ensures (left, right) == Halved(enc, s, d)
  {
    var chunks := Split(s, d);
    if |chunks| == 1 {
      return s, "";
    } else if |chunks| == 2 {
      return chunks[0], chunks[1];
    }
    var totalTokens := Tokens(enc, s);
    var halfway := totalTokens / 2;
    var bestDiff := halfway;
    var i := 0;
    for j := 0 to |chunks|
      invariant i == if j == 0 then 0 else j - 1
      invariant forall m :: 0 <= m < j ==> Improves(enc, chunks, d, halfway, m)
      invariant j < |chunks| ==> bestDiff == BestBefore(enc, chunks, d, halfway, j)
    {
      i := j;
      var leftPart := Join(d, chunks[..i + 1]);
      var leftTokens: int := Tokens(enc, leftPart);
      var diff := Abs(halfway - leftTokens);
      if diff >= bestDiff {
        break;
      }
      bestDiff := diff;
    }
    assert IsGreedyStop(enc, chunks, d, halfway, i);
    GreedyScanStops(enc, chunks, d, halfway, 0);
    GreedyStopUnique(enc, chunks, d, halfway, i, GreedyScan(enc, chunks, d, halfway, 0));
    left := Join(d, chunks[..i]);
    right := Join(d, chunks[i..]);
  }
}
