/** `chunk_text` of textEmbedding.py: split a text into pieces of at most
    `max_tokens` tokens by recursive bisection at paragraph, line or sentence
    breaks, truncating when the recursion budget runs out or no break helps.

    The specification `Chunks` takes the halving step as a parameter `halve`;
    `chunk_text` uses `HalvedBy(enc)`, that is `halved_by_delimiter`. The
    budget bound holds whatever the halving; the reconstruction holds for
    every halving that loses only the delimiter it cuts at (`Rejoins`), which
    `halved_by_delimiter` does. */
module Chunker {
  import opened Wrappers
  import opened PyStr
  import opened Tokenizer
  import opened Halving

  /** `MAX_TOKENS` of textEmbedding.py, the default budget of `chunk_text`. */
  const DefaultMaxTokens: nat := 1600

  /** The default `max_recursion` of `chunk_text`. */
  const DefaultMaxRecursion: nat := 5

  type Delimiter = d: string | d != "" witness " "

  /** The delimiters `chunk_text` tries, in order. */
  const Delimiters: seq<Delimiter> := ["\n\n", "\n", ". "]

  /** A way of cutting a text in two at a delimiter. */
  type Splitter = (string, Delimiter) -> (string, string)

  /** `halve` cuts every text at every delimiter as `halved_by_delimiter`
      does under `enc`. */
  ghost predicate IsHalvedBy(halve: Splitter, enc: Encoding)
  {
    forall t: string, d: Delimiter {:trigger Halved(enc, t, d)} :: halve(t, d) == Halved(enc, t, d)
  }

  /** `halved_by_delimiter` under the encoding `enc`, as a splitter. It is
      characterised by `IsHalvedBy` alone, so that reasoning about the chunks
      in general does not expand the delimiter search. */
  ghost function HalvedBy(enc: Encoding): (halve: Splitter)
    ensures IsHalvedBy(halve, enc)
  {
    var halving := (t: string, d: Delimiter) => Halved(enc, t, d);
    assert IsHalvedBy(halving, enc);
    var halve :| IsHalvedBy(halve, enc);
    halve
  }

  /** The halves of `t` at `d`, if usable, put back together around `d` give
      `t`. */
  ghost predicate RejoinsAt(halve: Splitter, t: string, d: Delimiter)
  {
    Usable(halve(t, d)) ==> halve(t, d).0 + d + halve(t, d).1 == t
  }

  /** Usable halves put back together around the delimiter give the text. */
  ghost predicate Rejoins(halve: Splitter)
  {
    forall t: string, d: Delimiter :: RejoinsAt(halve, t, d)
  }

  /** `halved_by_delimiter` loses only the delimiter it cuts at. */
  lemma HalvedByRejoins(enc: Encoding)
    ensures Rejoins(HalvedBy(enc))
  {
    var halve := HalvedBy(enc);
    forall t: string, d: Delimiter
      ensures RejoinsAt(halve, t, d)
    {
      assert halve(t, d) == Halved(enc, t, d);
      if Usable(halve(t, d)) {
        UsableHalvesRejoin(enc, t, d);
      }
    }
  }

  /** The first delimiter, from the `i`-th on, whose halves are both
      non-empty; the ones before it are skipped (`continue`). */
  function FirstUsable(halve: Splitter, s: string, i: nat): (r: Option<nat>)
    requires i <= |Delimiters|
    ensures r.Some? ==> i <= r.value < |Delimiters|
    decreases |Delimiters| - i
  {
    if i == |Delimiters| then None
    else if Usable(halve(s, Delimiters[i])) then Some(i)
    else FirstUsable(halve, s, i + 1)
  }

  /** `FirstUsable` finds a usable delimiter after only unusable ones, and
      finds none exactly when none is usable. */
  lemma {:induction false} FirstUsableFirst(halve: Splitter, s: string, i: nat)
    requires i <= |Delimiters|
    ensures var r := FirstUsable(halve, s, i);
      && (r.Some? ==> Usable(halve(s, Delimiters[r.value])))
      && (r.Some? ==> forall j :: i <= j < r.value ==> !Usable(halve(s, Delimiters[j])))
      && (r.None? <==> forall j :: i <= j < |Delimiters| ==> !Usable(halve(s, Delimiters[j])))
    decreases |Delimiters| - i
  {
    if i < |Delimiters| && !Usable(halve(s, Delimiters[i])) {
      FirstUsableFirst(halve, s, i + 1);
    }
  }

  /** The truncation `chunk_text` falls back to (warning enabled). */
  function Truncate(enc: Encoding, s: string, maxTokens: nat): string
  {
    TruncatedString(enc, s, maxTokens, true).text
  }

  /** The texts `chunk_text` does not split any further, in order: the text
      itself when it fits, when the recursion budget is spent or when no
      delimiter gives two non-empty halves; otherwise the pieces of the left
      half followed by those of the right half. */
  function Pieces(enc: Encoding, halve: Splitter, s: string, maxTokens: nat, depth: nat): (r: seq<string>)
    ensures |r| >= 1
    decreases depth
  {
    if Tokens(enc, s) <= maxTokens || depth == 0 then [s]
    else match FirstUsable(halve, s, 0)
      case None => [s]
      case Some(j) =>
        var (left, right) := halve(s, Delimiters[j]);
        Pieces(enc, halve, left, maxTokens, depth - 1) + Pieces(enc, halve, right, maxTokens, depth - 1)
  }

  /** The delimiters the splits drop, `Seps(...)[k]` standing between the
      pieces `k` and `k + 1`. */
  function Seps(enc: Encoding, halve: Splitter, s: string, maxTokens: nat, depth: nat): (r: seq<string>)
    ensures |r| + 1 == |Pieces(enc, halve, s, maxTokens, depth)|
    decreases depth
  {
    if Tokens(enc, s) <= maxTokens || depth == 0 then []
    else match FirstUsable(halve, s, 0)
      case None => []
      case Some(j) =>
        var (left, right) := halve(s, Delimiters[j]);
        Seps(enc, halve, left, maxTokens, depth - 1) + [Delimiters[j]] + Seps(enc, halve, right, maxTokens, depth - 1)
  }

  /** What becomes of one piece: kept if it fits, truncated otherwise. */
  function Finish(enc: Encoding, piece: string, maxTokens: nat): string
  {
    if Tokens(enc, piece) <= maxTokens then piece else Truncate(enc, piece, maxTokens)
  }

  /** Each piece, finished. */
  function FinishAll(enc: Encoding, pieces: seq<string>, maxTokens: nat): (r: seq<string>)
    ensures |r| == |pieces|
  {
    if pieces == [] then [] else [Finish(enc, pieces[0], maxTokens)] + FinishAll(enc, pieces[1..], maxTokens)
  }

  /** The list `chunk_text(s, max_tokens, model, max_recursion)` returns when
      each split is made by `halve`: its pieces, each finished. */
  function Chunks(enc: Encoding, halve: Splitter, s: string, maxTokens: nat, depth: nat): seq<string>
  {
    FinishAll(enc, Pieces(enc, halve, s, maxTokens, depth), maxTokens)
  }

  lemma {:induction false} FinishAllAppend(enc: Encoding, a: seq<string>, b: seq<string>, maxTokens: nat)
    ensures FinishAll(enc, a + b, maxTokens) == FinishAll(enc, a, maxTokens) + FinishAll(enc, b, maxTokens)
  {
    if a == [] {
      assert a + b == b;
    } else {
      FinishAllAppend(enc, a[1..], b, maxTokens);
      assert (a + b)[0] == a[0] && (a + b)[1..] == a[1..] + b;
      calc {
        FinishAll(enc, a + b, maxTokens);
        [Finish(enc, a[0], maxTokens)] + FinishAll(enc, a[1..] + b, maxTokens);
        [Finish(enc, a[0], maxTokens)] + (FinishAll(enc, a[1..], maxTokens) + FinishAll(enc, b, maxTokens));
        FinishAll(enc, a, maxTokens) + FinishAll(enc, b, maxTokens);
      }
    }
  }

  /** Pieces that fit the budget are kept as they are. */
  lemma {:induction false} FinishAllFitting(enc: Encoding, pieces: seq<string>, maxTokens: nat)
    requires forall x :: x in pieces ==> Tokens(enc, x) <= maxTokens
    ensures FinishAll(enc, pieces, maxTokens) == pieces
  {
    if pieces != [] {
      FinishAllFitting(enc, pieces[1..], maxTokens);
      assert pieces == [pieces[0]] + pieces[1..];
    }
  }

  /** Under the assumption that re-encoding a decoded token list never gives
      more tokens, every finished piece fits the budget. */
  lemma {:induction false} FinishAllWithinBudget(enc: Encoding, pieces: seq<string>, maxTokens: nat)
    requires RecodeBounded(enc)
    ensures forall x :: x in FinishAll(enc, pieces, maxTokens) ==> Tokens(enc, x) <= maxTokens
  {
    if pieces != [] {
      FinishAllWithinBudget(enc, pieces[1..], maxTokens);
      assert Tokens(enc, Finish(enc, pieces[0], maxTokens)) <= maxTokens;
    }
  }

  /** A text within the budget is the one chunk. */
  lemma ChunksFitting(enc: Encoding, halve: Splitter, s: string, maxTokens: nat, depth: nat)
    requires Tokens(enc, s) <= maxTokens
    ensures Chunks(enc, halve, s, maxTokens, depth) == [s]
  {
    assert [s][1..] == [];
  }

  /** A text over the budget that is not split is truncated: when the
      recursion budget is spent, or when no delimiter gives two non-empty
      halves. */
  lemma ChunksTruncated(enc: Encoding, halve: Splitter, s: string, maxTokens: nat, depth: nat)
    requires Tokens(enc, s) > maxTokens
    requires depth == 0 || FirstUsable(halve, s, 0).None?
    ensures Chunks(enc, halve, s, maxTokens, depth) == [Truncate(enc, s, maxTokens)]
  {
    PiecesUnsplit(enc, halve, s, maxTokens, depth);
    assert [s][1..] == [];
  }

  /** A split takes the first usable delimiter and puts the chunks of the left
      half before those of the right half. */
  lemma ChunksSplitAtFirstUsable(enc: Encoding, halve: Splitter, s: string, maxTokens: nat, depth: nat, j: nat)
    requires Tokens(enc, s) > maxTokens && depth > 0
    requires j < |Delimiters| && Usable(halve(s, Delimiters[j]))
    requires forall i :: 0 <= i < j ==> !Usable(halve(s, Delimiters[i]))
    ensures Chunks(enc, halve, s, maxTokens, depth)
            == Chunks(enc, halve, halve(s, Delimiters[j]).0, maxTokens, depth - 1)
               + Chunks(enc, halve, halve(s, Delimiters[j]).1, maxTokens, depth - 1)
  {
    FirstUsableFirst(halve, s, 0);
    PiecesSplit(enc, halve, s, maxTokens, depth, j);
    FinishAllAppend(enc, Pieces(enc, halve, halve(s, Delimiters[j]).0, maxTokens, depth - 1),
                    Pieces(enc, halve, halve(s, Delimiters[j]).1, maxTokens, depth - 1), maxTokens);
  }

  /** Under the assumption that re-encoding a decoded token list never gives
      more tokens, every chunk fits the budget, whatever the halving. */
  lemma ChunksWithinBudget(enc: Encoding, halve: Splitter, s: string, maxTokens: nat, depth: nat)
    requires RecodeBounded(enc)
    ensures forall x :: x in Chunks(enc, halve, s, maxTokens, depth) ==> Tokens(enc, x) <= maxTokens
  {
    FinishAllWithinBudget(enc, Pieces(enc, halve, s, maxTokens, depth), maxTokens);
  }

  /** `pieces[0] + seps[0] + pieces[1] + ... + pieces[n - 1]`. */
  function Interleave(pieces: seq<string>, seps: seq<string>): string
    requires |seps| + 1 == |pieces|
  {
    if |seps| == 0 then pieces[0]
    else pieces[0] + seps[0] + Interleave(pieces[1..], seps[1..])
  }

  lemma {:induction false} InterleaveAppend(a: seq<string>, sa: seq<string>, d: string, b: seq<string>, sb: seq<string>)
    requires |sa| + 1 == |a| && |sb| + 1 == |b|
    ensures Interleave(a + b, sa + [d] + sb) == Interleave(a, sa) + d + Interleave(b, sb)
    decreases |a|
  {
    if |sa| == 0 {
      assert (a + b)[1..] == b;
      assert (sa + [d] + sb)[1..] == sb;
    } else {
      InterleaveAppend(a[1..], sa[1..], d, b, sb);
      assert (a + b)[1..] == a[1..] + b;
      assert (sa + [d] + sb)[1..] == sa[1..] + [d] + sb;
    }
  }

  /** A text that is not split is its own one piece, with no delimiter. */
  lemma PiecesUnsplit(enc: Encoding, halve: Splitter, s: string, maxTokens: nat, depth: nat)
    requires Tokens(enc, s) <= maxTokens || depth == 0 || FirstUsable(halve, s, 0).None?
    ensures Pieces(enc, halve, s, maxTokens, depth) == [s]
    ensures Seps(enc, halve, s, maxTokens, depth) == []
  {
  }

  /** A text that is split has the pieces of its halves, with the delimiter it
      was cut at between them. */
  lemma PiecesSplit(enc: Encoding, halve: Splitter, s: string, maxTokens: nat, depth: nat, j: nat)
    requires Tokens(enc, s) > maxTokens && depth > 0 && FirstUsable(halve, s, 0) == Some(j)
    ensures Pieces(enc, halve, s, maxTokens, depth)
            == Pieces(enc, halve, halve(s, Delimiters[j]).0, maxTokens, depth - 1)
               + Pieces(enc, halve, halve(s, Delimiters[j]).1, maxTokens, depth - 1)
    ensures Seps(enc, halve, s, maxTokens, depth)
            == Seps(enc, halve, halve(s, Delimiters[j]).0, maxTokens, depth - 1) + [Delimiters[j]]
               + Seps(enc, halve, halve(s, Delimiters[j]).1, maxTokens, depth - 1)
  {
  }

  /** The pieces of a split text, interleaved, are those of its halves around
      the delimiter it was cut at. */
  lemma SplitInterleave(enc: Encoding, halve: Splitter, s: string, maxTokens: nat, depth: nat, j: nat)
    requires Tokens(enc, s) > maxTokens && depth > 0 && FirstUsable(halve, s, 0) == Some(j)
    ensures var (left, right) := halve(s, Delimiters[j]);
      Interleave(Pieces(enc, halve, s, maxTokens, depth), Seps(enc, halve, s, maxTokens, depth))
      == Interleave(Pieces(enc, halve, left, maxTokens, depth - 1), Seps(enc, halve, left, maxTokens, depth - 1))
         + Delimiters[j]
         + Interleave(Pieces(enc, halve, right, maxTokens, depth - 1), Seps(enc, halve, right, maxTokens, depth - 1))
  {
    var (left, right) := halve(s, Delimiters[j]);
    PiecesSplit(enc, halve, s, maxTokens, depth, j);
    InterleaveAppend(Pieces(enc, halve, left, maxTokens, depth - 1), Seps(enc, halve, left, maxTokens, depth - 1), Delimiters[j],
                     Pieces(enc, halve, right, maxTokens, depth - 1), Seps(enc, halve, right, maxTokens, depth - 1));
  }

  /** The split step of `PiecesInterleave`: when both halves reassemble, so
      does the text. */
  lemma SplitRejoins(enc: Encoding, halve: Splitter, s: string, maxTokens: nat, depth: nat, j: nat)
    requires Rejoins(halve)
    requires Tokens(enc, s) > maxTokens && depth > 0 && FirstUsable(halve, s, 0) == Some(j)
    requires var left := halve(s, Delimiters[j]).0;
      Interleave(Pieces(enc, halve, left, maxTokens, depth - 1), Seps(enc, halve, left, maxTokens, depth - 1)) == left
    requires var right := halve(s, Delimiters[j]).1;
      Interleave(Pieces(enc, halve, right, maxTokens, depth - 1), Seps(enc, halve, right, maxTokens, depth - 1)) == right
    ensures Interleave(Pieces(enc, halve, s, maxTokens, depth), Seps(enc, halve, s, maxTokens, depth)) == s
  {
    SplitInterleave(enc, halve, s, maxTokens, depth, j);
    FirstUsableFirst(halve, s, 0);
    assert RejoinsAt(halve, s, Delimiters[j]);
  }

  /** For a halving that loses only the delimiter it cuts at, the pieces put
      back together with the dropped delimiters give the text. */
  lemma {:induction false} PiecesInterleave(enc: Encoding, halve: Splitter, s: string, maxTokens: nat, depth: nat)
    requires Rejoins(halve)
    ensures Interleave(Pieces(enc, halve, s, maxTokens, depth), Seps(enc, halve, s, maxTokens, depth)) == s
    decreases depth
  {
    if Tokens(enc, s) <= maxTokens || depth == 0 || FirstUsable(halve, s, 0).None? {
      PiecesUnsplit(enc, halve, s, maxTokens, depth);
      assert Interleave([s], []) == s;
    } else {
      var j := FirstUsable(halve, s, 0).value;
      PiecesInterleave(enc, halve, halve(s, Delimiters[j]).0, maxTokens, depth - 1);
      PiecesInterleave(enc, halve, halve(s, Delimiters[j]).1, maxTokens, depth - 1);
      // The facts the split step needs, restated in its own terms.
      assert FirstUsable(halve, s, 0) == Some(j);
      assert var left := halve(s, Delimiters[j]).0;
        Interleave(Pieces(enc, halve, left, maxTokens, depth - 1), Seps(enc, halve, left, maxTokens, depth - 1)) == left;
      assert var right := halve(s, Delimiters[j]).1;
        Interleave(Pieces(enc, halve, right, maxTokens, depth - 1), Seps(enc, halve, right, maxTokens, depth - 1)) == right;
      SplitRejoins(enc, halve, s, maxTokens, depth, j);
    }
  }

  /** When nothing had to be truncated, the chunks are the pieces, and put
      back together with the delimiters dropped between them they give the
      original text. */
  lemma ChunksReassemble(enc: Encoding, halve: Splitter, s: string, maxTokens: nat, depth: nat)
    requires Rejoins(halve)
    requires forall x :: x in Pieces(enc, halve, s, maxTokens, depth) ==> Tokens(enc, x) <= maxTokens
    ensures Chunks(enc, halve, s, maxTokens, depth) == Pieces(enc, halve, s, maxTokens, depth)
    ensures Interleave(Chunks(enc, halve, s, maxTokens, depth), Seps(enc, halve, s, maxTokens, depth)) == s
  {
    FinishAllFitting(enc, Pieces(enc, halve, s, maxTokens, depth), maxTokens);
    PiecesInterleave(enc, halve, s, maxTokens, depth);
  }

  /** The list `chunk_text` returns: the chunks when each split is made by
      `halved_by_delimiter`. */
  ghost function TextChunks(enc: Encoding, s: string, maxTokens: nat, depth: nat): seq<string>
  {
    Chunks(enc, HalvedBy(enc), s, maxTokens, depth)
  }

  /** The chunks of each text of `texts` in turn, one list after the other. */
  ghost function ChunksOfAll(enc: Encoding, texts: seq<string>, maxTokens: nat, depth: nat): seq<string>
  {
    if texts == [] then []
    else ChunksOfAll(enc, texts[..|texts| - 1], maxTokens, depth)
         + TextChunks(enc, texts[|texts| - 1], maxTokens, depth)
  }

  lemma ChunksOfAllSnoc(enc: Encoding, texts: seq<string>, x: string, maxTokens: nat, depth: nat)
    ensures ChunksOfAll(enc, texts + [x], maxTokens, depth)
            == ChunksOfAll(enc, texts, maxTokens, depth) + TextChunks(enc, x, maxTokens, depth)
  {
    assert (texts + [x])[..|texts|] == texts;
  }

  lemma ChunksOfAllPair(enc: Encoding, a: string, b: string, maxTokens: nat, depth: nat)
    ensures ChunksOfAll(enc, [a, b], maxTokens, depth) == TextChunks(enc, a, maxTokens, depth) + TextChunks(enc, b, maxTokens, depth)
  {
    var ca := TextChunks(enc, a, maxTokens, depth);
    assert [a][..0] == [];
    assert ChunksOfAll(enc, [a], maxTokens, depth) == [] + ca == ca;
    assert [a, b][..1] == [a];
  }

  /** `chunk_text` splits at the first delimiter whose halves are both
      non-empty, loses only that delimiter, and lists the chunks of the left
      half before those of the right half. */
  lemma TextChunksSplit(enc: Encoding, s: string, maxTokens: nat, depth: nat, j: nat, left: string, right: string)
    requires Tokens(enc, s) > maxTokens && depth > 0
    requires j < |Delimiters| && (left, right) == Halved(enc, s, Delimiters[j])
    requires left != "" && right != ""
    requires forall i :: 0 <= i < j ==> !Usable(Halved(enc, s, Delimiters[i]))
    ensures left + Delimiters[j] + right == s
    ensures TextChunks(enc, s, maxTokens, depth)
            == ChunksOfAll(enc, [left, right], maxTokens, depth - 1)
  {
    var halve := HalvedBy(enc);
    assert halve(s, Delimiters[j]) == (left, right);
    forall i | 0 <= i < j
      ensures !Usable(halve(s, Delimiters[i]))
    {
      assert halve(s, Delimiters[i]) == Halved(enc, s, Delimiters[i]);
    }
    UsableHalvesRejoin(enc, s, Delimiters[j]);
    ChunksSplitAtFirstUsable(enc, halve, s, maxTokens, depth, j);
    ChunksOfAllPair(enc, left, right, maxTokens, depth - 1);
  }

  /** When no delimiter gives two non-empty halves, `chunk_text` truncates. */
  lemma TextChunksUnsplit(enc: Encoding, s: string, maxTokens: nat, depth: nat)
    requires Tokens(enc, s) > maxTokens
    requires forall i :: 0 <= i < |Delimiters| ==> !Usable(Halved(enc, s, Delimiters[i]))
    ensures TextChunks(enc, s, maxTokens, depth) == [Truncate(enc, s, maxTokens)]
  {
    var halve := HalvedBy(enc);
    forall i | 0 <= i < |Delimiters|
      ensures !Usable(halve(s, Delimiters[i]))
    {
      assert halve(s, Delimiters[i]) == Halved(enc, s, Delimiters[i]);
    }
    FirstUsableFirst(halve, s, 0);
    ChunksTruncated(enc, halve, s, maxTokens, depth);
  }

  /** `chunk_text(string, max_tokens, model, max_recursion)` for a `model`
      whose encoding is that of gpt-4: `chunk_text` counts tokens with the
      encoding of gpt-4 whatever its `model`, and truncates with that of
      `model`; `enc` stands for both. */
  method ChunkText(enc: Encoding, s: string, maxTokens: nat, maxRecursion: nat) returns (results: seq<string>)
    ensures results == TextChunks(enc, s, maxTokens, maxRecursion)
    ensures Tokens(enc, s) <= maxTokens ==> results == [s]
    ensures Tokens(enc, s) > maxTokens && maxRecursion == 0 ==> results == [Truncate(enc, s, maxTokens)]
    ensures RecodeBounded(enc) ==> forall x :: x in results ==> Tokens(enc, x) <= maxTokens
    decreases maxRecursion, 0
  {
    if RecodeBounded(enc) {
      ChunksWithinBudget(enc, HalvedBy(enc), s, maxTokens, maxRecursion);
    }
    var numTokensInString := Tokens(enc, s);
    if numTokensInString <= maxTokens {
      ChunksFitting(enc, HalvedBy(enc), s, maxTokens, maxRecursion);
      return [s];
    } else if maxRecursion == 0 {
      ChunksTruncated(enc, HalvedBy(enc), s, maxTokens, maxRecursion);
      return [Truncate(enc, s, maxTokens)];
    }
    var text := s;
    for n := 0 to |Delimiters|
      invariant forall i :: 0 <= i < n ==> !Usable(Halved(enc, s, Delimiters[i]))
    {
      var left, right := HalvedByDelimiter(enc, text, Delimiters[n]);
      if left == "" || right == "" {
        continue;
      }
      TextChunksSplit(enc, s, maxTokens, maxRecursion, n, left, right);
      results := ChunkHalves(enc, [left, right], maxTokens, maxRecursion - 1);
      return;
    }
    TextChunksUnsplit(enc, s, maxTokens, maxRecursion);
    return [Truncate(enc, s, maxTokens)];
  }

  /** `chunk_text(contexts)`, with the default budget of 1600 tokens and the
      default recursion depth of 5: a text within the budget is its own chunk,
      and under `RecodeBounded` no chunk has more than 1600 tokens. */
  lemma DefaultChunking(enc: Encoding, s: string)
    ensures Tokens(enc, s) <= 1600 ==> TextChunks(enc, s, DefaultMaxTokens, DefaultMaxRecursion) == [s]
    ensures RecodeBounded(enc) ==>
      forall x :: x in TextChunks(enc, s, DefaultMaxTokens, DefaultMaxRecursion) ==> Tokens(enc, x) <= 1600
  {
    if Tokens(enc, s) <= DefaultMaxTokens {
      ChunksFitting(enc, HalvedBy(enc), s, DefaultMaxTokens, DefaultMaxRecursion);
    }
    if RecodeBounded(enc) {
      ChunksWithinBudget(enc, HalvedBy(enc), s, DefaultMaxTokens, DefaultMaxRecursion);
    }
  }

  /** The inner loop of `chunk_text`: `results.extend(chunk_text(half, ...))`
      for each half in turn. */
  method ChunkHalves(enc: Encoding, halves: seq<string>, maxTokens: nat, depth: nat) returns (results: seq<string>)
    ensures results == ChunksOfAll(enc, halves, maxTokens, depth)
    decreases depth, 1
  {
    results := [];
    for h := 0 to |halves|
      invariant results == ChunksOfAll(enc, halves[..h], maxTokens, depth)
    {
      var halfStrings := ChunkText(enc, halves[h], maxTokens, depth);
      assert halves[..h + 1] == halves[..h] + [halves[h]];
      ChunksOfAllSnoc(enc, halves[..h], halves[h], maxTokens, depth);
      results := results + halfStrings;
    }
    assert halves[..|halves|] == halves;
  }
}
