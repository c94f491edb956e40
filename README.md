# Text pipeline of the Sam Altman question-answering demo, in Dafny

This project models the text-processing core of a small question-answering
demo. The demo cleans a plain-text article, cuts it into pieces that fit a
token budget, and wraps the article and a user question into a prompt for a
chat completion service. The model covers:

- **`PyStr`** (`py_str.dfy`): Python's `str.find`, `str.split(sep)` and
  `sep.join(parts)` for a non-empty separator, and the whitespace test behind
  `str.strip()`. It proves that joining the pieces of a split gives back the
  string, and that splitting undoes a join on a one-character separator.
- **`Tokenizer`** (`tokenizer.dfy`): the token counter `num_tokens` and
  `truncated_string`. The encoding is a given pair of total functions
  `encode`/`decode`, and `num_tokens` is the length of the encoding.
  Truncation keeps the first `max_tokens` token ids and decodes them. It fits
  the budget under one stated assumption, `RecodeBounded`: re-encoding a
  decoded token list never gives more tokens.
- **`Halving`** (`halving.dfy`): `halved_by_delimiter`. The method keeps the
  source's loop with its early `break`. It is proved equal to a recursive
  greedy scan. The stopping index of that scan is characterised
  declaratively (`IsGreedyStop`) and shown to be unique.
- **`Chunker`** (`chunker.dfy`): `chunk_text`.
  - The method keeps the loop over the delimiters `"\n\n"`, `"\n"`, `". "`
    and the inner loop that extends `results` with the chunks of each half.
  - Its specification is `Chunks`, which is parameterised by the halving
    step. The text is cut into the pieces that are no longer split
    (`Pieces`). Each piece is kept when it fits and truncated otherwise.
  - The lemmas prove:
    - a text within the budget is its own one chunk;
    - a text is truncated when the recursion budget is spent or no delimiter
      gives two non-empty halves;
    - a split uses the first usable delimiter and lists the left half's
      chunks before the right half's;
    - under `RecodeBounded`, every chunk fits the budget;
    - when nothing is truncated, the chunks put back together with the
      dropped delimiters give the text.
- **`Normalizer`** (`normalizer.dfy`): `clean_text_file` of both files, on
  the contents of the file. It covers:
  - skipping the first lines, as iterating over a text file yields them;
  - deleting the citation markers `[digits]` left to right, with
    `re.sub` semantics;
  - dropping blank lines and joining the rest with `"\n"`.
- **`Prompt`** (`prompt.dfy`): `construct_prompt`, the two-turn message list
  of `answer`, and `answer` itself with the chat completion service as a
  parameter.

Integers such as `max_tokens` and `max_recursion` are unbounded naturals.
The token budget of `construct_prompt` is an unbounded integer.

The code and the design notes of the system disagree in one place, and the
model follows the code. The notes call the normaliser idempotent, with no
markers left in its output. But one pass of `re.sub(r'\[\d+\]', '', …)` can
bring together a new marker: `"[[1]2]"` becomes `"[2]"`, which a second
pass turns into `""`. `Normalizer.RemoveMarkersNotIdempotent` proves this.

## Model

| member | source | states |
|---|---|---|
| PyStr.FindFirst | textEmbedding.py:41 | `Find` returns the first occurrence of the separator, and `None` exactly when it does not occur |
| PyStr.FindFromFirst | textEmbedding.py:41 | a search from index `i` returns the first occurrence at or after `i`, and `None` exactly when there is none |
| PyStr.Split | textEmbedding.py:41-42 | a split has at least one piece, and exactly one piece when the separator does not occur |
| PyStr.JoinSplit | textEmbedding.py:41 | joining the pieces of `s.split(d)` with `d` gives back `s` |
| PyStr.SplitPiecesFree | textEmbedding.py:41 | no piece of a split contains the separator |
| PyStr.JoinAt | textEmbedding.py:58-59 | for `1 <= i < len(parts)`, `d.join(parts[:i]) + d + d.join(parts[i:]) == d.join(parts)` |
| PyStr.SplitJoinChar | App.py:47-48 | splitting on a one-character separator undoes joining pieces that do not contain it |
| Tokenizer.TruncatedString | textEmbedding.py:63-74 | over the budget the text is the decoding of the first `max_tokens` tokens, within it the decoded encoding; the warning is given exactly when warnings are on and the encoding has more than `max_tokens` tokens, and it carries both counts; under `RecodeBounded` the result has at most `max_tokens` tokens |
| Halving.GreedyStopUnique | textEmbedding.py:50-57 | at most one index satisfies the stopping condition of the greedy scan |
| Halving.GreedyScanStops | textEmbedding.py:50-57 | the recursive scan returns the index where the loop stops: every earlier piece strictly improved on the best difference so far, and this one does not unless it is the last |
| Halving.HalvedWithoutDelimiter | textEmbedding.py:41-43 | when the delimiter does not occur, the halves are the whole string and `""` |
| Halving.HalvedTwoPieces | textEmbedding.py:44-45 | with exactly two pieces the halves are those pieces, and they rejoin around the delimiter |
| Halving.HalvedGreedy | textEmbedding.py:46-60 | with three pieces or more, the cut falls before the piece where the greedy scan stops, aiming at half the tokens of the string |
| Halving.HalvedRejoins | textEmbedding.py:58-59 | when the delimiter occurs, `left + delimiter + right == string`, unless the cut falls before the first piece, which leaves `("", string)` |
| Halving.UsableHalvesRejoin | textEmbedding.py:58-59 | two non-empty halves lose exactly one delimiter occurrence, and each is shorter than the string |
| Halving.HalvedByDelimiter | textEmbedding.py:39-60 | the loop with its early `break` computes exactly the halves of `Halved` |
| Chunker.HalvedBy | textEmbedding.py:39-60 | the halving step of the chunker cuts every text at every delimiter as `halved_by_delimiter` does |
| Chunker.HalvedByRejoins | textEmbedding.py:58-59 | `halved_by_delimiter` loses only the delimiter it cuts at whenever both halves are non-empty |
| Chunker.FirstUsable | textEmbedding.py:96-100 | the chosen delimiter index lies among the three delimiters |
| Chunker.FirstUsableFirst | textEmbedding.py:96-100 | the chosen delimiter gives two non-empty halves and every earlier one does not; there is none exactly when no delimiter gives two non-empty halves |
| Chunker.Pieces | textEmbedding.py:86-114 | a text always yields at least one piece |
| Chunker.Seps | textEmbedding.py:96-112 | there is one dropped delimiter fewer than there are pieces |
| Chunker.PiecesUnsplit | textEmbedding.py:88-92 | a text that fits, or is at depth 0, or has no usable delimiter, is its own piece, with no dropped delimiter |
| Chunker.PiecesSplit | textEmbedding.py:101-112 | a split text has the pieces of its left half then those of its right half, with the delimiter between them |
| Chunker.FinishAll | textEmbedding.py:88-92 | finishing keeps the number of pieces |
| Chunker.FinishAllAppend | textEmbedding.py:111 | finishing two lists one after the other is finishing their concatenation |
| Chunker.FinishAllFitting | textEmbedding.py:88-89 | pieces within the budget are kept unchanged |
| Chunker.FinishAllWithinBudget | textEmbedding.py:92 | under `RecodeBounded`, every finished piece fits the budget |
| Chunker.ChunksFitting | textEmbedding.py:86-89 | a text within the budget gives exactly `[string]` |
| Chunker.ChunksTruncated | textEmbedding.py:90-92 | a text over the budget gives exactly its truncation, when the recursion budget is spent or when no delimiter gives two non-empty halves |
| Chunker.ChunksSplitAtFirstUsable | textEmbedding.py:96-112 | a split uses the first usable delimiter, recurses with `max_recursion - 1`, and lists the chunks of the left half before those of the right half |
| Chunker.DefaultChunking | textEmbedding.py:77-92 | `chunk_text(contexts)` with the default budget of 1600 tokens and depth of 5 gives a text within the budget back whole, and under `RecodeBounded` every chunk has at most 1600 tokens |
| Chunker.ChunksWithinBudget | textEmbedding.py:83-92 | under `RecodeBounded`, every chunk has at most `max_tokens` tokens, whatever the halving |
| Chunker.InterleaveAppend | textEmbedding.py:58-59 | interleaving two piece lists joined at a delimiter is interleaving each one and putting the delimiter between them |
| Chunker.SplitInterleave | textEmbedding.py:101-112 | the pieces of a split text, interleaved with the dropped delimiters, are those of its halves around the delimiter it was cut at |
| Chunker.SplitRejoins | textEmbedding.py:96-112 | when both halves reassemble from their pieces, the text does too |
| Chunker.PiecesInterleave | textEmbedding.py:86-114 | for a halving that loses only the delimiter it cuts at, the pieces interleaved with the dropped delimiters give back the text |
| Chunker.ChunksReassemble | textEmbedding.py:86-114 | when no piece had to be truncated, the chunks are the pieces, and they give back the text when put together with the dropped delimiters |
| Chunker.ChunksOfAllSnoc | textEmbedding.py:104-111 | extending the result with the chunks of one more half appends that half's chunks |
| Chunker.ChunksOfAllPair | textEmbedding.py:104-112 | the result of the inner loop over `[left, right]` is the chunks of `left` followed by those of `right` |
| Chunker.TextChunksSplit | textEmbedding.py:96-112 | at the first delimiter giving two non-empty halves, the halves rejoin around it, and the chunks are those of the halves in order, one level of recursion down |
| Chunker.TextChunksUnsplit | textEmbedding.py:113-114 | when no delimiter gives two non-empty halves, the result is the truncation alone |
| Chunker.ChunkText | textEmbedding.py:77-114 | the method returns the specified chunks: `[string]` within the budget, the truncation at depth 0, and, under `RecodeBounded`, only chunks within the budget |
| Chunker.ChunkHalves | textEmbedding.py:103-112 | the inner loop returns the chunks of each half in turn, one list after the other |
| Normalizer.DigitRun | App.py:44 | the length of the run of digits a text starts with: all of them are digits and the next character is not |
| Normalizer.MarkerLengthSpec | App.py:44 | `MarkerLength(s) == Some(n)` exactly when the first `n` characters of `s` are `[`, one or more digits and `]` |
| Normalizer.RemoveMarkers | App.py:44 | marker removal never lengthens the text |
| Normalizer.RemoveMarkersNoBracket | App.py:44 | a text without `[` is unchanged |
| Normalizer.RemoveMarkersKeepsPrefix | App.py:44 | a prefix without `[` is kept as it is, in front of the cleaned rest |
| Normalizer.RemoveMarkersDropsMarker | App.py:44 | a marker at the scanning point is deleted and scanning resumes after it |
| Normalizer.RemoveMarkersDropsWhole | App.py:44 | a text that is one marker becomes empty |
| Normalizer.RemoveMarkersExample | textEmbedding.py:22 | `"abc[12]def[3]"` becomes `"abcdef"` |
| Normalizer.RemoveMarkersNested | App.py:44 | `"[[1]2]"` becomes `"[2]"` |
| Normalizer.RemoveMarkersNotIdempotent | App.py:44 | a second pass can change the output of the first: `"[[1]2]"` gives `"[2]"`, then `""` |
| Normalizer.RemoveMarkersShrinks | App.py:44 | a text in which a marker occurs anywhere always gets shorter |
| Normalizer.RemoveMarkersKeepsUnmarked | App.py:44 | a text in which no marker occurs is unchanged |
| Normalizer.RemoveMarkersUnchanged | App.py:44 | marker removal leaves a text unchanged exactly when no marker occurs in it |
| Normalizer.KeepNonBlank | App.py:47 | the comprehension keeps at most as many lines as it is given |
| Normalizer.KeepNonBlankSpec | App.py:47 | every kept line is an input line and not blank, every non-blank input line is kept, and nothing is kept exactly when every line is blank |
| Normalizer.LinesHoldNoBreak | App.py:47 | no line of `split('\n')` contains a line break |
| Normalizer.CleanedLinesShape | App.py:47 | every cleaned line is non-empty, holds no line break and is not blank |
| Normalizer.CleanTextLines | textEmbedding.py:21-31 | the lines of the cleaned text are exactly the non-blank lines left after marker removal, in order; the text is empty exactly when every line is blank |
| Normalizer.JoinNoDouble | textEmbedding.py:26 | joining non-empty pieces free of the separator gives text that neither starts nor ends with it and never holds it twice in a row |
| Normalizer.CleanTextShape | textEmbedding.py:24-26 | the cleaned text has no blank line, no `"\n\n"`, and no `"\n"` at either end |
| Normalizer.ConcatFileLines | App.py:38-41 | the lines a file yields, put together, are its contents |
| Normalizer.NextLine | App.py:39 | `next(f)` consumes at least one character when it succeeds |
| Normalizer.SkipLinesSpec | App.py:38-41 | skipping `n` lines succeeds exactly when the file has at least `n` lines and then leaves the lines after the first `n`; otherwise it fails with `StopIteration` |
| Normalizer.CleanTextFileSpec | App.py:34-53 | `clean_text_file(file, skip_lines)` fails with `StopIteration` exactly when the file has fewer than `skip_lines` lines, and otherwise cleans the lines after the skipped ones |
| Normalizer.CleanTextFileNoSkip | App.py:34-53 | without skipping, App.py's `clean_text_file` is that of textEmbedding.py |
| Prompt.AssemblePromptLayout | App.py:64-66 | the prompt is exactly the header, the opening framing, the context, the closing framing, `"\n\nQuestion: "` and the query: the header is a prefix, the query a suffix, and the context sits right after the header and framing |
| Prompt.AssemblePromptDeterminesParts | App.py:64-66 | with the header fixed and contexts of equal length, equal prompts come only from equal contexts and equal queries |
| Prompt.ConstructPrompt | App.py:62-71 | the prompt is returned exactly when its token count is within the budget, unchanged; otherwise the error is `ValueError('Token numbers exceed maximum tokens allowed')` |
| Prompt.ConstructPromptBoundary | App.py:69-71 | a count equal to the budget is accepted, one token beyond it is refused, and a negative budget refuses every prompt |
| Prompt.ConstructPromptMonotone | App.py:69-71 | a larger budget accepts every prompt a smaller one accepts, with the same result |
| Prompt.Messages | App.py:79-82 | exactly two turns, in order: the system turn with the fixed role text, then the user turn holding the prompt |
| Prompt.Answer | App.py:74-89 | a rejected prompt is passed on as the error; otherwise the service is asked with the two turns at temperature 0, and the answer is its first choice, or `IndexError` when it gives none |
| Prompt.AnswerAsksWithPrompt | App.py:76-89 | within the budget, the user turn sent holds the assembled prompt, which starts with the header and ends with the query; the temperature is 0; and an answer comes back exactly when the service gives a choice |
| Prompt.DefaultAnswer | App.py:74-89 | `answer(question, contexts)` with the defaults: the prompt starts with `HEADER`; over 2048 tokens it is refused, otherwise `gpt-3.5-turbo` is asked with the two turns at temperature 0 and its first choice is the answer |

## Left out

- The calls to the OpenAI services (`openai.ChatCompletion.create`,
  `openai.Embedding.create`). In `Prompt.Answer` the chat completion service
  is a function parameter. The embedding call and its floating-point vectors
  are not modelled.
- The internals of `tiktoken`. The encoding is a parameter, and the budget
  bound of truncation rests on the stated assumption `RecodeBounded`.
- Opening and reading the file. The normaliser works on the file's contents
  as a string. Text-mode newline translation (`"\r\n"` read as `"\n"`) is
  not modelled.
- The `print` of the truncation warning and the `print_message` debug print.
  The warning is a returned value of `Tokenizer.TruncatedString`.
  `Chunker.Truncate` keeps only the text.
- The Streamlit user interface and the `st.cache_data` memoisation. The
  module-level script lines are also left out: the API key, the calls on
  `'./Sam Altman.txt'` and the embedding request.
- Normalizer.IsDigit: `\d` is ASCII digits only. Python's `re` also accepts
  other Unicode decimal digits in `str` patterns.
- Chunker.ChunkText: `max_tokens` and `max_recursion` are naturals. With a
  negative `max_recursion` the source keeps recursing until no split is
  possible. A negative `max_tokens` would also make `truncated_string` slice
  from the end. Neither case is modelled.
- Chunker.ChunkText: `chunk_text` counts tokens with the encoding of its
  `GPT_MODEL`, gpt-4, whatever its `model` argument: in its own count and in
  the counts of `halved_by_delimiter`. Only the truncation follows `model`.
  The model has one encoding `enc` for both, so it covers the calls whose
  `model` has gpt-4's encoding, as the default does. A `model` with another
  encoding, which would decide fit and split points in gpt-4 tokens but
  truncate in its own, is not modelled.
- Normalizer.SkipLines: `skip_lines` is a natural. A negative `skip_lines`
  behaves as 0 in `range(skip_lines)` and is not modelled.
- Chunker.Chunks: the halving step is a parameter. `chunk_text` uses
  `Chunker.HalvedBy`, which is characterised by being equal to
  `halved_by_delimiter` on every text and delimiter.
