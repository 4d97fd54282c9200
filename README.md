# content_splitter: the greedy sentence chunker

This project models `nltk_smart_chunk` from `engine/tasks.py` and proves properties about it. The function cuts a text into chunks for retrieval:

1. It splits the input into paragraphs on `"\n\n"`.
2. It strips each paragraph and splits it into sentences with NLTK's `sent_tokenize`.
3. It packs the sentences, each followed by one space, greedily into an accumulator (`current_chunk` / `current_length`). A `"\n\n"` marker follows each paragraph that produced sentences.
4. Before adding a sentence, it emits the accumulator as a chunk when both hold:
   - the sentence would overflow `chunk_size`;
   - the accumulator already holds `min_chunk_size` characters.

   The chunk text is the overlap buffer followed by the stripped accumulator. The new overlap buffer is the slice `chunk[-chunk_overlap:]`.
5. After the loops, the leftover accumulator becomes a last chunk only if it holds at least `min_chunk_size` characters.

Every chunk is a record `{"id", "text"}` with a fresh `uuid4` string.

Files:

- `pystr.dfy` (`PyStr`) gives the Python 3 string built-ins the function uses:
  - `str.isspace` and `str.strip()`;
  - `str.split(sep)` with a non-empty separator, and its inverse `sep.join`;
  - the slice `s[start:]` with a negative start.
- `chunk_spec.dfy` (`ChunkSpec`) states the algorithm on values:
  - the stream of pieces (sentences and paragraph markers) the loops consume;
  - one sentence step `Feed`, and the run as a left fold (`FeedAll`, `EndParagraph`, `RunParagraphs`, `Finish`, `ChunkTexts`);
  - the loop invariant `Inv` and the lemmas that keep it.
- `tasks.dfy` (`Tasks`) is `nltk_smart_chunk` itself as imperative code. It has the same variables, nested loops, branches and appends as the source. The predicate `Mirrors` ties the loop variables to the specification state at every step.
- `chunk_props.dfy` (`ChunkProps`) proves what the result is without reference to the loop:
  - coverage and order of the sentence stream;
  - where the cuts fall;
  - the overlap chaining between chunks;
  - the edge cases;
  - that the cut rules admit exactly one split of the stream.

Two foreign calls are parameters of `Tasks.NltkSmartChunk`, placed after the input text and before the three size parameters:

- `sentTokenize: string -> seq<string>` stands for `nltk.sent_tokenize`. It is left uninterpreted.
- `newId: nat -> string` stands for the ids: `newId(i)` is the string of the `i`-th `uuid.uuid4()` drawn during the call.

Behaviour of `nltk_smart_chunk` worth knowing, which the model keeps:

- The overlap is a plain character slice of the full emitted chunk, and that chunk already starts with its own overlap prefix.
- `chunk_overlap == 0` makes the slice `[-0:]`, which copies the whole previous chunk rather than nothing.
- The parameters are not validated. `Tasks.NltkSmartChunk` takes any integers and, like the source, defaults them to 1024, 128 and 100.
- A trailing accumulator shorter than `min_chunk_size` is silently dropped.
- A chunk's content can exceed `chunk_size` when a sentence arrives while the accumulator holds less than `min_chunk_size`.

## Model

| member | source | states |
|---|---|---|
| Tasks.NltkSmartChunk | engine/tasks.py:8-36 | The returned records are exactly the chunk texts `ChunkTexts` of the specification, in order, and the `k`-th record carries the `k`-th id drawn. |
| Tasks.AddParagraph | engine/tasks.py:14-31 | One pass of the paragraph loop: feeding the sentences of one paragraph in order, then appending `"\n\n"` (counted as 2) only if there was at least one sentence, keeps the loop variables mirroring `EndParagraph`. This includes `current_length == len(current_chunk)`. |
| Tasks.AddSentence | engine/tasks.py:17-28 | One pass of the sentence loop: the loop variables after the optional emission and the append mirror `Feed` applied to the state they mirrored before. |
| Tasks.FinishMirrors | engine/tasks.py:32-35 | The final records are the loop's records plus one record `overlap_buffer + strip(current_chunk)` exactly when `current_length >= min_chunk_size`, and unchanged otherwise. |
| Tasks.TaggedSpec | engine/tasks.py:21-23 | Record `k` of the result has the `k`-th id drawn and the `k`-th chunk text. |
| PyStr.StripSpec | engine/tasks.py:15 | `strip()` returns the infix left after cutting leading and trailing whitespace. Everything it cut is whitespace, and the result neither starts nor ends with whitespace. |
| PyStr.StripEmptyIffAllSpace | engine/tasks.py:22 | `strip()` is empty if and only if the string is all whitespace. |
| PyStr.SliceFrom | engine/tasks.py:24 | `s[start:]` is a suffix of `s`. For a negative start its length is `min(-start, len(s))`; for `start >= 0` it drops `min(start, len(s))` characters, so `s[-0:]` is all of `s`. |
| PyStr.FindSpec | engine/tasks.py:9 | The search used by `split` returns the leftmost occurrence of the separator, or the end when there is none. |
| PyStr.JoinSplit | engine/tasks.py:9 | `input_text.split('\n\n')` loses nothing: joining the paragraphs with `"\n\n"` gives back the input. |
| PyStr.SplitCutsAtLeftmost | engine/tasks.py:9 | `split` cuts at the leftmost occurrence. The first part has no occurrence of the separator. There is a single part if and only if the separator does not occur, and otherwise the rest is the split of what follows the separator. |
| ChunkSpec.RunKeepsInv | engine/tasks.py:14-31 | After the loops, the invariant holds: the successive accumulator contents, joined, are the piece stream; cuts follow the emission rule; sentences were appended only where the test did not fire; each chunk is the overlap followed by its stripped block; the overlap buffer is the slice of the last chunk. |
| ChunkProps.FeedStep | engine/tasks.py:19-28 | A chunk is emitted if and only if `current_length + len(sentence) > chunk_size` and `current_length >= min_chunk_size`. The chunk is the overlap buffer followed by the stripped accumulator; afterwards the accumulator holds only the sentence and its space, and the buffer is the `[-chunk_overlap:]` slice. Otherwise the sentence is appended and nothing else changes. |
| ChunkProps.SentencePiecesSpec | engine/tasks.py:16-17 | The sentences become pieces one for one, in order. |
| ChunkProps.BreakFollowsSentence | engine/tasks.py:29-31 | Every `"\n\n"` marker in the stream comes right after a sentence, so a paragraph that yields no sentence adds no marker. |
| ChunkProps.PackedBlocksRules | engine/tasks.py:14-31 | The accumulator contents of a run, including the dropped last one, joined give exactly the stream of `sentence + " "` and markers: nothing is split, dropped or reordered. Every cut is made where the emission test fires, and nowhere else. |
| ChunkProps.ChunkTextsCharacterised | engine/tasks.py:8-36 | The whole result without the loop. The blocks cover the stream and obey the cut rules. Every block but the last is a chunk, and the last one is a chunk only if it reaches `min_chunk_size`. Chunk `k` is the carried overlap followed by block `k`, stripped. |
| ChunkProps.FinishChained | engine/tasks.py:32-35 | The final rule adds one chunk exactly when the leftover reaches `min_chunk_size`, and keeps the overlap chaining. |
| ChunkProps.NoChunksIffShort | engine/tasks.py:32-36 | The result is empty if and only if the whole stream of sentences (with their spaces) and markers is shorter than `min_chunk_size`. |
| ChunkProps.OversizeOnlyFromShortAccumulator | engine/tasks.py:19-28 | With `min_chunk_size > 0`, an append leaves the accumulator longer than `chunk_size` only if it held fewer than `min_chunk_size` characters just before. |
| ChunkProps.FirstChunkUnprefixed | engine/tasks.py:13 | The first chunk is its stripped block alone, because the overlap buffer starts empty. |
| ChunkProps.OverlapFromPrevious | engine/tasks.py:22-24 | Every later chunk starts with a suffix of the chunk before it. That suffix is the last `min(chunk_overlap, len)` characters when `chunk_overlap > 0`, and the whole previous chunk when `chunk_overlap == 0`. |
| ChunkProps.BlocksDetermined | engine/tasks.py:19-31 | The cut rules determine the split: any division of the stream into blocks that obeys the emission and packing rules is the one the run goes through. |
| ChunkProps.GreedyUnique | engine/tasks.py:19-31 | Two divisions of the same stream that both obey the emission and packing rules are equal. |

## Left out

- `langchain_smart_chunk` (`engine/tasks.py:38-46`) is a wrapper around a library splitter whose source is not part of this model.
- `get_rabbit_connection` is left out. It reads credentials from the environment and opens a blocking network connection.
- `engine/api.py` and `engine/app.py` are left out. They are Flask routes, request parsing, RabbitMQ queues and a consumer thread: I/O, network and concurrency.
- The internals of `nltk.sent_tokenize` are foreign library code. The tokenizer is an uninterpreted parameter.
- The randomness and uniqueness of `uuid.uuid4()` are not modelled. Ids come from the parameter `newId`, one per record in drawing order.
- Python strings may hold lone surrogate code points, and Dafny `char` values cannot. Otherwise a `char` is one code point, and `IsSpace` is the exact set `str.isspace` accepts.
- The single Python function is written as three methods: `Tasks.NltkSmartChunk` holds the outer loop, and `Tasks.AddParagraph` and `Tasks.AddSentence` are the bodies of the two loops. This keeps each proof small. The variables, tests and updates are the source's.
- Records are values (`Chunk`), not mutable dictionaries. Nothing else holds a reference to them during the call.
