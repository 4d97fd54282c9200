/** `nltk_smart_chunk` (engine/tasks.py), written as the loops the source runs. The two
    foreign calls are parameters: `sentTokenize` stands for `nltk.sent_tokenize`, and
    `newId(i)` for the string of the `i`-th `uuid.uuid4()` drawn during the call. */
module Tasks {
  import opened PyStr
  import opened ChunkSpec

  /** One record of the result list: `{"id": ..., "text": ...}`. */
  datatype Chunk = Chunk(id: string, text: string)

  /** The records made for the given texts, in order, the `k`-th with the `k`-th id drawn. */
  function Tagged(texts: seq<string>, newId: nat -> string): (r: seq<Chunk>)
    ensures |r| == |texts|
    decreases |texts|
  {
    if texts == [] then []
    else Tagged(texts[..|texts| - 1], newId) + [Chunk(newId(|texts| - 1), texts[|texts| - 1])]
  }

  lemma TaggedSnoc(texts: seq<string>, t: string, newId: nat -> string)
    ensures Tagged(texts + [t], newId) == Tagged(texts, newId) + [Chunk(newId(|texts|), t)]
  {
    assert (texts + [t])[..|texts|] == texts;
  }

  lemma {:induction false} TaggedSpec(texts: seq<string>, newId: nat -> string)
    ensures forall k :: 0 <= k < |texts| ==> Tagged(texts, newId)[k] == Chunk(newId(k), texts[k])
    decreases |texts|
  {
    if texts != [] {
      TaggedSpec(texts[..|texts| - 1], newId);
    }
  }

  /** The loop variables mirror the specification state: the emitted records are the
      emitted texts; `current_chunk` holds the pending pieces; `current_length` is its
      length; the overlap buffers agree. */
  ghost predicate Mirrors(st: State, chunkData: seq<Chunk>, currentChunk: string,
                          currentLength: int, overlapBuffer: string, newId: nat -> string)
  {
    chunkData == Tagged(st.texts, newId)
    && currentChunk == Concat(st.pending)
    && currentLength == |currentChunk|
    && overlapBuffer == st.overlap
  }

  /** The inner loop body when the accumulator is emitted first: the record appended, the
      accumulator restarted with the sentence and the overlap buffer renewed agree with
      `Feed`. */
  lemma FeedEmitsMirrors(st: State, chunkData: seq<Chunk>, currentChunk: string,
                         currentLength: int, overlapBuffer: string, newId: nat -> string,
                         raw: string, cfg: Config)
    requires Mirrors(st, chunkData, currentChunk, currentLength, overlapBuffer, newId)
    requires currentLength + |raw + " "| > cfg.chunkSize && currentLength >= cfg.minChunkSize
    ensures var full := overlapBuffer + Strip(currentChunk);
      Mirrors(Feed(st, raw, cfg), chunkData + [Chunk(newId(|chunkData|), full)], raw + " ",
              |raw + " "|, SliceFrom(full, -cfg.chunkOverlap), newId)
  {
    var p := Sentence(raw);
    var full := overlapBuffer + Strip(currentChunk);
    assert Emits(Concat(st.pending), p, cfg);
    var next := State(st.groups + [st.pending], [p], st.texts + [full],
                      SliceFrom(full, -cfg.chunkOverlap));
    assert Feed(st, raw, cfg) == next;
    TaggedSnoc(st.texts, full, newId);
    ConcatSnoc([], p);
    assert [] + [p] == [p];
  }

  /** The inner loop body when nothing is emitted: appending the sentence agrees with
      `Feed`. */
  lemma FeedAppendsMirrors(st: State, chunkData: seq<Chunk>, currentChunk: string,
                           currentLength: int, overlapBuffer: string, newId: nat -> string,
                           raw: string, cfg: Config)
    requires Mirrors(st, chunkData, currentChunk, currentLength, overlapBuffer, newId)
    requires !(currentLength + |raw + " "| > cfg.chunkSize && currentLength >= cfg.minChunkSize)
    ensures Mirrors(Feed(st, raw, cfg), chunkData, currentChunk + (raw + " "),
                    currentLength + |raw + " "|, overlapBuffer, newId)
  {
    ConcatSnoc(st.pending, Sentence(raw));
  }

  /** The paragraph marker appended after a non-empty paragraph agrees with `EndParagraph`. */
  lemma EndParagraphMirrors(st0: State, sents: seq<string>, cfg: Config, chunkData: seq<Chunk>,
                            currentChunk: string, currentLength: int, overlapBuffer: string,
                            newId: nat -> string)
    requires Mirrors(FeedAll(st0, sents, cfg), chunkData, currentChunk, currentLength,
                     overlapBuffer, newId)
    ensures if |sents| > 0 then
        Mirrors(EndParagraph(st0, sents, cfg), chunkData, currentChunk + "\n\n",
                currentLength + 2, overlapBuffer, newId)
      else
        Mirrors(EndParagraph(st0, sents, cfg), chunkData, currentChunk, currentLength,
                overlapBuffer, newId)
  {
    ConcatSnoc(FeedAll(st0, sents, cfg).pending, ParagraphBreak);
  }

  /** The final emission after the loops agrees with `Finish`; it follows from unfolding the
      definitions. */
  lemma FinishMirrors(st: State, cfg: Config, chunkData: seq<Chunk>, currentChunk: string,
                      currentLength: int, overlapBuffer: string, newId: nat -> string)
    requires Mirrors(st, chunkData, currentChunk, currentLength, overlapBuffer, newId)
    ensures Tagged(Finish(st, cfg), newId)
      == if currentLength >= cfg.minChunkSize
         then chunkData + [Chunk(newId(|chunkData|), overlapBuffer + Strip(currentChunk))]
         else chunkData
  {
  }

  lemma FeedAllSnoc(st: State, sents: seq<string>, j: int, cfg: Config)
    requires 0 <= j < |sents|
    ensures FeedAll(st, sents[..j + 1], cfg) == Feed(FeedAll(st, sents[..j], cfg), sents[j], cfg)
  {
    assert sents[..j + 1][..j] == sents[..j];
  }

  lemma RunParagraphsSnoc(paras: seq<string>, i: int, cfg: Config, tokenize: Tokenizer)
    requires 0 <= i < |paras|
    ensures RunParagraphs(paras[..i + 1], cfg, tokenize)
      == EndParagraph(RunParagraphs(paras[..i], cfg, tokenize), tokenize(Strip(paras[i])), cfg)
  {
    assert paras[..i + 1][..i] == paras[..i];
  }

  /** One pass of the sentence loop: emit the accumulator first when it is long enough and
      adding the sentence would overflow `chunk_size`, then append the sentence. The new loop
      variables mirror `Feed` applied to the state the old ones mirror. */
  method AddSentence(raw: string, chunkSize: int, chunkOverlap: int, minChunkSize: int,
                     newId: nat -> string, ghost st: State, chunkData0: seq<Chunk>,
                     currentChunk0: string, currentLength0: int, overlapBuffer0: string)
    returns (chunkData: seq<Chunk>, currentChunk: string, currentLength: int,
             overlapBuffer: string)
    requires Mirrors(st, chunkData0, currentChunk0, currentLength0, overlapBuffer0, newId)
    ensures Mirrors(Feed(st, raw, Config(chunkSize, chunkOverlap, minChunkSize)), chunkData,
                    currentChunk, currentLength, overlapBuffer, newId)
  {
    ghost var cfg := Config(chunkSize, chunkOverlap, minChunkSize);
    chunkData, currentChunk, currentLength, overlapBuffer :=
      chunkData0, currentChunk0, currentLength0, overlapBuffer0;
    var sentence := raw + " ";
    var sentenceLen := |sentence|;
    if currentLength + sentenceLen > chunkSize && currentLength >= minChunkSize {
      FeedEmitsMirrors(st, chunkData, currentChunk, currentLength, overlapBuffer, newId,
                       raw, cfg);
    } else {
      FeedAppendsMirrors(st, chunkData, currentChunk, currentLength, overlapBuffer, newId,
                         raw, cfg);
    }
    if currentLength + sentenceLen > chunkSize {
      if currentLength >= minChunkSize {
        var chunkId := newId(|chunkData|);
        var fullChunk := overlapBuffer + Strip(currentChunk);
        chunkData := chunkData + [Chunk(chunkId, fullChunk)];
        overlapBuffer := SliceFrom(fullChunk, -chunkOverlap);
        currentChunk := "";
        currentLength := 0;
      }
    }
    currentChunk := currentChunk + sentence;
    currentLength := currentLength + sentenceLen;
  }

  /** One pass of the paragraph loop, given the paragraph's sentences: the sentence loop,
      then the paragraph marker if there was any sentence. The new loop variables mirror
      `EndParagraph` applied to the state the old ones mirror. */
  method AddParagraph(sentences: seq<string>, chunkSize: int, chunkOverlap: int,
                      minChunkSize: int, newId: nat -> string, ghost st0: State,
                      chunkData0: seq<Chunk>, currentChunk0: string, currentLength0: int,
                      overlapBuffer0: string)
    returns (chunkData: seq<Chunk>, currentChunk: string, currentLength: int,
             overlapBuffer: string)
    requires Mirrors(st0, chunkData0, currentChunk0, currentLength0, overlapBuffer0, newId)
    ensures Mirrors(EndParagraph(st0, sentences, Config(chunkSize, chunkOverlap, minChunkSize)),
                    chunkData, currentChunk, currentLength, overlapBuffer, newId)
  {
    ghost var cfg := Config(chunkSize, chunkOverlap, minChunkSize);
    chunkData, currentChunk, currentLength, overlapBuffer :=
      chunkData0, currentChunk0, currentLength0, overlapBuffer0;
    ghost var st := st0;
    var j := 0;
    assert st == FeedAll(st0, sentences[..0], cfg);
    while j < |sentences|
      invariant 0 <= j <= |sentences|
      invariant st == FeedAll(st0, sentences[..j], cfg)
      invariant Mirrors(st, chunkData, currentChunk, currentLength, overlapBuffer, newId)
    {
      FeedAllSnoc(st0, sentences, j, cfg);
      chunkData, currentChunk, currentLength, overlapBuffer :=
        AddSentence(sentences[j], chunkSize, chunkOverlap, minChunkSize, newId, st,
                    chunkData, currentChunk, currentLength, overlapBuffer);
      st := Feed(st, sentences[j], cfg);
      j := j + 1;
    }
    assert sentences[..j] == sentences;
    EndParagraphMirrors(st0, sentences, cfg, chunkData, currentChunk, currentLength,
                        overlapBuffer, newId);
    if |sentences| > 0 {
      currentChunk := currentChunk + "\n\n";
      currentLength := currentLength + 2;
    }
  }

  /** The returned records are the chunk texts of the specification, in order, the `k`-th
      carrying the `k`-th id drawn. */
  method NltkSmartChunk(inputText: string, sentTokenize: Tokenizer, newId: nat -> string,
                        chunkSize: int := 1024, chunkOverlap: int := 128,
                        minChunkSize: int := 100)
    returns (chunkData: seq<Chunk>)
    ensures var texts := ChunkTexts(inputText, Config(chunkSize, chunkOverlap, minChunkSize),
                                    sentTokenize);
      |chunkData| == |texts|
      && forall k :: 0 <= k < |chunkData| ==> chunkData[k] == Chunk(newId(k), texts[k])
  {
    ghost var cfg := Config(chunkSize, chunkOverlap, minChunkSize);
    var paragraphs := Split(inputText, "\n\n");
    chunkData := [];
    var currentChunk := "";
    var currentLength := 0;
    var overlapBuffer := "";
    ghost var st := Start;
    var i := 0;
    while i < |paragraphs|
      invariant 0 <= i <= |paragraphs|
      invariant st == RunParagraphs(paragraphs[..i], cfg, sentTokenize)
      invariant Mirrors(st, chunkData, currentChunk, currentLength, overlapBuffer, newId)
    {
      var para := paragraphs[i];
      var sentences := sentTokenize(Strip(para));
      chunkData, currentChunk, currentLength, overlapBuffer :=
        AddParagraph(sentences, chunkSize, chunkOverlap, minChunkSize, newId, st,
                     chunkData, currentChunk, currentLength, overlapBuffer);
      RunParagraphsSnoc(paragraphs, i, cfg, sentTokenize);
      st := EndParagraph(st, sentences, cfg);
      i := i + 1;
    }
    assert paragraphs[..i] == paragraphs;
    FinishMirrors(st, cfg, chunkData, currentChunk, currentLength, overlapBuffer, newId);
    if currentLength >= minChunkSize {
      var chunkId := newId(|chunkData|);
      var fullChunk := overlapBuffer + Strip(currentChunk);
      chunkData := chunkData + [Chunk(chunkId, fullChunk)];
    }
    TaggedSpec(ChunkTexts(inputText, cfg, sentTokenize), newId);
  }
}
