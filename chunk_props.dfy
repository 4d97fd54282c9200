/** What `nltk_smart_chunk` guarantees about its result, proved on the specification of
    `ChunkSpec`: the chunks cover the sentence stream in order, blocks are cut exactly where
    the emission test fires, each chunk is the overlap of the one before followed by its own
    stripped block, and the edge cases (short input, oversize sentences, `chunk_overlap == 0`). */
module ChunkProps {
  import opened PyStr
  import opened ChunkSpec

  /** The accumulator contents the run went through, the emitted ones then the leftover. */
  function PackedBlocks(text: string, cfg: Config, tokenize: Tokenizer): seq<seq<Piece>> {
    Blocks(RunParagraphs(Paragraphs(text), cfg, tokenize))
  }

  // ---------------------------------------------------------------------------------------
  // The stream of pieces.

  lemma {:induction false} SentencePiecesSpec(sents: seq<string>)
    ensures |SentencePieces(sents)| == |sents|
    ensures forall i :: 0 <= i < |sents| ==> SentencePieces(sents)[i] == Sentence(sents[i])
    decreases |sents|
  {
    if sents != [] {
      SentencePiecesSpec(sents[..|sents| - 1]);
    }
  }

  /** Every paragraph marker in `s` comes right after a sentence. */
  predicate BreaksFollowSentences(s: seq<Piece>) {
    forall i :: 0 <= i < |s| && s[i] == ParagraphBreak ==> 0 < i && s[i - 1].Sentence?
  }

  /** The paragraph marker is only ever appended after a sentence: a paragraph that yields no
      sentence contributes nothing, not even a marker. */
  lemma {:induction false} BreakFollowsSentence(paras: seq<string>, tokenize: Tokenizer)
    ensures BreaksFollowSentences(Stream(paras, tokenize))
    decreases |paras|
  {
    if paras != [] {
      var init := paras[..|paras| - 1];
      var sents := tokenize(Strip(paras[|paras| - 1]));
      var s0 := Stream(init, tokenize);
      var s := Stream(paras, tokenize);
      BreakFollowsSentence(init, tokenize);
      SentencePiecesSpec(sents);
      assert s == s0 + ParagraphPieces(sents);
      forall i | 0 <= i < |s| && s[i] == ParagraphBreak ensures 0 < i && s[i - 1].Sentence? {
        if i < |s0| {
          assert s0[i] == ParagraphBreak;
          assert s[i - 1] == s0[i - 1];
        } else {
          var sp := SentencePieces(sents);
          assert i == |s0| + |sents| && |sents| > 0;
          assert s[i - 1] == sp[|sents| - 1];
        }
      }
    }
  }

  // ---------------------------------------------------------------------------------------
  // One step.

  /** One sentence of the inner loop: a chunk is emitted exactly when adding the sentence
      would overflow `chunk_size` and the accumulator holds at least `min_chunk_size`
      characters; the chunk is the overlap buffer followed by the stripped accumulator, after
      which the accumulator holds just the sentence and its space and the buffer is the
      chunk's `[-chunk_overlap:]` slice. Otherwise the sentence and its space are appended and
      nothing else changes. This reads `Feed` off its definition. */
  lemma FeedStep(st: State, raw: string, cfg: Config)
    ensures var st' := Feed(st, raw, cfg); var acc := Concat(st.pending);
      var emits := |acc| + |raw| + 1 > cfg.chunkSize && |acc| >= cfg.minChunkSize;
      (emits ==>
         st'.texts == st.texts + [st.overlap + Strip(acc)]
         && Concat(st'.pending) == raw + " "
         && st'.overlap == SliceFrom(st.overlap + Strip(acc), -cfg.chunkOverlap))
      && (!emits ==>
         st'.texts == st.texts && Concat(st'.pending) == acc + raw + " "
         && st'.overlap == st.overlap)
  {
  }

  // ---------------------------------------------------------------------------------------
  // The result.

  lemma FinishChained(st: State, consumed: seq<Piece>, cfg: Config)
    requires Inv(st, consumed, cfg)
    ensures var out := Finish(st, cfg);
      |out| == |st.groups| + (if |Concat(st.pending)| >= cfg.minChunkSize then 1 else 0)
      && Chained(out, Blocks(st), cfg)
  {
    if |Concat(st.pending)| >= cfg.minChunkSize {
      var bs := Blocks(st);
      assert bs[|st.texts|] == st.pending;
      ChainedSnoc(st.texts, bs, cfg);
    }
  }

  /** Emitting the next block in the chain keeps the chain. */
  lemma ChainedSnoc(texts: seq<string>, bs: seq<seq<Piece>>, cfg: Config)
    requires Chained(texts, bs, cfg) && |texts| < |bs|
    ensures Chained(texts + [Carry(texts, |texts|, cfg) + Strip(Concat(bs[|texts|]))], bs, cfg)
  {
    var texts' := texts + [Carry(texts, |texts|, cfg) + Strip(Concat(bs[|texts|]))];
    forall k | 0 <= k < |texts'|
      ensures texts'[k] == Carry(texts', k, cfg) + Strip(Concat(bs[k]))
    {
      if 0 < k {
        assert texts'[k - 1] == texts[k - 1];
      }
      if k < |texts| {
        assert texts'[k] == texts[k];
      }
    }
  }

  /** The blocks the run goes through: joined, they are the stream; every cut is made just
      before a sentence on which the emission test fires, and no sentence inside a block made
      it fire. */
  lemma PackedBlocksRules(text: string, cfg: Config, tokenize: Tokenizer)
    ensures var bs := PackedBlocks(text, cfg, tokenize);
      Flatten(bs) == Stream(Paragraphs(text), tokenize)
      && EmitRule(bs, cfg) && PackRule(bs, cfg)
  {
    RunKeepsInv(Paragraphs(text), cfg, tokenize);
  }

  /** The result of `nltk_smart_chunk`, characterised without the loop: the accumulator
      contents (blocks), joined, are exactly the stream of sentences and paragraph markers
      (nothing split, dropped or reordered); every cut between blocks is made just before a
      sentence on which the emission test fires, and no sentence inside a block made it fire;
      all blocks but the last become chunks, the last only if it reaches `min_chunk_size`; and
      chunk `k` is the overlap carried from chunk `k - 1` followed by block `k`, stripped. */
  lemma ChunkTextsCharacterised(text: string, cfg: Config, tokenize: Tokenizer)
    ensures var bs := PackedBlocks(text, cfg, tokenize); var out := ChunkTexts(text, cfg, tokenize);
      Flatten(bs) == Stream(Paragraphs(text), tokenize)
      && EmitRule(bs, cfg) && PackRule(bs, cfg)
      && |bs| > 0
      && |out| == |bs| - 1 + (if |Concat(bs[|bs| - 1])| >= cfg.minChunkSize then 1 else 0)
      && Chained(out, bs, cfg)
  {
    var st := RunParagraphs(Paragraphs(text), cfg, tokenize);
    RunKeepsInv(Paragraphs(text), cfg, tokenize);
    FinishChained(st, Stream(Paragraphs(text), tokenize), cfg);
  }

  /** A block's characters are part of the characters of all the blocks. */
  lemma {:induction false} BlockWithinFlatten(bs: seq<seq<Piece>>, k: int)
    requires 0 <= k < |bs|
    ensures |Concat(bs[k])| <= |Concat(Flatten(bs))|
    decreases |bs|
  {
    var init, last := bs[..|bs| - 1], bs[|bs| - 1];
    ConcatAppend(Flatten(init), last);
    if k < |bs| - 1 {
      BlockWithinFlatten(init, k);
    }
  }

  /** The result is empty exactly when the whole stream of sentences (with their spaces) and
      paragraph markers is shorter than `min_chunk_size`: an emitted block already holds that
      many characters, and otherwise the leftover is the whole stream. */
  lemma NoChunksIffShort(text: string, cfg: Config, tokenize: Tokenizer)
    ensures ChunkTexts(text, cfg, tokenize) == []
        <==> |Concat(Stream(Paragraphs(text), tokenize))| < cfg.minChunkSize
  {
    var bs := PackedBlocks(text, cfg, tokenize);
    ChunkTextsCharacterised(text, cfg, tokenize);
    if |bs| > 1 {
      assert Boundary(bs[0], bs[1], cfg);
      BlockWithinFlatten(bs, 0);
    } else {
      assert bs == [] + [bs[0]];
      FlattenSnoc([], bs[0]);
      assert Flatten(bs) == bs[0];
    }
  }

  /** With `min_chunk_size > 0`, appending a sentence leaves the accumulator longer than
      `chunk_size` only if it held fewer than `min_chunk_size` characters just before, as it
      does right after a reset. */
  lemma OversizeOnlyFromShortAccumulator(text: string, cfg: Config, tokenize: Tokenizer,
                                         k: int, j: int)
    requires cfg.minChunkSize > 0
    requires var bs := PackedBlocks(text, cfg, tokenize);
      0 <= k < |bs| && 0 <= j < |bs[k]| && bs[k][j].Sentence?
      && |Concat(bs[k][..j + 1])| > cfg.chunkSize
    ensures |Concat(PackedBlocks(text, cfg, tokenize)[k][..j])| < cfg.minChunkSize
  {
    PackedBlocksRules(text, cfg, tokenize);
    OversizeInBlock(PackedBlocks(text, cfg, tokenize), cfg, k, j);
  }

  lemma OversizeInBlock(bs: seq<seq<Piece>>, cfg: Config, k: int, j: int)
    requires cfg.minChunkSize > 0 && PackRule(bs, cfg)
    requires 0 <= k < |bs| && 0 <= j < |bs[k]| && bs[k][j].Sentence?
    requires |Concat(bs[k][..j + 1])| > cfg.chunkSize
    ensures |Concat(bs[k][..j])| < cfg.minChunkSize
  {
    var b := bs[k];
    assert b[..j + 1] == b[..j] + [b[j]];
    ConcatSnoc(b[..j], b[j]);
    if 0 < j || k == 0 {
      assert Packed(b, k == 0, cfg);
      PackedAt(b, k == 0, cfg, j);
    }
  }

  /** The first chunk has nothing in front of its block: the overlap buffer starts empty. */
  lemma FirstChunkUnprefixed(text: string, cfg: Config, tokenize: Tokenizer)
    requires |ChunkTexts(text, cfg, tokenize)| > 0
    ensures ChunkTexts(text, cfg, tokenize)[0]
         == Strip(Concat(PackedBlocks(text, cfg, tokenize)[0]))
  {
    var out, bs := ChunkTexts(text, cfg, tokenize), PackedBlocks(text, cfg, tokenize);
    ChunkTextsCharacterised(text, cfg, tokenize);
    ChainedAt(out, bs, cfg, 0);
  }

  /** Every later chunk starts with a suffix of the chunk before it: its last
      `min(chunk_overlap, len)` characters when `chunk_overlap > 0`, and, since `[-0:]` is the
      whole string, the entire previous chunk when `chunk_overlap == 0`. */
  lemma OverlapFromPrevious(text: string, cfg: Config, tokenize: Tokenizer, k: int)
    requires 0 < k < |ChunkTexts(text, cfg, tokenize)|
    ensures |ChunkTexts(text, cfg, tokenize)| <= |PackedBlocks(text, cfg, tokenize)|
    ensures var out := ChunkTexts(text, cfg, tokenize);
      var carry := SliceFrom(out[k - 1], -cfg.chunkOverlap);
      out[k] == carry + Strip(Concat(PackedBlocks(text, cfg, tokenize)[k]))
      && |carry| <= |out[k - 1]| && carry == out[k - 1][|out[k - 1]| - |carry|..]
      && (cfg.chunkOverlap > 0 ==> |carry| == Min(cfg.chunkOverlap, |out[k - 1]|))
      && (cfg.chunkOverlap == 0 ==> carry == out[k - 1])
  {
    var out, bs := ChunkTexts(text, cfg, tokenize), PackedBlocks(text, cfg, tokenize);
    ChunkTextsCharacterised(text, cfg, tokenize);
    ChainedAt(out, bs, cfg, k);
  }

  /** Chunk `k` of a chained result, read off. */
  lemma ChainedAt(out: seq<string>, bs: seq<seq<Piece>>, cfg: Config, k: int)
    requires Chained(out, bs, cfg) && 0 <= k < |out|
    ensures k < |bs| && out[k] == Carry(out, k, cfg) + Strip(Concat(bs[k]))
  {
  }

  // ---------------------------------------------------------------------------------------
  // The rules leave no choice: one split of the stream into blocks satisfies them.

  /** A split of a stream into blocks obeying the emission and packing rules. */
  ghost predicate Greedy(bs: seq<seq<Piece>>, cfg: Config) {
    |bs| > 0 && EmitRule(bs, cfg) && PackRule(bs, cfg)
  }

  /** Each block's pieces are among the pieces of all the blocks. */
  lemma {:induction false} BlockCountWithinFlatten(bs: seq<seq<Piece>>, k: int)
    requires 0 <= k < |bs|
    ensures |bs[k]| <= |Flatten(bs)|
    decreases |bs|
  {
    if k < |bs| - 1 {
      BlockCountWithinFlatten(bs[..|bs| - 1], k);
    }
  }

  /** The split of the stream without its last piece: the last block loses that piece, and
      disappears if the piece had opened it. */
  function DropLast(bs: seq<seq<Piece>>): seq<seq<Piece>>
    requires |bs| > 0 && |bs[|bs| - 1]| > 0
  {
    var n := |bs| - 1;
    var l := bs[n];
    if |l| == 1 && n > 0 then bs[..n] else bs[..n] + [l[..|l| - 1]]
  }

  /** The last piece of a split whose last block is not empty. */
  function LastPiece(bs: seq<seq<Piece>>): Piece
    requires |bs| > 0 && |bs[|bs| - 1]| > 0
  {
    var l := bs[|bs| - 1];
    l[|l| - 1]
  }

  /** Put piece `x` back at the end of split `d`: as a block of its own when `opens`,
      otherwise at the end of the last block. */
  function PutBack(d: seq<seq<Piece>>, x: Piece, opens: bool): seq<seq<Piece>>
    requires |d| > 0
  {
    if opens then d + [[x]] else d[..|d| - 1] + [d[|d| - 1] + [x]]
  }

  /** Whether the last piece opened the last block. */
  predicate OpensLast(bs: seq<seq<Piece>>)
    requires |bs| > 0
  {
    |bs[|bs| - 1]| == 1 && |bs| > 1
  }

  lemma FlattenDropLast(bs: seq<seq<Piece>>)
    requires |bs| > 0 && |bs[|bs| - 1]| > 0
    ensures Flatten(bs) == Flatten(DropLast(bs)) + [LastPiece(bs)]
  {
    var n := |bs| - 1;
    var l := bs[n];
    assert bs == bs[..n] + [l];
    FlattenSnoc(bs[..n], l);
    if !(|l| == 1 && n > 0) {
      FlattenSnoc(bs[..n], l[..|l| - 1]);
      assert l == l[..|l| - 1] + [l[|l| - 1]];
    }
  }

  lemma GreedyDropLast(bs: seq<seq<Piece>>, cfg: Config)
    requires Greedy(bs, cfg) && |bs[|bs| - 1]| > 0
    ensures Greedy(DropLast(bs), cfg)
  {
    var n := |bs| - 1;
    var l := bs[n];
    var d := DropLast(bs);
    if |l| == 1 && n > 0 {
      forall i, j | 0 <= i < j < |d| && j == i + 1 ensures Boundary(d[i], d[j], cfg) {
        assert Boundary(bs[i], bs[j], cfg);
      }
      forall k | 0 <= k < |d| ensures Packed(d[k], k == 0, cfg) {
        assert d[k] == bs[k];
      }
    } else {
      var l' := l[..|l| - 1];
      forall i, j | 0 <= i < j < |d| && j == i + 1 ensures Boundary(d[i], d[j], cfg) {
        assert Boundary(bs[i], bs[j], cfg);
        if j == n {
          assert Opens(l) && |l| > 1;
          assert d[j] == l' && l'[0] == l[0];
        } else {
          assert d[j] == bs[j];
        }
        assert d[i] == bs[i];
      }
      forall k | 0 <= k < |d| ensures Packed(d[k], k == 0, cfg) {
        assert Packed(bs[k], k == 0, cfg);
        if k == n {
          assert d[k] == l';
        } else {
          assert d[k] == bs[k];
        }
      }
    }
  }

  /** The split is its shortened form with the last piece put back, either as a block of its
      own or at the end of the last block. */
  lemma UndoDropLast(bs: seq<seq<Piece>>)
    requires |bs| > 0 && |bs[|bs| - 1]| > 0
    ensures |DropLast(bs)| > 0 && bs == PutBack(DropLast(bs), LastPiece(bs), OpensLast(bs))
  {
    var n := |bs| - 1;
    var l := bs[n];
    var d := DropLast(bs);
    if !(|l| == 1 && n > 0) {
      assert d[..n] == bs[..n];
      assert l == l[..|l| - 1] + [l[|l| - 1]];
    } else {
      assert l == [l[0]];
    }
  }

  /** A sentence cannot both open a new block and be appended to the block before it. */
  lemma NotBothWays(d: seq<seq<Piece>>, x: Piece, cfg: Config)
    requires |d| > 0
    requires Greedy(d + [[x]], cfg)
    ensures !Greedy(d[..|d| - 1] + [d[|d| - 1] + [x]], cfg)
  {
    var m := |d| - 1;
    var a := d + [[x]];
    var b := d[..m] + [d[m] + [x]];
    if Greedy(b, cfg) {
      assert Boundary(a[m], a[m + 1], cfg);
      assert a[m] == d[m];
      assert Packed(b[m], m == 0, cfg);
      assert b[m] == d[m] + [x];
      assert (d[m] + [x])[..|d[m]|] == d[m];
      if m > 0 {
        LaterBlockOpens(a, cfg, m);
      }
    }
  }

  /** Two splits of the same stream that both obey the rules are the same split. */
  lemma {:induction false} GreedyUnique(bs1: seq<seq<Piece>>, bs2: seq<seq<Piece>>, cfg: Config)
    requires Greedy(bs1, cfg) && Greedy(bs2, cfg) && Flatten(bs1) == Flatten(bs2)
    ensures bs1 == bs2
    decreases |Flatten(bs1)|
  {
    if |bs1[|bs1| - 1]| == 0 {
      EmptyLastBlock(bs1, bs2, cfg);
    } else if |bs2[|bs2| - 1]| == 0 {
      EmptyLastBlock(bs2, bs1, cfg);
    } else {
      var d1, d2 := DropLast(bs1), DropLast(bs2);
      FlattenDropLast(bs1);
      FlattenDropLast(bs2);
      GreedyDropLast(bs1, cfg);
      GreedyDropLast(bs2, cfg);
      var s := Flatten(bs1);
      assert Flatten(d1) == s[..|s| - 1] && Flatten(d2) == s[..|s| - 1];
      GreedyUnique(d1, d2, cfg);
      SameLastStep(bs1, bs2, cfg);
    }
  }

  /** Two splits that agree once their common last piece is dropped agree. */
  lemma SameLastStep(bs1: seq<seq<Piece>>, bs2: seq<seq<Piece>>, cfg: Config)
    requires Greedy(bs1, cfg) && Greedy(bs2, cfg)
    requires |bs1[|bs1| - 1]| > 0 && |bs2[|bs2| - 1]| > 0
    requires DropLast(bs1) == DropLast(bs2)
    requires Flatten(bs1) == Flatten(bs2)
    ensures bs1 == bs2
  {
    var d := DropLast(bs1);
    var x := LastPiece(bs1);
    FlattenDropLast(bs1);
    FlattenDropLast(bs2);
    SnocInjective(Flatten(d), x, LastPiece(bs2));
    UndoDropLast(bs1);
    UndoDropLast(bs2);
    if OpensLast(bs1) != OpensLast(bs2) {
      NotBothWays(d, x, cfg);
    }
  }

  lemma SnocInjective(f: seq<Piece>, x: Piece, y: Piece)
    requires f + [x] == f + [y]
    ensures x == y
  {
    assert (f + [x])[|f|] == x;
  }

  /** When a split ends in an empty block, the stream is empty and the split is `[[]]`. */
  lemma EmptyLastBlock(bs1: seq<seq<Piece>>, bs2: seq<seq<Piece>>, cfg: Config)
    requires Greedy(bs1, cfg) && Greedy(bs2, cfg) && Flatten(bs1) == Flatten(bs2)
    requires |bs1[|bs1| - 1]| == 0
    ensures bs1 == bs2
  {
    OnlyFirstBlockEmpty(bs1, cfg);
    FlattenSnoc([], []);
    assert [] + [[]] == bs1;
    BlockCountWithinFlatten(bs2, |bs2| - 1);
    OnlyFirstBlockEmpty(bs2, cfg);
  }

  /** Only the first block can be empty: every later one opens with a sentence. */
  lemma OnlyFirstBlockEmpty(bs: seq<seq<Piece>>, cfg: Config)
    requires Greedy(bs, cfg) && |bs[|bs| - 1]| == 0
    ensures bs == [[]]
  {
    if |bs| > 1 {
      LaterBlockOpens(bs, cfg, |bs| - 1);
    }
  }

  lemma LaterBlockOpens(bs: seq<seq<Piece>>, cfg: Config, j: int)
    requires EmitRule(bs, cfg) && 0 < j < |bs|
    ensures Opens(bs[j])
  {
    assert Boundary(bs[j - 1], bs[j], cfg);
  }

  /** The rules single out the run's blocks: any split of the stream into blocks that obeys
      them is the one `nltk_smart_chunk` goes through, so, with the chunk rule of
      `ChunkTextsCharacterised`, they determine the result. */
  lemma BlocksDetermined(text: string, cfg: Config, tokenize: Tokenizer, bs: seq<seq<Piece>>)
    requires Greedy(bs, cfg) && Flatten(bs) == Stream(Paragraphs(text), tokenize)
    ensures bs == PackedBlocks(text, cfg, tokenize)
  {
    PackedBlocksRules(text, cfg, tokenize);
    GreedyUnique(bs, PackedBlocks(text, cfg, tokenize), cfg);
  }
}
