/** The greedy sentence packer of `nltk_smart_chunk` as a specification: the stream of pieces
    the loop consumes, one step of the loop as a function on an abstract state, the run as a
    left fold over paragraphs and sentences, and the properties of the result. */
module ChunkSpec {
  import opened PyStr

  /** The paragraph break: the separator of `input_text.split('\n\n')` and the marker the loop
      appends after a paragraph. */
  const ParagraphBreakText: string := "\n\n"

  /** `chunk_size`, `chunk_overlap`, `min_chunk_size`; no validation, any integers. */
  datatype Config = Config(chunkSize: int, chunkOverlap: int, minChunkSize: int)

  /** The sentence tokenizer (`nltk.sent_tokenize`), left uninterpreted. */
  type Tokenizer = string -> seq<string>

  /** One item the accumulator receives: a tokenized sentence (appended with one trailing
      space) or the paragraph marker. */
  datatype Piece = Sentence(raw: string) | ParagraphBreak {
    function Text(): string {
      match this
      case Sentence(raw) => raw + " "
      case ParagraphBreak => ParagraphBreakText
    }
  }

  /** The characters of a run of pieces, in order. */
  function Concat(ps: seq<Piece>): string
    decreases |ps|
  {
    if ps == [] then "" else Concat(ps[..|ps| - 1]) + ps[|ps| - 1].Text()
  }

  function Flatten(bs: seq<seq<Piece>>): seq<Piece>
    decreases |bs|
  {
    if bs == [] then [] else Flatten(bs[..|bs| - 1]) + bs[|bs| - 1]
  }

  function SentencePieces(sents: seq<string>): seq<Piece>
    decreases |sents|
  {
    if sents == [] then []
    else SentencePieces(sents[..|sents| - 1]) + [Sentence(sents[|sents| - 1])]
  }

  /** What one paragraph contributes: its sentences, then a marker if there was at least one. */
  function ParagraphPieces(sents: seq<string>): seq<Piece> {
    SentencePieces(sents) + (if |sents| > 0 then [ParagraphBreak] else [])
  }

  /** The whole stream of pieces the loop feeds into the accumulator, paragraph by paragraph;
      each paragraph is stripped before it is tokenized. */
  function Stream(paras: seq<string>, tokenize: Tokenizer): seq<Piece>
    decreases |paras|
  {
    if paras == [] then []
    else
      Stream(paras[..|paras| - 1], tokenize)
      + ParagraphPieces(tokenize(Strip(paras[|paras| - 1])))
  }

  /** The loop's state: `groups` are the accumulator contents already emitted (as pieces),
      `pending` is the accumulator (`current_chunk`), `texts` the emitted chunk texts and
      `overlap` the overlap buffer. */
  datatype State = State(groups: seq<seq<Piece>>, pending: seq<Piece>, texts: seq<string>,
                         overlap: string)

  const Start: State := State([], [], [], "")

  /** The emitted accumulators followed by the current one. */
  function Blocks(st: State): seq<seq<Piece>> {
    st.groups + [st.pending]
  }

  /** The emission test made before appending piece `p` to an accumulator holding `acc`. */
  predicate Emits(acc: string, p: Piece, cfg: Config) {
    |acc| + |p.Text()| > cfg.chunkSize && |acc| >= cfg.minChunkSize
  }

  /** One sentence of the inner loop: emit `overlap + strip(accumulator)` if the test says
      so, resetting the accumulator and taking the new overlap as `full_chunk[-chunk_overlap:]`;
      then append the sentence. */
  function Feed(st: State, raw: string, cfg: Config): State {
    var p := Sentence(raw);
    var acc := Concat(st.pending);
    if Emits(acc, p, cfg) then
      var full := st.overlap + Strip(acc);
      State(st.groups + [st.pending], [p], st.texts + [full], SliceFrom(full, -cfg.chunkOverlap))
    else
      st.(pending := st.pending + [p])
  }

  function FeedAll(st: State, sents: seq<string>, cfg: Config): State
    decreases |sents|
  {
    if sents == [] then st
    else Feed(FeedAll(st, sents[..|sents| - 1], cfg), sents[|sents| - 1], cfg)
  }

  /** One paragraph of the outer loop: feed its sentences, then append the marker, without
      any size test, when it had any. */
  function EndParagraph(st: State, sents: seq<string>, cfg: Config): State {
    var s := FeedAll(st, sents, cfg);
    if |sents| > 0 then s.(pending := s.pending + [ParagraphBreak]) else s
  }

  function RunParagraphs(paras: seq<string>, cfg: Config, tokenize: Tokenizer): State
    decreases |paras|
  {
    if paras == [] then Start
    else
      EndParagraph(RunParagraphs(paras[..|paras| - 1], cfg, tokenize),
                   tokenize(Strip(paras[|paras| - 1])), cfg)
  }

  /** After the loops: the leftover accumulator is emitted only if long enough. */
  function Finish(st: State, cfg: Config): seq<string> {
    var acc := Concat(st.pending);
    if |acc| >= cfg.minChunkSize then st.texts + [st.overlap + Strip(acc)] else st.texts
  }

  function Paragraphs(text: string): seq<string> {
    Split(text, ParagraphBreakText)
  }

  /** The chunk texts `nltk_smart_chunk` returns, in order. */
  function ChunkTexts(text: string, cfg: Config, tokenize: Tokenizer): seq<string> {
    Finish(RunParagraphs(Paragraphs(text), cfg, tokenize), cfg)
  }

  // ---------------------------------------------------------------------------------------
  // The invariant of the packing loop.

  predicate Opens(b: seq<Piece>) {
    |b| > 0 && b[0].Sentence?
  }

  /** Every block but the last was emitted: it held at least `min_chunk_size` characters and
      the sentence that opens the next block would have overflowed `chunk_size`. */
  ghost predicate EmitRule(bs: seq<seq<Piece>>, cfg: Config) {
    forall i, j :: 0 <= i < j < |bs| && j == i + 1 ==> Boundary(bs[i], bs[j], cfg)
  }

  /** Block `a` was emitted when the sentence opening block `b` arrived. */
  predicate Boundary(a: seq<Piece>, b: seq<Piece>, cfg: Config) {
    Opens(b) && Emits(Concat(a), b[0], cfg)
  }

  /** No sentence was appended where the test said "emit": at each sentence inside a block
      (and at the very first sentence of all), the test on the block's contents so far was
      false. */
  ghost predicate PackRule(bs: seq<seq<Piece>>, cfg: Config) {
    forall k :: 0 <= k < |bs| ==> Packed(bs[k], k == 0, cfg)
  }

  /** Block `b` grew without the emission test firing; `first` says whether the test at its
      first piece was made on this block (only for the very first block, which starts from the
      empty accumulator) rather than on the block before it. */
  ghost predicate Packed(b: seq<Piece>, first: bool, cfg: Config)
    decreases |b|
  {
    b == [] ||
    var n := |b| - 1;
    Packed(b[..n], first, cfg)
    && (b[n].Sentence? && (0 < n || first) ==> !Emits(Concat(b[..n]), b[n], cfg))
  }

  /** The overlap buffer in front of chunk `k`: empty for the first, else the slice
      `[-chunk_overlap:]` of the chunk before. */
  function Carry(texts: seq<string>, k: nat, cfg: Config): string
    requires k <= |texts|
  {
    if k == 0 then "" else SliceFrom(texts[k - 1], -cfg.chunkOverlap)
  }

  /** Chunk `k` is the overlap buffer of the moment followed by block `k`, stripped. */
  ghost predicate Chained(texts: seq<string>, bs: seq<seq<Piece>>, cfg: Config) {
    |texts| <= |bs| &&
    forall k {:trigger bs[k]} :: 0 <= k < |texts| ==>
      texts[k] == Carry(texts, k, cfg) + Strip(Concat(bs[k]))
  }

  ghost predicate Inv(st: State, consumed: seq<Piece>, cfg: Config) {
    Flatten(Blocks(st)) == consumed
    && EmitRule(Blocks(st), cfg)
    && PackRule(Blocks(st), cfg)
    && |st.texts| == |st.groups|
    && Chained(st.texts, Blocks(st), cfg)
    && st.overlap == Carry(st.texts, |st.texts|, cfg)
  }

  // ---------------------------------------------------------------------------------------
  // Small facts about the helpers.

  lemma ConcatSnoc(ps: seq<Piece>, p: Piece)
    ensures Concat(ps + [p]) == Concat(ps) + p.Text()
  {
    assert (ps + [p])[..|ps|] == ps;
  }

  lemma {:induction false} ConcatAppend(ps: seq<Piece>, qs: seq<Piece>)
    ensures Concat(ps + qs) == Concat(ps) + Concat(qs)
    decreases |qs|
  {
    if qs == [] {
      assert ps + qs == ps;
    } else {
      var q, last := qs[..|qs| - 1], qs[|qs| - 1];
      assert qs == q + [last];
      assert ps + qs == (ps + q) + [last];
      calc {
        Concat(ps + qs);
        { ConcatSnoc(ps + q, last); }
        Concat(ps + q) + last.Text();
        { ConcatAppend(ps, q); }
        Concat(ps) + Concat(q) + last.Text();
        { ConcatSnoc(q, last); }
        Concat(ps) + Concat(qs);
      }
    }
  }

  lemma SentencePiecesSnoc(sents: seq<string>, x: string)
    ensures SentencePieces(sents + [x]) == SentencePieces(sents) + [Sentence(x)]
  {
    assert (sents + [x])[..|sents|] == sents;
  }

  lemma FlattenSnoc(bs: seq<seq<Piece>>, b: seq<Piece>)
    ensures Flatten(bs + [b]) == Flatten(bs) + b
  {
    assert (bs + [b])[..|bs|] == bs;
  }

  lemma FlattenExtend(gs: seq<seq<Piece>>, last: seq<Piece>, p: Piece)
    ensures Flatten(gs + [last + [p]]) == Flatten(gs + [last]) + [p]
  {
    FlattenSnoc(gs, last + [p]);
    FlattenSnoc(gs, last);
  }

  // ---------------------------------------------------------------------------------------
  // The two ways a step changes the blocks (open a new block, or extend the last one) keep
  // the rules. The blocks are written `gs + [last]`.

  lemma EmitRuleNewBlock(gs: seq<seq<Piece>>, last: seq<Piece>, p: Piece, cfg: Config)
    requires EmitRule(gs + [last], cfg)
    requires p.Sentence? && Emits(Concat(last), p, cfg)
    ensures EmitRule(gs + [last] + [[p]], cfg)
  {
    var bs: seq<seq<Piece>> := gs + [last];
    var bs': seq<seq<Piece>> := bs + [[p]];
    forall i, j | 0 <= i < j < |bs'| && j == i + 1 ensures Boundary(bs'[i], bs'[j], cfg) {
      if j < |bs| {
        assert Boundary(bs[i], bs[j], cfg);
      }
    }
  }

  lemma EmitRuleExtend(gs: seq<seq<Piece>>, last: seq<Piece>, p: Piece, cfg: Config)
    requires EmitRule(gs + [last], cfg)
    ensures EmitRule(gs + [last + [p]], cfg)
  {
    var bs: seq<seq<Piece>> := gs + [last];
    var bs': seq<seq<Piece>> := gs + [last + [p]];
    forall i, j | 0 <= i < j < |bs'| && j == i + 1 ensures Boundary(bs'[i], bs'[j], cfg) {
      assert Boundary(bs[i], bs[j], cfg);
      assert bs'[i] == bs[i];
      assert bs'[j][0] == bs[j][0];
    }
  }

  lemma PackRuleNewBlock(gs: seq<seq<Piece>>, last: seq<Piece>, p: Piece, cfg: Config)
    requires PackRule(gs + [last], cfg)
    ensures PackRule(gs + [last] + [[p]], cfg)
  {
    var bs: seq<seq<Piece>> := gs + [last];
    var bs': seq<seq<Piece>> := bs + [[p]];
    assert [p][..0] == [];
    forall k | 0 <= k < |bs'| ensures Packed(bs'[k], k == 0, cfg) {
      if k < |bs| {
        assert bs'[k] == bs[k];
      }
    }
  }

  lemma PackRuleExtend(gs: seq<seq<Piece>>, last: seq<Piece>, p: Piece, cfg: Config)
    requires PackRule(gs + [last], cfg)
    requires p.Sentence? && (|last| > 0 || |gs| == 0) ==> !Emits(Concat(last), p, cfg)
    ensures PackRule(gs + [last + [p]], cfg)
  {
    forall k | 0 <= k <= |gs| {
      PackRuleExtendAt(gs, last, p, cfg, k);
    }
  }

  lemma PackRuleExtendAt(gs: seq<seq<Piece>>, last: seq<Piece>, p: Piece, cfg: Config, k: int)
    requires PackRule(gs + [last], cfg)
    requires p.Sentence? && (|last| > 0 || |gs| == 0) ==> !Emits(Concat(last), p, cfg)
    requires 0 <= k <= |gs|
    ensures Packed((gs + [last + [p]])[k], k == 0, cfg)
  {
    var bs: seq<seq<Piece>> := gs + [last];
    var bs': seq<seq<Piece>> := gs + [last + [p]];
    if k < |gs| {
      assert bs'[k] == bs[k];
    } else {
      assert bs[k] == last && bs'[k] == last + [p];
      PackedSnoc(last, p, k == 0, cfg);
    }
  }

  lemma PackedSnoc(b: seq<Piece>, p: Piece, first: bool, cfg: Config)
    requires Packed(b, first, cfg)
    requires p.Sentence? && (|b| > 0 || first) ==> !Emits(Concat(b), p, cfg)
    ensures Packed(b + [p], first, cfg)
  {
    assert (b + [p])[..|b|] == b;
  }

  /** The recursive form of `Packed` read at one position. */
  lemma {:induction false} PackedAt(b: seq<Piece>, first: bool, cfg: Config, j: int)
    requires Packed(b, first, cfg)
    requires 0 <= j < |b| && b[j].Sentence? && (0 < j || first)
    ensures !Emits(Concat(b[..j]), b[j], cfg)
    decreases |b|
  {
    var n := |b| - 1;
    if j < n {
      PackedAt(b[..n], first, cfg, j);
      assert b[..n][..j] == b[..j];
    }
  }

  lemma ChainedExtend(texts: seq<string>, gs: seq<seq<Piece>>, last: seq<Piece>, p: Piece,
                      cfg: Config)
    requires Chained(texts, gs + [last], cfg) && |texts| <= |gs|
    ensures Chained(texts, gs + [last + [p]], cfg)
  {
    var bs: seq<seq<Piece>> := gs + [last];
    var bs': seq<seq<Piece>> := gs + [last + [p]];
    forall k | 0 <= k < |texts|
      ensures texts[k] == Carry(texts, k, cfg) + Strip(Concat(bs'[k]))
    {
      assert bs'[k] == bs[k];
    }
  }

  lemma ChainedNewBlock(texts: seq<string>, gs: seq<seq<Piece>>, last: seq<Piece>, p: Piece,
                        cfg: Config)
    requires Chained(texts, gs + [last], cfg) && |texts| == |gs|
    ensures Chained(texts + [Carry(texts, |texts|, cfg) + Strip(Concat(last))],
                    gs + [last] + [[p]], cfg)
  {
    var texts' := texts + [Carry(texts, |texts|, cfg) + Strip(Concat(last))];
    var bs: seq<seq<Piece>> := gs + [last];
    var bs': seq<seq<Piece>> := bs + [[p]];
    forall k | 0 <= k < |texts'|
      ensures texts'[k] == Carry(texts', k, cfg) + Strip(Concat(bs'[k]))
    {
      if k < |texts| {
        assert Carry(texts', k, cfg) == Carry(texts, k, cfg);
        assert bs'[k] == bs[k];
      } else {
        assert Carry(texts', k, cfg) == Carry(texts, k, cfg);
        assert bs'[k] == last;
      }
    }
  }

  // ---------------------------------------------------------------------------------------
  // The invariant is established and kept.

  lemma StartInv(cfg: Config)
    ensures Inv(Start, [], cfg)
  {
    assert Blocks(Start) == [[]];
    FlattenSnoc([], []);
  }

  lemma FeedKeepsInv(st: State, consumed: seq<Piece>, raw: string, cfg: Config)
    requires Inv(st, consumed, cfg)
    ensures Inv(Feed(st, raw, cfg), consumed + [Sentence(raw)], cfg)
  {
    if Emits(Concat(st.pending), Sentence(raw), cfg) {
      EmitKeepsInv(st, consumed, raw, cfg);
    } else {
      AppendKeepsInv(st, consumed, raw, cfg);
    }
  }

  lemma EmitKeepsInv(st: State, consumed: seq<Piece>, raw: string, cfg: Config)
    requires Inv(st, consumed, cfg)
    requires Emits(Concat(st.pending), Sentence(raw), cfg)
    ensures Inv(Feed(st, raw, cfg), consumed + [Sentence(raw)], cfg)
  {
    var p := Sentence(raw);
    var gs, last := st.groups, st.pending;
    assert Blocks(Feed(st, raw, cfg)) == gs + [last] + [[p]];
    FlattenSnoc(gs + [last], [p]);
    EmitRuleNewBlock(gs, last, p, cfg);
    PackRuleNewBlock(gs, last, p, cfg);
    ChainedNewBlock(st.texts, gs, last, p, cfg);
  }

  lemma AppendKeepsInv(st: State, consumed: seq<Piece>, raw: string, cfg: Config)
    requires Inv(st, consumed, cfg)
    requires !Emits(Concat(st.pending), Sentence(raw), cfg)
    ensures Inv(Feed(st, raw, cfg), consumed + [Sentence(raw)], cfg)
  {
    var p := Sentence(raw);
    var gs, last := st.groups, st.pending;
    assert Blocks(Feed(st, raw, cfg)) == gs + [last + [p]];
    FlattenExtend(gs, last, p);
    EmitRuleExtend(gs, last, p, cfg);
    PackRuleExtend(gs, last, p, cfg);
    ChainedExtend(st.texts, gs, last, p, cfg);
  }

  lemma {:induction false} FeedAllKeepsInv(st: State, consumed: seq<Piece>, sents: seq<string>,
                                           cfg: Config)
    requires Inv(st, consumed, cfg)
    ensures Inv(FeedAll(st, sents, cfg), consumed + SentencePieces(sents), cfg)
    decreases |sents|
  {
    if sents == [] {
      assert consumed + SentencePieces(sents) == consumed;
    } else {
      var init, x := sents[..|sents| - 1], sents[|sents| - 1];
      var prev := FeedAll(st, init, cfg);
      var seen := consumed + SentencePieces(init);
      assert sents == init + [x];
      SentencePiecesSnoc(init, x);
      assert seen + [Sentence(x)] == consumed + SentencePieces(sents);
      assert FeedAll(st, sents, cfg) == Feed(prev, x, cfg);
      FeedAllKeepsInv(st, consumed, init, cfg);
      FeedKeepsInv(prev, seen, x, cfg);
    }
  }

  lemma EndParagraphKeepsInv(st: State, consumed: seq<Piece>, sents: seq<string>, cfg: Config)
    requires Inv(st, consumed, cfg)
    ensures Inv(EndParagraph(st, sents, cfg), consumed + ParagraphPieces(sents), cfg)
  {
    var s := FeedAll(st, sents, cfg);
    var seen := consumed + SentencePieces(sents);
    if |sents| > 0 {
      var gs, last := s.groups, s.pending;
      assert consumed + ParagraphPieces(sents) == seen + [ParagraphBreak];
      assert Blocks(EndParagraph(st, sents, cfg)) == gs + [last + [ParagraphBreak]];
      FeedAllKeepsInv(st, consumed, sents, cfg);
      FlattenExtend(gs, last, ParagraphBreak);
      EmitRuleExtend(gs, last, ParagraphBreak, cfg);
      PackRuleExtend(gs, last, ParagraphBreak, cfg);
      ChainedExtend(s.texts, gs, last, ParagraphBreak, cfg);
    } else {
      assert consumed + ParagraphPieces(sents) == seen;
      FeedAllKeepsInv(st, consumed, sents, cfg);
    }
  }

  lemma {:induction false} RunKeepsInv(paras: seq<string>, cfg: Config, tokenize: Tokenizer)
    ensures Inv(RunParagraphs(paras, cfg, tokenize), Stream(paras, tokenize), cfg)
    decreases |paras|
  {
    if paras == [] {
      StartInv(cfg);
    } else {
      var init := paras[..|paras| - 1];
      var sents := tokenize(Strip(paras[|paras| - 1]));
      assert RunParagraphs(paras, cfg, tokenize)
          == EndParagraph(RunParagraphs(init, cfg, tokenize), sents, cfg);
      assert Stream(paras, tokenize) == Stream(init, tokenize) + ParagraphPieces(sents);
      RunKeepsInv(init, cfg, tokenize);
      EndParagraphKeepsInv(RunParagraphs(init, cfg, tokenize), Stream(init, tokenize), sents, cfg);
    }
  }
}
