/** One session's user text as a stream of chunks (`ClassificationTextState`, `StreamingDocumentText`). */
module StreamingDocument {
  import opened Wrappers
  import opened AnalysisErrors
  import opened Text
  import opened Windows
  import opened Phrases
  import opened StreamingPhrases
  import opened Documents

  /** The document text a list of chunks stands for. */
  function JoinAll(chunks: seq<string>): string {
    if chunks == [] then [] else JoinChunk(JoinAll(chunks[..|chunks| - 1]), chunks[|chunks| - 1])
  }

  lemma JoinAllStep(chunks: seq<string>, chunk: string)
    ensures JoinAll(chunks + [chunk]) == JoinChunk(JoinAll(chunks), chunk)
  {
    assert (chunks + [chunk])[..|chunks|] == chunks;
  }

  lemma {:induction false} JoinAllAfter(chunks: seq<string>, more: seq<string>)
    requires JoinAll(chunks) != []
    ensures JoinAll(chunks + more) == JoinAll(chunks) + if more == [] then [] else " " + JoinWith(more, " ")
    decreases |more|
  {
    if more == [] {
      assert chunks + more == chunks;
    } else {
      JoinWithHead(more);
      JoinAllStep(chunks, more[0]);
      hide JoinAll, JoinWith;
      var joined, rest := JoinAll(chunks), if more[1..] == [] then [] else " " + JoinWith(more[1..], " ");
      assert chunks + more == (chunks + [more[0]]) + more[1..];
      JoinAllAfter(chunks + [more[0]], more[1..]);
      assert joined + " " + more[0] + rest == joined + (" " + (more[0] + rest));
    }
  }

  lemma JoinWithHead(items: seq<string>)
    requires items != []
    ensures JoinWith(items, " ") == items[0] + if items[1..] == [] then [] else " " + JoinWith(items[1..], " ")
  {
  }

  /** The joined text is the chunks with single spaces between them, from the first chunk that is not empty. */
  lemma {:induction false} JoinAllExact(chunks: seq<string>, empty: nat)
    requires empty <= |chunks| && forall i | 0 <= i < empty :: chunks[i] == []
    requires empty == |chunks| || chunks[empty] != []
    ensures JoinAll(chunks) == JoinWith(chunks[empty..], " ")
  {
    NothingJoined(chunks[..empty]);
    if empty == |chunks| {
      assert chunks[..empty] == chunks;
    } else {
      var first := chunks[..empty + 1];
      assert first == chunks[..empty] + [chunks[empty]];
      JoinAllStep(chunks[..empty], chunks[empty]);
      assert chunks == first + chunks[empty + 1..];
      JoinAllAfter(first, chunks[empty + 1..]);
      assert chunks[empty..][1..] == chunks[empty + 1..];
    }
  }

  lemma {:induction false} NothingJoined(chunks: seq<string>)
    requires forall i | 0 <= i < |chunks| :: chunks[i] == []
    ensures JoinAll(chunks) == []
  {
    if chunks != [] {
      NothingJoined(chunks[..|chunks| - 1]);
    }
  }

  class ClassificationText {
    const need: TextNeed
    var text: string
    var remaining: nat
    ghost var joined: string

    ghost predicate Valid()
      reads this
    {
      && text == Retained(need, joined)
      && (need.Bounded? ==> remaining == need.limit - |text|)
    }

    constructor (need: TextNeed)
      ensures Valid() && this.need == need && joined == []
    {
      this.need := need;
      text, joined := [], [];
      remaining := if need.Bounded? then need.limit else 0;
    }

    method PushChunk(chunk: string, joiner: bool)
      requires Valid() && joiner == (joined != [])
      modifies this
      ensures Valid() && joined == JoinChunk(old(joined), chunk)
    {
      ghost var start := joined + if joiner then [' '] else [];
      joined := JoinChunk(joined, chunk);
      assert joined == start + chunk;
      if need.Full? {
        if joiner {
          text := text + " ";
        }
        text := text + chunk;
      } else if need.Bounded? {
        if joiner && remaining > 0 {
          text := text + " ";
          remaining := remaining - 1;
        }
        PushBounded(chunk, start);
      }
    }

    /** Append characters while the bound leaves room. */
    method PushBounded(chunk: string, ghost start: string)
      requires need.Bounded? && remaining == need.limit - |text| && text == CharPrefix(start, Some(need.limit))
      modifies this`text, this`remaining
      ensures remaining == need.limit - |text| && text == CharPrefix(start + chunk, Some(need.limit))
    {
      var i := 0;
      assert start + chunk[..0] == start;
      while i < |chunk| && remaining > 0
        invariant i <= |chunk| && remaining == need.limit - |text|
        invariant text == CharPrefix(start + chunk[..i], Some(need.limit))
      {
        assert start + chunk[..i + 1] == start + chunk[..i] + [chunk[i]];
        text := text + [chunk[i]];
        remaining := remaining - 1;
        i := i + 1;
      }
      assert start + chunk == start + chunk[..i] + chunk[i..];
    }
  }

  /** Text-derived facts of one document. */
  datatype DocumentFacts = DocumentFacts(classificationText: string, firstUserText: Option<string>, hasUserText: bool)

  /** What the batch path derives from the joined text and the first chunk. */
  function FactsOf(u: Unicode, policy: AnalysisPolicy, chunks: seq<string>): DocumentFacts {
    var joined := JoinAll(chunks);
    DocumentFacts(
      Retained(NeedOf(policy), joined),
      if chunks == [] then None else Some(chunks[0]),
      Trim(u, joined) != [])
  }

  /** The phrase delta of a document, when the policy asks for one. */
  function OptionalDelta(u: Unicode, policy: AnalysisPolicy, text: string): Result<Option<Delta>, AnalysisError> {
    match policy.phrases
    case None => Ok(None)
    case Some(spec) =>
      match DocumentDelta(u, spec, text)
      case Ok(delta) => Ok(Some(delta))
      case Err(error) => Err(error)
  }

  /** Some phrase bound is exceeded by what the chunks so far have committed. */
  predicate Overflowing(u: Unicode, policy: AnalysisPolicy, chunks: seq<string>) {
    policy.phrases.Some? && Doomed(u, policy.phrases.value, CommittedTokens(u, policy.phrases.value, JoinAll(chunks)))
  }

  /** Later chunks cannot undo that, and the joined document fails alike. */
  lemma {:induction false} OverflowStays(u: Unicode, policy: AnalysisPolicy, few: seq<string>, all: seq<string>)
    requires few <= all && Overflowing(u, policy, few)
    ensures Overflowing(u, policy, all)
    ensures OptionalDelta(u, policy, JoinAll(all)) == Err(TooManyPhrases)
    decreases |all|
  {
    var spec, joined := policy.phrases.value, JoinAll(all);
    if few == all {
    } else {
      var shorter := all[..|all| - 1];
      OverflowStays(u, policy, few, shorter);
      CommittedGrows(u, spec, JoinAll(shorter), all[|all| - 1]);
      DoomedGrows(u, spec, CommittedTokens(u, spec, JoinAll(shorter)), CommittedTokens(u, spec, joined));
    }
    TokensAtEnd(u, spec, joined);
    DoomedGrows(u, spec, CommittedTokens(u, spec, joined), DocumentTokens(u, spec, joined));
    DeltaByTokens(u, spec, joined);
  }

  class StreamingDocumentText {
    const u: Unicode
    const policy: AnalysisPolicy
    var sawFirstChunk: bool
    var joinedNonempty: bool
    var hasUserText: bool
    var firstUserText: Option<string>
    const classification: ClassificationText
    const phrases: StreamingPhraseAggregator?
    ghost var chunks: seq<string>

    ghost function Repr(): set<object>
      reads this
    {
      {this, classification} + if phrases == null then {} else {phrases, phrases.filter}
    }

    /** The flags and the first text, as functions of the chunks. */
    ghost predicate Noted()
      reads this
    {
      && sawFirstChunk == (chunks != [])
      && joinedNonempty == (JoinAll(chunks) != [])
      && hasUserText == !AllWhitespace(u, JoinAll(chunks))
      && firstUserText == (if chunks == [] then None else Some(chunks[0]))
    }

    ghost predicate Valid()
      reads Repr()
    {
      && Noted()
      && classification.Valid() && classification.need == NeedOf(policy) && classification.joined == JoinAll(chunks)
      && (phrases == null <==> policy.phrases.None?)
      && (phrases != null ==> phrases.Valid() && phrases.u == u && phrases.spec == policy.phrases.value)
      && (phrases != null ==> phrases.text == JoinAll(chunks))
    }

    constructor (u: Unicode, policy: AnalysisPolicy)
      ensures Valid() && fresh(Repr())
      ensures this.u == u && this.policy == policy && chunks == []
    {
      this.u := u;
      this.policy := policy;
      sawFirstChunk, joinedNonempty, hasUserText, firstUserText := false, false, false, None;
      classification := new ClassificationText(NeedOf(policy));
      if policy.phrases.Some? {
        phrases := new StreamingPhraseAggregator(u, policy.phrases.value);
      } else {
        phrases := null;
      }
      chunks := [];
    }

    method PushChunk(chunk: string) returns (r: Result<(), AnalysisError>)
      requires Valid()
      modifies Repr()
      ensures chunks == old(chunks) + [chunk]
      ensures r.Ok? ==> Valid()
      ensures r.Err? ==> r.error == TooManyPhrases && Overflowing(u, policy, chunks)
    {
      var joiner := joinedNonempty;
      NoteChunk(chunk);
      classification.PushChunk(chunk, joiner);
      r := Ok(());
      if phrases != null {
        r := phrases.PushChunk(chunk, joiner);
      }
    }

    method NoteChunk(chunk: string)
      requires Noted()
      modifies this
      ensures Noted() && chunks == old(chunks) + [chunk] && JoinAll(chunks) == JoinChunk(JoinAll(old(chunks)), chunk)
    {
      JoinAllStep(chunks, chunk);
      WhitespaceStep(u, JoinAll(chunks), chunk);
      if !sawFirstChunk {
        sawFirstChunk := true;
        firstUserText := Some(chunk);
      }
      joinedNonempty := joinedNonempty || chunk != "";
      if !hasUserText {
        hasUserText := !AllWhitespace(u, chunk);
      }
      chunks := chunks + [chunk];
    }

    method Finish() returns (r: Result<(DocumentFacts, Option<Delta>), AnalysisError>)
      requires Valid()
      modifies Repr()
      ensures r == BatchResult(u, policy, old(chunks))
    {
      TrimEmpty(u, JoinAll(chunks));
      var facts := DocumentFacts(classification.text, firstUserText, hasUserText);
      if phrases == null {
        return Ok((facts, None));
      }
      var delta := phrases.Finish();
      r := if delta.Err? then Err(delta.error) else Ok((facts, Some(delta.value)));
    }
  }

  /** The joiner is whitespace, so a joined text is blank exactly when its chunks are. */
  lemma WhitespaceStep(u: Unicode, text: string, chunk: string)
    ensures AllWhitespace(u, JoinChunk(text, chunk)) <==> AllWhitespace(u, text) && AllWhitespace(u, chunk)
  {
    if text != [] {
      var joined := text + [' '] + chunk;
      assert forall c :: c in joined <==> c in text || c == ' ' || c in chunk;
    }
  }

  /** What a stream of chunk reads delivers: some texts, and possibly a read failure after them. */
  datatype ChunkStream = ChunkStream(texts: seq<string>, interrupted: bool)

  /** The facts and phrases of the joined document, or its failure. */
  function BatchResult(u: Unicode, policy: AnalysisPolicy, texts: seq<string>)
      : Result<(DocumentFacts, Option<Delta>), AnalysisError>
  {
    var delta := OptionalDelta(u, policy, JoinAll(texts));
    if delta.Err? then Err(delta.error) else Ok((FactsOf(u, policy, texts), delta.value))
  }

  /** The failure of an interrupted stream: that of its texts when over their bound, or else the interruption. */
  function InterruptedWith(u: Unicode, policy: AnalysisPolicy, texts: seq<string>): AnalysisError {
    if Overflowing(u, policy, texts) then TooManyPhrases else ChunkFailed
  }

  /** Stream a session's chunks, stopping at the first failure. */
  method StreamDocument(u: Unicode, policy: AnalysisPolicy, chunks: ChunkStream)
    returns (r: Result<(DocumentFacts, Option<Delta>), AnalysisError>)
    ensures !chunks.interrupted ==> r == BatchResult(u, policy, chunks.texts)
    ensures chunks.interrupted ==> r == Err(InterruptedWith(u, policy, chunks.texts))
  {
    var state := new StreamingDocumentText(u, policy);
    ghost var all := chunks.texts;
    for i := 0 to |chunks.texts|
      invariant fresh(state.Repr()) && state.Valid()
      invariant state.u == u && state.policy == policy && state.chunks == all[..i]
    {
      var pushed := state.PushChunk(chunks.texts[i]);
      assert all[..i + 1] == all[..i] + [all[i]];
      if pushed.Err? {
        OverflowStays(u, policy, all[..i + 1], all);
        return Err(TooManyPhrases);
      }
    }
    assert all[..|all|] == all;
    if chunks.interrupted {
      return Err(ChunkFailed);
    }
    r := state.Finish();
  }
}
