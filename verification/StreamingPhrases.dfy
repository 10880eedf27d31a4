/** Streaming phrase aggregation over message chunks (`StreamingPhraseAggregator`), which refines `PhraseDelta`. */
module StreamingPhrases {
  import opened Wrappers
  import opened AnalysisErrors
  import opened Text
  import opened Tokens
  import opened Lines
  import opened Prose
  import opened Windows
  import opened Phrases

  /** The batch join: a space before a chunk only when the text so far is not empty. */
  function JoinChunk(text: string, chunk: string): string {
    if text == [] then chunk else text + [' '] + chunk
  }

  /** The tokens of the kept lines among those a text has completed. */
  function ProseTokensOf(u: Unicode, rules: LineRules, text: string): seq<string> {
    LineTokens(u, KeptLines(rules, CompleteLines(text)))
  }

  /** The tokens no later chunk can change: in prose mode those of completed lines only. */
  function CommittedTokens(u: Unicode, spec: PhraseSpec, text: string): seq<string> {
    match spec.textMode
    case UserText => TokensOf(u, text)
    case ProseOnlyText(rules) => ProseTokensOf(u, rules, text)
  }

  /** The last `width` tokens. */
  function RingOf(tokens: seq<string>, width: nat): seq<string> {
    if |tokens| <= width then tokens else tokens[|tokens| - width..]
  }

  lemma RingStep(tokens: seq<string>, token: string, width: nat)
    requires width > 0
    ensures var ring := RingOf(tokens, width) + [token];
            RingOf(tokens + [token], width) == if |ring| > width then ring[1..] else ring
  {
  }

  lemma RingWindow(tokens: seq<string>, ring: nat, width: nat)
    requires 0 < width <= ring
    ensures var recent := RingOf(tokens, ring);
            (|recent| >= width <==> |tokens| >= width) &&
            (|tokens| >= width ==> recent[|recent| - width..] == tokens[|tokens| - width..|tokens|])
  {
  }

  /** Everything counted token by token. */
  function CountsOf(u: Unicode, spec: PhraseSpec, tokens: seq<string>): Delta {
    TokenMajor(PhrasesOf(u, spec, tokens), spec.widths, |tokens|)
  }

  /** The document has passed its token gate and holds too many distinct phrases. */
  predicate Doomed(u: Unicode, spec: PhraseSpec, tokens: seq<string>) {
    |tokens| >= spec.minTokens && |CountsOf(u, spec, tokens)| > spec.maxUnique
  }

  lemma PrefixesAgree(u: Unicode, spec: PhraseSpec, a: seq<string>, b: seq<string>)
    requires a <= b
    ensures Agree(PhrasesOf(u, spec, a), PhrasesOf(u, spec, b), |a|)
  {
    forall n: nat, width: nat | n <= |a|
      ensures PhrasesOf(u, spec, a)(n, width) == PhrasesOf(u, spec, b)(n, width)
    {
      assert width <= n ==> a[n - width..n] == b[n - width..n];
    }
  }

  /** One more token counts the windows that end at it. */
  lemma CountsStep(u: Unicode, spec: PhraseSpec, tokens: seq<string>, token: string)
    ensures var more := tokens + [token];
            CountsOf(u, spec, more) ==
            Ending(PhrasesOf(u, spec, more), spec.widths, |spec.widths|, |more|, CountsOf(u, spec, tokens))
  {
    PrefixesAgree(u, spec, tokens, tokens + [token]);
    TokenMajorPrefix(PhrasesOf(u, spec, tokens), PhrasesOf(u, spec, tokens + [token]), spec.widths, |tokens|);
  }

  /** A document over its bound stays over it. */
  lemma DoomedGrows(u: Unicode, spec: PhraseSpec, a: seq<string>, b: seq<string>)
    requires Doomed(u, spec, a) && a <= b
    ensures Doomed(u, spec, b)
  {
    PrefixesAgree(u, spec, a, b);
    TokenMajorExtends(PhrasesOf(u, spec, a), PhrasesOf(u, spec, b), spec.widths, |a|, |b|);
  }

  /** The batch path fails exactly on documents over their bound; otherwise it counts what streaming counts. */
  lemma DeltaByTokens(u: Unicode, spec: PhraseSpec, text: string)
    ensures var tokens := DocumentTokens(u, spec, text);
            DocumentDelta(u, spec, text) == DeltaOf(spec, |tokens|, CountsOf(u, spec, tokens))
    ensures DocumentDelta(u, spec, text).Err? <==> Doomed(u, spec, DocumentTokens(u, spec, text))
  {
    var tokens := DocumentTokens(u, spec, text);
    VisitingOrders(PhrasesOf(u, spec, tokens), spec.widths, |tokens|);
  }

  /** At the end of a document the pending line, when not empty, is the last line. */
  lemma TokensAtEnd(u: Unicode, spec: PhraseSpec, text: string)
    ensures CommittedTokens(u, spec, text) <= DocumentTokens(u, spec, text)
    ensures DocumentTokens(u, spec, text) ==
            if spec.textMode.UserText? || PendingLine(text) == [] then CommittedTokens(u, spec, text)
            else LineTokens(u, KeptLines(spec.textMode.rules, CompleteLines(text) + [PendingLine(text)]))
  {
    if spec.textMode.ProseOnlyText? {
      ProseTokens(u, spec.textMode.rules, text);
      LinesByFeeds(text);
      KeptTokensGrow(u, spec.textMode.rules, CompleteLines(text), [PendingLine(text)]);
    }
  }

  /** Completed prose lines stay as text follows. */
  lemma ProseTokensGrow(u: Unicode, rules: LineRules, text: string, more: string)
    ensures ProseTokensOf(u, rules, text) <= ProseTokensOf(u, rules, text + more)
  {
    CompleteLinesGrow(text, more);
    var few, all := CompleteLines(text), CompleteLines(text + more);
    KeptTokensGrow(u, rules, few, all[|few|..]);
    assert few + all[|few|..] == all;
  }

  /** Committed tokens stay as chunks arrive, and in text mode a space keeps the tokens around it apart. */
  lemma CommittedGrows(u: Unicode, spec: PhraseSpec, text: string, chunk: string)
    ensures spec.textMode.UserText? ==>
              CommittedTokens(u, spec, JoinChunk(text, chunk)) == CommittedTokens(u, spec, text) + TokensOf(u, chunk)
    ensures CommittedTokens(u, spec, text) <= CommittedTokens(u, spec, JoinChunk(text, chunk))
  {
    if spec.textMode.UserText? {
      if text != [] {
        TokensSplit(u, text, ' ', chunk);
      } else {
        assert [] + TokensOf(u, chunk) == TokensOf(u, chunk);
      }
    } else if text != [] {
      ProseTokensGrow(u, spec.textMode.rules, text, [' '] + chunk);
      assert text + ([' '] + chunk) == text + [' '] + chunk;
    }
  }

  class StreamingPhraseAggregator {
    const u: Unicode
    const spec: PhraseSpec
    const maxWidth: nat
    const filter: ProseLineFilter
    var pending: string
    var recent: seq<string>
    var total: nat
    var counts: Delta
    var exceeded: bool
    ghost var tokens: seq<string>  // every token pushed
    ghost var text: string         // the joined text of every chunk pushed

    /** The counts are those of everything seen, unless the bound on distinct phrases was exceeded within it. */
    ghost predicate Counted(seen: Delta)
      reads this`counts, this`exceeded
    {
      if exceeded then |seen| > spec.maxUnique else counts == seen && |counts| <= spec.maxUnique
    }

    /** The ring, the token count and the counts, as functions of the tokens pushed. */
    ghost predicate Rolling()
      reads this
    {
      && (forall i | 0 <= i < |spec.widths| :: spec.widths[i] <= maxWidth)
      && total == |tokens|
      && recent == RingOf(tokens, maxWidth)
      && Counted(CountsOf(u, spec, tokens))
      && (exceeded ==> total < spec.minTokens)
    }

    /** In prose mode, the line and fence state once this text has been read. */
    ghost predicate ReadUpTo(read: string)
      reads this, filter
    {
      spec.textMode.ProseOnlyText? ==>
        && filter.rules == spec.textMode.rules
        && filter.inFence == FenceAfter(spec.textMode.rules, CompleteLines(read))
        && pending == PendingLine(read)
        && tokens == ProseTokensOf(u, spec.textMode.rules, read)
    }

    ghost predicate Valid()
      reads this, filter
    {
      Rolling() && ReadUpTo(text) && tokens == CommittedTokens(u, spec, text)
    }

    constructor (u: Unicode, spec: PhraseSpec)
      ensures Valid() && fresh(filter)
      ensures this.u == u && this.spec == spec && text == []
    {
      this.u := u;
      this.spec := spec;
      maxWidth := spec.widths[|spec.widths| - 1];
      filter := new ProseLineFilter(if spec.textMode.ProseOnlyText? then spec.textMode.rules else SourceRules(u));
      pending, recent, total, counts, exceeded := "", [], 0, map[], false;
      tokens, text := [], [];
    }

    /** Count one phrase, or remember that the bound on distinct phrases was exceeded. */
    method CountPhrase(phrase: string, ghost seen: Delta)
      requires Counted(seen)
      modifies this`counts, this`exceeded
      ensures Counted(Bump(seen, phrase))
    {
      assert seen.Keys <= Bump(seen, phrase).Keys;
      FewerKeys(seen, Bump(seen, phrase));
      if !exceeded {
        var ok;
        ok, counts := Tally(spec.maxUnique, counts, phrase);
        exceeded := !ok;
      }
    }

    /** Count the newest window of one width, if there is one and it is admitted. */
    method CountWindow(width: nat, ghost seen: Delta)
      requires 0 < width <= maxWidth && recent == RingOf(tokens, maxWidth) && Counted(seen)
      modifies this`counts, this`exceeded
      ensures Counted(if |tokens| < width then seen else Visit(seen, PhrasesOf(u, spec, tokens)(|tokens|, width)))
    {
      RingWindow(tokens, maxWidth, width);
      if |recent| >= width {
        var window := recent[|recent| - width..];
        if Admitted(u, spec, window) {
          CountPhrase(JoinWords(window), seen);
        }
      }
    }

    /** Count the windows of every width that end at the newest token. */
    method CountEndingWindows(ghost earlier: Delta)
      requires recent == RingOf(tokens, maxWidth) && Counted(earlier)
      requires forall i | 0 <= i < |spec.widths| :: spec.widths[i] <= maxWidth
      modifies this`counts, this`exceeded
      ensures Counted(Ending(PhrasesOf(u, spec, tokens), spec.widths, |spec.widths|, |tokens|, earlier))
    {
      ghost var at := PhrasesOf(u, spec, tokens);
      for k := 0 to |spec.widths|
        modifies this`counts, this`exceeded
        invariant Counted(Ending(at, spec.widths, k, |tokens|, earlier))
      {
        CountWindow(spec.widths[k], Ending(at, spec.widths, k, |tokens|, earlier));
      }
    }

    /** Slide the ring over one token and count the windows that end at it. */
    method PushToken(token: string) returns (ok: bool)
      requires Rolling()
      modifies this`recent, this`total, this`counts, this`exceeded, this`tokens
      ensures tokens == old(tokens) + [token]
      ensures ok ==> Rolling()
      ensures !ok ==> Doomed(u, spec, tokens)
    {
      RingStep(tokens, token, maxWidth);
      CountsStep(u, spec, tokens, token);
      ghost var earlier := CountsOf(u, spec, tokens);
      tokens := tokens + [token];
      total := total + 1;
      recent := recent + [token];
      if |recent| > maxWidth {
        recent := recent[1..];
      }
      CountEndingWindows(earlier);
      ok := !(exceeded && total >= spec.minTokens);
    }

    method PushTokens(line: string) returns (ok: bool)
      requires Rolling()
      modifies this`recent, this`total, this`counts, this`exceeded, this`tokens
      ensures ok ==> Rolling() && tokens == old(tokens) + TokensOf(u, line)
      ensures !ok ==> Doomed(u, spec, old(tokens) + TokensOf(u, line))
    {
      var all := NormalizedTokens(u, line);
      ghost var before := tokens;
      assert before + all[..0] == before;
      for i := 0 to |all|
        invariant Rolling() && tokens == before + all[..i]
      {
        TokenStep(before, all, i);
        ok := PushToken(all[i]);
        if !ok {
          DoomedGrows(u, spec, tokens, before + all);
          return;
        }
      }
      assert all[..|all|] == all;
      ok := true;
    }

    /** Hand one completed line to the fence filter, and its tokens on when the line is kept. */
    method ProcessProseLine(line: string, ghost lines: seq<string>) returns (ok: bool)
      requires spec.textMode.ProseOnlyText? && filter.rules == spec.textMode.rules
      requires Rolling()
      requires filter.inFence == FenceAfter(filter.rules, lines)
      requires tokens == LineTokens(u, KeptLines(filter.rules, lines))
      modifies this`recent, this`total, this`counts, this`exceeded, this`tokens, filter
      ensures filter.inFence == FenceAfter(filter.rules, lines + [line])
      ensures ok ==> Rolling() && tokens == LineTokens(u, KeptLines(filter.rules, lines + [line]))
      ensures !ok ==> Doomed(u, spec, LineTokens(u, KeptLines(filter.rules, lines + [line])))
    {
      KeptTokensStep(u, filter.rules, lines, line);
      var keep := filter.Keep(line);
      ok := true;
      if keep {
        ok := PushTokens(line);
      }
    }

    /** A line feed closes the pending line; the text up to the next one becomes pending. */
    method CloseLine(part: string, ghost read: string, ghost after: string) returns (ok: bool)
      requires spec.textMode.ProseOnlyText? && '\n' !in part && after == read + ['\n'] + part
      requires Rolling() && ReadUpTo(read)
      modifies this`recent, this`total, this`counts, this`exceeded, this`tokens, this`pending, filter
      ensures ok ==> Rolling() && ReadUpTo(after)
      ensures !ok ==> Doomed(u, spec, ProseTokensOf(u, spec.textMode.rules, after))
    {
      LinesAppend(read, '\n');
      LinesExtend(read + ['\n'], part);
      var line := StripCr(pending);
      pending := "";
      ok := ProcessProseLine(line, CompleteLines(read));
      pending := pending + part;
    }

    /** Close one line at a line feed of a chunk. */
    method CloseNext(chunk: string, position: nat, ghost start: string) returns (ok: bool, next: nat)
      requires position < |chunk| && chunk[position] == '\n'
      requires spec.textMode.ProseOnlyText? && Rolling() && ReadUpTo(start + chunk[..position])
      modifies this`recent, this`total, this`counts, this`exceeded, this`tokens, this`pending, filter
      ensures position < next <= |chunk| && (next < |chunk| ==> chunk[next] == '\n')
      ensures ok ==> Rolling() && ReadUpTo(start + chunk[..next])
      ensures !ok ==> Doomed(u, spec, ProseTokensOf(u, spec.textMode.rules, start + chunk))
    {
      var piece := PieceAt(chunk, position + 1);
      next := position + 1 + |piece|;
      PositionStep(start, chunk, position);
      ok := CloseLine(piece, start + chunk[..position], start + chunk[..next]);
      if !ok {
        DoomedLines(u, spec, start + chunk[..next], start + chunk);
      }
    }

    /** The first piece of a chunk goes on with the pending line. */
    method ExtendPending(chunk: string, ghost start: string) returns (position: nat)
      requires spec.textMode.ProseOnlyText? && Rolling() && ReadUpTo(start)
      modifies this`pending
      ensures position <= |chunk| && (position < |chunk| ==> chunk[position] == '\n')
      ensures Rolling() && ReadUpTo(start + chunk[..position])
    {
      var first := PieceAt(chunk, 0);
      pending := pending + first;
      LinesExtend(start, first);
      assert chunk[..|first|] == first;
      position := |first|;
    }

    /** Close a line for every line feed of a chunk. */
    method PushLines(chunk: string, ghost start: string) returns (ok: bool)
      requires spec.textMode.ProseOnlyText? && Rolling() && ReadUpTo(start)
      modifies this`recent, this`total, this`counts, this`exceeded, this`tokens, this`pending, filter
      ensures ok ==> Rolling() && ReadUpTo(start + chunk)
      ensures !ok ==> Doomed(u, spec, ProseTokensOf(u, spec.textMode.rules, start + chunk))
    {
      var position := ExtendPending(chunk, start);
      hide Rolling, ReadUpTo, Doomed;
      while position < |chunk|
        invariant position <= |chunk| && (position < |chunk| ==> chunk[position] == '\n')
        invariant Rolling() && ReadUpTo(start + chunk[..position])
      {
        ok, position := CloseNext(chunk, position, start);
        if !ok {
          return;
        }
      }
      assert chunk[..position] == chunk;
      ok := true;
    }

    method PushChunk(chunk: string, joiner: bool) returns (r: Result<(), AnalysisError>)
      requires Valid() && joiner == (text != [])
      modifies this, filter
      ensures text == JoinChunk(old(text), chunk)
      ensures r.Ok? ==> Valid()
      ensures r.Err? ==> r.error == TooManyPhrases && Doomed(u, spec, CommittedTokens(u, spec, text))
    {
      ghost var start := text;
      var ok;
      CommittedGrows(u, spec, text, chunk);
      text := JoinChunk(text, chunk);
      if spec.textMode.ProseOnlyText? {
        if joiner {
          LinesExtend(start, [' ']);
          pending := pending + " ";
          start := start + [' '];
        }
        assert text == start + chunk;
        ok := PushLines(chunk, start);
      } else {
        ok := PushTokens(chunk);
      }
      r := if ok then Ok(()) else Err(TooManyPhrases);
    }

    method Finish() returns (r: Result<Delta, AnalysisError>)
      requires Valid()
      modifies this, filter
      ensures r == DocumentDelta(u, spec, old(text))
    {
      TokensAtEnd(u, spec, text);
      DeltaByTokens(u, spec, text);
      if spec.textMode.ProseOnlyText? {
        var line := pending;
        pending := "";
        if line != "" {
          var ok := ProcessProseLine(line, CompleteLines(text));
          if !ok {
            return Err(TooManyPhrases);
          }
        }
      }
      if total < spec.minTokens {
        return Ok(map[]);
      }
      if exceeded {
        return Err(TooManyPhrases);
      }
      r := Ok(counts);
    }
  }

  lemma TokenStep(before: seq<string>, all: seq<string>, i: nat)
    requires i < |all|
    ensures before + all[..i] + [all[i]] == before + all[..i + 1] <= before + all
  {
    assert all[..i + 1] == all[..i] + [all[i]];
  }

  lemma PositionStep(start: string, chunk: string, position: nat)
    requires position < |chunk| && chunk[position] == '\n'
    ensures var piece := PieceAt(chunk, position + 1);
            start + chunk[..position] + ['\n'] + piece == start + chunk[..position + 1 + |piece|] <= start + chunk
  {
    var piece := PieceAt(chunk, position + 1);
    assert chunk[..position + 1] == chunk[..position] + ['\n'];
    assert chunk[..position + 1 + |piece|] == chunk[..position] + ['\n'] + piece;
  }

  /** A document over its bound within the lines read so far is over it within all its lines. */
  lemma DoomedLines(u: Unicode, spec: PhraseSpec, read: string, all: string)
    requires spec.textMode.ProseOnlyText? && read <= all
    requires Doomed(u, spec, ProseTokensOf(u, spec.textMode.rules, read))
    ensures Doomed(u, spec, ProseTokensOf(u, spec.textMode.rules, all))
  {
    assert read + all[|read|..] == all;
    ProseTokensGrow(u, spec.textMode.rules, read, all[|read|..]);
    DoomedGrows(u, spec, ProseTokensOf(u, spec.textMode.rules, read), ProseTokensOf(u, spec.textMode.rules, all));
  }
}
