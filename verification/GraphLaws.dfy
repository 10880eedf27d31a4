/** What the hints and the graph of a finished analysis say about the documents it was given. */
module GraphLaws {
  import opened Wrappers
  import opened Text
  import opened Order
  import opened Documents
  import opened Relationships
  import opened AnalysisState
  import opened AnalysisOrder
  import opened SessionGraph

  /** The parent a rule reads in a title, when it reads a nonblank one. */
  function ParentIn(u: Unicode, rule: RelationshipRule, title: string): Option<string> {
    match rule.capture(title)
    case Some(Some(parent)) => if Trim(u, parent) == [] then None else Some(Trim(u, parent))
    case _ => None
  }

  /** The ids of the other documents with a title. */
  function OthersTitled(documents: seq<AnalysisDocument>, title: string, self: string): set<string> {
    set document | document in documents && document.session.title == Some(title) && document.session.id != self ::
      document.session.id
  }

  /** A resolution names the only other session, lists several in ascending order, and is empty when there is none. */
  ghost predicate Resolves(resolution: Resolution, others: set<string>) {
    match resolution
    case Unresolved => others == {}
    case Resolved(id) => others == {id}
    case Ambiguous(ids) => |others| > 1 && Ascending(LexLess, ids) && forall id :: id in ids <==> id in others
  }

  /** The hint a rule must give for a titled document. */
  ghost predicate HintSays(u: Unicode, documents: seq<AnalysisDocument>, rule: RelationshipRule, self: string,
      title: string, hint: RelationshipHint)
  {
    && ParentIn(u, rule, title) == Some(hint.parentTitle)
    && hint.ruleId == rule.id
    && hint.kind == rule.kind
    && Resolves(hint.resolution, OthersTitled(documents, hint.parentTitle, self))
  }

  lemma HintExact(u: Unicode, documents: seq<AnalysisDocument>, titles: Titles, rule: RelationshipRule, self: string,
      title: string)
    requires TitlesMatch(documents, titles)
    ensures var hint := HintFor(u, titles, rule, self, title);
            && (hint.Ok? && hint.value.Some? <==> ParentIn(u, rule, title).Some?)
            && (hint.Ok? && hint.value.Some? ==> HintSays(u, documents, rule, self, title, hint.value.value))
            && (hint.Err? <==> rule.capture(title).Some? && ParentIn(u, rule, title).None?)
  {
    hide Trim, Candidates;
    var parent := ParentIn(u, rule, title);
    if parent.Some? {
      var others := OthersTitled(documents, parent.value, self);
      forall id
        ensures id in others <==> id in TitledIds(titles, parent.value) && id != self
      {
        assert id in TitledIds(titles, parent.value) <==> HasTitle(documents, id, parent.value);
      }
      ResolutionExact(titles, parent.value, self, others);
    }
  }

  /** The hints of a document are exactly what its rules say. */
  lemma HintsExact(u: Unicode, policy: AnalysisPolicy, documents: seq<AnalysisDocument>, titles: Titles, self: string,
      title: string)
    requires TitlesMatch(documents, titles) && HintsFor(u, titles, policy.relationships, self, title).Ok?
    ensures forall hint :: hint in HintsFor(u, titles, policy.relationships, self, title).value <==>
              exists rule | rule in policy.relationships :: HintFor(u, titles, rule, self, title) == Ok(Some(hint))
  {
    hide HintFor, Collect;
    var rules := policy.relationships;
    var hintAt := RuleHints(u, titles, rules, self, title);
    CollectedFrom(hintAt, |rules|);
    forall hint
      ensures (exists k: nat :: k < |rules| && hintAt(k) == Ok(Some(hint))) <==>
              (exists rule | rule in rules :: HintFor(u, titles, rule, self, title) == Ok(Some(hint)))
    {
      if rule :| rule in rules && HintFor(u, titles, rule, self, title) == Ok(Some(hint)) {
        var k: nat :| k < |rules| && rules[k] == rule;
        assert hintAt(k) == Ok(Some(hint));
      }
    }
  }

  /** An edge the documents call for: a rule reads a parent in the target's title, and only the source has it. */
  ghost predicate CalledFor(u: Unicode, policy: AnalysisPolicy, documents: seq<AnalysisDocument>, e: Edge) {
    exists document, rule | document in documents && rule in policy.relationships ::
      && document.session.id == e.target
      && document.session.title.Some?
      && rule.id == e.ruleId
      && rule.kind == e.kind
      && ParentIn(u, rule, document.session.title.value).Some?
      && OthersTitled(documents, ParentIn(u, rule, document.session.title.value).value, e.target) == {e.source}
  }

  /** What an accepted and finished analysis returns. */
  ghost predicate Finished(u: Unicode, policy: AnalysisPolicy, documents: seq<AnalysisDocument>, sessions: Sessions) {
    && PushAll(u, policy, documents).Ok?
    && FinishSessions(u, policy, PushAll(u, policy, documents).value) == Ok(sessions)
  }

  /** The hints of a titled document are exactly the ones its rules call for. */
  ghost predicate HintsCalledFor(u: Unicode, policy: AnalysisPolicy, documents: seq<AnalysisDocument>, id: string,
      title: string, hints: seq<RelationshipHint>)
  {
    && (forall hint | hint in hints :: exists rule | rule in policy.relationships ::
      HintSays(u, documents, rule, id, title, hint))
    && (forall rule | rule in policy.relationships && ParentIn(u, rule, title).Some? ::
          exists hint | hint in hints :: HintSays(u, documents, rule, id, title, hint))
  }

  lemma SessionsOfDocuments(u: Unicode, policy: AnalysisPolicy, documents: seq<AnalysisDocument>, sessions: Sessions)
    requires AllGood(u, policy, documents) && SessionsMatch(u, policy, documents, sessions)
    ensures forall id :: id in sessions <==> exists d | d in documents :: d.session.id == id
    ensures forall d | d in documents ::
              sessions[d.session.id].session == d.session && sessions[d.session.id].hints == []
  {
    hide ContributionOf, CheckedScore, Trim;
    forall d | d in documents
      ensures sessions[d.session.id].session == d.session && sessions[d.session.id].hints == []
    {
      ContributionParts(u, policy, d);
    }
    forall id
      ensures id in sessions <==> exists d | d in documents :: d.session.id == id
    {
      assert id in sessions <==> id in IdsOf(documents);
    }
  }

  /** The hints an analyzed session ends with. */
  lemma FinishedHints(u: Unicode, policy: AnalysisPolicy, st: State, sessions: Sessions)
    requires FinishSessions(u, policy, st) == Ok(sessions)
    requires forall id | id in st.sessions :: st.sessions[id].hints == []
    ensures sessions.Keys == st.sessions.Keys
    ensures forall id | id in sessions ::
              && sessions[id].session == st.sessions[id].session
              && SessionHints(u, policy, st.titles, st.sessions[id], id) == Ok(sessions[id].hints)
  {
    hide SessionHints;
    forall id | id in st.sessions
      ensures SessionHints(u, policy, st.titles, st.sessions[id], id) == Ok(sessions[id].hints)
    {
      var hints := SessionHints(u, policy, st.titles, st.sessions[id], id);
      assert hints.Ok?;
      assert [] + hints.value == hints.value;
    }
  }

  lemma SessionHintsExact(u: Unicode, policy: AnalysisPolicy, documents: seq<AnalysisDocument>, titles: Titles,
      id: string, title: string)
    requires TitlesMatch(documents, titles) && HintsFor(u, titles, policy.relationships, id, title).Ok?
    ensures HintsCalledFor(u, policy, documents, id, title, HintsFor(u, titles, policy.relationships, id, title).value)
  {
    hide TitlesMatch, HintsFor, HintFor, HintSays, ParentIn;
    HintsExact(u, policy, documents, titles, id, title);
    forall rule | rule in policy.relationships
      ensures var hint := HintFor(u, titles, rule, id, title);
              && (hint.Ok? && hint.value.Some? <==> ParentIn(u, rule, title).Some?)
              && (hint.Ok? && hint.value.Some? ==> HintSays(u, documents, rule, id, title, hint.value.value))
    {
      HintExact(u, documents, titles, rule, id, title);
    }
    var hints := HintsFor(u, titles, policy.relationships, id, title).value;
    forall rule | rule in policy.relationships && ParentIn(u, rule, title).Some?
      ensures exists hint | hint in hints :: HintSays(u, documents, rule, id, title, hint)
    {
      assert HintFor(u, titles, rule, id, title).value.value in hints;
    }
  }

  /**
   * An analysis returns one session for each document, with exactly the hints its rules call for, resolved against the
   * titles of the other documents.
   */
  lemma ResolvedExactly(u: Unicode, policy: AnalysisPolicy, documents: seq<AnalysisDocument>, sessions: Sessions)
    requires Finished(u, policy, documents, sessions)
    ensures forall id :: id in sessions <==> exists d | d in documents :: d.session.id == id
    ensures forall d | d in documents :: sessions[d.session.id].session == d.session
    ensures forall d | d in documents ::
              match d.session.title
              case None => sessions[d.session.id].hints == []
              case Some(title) => HintsCalledFor(u, policy, documents, d.session.id, title,
                sessions[d.session.id].hints)
  {
    hide PushAll, FinishSessions, Good, TitlesMatch, SessionsMatch, HintsFor, HintsCalledFor;
    AcceptedExactly(u, policy, documents);
    var st := PushAll(u, policy, documents).value;
    SessionsOfDocuments(u, policy, documents, st.sessions);
    FinishedHints(u, policy, st, sessions);
    forall d | d in documents && d.session.title.Some?
      ensures HintsCalledFor(u, policy, documents, d.session.id, d.session.title.value, sessions[d.session.id].hints)
    {
      SessionHintsExact(u, policy, documents, st.titles, d.session.id, d.session.title.value);
    }
  }

  lemma OnlyOne(resolution: Resolution, id: string)
    requires Resolves(resolution, {id})
    ensures resolution == Resolved(id)
  {
    assert id in {id};
    if resolution.Resolved? {
      assert resolution.sessionId in {id};
    }
  }

  /** A resolved hint is an edge its documents call for. */
  lemma HintedIsCalledFor(u: Unicode, policy: AnalysisPolicy, documents: seq<AnalysisDocument>, sessions: Sessions,
      e: Edge)
    requires Finished(u, policy, documents, sessions) && Hinted(sessions, e)
    ensures CalledFor(u, policy, documents, e)
    ensures e.source in sessions && e.source != e.target
  {
    hide Finished, ParentIn, OthersTitled;
    ResolvedExactly(u, policy, documents, sessions);
    var d :| d in documents && d.session.id == e.target;
    var hint :| hint in sessions[e.target].hints && EdgeFrom(e.target, hint) == Some(e);
    var title := d.session.title.value;
    var rule :| rule in policy.relationships && HintSays(u, documents, rule, e.target, title, hint);
    assert OthersTitled(documents, hint.parentTitle, e.target) == {e.source};
    SourceIsOther(documents, hint.parentTitle, e);
  }

  lemma SourceIsOther(documents: seq<AnalysisDocument>, parent: string, e: Edge)
    requires OthersTitled(documents, parent, e.target) == {e.source}
    ensures e.source != e.target && exists d | d in documents :: d.session.id == e.source
  {
    assert e.source in OthersTitled(documents, parent, e.target);
  }

  /** A rule whose parent is the title of one other session gives a hint resolved to it. */
  lemma OneSource(
    u: Unicode, policy: AnalysisPolicy, documents: seq<AnalysisDocument>, id: string, title: string,
    hints: seq<RelationshipHint>, rule: RelationshipRule, source: string)
    requires HintsCalledFor(u, policy, documents, id, title, hints) && rule in policy.relationships
               && ParentIn(u, rule, title).Some?
    requires OthersTitled(documents, ParentIn(u, rule, title).value, id) == {source}
    ensures exists hint | hint in hints :: EdgeFrom(id, hint) == Some(Edge(source, id, rule.kind, rule.id))
  {
    hide ParentIn, OthersTitled, Resolves;
    var hint :| hint in hints && HintSays(u, documents, rule, id, title, hint);
    OnlyOne(hint.resolution, source);
  }

  /** An edge the documents call for is some session's resolved hint. */
  lemma CalledForIsHinted(u: Unicode, policy: AnalysisPolicy, documents: seq<AnalysisDocument>, sessions: Sessions,
      e: Edge)
    requires Finished(u, policy, documents, sessions) && CalledFor(u, policy, documents, e)
    ensures Hinted(sessions, e)
  {
    hide Finished, ParentIn, OthersTitled, HintsCalledFor, EdgeFrom;
    ResolvedExactly(u, policy, documents, sessions);
    var d, rule :| d in documents && rule in policy.relationships && d.session.id == e.target && d.session.title.Some?
      && rule.id == e.ruleId && rule.kind == e.kind && ParentIn(u, rule, d.session.title.value).Some?
      && OthersTitled(documents, ParentIn(u, rule, d.session.title.value).value, e.target) == {e.source};
    OneSource(u, policy, documents, e.target, d.session.title.value, sessions[e.target].hints, rule, e.source);
  }

  /**
   * The edges of the graph are exactly the relations the documents call for, strictly ascending, never from a session
   * to itself, and both ends of every edge are nodes.
   */
  lemma GraphExact(u: Unicode, policy: AnalysisPolicy, documents: seq<AnalysisDocument>, sessions: Sessions, g: Graph)
    requires Finished(u, policy, documents, sessions) && IsGraphOf(u, sessions, g)
    ensures Ascending(EdgeLess, g.edges)
    ensures forall e :: e in g.edges <==> CalledFor(u, policy, documents, e)
    ensures forall e | e in g.edges :: e.source != e.target && e.source in g.nodes && e.target in g.nodes
  {
    hide Finished, CalledFor, EdgeLess, IsGroup, InKeyOrder;
    forall e
      ensures e in g.edges <==> CalledFor(u, policy, documents, e)
      ensures e in g.edges ==> e.source != e.target && e.source in sessions && e.target in sessions
    {
      if Hinted(sessions, e) {
        HintedIsCalledFor(u, policy, documents, sessions, e);
      } else if CalledFor(u, policy, documents, e) {
        CalledForIsHinted(u, policy, documents, sessions, e);
      }
    }
  }

  /** Some rule matches the document's title and captures only white space. */
  ghost predicate CapturesBlank(u: Unicode, policy: AnalysisPolicy, document: AnalysisDocument) {
    document.session.title.Some? &&
    exists rule | rule in policy.relationships ::
      rule.capture(document.session.title.value).Some? && ParentIn(u, rule, document.session.title.value).None?
  }

  /** Collecting fails exactly when some rule fails. */
  lemma {:induction false} CollectFails(hintAt: HintAt, count: nat)
    ensures Collect(hintAt, count).Err? <==> exists k: nat :: k < count && hintAt(k).Err?
  {
    if count > 0 {
      CollectFails(hintAt, count - 1);
      if hintAt(count - 1).Err? {
        assert Collect(hintAt, count).Err?;
      }
    }
  }

  lemma HintsFail(u: Unicode, policy: AnalysisPolicy, documents: seq<AnalysisDocument>, titles: Titles,
      document: AnalysisDocument)
    requires TitlesMatch(documents, titles) && document.session.title.Some?
    ensures HintsFor(u, titles, policy.relationships, document.session.id, document.session.title.value).Err? <==>
              CapturesBlank(u, policy, document)
  {
    hide HintFor, Collect, ParentIn, TitlesMatch;
    var rules, id, title := policy.relationships, document.session.id, document.session.title.value;
    var hintAt := RuleHints(u, titles, rules, id, title);
    CollectFails(hintAt, |rules|);
    forall k: nat | k < |rules|
      ensures hintAt(k).Err? <==> rules[k].capture(title).Some? && ParentIn(u, rules[k], title).None?
    {
      HintExact(u, documents, titles, rules[k], id, title);
    }
    if rule :| rule in rules && rule.capture(title).Some? && ParentIn(u, rule, title).None? {
      var k: nat :| k < |rules| && rules[k] == rule;
      assert hintAt(k).Err?;
    }
  }

  /** Finishing an accepted analysis fails exactly when some rule matches some title but captures only white space. */
  lemma FinishFailsExactly(u: Unicode, policy: AnalysisPolicy, documents: seq<AnalysisDocument>)
    requires PushAll(u, policy, documents).Ok?
    ensures FinishSessions(u, policy, PushAll(u, policy, documents).value).Err? <==>
              exists d | d in documents :: CapturesBlank(u, policy, d)
  {
    hide PushAll, Good, TitlesMatch, SessionsMatch, HintsFor, CapturesBlank;
    AcceptedExactly(u, policy, documents);
    var st := PushAll(u, policy, documents).value;
    SessionsOfDocuments(u, policy, documents, st.sessions);
    forall d | d in documents
      ensures SessionHints(u, policy, st.titles, st.sessions[d.session.id], d.session.id).Err? <==>
                CapturesBlank(u, policy, d)
    {
      if d.session.title.Some? {
        HintsFail(u, policy, documents, st.titles, d);
      } else {
        assert !CapturesBlank(u, policy, d) by { NotBlank(u, policy, d); }
      }
    }
  }

  lemma NotBlank(u: Unicode, policy: AnalysisPolicy, document: AnalysisDocument)
    requires document.session.title.None?
    ensures !CapturesBlank(u, policy, document)
  {
  }
}
