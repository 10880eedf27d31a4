/** The tables of a published analysis (`render_index`, `render_taxonomy` and `render_graph`). */
module Publication {
  import opened Wrappers
  import opened Text
  import opened Decimals
  import opened Order
  import opened Documents
  import opened AnalysisState
  import opened SessionGraph
  import opened Markdown

  function IntText(n: int): string {
    if n < 0 then "-" + ToDecimal(-n) else ToDecimal(n)
  }

  /** No two scores read alike. */
  lemma IntTextInjective(a: int, b: int)
    ensures IntText(a) == IntText(b) <==> a == b
  {
    hide ToDecimal, FromDecimal;
    DecimalRoundTrip(if a < 0 then -a else a);
    DecimalRoundTrip(if b < 0 then -b else b);
    if IntText(a) == IntText(b) && (a < 0 || b < 0) {
      assert IntText(a)[0] == IntText(b)[0];
      assert IntText(a)[1..] == IntText(b)[1..];
    }
  }

  lemma IntTextSafe(n: int)
    ensures SafeCell(IntText(n))
  {
    PlainSafe(IntText(n));
  }

  function EscapeAll(values: seq<string>): seq<string> {
    seq(|values|, i requires 0 <= i < |values| => Escape(values[i]))
  }

  function EscapedList(values: seq<string>): string {
    JoinWith(EscapeAll(values), ", ")
  }

  lemma EscapedListSafe(values: seq<string>)
    ensures SafeCell(EscapedList(values))
  {
    hide Escape, JoinWith;
    var escaped := EscapeAll(values);
    forall i | 0 <= i < |values|
      ensures SafeCell(escaped[i])
    {
      EscapeSafe(values[i]);
    }
    PlainSafe(", ");
    JoinSafe(escaped, ", ");
  }

  /** A list cell unescapes to the list. */
  lemma {:induction false} EscapedListReadsBack(values: seq<string>)
    ensures Unescape(EscapedList(values)) == OneLine(JoinWith(values, ", "))
  {
    if values != [] {
      hide Escape, Unescape, OneLine, SafeCell;
      var head, escaped := values[0], EscapeAll(values);
      UnescapeEscape(head);
      if |values| > 1 {
        var tail := values[1..];
        EscapedListReadsBack(tail);
        assert escaped[1..] == EscapeAll(tail);
        ThenReadsBack(head, ", ", EscapedList(tail), JoinWith(tail, ", "));
      }
    }
  }

  /** An escaped value, plain text after it, and what then unescapes to a line. */
  lemma ThenReadsBack(value: string, plain: string, rest: string, line: string)
    requires PlainCell(plain) && Unescape(rest) == OneLine(line)
    ensures Unescape(Escape(value) + plain + rest) == OneLine(value + plain + line)
  {
    hide Escape, Unescape, SafeCell;
    EscapeSafe(value);
    UnescapeEscape(value);
    PlainSafe(plain);
    PlainUnescape(plain);
    SafeAppend(Escape(value), plain);
    UnescapeAppend(Escape(value) + plain, rest);
    UnescapeAppend(Escape(value), plain);
    assert OneLine(plain) == plain;
    OneLineAppend(value + plain, line);
    OneLineAppend(value, plain);
  }

  // ----- the index: sessions by score -----

  function RankBefore(sessions: Sessions): (string, string) -> bool {
    (a, b) =>
      var left := if a in sessions then sessions[a].score else 0;
      var right := if b in sessions then sessions[b].score else 0;
      if left != right then left > right else LexLess(a, b)
  }

  lemma RankTotal(sessions: Sessions)
    ensures StrictTotal(RankBefore(sessions))
  {
    LexTotal();
    hide LexLess;
  }

  function Labels(matches: seq<ClassificationMatch>): seq<string> {
    seq(|matches|, i requires 0 <= i < |matches| => matches[i].dimension + ":" + matches[i].ruleLabel)
  }

  function ClassificationsText(matches: seq<ClassificationMatch>): string {
    if matches == [] then "-" else JoinWith(SortDedup(LexLess, Labels(matches)), ", ")
  }

  /** The title, or the id when there is none. */
  function Heading(id: string, analyzed: AnalyzedSession): string {
    match analyzed.session.title
    case Some(title) => if title == [] then id else title
    case None => id
  }

  /** Rank, score, session, provider, classifications. */
  function IndexCells(rank: nat, id: string, analyzed: AnalyzedSession): seq<string> {
    [ToDecimal(rank + 1),
     IntText(analyzed.score),
     Escape(Heading(id, analyzed)) + " (" + Escape(id) + ")",
     Escape(analyzed.session.provider),
     Escape(ClassificationsText(analyzed.classifications))]
  }

  lemma IndexCellsSafe(rank: nat, id: string, analyzed: AnalyzedSession)
    ensures forall i | 0 <= i < 5 :: SafeCell(IndexCells(rank, id, analyzed)[i])
  {
    hide Escape, ClassificationsText, Heading, SafeCell, IntText, ToDecimal;
    IntTextSafe(analyzed.score);
    PlainSafe(ToDecimal(rank + 1));
    PlainSafe(" (");
    PlainSafe(")");
    EscapeSafe(Heading(id, analyzed));
    EscapeSafe(id);
    EscapeSafe(analyzed.session.provider);
    EscapeSafe(ClassificationsText(analyzed.classifications));
    SafeAppend(Escape(Heading(id, analyzed)), " (");
    SafeAppend(Escape(Heading(id, analyzed)) + " (", Escape(id));
    SafeAppend(Escape(Heading(id, analyzed)) + " (" + Escape(id), ")");
  }

  /** What the session cell shows. */
  function SessionText(id: string, analyzed: AnalyzedSession): string {
    Heading(id, analyzed) + " (" + id + ")"
  }

  lemma SessionReadsBack(rank: nat, id: string, analyzed: AnalyzedSession)
    ensures Unescape(IndexCells(rank, id, analyzed)[2]) == OneLine(SessionText(id, analyzed))
  {
    hide Escape, Unescape, Heading, SafeCell;
    var heading := Heading(id, analyzed);
    UnescapeEscape(id);
    PlainUnescape(")");
    EscapeSafe(id);
    UnescapeAppend(Escape(id), ")");
    OneLineAppend(id, ")");
    assert OneLine(")") == ")";
    ThenReadsBack(heading, " (", Escape(id) + ")", id + ")");
    assert Escape(heading) + " (" + Escape(id) + ")" == Escape(heading) + " (" + (Escape(id) + ")");
    assert heading + " (" + id + ")" == heading + " (" + (id + ")");
  }

  function IndexRows(sessions: Sessions, ranked: seq<string>): seq<seq<string>>
    requires forall id | id in ranked :: id in sessions
  {
    seq(|ranked|, i requires 0 <= i < |ranked| =>
      assert ranked[i] in ranked;
      IndexCells(i, ranked[i], sessions[ranked[i]]))
  }

  const INDEX_TABLE := "| Rank | Score | Session | Provider | Classifications |\n| :--- | ---: | :--- | :--- | :--- |\n"

  method Rank(sessions: Sessions) returns (ranked: seq<string>)
    ensures Ascending(RankBefore(sessions), ranked) && forall id :: id in ranked <==> id in sessions
  {
    RankTotal(sessions);
    hide RankBefore;
    var less := RankBefore(sessions);
    ranked := [];
    var remaining := sessions.Keys;
    while remaining != {}
      invariant remaining <= sessions.Keys && Ascending(less, ranked)
      invariant forall id :: id in ranked <==> id in sessions && id !in remaining
      decreases |remaining|
    {
      var id :| id in remaining;
      InsertAscending(less, id, ranked);
      InsertElements(less, id, ranked);
      ranked := Insert(less, id, ranked);
      remaining := remaining - {id};
    }
  }

  /** All sessions, in rank order. */
  ghost predicate IsRanked(sessions: Sessions, ranked: seq<string>) {
    Ascending(RankBefore(sessions), ranked) && forall id :: id in ranked <==> id in sessions
  }

  method RenderIndexTable(sessions: Sessions) returns (output: string)
    ensures exists ranked :: IsRanked(sessions, ranked) && output == INDEX_TABLE + Rows(IndexRows(sessions, ranked))
  {
    hide Ascending, RankBefore, IndexCells, Row;
    var ids := Rank(sessions);
    assert IsRanked(sessions, ids);
    output := INDEX_TABLE;
    for i := 0 to |ids|
      invariant output == INDEX_TABLE + Rows(IndexRows(sessions, ids)[..i])
    {
      var cells := IndexCells(i, ids[i], sessions[ids[i]]);
      RowsAppend(IndexRows(sessions, ids)[..i], cells);
      assert IndexRows(sessions, ids)[..i + 1] == IndexRows(sessions, ids)[..i] + [cells];
      output := output + Row(cells);
    }
    assert IndexRows(sessions, ids)[..|ids|] == IndexRows(sessions, ids);
    assert output == INDEX_TABLE + Rows(IndexRows(sessions, ids));
  }

  /**
   * For any session data the index table reads back as exactly one row for each session in rank order, each of five
   * cells whose text fields unescape to the values shown.
   */
  lemma IndexReadsBack(sessions: Sessions, ranked: seq<string>)
    requires forall id | id in ranked :: id in sessions
    ensures ReadTable(Rows(IndexRows(sessions, ranked))) == IndexRows(sessions, ranked)
    ensures forall i | 0 <= i < |ranked| ::
              var cells := IndexRows(sessions, ranked)[i];
              |cells| == 5 && ranked[i] in sessions &&
              FromDecimal(cells[0]) == i + 1 &&
              cells[1] == IntText(sessions[ranked[i]].score) &&
              Unescape(cells[2]) == OneLine(SessionText(ranked[i], sessions[ranked[i]])) &&
              Unescape(cells[3]) == OneLine(sessions[ranked[i]].session.provider) &&
              Unescape(cells[4]) == OneLine(ClassificationsText(sessions[ranked[i]].classifications))
  {
    hide Escape, ClassificationsText, SafeCell, Heading, IntText, ToDecimal, FromDecimal, Rows, ReadTable, Unescape,
        OneLine, SessionText;
    forall i | 0 <= i < |ranked|
      ensures forall j | 0 <= j < 5 :: SafeCell(IndexRows(sessions, ranked)[i][j])
      ensures FromDecimal(IndexRows(sessions, ranked)[i][0]) == i + 1
      ensures ranked[i] in sessions
      ensures IndexRows(sessions, ranked)[i][1] == IntText(sessions[ranked[i]].score)
      ensures Unescape(IndexRows(sessions, ranked)[i][2]) == OneLine(SessionText(ranked[i], sessions[ranked[i]]))
      ensures Unescape(IndexRows(sessions, ranked)[i][3]) == OneLine(sessions[ranked[i]].session.provider)
      ensures Unescape(IndexRows(sessions, ranked)[i][4]) ==
                OneLine(ClassificationsText(sessions[ranked[i]].classifications))
    {
      assert ranked[i] in ranked;
      IndexCellsSafe(i, ranked[i], sessions[ranked[i]]);
      DecimalRoundTrip(i + 1);
      SessionReadsBack(i, ranked[i], sessions[ranked[i]]);
      UnescapeEscape(sessions[ranked[i]].session.provider);
      UnescapeEscape(ClassificationsText(sessions[ranked[i]].classifications));
    }
    RowsReadBack(IndexRows(sessions, ranked));
  }

  // ----- the taxonomy: sessions by classification -----

  predicate Classified(analyzed: AnalyzedSession, key: (string, string)) {
    exists i | 0 <= i < |analyzed.classifications| ::
      analyzed.classifications[i].dimension == key.0 && analyzed.classifications[i].ruleLabel == key.1
  }

  function ClassifiedIds(sessions: Sessions, key: (string, string)): set<string> {
    set id | id in sessions && Classified(sessions[id], key)
  }

  /** Dimension, label, and the sessions so classified. */
  ghost predicate IsTaxonomyRow(sessions: Sessions, key: (string, string), cells: seq<string>) {
    exists ids ::
      && Ascending(LexLess, ids) && (forall id :: id in ids <==> id in ClassifiedIds(sessions, key))
      && cells == [Escape(key.0), Escape(key.1), EscapedList(ids)]
  }

  ghost predicate AreTaxonomyRows(sessions: Sessions, keys: seq<(string, string)>, rows: seq<seq<string>>) {
    |rows| == |keys| && forall i | 0 <= i < |keys| :: IsTaxonomyRow(sessions, keys[i], rows[i])
  }

  const TAXONOMY_TABLE := "# Session Taxonomy\n\n| Dimension | Label | Canonical sessions |\n| :--- | :--- | :--- |\n"

  /** The classifications of one session added to an ordered list. */
  method AddKeys(analyzed: AnalyzedSession, keys: seq<(string, string)>) returns (r: seq<(string, string)>)
    requires Ascending(GroupLess, keys)
    ensures Ascending(GroupLess, r) && forall key :: key in r <==> key in keys || Classified(analyzed, key)
  {
    GroupTotal();
    hide GroupLess;
    r := keys;
    for i := 0 to |analyzed.classifications|
      invariant Ascending(GroupLess, r)
      invariant forall key :: key in r <==> key in keys || exists j | 0 <= j < i ::
                  analyzed.classifications[j].dimension == key.0 && analyzed.classifications[j].ruleLabel == key.1
    {
      var key := (analyzed.classifications[i].dimension, analyzed.classifications[i].ruleLabel);
      InsertAscending(GroupLess, key, r);
      InsertElements(GroupLess, key, r);
      r := Insert(GroupLess, key, r);
    }
  }

  method ClassificationKeys(sessions: Sessions) returns (keys: seq<(string, string)>)
    ensures Ascending(GroupLess, keys)
    ensures forall key :: key in keys <==> ClassifiedIds(sessions, key) != {}
  {
    hide GroupLess, Classified;
    keys := [];
    var remaining := sessions.Keys;
    while remaining != {}
      invariant remaining <= sessions.Keys && Ascending(GroupLess, keys)
      invariant forall key :: key in keys <==>
                  exists id | id in sessions && id !in remaining :: Classified(sessions[id], key)
      decreases |remaining|
    {
      var id :| id in remaining;
      keys := AddKeys(sessions[id], keys);
      remaining := remaining - {id};
    }
    forall key
      ensures key in keys <==> ClassifiedIds(sessions, key) != {}
    {
      if id :| id in sessions && Classified(sessions[id], key) {
        assert id in ClassifiedIds(sessions, key);
      }
    }
  }

  /** A row for exactly every classification in use, in order. */
  ghost predicate IsTaxonomy(sessions: Sessions, keys: seq<(string, string)>, rows: seq<seq<string>>) {
    && Ascending(GroupLess, keys)
    && (forall key :: key in keys <==> ClassifiedIds(sessions, key) != {})
    && AreTaxonomyRows(sessions, keys, rows)
  }

  method RenderTaxonomy(sessions: Sessions) returns (output: string)
    ensures exists keys, rows :: IsTaxonomy(sessions, keys, rows) && output == TAXONOMY_TABLE + Rows(rows)
  {
    hide Row, Escape, EscapedList, ClassifiedIds, GroupLess, Ascending, LexLess;
    var all := ClassificationKeys(sessions);
    ghost var rows := [];
    output := TAXONOMY_TABLE;
    for i := 0 to |all|
      invariant |rows| == i && forall j | 0 <= j < i :: IsTaxonomyRow(sessions, all[j], rows[j])
      invariant output == TAXONOMY_TABLE + Rows(rows)
    {
      var ids := SortedIds(ClassifiedIds(sessions, all[i]));
      var cells := [Escape(all[i].0), Escape(all[i].1), EscapedList(ids)];
      assert IsTaxonomyRow(sessions, all[i], cells);
      RowsAppend(rows, cells);
      output := output + Row(cells);
      rows := rows + [cells];
    }
    assert IsTaxonomy(sessions, all, rows);
  }

  /** A cell that unescapes to the sessions with a classification, in order. */
  ghost predicate ListsSessions(sessions: Sessions, key: (string, string), cell: string) {
    exists ids ::
      && Ascending(LexLess, ids) && (forall id :: id in ids <==> id in ClassifiedIds(sessions, key))
      && Unescape(cell) == OneLine(JoinWith(ids, ", "))
  }

  /** For any session data every taxonomy row reads back as its three cells. */
  lemma TaxonomyReadsBack(sessions: Sessions, keys: seq<(string, string)>, rows: seq<seq<string>>)
    requires AreTaxonomyRows(sessions, keys, rows)
    ensures ReadTable(Rows(rows)) == rows
    ensures forall i | 0 <= i < |rows| ::
              && |rows[i]| == 3
              && Unescape(rows[i][0]) == OneLine(keys[i].0)
              && Unescape(rows[i][1]) == OneLine(keys[i].1)
              && ListsSessions(sessions, keys[i], rows[i][2])
  {
    hide Escape, SafeCell, Rows, ReadTable, Unescape, OneLine, EscapedList, ClassifiedIds;
    forall i | 0 <= i < |rows|
      ensures |rows[i]| == 3 && forall j | 0 <= j < 3 :: SafeCell(rows[i][j])
      ensures Unescape(rows[i][0]) == OneLine(keys[i].0) && Unescape(rows[i][1]) == OneLine(keys[i].1)
      ensures ListsSessions(sessions, keys[i], rows[i][2])
    {
      assert IsTaxonomyRow(sessions, keys[i], rows[i]);
      var ids :| Ascending(LexLess, ids) && (forall id :: id in ids <==> id in ClassifiedIds(sessions, keys[i]))
        && rows[i] == [Escape(keys[i].0), Escape(keys[i].1), EscapedList(ids)];
      ThreeSafe(keys[i].0, keys[i].1, ids);
    }
    RowsReadBack(rows);
  }

  lemma ThreeSafe(a: string, b: string, ids: seq<string>)
    ensures SafeCell(Escape(a)) && SafeCell(Escape(b)) && SafeCell(EscapedList(ids))
    ensures Unescape(Escape(a)) == OneLine(a) && Unescape(Escape(b)) == OneLine(b)
    ensures Unescape(EscapedList(ids)) == OneLine(JoinWith(ids, ", "))
  {
    EscapedListReadsBack(ids);
    EscapeSafe(a);
    EscapeSafe(b);
    EscapedListSafe(ids);
    UnescapeEscape(a);
    UnescapeEscape(b);
  }

  // ----- the graph: relationships and groups -----

  function KindText(kind: RelationshipKind): string {
    match kind case Branch => "branch" case Copy => "copy" case Version => "version"
  }

  lemma KindOnOneLine(kind: RelationshipKind)
    ensures OneLine(KindText(kind)) == KindText(kind)
  {
  }

  /** Source, relationship, target, rule. */
  function EdgeCells(e: Edge): seq<string> {
    [Escape(e.source), Escape(KindText(e.kind)), Escape(e.target), Escape(e.ruleId)]
  }

  /** Dimension, key, sessions. */
  function GroupCells(g: Group): seq<string> {
    [Escape(g.dimension), Escape(g.key), EscapedList(g.sessionIds)]
  }

  function EdgeRows(edges: seq<Edge>): seq<seq<string>> {
    seq(|edges|, i requires 0 <= i < |edges| => EdgeCells(edges[i]))
  }

  function GroupRows(groups: seq<Group>): seq<seq<string>> {
    seq(|groups|, i requires 0 <= i < |groups| => GroupCells(groups[i]))
  }

  const EDGE_TABLE :=
    "# Knowledge Graph\n\n## Explicit resolved relationships\n\n" +
    "| Source | Relationship | Target | Rule |\n| :--- | :--- | :--- | :--- |\n"
  const GROUP_TABLE :=
    "\n## Shared project groups\n\n" +
    "| Dimension | Key | Canonical sessions |\n| :--- | :--- | :--- |\n"

  method PushRows(before: string, rows: seq<seq<string>>) returns (output: string)
    ensures output == before + Rows(rows)
  {
    hide Row;
    output := before;
    for i := 0 to |rows|
      invariant output == before + Rows(rows[..i])
    {
      RowsAppend(rows[..i], rows[i]);
      assert rows[..i + 1] == rows[..i] + [rows[i]];
      output := output + Row(rows[i]);
    }
    assert rows[..|rows|] == rows;
  }

  method RenderGraph(graph: Graph) returns (output: string)
    ensures output == EDGE_TABLE + Rows(EdgeRows(graph.edges)) + GROUP_TABLE + Rows(GroupRows(graph.groups))
  {
    hide Rows, EdgeRows, GroupRows;
    output := PushRows(EDGE_TABLE, EdgeRows(graph.edges));
    output := PushRows(output + GROUP_TABLE, GroupRows(graph.groups));
  }

  /** For any graph every relationship reads back as its four cells and every group as its three. */
  lemma GraphReadsBack(graph: Graph)
    ensures ReadTable(Rows(EdgeRows(graph.edges))) == EdgeRows(graph.edges)
    ensures ReadTable(Rows(GroupRows(graph.groups))) == GroupRows(graph.groups)
    ensures forall i | 0 <= i < |graph.edges| ::
              var cells, e := EdgeRows(graph.edges)[i], graph.edges[i];
              && |cells| == 4
              && Unescape(cells[0]) == OneLine(e.source)
              && Unescape(cells[1]) == KindText(e.kind)
              && Unescape(cells[2]) == OneLine(e.target)
              && Unescape(cells[3]) == OneLine(e.ruleId)
    ensures forall i | 0 <= i < |graph.groups| ::
              var cells := GroupRows(graph.groups)[i];
              && |cells| == 3
              && Unescape(cells[0]) == OneLine(graph.groups[i].dimension)
              && Unescape(cells[1]) == OneLine(graph.groups[i].key)
              && Unescape(cells[2]) == OneLine(JoinWith(graph.groups[i].sessionIds, ", "))
  {
    hide Escape, SafeCell, Rows, ReadTable, Unescape, OneLine, EscapedList, KindText;
    forall i | 0 <= i < |graph.edges|
      ensures forall j | 0 <= j < 4 :: SafeCell(EdgeRows(graph.edges)[i][j])
      ensures var cells, e := EdgeRows(graph.edges)[i], graph.edges[i];
              && Unescape(cells[0]) == OneLine(e.source)
              && Unescape(cells[1]) == KindText(e.kind)
              && Unescape(cells[2]) == OneLine(e.target)
              && Unescape(cells[3]) == OneLine(e.ruleId)
    {
      var e := graph.edges[i];
      ThreeSafe(e.source, KindText(e.kind), []);
      KindOnOneLine(e.kind);
      ThreeSafe(e.target, e.ruleId, []);
    }
    forall i | 0 <= i < |graph.groups|
      ensures forall j | 0 <= j < 3 :: SafeCell(GroupRows(graph.groups)[i][j])
      ensures var cells := GroupRows(graph.groups)[i];
              && Unescape(cells[0]) == OneLine(graph.groups[i].dimension)
              && Unescape(cells[1]) == OneLine(graph.groups[i].key)
              && Unescape(cells[2]) == OneLine(JoinWith(graph.groups[i].sessionIds, ", "))
    {
      ThreeSafe(graph.groups[i].dimension, graph.groups[i].key, graph.groups[i].sessionIds);
    }
    RowsReadBack(EdgeRows(graph.edges));
    RowsReadBack(GroupRows(graph.groups));
  }

  // ----- what the cells say -----

  /** The number a score cell spells. */
  function ReadInt(s: string): int {
    if s != [] && s[0] == '-' then 0 - (FromDecimal(s[1..]) as int) else FromDecimal(s)
  }

  /** A score cell spells its score: a minus sign exactly for negative ones, and a numeral without leading zeros. */
  lemma IntTextReadsBack(n: int)
    ensures ReadInt(IntText(n)) == n
    ensures IntText(n)[0] == '-' <==> n < 0
    ensures IsCanonical(if n < 0 then IntText(n)[1..] else IntText(n))
  {
    hide ToDecimal, FromDecimal;
    DecimalRoundTrip(if n < 0 then -n else n);
    if n < 0 {
      assert IntText(n)[1..] == ToDecimal(-n);
    }
  }

  /** Scores never rise down the index, and sessions of one score come by id. */
  lemma IndexInOrder(sessions: Sessions, ranked: seq<string>)
    requires IsRanked(sessions, ranked)
    ensures forall i, j | 0 <= i < j < |ranked| ::
              && ranked[i] in sessions && ranked[j] in sessions
              && sessions[ranked[i]].score >= sessions[ranked[j]].score
              && (sessions[ranked[i]].score == sessions[ranked[j]].score ==> LexLess(ranked[i], ranked[j]))
  {
    hide LexLess;
    forall i | 0 <= i < |ranked|
      ensures ranked[i] in sessions
    {
      assert ranked[i] in ranked;
    }
  }

  /** The classification cell lists every dimension and label once, in order, or a dash. */
  lemma ClassificationsListed(matches: seq<ClassificationMatch>) returns (labels: seq<string>)
    ensures Ascending(LexLess, labels)
    ensures forall l :: l in labels <==> exists m | m in matches :: l == m.dimension + ":" + m.ruleLabel
    ensures ClassificationsText(matches) == if matches == [] then "-" else JoinWith(labels, ", ")
  {
    LexTotal();
    labels := SortDedup(LexLess, Labels(matches));
    SortSorts(LexLess, Labels(matches));
    forall l
      ensures l in Labels(matches) <==> exists m | m in matches :: l == m.dimension + ":" + m.ruleLabel
    {
      if m :| m in matches && l == m.dimension + ":" + m.ruleLabel {
        var i :| 0 <= i < |matches| && matches[i] == m;
        assert Labels(matches)[i] == l;
      }
    }
  }

  /** A session is headed by its title, or by its id when it has none or an empty one. */
  lemma HeadingExact(id: string, analyzed: AnalyzedSession, title: string)
    ensures Heading(id, analyzed.(session := analyzed.session.(title := None))) == id
    ensures Heading(id, analyzed.(session := analyzed.session.(title := Some(title)))) == if title == [] then id
              else title
  {
  }

  /** The relationships by name. */
  lemma KindNames()
    ensures KindText(Branch) == "branch" && KindText(Copy) == "copy" && KindText(Version) == "version"
  {
  }
}
