/** The graph projection of an analysis result (`AnalysisResult::session_graph`). */
module SessionGraph {
  import opened Wrappers
  import opened Text
  import opened Order
  import opened Documents
  import opened Relationships
  import opened AnalysisState

  datatype Node = Node(
    sessionId: string,
    provider: string,
    title: Option<string>,
    cwd: Option<string>,
    repoRoot: Option<string>,
    score: int,
    classifications: seq<ClassificationMatch>)

  datatype Edge = Edge(source: string, target: string, kind: RelationshipKind, ruleId: string)

  datatype Group = Group(dimension: string, key: string, sessionIds: seq<string>)

  datatype Graph = Graph(nodes: map<string, Node>, edges: seq<Edge>, groups: seq<Group>)

  function KindRank(kind: RelationshipKind): nat {
    match kind case Branch => 0 case Copy => 1 case Version => 2
  }

  /** The derived order of edges: field by field. */
  predicate EdgeLess(a: Edge, b: Edge) {
    if a.source != b.source then LexLess(a.source, b.source)
    else if a.target != b.target then LexLess(a.target, b.target)
    else if a.kind != b.kind then KindRank(a.kind) < KindRank(b.kind)
    else LexLess(a.ruleId, b.ruleId)
  }

  predicate GroupLess(a: (string, string), b: (string, string)) {
    if a.0 != b.0 then LexLess(a.0, b.0) else LexLess(a.1, b.1)
  }

  function KeyOf(group: Group): (string, string) {
    (group.dimension, group.key)
  }

  ghost predicate InKeyOrder(groups: seq<Group>) {
    forall i, j | 0 <= i < j < |groups| :: GroupLess(KeyOf(groups[i]), KeyOf(groups[j]))
  }

  lemma EdgeTotal()
    ensures StrictTotal(EdgeLess)
  {
    LexTotal();
    hide LexLess;
  }

  lemma GroupTotal()
    ensures StrictTotal(GroupLess)
  {
    LexTotal();
    hide LexLess;
  }

  function NodeOf(id: string, analyzed: AnalyzedSession): Node {
    Node(id, analyzed.session.provider, analyzed.session.title, analyzed.session.cwd, analyzed.session.repoRoot,
         analyzed.score, analyzed.classifications)
  }

  /** The edge a hint of one session gives, if it is resolved. */
  function EdgeFrom(target: string, hint: RelationshipHint): Option<Edge> {
    if hint.resolution.Resolved? then Some(Edge(hint.resolution.sessionId, target, hint.kind, hint.ruleId)) else None
  }

  /** Some session has a resolved hint that reads like this edge. */
  predicate Hinted(sessions: Sessions, e: Edge) {
    e.target in sessions && exists hint | hint in sessions[e.target].hints :: EdgeFrom(e.target, hint) == Some(e)
  }

  const WORKING_DIRECTORY := "working_directory"
  const REPOSITORY := "repository"

  /** The value a session has in a dimension: trimmed, and none when blank. */
  function Membership(u: Unicode, dimension: string, session: SessionRecord): Option<string> {
    var value := if dimension == WORKING_DIRECTORY then session.cwd else session.repoRoot;
    if value.None? || Trim(u, value.value) == [] then None else Some(Trim(u, value.value))
  }

  /** The sessions that share a value. */
  function Members(u: Unicode, sessions: Sessions, dimension: string, key: string): set<string> {
    set id | id in sessions && Membership(u, dimension, sessions[id].session) == Some(key)
  }

  ghost predicate IsGroup(u: Unicode, sessions: Sessions, g: Group) {
    && g.dimension in {WORKING_DIRECTORY, REPOSITORY}
    && |Members(u, sessions, g.dimension, g.key)| > 1
    && Ascending(LexLess, g.sessionIds)
    && forall id :: id in g.sessionIds <==> id in Members(u, sessions, g.dimension, g.key)
  }

  /** One node a session, exactly the resolved hints as edges, exactly the shared values as groups, all in order. */
  ghost predicate IsGraphOf(u: Unicode, sessions: Sessions, g: Graph) {
    && g.nodes == (map id | id in sessions :: NodeOf(id, sessions[id]))
    && Ascending(EdgeLess, g.edges)
    && (forall e :: e in g.edges <==> Hinted(sessions, e))
    && InKeyOrder(g.groups)
    && (forall group :: group in g.groups <==> IsGroup(u, sessions, group))
  }

  method Project(u: Unicode, sessions: Sessions) returns (g: Graph)
    ensures IsGraphOf(u, sessions, g)
  {
    hide Hinted, IsGroup;
    var edges := CollectEdges(sessions);
    var groups := CollectGroups(u, sessions);
    g := Graph(map id | id in sessions :: NodeOf(id, sessions[id]), edges, groups);
  }

  method CollectEdges(sessions: Sessions) returns (edges: seq<Edge>)
    ensures Ascending(EdgeLess, edges) && forall e :: e in edges <==> Hinted(sessions, e)
  {
    EdgeTotal();
    hide EdgeLess;
    edges := [];
    var remaining := sessions.Keys;
    while remaining != {}
      invariant remaining <= sessions.Keys && Ascending(EdgeLess, edges)
      invariant forall e :: e in edges <==> e.target !in remaining && Hinted(sessions, e)
      decreases |remaining|
    {
      var id :| id in remaining;
      var hints := sessions[id].hints;
      ghost var before := edges;
      for i := 0 to |hints|
        invariant Ascending(EdgeLess, edges)
        invariant forall e :: e in edges <==> e in before || exists j | 0 <= j < i :: EdgeFrom(id, hints[j]) == Some(e)
      {
        var e := EdgeFrom(id, hints[i]);
        if e.Some? {
          InsertAscending(EdgeLess, e.value, edges);
          InsertElements(EdgeLess, e.value, edges);
          edges := Insert(EdgeLess, e.value, edges);
        }
      }
      remaining := remaining - {id};
    }
  }

  /** The groups so far are those of the first `count` keys. */
  ghost predicate GroupsOfFirst(u: Unicode, sessions: Sessions, keys: seq<(string, string)>, count: nat,
      groups: seq<Group>)
    requires count <= |keys|
  {
    && (forall group :: group in groups <==> IsGroup(u, sessions, group) && KeyOf(group) in keys[..count])
    && InKeyOrder(groups)
  }

  lemma AppendGroup(u: Unicode, sessions: Sessions, keys: seq<(string, string)>, count: nat, groups: seq<Group>,
      group: Option<Group>)
    requires count < |keys| && Ascending(GroupLess, keys) && GroupsOfFirst(u, sessions, keys, count, groups)
    requires group.Some? ==> KeyOf(group.value) == keys[count]
    requires forall other :: IsGroup(u, sessions, other) && KeyOf(other) == keys[count] <==> group == Some(other)
    ensures GroupsOfFirst(u, sessions, keys, count + 1, if group.Some? then groups + [group.value] else groups)
  {
    hide IsGroup, GroupLess, KeyOf;
    assert keys[..count + 1] == keys[..count] + [keys[count]];
    if group.Some? {
      var all := groups + [group.value];
      forall other
        ensures other in all <==> IsGroup(u, sessions, other) && KeyOf(other) in keys[..count + 1]
      {
        assert other in all <==> other in groups || other == group.value;
      }
      forall i, j | 0 <= i < j < |all|
        ensures GroupLess(KeyOf(all[i]), KeyOf(all[j]))
      {
        assert all[i] in groups;
      }
    }
  }

  /** One group for every key that several sessions share, in key order. */
  method CollectGroups(u: Unicode, sessions: Sessions) returns (groups: seq<Group>)
    ensures InKeyOrder(groups)
    ensures forall group :: group in groups <==> IsGroup(u, sessions, group)
  {
    var keys := CollectKeys(u, sessions);
    KeysOfGroups(u, sessions, keys);
    hide GroupLess, IsGroup, KeyOf;
    groups := [];
    for i := 0 to |keys|
      invariant GroupsOfFirst(u, sessions, keys, i, groups)
    {
      assert keys[i] in keys;
      var group := GroupAt(u, sessions, keys[i]);
      AppendGroup(u, sessions, keys, i, groups, group);
      if group.Some? {
        groups := groups + [group.value];
      }
    }
    assert keys[..|keys|] == keys;
  }

  /** The group of one key, when at least two sessions share it. */
  method GroupAt(u: Unicode, sessions: Sessions, key: (string, string)) returns (group: Option<Group>)
    requires key.0 in {WORKING_DIRECTORY, REPOSITORY}
    ensures group.Some? ==> KeyOf(group.value) == key
    ensures forall other :: IsGroup(u, sessions, other) && KeyOf(other) == key <==> group == Some(other)
  {
    hide Membership;
    var members := Members(u, sessions, key.0, key.1);
    if |members| <= 1 {
      return None;
    }
    var ids := SortedIds(members);
    group := Some(Group(key.0, key.1, ids));
    OneGroup(u, sessions, group.value);
  }

  lemma KeysOfGroups(u: Unicode, sessions: Sessions, keys: seq<(string, string)>)
    requires forall dimension, key :: (dimension, key) in keys <==>
               dimension in {WORKING_DIRECTORY, REPOSITORY} && exists id | id in sessions ::
                 Membership(u, dimension, sessions[id].session) == Some(key)
    ensures forall group | IsGroup(u, sessions, group) :: KeyOf(group) in keys
  {
    hide Membership;
    forall group | IsGroup(u, sessions, group)
      ensures KeyOf(group) in keys
    {
      var id :| id in Members(u, sessions, group.dimension, group.key);
    }
  }

  /** The group of a key is unique. */
  lemma OneGroup(u: Unicode, sessions: Sessions, group: Group)
    requires IsGroup(u, sessions, group)
    ensures forall other | IsGroup(u, sessions, other) && other.dimension == group.dimension
              && other.key == group.key :: other == group
  {
    LexTotal();
    forall other | IsGroup(u, sessions, other) && other.dimension == group.dimension && other.key == group.key
      ensures other == group
    {
      AscendingUnique(LexLess, other.sessionIds, group.sessionIds);
    }
  }

  method CollectKeys(u: Unicode, sessions: Sessions) returns (keys: seq<(string, string)>)
    ensures Ascending(GroupLess, keys)
    ensures forall dimension, key :: (dimension, key) in keys <==>
              dimension in {WORKING_DIRECTORY, REPOSITORY} && exists id | id in sessions ::
                Membership(u, dimension, sessions[id].session) == Some(key)
  {
    GroupTotal();
    hide GroupLess, Membership;
    keys := [];
    var remaining := sessions.Keys;
    while remaining != {}
      invariant remaining <= sessions.Keys && Ascending(GroupLess, keys)
      invariant forall dimension, key :: (dimension, key) in keys <==>
                  dimension in {WORKING_DIRECTORY, REPOSITORY} &&
                  exists id | id in sessions && id !in remaining ::
                    Membership(u, dimension, sessions[id].session) == Some(key)
      decreases |remaining|
    {
      var id :| id in remaining;
      var cwd := Membership(u, WORKING_DIRECTORY, sessions[id].session);
      var repo := Membership(u, REPOSITORY, sessions[id].session);
      if cwd.Some? {
        InsertAscending(GroupLess, (WORKING_DIRECTORY, cwd.value), keys);
        InsertElements(GroupLess, (WORKING_DIRECTORY, cwd.value), keys);
        keys := Insert(GroupLess, (WORKING_DIRECTORY, cwd.value), keys);
      }
      if repo.Some? {
        InsertAscending(GroupLess, (REPOSITORY, repo.value), keys);
        InsertElements(GroupLess, (REPOSITORY, repo.value), keys);
        keys := Insert(GroupLess, (REPOSITORY, repo.value), keys);
      }
      remaining := remaining - {id};
    }
  }

  method SortedIds(ids: set<string>) returns (sorted: seq<string>)
    ensures Ascending(LexLess, sorted) && forall id :: id in sorted <==> id in ids
  {
    LexTotal();
    hide LexLess;
    sorted := [];
    var remaining := ids;
    while remaining != {}
      invariant remaining <= ids && Ascending(LexLess, sorted)
      invariant forall id :: id in sorted <==> id in ids - remaining
      decreases |remaining|
    {
      var id :| id in remaining;
      InsertAscending(LexLess, id, sorted);
      InsertElements(LexLess, id, sorted);
      sorted := Insert(LexLess, id, sorted);
      remaining := remaining - {id};
    }
  }
}
