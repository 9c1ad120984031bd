/** The parent-id graph built by `PidGraph.parse`: one forward pass over the
    command log that records, per command id, its parent id and the chain of
    ancestor ids (parent first). */
module PidGraph {

  /** One intercepted command. `pid` is the id of the command that spawned it;
      for the first command it is a sentinel that is not itself a command id. */
  datatype Cmd = Cmd(id: nat, pid: nat, cwd: string, which: string, command: seq<string>)

  /** `graph`: command id to ancestor chain, nearest ancestor first. */
  type Graph = map<nat, seq<nat>>

  /** The extension's two in-memory maps. */
  datatype State = State(graph: Graph, pidById: map<nat, nat>)

  /** Both maps as a freshly constructed extension holds them. */
  const Empty: State := State(map[], map[])

  /** `graph.get(id, [])` */
  function ChainOf(g: Graph, id: nat): seq<nat> {
    if id in g then g[id] else []
  }

  function Ids(cmds: seq<Cmd>): set<nat> {
    set c | c in cmds :: c.id
  }

  /** Processing one record: its parent is recorded, and its chain is the parent
      followed by the parent's chain as known at that moment (empty when the
      parent has no entry yet: no error is raised). */
  function Step(st: State, c: Cmd): (r: State)
    ensures r.graph.Keys == st.graph.Keys + {c.id}
    ensures r.pidById.Keys == st.pidById.Keys + {c.id}
    ensures r.pidById[c.id] == c.pid
    ensures |r.graph[c.id]| == 1 + |ChainOf(st.graph, c.pid)|
    ensures r.graph[c.id][0] == c.pid
    ensures r.graph[c.id][1..] == (if c.pid in st.graph then st.graph[c.pid] else [])
    ensures forall k :: k in st.graph && k != c.id ==> r.graph[k] == st.graph[k]
    ensures forall k :: k in st.pidById && k != c.id ==> r.pidById[k] == st.pidById[k]
  {
    State(st.graph[c.id := [c.pid] + ChainOf(st.graph, c.pid)], st.pidById[c.id := c.pid])
  }

  /** The loop of `parse`: records are processed in log order, the last one last. */
  function ParseCmds(st: State, cmds: seq<Cmd>): (r: State)
    ensures r.graph.Keys == st.graph.Keys + Ids(cmds)
    ensures r.pidById.Keys == st.pidById.Keys + Ids(cmds)
    decreases |cmds|
  {
    if |cmds| == 0 then st
    else
      var init := cmds[..|cmds| - 1];
      var last := cmds[|cmds| - 1];
      assert cmds == init + [last];
      assert Ids(cmds) == Ids(init) + {last.id};
      Step(ParseCmds(st, init), last)
  }

  /** Appending a record to the log appends one step to the pass. */
  lemma ParseSnoc(st: State, cmds: seq<Cmd>, c: Cmd)
    ensures ParseCmds(st, cmds + [c]) == Step(ParseCmds(st, cmds), c)
  {
    assert (cmds + [c])[..|cmds|] == cmds;
  }

  /** What `parse` leaves behind: the two maps it dumps, and the extension's
      in-memory state, which it clears before returning. */
  datatype ParseOutcome = ParseOutcome(dumpedGraph: Graph, dumpedPidById: map<nat, nat>, after: State)

  function Parse(st: State, cmds: seq<Cmd>): (r: ParseOutcome)
    ensures r.after.graph == map[] && r.after.pidById == map[]
    ensures r.dumpedGraph.Keys == st.graph.Keys + Ids(cmds)
    ensures r.dumpedPidById.Keys == st.pidById.Keys + Ids(cmds)
    ensures r.dumpedGraph == ParseCmds(st, cmds).graph && r.dumpedPidById == ParseCmds(st, cmds).pidById
  {
    var full := ParseCmds(st, cmds);
    ParseOutcome(full.graph, full.pidById, Empty)
  }

  /** The record at `i` is the last one in the log with its id. */
  predicate LastWithId(cmds: seq<Cmd>, i: nat)
    requires i < |cmds|
  {
    forall j :: i < j < |cmds| ==> cmds[j].id != cmds[i].id
  }

  /** `pid_by_id` maps every id to the parent of the LAST record carrying it
      (a later record with the same id overwrites an earlier one), and ids the
      log does not mention keep their previous value. */
  lemma {:induction false} ParsePidByIdLastWins(st: State, cmds: seq<Cmd>)
    ensures forall i :: 0 <= i < |cmds| && LastWithId(cmds, i) ==>
              ParseCmds(st, cmds).pidById[cmds[i].id] == cmds[i].pid
    ensures forall k :: k in st.pidById && k !in Ids(cmds) ==>
              ParseCmds(st, cmds).pidById[k] == st.pidById[k]
    decreases |cmds|
  {
    if |cmds| > 0 {
      var init := cmds[..|cmds| - 1];
      var last := cmds[|cmds| - 1];
      assert cmds == init + [last];
      ParsePidByIdLastWins(st, init);
      forall i | 0 <= i < |cmds| && LastWithId(cmds, i)
        ensures ParseCmds(st, cmds).pidById[cmds[i].id] == cmds[i].pid
      {
        if i < |cmds| - 1 {
          assert LastWithId(init, i);
          assert cmds[i].id != last.id;
        }
      }
      forall k | k in st.pidById && k !in Ids(cmds)
        ensures ParseCmds(st, cmds).pidById[k] == st.pidById[k]
      {
        assert last in cmds;
        assert k !in Ids(init) by {
          forall c | c in init ensures c.id != k {
            assert c in cmds;
          }
        }
      }
    }
  }

  /** Every chain `parse` writes starts with that id's recorded parent, so no
      chain is empty: the first command's chain is its sentinel parent. */
  predicate HeadsArePids(st: State) {
    && st.graph.Keys == st.pidById.Keys
    && forall k :: k in st.graph ==> |st.graph[k]| > 0 && st.graph[k][0] == st.pidById[k]
  }

  lemma {:induction false} ParseChainHeads(st: State, cmds: seq<Cmd>)
    requires HeadsArePids(st)
    ensures HeadsArePids(ParseCmds(st, cmds))
    decreases |cmds|
  {
    if |cmds| > 0 {
      var init := cmds[..|cmds| - 1];
      ParseChainHeads(st, init);
      StepKeepsHeads(ParseCmds(st, init), cmds[|cmds| - 1]);
    }
  }

  lemma StepKeepsHeads(s: State, c: Cmd)
    requires HeadsArePids(s)
    ensures HeadsArePids(Step(s, c))
  {
    var r := Step(s, c);
    forall k | k in r.graph ensures |r.graph[k]| > 0 && r.graph[k][0] == r.pidById[k] {
      if k != c.id {
        assert r.graph[k] == s.graph[k] && r.pidById[k] == s.pidById[k];
      }
    }
  }

  /** Every parent id is smaller than its child's id. */
  predicate ParentsPrecede(m: map<nat, nat>) {
    forall k :: k in m ==> m[k] < k
  }

  /** The reference definition of ancestry: follow parent pointers until an id
      with no recorded parent is reached. */
  function Ancestors(m: map<nat, nat>, k: nat): (r: seq<nat>)
    requires ParentsPrecede(m)
    ensures forall i :: 0 <= i < |r| ==> r[i] < k
    ensures |r| > 0 ==> r[|r| - 1] !in m
    ensures forall i :: 0 <= i < |r| - 1 ==> r[i] in m && r[i + 1] == m[r[i]]
    decreases k
  {
    if k in m then [m[k]] + Ancestors(m, m[k]) else []
  }

  /** Recording a parent for a larger id does not change the ancestry of a smaller one. */
  lemma {:induction false} AncestorsFrame(m: map<nat, nat>, id: nat, p: nat, k: nat)
    requires ParentsPrecede(m)
    requires p < id && k < id
    ensures ParentsPrecede(m[id := p])
    ensures Ancestors(m[id := p], k) == Ancestors(m, k)
    decreases k
  {
    if k in m {
      AncestorsFrame(m, id, p, m[k]);
    }
  }

  /** The log's ordering invariant: ids strictly increase along the log, and
      every parent id is smaller than its child's id. */
  predicate WellOrdered(cmds: seq<Cmd>) {
    && (forall i :: 0 <= i < |cmds| ==> cmds[i].pid < cmds[i].id)
    && (forall i, j :: 0 <= i < j < |cmds| ==> cmds[i].id < cmds[j].id)
  }

  /** The graph holds exactly the reference ancestry of every id it knows. */
  predicate ChainsAreAncestry(st: State) {
    && ParentsPrecede(st.pidById)
    && st.graph.Keys == st.pidById.Keys
    && forall k :: k in st.graph ==> st.graph[k] == Ancestors(st.pidById, k)
  }

  /** One step on a record whose id exceeds every known id and whose parent
      precedes it keeps the graph equal to the reference ancestry. */
  lemma StepKeepsAncestry(s: State, c: Cmd)
    requires ChainsAreAncestry(s)
    requires c.pid < c.id
    requires forall k :: k in s.pidById ==> k < c.id
    ensures ChainsAreAncestry(Step(s, c))
  {
    var m := s.pidById;
    var r := Step(s, c);
    AncestorsFrame(m, c.id, c.pid, c.pid);
    assert r.pidById == m[c.id := c.pid];
    forall k | k in r.graph
      ensures r.graph[k] == Ancestors(r.pidById, k)
    {
      if k == c.id {
        assert Ancestors(r.pidById, k) == [c.pid] + Ancestors(r.pidById, c.pid);
        assert Ancestors(m, c.pid) == ChainOf(s.graph, c.pid);
      } else {
        AncestorsFrame(m, c.id, c.pid, k);
      }
    }
  }

  /** Ids of records that all lie below a bound lie below it as a set too. */
  lemma IdsBelow(cmds: seq<Cmd>, bound: nat)
    requires forall i :: 0 <= i < |cmds| ==> cmds[i].id < bound
    ensures forall k :: k in Ids(cmds) ==> k < bound
  {
    forall k | k in Ids(cmds) ensures k < bound {
      var d :| d in cmds && d.id == k;
      var i :| 0 <= i < |cmds| && cmds[i] == d;
    }
  }

  /** On a well-ordered log, a single forward pass from empty maps computes for
      every id exactly its full ancestry (parent first, ending at the first
      command's sentinel parent). */
  lemma {:induction false} ParseBuildsAncestry(cmds: seq<Cmd>)
    requires WellOrdered(cmds)
    ensures ChainsAreAncestry(ParseCmds(Empty, cmds))
    decreases |cmds|
  {
    if |cmds| > 0 {
      var init := cmds[..|cmds| - 1];
      var c := cmds[|cmds| - 1];
      assert WellOrdered(init);
      ParseBuildsAncestry(init);
      IdsBelow(init, c.id);
      StepKeepsAncestry(ParseCmds(Empty, init), c);
      assert ParseCmds(Empty, cmds) == Step(ParseCmds(Empty, init), c);
    }
  }
}
