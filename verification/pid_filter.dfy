/** `PidGraph.filter_cmds_by_pid`: sort a subset of commands by numeric id and
    drop every command that has an ancestor among the subset members processed
    before it. */
module PidFilter {

  import opened Wrappers
  import opened PidGraph

  /** A subset id missing from the loaded graph: Python's KeyError. */
  datatype FilterError = KeyError(id: nat)

  predicate SortedById(s: seq<Cmd>) {
    forall i, j :: 0 <= i < j < |s| ==> s[i].id <= s[j].id
  }

  /** The commands of `s` with id `k`, in order. */
  function WithId(s: seq<Cmd>, k: nat): seq<Cmd> {
    if |s| == 0 then [] else (if s[0].id == k then [s[0]] else []) + WithId(s[1..], k)
  }

  /** Insertion before the first element with a greater or equal id, so that
      `c` stays ahead of the commands with its id. */
  function Insert(c: Cmd, s: seq<Cmd>): (r: seq<Cmd>)
    ensures multiset(r) == multiset(s) + multiset{c}
    ensures forall x :: x in r <==> x == c || x in s
  {
    if |s| == 0 || c.id <= s[0].id then [c] + s
    else
      assert s == [s[0]] + s[1..];
      [s[0]] + Insert(c, s[1..])
  }

  lemma {:induction false} InsertSorted(c: Cmd, s: seq<Cmd>)
    requires SortedById(s)
    ensures SortedById(Insert(c, s))
  {
    if |s| > 0 && c.id > s[0].id {
      InsertSorted(c, s[1..]);
      var t := Insert(c, s[1..]);
      forall x | x in t ensures s[0].id <= x.id {
        if x != c {
          var i :| 0 <= i < |s[1..]| && s[1..][i] == x;
          assert s[i + 1] == x;
        }
      }
      assert forall j :: 0 <= j < |t| ==> t[j] in t;
    }
  }

  /** `sorted(cmds, key=lambda x: int(x["id"]))`: a stable sort by id. */
  function SortById(s: seq<Cmd>): (r: seq<Cmd>)
    ensures SortedById(r)
    ensures multiset(r) == multiset(s)
  {
    if |s| == 0 then []
    else
      assert s == [s[0]] + s[1..];
      InsertSorted(s[0], SortById(s[1..]));
      Insert(s[0], SortById(s[1..]))
  }

  lemma {:induction false} InsertStable(c: Cmd, s: seq<Cmd>, k: nat)
    ensures WithId(Insert(c, s), k) == (if c.id == k then [c] else []) + WithId(s, k)
  {
    if |s| == 0 || c.id <= s[0].id {
      assert ([c] + s)[1..] == s;
    } else {
      var t := Insert(c, s[1..]);
      InsertStable(c, s[1..], k);
      assert ([s[0]] + t)[1..] == t;
    }
  }

  /** The sort is stable: the commands sharing an id keep their input order. */
  lemma {:induction false} SortStable(s: seq<Cmd>, k: nat)
    ensures WithId(SortById(s), k) == WithId(s, k)
  {
    if |s| > 0 {
      SortStable(s[1..], k);
      InsertStable(s[0], SortById(s[1..]), k);
    }
  }

  /** Sorting an already sorted sequence leaves it as it is. */
  lemma {:induction false} SortSortedIsIdentity(s: seq<Cmd>)
    requires SortedById(s)
    ensures SortById(s) == s
  {
    if |s| > 0 {
      SortSortedIsIdentity(s[1..]);
      assert s == [s[0]] + s[1..];
    }
  }

  /** The loop of `filter_cmds_by_pid` over the sorted commands; `parsed` is
      `parsed_ids`, the ids of every command processed so far, kept or not. */
  function FilterSorted(g: Graph, s: seq<Cmd>, parsed: set<nat>): Result<seq<Cmd>, FilterError>
  {
    if |s| == 0 then Success([])
    else if s[0].id !in g then Failure(KeyError(s[0].id))
    else
      var keep := (set x | x in g[s[0].id]) !! parsed;
      var rest :- FilterSorted(g, s[1..], parsed + {s[0].id});
      Success(if keep then [s[0]] + rest else rest)
  }

  // ---------------------------------------------------------------------------
  // Reference definition: which positions of a sorted subset survive.

  /** Every command of `s` has an entry in the graph. */
  predicate AllInGraph(g: Graph, s: seq<Cmd>) {
    forall c :: c in s ==> c.id in g
  }

  /** The command at position `i` has no ancestor among the commands before it. */
  predicate Kept(g: Graph, s: seq<Cmd>, i: nat)
    requires i < |s|
  {
    forall j :: 0 <= j < i ==> s[j].id !in ChainOf(g, s[i].id)
  }

  /** The kept commands at positions `k` and after, in order. */
  function DedupFrom(g: Graph, s: seq<Cmd>, k: nat): seq<Cmd>
    decreases |s| - k
  {
    if k >= |s| then [] else (if Kept(g, s, k) then [s[k]] else []) + DedupFrom(g, s, k + 1)
  }

  function Dedup(g: Graph, s: seq<Cmd>): seq<Cmd> {
    DedupFrom(g, s, 0)
  }

  /** The ids of the commands of `s`, as a set. */
  function IdSet(s: seq<Cmd>): set<nat> {
    set i | 0 <= i < |s| :: s[i].id
  }

  /** On a subset whose commands are all in the graph, the loop keeps exactly
      the commands the reference definition keeps. */
  lemma {:induction false} FilterSortedIsDedup(g: Graph, s: seq<Cmd>, k: nat)
    requires AllInGraph(g, s)
    requires k <= |s|
    ensures FilterSorted(g, s[k..], IdSet(s[..k])) == Success(DedupFrom(g, s, k))
    decreases |s| - k
  {
    if k < |s| {
      FilterSortedIsDedup(g, s, k + 1);
      var t := s[k..];
      assert t[0] == s[k] && t[1..] == s[k + 1..];
      assert s[k] in s;
      assert IdSet(s[..k + 1]) == IdSet(s[..k]) + {s[k].id} by {
        assert forall i :: 0 <= i < k ==> s[..k + 1][i] == s[..k][i];
      }
      var keep := (set x | x in g[s[k].id]) !! IdSet(s[..k]);
      assert keep == Kept(g, s, k) by {
        if !Kept(g, s, k) {
          var j :| 0 <= j < k && s[j].id in ChainOf(g, s[k].id);
          assert s[..k][j] == s[j];
          assert s[j].id in IdSet(s[..k]);
        }
      }
      var rest := FilterSorted(g, t[1..], IdSet(s[..k]) + {t[0].id});
      assert rest == Success(DedupFrom(g, s, k + 1));
      assert FilterSorted(g, t, IdSet(s[..k])) == Success(if keep then [t[0]] + rest.value else rest.value);
      if !keep {
        assert DedupFrom(g, s, k) == DedupFrom(g, s, k + 1);
      }
    }
  }

  /** The loop fails exactly when some command is missing from the graph, and
      then reports the first such command in processing order. */
  lemma {:induction false} FilterSortedFailure(g: Graph, s: seq<Cmd>, parsed: set<nat>)
    ensures FilterSorted(g, s, parsed).Failure? <==> !AllInGraph(g, s)
    ensures FilterSorted(g, s, parsed).Failure? ==>
              exists i :: 0 <= i < |s| && s[i].id !in g && FilterSorted(g, s, parsed).error.id == s[i].id
                          && forall j :: 0 <= j < i ==> s[j].id in g
  {
    if |s| > 0 {
      assert s == [s[0]] + s[1..];
      if s[0].id in g {
        FilterSortedFailure(g, s[1..], parsed + {s[0].id});
        if FilterSorted(g, s, parsed).Failure? {
          var i :| 0 <= i < |s[1..]| && s[1..][i].id !in g
                   && FilterSorted(g, s[1..], parsed + {s[0].id}).error.id == s[1..][i].id
                   && forall j :: 0 <= j < i ==> s[1..][j].id in g;
          assert s[i + 1] == s[1..][i];
          forall j | 0 <= j < i + 1 ensures s[j].id in g {
            if j > 0 {
              assert s[j] == s[1..][j - 1];
            }
          }
        }
      } else {
        assert s[0] in s;
      }
    }
  }

  /** Sorting keeps the members of the sequence. */
  lemma SortSameMembers(cmds: seq<Cmd>)
    ensures forall c :: c in cmds <==> c in SortById(cmds)
  {
    var s := SortById(cmds);
    assert forall c :: c in cmds <==> c in multiset(cmds);
    assert forall c :: c in s <==> c in multiset(s);
  }

  /** On a sorted subset the first failing command carries the least missing id. */
  lemma FilterSortedLeastMissing(g: Graph, s: seq<Cmd>)
    requires SortedById(s)
    requires !AllInGraph(g, s)
    ensures FilterSorted(g, s, {}).Failure?
    ensures FilterSorted(g, s, {}).error.id !in g && FilterSorted(g, s, {}).error.id in Ids(s)
    ensures forall c :: c in s && c.id !in g ==> FilterSorted(g, s, {}).error.id <= c.id
  {
    FilterSortedFailure(g, s, {});
    var e := FilterSorted(g, s, {}).error.id;
    var i :| 0 <= i < |s| && s[i].id !in g && e == s[i].id
             && forall j :: 0 <= j < i ==> s[j].id in g;
    assert s[i] in s;
    forall c | c in s && c.id !in g ensures e <= c.id {
      var m :| 0 <= m < |s| && s[m] == c;
      assert !(m < i);
    }
  }

  /** On a subset wholly in the graph the loop computes the reference definition. */
  lemma FilterSortedSucceeds(g: Graph, s: seq<Cmd>)
    requires AllInGraph(g, s)
    ensures FilterSorted(g, s, {}) == Success(Dedup(g, s))
  {
    FilterSortedIsDedup(g, s, 0);
    assert s[0..] == s && s[..0] == [];
    assert IdSet([]) == {};
  }

  /** `filter_cmds_by_pid(cmds)` against the loaded graph `g`. */
  function FilterCmdsByPid(g: Graph, cmds: seq<Cmd>): (r: Result<seq<Cmd>, FilterError>)
    ensures r.Failure? <==> exists c :: c in cmds && c.id !in g
    ensures r.Failure? ==> r.error.id !in g && r.error.id in Ids(cmds)
                           && forall c :: c in cmds && c.id !in g ==> r.error.id <= c.id
    ensures r.Success? ==> r.value == Dedup(g, SortById(cmds))
  {
    var s := SortById(cmds);
    SortSameMembers(cmds);
    assert Ids(s) == Ids(cmds);
    if AllInGraph(g, s) then
      FilterSortedSucceeds(g, s);
      FilterSorted(g, s, {})
    else
      FilterSortedLeastMissing(g, s);
      FilterSorted(g, s, {})
  }

  // ---------------------------------------------------------------------------
  // Properties of the reference definition.

  /** `a` can be obtained from `b` by deleting elements. */
  predicate IsSubsequence(a: seq<Cmd>, b: seq<Cmd>)
    decreases |b|
  {
    || |a| == 0
    || (&& |b| > 0
        && ((a[0] == b[0] && IsSubsequence(a[1..], b[1..])) || IsSubsequence(a, b[1..])))
  }

  lemma {:induction false} SubsequenceMembers(a: seq<Cmd>, b: seq<Cmd>)
    requires IsSubsequence(a, b)
    ensures forall x :: x in a ==> x in b
    decreases |b|
  {
    if |a| > 0 {
      if a[0] == b[0] && IsSubsequence(a[1..], b[1..]) {
        SubsequenceMembers(a[1..], b[1..]);
        assert a == [a[0]] + a[1..];
        assert b == [b[0]] + b[1..];
      } else {
        SubsequenceMembers(a, b[1..]);
        assert forall x :: x in b[1..] ==> x in b;
      }
    }
  }

  /** A subsequence of a sequence sorted by id is itself sorted by id. */
  lemma {:induction false} SubsequenceSorted(a: seq<Cmd>, b: seq<Cmd>)
    requires IsSubsequence(a, b)
    requires SortedById(b)
    ensures SortedById(a)
    decreases |b|
  {
    if |a| > 0 {
      if a[0] == b[0] && IsSubsequence(a[1..], b[1..]) {
        SubsequenceSorted(a[1..], b[1..]);
        SubsequenceMembers(a[1..], b[1..]);
        forall j | 0 < j < |a| ensures a[0].id <= a[j].id {
          assert a[j] == a[1..][j - 1];
          assert a[j] in a[1..];
          var m :| 0 <= m < |b[1..]| && b[1..][m] == a[j];
          assert b[m + 1] == a[j];
        }
        forall i, j | 0 <= i < j < |a| ensures a[i].id <= a[j].id {
          if i > 0 {
            assert a[i] == a[1..][i - 1] && a[j] == a[1..][j - 1];
          }
        }
      } else {
        SubsequenceSorted(a, b[1..]);
      }
    }
  }

  lemma {:induction false} DedupFromSubsequence(g: Graph, s: seq<Cmd>, k: nat)
    requires k <= |s|
    ensures IsSubsequence(DedupFrom(g, s, k), s[k..])
    decreases |s| - k
  {
    if k < |s| {
      DedupFromSubsequence(g, s, k + 1);
      var t := s[k..];
      assert t[0] == s[k] && t[1..] == s[k + 1..];
      var a := DedupFrom(g, s, k);
      if Kept(g, s, k) {
        assert a == [s[k]] + DedupFrom(g, s, k + 1);
        assert a[0] == t[0] && a[1..] == DedupFrom(g, s, k + 1);
      } else {
        assert a == DedupFrom(g, s, k + 1);
      }
    }
  }

  lemma {:induction false} DedupFromMembers(g: Graph, s: seq<Cmd>, k: nat)
    ensures forall x :: x in DedupFrom(g, s, k) <==>
              exists i :: k <= i < |s| && s[i] == x && Kept(g, s, i)
    decreases |s| - k
  {
    if k < |s| {
      DedupFromMembers(g, s, k + 1);
    }
  }

  /** No retained command has an ancestor among the commands before it. */
  predicate Independent(g: Graph, s: seq<Cmd>) {
    forall i :: 0 <= i < |s| ==> Kept(g, s, i)
  }

  lemma IndependentCons(g: Graph, x: Cmd, d: seq<Cmd>)
    requires Independent(g, d)
    requires forall y :: y in d ==> x.id !in ChainOf(g, y.id)
    ensures Independent(g, [x] + d)
  {
    var e := [x] + d;
    forall i | 0 <= i < |e| ensures Kept(g, e, i) {
      if i > 0 {
        assert e[i] == d[i - 1] && e[i] in d;
        forall j | 0 <= j < i ensures e[j].id !in ChainOf(g, e[i].id) {
          if j > 0 {
            assert Kept(g, d, i - 1);
            assert e[j] == d[j - 1];
          }
        }
      }
    }
  }

  /** A kept command goes in front of later kept commands it is no ancestor of. */
  lemma DedupFromKeptHead(g: Graph, s: seq<Cmd>, k: nat)
    requires k < |s| && Kept(g, s, k)
    requires Independent(g, DedupFrom(g, s, k + 1))
    ensures Independent(g, DedupFrom(g, s, k))
  {
    var rest := DedupFrom(g, s, k + 1);
    assert forall y :: y in rest ==> s[k].id !in ChainOf(g, y.id) by {
      DedupFromMembers(g, s, k + 1);
      forall y | y in rest ensures s[k].id !in ChainOf(g, y.id) {
        var i :| k + 1 <= i < |s| && s[i] == y && Kept(g, s, i);
      }
    }
    IndependentCons(g, s[k], rest);
    assert DedupFrom(g, s, k) == [s[k]] + rest;
  }

  lemma {:induction false} DedupFromIndependent(g: Graph, s: seq<Cmd>, k: nat)
    ensures Independent(g, DedupFrom(g, s, k))
    decreases |s| - k
  {
    if k < |s| {
      DedupFromIndependent(g, s, k + 1);
      if Kept(g, s, k) {
        DedupFromKeptHead(g, s, k);
      } else {
        assert DedupFrom(g, s, k) == DedupFrom(g, s, k + 1);
      }
    }
  }

  lemma {:induction false} DedupFromOfIndependent(g: Graph, s: seq<Cmd>, k: nat)
    requires Independent(g, s)
    requires k <= |s|
    ensures DedupFrom(g, s, k) == s[k..]
    decreases |s| - k
  {
    if k < |s| {
      DedupFromOfIndependent(g, s, k + 1);
      assert s[k..] == [s[k]] + s[k + 1..];
    }
  }

  /** Membership in the filtered output, both directions: a command is kept
      exactly when no command processed before it in id order (kept or not)
      has its id in the command's chain. */
  lemma FilterKeptIff(g: Graph, cmds: seq<Cmd>)
    requires FilterCmdsByPid(g, cmds).Success?
    ensures forall x :: x in FilterCmdsByPid(g, cmds).value <==>
              exists i :: 0 <= i < |SortById(cmds)| && SortById(cmds)[i] == x && Kept(g, SortById(cmds), i)
  {
    DedupFromMembers(g, SortById(cmds), 0);
    assert FilterCmdsByPid(g, cmds).value == DedupFrom(g, SortById(cmds), 0);
  }

  /** The output is a subsequence of the input sorted by id, hence itself in
      ascending id order. */
  lemma FilterOrdered(g: Graph, cmds: seq<Cmd>)
    requires FilterCmdsByPid(g, cmds).Success?
    ensures IsSubsequence(FilterCmdsByPid(g, cmds).value, SortById(cmds))
    ensures SortedById(FilterCmdsByPid(g, cmds).value)
  {
    var s := SortById(cmds);
    DedupFromSubsequence(g, s, 0);
    assert s[0..] == s;
    SubsequenceSorted(Dedup(g, s), s);
  }

  /** On a non-empty input, the command with the smallest id (the first one
      of that id in input order) is always kept, at the front. */
  lemma FilterKeepsSmallest(g: Graph, cmds: seq<Cmd>)
    requires |cmds| > 0
    requires forall c :: c in cmds ==> c.id in g
    ensures FilterCmdsByPid(g, cmds).Success?
    ensures |FilterCmdsByPid(g, cmds).value| > 0
    ensures FilterCmdsByPid(g, cmds).value[0] == SortById(cmds)[0]
    ensures forall c :: c in cmds ==> FilterCmdsByPid(g, cmds).value[0].id <= c.id
  {
    var s := SortById(cmds);
    assert |s| == |cmds| by {
      assert |multiset(s)| == |multiset(cmds)|;
    }
    assert Kept(g, s, 0);
    forall c | c in cmds ensures s[0].id <= c.id {
      assert c in multiset(cmds);
      assert c in multiset(s);
      var m :| 0 <= m < |s| && s[m] == c;
    }
  }

  /** When no input id occurs in any input command's chain, nothing is dropped:
      the result is the input sorted by id. */
  lemma FilterIndependentInput(g: Graph, cmds: seq<Cmd>)
    requires forall c :: c in cmds ==> c.id in g
    requires forall c, d :: c in cmds && d in cmds ==> d.id !in ChainOf(g, c.id)
    ensures FilterCmdsByPid(g, cmds) == Success(SortById(cmds))
  {
    var s := SortById(cmds);
    SortSameMembers(cmds);
    assert Independent(g, s) by {
      forall i | 0 <= i < |s| ensures Kept(g, s, i) {
        assert s[i] in cmds;
        forall j | 0 <= j < i ensures s[j].id !in ChainOf(g, s[i].id) {
          assert s[j] in cmds;
        }
      }
    }
    DedupFromOfIndependent(g, s, 0);
    assert s[0..] == s;
  }

  /** Every command of the output is a command of the input. */
  lemma FilterOutputFromInput(g: Graph, cmds: seq<Cmd>)
    requires FilterCmdsByPid(g, cmds).Success?
    ensures forall c :: c in FilterCmdsByPid(g, cmds).value ==> c in cmds && c.id in g
  {
    var s := SortById(cmds);
    var out := FilterCmdsByPid(g, cmds).value;
    FilterOrdered(g, cmds);
    SubsequenceMembers(out, s);
    forall c | c in out ensures c in cmds {
      assert c in multiset(s);
    }
  }

  /** Filtering is idempotent: filtering an already filtered list returns it unchanged. */
  lemma FilterIdempotent(g: Graph, cmds: seq<Cmd>)
    requires FilterCmdsByPid(g, cmds).Success?
    ensures FilterCmdsByPid(g, FilterCmdsByPid(g, cmds).value) == FilterCmdsByPid(g, cmds)
  {
    var s := SortById(cmds);
    var out := FilterCmdsByPid(g, cmds).value;
    FilterOutputFromInput(g, cmds);
    FilterOrdered(g, cmds);
    SortSortedIsIdentity(out);
    assert out == DedupFrom(g, s, 0);
    DedupFromIndependent(g, s, 0);
    DedupFromOfIndependent(g, out, 0);
    assert out[0..] == out;
    assert FilterCmdsByPid(g, out) == Success(Dedup(g, out));
  }

  // ---------------------------------------------------------------------------
  // A worked example: make (1) runs sh (2), which runs gcc (3); make also runs
  // gcc (4). The first command's parent is the sentinel 0.

  const Make: Cmd := Cmd(1, 0, "", "make", [])
  const Sh: Cmd := Cmd(2, 1, "", "sh", [])
  const GccA: Cmd := Cmd(3, 2, "", "gcc", [])
  const GccB: Cmd := Cmd(4, 1, "", "gcc", [])

  const ExampleLog: seq<Cmd> := [Make, Sh, GccA, GccB]

  const ExampleGraph: Graph := map[1 := [0], 2 := [1, 0], 3 := [2, 1, 0], 4 := [1, 0]]

  /** The four steps of the pass over the example log, one record at a time. */
  lemma ExampleSteps()
    ensures Step(Step(Step(Step(Empty, Make), Sh), GccA), GccB).graph == ExampleGraph
  {
    var s1 := Step(Empty, Make);
    var s2 := Step(s1, Sh);
    var s3 := Step(s2, GccA);
    assert s1.graph == map[1 := [0]] by { assert [0] + [] == [0]; }
    assert s2.graph == map[1 := [0], 2 := [1, 0]] by { assert [1] + [0] == [1, 0]; }
    assert s3.graph == map[1 := [0], 2 := [1, 0], 3 := [2, 1, 0]] by { assert [2] + [1, 0] == [2, 1, 0]; }
    assert [1] + [0] == [1, 0];
  }

  /** One pass of `parse` over the example log, from empty maps, builds the
      example graph. */
  lemma ExampleParse()
    ensures ParseCmds(Empty, ExampleLog).graph == ExampleGraph
  {
    var log := ExampleLog;
    assert log[..0] + [Make] == log[..1];
    assert log[..1] + [Sh] == log[..2];
    assert log[..2] + [GccA] == log[..3];
    assert log[..3] + [GccB] == log;
    ParseSnoc(Empty, log[..0], Make);
    ParseSnoc(Empty, log[..1], Sh);
    ParseSnoc(Empty, log[..2], GccA);
    ParseSnoc(Empty, log[..3], GccB);
    ExampleSteps();
  }

  /** The example log is already in id order. */
  lemma ExampleLogSorted()
    ensures SortById(ExampleLog) == ExampleLog
  {
    SortSortedIsIdentity(ExampleLog);
  }

  /** Every command of the example log has an entry in the example graph. */
  lemma ExampleLogInGraph()
    ensures AllInGraph(ExampleGraph, ExampleLog)
  {
    assert Make.id in ExampleGraph && Sh.id in ExampleGraph && GccA.id in ExampleGraph && GccB.id in ExampleGraph;
  }

  /** Every later command descends from make, so only make survives. */
  lemma ExampleDedupAll()
    ensures Dedup(ExampleGraph, ExampleLog) == [Make]
  {
    var g := ExampleGraph;
    var s := ExampleLog;
    assert !Kept(g, s, 3) by { assert s[0].id in ChainOf(g, s[3].id); }
    assert !Kept(g, s, 2) by { assert s[0].id in ChainOf(g, s[2].id); }
    assert !Kept(g, s, 1) by { assert s[0].id in ChainOf(g, s[1].id); }
    assert DedupFrom(g, s, 4) == [];
    assert DedupFrom(g, s, 3) == [];
    assert DedupFrom(g, s, 2) == [];
    assert DedupFrom(g, s, 1) == [];
  }

  /** Deduplicating all four commands leaves make alone. */
  lemma ExampleFilterAll()
    ensures FilterCmdsByPid(ExampleGraph, ExampleLog) == Success([Make])
  {
    ExampleLogInGraph();
    FilterSortedSucceeds(ExampleGraph, ExampleLog);
    ExampleLogSorted();
    ExampleDedupAll();
  }

  /** Deduplicating the two gcc commands keeps both: neither is the other's ancestor. */
  lemma ExampleFilterGcc()
    ensures FilterCmdsByPid(ExampleGraph, [GccA, GccB]) == Success([GccA, GccB])
  {
    var g := ExampleGraph;
    var s := [GccA, GccB];
    assert AllInGraph(g, s) by {
      assert GccA.id in g && GccB.id in g;
    }
    FilterSortedSucceeds(g, s);
    SortSortedIsIdentity(s);
    assert Kept(g, s, 0) && Kept(g, s, 1);
    assert DedupFrom(g, s, 2) == [];
    assert DedupFrom(g, s, 1) == [GccB];
  }
}
