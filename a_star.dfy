/** `a_star` and `retrace_path`: best-first search over the jump maze with
    a best-cost map `visited`, a predecessor map `parents` and a frontier
    ordered by `f = g + h`, where `g` sums the jumps taken so far and `h` is
    the Manhattan distance to the recorded goal. */
module AStar {
  import opened Grid
  import opened Paths
  import opened Frontier

  /** `list.reverse()`. */
  function Reverse(s: seq<Pos>): (r: seq<Pos>)
    ensures |r| == |s| && forall i :: 0 <= i < |s| ==> r[i] == s[|s| - 1 - i]
  {
    if s == [] then [] else Reverse(s[1..]) + [s[0]]
  }

  /** Every parent link leads to a key of `parents` of smaller rank, so the
      chain from any key is finite and ends at a key whose parent is None. */
  ghost predicate ParentsRanked(parents: map<Pos, Option<Pos>>, rank: map<Pos, nat>)
  {
    forall c :: c in parents ==>
      c in rank &&
      (parents[c].Some? ==>
         parents[c].value in parents && parents[c].value in rank &&
         rank[parents[c].value] < rank[c])
  }

  /** `retrace_path(parents, end)`: follow the parent links from `end` until
      a cell with no parent, then reverse. The result ends at `end`, starts
      at a cell without a parent, and each cell is the parent of the next. */
  method RetracePath(parents: map<Pos, Option<Pos>>, end: Pos, ghost rank: map<Pos, nat>)
    returns (path: seq<Pos>)
    requires end in parents && ParentsRanked(parents, rank)
    ensures |path| >= 1 && path[|path| - 1] == end
    ensures forall c :: c in path ==> c in parents
    ensures parents[path[0]] == None
    ensures forall i :: 0 <= i < |path| - 1 ==> parents[path[i + 1]] == Some(path[i])
  {
    path := [];
    path := path + [end];
    var node := end;
    while parents[node] != None
      invariant node in parents
      invariant |path| >= 1 && path[0] == end && path[|path| - 1] == node
      invariant forall c :: c in path ==> c in parents
      invariant forall i :: 0 <= i < |path| - 1 ==> parents[path[i]] == Some(path[i + 1])
      decreases rank[node]
    {
      path := path + [parents[node].value];
      node := parents[node].value;
    }
    path := Reverse(path);
  }

  /** `c` has a recorded cost and it is lower than the one it had before. */
  ghost predicate Improved(visited: map<Pos, nat>, visited': map<Pos, nat>, c: Pos)
  {
    c in visited' && (c !in visited || visited'[c] < visited[c])
  }

  /** What relaxing the moves out of `node` to the cells `adjs` does to the
      search state. */
  ghost predicate Relaxed(g: Grid, node: Pos, goal: Option<Pos>,
                          visited: map<Pos, nat>, parents: map<Pos, Option<Pos>>, que: multiset<Entry>,
                          visited': map<Pos, nat>, parents': map<Pos, Option<Pos>>, que': multiset<Entry>,
                          adjs: seq<Pos>)
    requires node in visited && visited.Keys == parents.Keys
  {
    Lowered(visited, visited') &&
    (forall c :: c in visited' ==> c in visited || g.IsMove(node, c)) &&
    (forall n :: n in adjs ==> n in visited' && visited'[n] <= visited[node] + g.JumpOf(node)) &&
    ParentsRelaxed(g, node, visited, parents, visited', parents') &&
    ImprovedQueued(goal, visited, visited', que') &&
    QueueGrown(que, visited', que') &&
    OnlyImprovedQueued(goal, visited[node] + g.JumpOf(node), visited, visited', que, que') &&
    QueueCounted(visited, visited', que, que')
  }

  /** Costs only ever go down, only targets of `node` are added, and no move
      to one of the first `i` cells of `adjs` could now make it cheaper. */
  ghost predicate CostsRelaxed(g: Grid, node: Pos, visited: map<Pos, nat>, visited': map<Pos, nat>,
                               adjs: seq<Pos>, i: int)
    requires node in visited && 0 <= i <= |adjs|
  {
    Lowered(visited, visited') &&
    (forall c :: c in visited' ==> c in visited || g.IsMove(node, c)) &&
    (forall k :: 0 <= k < i ==> adjs[k] in visited' && visited'[adjs[k]] <= visited[node] + g.JumpOf(node))
  }

  /** An improved cell gets cost `visited[node] + jump` and parent `node`;
      other recorded cells keep their parent. */
  ghost predicate ParentsRelaxed(g: Grid, node: Pos, visited: map<Pos, nat>, parents: map<Pos, Option<Pos>>,
                                 visited': map<Pos, nat>, parents': map<Pos, Option<Pos>>)
    requires node in visited && visited.Keys == parents.Keys
  {
    visited.Keys <= visited'.Keys && visited'.Keys == parents'.Keys &&
    (forall c :: Improved(visited, visited', c) ==>
       parents'[c] == Some(node) && visited'[c] == visited[node] + g.JumpOf(node) &&
       visited[node] < visited'[c] && g.IsMove(node, c)) &&
    (forall c :: c in visited && !Improved(visited, visited', c) ==> parents'[c] == parents[c])
  }

  /** Every improved cell is queued at its new cost plus its Manhattan
      distance to the goal. */
  ghost predicate ImprovedQueued(goal: Option<Pos>, visited: map<Pos, nat>, visited': map<Pos, nat>,
                                 que': multiset<Entry>)
  {
    forall c :: Improved(visited, visited', c) ==>
      goal.Some? && Entry(visited'[c] + Manhattan(c, goal.value), c) in que'
  }

  /** The queue only grows, by entries no lower than the cost of their cell. */
  ghost predicate QueueGrown(que: multiset<Entry>, visited': map<Pos, nat>, que': multiset<Entry>)
  {
    que <= que' &&
    forall e :: e in que' ==> e in que || (e.cell in visited' && visited'[e.cell] <= e.f)
  }

  /** Every entry added to the queue belongs to an improved cell, whose new
      cost is `cost`, sits at that cost plus the cell's Manhattan distance to
      the goal, and was added once. */
  ghost predicate OnlyImprovedQueued(goal: Option<Pos>, cost: nat, visited: map<Pos, nat>, visited': map<Pos, nat>,
                                     que: multiset<Entry>, que': multiset<Entry>)
  {
    forall e :: e in que' - que ==>
      goal.Some? && Improved(visited, visited', e.cell) && visited'[e.cell] == cost &&
      e.f == cost + Manhattan(e.cell, goal.value) && (que' - que)[e] == 1
  }

  /** The queue grows only when some cost improved. */
  ghost predicate QueueCounted(visited: map<Pos, nat>, visited': map<Pos, nat>,
                               que: multiset<Entry>, que': multiset<Entry>)
  {
    |que'| == |que| || exists c :: Improved(visited, visited', c)
  }

  /** The three structures `a_star` updates: `visited`, `parents`, `que`. */
  datatype Search = Search(visited: map<Pos, nat>, parents: map<Pos, Option<Pos>>, que: multiset<Entry>)

  /** One pass of the loop over `maze.get_adjacent(node)`: when `adj` is new
      or `cost` is strictly lower than its recorded cost, record `node` as
      its parent and `cost` as its cost, and queue `(cost + h, adj)` with
      `h` the Manhattan distance to the goal. None when that needs a goal
      and none was cached (the AttributeError of reading `maze.goal`). */
  function RelaxMove(node: Pos, goal: Option<Pos>, s: Search, cost: nat, adj: Pos): Option<Search>
  {
    if adj !in s.visited || cost < s.visited[adj] then
      if goal.None? then None
      else Some(Search(s.visited[adj := cost], s.parents[adj := Some(node)],
                       s.que + multiset{Entry(cost + Manhattan(adj, goal.value), adj)}))
    else Some(s)
  }

  /** The first `i` passes of the loop over the cells `adjs`. */
  function RelaxUpto(node: Pos, goal: Option<Pos>, s: Search, cost: nat, adjs: seq<Pos>, i: int): Option<Search>
    requires 0 <= i <= |adjs|
  {
    if i == 0 then Some(s)
    else
      match RelaxUpto(node, goal, s, cost, adjs, i - 1)
      case None => None
      case Some(t) => RelaxMove(node, goal, t, cost, adjs[i - 1])
  }

  /** The loop over `maze.get_adjacent(node)` in `a_star`, each pass
      computing `g = visited[node] + jump` anew. It does what `RelaxUpto`
      says over all the adjacent cells, and `ok == false` stands for the
      AttributeError of a push with no cached goal. */
  method Relax(g: Grid, node: Pos, goal: Option<Pos>,
               visited: map<Pos, nat>, parents: map<Pos, Option<Pos>>, que: multiset<Entry>)
    returns (ok: bool, visited': map<Pos, nat>, parents': map<Pos, Option<Pos>>, que': multiset<Entry>)
    requires g.IsJumpCell(node) && node in visited && visited.Keys == parents.Keys
    ensures var adjs := g.Adjacent(node);
      var r := RelaxUpto(node, goal, Search(visited, parents, que), visited[node] + g.JumpOf(node), adjs, |adjs|);
      (ok <==> r.Some?) && (ok ==> r.value == Search(visited', parents', que'))
  {
    visited', parents', que' := visited, parents, que;
    var adjacent := g.Adjacent(node);
    var jump := g.At(node).n;
    ghost var s0 := Search(visited, parents, que);
    ghost var total := visited[node] + jump;
    assert total == visited[node] + g.JumpOf(node);
    var i := 0;
    while i < |adjacent|
      invariant 0 <= i <= |adjacent|
      invariant node in visited' && visited'[node] == visited[node]
      invariant RelaxUpto(node, goal, s0, total, adjacent, i) == Some(Search(visited', parents', que'))
    {
      var adj := adjacent[i];
      var cost := visited'[node] + jump;
      ghost var t := Search(visited', parents', que');
      RelaxNext(node, goal, s0, total, adjacent, i, t);
      if adj !in visited' || cost < visited'[adj] {
        if goal.None? {
          parents' := parents'[adj := Some(node)];
          visited' := visited'[adj := cost];
          ok := false;
          RelaxStuck(node, goal, s0, total, adjacent, i + 1);
          return;
        }
        parents' := parents'[adj := Some(node)];
        visited' := visited'[adj := cost];
        var h := Abs(adj.y - goal.value.y) + Abs(adj.x - goal.value.x);
        var f := h + cost;
        assert f == cost + Manhattan(adj, goal.value);
        que' := que' + multiset{Entry(f, adj)};
      }
      i := i + 1;
    }
    ok := true;
  }

  /** Pass `i + 1` is one `RelaxMove` on the state the first `i` passes leave. */
  lemma RelaxNext(node: Pos, goal: Option<Pos>, s: Search, cost: nat, adjs: seq<Pos>, i: int, t: Search)
    requires 0 <= i < |adjs| && RelaxUpto(node, goal, s, cost, adjs, i) == Some(t)
    ensures RelaxUpto(node, goal, s, cost, adjs, i + 1) == RelaxMove(node, goal, t, cost, adjs[i])
  {
  }

  /** Once a pass fails, so does the whole loop. */
  lemma {:induction false} RelaxStuck(node: Pos, goal: Option<Pos>, s: Search, cost: nat, adjs: seq<Pos>, i: int)
    requires 0 <= i <= |adjs| && RelaxUpto(node, goal, s, cost, adjs, i).None?
    ensures RelaxUpto(node, goal, s, cost, adjs, |adjs|).None?
    decreases |adjs| - i
  {
    if i < |adjs| {
      RelaxStuck(node, goal, s, cost, adjs, i + 1);
    }
  }

  /** Recorded costs never go up and no recorded cell disappears. */
  ghost predicate Lowered(visited: map<Pos, nat>, visited': map<Pos, nat>)
  {
    forall c :: c in visited ==> c in visited' && visited'[c] <= visited[c]
  }

  /** The passes only lower costs. */
  lemma {:induction false} UptoLowers(node: Pos, goal: Option<Pos>, s: Search, cost: nat, adjs: seq<Pos>, i: int)
    requires 0 <= i <= |adjs|
    ensures var r := RelaxUpto(node, goal, s, cost, adjs, i);
      r.Some? ==> Lowered(s.visited, r.value.visited)
  {
    if i > 0 {
      UptoLowers(node, goal, s, cost, adjs, i - 1);
      var r := RelaxUpto(node, goal, s, cost, adjs, i - 1);
      if r.Some? {
        RelaxNext(node, goal, s, cost, adjs, i - 1, r.value);
      }
    }
  }

  /** The passes leave the cost of `node` alone, add only targets of `node`,
      and leave every tried cell no dearer than `visited[node] + jump`. */
  lemma {:induction false} UptoCosts(g: Grid, node: Pos, goal: Option<Pos>, s: Search, cost: nat, adjs: seq<Pos>, i: int)
    requires g.IsJumpCell(node) && node in s.visited && cost == s.visited[node] + g.JumpOf(node)
    requires 0 <= i <= |adjs| && forall k :: 0 <= k < |adjs| ==> g.IsMove(node, adjs[k])
    ensures var r := RelaxUpto(node, goal, s, cost, adjs, i);
      r.Some? ==>
        node in r.value.visited && r.value.visited[node] == s.visited[node] &&
        CostsRelaxed(g, node, s.visited, r.value.visited, adjs, i)
  {
    if i > 0 {
      UptoCosts(g, node, goal, s, cost, adjs, i - 1);
      UptoLowers(node, goal, s, cost, adjs, i);
      var r := RelaxUpto(node, goal, s, cost, adjs, i - 1);
      if r.Some? {
        var t := r.value.visited;
        var adj := adjs[i - 1];
        RelaxNext(node, goal, s, cost, adjs, i - 1, r.value);
        assert g.IsMove(node, adj);
        if adj !in t || cost < t[adj] {
          assert adj != node;
          var v2 := t[adj := cost];
          forall k | 0 <= k < i ensures adjs[k] in v2 && v2[adjs[k]] <= cost {
            if k < i - 1 && adjs[k] != adj {
              assert adjs[k] in t && t[adjs[k]] <= cost;
            }
          }
        }
      }
    }
  }

  /** The passes give every improved cell the parent `node` and the cost
      `visited[node] + jump`, and leave every other parent alone. */
  lemma {:induction false} UptoParents(g: Grid, node: Pos, goal: Option<Pos>, s: Search, cost: nat, adjs: seq<Pos>, i: int)
    requires g.IsJumpCell(node) && node in s.visited && cost == s.visited[node] + g.JumpOf(node)
    requires s.visited.Keys == s.parents.Keys
    requires 0 <= i <= |adjs| && forall k :: 0 <= k < |adjs| ==> g.IsMove(node, adjs[k])
    ensures var r := RelaxUpto(node, goal, s, cost, adjs, i);
      r.Some? ==> ParentsRelaxed(g, node, s.visited, s.parents, r.value.visited, r.value.parents)
  {
    if i == 0 {
      assert forall c :: !Improved(s.visited, s.visited, c);
    } else {
      UptoParents(g, node, goal, s, cost, adjs, i - 1);
      UptoCosts(g, node, goal, s, cost, adjs, i - 1);
      UptoLowers(node, goal, s, cost, adjs, i - 1);
      var r := RelaxUpto(node, goal, s, cost, adjs, i - 1);
      if r.Some? {
        RelaxNext(node, goal, s, cost, adjs, i - 1, r.value);
        ParentsStep(g, node, goal, s.visited, s.parents, r.value, cost, adjs[i - 1]);
      }
    }
  }

  /** One pass keeps the parents relaxed. */
  lemma ParentsStep(g: Grid, node: Pos, goal: Option<Pos>, visited: map<Pos, nat>, parents: map<Pos, Option<Pos>>,
                    t: Search, cost: nat, adj: Pos)
    requires node in visited && visited.Keys == parents.Keys && g.IsMove(node, adj)
    requires cost == visited[node] + g.JumpOf(node)
    requires node in t.visited && t.visited[node] == visited[node] && Lowered(visited, t.visited)
    requires ParentsRelaxed(g, node, visited, parents, t.visited, t.parents)
    ensures var r := RelaxMove(node, goal, t, cost, adj);
      r.Some? ==> ParentsRelaxed(g, node, visited, parents, r.value.visited, r.value.parents)
  {
    if (adj !in t.visited || cost < t.visited[adj]) && goal.Some? {
      assert adj != node;
      var v2 := t.visited[adj := cost];
      var p2 := t.parents[adj := Some(node)];
      forall c | Improved(visited, v2, c)
        ensures p2[c] == Some(node) && v2[c] == cost && visited[node] < v2[c] && g.IsMove(node, c)
      {
        if c != adj {
          assert Improved(visited, t.visited, c);
        }
      }
      forall c | c in visited && !Improved(visited, v2, c) ensures p2[c] == parents[c] {
        assert c != adj;
        assert !Improved(visited, t.visited, c);
      }
    }
  }

  /** The passes queue every improved cell at its new cost plus its
      Manhattan distance to the goal. */
  lemma {:induction false} UptoQueued(node: Pos, goal: Option<Pos>, s: Search, cost: nat, adjs: seq<Pos>, i: int)
    requires 0 <= i <= |adjs|
    ensures var r := RelaxUpto(node, goal, s, cost, adjs, i);
      r.Some? ==> ImprovedQueued(goal, s.visited, r.value.visited, r.value.que)
  {
    if i == 0 {
      assert forall c :: !Improved(s.visited, s.visited, c);
    } else {
      UptoQueued(node, goal, s, cost, adjs, i - 1);
      var r := RelaxUpto(node, goal, s, cost, adjs, i - 1);
      if r.Some? {
        RelaxNext(node, goal, s, cost, adjs, i - 1, r.value);
        QueuedStep(node, goal, s.visited, r.value, cost, adjs[i - 1]);
      }
    }
  }

  /** One pass keeps every improved cell queued. */
  lemma QueuedStep(node: Pos, goal: Option<Pos>, visited: map<Pos, nat>, t: Search, cost: nat, adj: Pos)
    requires ImprovedQueued(goal, visited, t.visited, t.que)
    ensures var r := RelaxMove(node, goal, t, cost, adj);
      r.Some? ==> ImprovedQueued(goal, visited, r.value.visited, r.value.que)
  {
    if (adj !in t.visited || cost < t.visited[adj]) && goal.Some? {
      var v2 := t.visited[adj := cost];
      var q2 := t.que + multiset{Entry(cost + Manhattan(adj, goal.value), adj)};
      forall c | Improved(visited, v2, c) ensures Entry(v2[c] + Manhattan(c, goal.value), c) in q2 {
        if c != adj {
          assert Improved(visited, t.visited, c);
        }
      }
    }
  }

  /** The passes only add queue entries, none below the cost of its cell. */
  lemma {:induction false} UptoGrown(node: Pos, goal: Option<Pos>, s: Search, cost: nat, adjs: seq<Pos>, i: int)
    requires 0 <= i <= |adjs|
    ensures var r := RelaxUpto(node, goal, s, cost, adjs, i);
      r.Some? ==> QueueGrown(s.que, r.value.visited, r.value.que)
  {
    if i > 0 {
      UptoGrown(node, goal, s, cost, adjs, i - 1);
      var r := RelaxUpto(node, goal, s, cost, adjs, i - 1);
      if r.Some? {
        RelaxNext(node, goal, s, cost, adjs, i - 1, r.value);
        GrownStep(node, goal, s.que, r.value, cost, adjs[i - 1]);
      }
    }
  }

  /** One pass keeps the queue grown: what it adds is no lower than the
      cost of its cell. */
  lemma GrownStep(node: Pos, goal: Option<Pos>, que: multiset<Entry>, t: Search, cost: nat, adj: Pos)
    requires QueueGrown(que, t.visited, t.que)
    ensures var r := RelaxMove(node, goal, t, cost, adj);
      r.Some? ==> QueueGrown(que, r.value.visited, r.value.que)
  {
    if (adj !in t.visited || cost < t.visited[adj]) && goal.Some? {
      var v2 := t.visited[adj := cost];
      var added := Entry(cost + Manhattan(adj, goal.value), adj);
      var q2 := t.que + multiset{added};
      forall e | e in q2 ensures e in que || (e.cell in v2 && v2[e.cell] <= e.f) {
        if e != added {
          assert e in t.que;
        }
      }
    }
  }

  /** The passes add queue entries only for the cells they improve, once
      each, at the new cost plus the Manhattan distance to the goal. */
  lemma {:induction false} UptoOnlyImproved(node: Pos, goal: Option<Pos>, s: Search, cost: nat, adjs: seq<Pos>, i: int)
    requires 0 <= i <= |adjs|
    ensures var r := RelaxUpto(node, goal, s, cost, adjs, i);
      r.Some? ==> OnlyImprovedQueued(goal, cost, s.visited, r.value.visited, s.que, r.value.que)
  {
    if i == 0 {
      assert s.que - s.que == multiset{};
    } else {
      UptoOnlyImproved(node, goal, s, cost, adjs, i - 1);
      UptoLowers(node, goal, s, cost, adjs, i - 1);
      UptoGrown(node, goal, s, cost, adjs, i - 1);
      var r := RelaxUpto(node, goal, s, cost, adjs, i - 1);
      if r.Some? {
        RelaxNext(node, goal, s, cost, adjs, i - 1, r.value);
        OnlyImprovedStep(node, goal, s.visited, s.que, r.value, cost, adjs[i - 1]);
      }
    }
  }

  /** One pass adds at most one entry, that of the cell it improves. */
  lemma OnlyImprovedStep(node: Pos, goal: Option<Pos>, visited: map<Pos, nat>, que: multiset<Entry>,
                         t: Search, cost: nat, adj: Pos)
    requires Lowered(visited, t.visited) && que <= t.que
    requires OnlyImprovedQueued(goal, cost, visited, t.visited, que, t.que)
    ensures var r := RelaxMove(node, goal, t, cost, adj);
      r.Some? ==> OnlyImprovedQueued(goal, cost, visited, r.value.visited, que, r.value.que)
  {
    if (adj !in t.visited || cost < t.visited[adj]) && goal.Some? {
      var v2 := t.visited[adj := cost];
      var added := Entry(cost + Manhattan(adj, goal.value), adj);
      var q2 := t.que + multiset{added};
      assert added !in t.que - que;
      forall e | e in q2 - que
        ensures Improved(visited, v2, e.cell) && v2[e.cell] == cost &&
          e.f == cost + Manhattan(e.cell, goal.value) && (q2 - que)[e] == 1
      {
        if e != added {
          assert e in t.que - que;
          assert e.cell != adj;
        }
      }
    }
  }

  /** The queue grows only when some cost improved, and a pass fails only
      when no goal was cached. */
  lemma {:induction false} UptoCounted(node: Pos, goal: Option<Pos>, s: Search, cost: nat, adjs: seq<Pos>, i: int)
    requires 0 <= i <= |adjs|
    ensures var r := RelaxUpto(node, goal, s, cost, adjs, i);
      (r.None? ==> goal.None?) &&
      (r.Some? ==> QueueCounted(s.visited, r.value.visited, s.que, r.value.que))
  {
    if i > 0 {
      UptoCounted(node, goal, s, cost, adjs, i - 1);
      UptoLowers(node, goal, s, cost, adjs, i - 1);
      var r := RelaxUpto(node, goal, s, cost, adjs, i - 1);
      if r.Some? {
        var t := r.value;
        var adj := adjs[i - 1];
        RelaxNext(node, goal, s, cost, adjs, i - 1, t);
        if (adj !in t.visited || cost < t.visited[adj]) && goal.Some? {
          assert Improved(s.visited, t.visited[adj := cost], adj);
        }
      }
    }
  }

  /** Relaxing moves out of `node` yields a relaxed state, and fails only
      when no goal was cached. */
  lemma RelaxedOver(g: Grid, node: Pos, goal: Option<Pos>, s: Search, adjs: seq<Pos>)
    requires g.IsJumpCell(node) && node in s.visited && s.visited.Keys == s.parents.Keys
    requires forall k :: 0 <= k < |adjs| ==> g.IsMove(node, adjs[k])
    ensures var r := RelaxUpto(node, goal, s, s.visited[node] + g.JumpOf(node), adjs, |adjs|);
      (r.None? ==> goal.None?) &&
      (r.Some? ==>
         node in r.value.visited && r.value.visited[node] == s.visited[node] &&
         Relaxed(g, node, goal, s.visited, s.parents, s.que, r.value.visited, r.value.parents, r.value.que, adjs))
  {
    var cost := s.visited[node] + g.JumpOf(node);
    UptoLowers(node, goal, s, cost, adjs, |adjs|);
    UptoCosts(g, node, goal, s, cost, adjs, |adjs|);
    UptoParents(g, node, goal, s, cost, adjs, |adjs|);
    UptoQueued(node, goal, s, cost, adjs, |adjs|);
    UptoGrown(node, goal, s, cost, adjs, |adjs|);
    UptoOnlyImproved(node, goal, s, cost, adjs, |adjs|);
    UptoCounted(node, goal, s, cost, adjs, |adjs|);
    var r := RelaxUpto(node, goal, s, cost, adjs, |adjs|);
    if r.Some? {
      forall n | n in adjs ensures n in r.value.visited && r.value.visited[n] <= cost {
        var k :| 0 <= k < |adjs| && adjs[k] == n;
      }
    }
  }

  /** `c` has been expanded at its current cost: every move out of it leads
      to a cell whose recorded cost is already at most `c`'s plus the jump. */
  ghost predicate Settled(g: Grid, visited: map<Pos, nat>, c: Pos)
    requires c in visited
  {
    g.IsJumpCell(c) &&
    forall n :: g.IsMove(c, n) ==> n in visited && visited[n] <= visited[c] + g.JumpOf(c)
  }

  /** The queue holds an entry for `c` no higher than its current `f`. */
  ghost predicate Queued(visited: map<Pos, nat>, que: multiset<Entry>, hg: Pos, c: Pos)
    requires c in visited
  {
    exists e :: e in que && e.cell == c && e.f <= visited[c] + Manhattan(c, hg)
  }

  /** Every recorded cell other than `start` has a parent one legal move
      away whose cost plus its jump is at most the cell's own cost. */
  ghost predicate ParentLinks(g: Grid, start: Pos, visited: map<Pos, nat>, parents: map<Pos, Option<Pos>>)
    requires visited.Keys == parents.Keys
  {
    forall c :: c in parents && c != start ==>
      parents[c].Some? && parents[c].value in visited &&
      g.IsMove(parents[c].value, c) &&
      visited[parents[c].value] + g.JumpOf(parents[c].value) <= visited[c] &&
      visited[parents[c].value] < visited[c]
  }

  /** The maps describe a search rooted at `start`: both have the same
      keys, all inside the grid, and `start` costs 0 and has no parent. */
  ghost predicate Rooted(g: Grid, start: Pos, visited: map<Pos, nat>, parents: map<Pos, Option<Pos>>)
  {
    g.Valid() && g.InBounds(start) &&
    visited.Keys == parents.Keys && visited.Keys <= g.Cells() &&
    start in visited && visited[start] == 0 && parents[start] == None &&
    ParentLinks(g, start, visited, parents)
  }

  /** No queue entry is below the recorded cost of its cell. */
  ghost predicate QueueBounded(visited: map<Pos, nat>, que: multiset<Entry>)
  {
    forall e :: e in que ==> e.cell in visited && visited[e.cell] <= e.f
  }

  /** Every recorded cell is either settled or waiting in the queue. */
  ghost predicate Covered(g: Grid, hg: Pos, visited: map<Pos, nat>, que: multiset<Entry>)
  {
    forall c :: c in visited ==> Settled(g, visited, c) || Queued(visited, que, hg, c)
  }

  /** The invariant of the `while len(que) > 0` loop; `hg` is the cell the
      heuristic measures distance to. */
  ghost predicate SearchInv(g: Grid, start: Pos, hg: Pos,
                            visited: map<Pos, nat>, parents: map<Pos, Option<Pos>>, que: multiset<Entry>)
  {
    Rooted(g, start, visited, parents) && QueueBounded(visited, que) && Covered(g, hg, visited, que)
  }

  /** The pairs `(c, n)` with `n` below the recorded cost of `c`: a strict
      improvement of any cost removes some of them. */
  ghost function Below(visited: map<Pos, nat>): set<(Pos, nat)>
  {
    set c, n: nat | c in visited && n < visited[c] :: (c, n)
  }

  /** The loop's termination measure (cells not yet recorded, pairs below a
      recorded cost, queue length) went down lexicographically. */
  ghost predicate Closer(g: Grid, v: map<Pos, nat>, v': map<Pos, nat>, q: multiset<Entry>, q': multiset<Entry>)
  {
    g.Cells() - v'.Keys < g.Cells() - v.Keys ||
    (g.Cells() - v'.Keys == g.Cells() - v.Keys &&
     (Below(v') < Below(v) || (Below(v') == Below(v) && |q'| < |q|)))
  }

  /** One expansion either records a new cell, lowers some cost, or leaves
      the costs alone and shrinks the queue. */
  lemma Progress(g: Grid, v: map<Pos, nat>, v': map<Pos, nat>, q: multiset<Entry>, q': multiset<Entry>)
    requires v.Keys <= v'.Keys <= g.Cells()
    requires forall c :: c in v ==> v'[c] <= v[c]
    requires |q'| < |q| || exists c :: Improved(v, v', c)
    ensures Closer(g, v, v', q, q')
  {
    if v'.Keys != v.Keys {
      var k :| k in v'.Keys && k !in v.Keys;
      assert k in g.Cells() - v.Keys;
    } else {
      assert Below(v') <= Below(v);
      if exists c :: Improved(v, v', c) {
        var c :| Improved(v, v', c);
        assert (c, v'[c]) in Below(v);
      }
    }
  }

  /** Following the recorded parents back from a cell gives a path from
      `start` whose cost is at most the cell's recorded cost. */
  lemma {:induction false} ChainIsPath(g: Grid, start: Pos, visited: map<Pos, nat>,
                                       parents: map<Pos, Option<Pos>>, p: seq<Pos>)
    requires g.Valid() && g.InBounds(start)
    requires visited.Keys == parents.Keys && ParentLinks(g, start, visited, parents)
    requires start in parents && parents[start] == None
    requires |p| >= 1 && (forall c :: c in p ==> c in parents) && parents[p[0]] == None
    requires forall i :: 0 <= i < |p| - 1 ==> parents[p[i + 1]] == Some(p[i])
    ensures IsPath(g, p) && p[0] == start && Cost(g, p) <= visited[p[|p| - 1]]
    decreases |p|
  {
    var n := |p|;
    assert p[0] in p;
    if n > 1 {
      var front := p[..n - 1];
      forall c | c in front ensures c in parents {
        assert c in p;
      }
      ChainIsPath(g, start, visited, parents, front);
      assert p[n - 1] in p;
      assert parents[p[n - 1]] == Some(p[n - 2]);
      ExtendPath(g, front, p[n - 1]);
      assert front + [p[n - 1]] == p;
    }
  }

  /** While the goal `hg` has not been popped, any path from `start` to it
      has a queued cell whose entry is no higher than the path's cost (the
      heuristic is consistent: a move of jump `j` costs `j` and changes the
      Manhattan distance by at most `j`). */
  lemma {:induction false} FrontierCovers(g: Grid, hg: Pos, visited: map<Pos, nat>,
                                          que: multiset<Entry>, p: seq<Pos>, k: int)
    requires g.Valid() && Covered(g, hg, visited, que)
    requires IsPath(g, p) && p[|p| - 1] == hg && g.IsGoalCell(hg)
    requires 0 <= k < |p| && p[k] in visited && visited[p[k]] <= Cost(g, p[..k + 1])
    ensures exists e :: e in que && e.f <= Cost(g, p)
    decreases |p| - k
  {
    if Queued(visited, que, hg, p[k]) {
      var e :| e in que && e.cell == p[k] && e.f <= visited[p[k]] + Manhattan(p[k], hg);
      SlicePath(g, p, k, |p|);
      Admissible(g, p[k..]);
      CostSplit(g, p, k);
    } else {
      assert Settled(g, visited, p[k]);
      assert k < |p| - 1;
      assert g.IsMove(p[k], p[k + 1]);
      CostSnoc(g, p, k);
      FrontierCovers(g, hg, visited, que, p, k + 1);
    }
  }

  /** When the goal is popped, the retraced path runs from `start` to it
      and costs no more than any path from `start` to the goal `hg`. */
  lemma GoalPopped(g: Grid, start: Pos, hg: Pos,
                   visited: map<Pos, nat>, parents: map<Pos, Option<Pos>>, que: multiset<Entry>,
                   node: Entry, p: seq<Pos>)
    requires SearchInv(g, start, hg, visited, parents, que)
    requires IsMin(node, que) && g.IsGoalCell(node.cell)
    requires |p| >= 1 && p[|p| - 1] == node.cell && (forall c :: c in p ==> c in parents)
    requires parents[p[0]] == None
    requires forall i :: 0 <= i < |p| - 1 ==> parents[p[i + 1]] == Some(p[i])
    ensures IsGoalPath(g, start, p)
    ensures g.IsGoalCell(hg) ==>
      forall q :: IsPath(g, q) && q[0] == start && q[|q| - 1] == hg ==> Cost(g, p) <= Cost(g, q)
  {
    ChainIsPath(g, start, visited, parents, p);
    if g.IsGoalCell(hg) {
      forall q | IsPath(g, q) && q[0] == start && q[|q| - 1] == hg
        ensures Cost(g, p) <= Cost(g, q)
      {
        assert q[..1] == [start];
        FrontierCovers(g, hg, visited, que, q, 0);
      }
    }
  }

  /** With an empty queue every recorded cell is settled, so every cell on
      a path from `start` is recorded and settled. */
  lemma {:induction false} ExhaustedReach(g: Grid, start: Pos, hg: Pos,
                                          visited: map<Pos, nat>, parents: map<Pos, Option<Pos>>,
                                          p: seq<Pos>, k: int)
    requires SearchInv(g, start, hg, visited, parents, multiset{})
    requires IsPath(g, p) && p[0] == start && 0 <= k < |p|
    ensures p[k] in visited && Settled(g, visited, p[k])
    decreases k
  {
    if k > 0 {
      ExhaustedReach(g, start, hg, visited, parents, p, k - 1);
      assert g.IsMove(p[k - 1], p[k]);
    }
    assert !Queued(visited, multiset{}, hg, p[k]);
  }

  /** An exhausted queue means no goal is reachable from `start`. */
  lemma Exhausted(g: Grid, start: Pos, hg: Pos, visited: map<Pos, nat>, parents: map<Pos, Option<Pos>>)
    requires SearchInv(g, start, hg, visited, parents, multiset{})
    ensures !GoalReachable(g, start)
  {
    forall p | IsGoalPath(g, start, p) ensures false {
      ExhaustedReach(g, start, hg, visited, parents, p, |p| - 1);
    }
  }

  /** Expanding a popped non-goal cell, as `Relax` does it, fails only when
      no goal was cached; otherwise it keeps the loop invariant and brings
      the search closer to its end. */
  lemma ExpandKeepsInv(g: Grid, start: Pos, hg: Pos, goal: Option<Pos>,
                       visited: map<Pos, nat>, parents: map<Pos, Option<Pos>>, que: multiset<Entry>,
                       node: Entry, cell: Pos, rest: multiset<Entry>, ok: bool,
                       visited': map<Pos, nat>, parents': map<Pos, Option<Pos>>, que': multiset<Entry>)
    requires SearchInv(g, start, hg, visited, parents, que)
    requires goal.Some? ==> hg == goal.value
    requires node in que && rest == que - multiset{node} && cell == node.cell
    requires g.IsJumpCell(cell) && cell in visited
    // `cell` names `node.cell` so that the relaxation is stated over the very
    // terms `AStar` builds from its local `cell`, which the solver matches.
    requires var adjs := g.Adjacent(cell);
      var r := RelaxUpto(cell, goal, Search(visited, parents, rest), visited[cell] + g.JumpOf(cell), adjs, |adjs|);
      (ok <==> r.Some?) && (ok ==> r.value == Search(visited', parents', que'))
    ensures !ok ==> goal.None?
    ensures ok ==> SearchInv(g, start, hg, visited', parents', que') && Closer(g, visited, visited', que, que')
  {
    g.AdjacentInBounds(cell);
    RelaxedOver(g, cell, goal, Search(visited, parents, rest), g.Adjacent(cell));
    if ok {
      RelaxKeepsInv(g, start, hg, goal, visited, parents, que, node, rest, visited', parents', que');
      Progress(g, visited, visited', que, que');
    }
  }

  /** Relaxing the moves of the popped, non-goal cell keeps the loop invariant. */
  lemma RelaxKeepsInv(g: Grid, start: Pos, hg: Pos, goal: Option<Pos>,
                      visited: map<Pos, nat>, parents: map<Pos, Option<Pos>>, que: multiset<Entry>,
                      node: Entry, rest: multiset<Entry>,
                      visited': map<Pos, nat>, parents': map<Pos, Option<Pos>>, que': multiset<Entry>)
    requires SearchInv(g, start, hg, visited, parents, que)
    requires goal.Some? ==> hg == goal.value
    requires node in que && rest == que - multiset{node} && g.IsJumpCell(node.cell)
    requires node.cell in visited
    requires Relaxed(g, node.cell, goal, visited, parents, rest, visited', parents', que', g.Adjacent(node.cell))
    ensures SearchInv(g, start, hg, visited', parents', que')
  {
    var cell := node.cell;
    assert !Improved(visited, visited', cell);
    assert !Improved(visited, visited', start);
    LinksKept(g, start, cell, goal, visited, parents, rest, visited', parents', que', g.Adjacent(cell));
    BoundedKept(g, cell, goal, visited, parents, que, rest, visited', parents', que', g.Adjacent(cell));
    CoveredKept(g, hg, goal, visited, parents, que, node, rest, visited', parents', que');
  }

  lemma LinksKept(g: Grid, start: Pos, cell: Pos, goal: Option<Pos>,
                  visited: map<Pos, nat>, parents: map<Pos, Option<Pos>>, rest: multiset<Entry>,
                  visited': map<Pos, nat>, parents': map<Pos, Option<Pos>>, que': multiset<Entry>,
                  adjs: seq<Pos>)
    requires visited.Keys == parents.Keys && ParentLinks(g, start, visited, parents)
    requires cell in visited && !Improved(visited, visited', cell)
    requires Relaxed(g, cell, goal, visited, parents, rest, visited', parents', que', adjs)
    ensures ParentLinks(g, start, visited', parents')
  {
    forall c | c in parents' && c != start
      ensures parents'[c].Some? && parents'[c].value in visited' &&
        g.IsMove(parents'[c].value, c) &&
        visited'[parents'[c].value] + g.JumpOf(parents'[c].value) <= visited'[c] &&
        visited'[parents'[c].value] < visited'[c]
    {
      if !Improved(visited, visited', c) {
        assert c in visited;
        var pc := parents[c].value;
        assert visited'[pc] <= visited[pc];
      }
    }
  }

  lemma BoundedKept(g: Grid, cell: Pos, goal: Option<Pos>,
                    visited: map<Pos, nat>, parents: map<Pos, Option<Pos>>, que: multiset<Entry>,
                    rest: multiset<Entry>,
                    visited': map<Pos, nat>, parents': map<Pos, Option<Pos>>, que': multiset<Entry>,
                    adjs: seq<Pos>)
    requires cell in visited && visited.Keys == parents.Keys
    requires QueueBounded(visited, que) && rest <= que
    requires Relaxed(g, cell, goal, visited, parents, rest, visited', parents', que', adjs)
    ensures QueueBounded(visited', que')
  {
    forall e | e in que' ensures e.cell in visited' && visited'[e.cell] <= e.f {
      if e in rest {
        assert e in que;
      }
    }
  }

  lemma CoveredKept(g: Grid, hg: Pos, goal: Option<Pos>,
                    visited: map<Pos, nat>, parents: map<Pos, Option<Pos>>, que: multiset<Entry>,
                    node: Entry, rest: multiset<Entry>,
                    visited': map<Pos, nat>, parents': map<Pos, Option<Pos>>, que': multiset<Entry>)
    requires g.IsJumpCell(node.cell) && node.cell in visited && visited.Keys == parents.Keys
    requires goal.Some? ==> hg == goal.value
    requires Covered(g, hg, visited, que) && node in que && rest == que - multiset{node}
    requires Relaxed(g, node.cell, goal, visited, parents, rest, visited', parents', que', g.Adjacent(node.cell))
    ensures Covered(g, hg, visited', que')
  {
    var cell := node.cell;
    forall c | c in visited' ensures Settled(g, visited', c) || Queued(visited', que', hg, c) {
      if c == cell {
        assert !Improved(visited, visited', cell);
        ExpandedIsSettled(g, cell, visited, visited');
      } else if Improved(visited, visited', c) {
        var e := Entry(visited'[c] + Manhattan(c, goal.value), c);
        assert e in que';
      } else if Settled(g, visited, c) {
        assert Settled(g, visited', c);
      } else {
        var e :| e in que && e.cell == c && e.f <= visited[c] + Manhattan(c, hg);
        assert rest[e] == que[e];
        assert e in rest && e in que';
      }
    }
  }

  /** Once every move out of `cell` costs at most its cost plus its jump,
      `cell` is settled. */
  lemma ExpandedIsSettled(g: Grid, cell: Pos, visited: map<Pos, nat>, visited': map<Pos, nat>)
    requires g.IsJumpCell(cell) && cell in visited && cell in visited' && visited'[cell] == visited[cell]
    requires forall n :: n in g.Adjacent(cell) ==> n in visited' && visited'[n] <= visited[cell] + g.JumpOf(cell)
    ensures Settled(g, visited', cell)
  {
    g.MovesAreAdjacent(cell);
  }

  /** The result of `a_star`: a goal path that is no dearer than any path
      to the recorded goal (when that is a 'G' cell), or the error it raises:
      UnboundLocalError only when no goal is reachable, AttributeError only
      when no goal was ever recorded. */
  ghost predicate AStarOutcome(g: Grid, start: Pos, goal: Option<Pos>, r: Result<seq<Pos>>)
  {
    match r
    case Ok(p) =>
      IsGoalPath(g, start, p) &&
      (goal.Some? && g.IsGoalCell(goal.value) ==>
         forall q :: IsPath(g, q) && q[0] == start && q[|q| - 1] == goal.value ==> Cost(g, p) <= Cost(g, q))
    case Err(e) =>
      (e == UnboundLocalError && !GoalReachable(g, start)) || (e == AttributeError && goal.None?)
  }

  /** `a_star(maze)`: pop the least `(f, cell)` entry; at a 'G' cell retrace
      the parents and stop; otherwise relax the moves out of the cell. An
      exhausted queue leaves `path` unassigned, so `return path` raises. */
  method AStar(g: Grid, start: Pos, goal: Option<Pos>) returns (r: Result<seq<Pos>>)
    requires g.Valid() && g.InBounds(start)
    ensures AStarOutcome(g, start, goal, r)
    ensures goal.Some? ==> (r.Ok? <==> GoalReachable(g, start))
  {
    var parents: map<Pos, Option<Pos>> := map[start := None];
    var visited: map<Pos, nat> := map[start := 0];
    var que := multiset{Entry(0, start)};
    ghost var hg := if goal.Some? then goal.value else start;
    var path: Option<seq<Pos>> := None;
    assert Queued(visited, que, hg, start) by {
      assert Entry(0, start) in que;
    }
    while |que| > 0
      invariant SearchInv(g, start, hg, visited, parents, que)
      invariant path.None?
      decreases g.Cells() - visited.Keys, Below(visited), |que|
    {
      var node, rest := Pop(que);
      var cell := node.cell;
      if g.At(cell) == Goal {
        var p := RetracePath(parents, cell, visited);
        GoalPopped(g, start, hg, visited, parents, que, node, p);
        path := Some(p);
        break;
      }
      var ok, visited', parents', que' := Relax(g, cell, goal, visited, parents, rest);
      ExpandKeepsInv(g, start, hg, goal, visited, parents, que, node, cell, rest, ok, visited', parents', que');
      if !ok {
        return Err(AttributeError);
      }
      visited, parents, que := visited', parents', que';
    }
    if path.None? {
      assert que == multiset{};
      Exhausted(g, start, hg, visited, parents);
      return Err(UnboundLocalError);
    }
    r := Ok(path.value);
  }
}
