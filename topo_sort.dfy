/**
 * `DependencyGraph.topological_sort`: one pass of Kahn's algorithm over the node
 * table, taking among the ready nodes the one with the least total incoming weight,
 * and the facts that make the pass a topological sort.
 */
module TopoSort {
  import opened GraphModel

  /** The in-degree dict the sort starts from: every entry of every outgoing list counts once. */
  method InDegrees(g: NodeTable) returns (deg: map<string, int>)
    requires OutClosed(g)
    ensures deg.Keys == g.entries.Keys
    ensures forall v :: v in g.entries ==> v in deg && deg[v] == InDegree(g, g.order, {}, v)
  {
    deg := map v | v in g.entries :: 0;
    var i := 0;
    while i < |g.order|
      invariant 0 <= i <= |g.order|
      invariant deg.Keys == g.entries.Keys
      invariant forall v :: v in g.entries ==> v in deg && deg[v] == InDegree(g, g.order[..i], {}, v)
    {
      var u := g.order[i];
      var outs := g.entries[u].outgoing;
      ghost var before := deg;
      deg := CountEntries(outs, deg);
      forall v | v in g.entries
        ensures v in deg && deg[v] == InDegree(g, g.order[..i + 1], {}, v)
      {
        assert before[v] == InDegree(g, g.order[..i], {}, v);
        InDegreeStep(g, g.order, i, {}, v);
      }
      i := i + 1;
    }
    assert g.order[..i] == g.order;
  }

  /** The inner loop of the in-degree count: one more for the target of each entry of `outs`. */
  method CountEntries(outs: seq<OutEntry>, deg0: map<string, int>) returns (deg: map<string, int>)
    requires forall j :: 0 <= j < |outs| ==> outs[j].to in deg0
    ensures deg.Keys == deg0.Keys
    ensures forall v :: v in deg0 ==> deg[v] == deg0[v] + CountTo(outs, v)
  {
    deg := deg0;
    var j := 0;
    assert outs[..0] == [];
    while j < |outs|
      invariant 0 <= j <= |outs|
      invariant deg.Keys == deg0.Keys
      invariant forall v :: v in deg0 ==> deg[v] == deg0[v] + CountTo(outs[..j], v)
    {
      var w := outs[j].to;
      ghost var prev := deg;
      deg := deg[w := deg[w] + 1];
      forall v | v in deg0
        ensures deg[v] == deg0[v] + CountTo(outs[..j + 1], v)
      {
        assert prev[v] == deg0[v] + CountTo(outs[..j], v);
        CountToStep(outs, j, v);
      }
      j := j + 1;
    }
    assert outs[..j] == outs;
  }

  /** `[node for node in nodes if in_degree[node] == 0]`. */
  function ZeroDegreeNodes(keys: seq<string>, deg: map<string, int>): (q: seq<string>)
    ensures forall v :: v in q <==> v in keys && v in deg && deg[v] == 0
    ensures Distinct(keys) ==> Distinct(q)
  {
    if keys == [] then []
    else
      var init := keys[..|keys| - 1];
      var last := keys[|keys| - 1];
      assert forall v :: v in keys <==> v in init || v == last;
      assert Distinct(keys) ==> Distinct(init) && last !in init;
      if last in deg && deg[last] == 0 then ZeroDegreeNodes(init, deg) + [last] else ZeroDegreeNodes(init, deg)
  }

  /**
   * The position `queue.sort(key=_get_node_weight)` followed by `queue.pop(0)` takes:
   * the first element of least weight. The sort is stable and the weights do not
   * change during a pass, so this is the first least element in arrival order.
   */
  function FirstLightest(g: NodeTable, q: seq<string>): (k: nat)
    requires q != []
    ensures k < |q|
    ensures forall i :: 0 <= i < |q| ==> NodeWeight(g, q[k]) <= NodeWeight(g, q[i])
    ensures forall i :: 0 <= i < k ==> NodeWeight(g, q[i]) > NodeWeight(g, q[k])
  {
    if |q| == 1 then 0
    else
      var k := FirstLightest(g, q[..|q| - 1]);
      assert forall i :: 0 <= i < |q| - 1 ==> q[..|q| - 1][i] == q[i];
      if NodeWeight(g, q[|q| - 1]) < NodeWeight(g, q[k]) then |q| - 1 else k
  }

  /** Every node was ready when it was taken: each appears once, after all the nodes with entries to it. */
  ghost predicate ReadyOrder(g: NodeTable, result: seq<string>) {
    forall i :: 0 <= i < |result| ==> Ready(g, Members(result[..i]), result[i])
  }

  /** Every node taken weighs no more than any other node that was ready at the same moment. */
  ghost predicate LightestFirst(g: NodeTable, result: seq<string>) {
    forall i, v :: 0 <= i < |result| && Ready(g, Members(result[..i]), v) ==> NodeWeight(g, result[i]) <= NodeWeight(g, v)
  }

  /** The pass stops only when no node is ready. */
  ghost predicate Exhausted(g: NodeTable, result: seq<string>) {
    forall v {:trigger Ready(g, Members(result), v)} :: v in g.entries ==> !Ready(g, Members(result), v)
  }

  lemma RemoveAt(q: seq<string>, k: nat)
    requires Distinct(q) && k < |q|
    ensures Distinct(q[..k] + q[k + 1..])
    ensures forall v :: v in q[..k] + q[k + 1..] <==> v in q && v != q[k]
  {
    var r := q[..k] + q[k + 1..];
    assert forall i :: 0 <= i < |r| ==> r[i] == if i < k then q[i] else q[i + 1];
    forall v | v in q && v != q[k]
      ensures v in r
    {
      var i :| 0 <= i < |q| && q[i] == v;
      if i < k {
        assert r[i] == v;
      } else {
        assert r[i - 1] == v;
      }
    }
  }

  lemma MembersPush(s: seq<string>, x: string)
    ensures Members(s + [x]) == Members(s) + {x}
    ensures (s + [x])[..|s|] == s
  {
    assert s + [x] == s + [x];
  }

  /** Taking a ready node of least weight keeps both orders' promises. */
  lemma TakeReady(g: NodeTable, result: seq<string>, ready: seq<string>, n: string)
    requires ReadyOrder(g, result) && LightestFirst(g, result)
    requires forall v :: v in g.entries ==> (v in ready <==> Ready(g, Members(result), v))
    requires n in g.entries && n in ready && forall v :: v in ready ==> NodeWeight(g, n) <= NodeWeight(g, v)
    ensures ReadyOrder(g, result + [n]) && LightestFirst(g, result + [n])
  {
    var r := result + [n];
    assert r[..|result|] == result;
    forall i | 0 <= i < |r|
      ensures Ready(g, Members(r[..i]), r[i])
    {
      if i < |result| {
        assert r[..i] == result[..i];
      }
    }
    forall i, v | 0 <= i < |r| && Ready(g, Members(r[..i]), v)
      ensures NodeWeight(g, r[i]) <= NodeWeight(g, v)
    {
      if i < |result| {
        assert r[..i] == result[..i];
      } else {
        assert v in ready;
      }
    }
  }

  /** The queue lists nodes, each once. */
  ghost predicate QueueOk(g: NodeTable, queue: seq<string>) {
    Distinct(queue) && forall v :: v in queue ==> v in g.entries
  }

  /** `deg` holds the in-degrees left once the first `j` entries of `n`'s outgoing list are counted off. */
  ghost predicate DegreesAfter(g: NodeTable, before: set<string>, n: string, j: nat, deg: map<string, int>)
    requires n in g.entries && j <= |g.entries[n].outgoing|
  {
    forall v :: v in g.entries ==> v in deg && deg[v] == InDegree(g, g.order, before, v) - CountTo(g.entries[n].outgoing[..j], v)
  }

  /** The queue holds exactly the nodes not yet taken whose in-degree is 0. */
  ghost predicate QueueMatches(g: NodeTable, done: set<string>, deg: map<string, int>, queue: seq<string>) {
    forall v :: v in g.entries ==> (v in queue <==> v !in done && v in deg && deg[v] == 0)
  }

  lemma ReleaseStep(g: NodeTable, before: set<string>, n: string, j: nat, deg: map<string, int>)
    requires OutClosed(g) && n in g.entries && n !in before
    requires InDegree(g, g.order, before, n) == 0
    requires forall v :: v in before ==> InDegree(g, g.order, before, v) == 0
    requires j < |g.entries[n].outgoing|
    requires DegreesAfter(g, before, n, j, deg)
    ensures var w := g.entries[n].outgoing[j].to;
      && w in g.entries && w !in before + {n} && deg[w] >= 1
      && DegreesAfter(g, before, n, j + 1, deg[w := deg[w] - 1])
  {
    ReleaseTarget(g, before, n, j, deg);
    ReleaseDegrees(g, before, n, j, deg);
  }

  /** The target of the `j`-th edge out of `n` is a node not yet taken, whose counter is still positive. */
  lemma ReleaseTarget(g: NodeTable, before: set<string>, n: string, j: nat, deg: map<string, int>)
    requires OutClosed(g) && n in g.entries && n !in before
    requires InDegree(g, g.order, before, n) == 0
    requires forall v :: v in before ==> InDegree(g, g.order, before, v) == 0
    requires j < |g.entries[n].outgoing|
    requires DegreesAfter(g, before, n, j, deg)
    ensures var w := g.entries[n].outgoing[j].to;
      w in g.entries && w !in before + {n} && deg[w] >= 1
  {
    var outs := g.entries[n].outgoing;
    var w := outs[j].to;
    assert w in g.entries;
    InDegreeRemove(g, g.order, before, n, w);
    CountToStep(outs, j, w);
    CountToAppend(outs[..j + 1], outs[j + 1..], w);
    assert outs[..j + 1] + outs[j + 1..] == outs;
  }

  /** Decrementing the target's counter accounts for one more edge out of `n`. */
  lemma ReleaseDegrees(g: NodeTable, before: set<string>, n: string, j: nat, deg: map<string, int>)
    requires n in g.entries && j < |g.entries[n].outgoing|
    requires g.entries[n].outgoing[j].to in deg
    requires DegreesAfter(g, before, n, j, deg)
    ensures var w := g.entries[n].outgoing[j].to;
      DegreesAfter(g, before, n, j + 1, deg[w := deg[w] - 1])
  {
    var outs := g.entries[n].outgoing;
    var w := outs[j].to;
    var deg' := deg[w := deg[w] - 1];
    forall v | v in g.entries
      ensures v in deg' && deg'[v] == InDegree(g, g.order, before, v) - CountTo(outs[..j + 1], v)
    {
      CountToStep(outs, j, v);
    }
  }

  lemma QueueStep(g: NodeTable, done: set<string>, deg: map<string, int>, queue: seq<string>, w: string)
    requires QueueOk(g, queue) && QueueMatches(g, done, deg, queue)
    requires w in g.entries && w !in done && w in deg && deg[w] >= 1
    ensures var deg' := deg[w := deg[w] - 1];
      var queue' := if deg'[w] == 0 then queue + [w] else queue;
      QueueOk(g, queue') && QueueMatches(g, done, deg', queue')
  {
    assert w !in queue;
    if deg[w] == 1 {
      DistinctPush(queue, w);
      assert forall v :: v in queue + [w] <==> v in queue || v == w;
    }
  }

  /**
   * The inner loop of the pass: after taking `n`, every entry of its outgoing list
   * lowers the in-degree of its target, and a target whose in-degree reaches 0 joins
   * the end of the queue.
   */
  method ReleaseSuccessors(g: NodeTable, ghost before: set<string>, n: string, deg0: map<string, int>, queue0: seq<string>)
    returns (deg: map<string, int>, queue: seq<string>)
    requires OutClosed(g) && n in g.entries && n !in before
    requires InDegree(g, g.order, before, n) == 0
    requires DoneSettled(g, before)
    requires QueueOk(g, queue0)
    requires DegreesLeft(g, before, deg0)
    requires QueueMatches(g, before + {n}, deg0, queue0)
    ensures QueueOk(g, queue)
    ensures DegreesLeft(g, before + {n}, deg)
    ensures QueueMatches(g, before + {n}, deg, queue)
    ensures |queue0| <= |queue| && queue[..|queue0|] == queue0
  {
    deg, queue := deg0, queue0;
    var outs := g.entries[n].outgoing;
    var j := 0;
    assert outs[..0] == [];
    while j < |outs|
      invariant 0 <= j <= |outs|
      invariant QueueOk(g, queue) && QueueMatches(g, before + {n}, deg, queue)
      invariant DegreesAfter(g, before, n, j, deg)
      invariant |queue0| <= |queue| && queue[..|queue0|] == queue0
    {
      ReleaseStep(g, before, n, j, deg);
      var w := outs[j].to;
      QueueStep(g, before + {n}, deg, queue, w);
      deg := deg[w := deg[w] - 1];
      if deg[w] == 0 {
        PrefixPush(queue0, queue, w);
        queue := queue + [w];
      }
      j := j + 1;
    }
    assert outs[..j] == outs;
    forall v | v in g.entries
      ensures deg[v] == InDegree(g, g.order, before + {n}, v)
    {
      InDegreeRemove(g, g.order, before, n, v);
    }
  }

  lemma PrefixPush(p: seq<string>, q: seq<string>, w: string)
    requires |p| <= |q| && q[..|p|] == p
    ensures |p| <= |q + [w]| && (q + [w])[..|p|] == p
  {
    assert (q + [w])[..|p|] == q[..|p|];
  }

  /** `deg` holds the in-degrees left once the nodes of `done` are counted off. */
  ghost predicate DegreesLeft(g: NodeTable, done: set<string>, deg: map<string, int>) {
    forall v :: v in g.entries ==> v in deg && deg[v] == InDegree(g, g.order, done, v)
  }

  /** The queue holds exactly the ready nodes. */
  ghost predicate QueueIsReady(g: NodeTable, done: set<string>, queue: seq<string>) {
    forall v :: v in g.entries ==> (v in queue <==> Ready(g, done, v))
  }

  /** No node taken has an entry from a node not yet taken. */
  ghost predicate DoneSettled(g: NodeTable, done: set<string>) {
    forall v :: v in done ==> InDegree(g, g.order, done, v) == 0
  }

  lemma QueueReadyIffZero(g: NodeTable, done: set<string>, deg: map<string, int>, queue: seq<string>)
    requires OutClosed(g) && DegreesLeft(g, done, deg)
    ensures QueueIsReady(g, done, queue) <==> QueueMatches(g, done, deg, queue)
  {
    forall v | v in g.entries {
      ReadyIffZero(g, done, v);
    }
  }

  /** Popping the ready node `queue[k]` leaves the queue the inner loop expects. */
  lemma PopReady(g: NodeTable, done: set<string>, deg: map<string, int>, queue: seq<string>, k: nat)
    requires OutClosed(g) && k < |queue| && QueueOk(g, queue)
    requires DegreesLeft(g, done, deg) && QueueIsReady(g, done, queue) && DoneSettled(g, done)
    ensures var n := queue[k];
      && n in g.entries && n !in done && InDegree(g, g.order, done, n) == 0
      && QueueOk(g, queue[..k] + queue[k + 1..])
      && QueueMatches(g, done + {n}, deg, queue[..k] + queue[k + 1..])
  {
    var n := queue[k];
    RemoveAt(queue, k);
    ReadyIffZero(g, done, n);
    QueueReadyIffZero(g, done, deg, queue);
  }

  /** After the inner loop the queue is again exactly the ready nodes. */
  lemma SettleTaken(g: NodeTable, done: set<string>, n: string, deg: map<string, int>, queue: seq<string>)
    requires OutClosed(g) && n !in done && DoneSettled(g, done) && InDegree(g, g.order, done, n) == 0
    requires DegreesLeft(g, done + {n}, deg) && QueueMatches(g, done + {n}, deg, queue)
    ensures QueueIsReady(g, done + {n}, queue) && DoneSettled(g, done + {n})
  {
    QueueReadyIffZero(g, done + {n}, deg, queue);
    forall v | v in done + {n}
      ensures InDegree(g, g.order, done + {n}, v) == 0
    {
      InDegreeRemove(g, g.order, done, n, v);
    }
  }

  /**
   * One pass of Kahn's algorithm, as the loop of `topological_sort` runs it before
   * the length check. It takes only ready nodes, the lightest ready one each time,
   * and stops when nothing is ready.
   */
  method KahnPass(g: NodeTable) returns (result: seq<string>, ghost arrival: seq<string>)
    requires OutClosed(g)
    ensures ReadyOrder(g, result)
    ensures LightestFirst(g, result)
    ensures Exhausted(g, result)
    ensures Distinct(arrival) && Members(arrival) == Members(result)
    ensures ArrivalFollowsReadiness(g, result, arrival)
    ensures TiesByArrival(g, result, arrival)
  {
    var deg := InDegrees(g);
    var queue := ZeroDegreeNodes(g.order, deg);
    result := [];
    ghost var done: set<string> := {};
    QueueReadyIffZero(g, done, deg, queue);
    arrival := queue;
    FirstArrivals(g, queue);
    assert Members(result) == {};
    while queue != []
      invariant done == Members(result) && done <= g.entries.Keys
      invariant QueueOk(g, queue)
      invariant DegreesLeft(g, done, deg)
      invariant QueueIsReady(g, done, queue)
      invariant DoneSettled(g, done)
      invariant ReadyOrder(g, result) && LightestFirst(g, result)
      invariant Arrivals(g, result, queue, arrival)
      decreases |g.entries.Keys - done|
    {
      var k := FirstLightest(g, queue);
      var n := queue[k];
      ghost var waiting := queue;
      var popped := queue[..k] + queue[k + 1..];
      TakeReady(g, result, queue, n);
      PopReady(g, done, deg, queue, k);
      deg, queue := ReleaseSuccessors(g, done, n, deg, popped);
      SettleTaken(g, done, n, deg, queue);
      ghost var ext := queue[|popped|..];
      ArrivalsStep(g, result, waiting, k, queue, arrival);
      SetShrinks(g.entries.Keys, done, {n});
      MembersPush(result, n);
      result := result + [n];
      done := done + {n};
      arrival := arrival + ext;
    }
    ArrivalsDone(g, result, arrival);
  }

  // ---------------------------------------------------------------------------
  // Ties: the order in which nodes enter the queue
  // ---------------------------------------------------------------------------

  /** `x` entered the queue before `y`. */
  ghost predicate ArrivedBefore(arrival: seq<string>, x: string, y: string) {
    exists a, b :: 0 <= a < b < |arrival| && arrival[a] == x && arrival[b] == y
  }

  /**
   * Nodes enter the queue in the order they become ready: at every step, a node
   * that is ready has every node that arrived before it ready or already taken.
   */
  ghost predicate ArrivalFollowsReadiness(g: NodeTable, result: seq<string>, arrival: seq<string>) {
    forall a, b, s :: 0 <= a < b < |arrival| && 0 <= s <= |result| && Ready(g, Members(result[..s]), arrival[b]) ==>
      arrival[a] in Members(result[..s]) || Ready(g, Members(result[..s]), arrival[a])
  }

  /** A tie on weight goes to the node that arrived first: a ready node as light as the one taken arrived after it. */
  ghost predicate TiesByArrival(g: NodeTable, result: seq<string>, arrival: seq<string>) {
    forall i, v :: 0 <= i < |result| && Ready(g, Members(result[..i]), v) && v != result[i] && NodeWeight(g, v) == NodeWeight(g, result[i]) ==>
      ArrivedBefore(arrival, result[i], v)
  }

  /** `arrival` lists, each once, the nodes taken or waiting, and the queue keeps their arrival order. */
  ghost predicate ArrivalOk(done: set<string>, queue: seq<string>, arrival: seq<string>) {
    && Distinct(arrival)
    && (forall v :: v in arrival <==> v in done || v in queue)
    && forall a, b :: 0 <= a < b < |queue| ==> ArrivedBefore(arrival, queue[a], queue[b])
  }

  /** The pass's invariant about arrivals: all three of the above, with `result` taken and `queue` waiting. */
  ghost predicate Arrivals(g: NodeTable, result: seq<string>, queue: seq<string>, arrival: seq<string>) {
    && ArrivalOk(Members(result), queue, arrival)
    && ArrivalFollowsReadiness(g, result, arrival)
    && TiesByArrival(g, result, arrival)
  }

  /** One round of the pass: `queue[k]` is taken and the inner loop turns `waiting` less it into `queue`. */
  lemma ArrivalsStep(g: NodeTable, result: seq<string>, waiting: seq<string>, k: nat, queue: seq<string>, arrival: seq<string>)
    requires Arrivals(g, result, waiting, arrival)
    requires QueueOk(g, waiting) && QueueIsReady(g, Members(result), waiting)
    requires k < |waiting| && forall j :: 0 <= j < k ==> NodeWeight(g, waiting[j]) > NodeWeight(g, waiting[k])
    requires var popped := waiting[..k] + waiting[k + 1..];
      |popped| <= |queue| && queue[..|popped|] == popped
    requires QueueOk(g, queue) && QueueIsReady(g, Members(result) + {waiting[k]}, queue)
    ensures var n, popped := waiting[k], waiting[..k] + waiting[k + 1..];
      Arrivals(g, result + [n], queue, arrival + queue[|popped|..])
  {
    var n := waiting[k];
    var popped := waiting[..k] + waiting[k + 1..];
    var ext := queue[|popped|..];
    var done := Members(result);
    MembersPush(result, n);
    assert n in waiting && Ready(g, done, n);
    TakeTie(g, result, waiting, arrival, k);
    PopArrival(done, waiting, arrival, k);
    ExtendArrival(done + {n}, popped, queue, arrival);
    ArrivalStep(g, result, n, waiting, queue, arrival, ext);
    TiesGrow(g, result + [n], arrival, ext);
  }

  /** When the queue is empty, the arrivals are exactly the nodes taken. */
  lemma ArrivalsDone(g: NodeTable, result: seq<string>, arrival: seq<string>)
    requires Arrivals(g, result, [], arrival)
    ensures Distinct(arrival) && Members(arrival) == Members(result)
    ensures ArrivalFollowsReadiness(g, result, arrival) && TiesByArrival(g, result, arrival)
  {
  }

  lemma FirstArrivals(g: NodeTable, queue: seq<string>)
    requires QueueOk(g, queue) && QueueIsReady(g, {}, queue)
    ensures Arrivals(g, [], queue, queue)
  {
    assert Members([]) == {};
    forall a, b | 0 <= a < b < |queue|
      ensures ArrivedBefore(queue, queue[a], queue[b])
    {
    }
    forall a, b, s | 0 <= a < b < |queue| && 0 <= s <= 0 && Ready(g, Members([][..s]), queue[b])
      ensures queue[a] in Members([][..s]) || Ready(g, Members([][..s]), queue[a])
    {
      assert Members([][..s]) == {};
    }
  }

  /** The node `FirstLightest` takes wins its ties against every other waiting node. */
  lemma TakeTie(g: NodeTable, result: seq<string>, queue: seq<string>, arrival: seq<string>, k: nat)
    requires TiesByArrival(g, result, arrival)
    requires QueueIsReady(g, Members(result), queue) && ArrivalOk(Members(result), queue, arrival)
    requires k < |queue| && forall j :: 0 <= j < k ==> NodeWeight(g, queue[j]) > NodeWeight(g, queue[k])
    ensures TiesByArrival(g, result + [queue[k]], arrival)
  {
    var n := queue[k];
    var r := result + [n];
    forall i, v | 0 <= i < |r| && Ready(g, Members(r[..i]), v) && v != r[i] && NodeWeight(g, v) == NodeWeight(g, r[i])
      ensures ArrivedBefore(arrival, r[i], v)
    {
      if i < |result| {
        assert r[..i] == result[..i];
      } else {
        assert r[..i] == result;
        assert v in queue;
        var j :| 0 <= j < |queue| && queue[j] == v;
        assert k < j;
      }
    }
  }

  /** Later arrivals do not change who arrived before whom. */
  lemma TiesGrow(g: NodeTable, result: seq<string>, arrival: seq<string>, ext: seq<string>)
    requires TiesByArrival(g, result, arrival)
    ensures TiesByArrival(g, result, arrival + ext)
  {
    forall i, v | 0 <= i < |result| && Ready(g, Members(result[..i]), v) && v != result[i] && NodeWeight(g, v) == NodeWeight(g, result[i])
      ensures ArrivedBefore(arrival + ext, result[i], v)
    {
      var a, b :| 0 <= a < b < |arrival| && arrival[a] == result[i] && arrival[b] == v;
      assert (arrival + ext)[a] == result[i] && (arrival + ext)[b] == v;
    }
  }

  /** Taking `queue[k]` keeps the remaining queue in arrival order. */
  lemma PopArrival(done: set<string>, queue: seq<string>, arrival: seq<string>, k: nat)
    requires ArrivalOk(done, queue, arrival) && Distinct(queue) && k < |queue|
    ensures ArrivalOk(done + {queue[k]}, queue[..k] + queue[k + 1..], arrival)
  {
    var q := queue[..k] + queue[k + 1..];
    RemoveAt(queue, k);
    assert forall i :: 0 <= i < |q| ==> q[i] == if i < k then queue[i] else queue[i + 1];
    forall a, b | 0 <= a < b < |q|
      ensures ArrivedBefore(arrival, q[a], q[b])
    {
      var a' := if a < k then a else a + 1;
      var b' := if b < k then b else b + 1;
      assert q[a] == queue[a'] && q[b] == queue[b'] && a' < b';
    }
  }

  /** The nodes the inner loop appends to the queue arrive, in that order, after everything before them. */
  lemma ExtendArrival(done: set<string>, q0: seq<string>, q: seq<string>, arrival: seq<string>)
    requires ArrivalOk(done, q0, arrival)
    requires |q0| <= |q| && q[..|q0|] == q0 && Distinct(q)
    requires forall v :: v in q ==> v !in done
    ensures ArrivalOk(done, q, arrival + q[|q0|..])
  {
    var ext := q[|q0|..];
    var arr := arrival + ext;
    assert q == q0 + ext;
    forall j | 0 <= j < |ext|
      ensures ext[j] !in arrival
    {
      assert ext[j] == q[|q0| + j];
    }
    forall i, j | 0 <= i < j < |arr|
      ensures arr[i] != arr[j]
    {
      if j >= |arrival| && i >= |arrival| {
        assert arr[i] == q[|q0| + i - |arrival|] && arr[j] == q[|q0| + j - |arrival|];
      } else if j >= |arrival| {
        assert arr[j] == ext[j - |arrival|];
      }
    }
    forall a, b | 0 <= a < b < |q|
      ensures ArrivedBefore(arr, q[a], q[b])
    {
      if b < |q0| {
        assert q[a] == q0[a] && q[b] == q0[b];
        var x, y :| 0 <= x < y < |arrival| && arrival[x] == q0[a] && arrival[y] == q0[b];
        assert arr[x] == q[a] && arr[y] == q[b];
      } else if a < |q0| {
        assert q[a] == q0[a] && q0[a] in arrival;
        var x :| 0 <= x < |arrival| && arrival[x] == q[a];
        assert arr[x] == q[a] && arr[|arrival| + b - |q0|] == q[b];
      } else {
        assert arr[|arrival| + a - |q0|] == q[a] && arr[|arrival| + b - |q0|] == q[b];
      }
    }
  }

  /** A node newly appended to the queue was not ready at any earlier step. */
  lemma ArrivalStep(g: NodeTable, result: seq<string>, n: string, waiting: seq<string>, queue: seq<string>, arrival: seq<string>, ext: seq<string>)
    requires n !in Members(result)
    requires ArrivalFollowsReadiness(g, result, arrival)
    requires QueueIsReady(g, Members(result), waiting) && ArrivalOk(Members(result), waiting, arrival)
    requires QueueOk(g, queue) && QueueIsReady(g, Members(result) + {n}, queue) && ArrivalOk(Members(result) + {n}, queue, arrival + ext)
    ensures ArrivalFollowsReadiness(g, result + [n], arrival + ext)
  {
    var done := Members(result);
    var r := result + [n];
    var arr := arrival + ext;
    MembersPush(result, n);
    NewArrivalsWereNotReady(g, result, waiting, arrival, ext);
    assert forall j :: |arrival| <= j < |arr| ==> arr[j] == ext[j - |arrival|];
    forall a, b, s | 0 <= a < b < |arr| && 0 <= s <= |r| && Ready(g, Members(r[..s]), arr[b])
      ensures arr[a] in Members(r[..s]) || Ready(g, Members(r[..s]), arr[a])
    {
      if s == |r| {
        assert r[..s] == r;
        assert Members(r[..s]) == done + {n};
        assert arr[a] in arr;
        assert arr[a] in done + {n} || arr[a] in queue;
      } else {
        assert r[..s] == result[..s];
        assert Members(result[..s]) <= done by {
          assert forall x :: x in result[..s] ==> x in result;
        }
        assert b < |arrival|;
        assert arr[a] == arrival[a] && arr[b] == arrival[b];
      }
    }
  }

  /** A node that was neither taken nor waiting was not ready at any step so far. */
  lemma NewArrivalsWereNotReady(g: NodeTable, result: seq<string>, waiting: seq<string>, arrival: seq<string>, ext: seq<string>)
    requires QueueIsReady(g, Members(result), waiting) && ArrivalOk(Members(result), waiting, arrival)
    requires Distinct(arrival + ext)
    ensures forall j, s :: 0 <= j < |ext| && 0 <= s <= |result| ==> !Ready(g, Members(result[..s]), ext[j])
  {
    var done := Members(result);
    forall j, s | 0 <= j < |ext| && 0 <= s <= |result|
      ensures !Ready(g, Members(result[..s]), ext[j])
    {
      var w := ext[j];
      assert (arrival + ext)[|arrival| + j] == w;
      assert w !in arrival by {
        forall i | 0 <= i < |arrival|
          ensures arrival[i] != w
        {
          assert (arrival + ext)[i] == arrival[i];
        }
      }
      assert w !in done && w !in waiting;
      assert !Ready(g, done, w);
      assert Members(result[..s]) <= done by {
        assert forall x :: x in result[..s] ==> x in result;
      }
    }
  }

  // ---------------------------------------------------------------------------
  // What one pass guarantees
  // ---------------------------------------------------------------------------

  /** A ready-order lists each node once. */
  lemma ReadyOrderDistinct(g: NodeTable, result: seq<string>)
    requires ReadyOrder(g, result)
    ensures Distinct(result) && forall x :: x in result ==> x in g.entries
  {
    forall i, j | 0 <= i < j < |result|
      ensures result[i] != result[j]
    {
      assert Ready(g, Members(result[..j]), result[j]);
      assert result[i] in result[..j];
    }
  }

  /**
   * In a ready-order every node comes after all its ancestors, not just after its
   * parents: the nodes before position `i` are closed under taking parents.
   */
  lemma {:induction false} ReadyOrderKeepsAncestorsFirst(g: NodeTable, result: seq<string>, i: nat)
    requires WellFormed(g) && ReadyOrder(g, result) && i < |result|
    ensures Ancestors(g, result[i]) <= Members(result[..i])
  {
    var c := Members(result[..i]);
    forall j | 0 <= j <= i
      ensures Parents(g, result[j]) <= Members(result[..j]) <= c
    {
      assert Ready(g, Members(result[..j]), result[j]);
      forall u | u in Parents(g, result[j])
        ensures u in Members(result[..j])
      {
        assert HasOut(g, u, result[j]);
      }
      assert forall x :: x in result[..j] ==> x in result[..i];
    }
    forall x | x in c
      ensures Parents(g, x) <= c
    {
      var j :| 0 <= j < i && result[j] == x;
    }
    AncestorsLeast(g, result[i], c);
  }

  /** Every outgoing entry `u -> v` between listed nodes has `u` listed before `v`. */
  lemma ReadyOrderRespectsEdges(g: NodeTable, result: seq<string>)
    requires ReadyOrder(g, result)
    ensures forall i, j :: 0 <= i < |result| && 0 <= j < |result| && HasOut(g, result[i], result[j]) ==> i < j
  {
    ReadyOrderDistinct(g, result);
    forall i, j | 0 <= i < |result| && 0 <= j < |result| && HasOut(g, result[i], result[j])
      ensures i < j
    {
      assert Ready(g, Members(result[..j]), result[j]);
      assert result[i] in Members(result[..j]);
    }
  }

  /** So no node of a ready-order is an ancestor of a node listed before it. */
  ghost predicate AncestorsFirst(g: NodeTable, order: seq<string>) {
    forall i, j :: 0 <= i < j < |order| ==> order[j] !in Ancestors(g, order[i])
  }

  lemma ReadyOrderIsAncestorsFirst(g: NodeTable, result: seq<string>)
    requires WellFormed(g) && ReadyOrder(g, result)
    ensures AncestorsFirst(g, result)
  {
    ReadyOrderDistinct(g, result);
    forall i, j | 0 <= i < j < |result|
      ensures result[j] !in Ancestors(g, result[i])
    {
      ReadyOrderKeepsAncestorsFirst(g, result, i);
      assert forall k :: 0 <= k < i ==> result[k] != result[j];
    }
  }

  /** Some parent of `x` lies in `rest`. */
  ghost predicate HasParentIn(g: NodeTable, rest: set<string>, x: string) {
    exists u :: u in rest && u in Parents(g, x)
  }

  /** Following parents inside a set where every node has a parent must come back round. */
  lemma {:induction false} DescendToCycle(g: NodeTable, rest: set<string>, v: string)
    requires v in rest
    requires forall x :: x in rest ==> HasParentIn(g, rest, x)
    ensures !Acyclic(g)
    decreases |Ancestors(g, v)|
  {
    var u :| u in rest && u in Parents(g, v);
    AncestorsClosed(g, v);
    assert u in Ancestors(g, v);
    AncestorsTransitive(g, v, u);
    if u !in Ancestors(g, u) {
      assert Ancestors(g, u) < Ancestors(g, v);
      ProperSubsetSmaller(Ancestors(g, u), Ancestors(g, v));
      DescendToCycle(g, rest, u);
    } else {
      assert u in g.entries;
    }
  }

  /** A pass that stops before taking every node has met a cycle. */
  lemma StuckMeansCycle(g: NodeTable, result: seq<string>, v: string)
    requires WellFormed(g) && Exhausted(g, result)
    requires v in g.entries && v !in result
    ensures !Acyclic(g)
  {
    StuckSetMeansCycle(g, Members(result), v);
  }

  lemma StuckSetMeansCycle(g: NodeTable, done: set<string>, v: string)
    requires WellFormed(g) && forall x {:trigger Ready(g, done, x)} :: x in g.entries ==> !Ready(g, done, x)
    requires v in g.entries && v !in done
    ensures !Acyclic(g)
  {
    EveryUnreadyHasParent(g, done);
    DescendToCycle(g, g.entries.Keys - done, v);
  }

  lemma EveryUnreadyHasParent(g: NodeTable, done: set<string>)
    requires WellFormed(g)
    requires forall v {:trigger Ready(g, done, v)} :: v in g.entries ==> !Ready(g, done, v)
    ensures forall x :: x in g.entries.Keys - done ==> HasParentIn(g, g.entries.Keys - done, x)
  {
    forall x | x in g.entries.Keys - done
      ensures HasParentIn(g, g.entries.Keys - done, x)
    {
      UnreadyHasParent(g, done, x);
    }
  }

  lemma UnreadyHasParent(g: NodeTable, done: set<string>, x: string)
    requires WellFormed(g) && x in g.entries && x !in done && !Ready(g, done, x)
    ensures HasParentIn(g, g.entries.Keys - done, x)
  {
    var u :| u in g.entries && HasOut(g, u, x) && u !in done;
    assert HasIn(g, x, u);
    assert u in Parents(g, x);
  }

  /** On an acyclic graph one pass takes every node exactly once. */
  lemma AcyclicPassComplete(g: NodeTable, result: seq<string>)
    requires WellFormed(g) && ReadyOrder(g, result) && Exhausted(g, result) && Acyclic(g)
    ensures Distinct(result) && Members(result) == g.entries.Keys && |result| == |g.order|
  {
    ReadyOrderDistinct(g, result);
    if v :| v in g.entries && v !in result {
      StuckMeansCycle(g, result, v);
    }
    assert Members(result) == Members(g.order);
    DistinctMembers(result);
    DistinctMembers(g.order);
  }

  /** A pass that stops early leaves an edge the repair can remove. */
  lemma StuckMeansEdge(g: NodeTable, result: seq<string>)
    requires Exhausted(g, result)
    requires exists v :: v in g.entries && v !in result
    ensures HasAnyEdge(g)
  {
    var v :| v in g.entries && v !in result;
    assert !Ready(g, Members(result), v);
  }

  /** The length test of `topological_sort` is a completeness test: a ready-order is as long as the key list exactly when it lists every key. */
  lemma PassLengthIffComplete(g: NodeTable, result: seq<string>)
    requires OutClosed(g) && ReadyOrder(g, result)
    ensures |result| == |g.order| <==> Members(result) == g.entries.Keys
  {
    ReadyOrderDistinct(g, result);
    DistinctMembers(result);
    DistinctMembers(g.order);
    assert Members(g.order) == g.entries.Keys;
    assert Members(result) <= g.entries.Keys;
    if Members(result) != g.entries.Keys {
      ProperSubsetSmaller(Members(result), g.entries.Keys);
    }
  }

  /** The length test after a pass holds exactly when the graph is acyclic, and then the pass listed every node once. */
  lemma PassOutcome(g: NodeTable, result: seq<string>)
    requires WellFormed(g) && ReadyOrder(g, result) && Exhausted(g, result)
    ensures |result| == |g.order| <==> Acyclic(g)
    ensures Acyclic(g) ==> Distinct(result) && Members(result) == g.entries.Keys
  {
    PassLengthIffComplete(g, result);
    ReadyOrderDistinct(g, result);
    if |result| == |g.order| {
      CompleteMeansAcyclic(g, result);
    } else {
      var v :| v in g.entries && v !in result;
      StuckMeansCycle(g, result, v);
    }
  }

  /** Conversely, a graph with a complete ready-order has no cycle. */
  lemma CompleteMeansAcyclic(g: NodeTable, result: seq<string>)
    requires WellFormed(g) && ReadyOrder(g, result) && Members(result) == g.entries.Keys
    ensures Acyclic(g)
  {
    ReadyOrderDistinct(g, result);
    forall x | x in g.entries
      ensures x !in Ancestors(g, x)
    {
      assert x in Members(result);
      var i :| 0 <= i < |result| && result[i] == x;
      ReadyOrderKeepsAncestorsFirst(g, result, i);
      assert forall k :: 0 <= k < i ==> result[k] != x;
    }
  }
}
