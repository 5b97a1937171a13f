/** The walk of the IPv6 routing tree that measures its depth.
  *
  * The kernel tree is a heap structure with left, right and parent pointers. The
  * walk keeps no stack: it moves one node at a time and remembers in `state` which
  * part of the current node is finished. Source-routing subtrees are not modelled.
  */
module FibWalk {
  import opened Words

  class Route {}

  class Fib6Node {
    var left: Fib6Node?
    var right: Fib6Node?
    var parent: Fib6Node?
    var leaf: Route?
    var rtinfo: bool

    ghost predicate Carries()
      reads this
    {
      leaf != null && rtinfo
    }
  }

  /** The mathematical tree that a heap structure represents. `route` says whether
    * the node carries a route.
    */
  datatype Tree = Empty | Fork(node: Fib6Node, route: bool, left: Tree, right: Tree)

  ghost function Nodes(t: Tree): set<Fib6Node> {
    match t
    case Empty => {}
    case Fork(n, _, l, r) => {n} + Nodes(l) + Nodes(r)
  }

  /** The heap rooted at `n` is exactly the tree `t`: pointers agree in both
    * directions and no node occurs twice.
    */
  ghost predicate Represents(t: Tree, n: Fib6Node?)
    reads Nodes(t)
  {
    match t
    case Empty => n == null
    case Fork(m, route, l, r) =>
      && n == m
      && route == m.Carries()
      && Represents(l, m.left)
      && Represents(r, m.right)
      && (l.Fork? ==> l.node.parent == m)
      && (r.Fork? ==> r.node.parent == m)
      && m !in Nodes(l) + Nodes(r)
      && Nodes(l) !! Nodes(r)
  }

  /** What the walk should count, in the order it should count it: every node
    * carrying a route, paired with its depth.
    */
  ghost function Visits(t: Tree, depth: nat): seq<(Fib6Node, nat)> {
    match t
    case Empty => []
    case Fork(n, route, l, r) =>
      Visits(l, depth + 1) + Visits(r, depth + 1) + if route then [(n, depth)] else []
  }

  ghost function TotalDepth(v: seq<(Fib6Node, nat)>): nat {
    if v == [] then 0 else TotalDepth(v[..|v| - 1]) + v[|v| - 1].1
  }

  ghost function MaxDepth(v: seq<(Fib6Node, nat)>): nat {
    if v == [] then 0
    else
      var m := MaxDepth(v[..|v| - 1]);
      if v[|v| - 1].1 > m then v[|v| - 1].1 else m
  }

  // ----- Positions inside a tree ------------------------------------------------

  /** A tree with one subtree taken out; the hole is where the walk stands. */
  datatype Context =
    | Top
    | InLeft(up: Context, node: Fib6Node, route: bool, right: Tree)
    | InRight(up: Context, node: Fib6Node, route: bool, left: Tree)

  ghost function Plug(c: Context, t: Tree): Tree {
    match c
    case Top => t
    case InLeft(up, n, b, r) => Plug(up, Fork(n, b, t, r))
    case InRight(up, n, b, l) => Plug(up, Fork(n, b, l, t))
  }

  ghost function Length(c: Context): nat {
    match c
    case Top => 0
    case InLeft(up, _, _, _) => Length(up) + 1
    case InRight(up, _, _, _) => Length(up) + 1
  }

  /** What has been counted before the walk entered the hole. */
  ghost function Before(c: Context): seq<(Fib6Node, nat)> {
    match c
    case Top => []
    case InLeft(up, _, _, _) => Before(up)
    case InRight(up, _, _, l) => Before(up) + Visits(l, Length(up) + 1)
  }

  lemma {:induction false} PlugRootOutside(c: Context, t: Tree, root: Fib6Node?)
    requires Represents(Plug(c, t), root) && t.Fork?
    ensures root != null && root !in Nodes(t.left) + Nodes(t.right)
    ensures c != Top ==> root !in Nodes(t)
    decreases c
  {
    match c
    case Top =>
    case InLeft(up, n, b, r) => PlugRootOutside(up, Fork(n, b, t, r), root);
    case InRight(up, n, b, l) => PlugRootOutside(up, Fork(n, b, l, t), root);
  }

  lemma {:induction false} PlugRepresents(c: Context, t: Tree, root: Fib6Node?)
    requires Represents(Plug(c, t), root)
    ensures exists n :: Represents(t, n)
    ensures Nodes(t) <= Nodes(Plug(c, t))
    ensures c == Top ==> Represents(t, root)
    ensures t.Fork? && c != Top ==> t.node != root
    decreases c
  {
    match c
    case Top =>
    case InLeft(up, n, b, r) =>
      PlugRepresents(up, Fork(n, b, t, r), root);
      PlugRootOutside(up, Fork(n, b, t, r), root);
    case InRight(up, n, b, l) =>
      PlugRepresents(up, Fork(n, b, l, t), root);
      PlugRootOutside(up, Fork(n, b, l, t), root);
  }

  // ----- The walk ---------------------------------------------------------------

  datatype WalkState = FWS_L | FWS_R | FWS_C | FWS_U

  /** What has been counted inside the subtree `t` the walk stands in. */
  ghost function Inside(t: Tree, depth: nat, state: WalkState, counted: bool): seq<(Fib6Node, nat)>
    requires t.Fork?
  {
    match state
    case FWS_L => []
    case FWS_R => Visits(t.left, depth + 1)
    case _ =>
      if counted then Visits(t, depth) else Visits(t.left, depth + 1) + Visits(t.right, depth + 1)
  }

  ghost function Size(t: Tree): nat {
    match t
    case Empty => 0
    case Fork(_, _, l, r) => 1 + Size(l) + Size(r)
  }

  /** Iterations still needed inside the current subtree, at most. */
  ghost function Pending(t: Tree, state: WalkState, counted: bool): nat
    requires t.Fork?
  {
    match state
    case FWS_L => 4 * Size(t)
    case FWS_R => 4 * Size(t.right) + 3
    case _ => if counted then 1 else 2
  }

  /** Iterations still needed after leaving the current subtree, at most. */
  ghost function PendingAbove(c: Context): nat {
    match c
    case Top => 0
    case InLeft(up, _, _, r) => PendingAbove(up) + 4 * Size(r) + 3
    case InRight(up, _, _, _) => PendingAbove(up) + 2
  }

  /** The running totals of the walk are those of what it has logged so far, in the
    * widths of the machine.
    */
  ghost predicate Tally(log: seq<(Fib6Node, nat)>, totdepth: nat, count: nat, maxdepth: nat) {
    && totdepth == TotalDepth(log) % WORD64
    && count == |log| % BASE
    && maxdepth == MaxDepth(log)
  }

  lemma TallyOne(log: seq<(Fib6Node, nat)>, totdepth: nat, count: nat, maxdepth: nat, n: Fib6Node, depth: nat)
    requires Tally(log, totdepth, count, maxdepth)
    ensures Tally(log + [(n, depth)], (totdepth + depth) % WORD64, (count + 1) % BASE,
                  if depth > maxdepth then depth else maxdepth)
  {
    assert (log + [(n, depth)])[..|log|] == log;
  }

  /** The average that is printed, in tenths, with the machine's wrap-around. */
  ghost function ReportedAverage(log: seq<(Fib6Node, nat)>): nat {
    if |log| % BASE == 0 then 0 else Quot(TotalDepth(log) % WORD64 * 10 % WORD64, |log| % BASE)
  }

  lemma TallyReport(log: seq<(Fib6Node, nat)>, totdepth: nat, count: nat, maxdepth: nat)
    requires Tally(log, totdepth, count, maxdepth)
    ensures maxdepth == MaxDepth(log)
    ensures ReportedAverage(log) == if count > 0 then totdepth * 10 % WORD64 / count else 0
  {}

  /** Where the walk stands: at the root of `s`, which hangs in `c`. `counted` says
    * whether state FWS_C has been through this node already.
    */
  datatype Position = Position(c: Context, s: Tree, state: WalkState, counted: bool)

  ghost predicate At(t: Tree, root: Fib6Node?, p: Position, node: Fib6Node)
    reads Nodes(t)
  {
    Represents(t, root) && Plug(p.c, p.s) == t && p.s.Fork? && p.s.node == node
  }

  ghost predicate Logged(p: Position, log: seq<(Fib6Node, nat)>) {
    p.s.Fork? && log == Before(p.c) + Inside(p.s, Length(p.c), p.state, p.counted)
  }

  ghost function Remaining(p: Position): nat
    requires p.s.Fork?
  {
    Pending(p.s, p.state, p.counted) + PendingAbove(p.c)
  }

  /** The state in which the current iteration acts, after falling through the
    * states that have nothing to do.
    */
  ghost function Acts(p: Position): (q: Position)
    requires p.s.Fork?
  {
    if p.state == FWS_C || p.state == FWS_U then p
    else if p.state == FWS_L && p.s.left.Fork? then p
    else if p.s.right.Fork? then p.(state := FWS_R)
    else p.(state := FWS_C, counted := false)
  }

  lemma Here(t: Tree, root: Fib6Node?, p: Position, node: Fib6Node, log: seq<(Fib6Node, nat)>)
    requires At(t, root, p, node) && Logged(p, log)
    ensures At(t, root, Acts(p), node) && Logged(Acts(p), log) && Remaining(Acts(p)) <= Remaining(p)
    ensures p.s.left.Fork? <==> node.left != null
    ensures p.s.right.Fork? <==> node.right != null
    ensures p.s.route == (node.leaf != null && node.rtinfo)
    ensures p.c == Top <==> node == root
  {
    PlugRepresents(p.c, p.s, root);
  }

  lemma GoLeft(t: Tree, root: Fib6Node?, p: Position, node: Fib6Node, log: seq<(Fib6Node, nat)>) returns (q: Position)
    requires At(t, root, p, node) && Logged(p, log) && p.state == FWS_L && p.s.left.Fork?
    ensures node.left != null && At(t, root, q, node.left) && Logged(q, log) && Remaining(q) < Remaining(p)
    ensures Length(q.c) == Length(p.c) + 1
    ensures q == Position(InLeft(p.c, node, p.s.route, p.s.right), p.s.left, FWS_L, false)
  {
    PlugRepresents(p.c, p.s, root);
    q := Position(InLeft(p.c, node, p.s.route, p.s.right), p.s.left, FWS_L, false);
  }

  lemma GoRight(t: Tree, root: Fib6Node?, p: Position, node: Fib6Node, log: seq<(Fib6Node, nat)>) returns (q: Position)
    requires At(t, root, p, node) && Logged(p, log) && p.state == FWS_R && p.s.right.Fork?
    ensures node.right != null && At(t, root, q, node.right) && Logged(q, log) && Remaining(q) < Remaining(p)
    ensures Length(q.c) == Length(p.c) + 1
    ensures q == Position(InRight(p.c, node, p.s.route, p.s.left), p.s.right, FWS_L, false)
  {
    PlugRepresents(p.c, p.s, root);
    q := Position(InRight(p.c, node, p.s.route, p.s.left), p.s.right, FWS_L, false);
  }

  lemma CountNode(p: Position, log: seq<(Fib6Node, nat)>)
    requires Logged(p, log) && p.state == FWS_C && !p.counted && p.s.route
    ensures Logged(p.(counted := true), log + [(p.s.node, Length(p.c))])
    ensures Remaining(p.(counted := true)) < Remaining(p)
  {}

  /** The position one level up: the left side is finished, or both are. */
  ghost function Above(p: Position): (q: Position)
    requires p.c != Top && p.s.Fork?
    ensures q.s.Fork?
  {
    match p.c
    case InLeft(up, n, b, r) => Position(up, Fork(n, b, p.s, r), FWS_R, false)
    case InRight(up, n, b, l) => Position(up, Fork(n, b, l, p.s), FWS_C, false)
  }

  lemma AboveLinks(t: Tree, root: Fib6Node?, p: Position, node: Fib6Node)
    requires At(t, root, p, node) && p.c != Top
    ensures node.parent == p.c.node && At(t, root, Above(p), p.c.node)
    ensures p.c.InLeft? ==> p.c.node.left == node
    ensures p.c.InRight? ==> p.c.node.left != node && p.c.node.right == node
  {
    PlugRepresents(Above(p).c, Above(p).s, root);
  }

  lemma AboveLogged(p: Position, log: seq<(Fib6Node, nat)>)
    requires Logged(p, log) && p.c != Top && p.state == FWS_C && (p.counted || !p.s.route)
    ensures Logged(Above(p), log) && Remaining(Above(p)) < Remaining(p)
    ensures Length(p.c) == Length(Above(p).c) + 1
  {}

  lemma AtFork(t: Tree, root: Fib6Node?, p: Position, node: Fib6Node)
    requires At(t, root, p, node)
    ensures p.s.Fork?
  {}

  /** Going up from below the root: the parent pointer leads to the enclosing node, which
    * knows from which side the walk comes.
    */
  lemma GoUp(t: Tree, root: Fib6Node?, p: Position, node: Fib6Node, log: seq<(Fib6Node, nat)>) returns (q: Position)
    requires At(t, root, p, node) && Logged(p, log) && p.c != Top
    requires p.state == FWS_C && (p.counted || !p.s.route)
    ensures node.parent != null && node.parent == p.c.node
    ensures At(t, root, q, node.parent) && Logged(q, log) && Remaining(q) < Remaining(p)
    ensures q.c == p.c.up && Length(p.c) == Length(q.c) + 1 && !q.counted
    ensures p.c.InLeft? ==> node.parent.left == node && q.state == FWS_R
    ensures p.c.InRight? ==> node.parent.left != node && node.parent.right == node && q.state == FWS_C
  {
    hide At, Logged, Remaining, Length;
    assert p.s.Fork? by { AtFork(t, root, p, node); }
    AboveLinks(t, root, p, node);
    AboveLogged(p, log);
    q := Above(p);
  }

  lemma Start(t: Tree, root: Fib6Node?)
    requires Represents(t, root)
    ensures root == null ==> Visits(t, 0) == []
    ensures root != null ==> At(t, root, Position(Top, t, FWS_L, false), root)
    ensures root != null ==> t.Fork? && Logged(Position(Top, t, FWS_L, false), [])
    ensures Length(Top) == 0
    ensures Tally([], 0, 0, 0)
  {}

  lemma Finish(t: Tree, root: Fib6Node?, p: Position, node: Fib6Node, log: seq<(Fib6Node, nat)>)
    requires At(t, root, p, node) && Logged(p, log) && node == root
    requires p.state == FWS_C && (p.counted || !p.s.route)
    ensures log == Visits(t, 0) && Length(p.c) == 0
  {
    PlugRepresents(p.c, p.s, root);
  }

  // ----- The totals as recursive sums -------------------------------------------

  ghost function RouteCount(t: Tree): nat {
    match t
    case Empty => 0
    case Fork(_, route, l, r) => RouteCount(l) + RouteCount(r) + if route then 1 else 0
  }

  ghost function DepthSum(t: Tree, depth: nat): nat {
    match t
    case Empty => 0
    case Fork(_, route, l, r) => DepthSum(l, depth + 1) + DepthSum(r, depth + 1) + if route then depth else 0
  }

  ghost function Max(x: nat, y: nat): nat {
    if x < y then y else x
  }

  ghost function Deepest(t: Tree, depth: nat): nat {
    match t
    case Empty => 0
    case Fork(_, route, l, r) =>
      Max(Max(Deepest(l, depth + 1), Deepest(r, depth + 1)), if route then depth else 0)
  }

  lemma NoTotals()
    ensures TotalDepth([]) == 0 && MaxDepth([]) == 0
  {}

  lemma TotalsOfOne(n: Fib6Node, depth: nat)
    ensures TotalDepth([(n, depth)]) == depth && MaxDepth([(n, depth)]) == depth
  {
    assert [(n, depth)][..0] == [];
  }

  lemma {:induction false} TotalsConcat(v: seq<(Fib6Node, nat)>, w: seq<(Fib6Node, nat)>)
    ensures TotalDepth(v + w) == TotalDepth(v) + TotalDepth(w)
    ensures MaxDepth(v + w) == Max(MaxDepth(v), MaxDepth(w))
    decreases |w|
  {
    if w == [] {
      assert v + w == v;
    } else {
      TotalsConcat(v, w[..|w| - 1]);
      assert (v + w)[..|v + w| - 1] == v + w[..|w| - 1];
    }
  }

  /** Count, total and maximum of what is visited are the sums and the maximum over the
    * two subtrees and the node itself.
    */
  lemma {:induction false} TotalsAreRecursive(t: Tree, depth: nat)
    ensures var v := Visits(t, depth);
      |v| == RouteCount(t) && TotalDepth(v) == DepthSum(t, depth) && MaxDepth(v) == Deepest(t, depth)
    decreases t
  {
    hide TotalDepth, MaxDepth;
    NoTotals();
    if t.Fork? {
      var l, r := Visits(t.left, depth + 1), Visits(t.right, depth + 1);
      TotalsAreRecursive(t.left, depth + 1);
      TotalsAreRecursive(t.right, depth + 1);
      TotalsConcat(l, r);
      if t.route {
        TotalsConcat(l + r, [(t.node, depth)]);
        TotalsOfOne(t.node, depth);
      } else {
        assert l + r + [] == l + r;
      }
    }
  }

  // ----- The report -------------------------------------------------------------

  lemma TenTimes(x: nat)
    ensures x % WORD64 * 10 % WORD64 == x * 10 % WORD64
  {
    DivMod(x, WORD64);
    AddMultiple(x / WORD64 * 10, x % WORD64 * 10, WORD64);
  }

  lemma LowWord(x: nat)
    requires x >= WORD64
    ensures x % WORD64 + WORD64 <= x
  {}

  lemma Reported(total: nat, n: nat)
    requires 0 < n < BASE
    ensures n % BASE == n
    ensures var reported := total % WORD64 * 10 % WORD64 / n;
      && reported <= total * 10 / n
      && (reported == total * 10 / n <==> total * 10 < WORD64)
  {
    TenTimes(total);
    Below32(n);
    var low := total * 10 % WORD64;
    ModAtMost(total * 10, WORD64);
    QuotientMonotone(low, total * 10, n);
    if total * 10 >= WORD64 {
      LowWord(total * 10);
      QuotientGap(low, total * 10, n);
    } else {
      Below(total * 10);
    }
  }

  lemma TenfoldMean(total: nat, n: nat, m: nat)
    requires 0 < n && total <= n * m
    ensures total * 10 / n <= m * 10
  {
    Distribute(m * 10, 1, n);
    assert m * 10 * n == n * m * 10;
    DivBelow(total * 10, n, m * 10 + 1);
  }

  lemma {:induction false} TotalWithinMax(v: seq<(Fib6Node, nat)>)
    ensures TotalDepth(v) <= |v| * MaxDepth(v)
  {
    if v != [] {
      var w := v[..|v| - 1];
      TotalWithinMax(w);
      Multiply(|w|, MaxDepth(w), MaxDepth(v));
      Distribute(|w|, 1, MaxDepth(v));
    }
  }

  /** For fewer than 2^32 counted nodes, ten times the mean depth, rounded down, is
    * reported exactly when ten times the total depth fits 64 bits; what is reported
    * never exceeds ten times the maximum depth. A 128-bit key gives depths of at most
    * 128, and then it always fits.
    */
  lemma ReportIsExact(t: Tree)
    requires 0 < RouteCount(t) < BASE
    ensures var reported, total := ReportedAverage(Visits(t, 0)), DepthSum(t, 0);
      && (reported == total * 10 / RouteCount(t) <==> total * 10 < WORD64)
      && reported <= Deepest(t, 0) * 10
      && (Deepest(t, 0) <= 128 ==> total * 10 < WORD64)
  {
    hide TotalDepth, MaxDepth, Visits, DepthSum, RouteCount, Deepest;
    var v := Visits(t, 0);
    TotalsAreRecursive(t, 0);
    TotalWithinMax(v);
    Reported(TotalDepth(v), |v|);
    TenfoldMean(TotalDepth(v), |v|, MaxDepth(v));
    if MaxDepth(v) <= 128 {
      Multiply(|v|, MaxDepth(v), 128);
    }
  }

  // ----- The loop ---------------------------------------------------------------

  /** `log` records each node at the moment it is counted, with the value of the
    * variable `depth` at that moment. What is reported are the maximum depth of the
    * routes of the tree, and ten times their mean depth when nothing wraps.
    */
  method CollectDepth(root: Fib6Node?, ghost t: Tree)
    returns (avgdepth: nat, maxdepth: nat, ghost log: seq<(Fib6Node, nat)>)
    requires Represents(t, root)
    ensures log == Visits(t, 0)
    ensures maxdepth == MaxDepth(Visits(t, 0))
    ensures avgdepth == ReportedAverage(Visits(t, 0))
    ensures maxdepth == Deepest(t, 0)
    ensures 0 < RouteCount(t) < BASE ==>
      && (avgdepth == DepthSum(t, 0) * 10 / RouteCount(t) <==> DepthSum(t, 0) * 10 < WORD64)
      && avgdepth <= maxdepth * 10
  {
    hide Represents, Plug, Length, Before, Inside, Logged, Remaining, Pending, PendingAbove,
         TotalDepth, MaxDepth, ReportedAverage, Tally, Visits, Size, RouteCount, DepthSum, Deepest;
    Start(t, root);
    var node, leaf: Route? := root, null;
    var depth: nat, totdepth: nat, count: nat := 0, 0, 0;
    var state := FWS_L;
    maxdepth, avgdepth, log := 0, 0, [];
    ghost var p := Position(Top, t, FWS_L, false);
    while node != null
      invariant node == null ==> log == Visits(t, 0)
      invariant node != null ==> At(t, root, p, node) && Logged(p, log)
      invariant depth == Length(p.c) && state == p.state && state != FWS_U
      invariant node != null && state == FWS_C ==> leaf == if p.counted then null else node.leaf
      invariant Tally(log, totdepth, count, maxdepth)
      decreases if node == null then 0 else Remaining(p)
    {
      var fn := node;
      Here(t, root, p, node, log);
      p := Acts(p);
      if state == FWS_L {
        if fn.left != null {
          p := GoLeft(t, root, p, node, log);
          node, depth, state := fn.left, depth + 1, FWS_L;
          continue;
        }
        state := FWS_R;
      }
      if state == FWS_R {
        if fn.right != null {
          p := GoRight(t, root, p, node, log);
          node, depth, state := fn.right, depth + 1, FWS_L;
          continue;
        }
        state, leaf := FWS_C, fn.leaf;
      }
      if state == FWS_C {
        if leaf != null && fn.rtinfo {
          CountNode(p, log);
          TallyOne(log, totdepth, count, maxdepth, fn, depth);
          log, p := log + [(fn, depth)], p.(counted := true);
          totdepth := (totdepth + depth) % WORD64;
          count := (count + 1) % BASE;
          if depth > maxdepth {
            maxdepth := depth;
          }
          leaf := null;
          continue;
        }
        state := FWS_U;
      }
      if fn == root {
        Finish(t, root, p, node, log);
        assert depth == 0;
        break;
      }
      p := GoUp(t, root, p, node, log);
      var pn := fn.parent;
      node, depth := pn, depth - 1;
      if pn.left == fn {
        state := FWS_R;
        continue;
      }
      if pn.right == fn {
        state, leaf := FWS_C, node.leaf;
        continue;
      }
      assert false;
    }
    TallyReport(log, totdepth, count, maxdepth);
    if count > 0 {
      avgdepth := totdepth * 10 % WORD64 / count;
    }
    TotalsAreRecursive(t, 0);
    if 0 < RouteCount(t) < BASE {
      ReportIsExact(t);
    }
  }

  // ----- What the walk counts ---------------------------------------------------

  /** Where a path of turns (true is right) leads. */
  ghost function Follow(t: Tree, path: seq<bool>): Tree {
    if path == [] || t.Empty? then t
    else Follow(if path[0] then t.right else t.left, path[1..])
  }

  /** `path` leads from the root of `t` to the node `n`. */
  ghost predicate Leads(t: Tree, path: seq<bool>, n: Fib6Node) {
    var s := Follow(t, path);
    s.Fork? && s.node == n
  }

  ghost predicate Distinct(v: seq<(Fib6Node, nat)>) {
    forall i, j :: 0 <= i < j < |v| ==> v[i].0 != v[j].0
  }

  /** The nodes in the log, as a set. */
  ghost function Visited(v: seq<(Fib6Node, nat)>): set<Fib6Node> {
    set i | 0 <= i < |v| :: v[i].0
  }

  lemma DistinctConcat(v: seq<(Fib6Node, nat)>, w: seq<(Fib6Node, nat)>)
    requires Distinct(v) && Distinct(w) && Visited(v) !! Visited(w)
    ensures Distinct(v + w)
  {
    forall i, j | 0 <= i < |v| && 0 <= j < |w|
      ensures v[i].0 != w[j].0
    {
      assert v[i].0 in Visited(v) && w[j].0 in Visited(w);
    }
  }

  lemma VisitedConcat(v: seq<(Fib6Node, nat)>, w: seq<(Fib6Node, nat)>)
    ensures Visited(v + w) == Visited(v) + Visited(w)
  {
    forall n | n in Visited(w)
      ensures n in Visited(v + w)
    {
      var i :| 0 <= i < |w| && w[i].0 == n;
      assert (v + w)[|v| + i].0 == n;
    }
    forall n | n in Visited(v)
      ensures n in Visited(v + w)
    {
      var i :| 0 <= i < |v| && v[i].0 == n;
      assert (v + w)[i].0 == n;
    }
  }

  lemma {:induction false} VisitedAre(t: Tree, root: Fib6Node?, depth: nat)
    requires Represents(t, root)
    ensures Visited(Visits(t, depth)) == set n | n in Nodes(t) && n.Carries()
    decreases t
  {
    if t.Fork? {
      VisitedAre(t.left, root.left, depth + 1);
      VisitedAre(t.right, root.right, depth + 1);
      var l, r := Visits(t.left, depth + 1), Visits(t.right, depth + 1);
      VisitedConcat(l, r);
      VisitedConcat(l + r, if t.route then [(t.node, depth)] else []);
      assert t.route ==> Visited([(t.node, depth)]) == {t.node} by {
        assert [(t.node, depth)][0].0 == t.node;
      }
    }
  }

  /** Every node carrying a route is counted exactly once, and nothing else is. */
  lemma {:induction false} CountedExactlyOnce(t: Tree, root: Fib6Node?, depth: nat)
    requires Represents(t, root)
    ensures Distinct(Visits(t, depth))
    ensures Visited(Visits(t, depth)) == set n | n in Nodes(t) && n.Carries()
    decreases t
  {
    VisitedAre(t, root, depth);
    if t.Fork? {
      CountedExactlyOnce(t.left, root.left, depth + 1);
      CountedExactlyOnce(t.right, root.right, depth + 1);
      var l, r := Visits(t.left, depth + 1), Visits(t.right, depth + 1);
      VisitedConcat(l, r);
      DistinctConcat(l, r);
      DistinctConcat(l + r, if t.route then [(t.node, depth)] else []);
    }
  }

  /** In which part of the tree the `i`-th visit is. */
  lemma VisitAt(t: Tree, root: Fib6Node?, depth: nat, i: nat)
    requires Represents(t, root) && i < |Visits(t, depth)|
    ensures t.Fork? && root == t.node && Represents(t.left, root.left) && Represents(t.right, root.right)
    ensures var v, l, r := Visits(t, depth), Visits(t.left, depth + 1), Visits(t.right, depth + 1);
      && (v[i].0 == t.node ==> v[i].1 == depth)
      && (v[i].0 in Nodes(t.left) ==> i < |l| && v[i] == l[i])
      && (v[i].0 in Nodes(t.right) ==> |l| <= i < |l| + |r| && v[i] == r[i - |l|])
  {
    var l, r := Visits(t.left, depth + 1), Visits(t.right, depth + 1);
    VisitedAre(t.left, root.left, depth + 1);
    VisitedAre(t.right, root.right, depth + 1);
    assert i < |l| ==> l[i].0 in Visited(l);
    assert |l| <= i < |l| + |r| ==> r[i - |l|].0 in Visited(r);
  }

  lemma {:induction false} FollowStaysInside(t: Tree, path: seq<bool>)
    ensures Follow(t, path).Fork? ==> Follow(t, path).node in Nodes(t)
    decreases path
  {
    if path != [] && t.Fork? {
      FollowStaysInside(if path[0] then t.right else t.left, path[1..]);
    }
  }

  /** The depth recorded for a node is the length of every path that leads to it. */
  lemma {:induction false} CountedAtTrueDepth(t: Tree, root: Fib6Node?, depth: nat, path: seq<bool>, i: nat)
    requires Represents(t, root) && i < |Visits(t, depth)|
    requires Leads(t, path, Visits(t, depth)[i].0)
    ensures Visits(t, depth)[i].1 == depth + |path|
    decreases t
  {
    hide Visits, Nodes, Represents;
    VisitAt(t, root, depth, i);
    var l := |Visits(t.left, depth + 1)|;
    if path != [] {
      FollowStaysInside(if path[0] then t.right else t.left, path[1..]);
      if path[0] {
        CountedAtTrueDepth(t.right, root.right, depth + 1, path[1..], i - l);
      } else {
        CountedAtTrueDepth(t.left, root.left, depth + 1, path[1..], i);
      }
    }
  }

  /** Every node of the tree is reached by some path, so the depths above are not
    * about an empty set of paths.
    */
  lemma {:induction false} EveryNodeIsReached(t: Tree, n: Fib6Node)
    requires n in Nodes(t)
    ensures exists path :: Leads(t, path, n)
    decreases t
  {
    if n == t.node {
      assert Leads(t, [], n);
    } else {
      var right := n !in Nodes(t.left);
      EveryNodeIsReached(if right then t.right else t.left, n);
      var path :| Leads(if right then t.right else t.left, path, n);
      assert ([right] + path)[1..] == path;
      assert Leads(t, [right] + path, n);
    }
  }
}
