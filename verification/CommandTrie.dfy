/** The terminal's command tree: heap nodes with a token map each, abstracted to a
    prefix-closed map from token paths to commands. */
module CommandTrie {
  import opened Octets
  import opened Permutations

  type Token = string
  type Path = seq<Token>

  /** A handler is known by a number; None is an empty boost::function. */
  datatype Command = Command(handler: Option<int>, name: string, usage: string, desc: string)

  type View = map<Path, Command>

  // ---- The abstract command map ----

  function Child(p: Path, t: Token): Path { p + [t] }

  function Parent(p: Path): Path
    requires p != []
  {
    p[..|p| - 1]
  }

  ghost predicate PrefixClosed(paths: set<Path>) {
    [] in paths && forall p :: p in paths && p != [] ==> Parent(p) in paths
  }

  /** The placeholder BindCommand creates for a path that is only passed through. */
  function Interior(p: Path): Command
    requires p != []
  {
    Command(None, p[|p| - 1], "", "")
  }

  /** The path has no handler yet, so it may be bound. */
  predicate Free(v: View, p: Path) {
    p in v ==> v[p].handler.None?
  }

  ghost function Prefixes(path: Path): set<Path> {
    set k | 0 <= k <= |path| :: path[..k]
  }

  /** Every node on the way to path exists, the missing ones as placeholders. */
  ghost function Through(v: View, path: Path): View
    requires [] in v
  {
    map p | p in v.Keys + Prefixes(path) :: if p in v then v[p] else Interior(p)
  }

  ghost function BindSpec(v: View, path: Path, cmd: Command): View
    requires [] in v
  {
    Through(v, path)[path := cmd]
  }

  /** The length of the longest prefix of tokens[..k] that is a path of the map. */
  function Longest(v: View, tokens: Path, k: nat): (r: nat)
    requires k <= |tokens| && [] in v
    ensures r <= k && tokens[..r] in v
    ensures forall j :: r < j <= k ==> tokens[..j] !in v
  {
    if tokens[..k] in v then k
    else
      assert tokens[..0] == [];
      Longest(v, tokens, k - 1)
  }

  datatype Dispatch = Ignored | Call(handler: int, args: seq<Token>) | ListSubcommands(name: string, subs: set<Token>)

  function Subcommands(v: View, path: Path): set<Token> {
    set p | p in v && |p| == |path| + 1 && p[..|path|] == path :: p[|path|]
  }

  function DispatchSpec(v: View, tokens: Path): Dispatch
    requires [] in v
  {
    if tokens == [] then Ignored
    else
      var k := Longest(v, tokens, |tokens|);
      var c := v[tokens[..k]];
      if c.handler.Some? then Call(c.handler.value, tokens[k..])
      else ListSubcommands(c.name, Subcommands(v, tokens[..k]))
  }

  // ---- The nodes ----

  /** The children of the node at p are exactly the nodes one token further down. */
  ghost predicate LinkedAt(nodes: map<Path, TokenNode>, p: Path)
    requires p in nodes
    reads nodes[p]
  {
    forall t :: (t in nodes[p].children <==> Child(p, t) in nodes)
             && (t in nodes[p].children ==> nodes[p].children[t] == nodes[Child(p, t)])
  }

  ghost predicate Distinct(nodes: map<Path, TokenNode>) {
    forall p, q :: p in nodes && q in nodes && p != q ==> nodes[p] != nodes[q]
  }

  /** A tree: every node is reached by one path only. */
  ghost predicate Tree(nodes: map<Path, TokenNode>)
    reads nodes.Values
  {
    && PrefixClosed(nodes.Keys)
    && Distinct(nodes)
    && (forall p :: p in nodes ==> LinkedAt(nodes, p))
  }

  ghost function ViewOf(nodes: map<Path, TokenNode>): View
    reads nodes.Values
  {
    map p | p in nodes :: nodes[p].value
  }

  class TokenNode {
    var hasDefault: bool
    var value: Command
    var children: map<Token, TokenNode>

    constructor (v: Command)
      ensures value == v && hasDefault && children == map[]
    {
      value, hasDefault, children := v, true, map[];
    }

    method SetValue(v: Command)
      modifies this`value, this`hasDefault
      ensures value == v && hasDefault
    {
      hasDefault := true;
      value := v;
    }

    /** Never called with a token that is already a child. */
    method AddToken(token: Token, v: Command) returns (n: TokenNode)
      requires token !in children
      modifies this`children
      ensures fresh(n) && n.value == v && n.children == map[]
      ensures children == old(children)[token := n]
    {
      n := new TokenNode(v);
      children := children[token := n];
    }

    /** Walks down as far as the tokens lead and returns the tokens left over. */
    method FindNode(tokens: Path, ghost nodes: map<Path, TokenNode>, ghost at: Path)
      returns (node: TokenNode, rest: Path)
      requires Tree(nodes) && at in nodes && nodes[at] == this
      ensures |rest| <= |tokens| && rest == tokens[|tokens| - |rest|..]
      ensures var end := at + tokens[..|tokens| - |rest|];
              end in nodes && nodes[end] == node && (rest != [] ==> Child(end, rest[0]) !in nodes)
      decreases |tokens|
    {
      assert LinkedAt(nodes, at);
      assert at + tokens[..0] == at;
      if |tokens| == 0 { return this, tokens; }
      if tokens[0] !in children { return this, tokens; }
      ghost var down := Child(at, tokens[0]);
      node, rest := children[tokens[0]].FindNode(tokens[1..], nodes, down);
      assert down + tokens[1..][..|tokens| - 1 - |rest|] == at + tokens[..|tokens| - |rest|];
    }
  }

  lemma NewValue(nodes: map<Path, TokenNode>, p: Path, n: TokenNode)
    requires p !in nodes
    ensures nodes[p := n].Values == nodes.Values + {n}
  {
    var more := nodes[p := n];
    forall v | v in nodes.Values ensures v in more.Values {
      var q :| q in nodes && nodes[q] == v;
      assert more[q] == v;
    }
    assert more[p] == n;
  }

  lemma {:induction false} AbsentBelow(v: set<Path>, p: Path, q: Path)
    requires PrefixClosed(v) && p !in v && p <= q
    ensures q !in v
    decreases |q|
  {
    if p != q {
      AbsentBelow(v, p, Parent(q));
    }
  }

  lemma AbsentChild(v: set<Path>, p: Path, t: Token)
    requires PrefixClosed(v) && p !in v
    ensures Child(p, t) !in v && Child(p, t) != p
  {
    assert Parent(Child(p, t)) == p;
  }

  lemma OneDown(p: Path, tokens: Path)
    requires tokens != []
    ensures Child(p, tokens[0]) + tokens[1..] == p + tokens
  {
  }

  /** Any prefix that is present and whose next token leads nowhere is the longest one. */
  lemma LongestUnique(v: View, tokens: Path, k: nat)
    requires PrefixClosed(v.Keys) && k <= |tokens| && tokens[..k] in v
    requires k < |tokens| ==> tokens[..k + 1] !in v
    ensures Longest(v, tokens, |tokens|) == k
  {
    var r := Longest(v, tokens, |tokens|);
    if r > k { AbsentBelow(v.Keys, tokens[..k + 1], tokens[..r]); }
  }

  lemma NextPrefix(line: Path, k: nat)
    requires k < |line|
    ensures line[..k + 1] == Child(line[..k], line[k])
  {
  }

  lemma NothingIgnored(v: View)
    requires [] in v
    ensures DispatchSpec(v, []) == Ignored
  {
  }

  /** A line is answered by the node its tokens lead to: the handler gets the tokens left
      over; a node without one has its subcommands listed, whatever is left over. */
  lemma DispatchAt(v: View, line: Path, k: nat)
    requires [] in v && PrefixClosed(v.Keys) && line != [] && k <= |line| && line[..k] in v
    requires k < |line| ==> line[..k + 1] !in v
    ensures var c := v[line[..k]];
            DispatchSpec(v, line) == if c.handler.Some? then Call(c.handler.value, line[k..])
                                     else ListSubcommands(c.name, Subcommands(v, line[..k]))
  {
    hide PrefixClosed, Subcommands;
    LongestUnique(v, line, k);
  }

  datatype Bound = Done | AlreadyBound(path: Path)

  /** The command tree of a Terminal. */
  class CommandTable {
    const root: TokenNode
    ghost var nodes: map<Path, TokenNode>

    ghost predicate Valid()
      reads this, nodes.Values
    {
      Tree(nodes) && nodes[[]] == root
    }

    ghost function View(): View
      reads this, nodes.Values
    {
      ViewOf(nodes)
    }

    constructor (default: Command)
      ensures Valid() && fresh(nodes.Values) && View() == map[[] := default]
    {
      root := new TokenNode(default);
      new;
      nodes := map[[] := root];
      assert LinkedAt(nodes, []);
    }

    /** One turn of the loop that creates interior nodes. */
    method Extend(node: TokenNode, token: Token, ghost at: Path) returns (n: TokenNode)
      requires Valid() && at in nodes && nodes[at] == node && Child(at, token) !in nodes
      modifies this`nodes, node`children
      ensures Valid() && fresh(n)
      ensures nodes == old(nodes)[Child(at, token) := n] && nodes.Values == old(nodes.Values) + {n}
      ensures View() == old(View())[Child(at, token) := Interior(Child(at, token))]
    {
      assert LinkedAt(nodes, at);
      ghost var fresh' := Child(at, token);
      ghost var before := nodes;
      n := node.AddToken(token, Command(None, token, "", ""));
      nodes := nodes[fresh' := n];
      NewValue(before, fresh', n);
      assert Parent(fresh') == at;
      forall p | p in nodes ensures LinkedAt(nodes, p) {
        if p == fresh' {
          forall t ensures Child(p, t) !in nodes { assert Parent(Child(p, t)) == fresh'; }
        } else {
          assert old(LinkedAt(before, p));
          forall t ensures Child(p, t) == fresh' <==> p == at && t == token {
            assert Parent(Child(p, t)) == p && Child(p, t)[|p|] == t;
          }
        }
      }
    }

    method SetAt(node: TokenNode, cmd: Command, ghost at: Path)
      requires Valid() && at in nodes && nodes[at] == node
      modifies node`value, node`hasDefault
      ensures Valid() && View() == old(View())[at := cmd]
    {
      node.SetValue(cmd);
      forall p | p in nodes ensures LinkedAt(nodes, p) {
        assert old(LinkedAt(nodes, p));
      }
    }

    lemma ViewPaths()
      requires Valid()
      ensures View().Keys == nodes.Keys && PrefixClosed(nodes.Keys) && [] in nodes
    {
    }

    lemma ViewAt(path: Path)
      requires Valid() && path in nodes
      ensures path in View() && View()[path] == nodes[path].value
    {
    }

    /** What one more node does, before it is made. */
    lemma OneMore(before: View, at: Path, tokens: Path)
      requires Valid() && [] in before && View() == Through(before, at)
      requires tokens != [] && Child(at, tokens[0]) !in nodes
      ensures var child := Child(at, tokens[0]);
              && View()[child := Interior(child)] == Through(before, child)
              && child + tokens[1..] == at + tokens
              && (|tokens| > 1 ==> Child(child, tokens[1]) !in nodes && Child(child, tokens[1]) != child)
    {
      hide *;
      ViewPaths();
      ThroughKeeps(before, at);
      ThroughStep(before, at, tokens[0]);
      OneDown(at, tokens);
      if |tokens| > 1 { AbsentChild(nodes.Keys, Child(at, tokens[0]), tokens[1]); }
    }

    /** The loop of BindCommand: creates the nodes for the tokens left over. */
    method CreateInterior(start: TokenNode, rest: Path, ghost from: Path) returns (node: TokenNode)
      requires Valid() && from in nodes && nodes[from] == start
      requires rest != [] ==> Child(from, rest[0]) !in nodes
      modifies this`nodes, nodes.Values
      ensures Valid() && fresh(nodes.Values - old(nodes.Values))
      ensures from + rest in nodes && nodes[from + rest] == node
      ensures View() == Through(old(View()), from + rest)
    {
      hide *;
      ghost var before := View();
      ViewPaths();
      ThroughPresent(before, from);
      var tokens := rest;
      ghost var at := from;
      node := start;
      while |tokens| > 0
        invariant Valid() && at in nodes && nodes[at] == node && at + tokens == from + rest
        invariant fresh(nodes.Values - old(nodes.Values))
        invariant tokens != [] ==> Child(at, tokens[0]) !in nodes
        invariant View() == Through(before, at)
        decreases |tokens|
      {
        ghost var child := Child(at, tokens[0]);
        OneMore(before, at, tokens);
        node := Extend(node, tokens[0], at);
        at := child;
        tokens := tokens[1..];
      }
      assert at + [] == at;
    }

    /** Binds a command, or reports that the path already has a handler. */
    method BindCommand(path: Path, cmd: Command) returns (r: Bound)
      requires Valid()
      modifies this`nodes, nodes.Values
      ensures Valid() && fresh(nodes.Values - old(nodes.Values))
      ensures r == if Free(old(View()), path) then Done else AlreadyBound(path)
      ensures View() == if r.Done? then BindSpec(old(View()), path, cmd) else old(View())
    {
      hide Tree, PrefixClosed, LinkedAt, Distinct, ViewOf, Prefixes;
      ghost var before := View();
      ViewPaths();
      assert [] + path == path;
      var node, tokens := root.FindNode(path, nodes, []);
      ghost var end := [] + path[..|path| - |tokens|];
      assert end + tokens == path;
      node := CreateInterior(node, tokens, end);
      ViewAt(path);
      assert path !in before ==> node.value == Interior(path);
      if node.value.handler.Some? {
        ThroughPresent(before, path);
        return AlreadyBound(path);
      }
      SetAt(node, cmd, path);
      r := Done;
    }

    /** A run of registrations, as the constructor and the extensions make it; the first
        refusal throws and ends the run, and what was registered before it stays. */
    method RegisterAll(regs: seq<Registration>) returns (done: nat)
      requires Valid()
      modifies this`nodes, nodes.Values
      ensures Valid() && fresh(nodes.Values - old(nodes.Values))
      ensures done <= |regs| && BindAll(old(View()), regs[..done]) == Some(View())
      ensures done < |regs| ==> !Free(View(), regs[done].path)
      ensures done == |regs| <==> BindAll(old(View()), regs).Some?
    {
      hide Tree, ViewOf, BindAll, BindSpec, Free;
      ghost var start := View();
      ViewPaths();
      done := 0;
      NothingBound(start, regs);
      while done < |regs|
        invariant Valid() && fresh(nodes.Values - old(nodes.Values))
        invariant done <= |regs| && BindAll(start, regs[..done]) == Some(View())
      {
        BindNext(start, regs, done);
        var r := BindCommand(regs[done].path, regs[done].cmd);
        if !r.Done? { return; }
        done := done + 1;
      }
      assert regs[..|regs|] == regs;
    }

    /** Routes the tokens of an input line. */
    method ProcessLine(line: Path) returns (d: Dispatch)
      requires Valid()
      ensures d == DispatchSpec(View(), line)
    {
      hide Tree, PrefixClosed, LinkedAt, Distinct, ViewOf, DispatchSpec, Subcommands, Longest, Child;
      if |line| == 0 {
        ViewPaths();
        NothingIgnored(View());
        return Ignored;
      }
      ViewPaths();
      assert [] + line == line;
      var node, tokens := root.FindNode(line, nodes, []);
      ghost var end := line[..|line| - |tokens|];
      assert [] + end == end;
      if tokens != [] { NextPrefix(line, |end|); }
      ViewAt(end);
      DispatchAt(View(), line, |end|);
      if node.value.handler.Some? { return Call(node.value.handler.value, tokens); }
      ChildrenAreSubcommands(nodes, end);
      d := ListSubcommands(node.value.name, node.children.Keys);
    }
  }

  lemma ChildrenAreSubcommands(nodes: map<Path, TokenNode>, p: Path)
    requires Tree(nodes) && p in nodes
    ensures nodes[p].children.Keys == Subcommands(ViewOf(nodes), p)
  {
    assert LinkedAt(nodes, p);
    forall t ensures t in nodes[p].children <==> t in Subcommands(ViewOf(nodes), p) {
      assert Child(p, t)[|p|] == t && Child(p, t)[..|p|] == p;
      if t in Subcommands(ViewOf(nodes), p) {
        var q :| q in nodes && |q| == |p| + 1 && q[..|p|] == p && q[|p|] == t;
        assert q == Child(p, t);
      }
    }
  }

  // ---- Runs of registrations ----

  datatype Registration = Registration(path: Path, cmd: Command)

  /** Binding in order; None when some registration is refused. */
  ghost function BindAll(v: View, regs: seq<Registration>): Option<View>
    requires [] in v
    decreases |regs|
  {
    if regs == [] then Some(v)
    else if !Free(v, regs[0].path) then None
    else BindAll(BindSpec(v, regs[0].path, regs[0].cmd), regs[1..])
  }

  lemma {:induction false} BindAllAppend(v: View, a: seq<Registration>, b: seq<Registration>)
    requires [] in v
    ensures BindAll(v, a).Some? ==> [] in BindAll(v, a).value
    ensures BindAll(v, a + b) == if BindAll(v, a).None? then None else BindAll(BindAll(v, a).value, b)
    decreases |a|
  {
    if a == [] {
      assert a + b == b;
    } else {
      assert (a + b)[1..] == a[1..] + b;
      if Free(v, a[0].path) { BindAllAppend(BindSpec(v, a[0].path, a[0].cmd), a[1..], b); }
    }
  }

  lemma NothingBound(v: View, regs: seq<Registration>)
    requires [] in v
    ensures BindAll(v, regs[..0]) == Some(v)
  {
  }

  /** The next registration decides how the run goes on. */
  lemma BindNext(v: View, regs: seq<Registration>, k: nat)
    requires [] in v && k < |regs| && BindAll(v, regs[..k]).Some?
    ensures var now, reg := BindAll(v, regs[..k]).value, regs[k];
            && [] in now
            && (if Free(now, reg.path) then BindAll(v, regs[..k + 1]) == Some(BindSpec(now, reg.path, reg.cmd))
                else BindAll(v, regs).None?)
  {
    hide Free, BindSpec;
    var reg := regs[k];
    assert regs == regs[..k] + regs[k..] && regs[k..][0] == reg;
    BindAllAppend(v, regs[..k], regs[k..]);
    assert regs[..k + 1] == regs[..k] + [reg] && [reg][1..] == [];
    BindAllAppend(v, regs[..k], [reg]);
  }

  ghost predicate DistinctPaths(regs: seq<Registration>) {
    forall i, j :: 0 <= i < j < |regs| ==> regs[i].path != regs[j].path
  }

  ghost predicate Bindable(v: View, regs: seq<Registration>) {
    DistinctPaths(regs) && forall r <- regs :: Free(v, r.path)
  }

  ghost predicate AllHandled(regs: seq<Registration>) {
    forall r <- regs :: r.cmd.handler.Some?
  }

  lemma BindKeepsPrefixClosed(v: View, path: Path, cmd: Command)
    requires PrefixClosed(v.Keys)
    ensures PrefixClosed(BindSpec(v, path, cmd).Keys)
  {
    var w := BindSpec(v, path, cmd);
    forall p | p in w && p != [] ensures Parent(p) in w {
      if p !in v {
        var k :| 0 <= k <= |path| && p == path[..k];
        assert Parent(p) == path[..k - 1];
      }
    }
  }

  /** Commands with handlers bind without a refusal exactly when no path is bound twice
      and none was bound before. */
  lemma {:induction false} BindAllSucceeds(v: View, regs: seq<Registration>)
    requires [] in v && AllHandled(regs)
    ensures BindAll(v, regs).Some? <==> Bindable(v, regs)
    decreases |regs|
  {
    if regs != [] {
      var r, rest := regs[0], regs[1..];
      assert r in regs;
      if Free(v, r.path) {
        BindAllSucceeds(BindSpec(v, r.path, r.cmd), rest);
        BindableStep(v, regs);
      }
    }
  }

  lemma BindableStep(v: View, regs: seq<Registration>)
    requires [] in v && regs != [] && Free(v, regs[0].path) && regs[0].cmd.handler.Some?
    ensures Bindable(v, regs) <==> Bindable(BindSpec(v, regs[0].path, regs[0].cmd), regs[1..])
  {
    var r, rest := regs[0], regs[1..];
    var w := BindSpec(v, r.path, r.cmd);
    assert forall p :: Free(w, p) <==> p != r.path && Free(v, p);
    assert regs == [r] + rest;
    assert forall i :: 0 <= i < |rest| ==> rest[i] == regs[i + 1] && rest[i] in rest;
  }

  /** Two registrations of different paths commute. */
  lemma BindCommutes(v: View, a: Registration, b: Registration)
    requires [] in v && a.path != b.path
    ensures BindSpec(BindSpec(v, a.path, a.cmd), b.path, b.cmd) == BindSpec(BindSpec(v, b.path, b.cmd), a.path, a.cmd)
  {
  }

  lemma {:induction false} BindLater(v: View, pre: seq<Registration>, r: Registration, post: seq<Registration>)
    requires [] in v && forall q <- pre :: q.path != r.path
    ensures BindAll(v, pre + [r] + post) == BindAll(v, [r] + pre + post)
    decreases |pre|
  {
    if pre != [] {
      var q, rest := pre[0], pre[1..];
      assert q in pre;
      var w := BindSpec(v, q.path, q.cmd);
      assert (pre + [r] + post)[1..] == rest + [r] + post;
      assert ([r] + pre + post)[1..] == [q] + rest + post;
      assert ([q] + rest + post)[1..] == rest + post == ([r] + rest + post)[1..];
      BindLater(w, rest, r, post);
      BindCommutes(v, q, r);
    } else {
      assert pre + [r] + post == [r] + pre + post;
    }
  }

  lemma DistinctTransfers(a: seq<Registration>, b: seq<Registration>)
    requires DistinctPaths(a) && multiset(a) == multiset(b)
    ensures DistinctPaths(b)
  {
    forall i, j | 0 <= i < j < |b| ensures b[i].path != b[j].path {
      var k, m := TwoPositions(a, b, i, j);
    }
  }

  /** The order in which distinct commands are registered does not matter: neither to
      whether all are accepted nor to the tree they leave. */
  lemma {:induction false} OrderIndependence(v: View, a: seq<Registration>, b: seq<Registration>)
    requires [] in v && DistinctPaths(a) && multiset(a) == multiset(b)
    ensures BindAll(v, a) == BindAll(v, b)
    decreases |a|
  {
    if a == [] {
      assert |multiset(b)| == 0;
    } else {
      var r := a[0];
      var j := FindFirst(a, b);
      assert b == b[..j] + [r] + b[j + 1..];
      DistinctTransfers(a, b);
      assert forall q <- b[..j] :: q.path != r.path;
      BindLater(v, b[..j], r, b[j + 1..]);
      assert ([r] + b[..j] + b[j + 1..])[1..] == Without(b, j);
      assert DistinctPaths(a[1..]) by {
        assert forall i :: 0 <= i < |a[1..]| ==> a[1..][i] == a[i + 1];
      }
      if Free(v, r.path) {
        OrderIndependence(BindSpec(v, r.path, r.cmd), a[1..], Without(b, j));
      }
    }
  }

  lemma {:induction false} BindAllStores(v: View, regs: seq<Registration>, i: nat)
    requires PrefixClosed(v.Keys) && BindAll(v, regs).Some? && DistinctPaths(regs) && i < |regs|
    ensures var w := BindAll(v, regs).value;
            PrefixClosed(w.Keys) && regs[i].path in w && w[regs[i].path] == regs[i].cmd
    decreases |regs|
  {
    var r, rest := regs[0], regs[1..];
    var u := BindSpec(v, r.path, r.cmd);
    BindKeepsPrefixClosed(v, r.path, r.cmd);
    BindAllKeepsOthers(u, rest, r.path);
    if i > 0 {
      assert rest[i - 1] == regs[i];
      BindAllStores(u, rest, i - 1);
    }
  }

  lemma {:induction false} BindAllKeepsOthers(v: View, regs: seq<Registration>, p: Path)
    requires PrefixClosed(v.Keys) && BindAll(v, regs).Some? && p in v
    requires forall r <- regs :: r.path != p
    ensures var w := BindAll(v, regs).value; PrefixClosed(w.Keys) && p in w && w[p] == v[p]
    decreases |regs|
  {
    if regs != [] {
      BindKeepsPrefixClosed(v, regs[0].path, regs[0].cmd);
      assert regs[0] in regs;
      BindAllKeepsOthers(BindSpec(v, regs[0].path, regs[0].cmd), regs[1..], p);
    }
  }

  ghost predicate OnTheWay(regs: seq<Registration>, p: Path) {
    exists r <- regs :: p <= r.path
  }

  /** The tree a run of distinct registrations leaves: the nodes there were and those on the
      way to the registered paths; each registered path holds its command, every other node
      what it held, and a new one just its own name. */
  lemma {:induction false} BindAllView(v: View, regs: seq<Registration>, p: Path)
    requires [] in v && BindAll(v, regs).Some? && DistinctPaths(regs)
    ensures var w := BindAll(v, regs).value;
            && (p in w <==> p in v || OnTheWay(regs, p))
            && (p in w ==> if exists r <- regs :: r.path == p then exists r <- regs :: r.path == p && w[p] == r.cmd
                           else if p in v then w[p] == v[p]
                           else p != [] && w[p] == Command(None, p[|p| - 1], "", ""))
    decreases |regs|
  {
    if regs != [] {
      var r, rest := regs[0], regs[1..];
      var u := BindSpec(v, r.path, r.cmd);
      assert regs == [r] + rest;
      assert forall i :: 0 <= i < |rest| ==> rest[i] == regs[i + 1];
      BindAllView(u, rest, p);
      PrefixPlaces(p, r.path);
      assert OnTheWay(regs, p) <==> p <= r.path || OnTheWay(rest, p);
      if p == r.path { assert forall q <- rest :: q.path != p; }
    }
  }

  lemma PrefixPlaces(p: Path, q: Path)
    ensures p in Prefixes(q) <==> p <= q
  {
    if p <= q { assert p == q[..|p|]; }
  }

  /** The subcommands listed are the tokens that lead one node further. */
  lemma SubcommandsAre(v: View, p: Path, t: Token)
    ensures t in Subcommands(v, p) <==> p + [t] in v
  {
    assert (p + [t])[..|p|] == p && (p + [t])[|p|] == t;
    if t in Subcommands(v, p) {
      var q :| q in v && |q| == |p| + 1 && q[..|p|] == p && q[|p|] == t;
      assert q == p + [t];
    }
  }

  /** Once registered, a command is what its own line runs, with exactly the remaining
      tokens as arguments, unless the first argument names a deeper node. */
  lemma RegisteredIsCalled(v: View, regs: seq<Registration>, i: nat, args: seq<Token>)
    requires PrefixClosed(v.Keys) && BindAll(v, regs).Some? && DistinctPaths(regs) && i < |regs|
    requires regs[i].cmd.handler.Some? && regs[i].path != []
    requires args != [] ==> Child(regs[i].path, args[0]) !in BindAll(v, regs).value
    ensures var w := BindAll(v, regs).value;
            [] in w && DispatchSpec(w, regs[i].path + args) == Call(regs[i].cmd.handler.value, args)
  {
    hide BindAll, DispatchSpec, Subcommands, DistinctPaths;
    var w, p := BindAll(v, regs).value, regs[i].path;
    BindAllStores(v, regs, i);
    assert (p + args)[..|p|] == p && (p + args)[|p|..] == args;
    if args != [] { NextPrefix(p + args, |p|); }
    DispatchAt(w, p + args, |p|);
  }

  lemma ThroughPresent(v: View, p: Path)
    requires PrefixClosed(v.Keys) && p in v
    ensures Through(v, p) == v
  {
    forall k | 0 <= k <= |p| ensures p[..k] in v {
      if p[..k] !in v { AbsentBelow(v.Keys, p[..k], p); }
    }
  }

  lemma ThroughKeeps(v: View, p: Path)
    requires [] in v
    ensures v.Keys <= Through(v, p).Keys
  {
  }

  lemma ThroughStep(v: View, p: Path, t: Token)
    requires [] in v && Child(p, t) !in v
    ensures Through(v, Child(p, t)) == Through(v, p)[Child(p, t) := Interior(Child(p, t))]
  {
    var c := Child(p, t);
    assert forall k | 0 <= k <= |p| :: c[..k] == p[..k];
    assert c[..|c|] == c;
    assert Prefixes(c) == Prefixes(p) + {c};
  }
}
