/**
 * The command tree of the gyudon package, read-only part: how a node is
 * found for an argument vector, and how parent links lead to the root.
 *
 * Every *Command the program allocates is a position in an arena (a
 * sequence of nodes); a pointer to a command is its position, and a nil
 * parent pointer is None.
 */
module Tree {
  import opened Wrappers
  import opened Commanders
  import opened Lists
  import opened Specs

  /**
   * One command: its name, its specs, its commander (None for the help
   * node, whose commander is nil), its parent and its subcommands in
   * attachment order.
   */
  datatype Node = Node(name: string, specs: seq<Spec>, commander: Option<Commander>, parent: Option<nat>, children: seq<nat>)

  /** The outcome of FindCommand: the matched node and the arguments it did not consume. */
  datatype Match = Match(node: nat, rest: seq<string>)

  /**
   * The links of an arena are consistent: a parent is allocated before its
   * children, a node is among its parent's subcommands, and every
   * subcommand of a node points back at it.
   */
  predicate WellFormed(nodes: seq<Node>) {
    (forall i :: 0 <= i < |nodes| && nodes[i].parent.Some? ==>
      nodes[i].parent.value < i && i in nodes[nodes[i].parent.value].children)
    && (forall i, k :: 0 <= i < |nodes| && 0 <= k < |nodes[i].children| ==>
      nodes[i].children[k] < |nodes| && nodes[nodes[i].children[k]].parent == Some(i))
  }

  /** The names of c's subcommands, in attachment order. */
  function ChildNames(nodes: seq<Node>, c: nat): (r: seq<string>)
    requires WellFormed(nodes) && c < |nodes|
    ensures |r| == |nodes[c].children|
    ensures forall k :: 0 <= k < |r| ==> r[k] == nodes[nodes[c].children[k]].name
  {
    seq(|nodes[c].children|, k requires 0 <= k < |nodes[c].children| => nodes[nodes[c].children[k]].name)
  }

  /**
   * FindCommand (with its inner innerfind): consume arguments from the
   * front while the next one names a subcommand of the current node, taking
   * the first such subcommand in attachment order. The result is the last
   * node reached and the unconsumed suffix of args.
   */
  function Resolve(nodes: seq<Node>, c: nat, args: seq<string>): (r: Match)
    requires WellFormed(nodes) && c < |nodes|
    ensures r.node < |nodes|
    ensures |r.rest| <= |args| && r.rest == args[|args| - |r.rest|..]
    decreases |args|
  {
    if |args| == 0 then Match(c, args)
    else if |nodes[c].children| == 0 then Match(c, args)
    else match FirstIndex(ChildNames(nodes, c), args[0])
      case Some(k) => Resolve(nodes, nodes[c].children[k], args[1..])
      case None => Match(c, args)
  }

  /**
   * path is a chain of subcommand links spelling toks: it starts somewhere,
   * and each next node is a subcommand of the one before, named by the next
   * token and pointing back at it.
   */
  ghost predicate IsChain(nodes: seq<Node>, path: seq<nat>, toks: seq<string>) {
    |path| == |toks| + 1
    && (forall i :: 0 <= i < |path| ==> path[i] < |nodes|)
    && (forall i :: 0 <= i < |toks| ==>
      path[i + 1] in nodes[path[i]].children && nodes[path[i + 1]].name == toks[i]
      && nodes[path[i + 1]].parent == Some(path[i]))
  }

  /**
   * Following, from c, the first subcommand named by each token in turn:
   * the nodes passed through (c first), or None when a token names no
   * subcommand of the node reached so far.
   */
  function Walk(nodes: seq<Node>, c: nat, toks: seq<string>): (r: Option<seq<nat>>)
    requires WellFormed(nodes) && c < |nodes|
    ensures r.Some? ==> |r.value| == |toks| + 1 && r.value[0] == c
    ensures r.Some? ==> r.value[|toks|] < |nodes|
    decreases |toks|
  {
    if toks == [] then Some([c])
    else match FirstIndex(ChildNames(nodes, c), toks[0])
      case None => None
      case Some(k) =>
        var child := nodes[c].children[k];
        match Walk(nodes, child, toks[1..])
        case None => None
        case Some(p) => Some([c] + p)
  }

  /**
   * A successful walk is a chain: each next node is a subcommand of the one
   * before, named by the next token and pointing back at it.
   */
  lemma {:induction false} WalkIsChain(nodes: seq<Node>, c: nat, toks: seq<string>)
    requires WellFormed(nodes) && c < |nodes|
    ensures Walk(nodes, c, toks).Some? ==> IsChain(nodes, Walk(nodes, c, toks).value, toks)
    decreases |toks|
  {
    if toks != [] {
      match FirstIndex(ChildNames(nodes, c), toks[0])
      case None =>
      case Some(k) =>
        var child := nodes[c].children[k];
        WalkIsChain(nodes, child, toks[1..]);
        if Walk(nodes, child, toks[1..]).Some? {
          ChainCons(nodes, c, k, Walk(nodes, child, toks[1..]).value, toks);
        }
    }
  }

  /** Putting c in front of a chain that starts at c's subcommand named toks[0] gives a chain for toks. */
  lemma ChainCons(nodes: seq<Node>, c: nat, k: nat, p: seq<nat>, toks: seq<string>)
    requires WellFormed(nodes) && c < |nodes| && k < |nodes[c].children| && toks != []
    requires IsChain(nodes, p, toks[1..]) && p[0] == nodes[c].children[k]
    requires nodes[p[0]].name == toks[0]
    ensures IsChain(nodes, [c] + p, toks)
  {
    var q := [c] + p;
    forall i | 0 <= i < |toks|
      ensures q[i + 1] in nodes[q[i]].children && nodes[q[i + 1]].name == toks[i]
        && nodes[q[i + 1]].parent == Some(q[i])
    {
      if i > 0 {
        assert q[i + 1] == p[i] && q[i] == p[i - 1] && toks[i] == toks[1..][i - 1];
      }
    }
  }

  /** Every base case returns c with the arguments untouched: no arguments, or no subcommands. */
  lemma ResolveBase(nodes: seq<Node>, c: nat, args: seq<string>)
    requires WellFormed(nodes) && c < |nodes|
    requires args == [] || nodes[c].children == []
    ensures Resolve(nodes, c, args) == Match(c, args)
  {
  }

  /** When args[0] names some subcommands, resolution continues in the first of them with args[1..]. */
  lemma ResolveDescendsIntoFirstMatch(nodes: seq<Node>, c: nat, args: seq<string>, k: nat)
    requires WellFormed(nodes) && c < |nodes|
    requires args != [] && k < |nodes[c].children| && nodes[nodes[c].children[k]].name == args[0]
    requires forall j :: 0 <= j < k ==> nodes[nodes[c].children[j]].name != args[0]
    ensures Resolve(nodes, c, args) == Resolve(nodes, nodes[c].children[k], args[1..])
  {
    FirstIndexIsFirst(ChildNames(nodes, c), args[0], k);
  }

  /** When args[0] names no subcommand, c is the match and the whole of args, unmatched token included, is left. */
  lemma ResolveStopsAtUnknownToken(nodes: seq<Node>, c: nat, args: seq<string>)
    requires WellFormed(nodes) && c < |nodes|
    requires args != [] && forall k :: 0 <= k < |nodes[c].children| ==> nodes[nodes[c].children[k]].name != args[0]
    ensures Resolve(nodes, c, args) == Match(c, args)
  {
    assert FirstIndex(ChildNames(nodes, c), args[0]).None?;
  }

  /** One step of a walk: the first subcommand named toks[0], then the walk from it over the rest. */
  lemma WalkStep(nodes: seq<Node>, c: nat, k: nat, toks: seq<string>)
    requires WellFormed(nodes) && c < |nodes| && toks != []
    requires FirstIndex(ChildNames(nodes, c), toks[0]) == Some(k)
    requires Walk(nodes, nodes[c].children[k], toks[1..]).Some?
    ensures Walk(nodes, c, toks) == Some([c] + Walk(nodes, nodes[c].children[k], toks[1..]).value)
    ensures Walk(nodes, c, toks).value[|toks|] == Walk(nodes, nodes[c].children[k], toks[1..]).value[|toks| - 1]
  {
  }

  /**
   * What Resolve consumes is a first-match walk from c to the node it
   * returns (a chain, by WalkIsChain): that node is |args| - |rest|
   * subcommand links below c, along names equal to the consumed tokens in
   * order.
   */
  lemma {:induction false} ResolveFollowsWalk(nodes: seq<Node>, c: nat, args: seq<string>)
    requires WellFormed(nodes) && c < |nodes|
    ensures var r := Resolve(nodes, c, args);
      var n := |args| - |r.rest|;
      args == args[..n] + r.rest
      && Walk(nodes, c, args[..n]).Some? && Walk(nodes, c, args[..n]).value[n] == r.node
    decreases |args|, 1
  {
    var r := Resolve(nodes, c, args);
    assert args == args[..|args| - |r.rest|] + r.rest;
    if |args| == 0 || |nodes[c].children| == 0 || FirstIndex(ChildNames(nodes, c), args[0]).None? {
      FollowsWalkStop(nodes, c, args);
    } else {
      FollowsWalkDescend(nodes, c, args);
    }
  }

  /** The walk part of ResolveFollowsWalk: the consumed tokens walk from c to the matched node. */
  ghost predicate WalksToMatch(nodes: seq<Node>, c: nat, args: seq<string>)
    requires WellFormed(nodes) && c < |nodes|
  {
    var r := Resolve(nodes, c, args);
    var n := |args| - |r.rest|;
    Walk(nodes, c, args[..n]).Some? && Walk(nodes, c, args[..n]).value[n] == r.node
  }

  /** The recursive case of ResolveFollowsWalk: args[0] names a subcommand, and the walk from it is extended by one link. */
  lemma {:induction false} FollowsWalkDescend(nodes: seq<Node>, c: nat, args: seq<string>)
    requires WellFormed(nodes) && c < |nodes| && args != [] && nodes[c].children != []
    requires FirstIndex(ChildNames(nodes, c), args[0]).Some?
    ensures WalksToMatch(nodes, c, args)
    decreases |args|, 0
  {
    var k := FirstIndex(ChildNames(nodes, c), args[0]).value;
    var child := nodes[c].children[k];
    var r := Resolve(nodes, c, args);
    assert r == Resolve(nodes, child, args[1..]);
    var n := |args| - |r.rest|;
    ResolveFollowsWalk(nodes, child, args[1..]);
    FollowsWalkStep(nodes, c, k, args, n, r.node);
  }

  /** The base of ResolveFollowsWalk: when Resolve stops at c it consumed nothing, and the empty walk ends at c. */
  lemma FollowsWalkStop(nodes: seq<Node>, c: nat, args: seq<string>)
    requires WellFormed(nodes) && c < |nodes|
    requires Resolve(nodes, c, args) == Match(c, args)
    ensures WalksToMatch(nodes, c, args)
  {
    assert args[..0] == [];
  }

  /** The step of ResolveFollowsWalk: a walk to e from the chosen subcommand over n - 1 tokens of args[1..] extends to one from c over args[..n]. */
  lemma FollowsWalkStep(nodes: seq<Node>, c: nat, k: nat, args: seq<string>, n: nat, e: nat)
    requires WellFormed(nodes) && c < |nodes| && 1 <= n <= |args|
    requires FirstIndex(ChildNames(nodes, c), args[0]) == Some(k)
    requires Walk(nodes, nodes[c].children[k], args[1..][..n - 1]).Some?
    requires Walk(nodes, nodes[c].children[k], args[1..][..n - 1]).value[n - 1] == e
    ensures Walk(nodes, c, args[..n]).Some? && Walk(nodes, c, args[..n]).value[n] == e
  {
    var toks := args[..n];
    assert toks[0] == args[0];
    assert toks[1..] == args[1..][..n - 1];
    WalkStep(nodes, c, k, toks);
  }

  /** Resolution is maximal: the first residual token names no subcommand of the matched node. */
  lemma {:induction false} ResolveIsMaximal(nodes: seq<Node>, c: nat, args: seq<string>)
    requires WellFormed(nodes) && c < |nodes|
    ensures var r := Resolve(nodes, c, args);
      r.rest != [] ==> forall k :: 0 <= k < |nodes[r.node].children| ==> nodes[nodes[r.node].children[k]].name != r.rest[0]
    decreases |args|
  {
    if |args| > 0 && |nodes[c].children| > 0 {
      match FirstIndex(ChildNames(nodes, c), args[0])
      case None =>
      case Some(k) =>
        ResolveIsMaximal(nodes, nodes[c].children[k], args[1..]);
    }
  }

  /**
   * The converse: if the first n tokens walk from c to m and the next token
   * (if any) names no subcommand of m, Resolve returns m and args[n..].
   * With ResolveFollowsWalk and ResolveIsMaximal this characterises Resolve.
   */
  lemma {:induction false} MaximalWalkIsResolve(nodes: seq<Node>, c: nat, args: seq<string>, n: nat)
    requires WellFormed(nodes) && c < |nodes| && n <= |args|
    requires Walk(nodes, c, args[..n]).Some?
    requires var m := Walk(nodes, c, args[..n]).value[n];
      n == |args| || forall k :: 0 <= k < |nodes[m].children| ==> nodes[nodes[m].children[k]].name != args[n]
    ensures Resolve(nodes, c, args) == Match(Walk(nodes, c, args[..n]).value[n], args[n..])
    decreases n
  {
    var w := Walk(nodes, c, args[..n]).value;
    if n == 0 {
      assert args[..0] == [];
      if args != [] {
        assert FirstIndex(ChildNames(nodes, c), args[0]).None?;
      }
    } else {
      var toks := args[..n];
      assert toks[0] == args[0];
      assert toks[1..] == args[1..][..n - 1];
      var k := FirstIndex(ChildNames(nodes, c), args[0]).value;
      var child := nodes[c].children[k];
      var p := Walk(nodes, child, toks[1..]).value;
      assert w == [c] + p && w[n] == p[n - 1];
      assert n < |args| ==> args[1..][n - 1] == args[n];
      MaximalWalkIsResolve(nodes, child, args[1..], n - 1);
      assert args[1..][n - 1..] == args[n..];
    }
  }

  /** Root: follow parent links until a node without a parent. */
  function Root(nodes: seq<Node>, c: nat): (r: nat)
    requires WellFormed(nodes) && c < |nodes|
    ensures r <= c && nodes[r].parent.None?
    ensures IsAncestor(nodes, r, c)
    decreases c
  {
    if nodes[c].parent.Some? then Root(nodes, nodes[c].parent.value) else c
  }

  /** a is c or is reached from c by following parent links. */
  ghost predicate IsAncestor(nodes: seq<Node>, a: nat, c: nat)
    requires WellFormed(nodes) && c < |nodes|
    decreases c
  {
    a == c || (nodes[c].parent.Some? && IsAncestor(nodes, a, nodes[c].parent.value))
  }

  /** Root of a root is itself, so asking the root for its root changes nothing. */
  lemma RootIsIdempotent(nodes: seq<Node>, c: nat)
    requires WellFormed(nodes) && c < |nodes|
    ensures Root(nodes, Root(nodes, c)) == Root(nodes, c)
  {
  }

  /** A subcommand has the same root as the node it is attached to. */
  lemma RootOfChild(nodes: seq<Node>, c: nat, k: nat)
    requires WellFormed(nodes) && c < |nodes| && k < |nodes[c].children|
    ensures Root(nodes, nodes[c].children[k]) == Root(nodes, c)
  {
  }

  /** Resolution never leaves the tree it starts in: the matched node has c's root. */
  lemma {:induction false} ResolveKeepsRoot(nodes: seq<Node>, c: nat, args: seq<string>)
    requires WellFormed(nodes) && c < |nodes|
    ensures Root(nodes, Resolve(nodes, c, args).node) == Root(nodes, c)
    decreases |args|
  {
    if |args| > 0 && |nodes[c].children| > 0 {
      match FirstIndex(ChildNames(nodes, c), args[0])
      case None =>
      case Some(k) =>
        RootOfChild(nodes, c, k);
        ResolveKeepsRoot(nodes, nodes[c].children[k], args[1..]);
    }
  }

  /** HasParent: true exactly for the nodes that are not their own root. */
  function HasParent(nodes: seq<Node>, c: nat): (b: bool)
    requires WellFormed(nodes) && c < |nodes|
    ensures b <==> Root(nodes, c) != c
  {
    nodes[c].parent.Some?
  }

  /** Parent: the node c is attached to, which lists c among its subcommands; None exactly at a root. */
  function Parent(nodes: seq<Node>, c: nat): (p: Option<nat>)
    requires WellFormed(nodes) && c < |nodes|
    ensures p.Some? ==> p.value < c && c in nodes[p.value].children
    ensures p.None? <==> Root(nodes, c) == c
  {
    nodes[c].parent
  }

  /** HasSubCommands: true exactly when c has subcommands; without them, resolution stays at c whatever the arguments. */
  function HasSubCommands(nodes: seq<Node>, c: nat): (b: bool)
    requires WellFormed(nodes) && c < |nodes|
    ensures b <==> nodes[c].children != []
    ensures !b ==> forall args :: Resolve(nodes, c, args) == Match(c, args)
  {
    |nodes[c].children| > 0
  }

  /** A node with subcommands is left by resolution: the name of its first subcommand leads into it. */
  lemma FirstSubCommandIsReachable(nodes: seq<Node>, c: nat)
    requires WellFormed(nodes) && c < |nodes| && HasSubCommands(nodes, c)
    ensures Resolve(nodes, c, [nodes[nodes[c].children[0]].name]) == Match(nodes[c].children[0], [])
  {
    FirstIndexIsFirst(ChildNames(nodes, c), nodes[nodes[c].children[0]].name, 0);
  }
}
