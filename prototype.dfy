/**
 * The earlier prototype of the command tree, kept in the program's main
 * package with its own types: nodes carry no specs, a commander's Run takes
 * no arguments, lookup goes one level deep, and Execute discards a
 * subcommand's error.
 */
module Prototype {
  import opened Wrappers
  import opened Commanders
  import opened Ascii
  import opened Lists

  /** One command of the prototype: name, commander (None for the help node), parent, subcommands. */
  datatype Node = Node(name: string, commander: Option<Commander>, parent: Option<nat>, children: seq<nat>)

  /** Links are consistent: parents come first, a node is among its parent's subcommands, and subcommands point back. */
  predicate WellFormed(nodes: seq<Node>) {
    (forall i :: 0 <= i < |nodes| && nodes[i].parent.Some? ==>
      nodes[i].parent.value < i && i in nodes[nodes[i].parent.value].children)
    && (forall i, k :: 0 <= i < |nodes| && 0 <= k < |nodes[i].children| ==>
      nodes[i].children[k] < |nodes| && nodes[nodes[i].children[k]].parent == Some(i))
  }

  /** The names of c's subcommands, in attachment order. */
  function ChildNames(nodes: seq<Node>, c: nat): (r: seq<string>)
    requires WellFormed(nodes) && c < |nodes|
    ensures |r| == |nodes[c].children|
    ensures forall k :: 0 <= k < |r| ==> r[k] == nodes[nodes[c].children[k]].name
  {
    seq(|nodes[c].children|, k requires 0 <= k < |nodes[c].children| => nodes[nodes[c].children[k]].name)
  }

  /**
   * The node FindCommand returns: among c's own subcommands only, the first
   * in attachment order named args[0]; None when c has no subcommands, args
   * is empty, or no subcommand has that name.
   */
  function ChildNamed(nodes: seq<Node>, c: nat, args: seq<string>): (r: Option<nat>)
    requires WellFormed(nodes) && c < |nodes|
    ensures r.None? <==> (nodes[c].children == [] || args == []
      || forall k :: 0 <= k < |nodes[c].children| ==> nodes[nodes[c].children[k]].name != args[0])
    ensures r.Some? ==>
      exists k :: 0 <= k < |nodes[c].children| && nodes[c].children[k] == r.value
        && nodes[r.value].name == args[0]
        && forall j :: 0 <= j < k ==> nodes[nodes[c].children[j]].name != args[0]
    ensures r.Some? ==> r.value < |nodes| && nodes[r.value].parent == Some(c)
  {
    if |nodes[c].children| == 0 then None
    else if |args| == 0 then None
    else match FirstIndex(ChildNames(nodes, c), args[0])
      case None => None
      case Some(k) => Some(nodes[c].children[k])
  }

  /** Root: follow parent links until a node without a parent. */
  function Root(nodes: seq<Node>, c: nat): (r: nat)
    requires WellFormed(nodes) && c < |nodes|
    ensures r <= c && nodes[r].parent.None?
    ensures IsAncestor(nodes, r, c)
    decreases c
  {
    if nodes[c].parent.Some? then Root(nodes, nodes[c].parent.value) else c
  }

  /** a is c or is reached from c by following parent links. */
  ghost predicate IsAncestor(nodes: seq<Node>, a: nat, c: nat)
    requires WellFormed(nodes) && c < |nodes|
    decreases c
  {
    a == c || (nodes[c].parent.Some? && IsAncestor(nodes, a, nodes[c].parent.value))
  }

  /** HasParent: true exactly for the nodes that are not their own root. */
  function HasParent(nodes: seq<Node>, c: nat): (b: bool)
    requires WellFormed(nodes) && c < |nodes|
    ensures b <==> Root(nodes, c) != c
  {
    nodes[c].parent.Some?
  }

  /** Parent: the node c is attached to, which lists c among its subcommands; None exactly at a root. */
  function Parent(nodes: seq<Node>, c: nat): (p: Option<nat>)
    requires WellFormed(nodes) && c < |nodes|
    ensures p.Some? ==> p.value < c && c in nodes[p.value].children
    ensures p.None? <==> Root(nodes, c) == c
  {
    nodes[c].parent
  }

  /** HasSubCommands: true exactly when c has subcommands; without them, lookup finds nothing. */
  function HasSubCommands(nodes: seq<Node>, c: nat): (b: bool)
    requires WellFormed(nodes) && c < |nodes|
    ensures b <==> nodes[c].children != []
    ensures !b ==> forall args :: ChildNamed(nodes, c, args) == None
  {
    |nodes[c].children| > 0
  }

  /** Attaching a parentless node allocated after c to c keeps the links consistent. */
  lemma AttachKeepsWellFormed(nodes: seq<Node>, c: nat, cmd: nat)
    requires WellFormed(nodes) && c < cmd < |nodes| && nodes[cmd].parent.None?
    ensures var linked := nodes[cmd := nodes[cmd].(parent := Some(c))];
      WellFormed(linked[c := linked[c].(children := linked[c].children + [cmd])])
  {
  }

  /** Every Command the prototype has allocated, addressed by position. */
  class Arena {
    var nodes: seq<Node>

    ghost predicate Valid()
      reads this
    {
      WellFormed(nodes)
    }

    constructor ()
      ensures Valid() && nodes == []
    {
      nodes := [];
    }

    /**
     * NewRoot: a new parentless, childless node named after the pointed-to
     * type in lower case, holding the commander. The commander must be a
     * pointer (reflect's Elem panics otherwise); it need not point to a struct.
     */
    method NewRoot(cmder: Commander) returns (cmd: nat)
      requires Valid() && cmder.isPointer
      modifies this
      ensures Valid()
      ensures cmd == |old(nodes)|
      ensures nodes == old(nodes) + [Node(Lower(cmder.typeName), Some(cmder), None, [])]
    {
      nodes := nodes + [Node(Lower(cmder.typeName), Some(cmder), None, [])];
      cmd := |nodes| - 1;
    }

    /** addCommand: append each of cmds to c's subcommands, in order, and make c its parent. */
    method AttachAll(c: nat, cmds: seq<nat>)
      requires Valid() && c < |nodes|
      requires forall j :: 0 <= j < |cmds| ==> c < cmds[j] < |nodes| && nodes[cmds[j]].parent.None?
      requires forall j, l :: 0 <= j < l < |cmds| ==> cmds[j] != cmds[l]
      modifies this
      ensures Valid() && |nodes| == |old(nodes)|
      ensures nodes[c] == old(nodes[c]).(children := old(nodes[c].children) + cmds)
      ensures forall j :: 0 <= j < |cmds| ==> nodes[cmds[j]] == old(nodes[cmds[j]]).(parent := Some(c))
      ensures forall i :: 0 <= i < |nodes| && i != c && i !in cmds ==> nodes[i] == old(nodes[i])
    {
      var j := 0;
      while j < |cmds|
        invariant 0 <= j <= |cmds| && |nodes| == |old(nodes)|
        invariant WellFormed(nodes)
        invariant nodes[c] == old(nodes[c]).(children := old(nodes[c].children) + cmds[..j])
        invariant forall l :: 0 <= l < j ==> nodes[cmds[l]] == old(nodes[cmds[l]]).(parent := Some(c))
        invariant forall i :: 0 <= i < |nodes| && i != c && i !in cmds[..j] ==> nodes[i] == old(nodes[i])
      {
        var cmd := cmds[j];
        assert cmd !in cmds[..j];
        AttachKeepsWellFormed(nodes, c, cmd);
        nodes := nodes[cmd := nodes[cmd].(parent := Some(c))];
        nodes := nodes[c := nodes[c].(children := nodes[c].children + [cmd])];
        assert cmds[..j + 1] == cmds[..j] + [cmd];
        j := j + 1;
      }
      assert cmds[..j] == cmds;
    }

    /**
     * AddCommand: a new node named after the pointed-to type in lower case,
     * holding the commander, attached as the last subcommand of c.
     */
    method AddCommand(c: nat, cmder: Commander) returns (cmd: nat)
      requires Valid() && c < |nodes| && cmder.isPointer
      modifies this
      ensures Valid()
      ensures cmd == |old(nodes)| && |nodes| == cmd + 1
      ensures nodes[cmd] == Node(Lower(cmder.typeName), Some(cmder), Some(c), [])
      ensures nodes[c] == old(nodes[c]).(children := old(nodes[c].children) + [cmd])
      ensures forall i :: 0 <= i < |old(nodes)| && i != c ==> nodes[i] == old(nodes[i])
    {
      nodes := nodes + [Node(Lower(cmder.typeName), Some(cmder), None, [])];
      cmd := |nodes| - 1;
      AttachAll(c, [cmd]);
      assert [cmd][0] == cmd;
    }

    /**
     * addHelpCmd: attach a node named "help" with a nil commander as the
     * last subcommand of c; the helpCommand field it tests is never
     * assigned, so every call attaches one more.
     */
    method AddHelpCommand(c: nat)
      requires Valid() && c < |nodes|
      modifies this
      ensures Valid()
      ensures |nodes| == |old(nodes)| + 1
      ensures nodes[|old(nodes)|] == Node("help", None, Some(c), [])
      ensures nodes[c] == old(nodes[c]).(children := old(nodes[c].children) + [|old(nodes)|])
      ensures forall i :: 0 <= i < |old(nodes)| && i != c ==> nodes[i] == old(nodes[i])
    {
      nodes := nodes + [Node("help", None, None, [])];
      var help := |nodes| - 1;
      AttachAll(c, [help]);
      assert [help][0] == help;
    }

    /** FindCommand: scan c's subcommands in order and return the first named args[0]. */
    method FindCommand(c: nat, args: seq<string>) returns (found: Option<nat>)
      requires Valid() && c < |nodes|
      ensures found == ChildNamed(nodes, c, args)
    {
      if |nodes[c].children| == 0 {
        return None;
      }
      if |args| == 0 {
        return None;
      }
      var i := 0;
      while i < |nodes[c].children|
        invariant 0 <= i <= |nodes[c].children|
        invariant forall j :: 0 <= j < i ==> ChildNames(nodes, c)[j] != args[0]
      {
        var cmd := nodes[c].children[i];
        if nodes[cmd].name == args[0] {
          FirstIndexIsFirst(ChildNames(nodes, c), args[0], i);
          return Some(cmd);
        }
        i := i + 1;
      }
      return None;
    }

    /**
     * execute: run the node's commander; the arguments are not passed on,
     * since Run takes none. run(n) is what the commander value held by node
     * n returns from Run().
     */
    method Invoke(c: nat, args: seq<string>, run: nat -> Option<Error>) returns (err: Option<Error>)
      requires Valid() && c < |nodes| && nodes[c].commander.Some?
      ensures err == run(c)
    {
      err := run(c);
    }

    /**
     * Execute: from a node with a parent, execute from its root with the
     * same arguments. At the root, drop args[0] and look up a subcommand
     * named by the next argument. With none, run the root's commander and
     * return its error; with one, run that subcommand's commander and
     * return None whatever it returned. `ran` is the node whose commander ran.
     */
    method Execute(c: nat, args: seq<string>, run: nat -> Option<Error>) returns (ran: nat, err: Option<Error>)
      requires Valid() && c < |nodes| && |args| >= 1
      requires var root := Root(nodes, c);
        var sub := ChildNamed(nodes, root, args[1..]);
        nodes[if sub.Some? then sub.value else root].commander.Some?
      ensures var root := Root(nodes, c);
        var sub := ChildNamed(nodes, root, args[1..]);
        ran == (if sub.Some? then sub.value else root)
      ensures ran < |nodes| && nodes[ran].commander.Some?
      ensures err == if ran == Root(nodes, c) then run(ran) else None
      decreases if HasParent(nodes, c) then 1 else 0
    {
      if HasParent(nodes, c) {
        ran, err := Execute(Root(nodes, c), args, run);
        return;
      }
      var tail := args[1..];
      var sub := FindCommand(c, tail);
      if sub == None {
        ran := c;
        err := Invoke(c, tail, run);
        return;
      }
      ran := sub.value;
      var ignored := Invoke(ran, tail, run);
      err := None;
    }
  }
}
