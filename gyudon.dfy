/**
 * The gyudon package: building command nodes from commanders, growing the
 * tree, and executing the command an argument vector selects.
 */
module Gyudon {
  import opened Wrappers
  import opened Commanders
  import opened Ascii
  import opened Lists
  import opened Specs
  import opened Tree

  /**
   * parseCommand: a commander that is not a pointer to a struct is refused
   * with an error; otherwise the node is named after the struct type in
   * lower case, holds the commander, has one spec per exported field, and
   * has neither parent nor subcommands.
   */
  method ParseCommand(cmder: Commander) returns (r: Result<Node, Error>)
    ensures r.Err? <==> !IsStructPointer(cmder)
    ensures r.Err? ==> r.error == Error(NotStructPointer)
    ensures r.Ok? ==> r.value == Node(Lower(cmder.typeName), SpecsOf(cmder.fields), Some(cmder), None, [])
  {
    if !cmder.isPointer {
      return Err(Error(NotStructPointer));
    }
    if !cmder.elemIsStruct {
      return Err(Error(NotStructPointer));
    }
    var name := Lower(cmder.typeName);
    var fields := cmder.fields;
    var specs: seq<Spec> := [];
    var i := 0;
    while i < |fields|
      invariant 0 <= i <= |fields|
      invariant specs == SpecsOf(fields[..i])
    {
      var field := fields[i];
      if field.exported {
        specs := specs + [Spec(field.name, HelpTag(field))];
      }
      assert fields[..i + 1] == fields[..i] + [field];
      SpecsOfAppend(fields[..i], [field]);
      i := i + 1;
    }
    assert fields[..i] == fields;
    r := Ok(Node(name, specs, Some(cmder), None, []));
  }

  /** Attaching a parentless node allocated after c to c keeps the arena's links consistent. */
  lemma AttachKeepsWellFormed(nodes: seq<Node>, c: nat, cmd: nat)
    requires WellFormed(nodes) && c < cmd < |nodes| && nodes[cmd].parent.None?
    ensures var linked := nodes[cmd := nodes[cmd].(parent := Some(c))];
      WellFormed(linked[c := linked[c].(children := linked[c].children + [cmd])])
  {
  }

  /** Every Command the program has allocated, addressed by position. */
  class Arena {
    var nodes: seq<Node>

    ghost predicate Valid()
      reads this
    {
      WellFormed(nodes)
    }

    constructor ()
      ensures Valid() && nodes == []
    {
      nodes := [];
    }

    /**
     * NewCommand: the node parseCommand builds, allocated as the root of a
     * new tree, or parseCommand's error with nothing allocated.
     */
    method NewCommand(cmder: Commander) returns (r: Result<nat, Error>)
      requires Valid()
      modifies this
      ensures Valid()
      ensures r.Err? <==> !IsStructPointer(cmder)
      ensures r.Err? ==> r.error == Error(NotStructPointer) && nodes == old(nodes)
      ensures r.Ok? ==> r.value == |old(nodes)|
      ensures r.Ok? ==> nodes == old(nodes) + [Node(Lower(cmder.typeName), SpecsOf(cmder.fields), Some(cmder), None, [])]
    {
      var parsed := ParseCommand(cmder);
      match parsed
      case Err(e) =>
        r := Err(e);
      case Ok(node) =>
        nodes := nodes + [node];
        r := Ok(|nodes| - 1);
    }

    /**
     * addCommand: append each of cmds to c's subcommands, in order, and make
     * c its parent. Earlier subcommands stay, and no name is checked against
     * the names already there.
     */
    method AttachAll(c: nat, cmds: seq<nat>)
      requires Valid() && c < |nodes|
      requires forall j :: 0 <= j < |cmds| ==> c < cmds[j] < |nodes| && nodes[cmds[j]].parent.None?
      requires forall j, l :: 0 <= j < l < |cmds| ==> cmds[j] != cmds[l]
      modifies this
      ensures Valid() && |nodes| == |old(nodes)|
      ensures nodes[c] == old(nodes[c]).(children := old(nodes[c].children) + cmds)
      ensures forall j :: 0 <= j < |cmds| ==> nodes[cmds[j]] == old(nodes[cmds[j]]).(parent := Some(c))
      ensures forall i :: 0 <= i < |nodes| && i != c && i !in cmds ==> nodes[i] == old(nodes[i])
    {
      var j := 0;
      while j < |cmds|
        invariant 0 <= j <= |cmds| && |nodes| == |old(nodes)|
        invariant WellFormed(nodes)
        invariant nodes[c] == old(nodes[c]).(children := old(nodes[c].children) + cmds[..j])
        invariant forall l :: 0 <= l < j ==> nodes[cmds[l]] == old(nodes[cmds[l]]).(parent := Some(c))
        invariant forall i :: 0 <= i < |nodes| && i != c && i !in cmds[..j] ==> nodes[i] == old(nodes[i])
      {
        var cmd := cmds[j];
        assert cmd !in cmds[..j];
        AttachKeepsWellFormed(nodes, c, cmd);
        nodes := nodes[cmd := nodes[cmd].(parent := Some(c))];
        nodes := nodes[c := nodes[c].(children := nodes[c].children + [cmd])];
        assert cmds[..j + 1] == cmds[..j] + [cmd];
        j := j + 1;
      }
      assert cmds[..j] == cmds;
    }

    /**
     * AddCommand: build a node from cmder as parseCommand does, attach it as
     * the last subcommand of c and return it.
     */
    method AddCommand(c: nat, cmder: Commander) returns (cmd: nat)
      requires Valid() && c < |nodes| && IsStructPointer(cmder)
      modifies this
      ensures Valid()
      ensures cmd == |old(nodes)| && |nodes| == cmd + 1
      ensures nodes[cmd] == Node(Lower(cmder.typeName), SpecsOf(cmder.fields), Some(cmder), Some(c), [])
      ensures nodes[c] == old(nodes[c]).(children := old(nodes[c].children) + [cmd])
      ensures forall i :: 0 <= i < |old(nodes)| && i != c ==> nodes[i] == old(nodes[i])
    {
      var parsed := ParseCommand(cmder);
      nodes := nodes + [parsed.value];
      cmd := |nodes| - 1;
      AttachAll(c, [cmd]);
      assert [cmd][0] == cmd;
    }

    /**
     * addHelpCmd: attach a node named "help", with no specs and a nil
     * commander, as the last subcommand of c. The helpCommand field it
     * tests is never assigned, so every call attaches one more. The node's
     * parent, which the source also sets in the literal, is set by the
     * attachment.
     */
    method AddHelpCommand(c: nat)
      requires Valid() && c < |nodes|
      modifies this
      ensures Valid()
      ensures |nodes| == |old(nodes)| + 1
      ensures nodes[|old(nodes)|] == Node("help", [], None, Some(c), [])
      ensures nodes[c] == old(nodes[c]).(children := old(nodes[c].children) + [|old(nodes)|])
      ensures forall i :: 0 <= i < |old(nodes)| && i != c ==> nodes[i] == old(nodes[i])
    {
      nodes := nodes + [Node("help", [], None, None, [])];
      var help := |nodes| - 1;
      AttachAll(c, [help]);
      assert [help][0] == help;
    }

    /**
     * FindCommand: the node and residual arguments Resolve describes, found
     * by descending one subcommand per consumed token and scanning each
     * node's subcommands in attachment order.
     */
    method FindCommand(c: nat, args: seq<string>) returns (found: nat, rest: seq<string>)
      requires Valid() && c < |nodes|
      ensures Match(found, rest) == Resolve(nodes, c, args)
      decreases |args|
    {
      if |args| == 0 {
        return c, args;
      }
      if |nodes[c].children| == 0 {
        return c, args;
      }
      var i := 0;
      while i < |nodes[c].children|
        invariant 0 <= i <= |nodes[c].children|
        invariant forall j :: 0 <= j < i ==> ChildNames(nodes, c)[j] != args[0]
      {
        if args[0] == nodes[nodes[c].children[i]].name {
          FirstIndexIsFirst(ChildNames(nodes, c), args[0], i);
          found, rest := FindCommand(nodes[c].children[i], args[1..]);
          return;
        }
        i := i + 1;
      }
      return c, args;
    }

    /**
     * execute: run the node's commander with args and return its error
     * unchanged. run(n, args) is what the commander value held by node n
     * returns when its Run method is called with args.
     */
    method Invoke(c: nat, args: seq<string>, run: (nat, seq<string>) -> Option<Error>) returns (err: Option<Error>)
      requires Valid() && c < |nodes| && nodes[c].commander.Some?
      ensures err == run(c, args)
    {
      err := run(c, args);
    }

    /**
     * Execute: from a node with a parent, execute from its root with the
     * same arguments. At the root, drop args[0], resolve the rest, and run
     * the matched node's commander exactly once with the residual
     * arguments; its error (None for success) is the result. `ran` records
     * which node ran and with what.
     */
    method Execute(c: nat, args: seq<string>, run: (nat, seq<string>) -> Option<Error>)
      returns (ran: Match, err: Option<Error>)
      requires Valid() && c < |nodes| && |args| >= 1
      requires nodes[Resolve(nodes, Root(nodes, c), args[1..]).node].commander.Some?
      ensures ran == Resolve(nodes, Root(nodes, c), args[1..])
      ensures err == run(ran.node, ran.rest)
      decreases if HasParent(nodes, c) then 1 else 0
    {
      if HasParent(nodes, c) {
        ran, err := Execute(Root(nodes, c), args, run);
        return;
      }
      var tail := args[1..];
      var cmd, flags := FindCommand(c, tail);
      err := Invoke(cmd, flags, run);
      ran := Match(cmd, flags);
    }
  }
}
