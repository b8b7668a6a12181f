/**
 * The example program shipped with the gyudon package: a root command tkm
 * with the subcommands hello and hoge, attached in that order. The Run
 * method of each of the three commanders prints a line and returns nil.
 */
module Example {
  import opened Wrappers
  import opened Commanders
  import opened Ascii
  import opened Specs
  import opened Tree
  import opened Gyudon

  /** &Tkm{}: a pointer to a struct without fields. */
  const TkmCommander := Commander(true, true, "Tkm", [])

  /** &Hello{}: one exported field Name tagged help:"君の名は。". */
  const HelloCommander := Commander(true, true, "Hello", [Field("Name", true, map["help" := "君の名は。"])])

  /** &Hoge{}: one exported field Fuga tagged help:"fugafuga" and default:"fuga". */
  const HogeCommander := Commander(true, true, "Hoge",
    [Field("Fuga", true, map["help" := "fugafuga", "default" := "fuga"])])

  /**
   * The arena the program builds: tkm at 0, hello at 1 and hoge at 2, with
   * the specs read from the fields (the default tag is not among them).
   */
  function ExampleTree(): (nodes: seq<Node>)
    ensures WellFormed(nodes) && |nodes| == 3 && ShapedLikeExample(nodes)
    ensures nodes[0].parent.None? && forall i :: 0 <= i < |nodes| ==> nodes[i].commander.Some?
  {
    [Node("tkm", [], Some(TkmCommander), None, [1, 2]),
     Node("hello", [Spec("Name", "君の名は。")], Some(HelloCommander), Some(0), []),
     Node("hoge", [Spec("Fuga", "fugafuga")], Some(HogeCommander), Some(0), [])]
  }

  /** The specs NewCommand reads from the three commanders. */
  lemma ExampleSpecs()
    ensures SpecsOf(TkmCommander.fields) == []
    ensures SpecsOf(HelloCommander.fields) == [Spec("Name", "君の名は。")]
    ensures SpecsOf(HogeCommander.fields) == [Spec("Fuga", "fugafuga")]
  {
    assert HelpTag(HelloCommander.fields[0]) == "君の名は。";
    assert HelpTag(HogeCommander.fields[0]) == "fugafuga";
  }

  /** The names NewCommand gives the three nodes: the type names in lower case. */
  lemma ExampleNames()
    ensures Lower("Tkm") == "tkm" && Lower("Hello") == "hello" && Lower("Hoge") == "hoge"
  {
  }

  /**
   * The arena main builds from a root commander and two subcommand
   * commanders, as NewCommand and AddCommand describe their nodes.
   */
  function MainTree(root: Commander, first: Commander, second: Commander): seq<Node> {
    [Node(Lower(root.typeName), SpecsOf(root.fields), Some(root), None, [1, 2]),
     Node(Lower(first.typeName), SpecsOf(first.fields), Some(first), Some(0), []),
     Node(Lower(second.typeName), SpecsOf(second.fields), Some(second), Some(0), [])]
  }

  /** Working out the names and specs for Tkm, Hello and Hoge gives ExampleTree. */
  lemma MainTreeIsExampleTree()
    ensures MainTree(TkmCommander, HelloCommander, HogeCommander) == ExampleTree()
  {
    ExampleSpecs();
    ExampleNames();
  }

  /** The example's shape, which is all that FindCommand looks at. */
  predicate ShapedLikeExample(nodes: seq<Node>) {
    WellFormed(nodes) && |nodes| == 3 && nodes[0].children == [1, 2]
    && nodes[1].name == "hello" && nodes[2].name == "hoge"
    && nodes[1].children == [] && nodes[2].children == []
  }

  /** `hello alice` from the root: hello is matched and ["alice"] is left for its Run. */
  lemma ResolveHello(nodes: seq<Node>)
    requires ShapedLikeExample(nodes)
    ensures Resolve(nodes, 0, ["hello", "alice"]) == Match(1, ["alice"])
  {
    ResolveDescendsIntoFirstMatch(nodes, 0, ["hello", "alice"], 0);
    ResolveBase(nodes, 1, ["alice"]);
  }

  /** `hoge hello` from the root: hoge has no subcommands, so "hello" is left as an argument. */
  lemma ResolveHogeHello(nodes: seq<Node>)
    requires ShapedLikeExample(nodes)
    ensures Resolve(nodes, 0, ["hoge", "hello"]) == Match(2, ["hello"])
  {
    assert "hello" != "hoge";
    ResolveDescendsIntoFirstMatch(nodes, 0, ["hoge", "hello"], 1);
    ResolveBase(nodes, 2, ["hello"]);
  }

  /** `missing` from the root: no subcommand has that name, so the root runs with ["missing"]. */
  lemma ResolveUnknown(nodes: seq<Node>)
    requires ShapedLikeExample(nodes)
    ensures Resolve(nodes, 0, ["missing"]) == Match(0, ["missing"])
  {
    assert "hello" != "missing" && "hoge" != "missing";
    ResolveStopsAtUnknownToken(nodes, 0, ["missing"]);
  }

  /** main up to Execute: root from NewCommand, then first and second attached to it with AddCommand. */
  method Build(root: Commander, first: Commander, second: Commander) returns (a: Arena, r: nat)
    requires IsStructPointer(root) && IsStructPointer(first) && IsStructPointer(second)
    ensures fresh(a) && a.Valid() && a.nodes == MainTree(root, first, second) && r == 0
  {
    a := new Arena();
    var made := a.NewCommand(root);
    r := made.value;
    var one := a.AddCommand(r, first);
    var two := a.AddCommand(r, second);
    var tree := MainTree(root, first, second);
    assert a.nodes[0] == tree[0] && a.nodes[1] == tree[1] && a.nodes[2] == tree[2];
  }

  /**
   * main: build the tree (NewCommand's error path, log.Fatal, cannot be
   * taken for a pointer to a struct) and Execute os.Args. Every Run
   * returns nil, so the second log.Fatal is never reached either:
   * `tkm hello alice` runs hello with ["alice"], and any argument list runs
   * the node Resolve selects from the root.
   */
  method Program(args: seq<string>) returns (ran: Match, err: Option<Error>)
    requires |args| >= 1
    ensures ran == Resolve(ExampleTree(), 0, args[1..])
    ensures err == None
    ensures args == ["tkm", "hello", "alice"] ==> ran == Match(1, ["alice"])
  {
    var a, root := Build(TkmCommander, HelloCommander, HogeCommander);
    MainTreeIsExampleTree();
    assert Root(a.nodes, root) == root;
    ran, err := a.Execute(root, args, (n, rest) => None);
    if args == ["tkm", "hello", "alice"] {
      assert args[1..] == ["hello", "alice"];
      ResolveHello(a.nodes);
    }
  }
}
