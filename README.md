# gyudon command tree, modelled in Dafny

gyudon is a small Go framework for command-line programs built from
subcommands. A *commander* is a user value with a `Run` method. `NewCommand`
turns a commander into a `Command` node named after the commander's struct
type in lower case. The node's *specs* describe the struct's exported fields
and their `help` tags. `AddCommand` attaches further commanders as
subcommands. `Execute` takes the process arguments, drops the program name
and walks the remaining words down the tree. It runs the commander of the
deepest node reached and passes it the words that were not consumed.

The model covers three Go files:

- `gyudon.go`, the package. It is split into three modules:
  - `Specs` extracts specs from fields.
  - `Tree` holds the read-only tree functions (`Resolve`, which is
    `FindCommand`'s meaning, `Walk`, `Root`, `HasParent`, `Parent` and
    `HasSubCommands`) and the lemmas about them.
  - `Gyudon` holds `ParseCommand` and the `Arena` class, whose methods grow
    the tree and execute.
- `main.go`, an earlier prototype in package `main` with its own types. It is
  modelled in module `Prototype`. Its lookup goes only one level deep, its
  `Execute` discards a subcommand's error, and its `Run` takes no arguments.
- `cmd/main.go`, the example program, in module `Example`.

Shared modules: `Wrappers` (Option, Result), `Ascii` (lower-casing),
`Lists` (first-match search) and `Commanders` (the commander descriptor and
the error type).

How the model is shaped:

- **Pointers.** Every `*Command` the program allocates is a position in an
  arena. The arena is a `seq<Node>` field of class `Arena`. A parent pointer
  is an `Option<nat>`, and a node's subcommands are a `seq<nat>` in
  attachment order. `WellFormed` is the arena invariant. A parent is
  allocated before its children, a node is listed among its parent's
  subcommands, and every subcommand points back at its parent. The mutating
  methods keep this invariant.
- **Reflection.** Go reads a commander with reflection. Here a commander is
  an explicit descriptor: whether the value is a pointer, whether it points
  to a struct, the pointed-to type's name, and the fields in declaration
  order. Each field has a name, an exported flag and its tags as a map.
- **Run.** A commander's `Run` method is opaque user code. `Execute` takes it
  as a function parameter `run`: `run(n, args)` is what `Run` returns when it
  is called with `args` on the commander value held by node `n`. It is keyed
  on the node, not on the commander's type, because two values of one type
  can behave differently. `Execute` calls `run` exactly once, and its `ran`
  result names the node whose commander ran and the arguments it got. The
  prototype's `Run` takes no arguments, so there `run(n)` depends on the
  node alone.
- **Parent links.** `Root` follows `nodes[c].parent` directly. In Go, `Root`
  calls `Parent()`, which returns that same field.
- **Lower-casing.** Only ASCII letters are lowered (`Ascii.Lower`).

The example program builds its tree with the model's own `NewCommand` and
`AddCommand` and then calls `Execute`.

Two facts about the code shape the model:

- `gyudon.go` extracts only a field's name and its `help` tag. No `default`
  tag is read, so a spec has no default value.
- `AddCommand` ignores `parseCommand`'s error and then dereferences the nil
  node. Here a pointer-to-struct commander is a precondition of `AddCommand`.

## Model

| member | source | states |
|---|---|---|
| `Ascii.Lower` | gyudon.go:57-58 | a command name has the type name's length, and each character is that character lowered (ASCII letters only) |
| `Ascii.LowerIsIdempotent` | gyudon.go:57-58 | lowering a lowered name changes nothing, and a lowered name has no upper-case letter |
| `Lists.FirstIndex` | gyudon.go:95-100 | the search returns the first position holding the token, with no earlier match, or None exactly when no position holds it |
| `Lists.FirstIndexIsFirst` | gyudon.go:95-99 | a match with no earlier match is the one the scan returns |
| `Specs.HelpTag` | gyudon.go:69 | the `help` tag's value when the field has one, and "" otherwise |
| `Specs.SpecsOf` | gyudon.go:64-76 | the field loop yields at most one spec per field; which specs, in which order, is stated by `Specs.SpecsOfExportedFields` |
| `Specs.ExportedPositions` | gyudon.go:64-68 | the positions of the exported fields, each in range, strictly increasing, and every exported field's position among them |
| `Specs.SpecsOfSnoc` | gyudon.go:64-76 | one more field adds one spec, with the field's name and `help` tag, exactly when the field is exported |
| `Specs.SpecsOfExportedFields` | gyudon.go:64-76 | one spec per exported field, in declaration order; the k-th spec is named after the k-th exported field and has that field's `help` tag, or "" without one |
| `Specs.SpecsOfAppend` | gyudon.go:64-76 | extraction over two field lists is the concatenation of the two extractions, so declaration order is kept |
| `Specs.UnexportedFieldIsSkipped` | gyudon.go:66-68 | removing an unexported field does not change the spec list, so such a field produces no spec |
| `Gyudon.ParseCommand` | gyudon.go:43-79 | an error with the "pointers to struct" message exactly when the commander is not a pointer to a struct; otherwise a node named by the lower-cased type name, holding the commander, with the specs of the exported fields, no parent and no subcommands |
| `Gyudon.AttachKeepsWellFormed` | gyudon.go:126-131 | setting a fresh node's parent to c and appending it to c's subcommands keeps the arena's links consistent |
| `Gyudon.Arena.NewCommand` | gyudon.go:81-83 | the parsed node is allocated as a new root; on a parse error nothing is allocated and the error is returned |
| `Gyudon.Arena.AttachAll` | gyudon.go:126-131 | c's subcommands become the old ones followed by the given nodes in order, each of them gets parent c, and no other node changes; sibling names are not checked |
| `Gyudon.Arena.AddCommand` | gyudon.go:133-137 | the parsed node is allocated with parent c and no subcommands, appended as c's last subcommand and returned; every other node is unchanged |
| `Gyudon.Arena.AddHelpCommand` | gyudon.go:32-41 | a node named "help" with no specs and a nil commander is appended as c's last subcommand on every call |
| `Gyudon.Arena.FindCommand` | gyudon.go:85-105 | the recursive search with its child scan returns exactly the node and residual that `Resolve` defines |
| `Gyudon.Arena.Invoke` | gyudon.go:139-142 | runs the commander value held by the node with the given arguments and returns its error unchanged |
| `Gyudon.Arena.Execute` | gyudon.go:144-171 | from any node, resolves the original arguments minus `args[0]` from the root; runs the matched node's commander once with the residual; returns that call's error unchanged |
| `Tree.Resolve` | gyudon.go:85-105 | the matched node is in the arena, and the residual is a suffix of the arguments |
| `Tree.Walk` | gyudon.go:95-98 | a successful first-match walk visits one node per token plus c, starts at c, and ends at a node of the arena |
| `Tree.WalkIsChain` | gyudon.go:95-98 | a successful first-match walk is a chain: each next node is a subcommand of the one before, named by the next token, with the one before as its parent |
| `Tree.ResolveBase` | gyudon.go:89-94 | with no arguments or no subcommands, the result is c with the arguments unchanged |
| `Tree.ResolveDescendsIntoFirstMatch` | gyudon.go:95-98 | when `args[0]` names subcommands, resolution continues in the first of them, in attachment order, with `args[1..]` |
| `Tree.ResolveStopsAtUnknownToken` | gyudon.go:95-100 | when `args[0]` names no subcommand, the result is c with all of args, unmatched token included |
| `Tree.WalkStep` | gyudon.go:95-97 | a walk takes the first subcommand named by the first token and continues from it over the remaining tokens |
| `Tree.ResolveFollowsWalk` | gyudon.go:85-105 | args is the consumed prefix followed by the residual, and the matched node is reached from c by a first-match walk over the consumed tokens, one subcommand link per token |
| `Tree.ResolveIsMaximal` | gyudon.go:95-100 | the first residual token, if there is one, names no subcommand of the matched node |
| `Tree.MaximalWalkIsResolve` | gyudon.go:85-105 | conversely, a first-match walk over the first n tokens that cannot be continued by token n is what Resolve returns, with residual `args[n..]` |
| `Tree.Root` | gyudon.go:115-120 | the root is a parentless ancestor of c reached by parent links, and c itself when c has no parent |
| `Tree.RootIsIdempotent` | gyudon.go:144-147 | the root's root is the root, so redirecting `Execute` to the root a second time changes nothing |
| `Tree.RootOfChild` | gyudon.go:115-120 | a subcommand has the same root as the node it is attached to |
| `Tree.ResolveKeepsRoot` | gyudon.go:85-105 | the node FindCommand returns has the same root as the node it started from |
| `Tree.HasParent` | gyudon.go:107-109 | true exactly for the nodes that are not their own root |
| `Tree.Parent` | gyudon.go:122-124 | the parent lists the node among its subcommands and comes earlier in the arena; None exactly at a root |
| `Tree.HasSubCommands` | gyudon.go:111-113 | true exactly when the node has subcommands; without them, resolution stays at the node whatever the arguments |
| `Tree.FirstSubCommandIsReachable` | gyudon.go:111-113 | with subcommands, the first subcommand's name as the only argument resolves to that subcommand with nothing left over |
| `Example.ExampleTree` | cmd/main.go:11-52 | the example's arena (root "tkm" with "hello" and "hoge", specs from the `help` tags) is well formed, every node holds a commander, and the root has no parent |
| `Example.ExampleSpecs` | cmd/main.go:11-34 | Tkm has no specs; Hello has `Name` with help "君の名は。"; Hoge has `Fuga` with help "fugafuga" and nothing from its `default` tag |
| `Example.ExampleNames` | cmd/main.go:12-32 | the nodes are named "tkm", "hello" and "hoge" |
| `Example.MainTreeIsExampleTree` | cmd/main.go:41-52 | the arena built from Tkm, Hello and Hoge is `ExampleTree` |
| `Example.Build` | cmd/main.go:42-52 | `NewCommand` then two `AddCommand` calls on the root allocate the root at 0 and the two subcommands at 1 and 2, in call order |
| `Example.ResolveHello` | cmd/main.go:54 | `hello alice` from the root matches hello and leaves `["alice"]` |
| `Example.ResolveHogeHello` | cmd/main.go:54 | `hoge hello` matches hoge, which has no subcommands, and leaves `["hello"]` |
| `Example.ResolveUnknown` | cmd/main.go:54 | an unknown word stops at the root and is left as an argument |
| `Example.Program` | cmd/main.go:41-58 | the program runs the node `Resolve` selects from the root for `os.Args[1:]`, returns no error, and `tkm hello alice` runs hello with `["alice"]` |
| `Prototype.ChildNamed` | main.go:55-69 | None when there are no subcommands, no arguments or no subcommand named `args[0]`; otherwise the first subcommand in attachment order with that name, a direct child of c |
| `Prototype.Root` | main.go:79-84 | the root is a parentless ancestor reached by parent links, and the node itself when it has no parent |
| `Prototype.HasParent` | main.go:71-73 | true exactly for the nodes that are not their own root |
| `Prototype.Parent` | main.go:86-88 | the parent lists the node among its subcommands and comes earlier in the arena; None exactly at a root |
| `Prototype.HasSubCommands` | main.go:75-77 | true exactly when the node has subcommands; without them, lookup finds nothing for any arguments |
| `Prototype.AttachKeepsWellFormed` | main.go:90-95 | attaching a fresh node keeps the prototype arena's links consistent |
| `Prototype.Arena.NewRoot` | main.go:45-53 | a new node named by the lower-cased type name, holding the commander, with no parent and no subcommands |
| `Prototype.Arena.AttachAll` | main.go:90-95 | c's subcommands become the old ones followed by the given nodes in order, each gets parent c, and no other node changes |
| `Prototype.Arena.AddCommand` | main.go:97-106 | a new node named by the lower-cased type name, holding the commander, is appended as c's last subcommand with parent c and returned |
| `Prototype.Arena.AddHelpCommand` | main.go:35-43 | a node named "help" with a nil commander is appended as c's last subcommand on every call |
| `Prototype.Arena.FindCommand` | main.go:55-69 | the early-return scan returns exactly `ChildNamed`, never a node below one level |
| `Prototype.Arena.Invoke` | main.go:108-111 | the result is the `Run()` result of the commander value held by the node, whatever the arguments |
| `Prototype.Arena.Execute` | main.go:113-125 | from any node, works from the root with the original arguments; after dropping `args[0]`, with no subcommand match the root's commander runs and its error is returned; with a match that subcommand's commander runs and None is returned even if it failed |

## Left out

- Reflection is not modelled: `reflect.TypeOf`, `Elem`, `NumField`, `Field`, `IsExported` and `Tag.Lookup`. The explicit commander descriptor replaces them. The `reflect.StructField` each spec stores is not modelled, because nothing reads it.
- A nil commander passed to `parseCommand` or `NewRoot` is not modelled. Go panics on it because `reflect.TypeOf(nil)` has no kind.
- `Prototype.Arena.NewRoot` and `Prototype.Arena.AddCommand` require a pointer commander. Go's `Elem` panics on most other kinds. Elem is also defined for slice, map, array and channel types, and the descriptor does not model those kinds.
- `Gyudon.Arena.AddCommand` requires a pointer-to-struct commander. The source ignores the parse error and then dereferences the nil node.
- `Gyudon.Arena.Execute` and `Prototype.Arena.Execute` require a non-empty argument vector. `args[1:]` panics on an empty one.
- `Gyudon.Arena.Execute` and `Prototype.Arena.Execute` require that the node they run has a commander. The help node's commander is nil, so Go panics on calling it.
- `Gyudon.Arena.AttachAll` and `Prototype.Arena.AttachAll` require parentless, distinct nodes allocated after c. Both callers in each file pass one freshly allocated node. Re-attaching a node that is already in a tree is therefore not modelled.
- `Gyudon.Arena.AddHelpCommand` allocates the help node without a parent and lets the attachment set it. The source also sets the parent in the struct literal, and the final state is the same.
- Console output in gyudon's `Execute` is left out: it prints every spec's name and help (gyudon.go:152-155). A second loop compares each residual argument, with leading dashes trimmed, to each lower-cased spec name, and its only effect is printing "true" (gyudon.go:157-164). Neither loop changes the result.
- The fields `short`, `long`, `args`, `Args` and `helpCommand` are not modelled. No code assigns or uses them, except `addHelpCmd`'s nil test of `helpCommand`, which is always true. The prototype's `spec` struct (`required`, `positional`, `defaultValue`) is never used, and no default value is ever extracted.
- The effects of a commander's `Run` are not modelled. `run` is a pure function parameter, so the model shows which node runs, with which arguments, and what error comes back.
- The process glue is only partly modelled. `os.Args` is `Example.Program`'s parameter. Neither `log.Fatal` call in `cmd/main.go` can be reached, because the commanders are pointers to structs and every `Run` returns nil. The example commands' printing is not modelled. The prototype's own `main` and example commands (main.go:127-161) are not modelled.
- `Ascii.Lower`: only ASCII letters are lowered, not the full Unicode mapping of `strings.ToLower`.
