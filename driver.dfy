/** A block hierarchy and a walk over it that calls the visitor's callbacks in
    depth-first order (scope and namespace entries before their contents,
    exits after), and `generate_verilog` on top of it. The walk is a stand-in
    for the blocks' own `accept` methods, which are not part of this model. */
module Driver {
  import opened Text
  import opened Hdl
  import opened Render
  import opened Collect

  /** One thing a block exposes to a traversal, in its declared order. */
  datatype Item =
    | Leaf(name: string, signal: Signal)
    | Namespace(name: string, items: seq<Item>)
    | Child(name: string, block: Block)

  /** A block: its behaviour fragment (`hdl()`) and its contents. */
  datatype Block = Block(hdl: Verilog, items: seq<Item>)

  /** The state after visiting `b` under instance name `name` from state
      `w`: enter the scope (which clears the namespace stack), visit the
      items, leave the scope. Leaving pops the path only; the namespace stack
      stays as the items left it. */
  function Accepted(toKey: seq<string> -> string, name: string, b: Block, w: Walk): (r: Walk)
    ensures r.path == w.path
    decreases b, 1
  {
    var entered := Walk(w.path + [name], [], ScopeEntered(w.d, toKey, w.path, name, b.hdl));
    var left := ItemsAccepted(toKey, b, b.items, entered);
    Walk(Pop(left.path), left.ns, left.d)
  }

  /** The state after visiting `items` in order from state `w`. */
  function ItemsAccepted(toKey: seq<string> -> string, ghost b: Block, items: seq<Item>, w: Walk): (r: Walk)
    requires forall i :: 0 <= i < |items| ==> items[i] < b
    requires |w.path| >= 1
    ensures r.path == w.path
    decreases b, 0, items
  {
    if items == [] then w
    else
      var v := ItemsAccepted(toKey, b, items[..|items| - 1], w);
      match items[|items| - 1]
      case Leaf(n, s) =>
        Walk(v.path, v.ns, AtomVisited(v.d, toKey, v.path, v.ns, n, s))
      case Namespace(n, sub) =>
        var inner := ItemsAccepted(toKey, b, sub, Walk(v.path, v.ns + [n], v.d));
        Walk(inner.path, Pop(inner.ns), inner.d)
      case Child(n, blk) =>
        Accepted(toKey, n, blk, v)
  }

  /** Visiting a block keeps the table consistent. */
  lemma {:induction false} AcceptedConsistent(toKey: seq<string> -> string, name: string, b: Block, w: Walk)
    requires Consistent(toKey, w.d)
    ensures Consistent(toKey, Accepted(toKey, name, b, w).d)
    decreases b, 1
  {
    ScopeEnteredConsistent(toKey, w.d, w.path, name, b.hdl);
    var entered := Walk(w.path + [name], [], ScopeEntered(w.d, toKey, w.path, name, b.hdl));
    ItemsAcceptedConsistent(toKey, b, b.items, entered);
  }

  /** Visiting the items of a scope keeps the table consistent. */
  lemma {:induction false} ItemsAcceptedConsistent(toKey: seq<string> -> string, b: Block, items: seq<Item>, w: Walk)
    requires forall i :: 0 <= i < |items| ==> items[i] < b
    requires |w.path| >= 1 && Consistent(toKey, w.d)
    ensures Consistent(toKey, ItemsAccepted(toKey, b, items, w).d)
    decreases b, 0, items
  {
    if items != [] {
      var v := ItemsAccepted(toKey, b, items[..|items| - 1], w);
      ItemsAcceptedConsistent(toKey, b, items[..|items| - 1], w);
      match items[|items| - 1]
      case Leaf(n, s) =>
        AtomVisitedConsistent(toKey, v.d, v.path, v.ns, n, s);
      case Namespace(n, sub) =>
        ItemsAcceptedConsistent(toKey, b, sub, Walk(v.path, v.ns + [n], v.d));
      case Child(n, blk) =>
        AcceptedConsistent(toKey, n, blk, v);
    }
  }

  /** No item, however deeply nested in namespaces, is a child block. */
  predicate WithoutScopes(items: seq<Item>)
    decreases items
  {
    forall i :: 0 <= i < |items| ==>
      match items[i]
      case Leaf(_, _) => true
      case Namespace(_, sub) => WithoutScopes(sub)
      case Child(_, _) => false
  }

  /** Namespace entries and exits pair up: items that enter no child scope
      leave the namespace stack as they found it. (A child scope clears the
      stack on entry and does not restore it on exit.) */
  lemma {:induction false} NamespacesBalanced(toKey: seq<string> -> string, b: Block, items: seq<Item>, w: Walk)
    requires forall i :: 0 <= i < |items| ==> items[i] < b
    requires |w.path| >= 1 && WithoutScopes(items)
    ensures ItemsAccepted(toKey, b, items, w).ns == w.ns
    decreases items
  {
    if items != [] {
      var v := ItemsAccepted(toKey, b, items[..|items| - 1], w);
      NamespacesBalanced(toKey, b, items[..|items| - 1], w);
      match items[|items| - 1]
      case Leaf(n, s) =>
      case Namespace(n, sub) =>
        NamespacesBalanced(toKey, b, sub, Walk(v.path, v.ns + [n], v.d));
    }
  }

  /** The table `generate_verilog` collects from `uut`, entered as `top`
      from the empty state: consistent, so every instance it records is
      wired to stubs of its parent. */
  function Collected(toKey: seq<string> -> string, uut: Block): (d: Table)
    requires KeyingOk(toKey)
    ensures Consistent(toKey, d) && Resolves(d)
  {
    EmptyConsistent(toKey);
    AcceptedConsistent(toKey, "top", uut, Walk([], [], map[]));
    ConsistentResolves(toKey, Accepted(toKey, "top", uut, Walk([], [], map[])).d);
    Accepted(toKey, "top", uut, Walk([], [], map[])).d
  }

  /** Visit `b` entered under instance name `name`. */
  method Accept(name: string, b: Block, probe: ModuleDefines)
    requires probe.Valid()
    modifies probe
    ensures probe.Valid()
    ensures probe.State() == Accepted(probe.toKey, name, b, old(probe.State()))
    decreases b, 1
  {
    probe.VisitStartScope(name, b.hdl);
    AcceptItems(b, b.items, probe);
    probe.VisitEndScope();
  }

  /** Visit the items of the current scope (`items` lies within `b`). */
  method AcceptItems(ghost b: Block, items: seq<Item>, probe: ModuleDefines)
    requires forall i :: 0 <= i < |items| ==> items[i] < b
    requires probe.Valid() && |probe.path| >= 1
    modifies probe
    ensures probe.Valid()
    ensures probe.State() == ItemsAccepted(probe.toKey, b, items, old(probe.State()))
    decreases b, 0, items
  {
    for i := 0 to |items|
      invariant probe.Valid()
      invariant probe.State() == ItemsAccepted(probe.toKey, b, items[..i], old(probe.State()))
    {
      assert items[..i + 1][..i] == items[..i];
      match items[i]
      case Leaf(n, s) =>
        probe.VisitAtom(n, s);
      case Namespace(n, sub) =>
        probe.VisitStartNamespace(n);
        AcceptItems(b, sub, probe);
        probe.VisitEndNamespace();
      case Child(n, blk) =>
        Accept(n, blk, probe);
    }
    assert items[..|items|] == items;
  }

  /** Collect the hierarchy rooted at `uut` as instance `top` and render it. */
  method GenerateVerilog(uut: Block, toKey: seq<string> -> string) returns (text: seq<string>)
    requires KeyingOk(toKey)
    ensures text == DefinesText(Collected(toKey, uut))
  {
    var defines := new ModuleDefines(toKey);
    Accept("top", uut, defines);
    text := defines.Defines();
  }

  /** The ports of the adder: an 8-bit input `a` and an 8-bit output `sum`. */
  function AdderPorts(lit: VerilogLiteral): seq<AtomDetails>
  {
    [AtomDetails("a", InputParameter, 8, lit), AtomDetails("sum", OutputParameter, 8, lit)]
  }

  /** The adder example: a root with fragment `Empty` holding one child
      `add1`, whose fragment is `body` and whose contents are an 8-bit input
      `a` and an 8-bit output `sum`, in that order. */
  function AdderTop(lit: VerilogLiteral, body: CombinatorialBlock): Block
  {
    Block(Empty, [Child("add1", Block(Combinatorial(body), [
      Leaf("a", Signal(InputParameter, 8, lit, false, "", map[])),
      Leaf("sum", Signal(OutputParameter, 8, lit, false, "", map[]))]))])
  }

  /** The adder table, step by step: the root is entered, then `add1`, then
      its two ports are visited. */
  function AdderSteps(toKey: seq<string> -> string, lit: VerilogLiteral, body: CombinatorialBlock): Table
  {
    var d0 := ScopeEntered(map[], toKey, [], "top", Empty);
    var d1 := ScopeEntered(d0, toKey, ["top"], "add1", Combinatorial(body));
    var d2 := AtomVisited(d1, toKey, ["top", "add1"], [], "a", Signal(InputParameter, 8, lit, false, "", map[]));
    AtomVisited(d2, toKey, ["top", "add1"], [], "sum", Signal(OutputParameter, 8, lit, false, "", map[]))
  }

  /** Walking the adder hierarchy performs exactly those steps. */
  lemma AdderWalked(toKey: seq<string> -> string, lit: VerilogLiteral, body: CombinatorialBlock)
    requires KeyingOk(toKey)
    ensures Collected(toKey, AdderTop(lit, body)) == AdderSteps(toKey, lit, body)
  {
    AdderRootWalked(toKey, lit, body);
    assert [] + ["top"] == ["top"];
  }

  /** Inside the root, its one item `add1` is visited. */
  lemma AdderRootWalked(toKey: seq<string> -> string, lit: VerilogLiteral, body: CombinatorialBlock)
    ensures var d0 := ScopeEntered(map[], toKey, [], "top", Empty);
      var uut := AdderTop(lit, body);
      ItemsAccepted(toKey, uut, uut.items, Walk(["top"], [], d0)) == Walk(["top"], [], AdderSteps(toKey, lit, body))
  {
    var uut := AdderTop(lit, body);
    AdderChildWalked(toKey, lit, body);
    assert uut.items[..0] == [];
  }

  /** Inside the root, visiting `add1` enters it and visits its two ports. */
  lemma AdderChildWalked(toKey: seq<string> -> string, lit: VerilogLiteral, body: CombinatorialBlock)
    ensures var d0 := ScopeEntered(map[], toKey, [], "top", Empty);
      Accepted(toKey, "add1", AdderTop(lit, body).items[0].block, Walk(["top"], [], d0)) == Walk(["top"], [], AdderSteps(toKey, lit, body))
  {
    var child := AdderTop(lit, body).items[0].block;
    var a, sum := child.items[0], child.items[1];
    assert ["top"] + ["add1"] == ["top", "add1"];
    var d0 := ScopeEntered(map[], toKey, [], "top", Empty);
    var d1 := ScopeEntered(d0, toKey, ["top"], "add1", Combinatorial(body));
    var d2 := AtomVisited(d1, toKey, ["top", "add1"], [], "a", a.signal);
    var inAdd1 := Walk(["top", "add1"], [], d1);
    assert ItemsAccepted(toKey, child, [a], inAdd1) == Walk(["top", "add1"], [], d2) by {
      assert [a][..0] == [];
    }
    assert ItemsAccepted(toKey, child, child.items, inAdd1) == Walk(["top", "add1"], [], AdderSteps(toKey, lit, body)) by {
      assert child.items == [a, sum] && [a, sum][..1] == [a];
    }
  }

  /** The stubs the adder leaves in the root: a `reg` for the input `a` and
      a `wire` for the output `sum`, both 8 bits wide. */
  function AdderStubs(lit: VerilogLiteral): seq<AtomDetails>
  {
    [AtomDetails("add1_a", StubInputSignal, 8, lit), AtomDetails("add1_sum", StubOutputSignal, 8, lit)]
  }

  /** The adder example, collected: the table has exactly three records, the
      empty key, the root and `add1`, with the contents `AdderTable` gives. */
  lemma AdderCollected(toKey: seq<string> -> string, lit: VerilogLiteral, body: CombinatorialBlock)
    requires KeyingOk(toKey)
    ensures var top, add1 := toKey(["top"]), toKey(["top", "add1"]);
      var d := Collected(toKey, AdderTop(lit, body));
      "" != top && "" != add1 && top != add1 &&
      d.Keys == {"", top, add1} &&
      d[""] == ModuleDetails([], [SubModuleInvocation(top, "top")], [], Empty) &&
      d[top] == ModuleDetails(AdderStubs(lit), [SubModuleInvocation(add1, "add1")], [], Empty) &&
      d[add1] == ModuleDetails(AdderPorts(lit), [], [], Combinatorial(body))
  {
    AdderWalked(toKey, lit, body);
    AdderStepsTable(toKey, lit, body);
    assert [] != ["top"] && [] != ["top", "add1"] && ["top"] != ["top", "add1"];
  }

  /** What the four adder steps leave in the table. */
  lemma AdderStepsTable(toKey: seq<string> -> string, lit: VerilogLiteral, body: CombinatorialBlock)
    requires KeyingOk(toKey)
    ensures var top, add1 := toKey(["top"]), toKey(["top", "add1"]);
      var d := AdderSteps(toKey, lit, body);
      d.Keys == {"", top, add1} &&
      d[""] == ModuleDetails([], [SubModuleInvocation(top, "top")], [], Empty) &&
      d[top] == ModuleDetails(AdderStubs(lit), [SubModuleInvocation(add1, "add1")], [], Empty) &&
      d[add1] == ModuleDetails(AdderPorts(lit), [], [], Combinatorial(body))
  {
    var top, add1 := toKey(["top"]), toKey(["top", "add1"]);
    assert [] + ["top"] == ["top"] && ["top"] + ["add1"] == ["top", "add1"];
    assert [] != ["top"] && [] != ["top", "add1"] && ["top"] != ["top", "add1"];
    assert Parent(["top", "add1"]) == ["top"];
    var d0 := ScopeEntered(map[], toKey, [], "top", Empty);
    assert d0.Keys == {"", top} && d0[top] == DefaultDetails;
    var d1 := ScopeEntered(d0, toKey, ["top"], "add1", Combinatorial(body));
    assert d1.Keys == {"", top, add1};
    assert d1[top] == DefaultDetails.(subModules := [SubModuleInvocation(add1, "add1")]);
    assert d1[add1] == DefaultDetails.(code := Combinatorial(body));
    assert "add1" + "_" + "a" == "add1_a" && "add1" + "_" + "sum" == "add1_sum";
  }

  /** The adder's child renders as a module with its two ports as arguments
      and its fragment as update code. */
  lemma AdderChildText(toKey: seq<string> -> string, lit: VerilogLiteral, body: CombinatorialBlock)
    requires KeyingOk(toKey)
    ensures var d, add1 := Collected(toKey, AdderTop(lit, body)), toKey(["top", "add1"]);
      add1 in d && IsModule(d, add1) &&
      ModuleText(d, add1) == [
        "\n\nmodule " + add1 + "(a,sum);",
        "\n// Module arguments", "input [7:0] a;", "output reg [7:0] sum;",
        "\n// Update code", VerilogCombinatorial(body),
        "endmodule // " + add1]
  {
    var add1 := toKey(["top", "add1"]);
    AdderCollected(toKey, lit, body);
    ChildModuleText(Collected(toKey, AdderTop(lit, body)), add1, lit, body);
    AdderHeader(add1, lit);
    AdderPortDecls(lit);
  }

  /** The adder's root renders as a module with no arguments, the two stubs
      and the one instance line wiring them. */
  lemma AdderRootText(toKey: seq<string> -> string, lit: VerilogLiteral, body: CombinatorialBlock)
    requires KeyingOk(toKey)
    ensures var d, top, add1 := Collected(toKey, AdderTop(lit, body)), toKey(["top"]), toKey(["top", "add1"]);
      top in d && IsModule(d, top) &&
      ModuleText(d, top) == [
        "\n\nmodule " + top + "();",
        "\n// Stub signals", "reg [7:0] add1_a;", "wire [7:0] add1_sum;",
        "\n// Sub module instances", add1 + " " + "add1" + "(" + (".a(add1_a)" + "," + ".sum(add1_sum)") + ");",
        "endmodule // " + top]
  {
    var d, top, add1 := Collected(toKey, AdderTop(lit, body)), toKey(["top"]), toKey(["top", "add1"]);
    AdderCollected(toKey, lit, body);
    RootModuleText(d, top, add1, lit);
    AdderStubDecls(lit);
    AdderInstance(add1, lit, d[add1]);
    AdderRootHeader(top, lit);
  }

  /** The adder's root has no ports: its header lists no arguments. */
  lemma AdderRootHeader(top: string, lit: VerilogLiteral)
    ensures Header(top, AdderStubs(lit)) == "\n\nmodule " + top + "();"
  {
    AdderStubGroups(lit);
    assert Names([]) == [] && Join([], ",") == "";
  }

  /** The text of a record holding the adder's ports and `body`. */
  lemma ChildModuleText(d: Table, add1: string, lit: VerilogLiteral, body: CombinatorialBlock)
    requires add1 in d && add1 != "" && Resolves(d)
    requires d[add1] == ModuleDetails(AdderPorts(lit), [], [], Combinatorial(body))
    ensures var ports := AdderPorts(lit);
      IsModule(d, add1) &&
      ModuleText(d, add1) == [
        Header(add1, ports),
        "\n// Module arguments", Decl(ports[0]), Decl(ports[1]),
        "\n// Update code", VerilogCombinatorial(body),
        Footer(add1)]
  {
    var ports := AdderPorts(lit);
    AdderPortGroups(lit);
    AdderPortSection(lit);
    var args := ["\n// Module arguments", Decl(ports[0]), Decl(ports[1])];
    var code := ["\n// Update code", VerilogCombinatorial(body)];
    assert ModuleText(d, add1) == [Header(add1, ports)] + args + [] + [] + [] + [] + [] + code + [Footer(add1)];
  }

  /** The text of a record holding the adder's stubs and its one instance of
      a record holding the adder's ports. */
  lemma RootModuleText(d: Table, top: string, add1: string, lit: VerilogLiteral)
    requires top in d && top != "" && add1 in d && Resolves(d)
    requires d[top] == ModuleDetails(AdderStubs(lit), [SubModuleInvocation(add1, "add1")], [], Empty)
    requires !d[add1].code.Blackbox?
    ensures var stubs, inv := AdderStubs(lit), SubModuleInvocation(add1, "add1");
      IsModule(d, top) &&
      ModuleText(d, top) == [
        Header(top, stubs),
        "\n// Stub signals", Decl(stubs[0]), Decl(stubs[1]),
        "\n// Sub module instances", InstanceLine(inv, d[add1]),
        Footer(top)]
  {
    var stubs, inv := AdderStubs(lit), SubModuleInvocation(add1, "add1");
    AdderStubGroups(lit);
    AdderStubSection(lit);
    OneInstance(d, inv);
    var decls := ["\n// Stub signals", Decl(stubs[0]), Decl(stubs[1])];
    var insts := ["\n// Sub module instances", InstanceLine(inv, d[add1])];
    assert ModuleText(d, top) == [Header(top, stubs)] + [] + [] + [] + decls + [] + insts + [] + [Footer(top)];
  }

  /** The adder's argument section: its title and one declaration per port. */
  lemma AdderPortSection(lit: VerilogLiteral)
    ensures var ports := AdderPorts(lit);
      Section("\n// Module arguments", ports) == ["\n// Module arguments", Decl(ports[0]), Decl(ports[1])]
  {
  }

  /** The root's stub section: its title and one declaration per stub. */
  lemma AdderStubSection(lit: VerilogLiteral)
    ensures var stubs := AdderStubs(lit);
      Section("\n// Stub signals", stubs) == ["\n// Stub signals", Decl(stubs[0]), Decl(stubs[1])]
  {
  }

  /** A single instance of a non-black-box child gives a titled section of
      one instance line. */
  lemma OneInstance(d: Table, inv: SubModuleInvocation)
    requires inv.kind in d && !d[inv.kind].code.Blackbox?
    ensures InstanceSection(d, [inv]) == ["\n// Sub module instances", InstanceLine(inv, d[inv.kind])]
  {
    assert [inv][..0] == [];
    assert InstanceLines(d, [inv]) == [InstanceLine(inv, d[inv.kind])];
  }

  /** Of the adder's ports, only the argument group is non-empty. */
  lemma AdderPortGroups(lit: VerilogLiteral)
    ensures Select(AdderPorts(lit), Ports) == AdderPorts(lit)
    ensures Select(AdderPorts(lit), Consts) == [] && Select(AdderPorts(lit), Stubs) == [] && Select(AdderPorts(lit), Locals) == []
  {
    var ports := AdderPorts(lit);
    assert ports[..1] == [ports[0]] && [ports[0]][..0] == [];
    assert Select([ports[0]], Ports) == [ports[0]];
    assert Select([ports[0]], Consts) == [] && Select([ports[0]], Stubs) == [] && Select([ports[0]], Locals) == [];
  }

  /** Of the adder's stubs, only the stub group is non-empty. */
  lemma AdderStubGroups(lit: VerilogLiteral)
    ensures Select(AdderStubs(lit), Stubs) == AdderStubs(lit)
    ensures Select(AdderStubs(lit), Ports) == [] && Select(AdderStubs(lit), Consts) == [] && Select(AdderStubs(lit), Locals) == []
  {
    var stubs := AdderStubs(lit);
    assert stubs[..1] == [stubs[0]] && [stubs[0]][..0] == [];
    assert Select([stubs[0]], Stubs) == [stubs[0]];
    assert Select([stubs[0]], Ports) == [] && Select([stubs[0]], Consts) == [] && Select([stubs[0]], Locals) == [];
  }

  /** An 8-bit declaration that is not a constant: `<keyword> [7:0] <name>;`. */
  lemma DeclEightBits(x: AtomDetails)
    requires x.kind != Constant && x.width == 8
    ensures Decl(x) == Keyword(x.kind) + " [7:0] " + x.name + ";"
  {
    assert NatToString(7) == "7";
  }

  /** The adder's port declarations. */
  lemma AdderPortDecls(lit: VerilogLiteral)
    ensures Decl(AdderPorts(lit)[0]) == "input [7:0] a;"
    ensures Decl(AdderPorts(lit)[1]) == "output reg [7:0] sum;"
  {
    DeclEightBits(AdderPorts(lit)[0]);
    DeclEightBits(AdderPorts(lit)[1]);
  }

  /** The adder's stub declarations. */
  lemma AdderStubDecls(lit: VerilogLiteral)
    ensures Decl(AdderStubs(lit)[0]) == "reg [7:0] add1_a;"
    ensures Decl(AdderStubs(lit)[1]) == "wire [7:0] add1_sum;"
  {
    DeclEightBits(AdderStubs(lit)[0]);
    DeclEightBits(AdderStubs(lit)[1]);
  }

  /** The adder example, rendered: the child's header lists both ports. */
  lemma AdderHeader(add1: string, lit: VerilogLiteral)
    ensures Header(add1, AdderPorts(lit)) == "\n\nmodule " + add1 + "(a,sum);"
  {
    var ports := AdderPorts(lit);
    assert ports[..1] == [ports[0]] && [ports[0]][..0] == [];
    assert Select([ports[0]], Ports) == [ports[0]];
    assert Select(ports, Ports) == [ports[0]] + [ports[1]];
    assert [ports[0]] + [ports[1]] == ports;
    NamesAt(ports);
    assert Names(ports) == ["a", "sum"];
    assert Join(["a", "sum"], ",") == "a,sum";
  }

  /** The adder example, rendered: the root's instance line wires each port
      of the child to its stub. */
  lemma AdderInstance(add1: string, lit: VerilogLiteral, child: ModuleDetails)
    requires child.atoms == AdderPorts(lit)
    ensures InstanceLine(SubModuleInvocation(add1, "add1"), child) ==
      add1 + " " + "add1" + "(" + (".a(add1_a)" + "," + ".sum(add1_sum)") + ");"
  {
    var ports := child.atoms;
    var a, sum := ".a(add1_a)", ".sum(add1_sum)";
    assert Select(ports, Ports) == ports by {
      assert ports[..1] == [ports[0]] && [ports[0]][..0] == [];
      assert Select([ports[0]], Ports) == [ports[0]];
      assert Select(ports, Ports) == [ports[0]] + [ports[1]];
      assert [ports[0]] + [ports[1]] == ports;
    }
    assert Connections("add1", ports) == [a, sum] by {
      ConnectionsAt("add1", ports);
      assert Connection("add1", ports[0]) == a;
      assert Connection("add1", ports[1]) == sum;
    }
    assert Join([a, sum], ",") == a + "," + sum by {
      assert [a, sum][..1] == [a];
    }
  }
}
