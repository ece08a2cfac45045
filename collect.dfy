/** The `ModuleDefines` visitor: during one traversal of the block hierarchy
    it keeps the scope path, the namespace path and a table from serialized
    scope path to the scope's record, and afterwards renders that table. */
module Collect {
  import opened Text
  import opened Hdl
  import opened Render

  /** A leaf signal as the visitor queries it through the `Atom` trait. */
  datatype Signal = Signal(
    kind: AtomKind,
    bits: Width,
    verilog: VerilogLiteral,
    isEnum: bool,
    typeName: string,
    names: map<nat, string>)
  {
    /** The discriminant name of value `x`; empty when `x` is unnamed. */
    function Name(x: nat): string { if x in names then names[x] else "" }
  }

  /** `1 << b` */
  function Pow2(b: nat): (r: nat)
    ensures r >= 1
  {
    if b == 0 then 1 else 2 * Pow2(b - 1)
  }

  // ---------------------------------------------------------------------
  // Naming

  /** The stored name of an atom visited under namespace path `ns`: prefixed
      by the `_`-flattened namespace unless that is empty. */
  function Mangle(ns: seq<string>, name: string): (r: string)
    ensures ns == [] ==> r == name
  {
    var flat := Join(ns, "_");
    if flat == "" then name else flat + "_" + name
  }

  /** With non-empty namespace names, mangling joins the namespace path and
      the atom's own name with `_`; outside every namespace the name is kept. */
  lemma MangleJoins(ns: seq<string>, name: string)
    requires forall i :: 0 <= i < |ns| ==> ns[i] != ""
    ensures Mangle(ns, name) == Join(ns + [name], "_")
    ensures ns == [] ==> Mangle(ns, name) == name
  {
    JoinEmpty(ns, "_");
    if ns != [] {
      assert (ns + [name])[..|ns|] == ns;
    }
  }

  /** The record of an atom that was visited under the stored name `name`. */
  function AtomOf(name: string, s: Signal): AtomDetails
  {
    AtomDetails(name, s.kind, s.bits, s.verilog)
  }

  /** A parent drives a child's input and reads its output. */
  function StubKind(k: AtomKind): AtomKind
  {
    if k == InputParameter then StubInputSignal else StubOutputSignal
  }

  /** The parent-side stub of port `p` of the child instance `instance`. */
  function StubFor(instance: string, p: AtomDetails): AtomDetails
  {
    AtomDetails(instance + "_" + p.name, StubKind(p.kind), p.width, p.constVal)
  }

  /** A stub is named `<instance>_<port>`, is as wide as the port, and is a
      stub input for an input port and a stub output for an output port. */
  lemma StubShape(instance: string, p: AtomDetails)
    requires p.kind.IsParameter()
    ensures var s := StubFor(instance, p);
      s.name == instance + "_" + p.name && s.width == p.width && s.kind.IsStub() &&
      (s.kind == StubInputSignal <==> p.kind == InputParameter) &&
      (s.kind == StubOutputSignal <==> p.kind == OutputParameter)
  {
  }

  // ---------------------------------------------------------------------
  // Enum definitions

  /** The definitions for the named values among `0 .. n`, ascending. */
  function EnumValues(s: Signal, n: nat): seq<EnumDefinition>
  {
    if n == 0 then []
    else
      var tail := if s.Name(n - 1) != "" then [EnumDefinition(s.typeName, s.Name(n - 1), n - 1)] else [];
      EnumValues(s, n - 1) + tail
  }

  /** The definitions contributed by an enumerable signal: one per value it can hold. */
  function EnumDefs(s: Signal): seq<EnumDefinition>
  {
    EnumValues(s, Pow2(s.bits))
  }

  lemma {:induction false} EnumValuesSpec(s: Signal, n: nat)
    ensures forall e :: e in EnumValues(s, n) <==>
      e.value < n && s.Name(e.value) != "" && e == EnumDefinition(s.typeName, s.Name(e.value), e.value)
    ensures forall i, j :: 0 <= i < j < |EnumValues(s, n)| ==> EnumValues(s, n)[i].value < EnumValues(s, n)[j].value
  {
    if n > 0 {
      EnumValuesSpec(s, n - 1);
    }
  }

  /** An enumerable signal of `b` bits contributes exactly the values below
      `2^b` whose discriminant name is non-empty, each once, ascending. */
  lemma EnumDefsSpec(s: Signal)
    ensures forall e :: e in EnumDefs(s) <==>
      e.value < Pow2(s.bits) && s.Name(e.value) != "" && e == EnumDefinition(s.typeName, s.Name(e.value), e.value)
    ensures forall i, j :: 0 <= i < j < |EnumDefs(s)| ==> EnumDefs(s)[i].value < EnumDefs(s)[j].value
  {
    EnumValuesSpec(s, Pow2(s.bits));
  }

  // ---------------------------------------------------------------------
  // The table and its primitive updates (`entry(..).or_default()` then change)

  type Table = map<string, ModuleDetails>

  function Entry(d: Table, k: string): ModuleDetails
  {
    if k in d then d[k] else DefaultDetails
  }

  function WithAtom(d: Table, k: string, a: AtomDetails): Table
  {
    d[k := Entry(d, k).(atoms := Entry(d, k).atoms + [a])]
  }

  function WithSubmodule(d: Table, k: string, name: string, kind: string): Table
  {
    d[k := Entry(d, k).(subModules := Entry(d, k).subModules + [SubModuleInvocation(kind, name)])]
  }

  function WithEnums(d: Table, k: string, es: seq<EnumDefinition>): Table
  {
    d[k := Entry(d, k).(enums := Entry(d, k).enums + es)]
  }

  function WithCode(d: Table, k: string, code: Verilog): Table
  {
    d[k := Entry(d, k).(code := code)]
  }

  // ---------------------------------------------------------------------
  // What the callbacks do to the table

  function Parent(path: seq<string>): seq<string>
    requires |path| >= 1
  {
    path[..|path| - 1]
  }

  function Last(path: seq<string>): string
    requires |path| >= 1
  {
    path[|path| - 1]
  }

  /** Dropping the innermost name, as `Vec::pop` does; popping an empty
      stack leaves it empty. */
  function Pop(stack: seq<string>): (r: seq<string>)
    ensures stack == [] ==> r == []
    ensures stack != [] ==> r + [stack[|stack| - 1]] == stack
  {
    if stack == [] then [] else stack[..|stack| - 1]
  }

  /** The visitor's whole state: scope path, namespace stack and table. */
  datatype Walk = Walk(path: seq<string>, ns: seq<string>, d: Table)

  /** Entering scope `name` from `path`: the parent records the instance,
      the child's record takes the node's fragment. */
  function ScopeEntered(d: Table, toKey: seq<string> -> string, path: seq<string>, name: string, code: Verilog): Table
  {
    var child := toKey(path + [name]);
    WithCode(WithSubmodule(d, toKey(path), name, child), child, code)
  }

  /** Visiting atom `name` in scope `path` under namespace `ns`. */
  function AtomVisited(d: Table, toKey: seq<string> -> string, path: seq<string>, ns: seq<string>, name: string, s: Signal): Table
    requires |path| >= 1
  {
    var param := AtomOf(Mangle(ns, name), s);
    var d1 := if param.kind.IsParameter() then WithAtom(d, toKey(Parent(path)), StubFor(Last(path), param)) else d;
    var d2 := if s.isEnum then WithEnums(d1, toKey(path), EnumDefs(s)) else d1;
    WithAtom(d2, toKey(path), param)
  }

  // ---------------------------------------------------------------------
  // The table invariant

  /** The path serialization: the empty path is the empty key, and distinct
      paths have distinct keys. */
  ghost predicate KeyingOk(toKey: seq<string> -> string)
  {
    toKey([]) == "" && forall p, q :: toKey(p) == toKey(q) ==> p == q
  }

  /** Every instantiated child has a record. */
  ghost predicate EntriesResolve(d: Table)
  {
    forall k, i :: k in d && 0 <= i < |d[k].subModules| ==> d[k].subModules[i].kind in d
  }

  /** An instance of the scope at path `q` sits in the record of `q`'s parent
      and is named after `q`'s last element. */
  ghost predicate EntriesPlaced(toKey: seq<string> -> string, d: Table)
  {
    forall k, i, q :: k in d && 0 <= i < |d[k].subModules| && d[k].subModules[i].kind == toKey(q) ==>
      |q| >= 1 && d[k].subModules[i].name == Last(q) && k == toKey(Parent(q))
  }

  /** Every port of the scope at `q` has its stub in the record of `q`'s parent. */
  ghost predicate PortsStubbed(toKey: seq<string> -> string, d: Table)
  {
    forall q, j {:trigger d[toKey(q)].atoms[j]} ::
      |q| >= 1 && toKey(q) in d && 0 <= j < |d[toKey(q)].atoms| && d[toKey(q)].atoms[j].kind.IsParameter() ==>
        toKey(Parent(q)) in d && StubFor(Last(q), d[toKey(q)].atoms[j]) in d[toKey(Parent(q))].atoms
  }

  /** Stub symmetry: for every instance in a record and every port of the
      instantiated child, the record holds that port's stub. */
  ghost predicate EntriesStubbed(d: Table)
  {
    forall k, i, j ::
      k in d && 0 <= i < |d[k].subModules| && d[k].subModules[i].kind in d &&
      0 <= j < |d[d[k].subModules[i].kind].atoms| && d[d[k].subModules[i].kind].atoms[j].kind.IsParameter() ==>
        StubFor(d[k].subModules[i].name, d[d[k].subModules[i].kind].atoms[j]) in d[k].atoms
  }

  ghost predicate Consistent(toKey: seq<string> -> string, d: Table)
  {
    KeyingOk(toKey) && EntriesResolve(d) && EntriesPlaced(toKey, d) && PortsStubbed(toKey, d) && EntriesStubbed(d)
  }

  /** A parent path never shares its child's key. */
  lemma ParentKeyDiffers(toKey: seq<string> -> string, path: seq<string>)
    requires KeyingOk(toKey) && |path| >= 1
    ensures toKey(Parent(path)) != toKey(path)
  {
    assert |Parent(path)| < |path|;
  }

  /** The empty table is consistent. */
  lemma EmptyConsistent(toKey: seq<string> -> string)
    requires KeyingOk(toKey)
    ensures Consistent(toKey, map[])
  {
  }

  /** Adding an atom that is not a port keeps the invariant. */
  lemma WithNonPortConsistent(toKey: seq<string> -> string, d: Table, k: string, a: AtomDetails)
    requires Consistent(toKey, d) && !a.kind.IsParameter()
    ensures Consistent(toKey, WithAtom(d, k, a))
  {
    var d' := WithAtom(d, k, a);
    forall q, j | |q| >= 1 && toKey(q) in d' && 0 <= j < |d'[toKey(q)].atoms| && d'[toKey(q)].atoms[j].kind.IsParameter()
      ensures toKey(Parent(q)) in d' && StubFor(Last(q), d'[toKey(q)].atoms[j]) in d'[toKey(Parent(q))].atoms
    {
      assert toKey(q) in d && d'[toKey(q)].atoms[j] == d[toKey(q)].atoms[j];
    }
    forall kk, i, j |
      kk in d' && 0 <= i < |d'[kk].subModules| && d'[kk].subModules[i].kind in d' &&
      0 <= j < |d'[d'[kk].subModules[i].kind].atoms| && d'[d'[kk].subModules[i].kind].atoms[j].kind.IsParameter()
      ensures StubFor(d'[kk].subModules[i].name, d'[d'[kk].subModules[i].kind].atoms[j]) in d'[kk].atoms
    {
      var c := d'[kk].subModules[i];
      assert kk in d && c == d[kk].subModules[i];
      assert c.kind in d && d'[c.kind].atoms[j] == d[c.kind].atoms[j];
    }
  }

  /** Adding enum definitions keeps the invariant. */
  lemma WithEnumsConsistent(toKey: seq<string> -> string, d: Table, k: string, es: seq<EnumDefinition>)
    requires Consistent(toKey, d)
    ensures Consistent(toKey, WithEnums(d, k, es))
  {
    var d' := WithEnums(d, k, es);
    assert forall kk :: kk in d' ==> d'[kk].atoms == Entry(d, kk).atoms && d'[kk].subModules == Entry(d, kk).subModules;
  }

  /** Adding a port to the scope at `path` keeps the invariant once its stub
      is in the parent's record. */
  lemma WithPortConsistent(toKey: seq<string> -> string, d: Table, path: seq<string>, p: AtomDetails)
    requires Consistent(toKey, d) && |path| >= 1 && p.kind.IsParameter()
    requires toKey(Parent(path)) in d && StubFor(Last(path), p) in d[toKey(Parent(path))].atoms
    ensures Consistent(toKey, WithAtom(d, toKey(path), p))
  {
    var mk := toKey(path);
    var d' := WithAtom(d, mk, p);
    ParentKeyDiffers(toKey, path);
    forall q, j | |q| >= 1 && toKey(q) in d' && 0 <= j < |d'[toKey(q)].atoms| && d'[toKey(q)].atoms[j].kind.IsParameter()
      ensures toKey(Parent(q)) in d' && StubFor(Last(q), d'[toKey(q)].atoms[j]) in d'[toKey(Parent(q))].atoms
    {
      if toKey(q) == mk {
        assert q == path;
        if j == |Entry(d, mk).atoms| {
          assert d'[toKey(q)].atoms[j] == p;
        } else {
          assert d'[toKey(q)].atoms[j] == d[toKey(q)].atoms[j];
        }
      } else {
        assert d'[toKey(q)].atoms[j] == d[toKey(q)].atoms[j];
      }
    }
    forall kk, i, j |
      kk in d' && 0 <= i < |d'[kk].subModules| && d'[kk].subModules[i].kind in d' &&
      0 <= j < |d'[d'[kk].subModules[i].kind].atoms| && d'[d'[kk].subModules[i].kind].atoms[j].kind.IsParameter()
      ensures StubFor(d'[kk].subModules[i].name, d'[d'[kk].subModules[i].kind].atoms[j]) in d'[kk].atoms
    {
      var c := d'[kk].subModules[i];
      assert kk in d && c == d[kk].subModules[i];
      if c.kind == mk && j == |Entry(d, mk).atoms| {
        assert kk == toKey(Parent(path)) && c.name == Last(path);
      } else {
        assert c.kind in d && d'[c.kind].atoms[j] == d[c.kind].atoms[j];
      }
    }
  }

  /** Visiting an atom keeps the invariant. */
  lemma AtomVisitedConsistent(toKey: seq<string> -> string, d: Table, path: seq<string>, ns: seq<string>, name: string, s: Signal)
    requires Consistent(toKey, d) && |path| >= 1
    ensures Consistent(toKey, AtomVisited(d, toKey, path, ns, name, s))
  {
    var param := AtomOf(Mangle(ns, name), s);
    var pk := toKey(Parent(path));
    var d1 := if param.kind.IsParameter() then WithAtom(d, pk, StubFor(Last(path), param)) else d;
    if param.kind.IsParameter() {
      WithNonPortConsistent(toKey, d, pk, StubFor(Last(path), param));
    }
    var d2 := if s.isEnum then WithEnums(d1, toKey(path), EnumDefs(s)) else d1;
    if s.isEnum {
      WithEnumsConsistent(toKey, d1, toKey(path), EnumDefs(s));
    }
    if param.kind.IsParameter() {
      ParentKeyDiffers(toKey, path);
      assert d2[pk].atoms == d1[pk].atoms;
      WithPortConsistent(toKey, d2, path, param);
    } else {
      WithNonPortConsistent(toKey, d2, toKey(path), param);
    }
  }

  /** Entering a scope keeps every instance placed under its parent. */
  lemma ScopeEnteredPlaced(toKey: seq<string> -> string, d: Table, path: seq<string>, name: string, code: Verilog)
    requires Consistent(toKey, d)
    ensures EntriesPlaced(toKey, ScopeEntered(d, toKey, path, name, code))
  {
    var child := path + [name];
    var pk := toKey(path);
    var d' := ScopeEntered(d, toKey, path, name, code);
    ScopeEnteredEffect(toKey, d, path, name, code);
    var n := |Entry(d, pk).subModules|;
    forall kk, i, q | kk in d' && 0 <= i < |d'[kk].subModules| && d'[kk].subModules[i].kind == toKey(q)
      ensures |q| >= 1 && d'[kk].subModules[i].name == Last(q) && kk == toKey(Parent(q))
    {
      if kk == pk && i == n {
        assert toKey(q) == toKey(child);
        assert q == child;
      } else {
        assert kk in d && d'[kk].subModules[i] == d[kk].subModules[i];
      }
    }
  }

  /** Entering a scope keeps every instance's stubs in its record. */
  lemma ScopeEnteredStubbed(toKey: seq<string> -> string, d: Table, path: seq<string>, name: string, code: Verilog)
    requires Consistent(toKey, d)
    ensures EntriesStubbed(ScopeEntered(d, toKey, path, name, code))
  {
    var child := path + [name];
    var ck := toKey(child);
    var pk := toKey(path);
    var d' := ScopeEntered(d, toKey, path, name, code);
    ScopeEnteredEffect(toKey, d, path, name, code);
    var n := |Entry(d, pk).subModules|;
    forall kk, i, j |
      kk in d' && 0 <= i < |d'[kk].subModules| && d'[kk].subModules[i].kind in d' &&
      0 <= j < |d'[d'[kk].subModules[i].kind].atoms| && d'[d'[kk].subModules[i].kind].atoms[j].kind.IsParameter()
      ensures StubFor(d'[kk].subModules[i].name, d'[d'[kk].subModules[i].kind].atoms[j]) in d'[kk].atoms
    {
      var c := d'[kk].subModules[i];
      assert d'[c.kind].atoms == Entry(d, c.kind).atoms;
      assert d'[kk].atoms == Entry(d, kk).atoms;
      if kk == pk && i == n {
        assert c.kind == toKey(child) && c.name == Last(child) && Parent(child) == path;
        assert d'[c.kind].atoms[j] == d[toKey(child)].atoms[j];
      } else {
        assert kk in d && c == d[kk].subModules[i];
        assert c.kind in d && d'[c.kind].atoms[j] == d[c.kind].atoms[j];
      }
    }
  }

  /** Entering a scope keeps every instantiated child resolvable. */
  lemma ScopeEnteredResolves(toKey: seq<string> -> string, d: Table, path: seq<string>, name: string, code: Verilog)
    requires Consistent(toKey, d)
    ensures EntriesResolve(ScopeEntered(d, toKey, path, name, code))
  {
    var pk := toKey(path);
    var d' := ScopeEntered(d, toKey, path, name, code);
    ScopeEnteredEffect(toKey, d, path, name, code);
    var n := |Entry(d, pk).subModules|;
    forall kk, i | kk in d' && 0 <= i < |d'[kk].subModules|
      ensures d'[kk].subModules[i].kind in d'
    {
      if !(kk == pk && i == n) {
        assert kk in d && d'[kk].subModules[i] == d[kk].subModules[i];
      }
    }
  }

  /** Entering a scope keeps every port's stub in the parent's record. */
  lemma ScopeEnteredPortsStubbed(toKey: seq<string> -> string, d: Table, path: seq<string>, name: string, code: Verilog)
    requires Consistent(toKey, d)
    ensures PortsStubbed(toKey, ScopeEntered(d, toKey, path, name, code))
  {
    var d' := ScopeEntered(d, toKey, path, name, code);
    ScopeEnteredEffect(toKey, d, path, name, code);
    forall q, j | |q| >= 1 && toKey(q) in d' && 0 <= j < |d'[toKey(q)].atoms| && d'[toKey(q)].atoms[j].kind.IsParameter()
      ensures toKey(Parent(q)) in d' && StubFor(Last(q), d'[toKey(q)].atoms[j]) in d'[toKey(Parent(q))].atoms
    {
      assert d'[toKey(q)].atoms == Entry(d, toKey(q)).atoms;
      assert toKey(q) in d && d'[toKey(q)].atoms[j] == d[toKey(q)].atoms[j];
      assert d'[toKey(Parent(q))].atoms == d[toKey(Parent(q))].atoms;
    }
  }

  /** Entering a scope keeps the invariant. */
  lemma ScopeEnteredConsistent(toKey: seq<string> -> string, d: Table, path: seq<string>, name: string, code: Verilog)
    requires Consistent(toKey, d)
    ensures Consistent(toKey, ScopeEntered(d, toKey, path, name, code))
  {
    ScopeEnteredResolves(toKey, d, path, name, code);
    ScopeEnteredPlaced(toKey, d, path, name, code);
    ScopeEnteredPortsStubbed(toKey, d, path, name, code);
    ScopeEnteredStubbed(toKey, d, path, name, code);
  }

  // ---------------------------------------------------------------------
  // Per-call effects

  /** An atom visit appends the mangled atom at the end of the current
      record (and the signal's enum definitions when it is enumerable); a port
      also appends exactly one stub, `<instance>_<name>` of the port's width,
      to the parent's record; no other record changes. */
  lemma AtomVisitedEffect(toKey: seq<string> -> string, d: Table, path: seq<string>, ns: seq<string>, name: string, s: Signal)
    requires KeyingOk(toKey) && |path| >= 1
    ensures var d' := AtomVisited(d, toKey, path, ns, name, s);
      var mk := toKey(path);
      var pk := toKey(Parent(path));
      var param := AtomDetails(Mangle(ns, name), s.kind, s.bits, s.verilog);
      d'.Keys == d.Keys + {mk} + (if s.kind.IsParameter() then {pk} else {}) &&
      d'[mk] == Entry(d, mk).(atoms := Entry(d, mk).atoms + [param],
                               enums := Entry(d, mk).enums + (if s.isEnum then EnumDefs(s) else [])) &&
      (s.kind.IsParameter() ==>
        d'[pk] == Entry(d, pk).(atoms := Entry(d, pk).atoms +
          [AtomDetails(Last(path) + "_" + param.name,
                       if s.kind == InputParameter then StubInputSignal else StubOutputSignal,
                       s.bits, s.verilog)])) &&
      (forall k :: k in d && k != mk && (s.kind.IsParameter() ==> k != pk) ==> d'[k] == d[k])
  {
    ParentKeyDiffers(toKey, path);
  }

  /** Entering scope `name` appends `(new path key, name)` to the record of
      the path before the push and sets (replaces) the new record's fragment;
      nothing else changes. */
  lemma ScopeEnteredEffect(toKey: seq<string> -> string, d: Table, path: seq<string>, name: string, code: Verilog)
    requires KeyingOk(toKey)
    ensures var d' := ScopeEntered(d, toKey, path, name, code);
      var ck := toKey(path + [name]);
      var pk := toKey(path);
      d'.Keys == d.Keys + {pk, ck} &&
      d'[pk] == Entry(d, pk).(subModules := Entry(d, pk).subModules + [SubModuleInvocation(ck, name)]) &&
      d'[ck] == Entry(d, ck).(code := code) &&
      (forall k :: k in d && k != pk && k != ck ==> d'[k] == d[k])
  {
    assert Parent(path + [name]) == path;
    ParentKeyDiffers(toKey, path + [name]);
  }

  // ---------------------------------------------------------------------
  // What the renderer makes of a consistent table

  /** A consistent table satisfies the renderer's lookup demand. */
  lemma ConsistentResolves(toKey: seq<string> -> string, d: Table)
    requires Consistent(toKey, d)
    ensures Resolves(d)
  {
  }

  /** A parent that holds the stub of a child's port wires that port: the
      instance line connects it to the stub, and the parent's stub section
      declares the stub with the port's width. */
  lemma WiredPort(c: SubModuleInvocation, child: ModuleDetails, parent: ModuleDetails, p: AtomDetails)
    requires p in Select(child.atoms, Ports) && StubFor(c.name, p) in parent.atoms
    ensures Connection(c.name, p) in Connections(c.name, Select(child.atoms, Ports))
    ensures StubFor(c.name, p) in Select(parent.atoms, Stubs)
    ensures Decl(StubFor(c.name, p)) in DeclLines(Select(parent.atoms, Stubs))
    ensures StubFor(c.name, p).name == c.name + "_" + p.name && StubFor(c.name, p).width == p.width
  {
    var ports := Select(child.atoms, Ports);
    var stub := StubFor(c.name, p);
    SelectMembers(child.atoms, Ports);
    SelectMembers(parent.atoms, Stubs);
    var stubs := Select(parent.atoms, Stubs);
    var m :| 0 <= m < |ports| && ports[m] == p;
    ConnectionsAt(c.name, ports);
    assert Connections(c.name, ports)[m] == Connection(c.name, p);
    var t :| 0 <= t < |stubs| && stubs[t] == stub;
    assert DeclLines(stubs)[t] == Decl(stub);
  }

  /** Instantiation wiring: in a consistent table, each connection of a
      rendered instance, `.<p>(<instance>_<p>)`, names a stub that the
      parent module declares in its stub section with the port's width and
      direction. */
  lemma WiredToStubs(toKey: seq<string> -> string, d: Table, k: string, i: nat, p: AtomDetails)
    requires Consistent(toKey, d) && k in d && i < |d[k].subModules|
    requires p in Select(d[d[k].subModules[i].kind].atoms, Ports)
    ensures var c := d[k].subModules[i];
      Connection(c.name, p) in Connections(c.name, Select(d[c.kind].atoms, Ports)) &&
      StubFor(c.name, p) in Select(d[k].atoms, Stubs) &&
      Decl(StubFor(c.name, p)) in DeclLines(Select(d[k].atoms, Stubs)) &&
      StubFor(c.name, p).name == c.name + "_" + p.name && StubFor(c.name, p).width == p.width
  {
    var c := d[k].subModules[i];
    assert StubFor(c.name, p) in d[k].atoms by {
      SelectMembers(d[c.kind].atoms, Ports);
      var j :| 0 <= j < |d[c.kind].atoms| && d[c.kind].atoms[j] == p;
    }
    WiredPort(c, d[c.kind], d[k], p);
  }

  // ---------------------------------------------------------------------
  // The visitor

  class ModuleDefines {
    var path: seq<string>
    var namespace: seq<string>
    var details: Table
    /** The serialization of a scope path (`NamedPath::to_string`). */
    const toKey: seq<string> -> string

    ghost predicate Valid()
      reads this
    {
      Consistent(toKey, details)
    }

    function State(): Walk
      reads this
    {
      Walk(path, namespace, details)
    }

    /** `ModuleDefines::default()` */
    constructor (toKey: seq<string> -> string)
      requires KeyingOk(toKey)
      ensures Valid() && this.toKey == toKey
      ensures path == [] && namespace == [] && details == map[]
    {
      this.toKey := toKey;
      path := [];
      namespace := [];
      details := map[];
      new;
      EmptyConsistent(toKey);
    }

    method AddAtom(key: string, atom: AtomDetails)
      modifies this`details
      ensures details == WithAtom(old(details), key, atom)
    {
      var entry := if key in details then details[key] else DefaultDetails;
      details := details[key := entry.(atoms := entry.atoms + [atom])];
    }

    method AddSubmodule(key: string, name: string, kind: string)
      modifies this`details
      ensures details == WithSubmodule(old(details), key, name, kind)
    {
      var entry := if key in details then details[key] else DefaultDetails;
      details := details[key := entry.(subModules := entry.subModules + [SubModuleInvocation(kind, name)])];
    }

    method AddEnum(key: string, signal: Signal)
      modifies this`details
      ensures details == WithEnums(old(details), key, EnumDefs(signal))
    {
      var entry := if key in details then details[key] else DefaultDetails;
      details := details[key := entry.(enums := entry.enums + EnumDefs(signal))];
    }

    method AddCode(key: string, code: Verilog)
      modifies this`details
      ensures details == WithCode(old(details), key, code)
    {
      var entry := if key in details then details[key] else DefaultDetails;
      details := details[key := entry.(code := code)];
    }

    /** Enter the child `name` whose node renders to `hdl`. */
    method VisitStartScope(name: string, hdl: Verilog)
      requires Valid()
      modifies this`path, this`namespace, this`details
      ensures Valid()
      ensures path == old(path) + [name] && namespace == []
      ensures details == ScopeEntered(old(details), toKey, old(path), name, hdl)
    {
      ScopeEnteredConsistent(toKey, details, path, name, hdl);
      var topLevel := toKey(path);
      path := path + [name];
      namespace := [];
      AddSubmodule(topLevel, name, toKey(path));
      AddCode(toKey(path), hdl);
    }

    method VisitStartNamespace(name: string)
      modifies this`namespace
      ensures namespace == old(namespace) + [name]
    {
      namespace := namespace + [name];
    }

    /** Visit a leaf signal of the current scope. */
    method VisitAtom(name: string, signal: Signal)
      requires Valid() && |path| >= 1
      modifies this`details
      ensures Valid()
      ensures details == AtomVisited(old(details), toKey, path, namespace, name, signal)
    {
      ghost var before := details;
      AtomVisitedConsistent(toKey, details, path, namespace, name, signal);
      var modulePath := toKey(path);
      var moduleName := path[|path| - 1];
      var flat := Join(namespace, "_");
      var mangled := if flat == "" then name else flat + "_" + name;
      var param := AtomDetails(mangled, signal.kind, signal.bits, signal.verilog);
      assert param == AtomOf(Mangle(namespace, name), signal);
      if param.kind.IsParameter() {
        var kind := if param.kind == InputParameter then StubInputSignal else StubOutputSignal;
        var parentParam := AtomDetails(moduleName + "_" + mangled, kind, signal.bits, signal.verilog);
        assert parentParam == StubFor(Last(path), param);
        var parentName := toKey(path[..|path| - 1]);
        AddAtom(parentName, parentParam);
      }
      ghost var withStub := details;
      assert withStub == if param.kind.IsParameter() then WithAtom(before, toKey(Parent(path)), StubFor(Last(path), param)) else before;
      if signal.isEnum {
        AddEnum(modulePath, signal);
      }
      assert details == if signal.isEnum then WithEnums(withStub, modulePath, EnumDefs(signal)) else withStub;
      AddAtom(modulePath, param);
    }

    method VisitEndNamespace()
      modifies this`namespace
      ensures namespace == Pop(old(namespace))
    {
      if namespace != [] {
        namespace := namespace[..|namespace| - 1];
      }
    }

    method VisitEndScope()
      modifies this`path
      ensures path == Pop(old(path))
    {
      if path != [] {
        path := path[..|path| - 1];
      }
    }

    // -------------------------------------------------------------------
    // Rendering

    /** The module and black-box text of the whole table. */
    method Defines() returns (text: seq<string>)
      requires Resolves(details)
      ensures text == DefinesText(details)
    {
      var io := new CodeWriter();
      ghost var modules := ModulesText(details, ModuleKeys(details));
      ghost var boxes := BlackboxTexts(details, BlackboxKeys(details));
      assert DefinesText(details) == modules + boxes;
      EmitModules(io);
      assert io.lines == modules by {
        assert [] + modules == modules;
      }
      EmitBlackboxes(io);
      text := io.lines;
    }

    /** First pass: every module, in key order. */
    method EmitModules(io: CodeWriter)
      requires Resolves(details)
      modifies io
      ensures io.lines == old(io.lines) + ModulesText(details, ModuleKeys(details))
    {
      var keys := ModuleKeys(details);
      ghost var start := io.lines;
      assert keys[..0] == [] && start + [] == start;
      for i := 0 to |keys|
        invariant io.lines == start + ModulesText(details, keys[..i])
      {
        EmitModuleAt(io, start, keys, i);
      }
      assert keys[..|keys|] == keys;
    }

    /** One step of the first pass: the module of `keys[i]` follows those before it. */
    method EmitModuleAt(io: CodeWriter, ghost start: seq<string>, keys: seq<string>, i: nat)
      requires Resolves(details) && i < |keys|
      requires forall j :: 0 <= j < |keys| ==> keys[j] in details && IsModule(details, keys[j])
      requires io.lines == start + ModulesText(details, keys[..i])
      modifies io
      ensures io.lines == start + ModulesText(details, keys[..i + 1])
    {
      ghost var done := ModulesText(details, keys[..i]);
      EmitModule(io, keys[i]);
      ModulesTextSnoc(details, keys, i);
      AppendAssoc(start, done, ModuleText(details, keys[i]));
    }

    /** Second pass: every black-box text, verbatim, in key order. */
    method EmitBlackboxes(io: CodeWriter)
      modifies io
      ensures io.lines == old(io.lines) + BlackboxTexts(details, BlackboxKeys(details))
    {
      var keys := BlackboxKeys(details);
      ghost var start := io.lines;
      assert keys[..0] == [] && start + [] == start;
      for i := 0 to |keys|
        invariant io.lines == start + BlackboxTexts(details, keys[..i])
      {
        EmitBlackboxAt(io, start, keys, i);
      }
      assert keys[..|keys|] == keys;
    }

    /** One step of the second pass: the text of `keys[i]` follows those before it. */
    method EmitBlackboxAt(io: CodeWriter, ghost start: seq<string>, keys: seq<string>, i: nat)
      requires i < |keys|
      requires forall j :: 0 <= j < |keys| ==> keys[j] in details && details[keys[j]].code.Blackbox?
      requires io.lines == start + BlackboxTexts(details, keys[..i])
      modifies io
      ensures io.lines == start + BlackboxTexts(details, keys[..i + 1])
    {
      ghost var done := BlackboxTexts(details, keys[..i]);
      var text := details[keys[i]].code.text;
      io.Add(text);
      assert keys[..i + 1][..i] == keys[..i];
      AppendAssoc(start, done, [text]);
    }

    method EmitModule(io: CodeWriter, k: string)
      requires k in details && IsModule(details, k) && Resolves(details)
      modifies io
      ensures io.lines == old(io.lines) + ModuleText(details, k)
    {
      var m := details[k];
      var args := Select(m.atoms, Ports);
      var stubs := Select(m.atoms, Stubs);
      var consts := Select(m.atoms, Consts);
      var locals := Select(m.atoms, Locals);
      var moduleArgs := Join(Names(args), ",");
      ghost var start := io.lines;
      io.Add("\n\nmodule " + k + "(" + moduleArgs + ");");
      ghost var t := [Header(k, m.atoms)];
      EmitSection(io, "\n// Module arguments", args);
      AppendAssoc(start, t, Section("\n// Module arguments", args));
      t := t + Section("\n// Module arguments", args);
      EmitSection(io, "\n// Constant declarations", consts);
      AppendAssoc(start, t, Section("\n// Constant declarations", consts));
      t := t + Section("\n// Constant declarations", consts);
      EmitEnums(io, m.enums);
      AppendAssoc(start, t, EnumSection(m.enums));
      t := t + EnumSection(m.enums);
      EmitSection(io, "\n// Stub signals", stubs);
      AppendAssoc(start, t, Section("\n// Stub signals", stubs));
      t := t + Section("\n// Stub signals", stubs);
      EmitSection(io, "\n// Local signals", locals);
      AppendAssoc(start, t, Section("\n// Local signals", locals));
      t := t + Section("\n// Local signals", locals);
      EmitInstances(io, m.subModules);
      AppendAssoc(start, t, InstanceSection(details, m.subModules));
      t := t + InstanceSection(details, m.subModules);
      EmitCode(io, m.code);
      AppendAssoc(start, t, CodeSection(m.code));
      t := t + CodeSection(m.code);
      io.Add("endmodule // " + k);
      AppendAssoc(start, t, [Footer(k)]);
      t := t + [Footer(k)];
      assert t == ModuleText(details, k);
    }

    method EmitSection(io: CodeWriter, title: string, xs: seq<AtomDetails>)
      modifies io
      ensures io.lines == old(io.lines) + Section(title, xs)
    {
      if xs != [] {
        io.Add(title);
        ghost var start := io.lines;
        assert xs[..0] == [] && start + [] == start;
        for j := 0 to |xs|
          invariant io.lines == start + DeclLines(xs[..j])
        {
          ghost var done := DeclLines(xs[..j]);
          var line := Decl(xs[j]);
          io.Add(line);
          assert xs[..j + 1][..j] == xs[..j];
          AppendAssoc(start, done, [line]);
        }
        assert xs[..|xs|] == xs;
        AppendAssoc(old(io.lines), [title], DeclLines(xs));
      }
    }

    method EmitEnums(io: CodeWriter, es: seq<EnumDefinition>)
      modifies io
      ensures io.lines == old(io.lines) + EnumSection(es)
    {
      if es != [] {
        io.Add("\n// Enums");
        ghost var start := io.lines;
        assert es[..0] == [] && start + [] == start;
        for j := 0 to |es|
          invariant io.lines == start + EnumLines(es[..j])
        {
          ghost var done := EnumLines(es[..j]);
          var x := es[j];
          var line := "localparam " + x.typeName + "_" + x.discriminant + " = " + NatToString(x.value);
          io.Add(line);
          assert es[..j + 1][..j] == es[..j];
          AppendAssoc(start, done, [line]);
        }
        assert es[..|es|] == es;
        AppendAssoc(old(io.lines), ["\n// Enums"], EnumLines(es));
      }
    }

    method EmitInstances(io: CodeWriter, subs: seq<SubModuleInvocation>)
      requires AllKnown(details, subs)
      modifies io
      ensures io.lines == old(io.lines) + InstanceSection(details, subs)
    {
      if subs != [] {
        io.Add("\n// Sub module instances");
        ghost var start := io.lines;
        assert subs[..0] == [] && start + [] == start;
        for i := 0 to |subs|
          invariant io.lines == start + InstanceLines(details, subs[..i])
        {
          ghost var done := InstanceLines(details, subs[..i]);
          assert subs[..i + 1][..i] == subs[..i];
          var child := subs[i];
          var entry := details[child.kind];
          if !entry.code.Blackbox? {
            var childArgs := Join(Connections(child.name, Select(entry.atoms, Ports)), ",");
            var line := child.kind + " " + child.name + "(" + childArgs + ");";
            io.Add(line);
            AppendAssoc(start, done, [line]);
          } else {
            assert done + [] == done;
          }
        }
        assert subs[..|subs|] == subs;
        AppendAssoc(old(io.lines), ["\n// Sub module instances"], InstanceLines(details, subs));
      }
    }

    method EmitCode(io: CodeWriter, code: Verilog)
      modifies io
      ensures io.lines == old(io.lines) + CodeSection(code)
    {
      match code
      case Combinatorial(b) =>
        io.Add("\n// Update code");
        io.Add(VerilogCombinatorial(b));
      case Custom(t) =>
        io.Add("\n// Update code (custom)");
        io.Add(t);
      case Blackbox(_) =>
      case Empty =>
    }
  }
}
