/** What `defines()` emits, as functions of the finished table of scope
    records, and the line sink it writes to. */
module Render {
  import opened Text
  import opened Hdl

  /** The four declaration groups of a module body, each picked out of the
      scope's atoms by kind. */
  datatype Group = Ports | Stubs | Consts | Locals

  predicate InGroup(k: AtomKind, g: Group)
  {
    match g
    case Ports => k.IsParameter()
    case Stubs => k.IsStub()
    case Consts => k == Constant
    case Locals => k == LocalSignal
  }

  /** The atoms of group `g`, in their recorded order (`iter().filter(..).collect()`). */
  function Select(xs: seq<AtomDetails>, g: Group): seq<AtomDetails>
  {
    if xs == [] then []
    else Select(xs[..|xs| - 1], g) + (if InGroup(xs[|xs| - 1].kind, g) then [xs[|xs| - 1]] else [])
  }

  /** Selection keeps exactly the atoms of the group. */
  lemma {:induction false} SelectMembers(xs: seq<AtomDetails>, g: Group)
    ensures forall x :: x in Select(xs, g) <==> x in xs && InGroup(x.kind, g)
  {
    if xs != [] {
      SelectMembers(xs[..|xs| - 1], g);
      assert xs == xs[..|xs| - 1] + [xs[|xs| - 1]];
    }
  }

  /** Selection keeps the recorded order: selecting from a concatenation
      concatenates the selections. */
  lemma {:induction false} SelectAppend(xs: seq<AtomDetails>, ys: seq<AtomDetails>, g: Group)
    ensures Select(xs + ys, g) == Select(xs, g) + Select(ys, g)
    decreases |ys|
  {
    if ys == [] {
      assert xs + ys == xs;
    } else {
      var n := |ys| - 1;
      assert (xs + ys)[..|xs + ys| - 1] == xs + ys[..n];
      SelectAppend(xs, ys[..n], g);
    }
  }

  /** The names of the atoms, in order. */
  function Names(xs: seq<AtomDetails>): (r: seq<string>)
  {
    if xs == [] then [] else Names(xs[..|xs| - 1]) + [xs[|xs| - 1].name]
  }

  lemma {:induction false} NamesAt(xs: seq<AtomDetails>)
    ensures |Names(xs)| == |xs|
    ensures forall i :: 0 <= i < |xs| ==> Names(xs)[i] == xs[i].name
  {
    if xs != [] { NamesAt(xs[..|xs| - 1]); }
  }

  /** `module <key>(<port names joined by ",">);`, after two blank lines. */
  function Header(key: string, atoms: seq<AtomDetails>): string
  {
    "\n\nmodule " + key + "(" + Join(Names(Select(atoms, Ports)), ",") + ");"
  }

  function Footer(key: string): string { "endmodule // " + key }

  /** One declaration line per atom, in order. */
  function DeclLines(xs: seq<AtomDetails>): seq<string>
  {
    Mapped(xs, Decl)
  }

  /** A titled block of declarations, or nothing when there are none. */
  function Section(title: string, xs: seq<AtomDetails>): seq<string>
  {
    if xs == [] then [] else [title] + DeclLines(xs)
  }

  /** A section is present exactly when its group is non-empty; it is then
      its title followed by one declaration per atom, in order. */
  lemma SectionShape(title: string, xs: seq<AtomDetails>)
    ensures Section(title, xs) == [] <==> xs == []
    ensures xs != [] ==>
      |Section(title, xs)| == |xs| + 1 && Section(title, xs)[0] == title &&
      forall i :: 0 <= i < |xs| ==> Section(title, xs)[i + 1] == Decl(xs[i])
  {
  }

  /** `localparam <type>_<discriminant> = <value>` */
  function EnumLine(e: EnumDefinition): string
  {
    "localparam " + e.typeName + "_" + e.discriminant + " = " + NatToString(e.value)
  }

  function EnumLines(es: seq<EnumDefinition>): seq<string>
  {
    Mapped(es, EnumLine)
  }

  function EnumSection(es: seq<EnumDefinition>): seq<string>
  {
    if es == [] then [] else ["\n// Enums"] + EnumLines(es)
  }

  /** `.<port>(<instance>_<port>)`: a child port wired to the parent's stub. */
  function Connection(instance: string, port: AtomDetails): string
  {
    "." + port.name + "(" + instance + "_" + port.name + ")"
  }

  function Connections(instance: string, ports: seq<AtomDetails>): seq<string>
  {
    if ports == [] then []
    else Connections(instance, ports[..|ports| - 1]) + [Connection(instance, ports[|ports| - 1])]
  }

  /** One connection per port, in port order. */
  lemma {:induction false} ConnectionsAt(instance: string, ports: seq<AtomDetails>)
    ensures |Connections(instance, ports)| == |ports|
    ensures forall i :: 0 <= i < |ports| ==> Connections(instance, ports)[i] == Connection(instance, ports[i])
  {
    if ports != [] { ConnectionsAt(instance, ports[..|ports| - 1]); }
  }

  /** `<child path> <instance>(<connections>);` */
  function InstanceLine(c: SubModuleInvocation, child: ModuleDetails): string
  {
    c.kind + " " + c.name + "(" + Join(Connections(c.name, Select(child.atoms, Ports)), ",") + ");"
  }

  predicate AllKnown(d: map<string, ModuleDetails>, subs: seq<SubModuleInvocation>)
  {
    forall i :: 0 <= i < |subs| ==> subs[i].kind in d
  }

  /** The instantiations of the non-black-box children, in order. */
  function InstanceLines(d: map<string, ModuleDetails>, subs: seq<SubModuleInvocation>): seq<string>
    requires AllKnown(d, subs)
  {
    if subs == [] then []
    else
      var c := subs[|subs| - 1];
      InstanceLines(d, subs[..|subs| - 1]) + (if d[c.kind].code.Blackbox? then [] else [InstanceLine(c, d[c.kind])])
  }

  /** The children that get an instantiation line: those whose record is
      not a black box, in their order. */
  function Shown(d: map<string, ModuleDetails>, subs: seq<SubModuleInvocation>): (r: seq<SubModuleInvocation>)
    requires AllKnown(d, subs)
    ensures AllKnown(d, r)
  {
    if subs == [] then []
    else
      var c := subs[|subs| - 1];
      Shown(d, subs[..|subs| - 1]) + (if d[c.kind].code.Blackbox? then [] else [c])
  }

  /** A child is instantiated exactly when its record is not a black box. */
  lemma {:induction false} ShownMembers(d: map<string, ModuleDetails>, subs: seq<SubModuleInvocation>)
    requires AllKnown(d, subs)
    ensures forall c :: c in Shown(d, subs) <==> c in subs && c.kind in d && !d[c.kind].code.Blackbox?
  {
    if subs != [] {
      var n := |subs| - 1;
      ShownMembers(d, subs[..n]);
      assert subs == subs[..n] + [subs[n]];
    }
  }

  /** One instantiation line per instantiated child, in order, each wiring
      that child's ports. */
  lemma {:induction false} InstanceLinesAt(d: map<string, ModuleDetails>, subs: seq<SubModuleInvocation>)
    requires AllKnown(d, subs)
    ensures |InstanceLines(d, subs)| == |Shown(d, subs)|
    ensures forall i :: 0 <= i < |Shown(d, subs)| ==>
      InstanceLines(d, subs)[i] == InstanceLine(Shown(d, subs)[i], d[Shown(d, subs)[i].kind])
  {
    if subs != [] {
      InstanceLinesAt(d, subs[..|subs| - 1]);
    }
  }

  function InstanceSection(d: map<string, ModuleDetails>, subs: seq<SubModuleInvocation>): seq<string>
    requires AllKnown(d, subs)
  {
    if subs == [] then [] else ["\n// Sub module instances"] + InstanceLines(d, subs)
  }

  /** The behaviour fragment in a module body; black boxes and empty
      fragments contribute nothing here. */
  function CodeSection(code: Verilog): seq<string>
  {
    match code
    case Combinatorial(b) => ["\n// Update code", VerilogCombinatorial(b)]
    case Custom(t) => ["\n// Update code (custom)", t]
    case Blackbox(_) => []
    case Empty => []
  }

  /** The scope rendered as a module: the records with the empty key and the
      black boxes are not. */
  predicate IsModule(d: map<string, ModuleDetails>, k: string)
    requires k in d
  {
    k != "" && !d[k].code.Blackbox?
  }

  /** Every child a rendered module instantiates has a record (otherwise the
      lookup's `unwrap` fails). */
  predicate Resolves(d: map<string, ModuleDetails>)
  {
    forall k, i :: k in d && k != "" && !d[k].code.Blackbox? && 0 <= i < |d[k].subModules| ==>
      d[k].subModules[i].kind in d
  }

  /** The full text of one module, sections in their fixed order. */
  function ModuleText(d: map<string, ModuleDetails>, k: string): seq<string>
    requires k in d && IsModule(d, k) && Resolves(d)
  {
    var m := d[k];
    [Header(k, m.atoms)]
      + Section("\n// Module arguments", Select(m.atoms, Ports))
      + Section("\n// Constant declarations", Select(m.atoms, Consts))
      + EnumSection(m.enums)
      + Section("\n// Stub signals", Select(m.atoms, Stubs))
      + Section("\n// Local signals", Select(m.atoms, Locals))
      + InstanceSection(d, m.subModules)
      + CodeSection(m.code)
      + [Footer(k)]
  }

  /** A module opens with its header, naming the key, and closes with the
      footer naming the same key. */
  lemma ModuleFramed(d: map<string, ModuleDetails>, k: string)
    requires k in d && IsModule(d, k) && Resolves(d)
    ensures |ModuleText(d, k)| >= 2
    ensures ModuleText(d, k)[0] == Header(k, d[k].atoms)
    ensures ModuleText(d, k)[|ModuleText(d, k)| - 1] == Footer(k)
  {
  }

  /** Which of the two passes over the table a key belongs to. */
  datatype Pass = ModulePass | BlackboxPass

  predicate InPass(d: map<string, ModuleDetails>, k: string, p: Pass)
    requires k in d
  {
    match p
    case ModulePass => IsModule(d, k)
    case BlackboxPass => d[k].code.Blackbox?
  }

  predicate AllIn(d: map<string, ModuleDetails>, ks: seq<string>)
  {
    forall i :: 0 <= i < |ks| ==> ks[i] in d
  }

  /** The keys of `ks` that pass `p`, in the order of `ks`. */
  function PassKeys(d: map<string, ModuleDetails>, ks: seq<string>, p: Pass): (r: seq<string>)
    requires AllIn(d, ks)
    ensures forall i :: 0 <= i < |r| ==> r[i] in d && InPass(d, r[i], p)
  {
    if ks == [] then []
    else
      var k := ks[|ks| - 1];
      PassKeys(d, ks[..|ks| - 1], p) + (if InPass(d, k, p) then [k] else [])
  }

  predicate Ascending(ks: seq<string>)
  {
    forall i, j :: 0 <= i < j < |ks| ==> Before(ks[i], ks[j])
  }

  /** Filtering keeps the keys that pass and keeps them ascending. */
  lemma {:induction false} PassKeysSorted(d: map<string, ModuleDetails>, ks: seq<string>, p: Pass)
    requires AllIn(d, ks) && Ascending(ks)
    ensures forall k :: k in PassKeys(d, ks, p) <==> k in ks && InPass(d, k, p)
    ensures Ascending(PassKeys(d, ks, p))
  {
    if ks != [] {
      var n := |ks| - 1;
      var front := PassKeys(d, ks[..n], p);
      PassKeysSorted(d, ks[..n], p);
      assert ks == ks[..n] + [ks[n]];
      forall i | 0 <= i < |front| ensures Before(front[i], ks[n]) {
        assert front[i] in ks[..n];
        var j :| 0 <= j < n && ks[j] == front[i];
      }
    }
  }

  /** The keys of the table in iteration order, and the two selections of them. */
  function TableKeys(d: map<string, ModuleDetails>): (r: seq<string>)
    ensures AllIn(d, r)
  {
    SortedKeys(d.Keys)
  }

  function ModuleKeys(d: map<string, ModuleDetails>): seq<string>
  {
    PassKeys(d, TableKeys(d), ModulePass)
  }

  function BlackboxKeys(d: map<string, ModuleDetails>): seq<string>
  {
    PassKeys(d, TableKeys(d), BlackboxPass)
  }

  /** Modules are rendered for exactly the records with a non-empty key and a
      fragment that is not a black box, in ascending key order; black boxes
      are emitted for exactly the black-box records, in ascending key order. */
  lemma RenderSelection(d: map<string, ModuleDetails>)
    ensures forall k :: k in ModuleKeys(d) <==> k in d && k != "" && !d[k].code.Blackbox?
    ensures forall k :: k in BlackboxKeys(d) <==> k in d && d[k].code.Blackbox?
    ensures Ascending(ModuleKeys(d)) && Ascending(BlackboxKeys(d))
  {
    PassKeysSorted(d, TableKeys(d), ModulePass);
    PassKeysSorted(d, TableKeys(d), BlackboxPass);
  }

  /** The texts of the modules for `ks`, one after the other. */
  function ModulesText(d: map<string, ModuleDetails>, ks: seq<string>): seq<string>
    requires Resolves(d)
    requires forall i :: 0 <= i < |ks| ==> ks[i] in d && IsModule(d, ks[i])
  {
    if ks == [] then [] else ModulesText(d, ks[..|ks| - 1]) + ModuleText(d, ks[|ks| - 1])
  }

  /** The black-box texts for `ks`, verbatim. */
  function BlackboxTexts(d: map<string, ModuleDetails>, ks: seq<string>): seq<string>
    requires forall i :: 0 <= i < |ks| ==> ks[i] in d && d[ks[i]].code.Blackbox?
  {
    if ks == [] then [] else BlackboxTexts(d, ks[..|ks| - 1]) + [d[ks[|ks| - 1]].code.text]
  }

  /** One black-box line per key, each the record's text unchanged. */
  lemma {:induction false} BlackboxTextsAt(d: map<string, ModuleDetails>, ks: seq<string>)
    requires forall i :: 0 <= i < |ks| ==> ks[i] in d && d[ks[i]].code.Blackbox?
    ensures |BlackboxTexts(d, ks)| == |ks|
    ensures forall i :: 0 <= i < |ks| ==> BlackboxTexts(d, ks)[i] == d[ks[i]].code.text
  {
    if ks != [] { BlackboxTextsAt(d, ks[..|ks| - 1]); }
  }

  /** Rendering one more module key appends that module's text. */
  lemma ModulesTextSnoc(d: map<string, ModuleDetails>, ks: seq<string>, i: nat)
    requires Resolves(d) && i < |ks|
    requires forall j :: 0 <= j < |ks| ==> ks[j] in d && IsModule(d, ks[j])
    ensures ModulesText(d, ks[..i + 1]) == ModulesText(d, ks[..i]) + ModuleText(d, ks[i])
  {
    assert ks[..i + 1][..i] == ks[..i];
  }

  /** The whole output: every module, then every black box. */
  function DefinesText(d: map<string, ModuleDetails>): seq<string>
    requires Resolves(d)
  {
    ModulesText(d, ModuleKeys(d)) + BlackboxTexts(d, BlackboxKeys(d))
  }

  /** The output ends with the black-box texts, one per black-box record, in
      ascending key order and unchanged; everything before them is module text. */
  lemma BlackboxesLast(d: map<string, ModuleDetails>)
    requires Resolves(d)
    ensures var bk := BlackboxKeys(d);
      var out := DefinesText(d);
      var m := |ModulesText(d, ModuleKeys(d))|;
      |out| == m + |bk| &&
      out[..m] == ModulesText(d, ModuleKeys(d)) &&
      forall i :: 0 <= i < |bk| ==> out[m + i] == d[bk[i]].code.text
  {
    BlackboxTextsAt(d, BlackboxKeys(d));
  }

  /** The line sink `defines()` writes to; indentation is not modelled. */
  class CodeWriter {
    var lines: seq<string>

    constructor ()
      ensures lines == []
    {
      lines := [];
    }

    method Add(s: string)
      modifies this
      ensures lines == old(lines) + [s]
    {
      lines := lines + [s];
    }
  }
}
