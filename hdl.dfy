/** The values the collector stores and the renderer reads: atom kinds, the
    per-atom record, sub-module invocations, enum definitions, behaviour
    fragments, and the one-line Verilog declaration of an atom. */
module Hdl {
  import opened Text

  /** The role of a signal in its scope. */
  datatype AtomKind =
    | InputParameter
    | OutputParameter
    | StubInputSignal
    | StubOutputSignal
    | Constant
    | LocalSignal
  {
    /** A port of the module that declares it. */
    predicate IsParameter() { InputParameter? || OutputParameter? }

    /** A parent-side proxy for a child's port. */
    predicate IsStub() { StubInputSignal? || StubOutputSignal? }
  }

  /** A bit count; an atom is never narrower than one bit. */
  type Width = w: nat | w >= 1 witness 1

  /** A Verilog literal, carried as the text its `Display` produces. */
  datatype VerilogLiteral = VerilogLiteral(display: string)

  /** Structured combinational code, carried as the text the structured
      statement emitter renders it to. */
  datatype CombinatorialBlock = CombinatorialBlock(rendered: string)

  /** A scope's behaviour fragment; `Empty` is the default. */
  datatype Verilog =
    | Empty
    | Combinatorial(block: CombinatorialBlock)
    | Custom(text: string)
    | Blackbox(text: string)

  /** The text of a combinational block. */
  function VerilogCombinatorial(b: CombinatorialBlock): string { b.rendered }

  /** One signal as recorded in a scope. */
  datatype AtomDetails = AtomDetails(name: string, kind: AtomKind, width: Width, constVal: VerilogLiteral)

  /** A child scope instantiated in a parent: `kind` is the child's path key,
      `name` the instance name. */
  datatype SubModuleInvocation = SubModuleInvocation(kind: string, name: string)

  /** One named value of an enumerated type. */
  datatype EnumDefinition = EnumDefinition(typeName: string, discriminant: string, value: nat)

  /** Everything collected for one scope. */
  datatype ModuleDetails = ModuleDetails(
    atoms: seq<AtomDetails>,
    subModules: seq<SubModuleInvocation>,
    enums: seq<EnumDefinition>,
    code: Verilog)

  /** The record `entry(..).or_default()` creates. */
  const DefaultDetails := ModuleDetails([], [], [], Empty)

  /** The Verilog keyword that declares an atom of kind `k`. */
  function Keyword(k: AtomKind): (r: string)
    ensures |r| >= 3 && '[' !in r
  {
    match k
    case InputParameter => "input"
    case OutputParameter => "output reg"
    case StubInputSignal => "reg"
    case StubOutputSignal => "wire"
    case Constant => "localparam"
    case LocalSignal => "wire"
  }

  /** The declaration line of an atom. */
  function Decl(x: AtomDetails): string
  {
    if x.kind == Constant then
      Keyword(x.kind) + " " + x.name + " = " + x.constVal.display + ";"
    else if x.width == 1 then
      Keyword(x.kind) + " " + x.name + ";"
    else
      Keyword(x.kind) + " [" + NatToString(x.width - 1) + ":0] " + x.name + ";"
  }

  /** A declaration carries a bit range exactly when the atom is not a
      constant and is wider than one bit (names and, for a constant, the
      literal text, being identifiers and numbers, hold no bracket). */
  lemma DeclHasRangeIffWide(x: AtomDetails)
    requires '[' !in x.name && (x.kind == Constant ==> '[' !in x.constVal.display)
    ensures '[' in Decl(x) <==> x.kind != Constant && x.width > 1
  {
    var kw := Keyword(x.kind);
    assert '[' !in kw by {
      match x.kind
      case InputParameter => assert kw == ['i', 'n', 'p', 'u', 't'];
      case OutputParameter => assert kw == ['o', 'u', 't', 'p', 'u', 't', ' ', 'r', 'e', 'g'];
      case StubInputSignal => assert kw == ['r', 'e', 'g'];
      case StubOutputSignal => assert kw == ['w', 'i', 'r', 'e'];
      case Constant => assert kw == ['l', 'o', 'c', 'a', 'l', 'p', 'a', 'r', 'a', 'm'];
      case LocalSignal => assert kw == ['w', 'i', 'r', 'e'];
    }
    if x.kind == Constant {
      assert Decl(x) == kw + " " + x.name + " = " + x.constVal.display + ";";
      assert " = " == [' ', '=', ' '];
    } else if x.width == 1 {
      assert Decl(x) == kw + " " + x.name + ";";
    } else {
      var d := Decl(x);
      assert d[|kw| + 1] == '[';
    }
  }

  /** The bit range of a wide non-constant declaration is `[<w-1>:0]`: its
      upper bound is a decimal numeral that denotes one less than the width. */
  lemma DeclUpperBound(x: AtomDetails)
    requires x.kind != Constant && x.width > 1
    ensures exists digits: string ::
      (forall i :: 0 <= i < |digits| ==> IsDigit(digits[i])) &&
      ParseNat(digits) + 1 == x.width &&
      Decl(x) == Keyword(x.kind) + " [" + digits + ":0] " + x.name + ";"
  {
    ParseNatToString(x.width - 1);
    var digits := NatToString(x.width - 1);
    assert Decl(x) == Keyword(x.kind) + " [" + digits + ":0] " + x.name + ";";
  }

  /** The declaration of a constant is `localparam <name> = <literal>;`,
      whatever its width. */
  lemma DeclConstant(x: AtomDetails, w: Width)
    requires x.kind == Constant
    ensures Decl(x) == Decl(x.(width := w))
    ensures Decl(x) == "localparam " + x.name + " = " + x.constVal.display + ";"
  {
  }
}
