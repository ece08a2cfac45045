# ModuleDefines: collecting a block hierarchy and rendering it as Verilog

This project models the Verilog module generator of rust-hdl's core crate,
`rust-hdl-core/src/module_defines.rs`. It has two phases.

1. **Collection.** A `ModuleDefines` visitor is taken through the block
   hierarchy. Its callbacks keep three things:
   - the current scope path;
   - the namespace path inside the current scope;
   - an ordered table from the serialized scope path to that scope's record.
     A record holds atoms, sub-module invocations, enum definitions and a
     behaviour fragment.

   A port of a child scope also leaves a stub signal in the parent's record.
   The stub is named `<instance>_<port>`. It is a `reg` for an input and a
   `wire` for an output.
2. **Rendering.** `defines()` emits one `module … endmodule` block per record.
   It skips records with an empty key and black-box records. The blocks come
   in ascending key order. Each block has fixed sections: arguments, constants,
   enums, stubs, locals, instances and update code. Then the black-box texts
   follow, verbatim and again in key order. `generate_verilog` runs both phases
   from the root instance `top`.

## Layout

- `text.dfy` (`Text`) holds the text helpers:
  - `join`;
  - decimal rendering of naturals, with a parser that proves the rendering
    denotes the number;
  - the byte-wise string order;
  - `SortedKeys`, the ascending key order in which a `BTreeMap<String, _>`
    yields its keys.
- `hdl.dfy` (`Hdl`) holds the value types:
  - atom kinds, `AtomDetails`, `SubModuleInvocation`, `EnumDefinition`,
    `ModuleDetails` and the `Verilog` fragment;
  - `verilog_atom_name` and `decl`, as `Keyword` and `Decl`.
- `render.dfy` (`Render`) gives the text `defines()` produces, as functions of
  a finished table. Its `CodeWriter` class is the line sink that text is
  written to.
- `collect.dfy` (`Collect`) holds the collector:
  - the pure step functions `ScopeEntered` and `AtomVisited`;
  - the table invariant `Consistent` and its preservation lemmas;
  - the class `Collect.ModuleDefines`. Its methods are the callbacks and the
    imperative renderer. Each is proved against the functions above.
- `driver.dfy` (`Driver`) holds:
  - a block hierarchy and a depth-first walk that calls the callbacks;
  - `Accepted` and `ItemsAccepted`, the pure fold of that walk over the
    visitor's state (`Collect.Walk`: path, namespace stack, table). The
    walk's methods are proved to end in exactly the state the fold gives;
  - `Collected`, the fold from the fresh visitor, and `GenerateVerilog`,
    proved to output its rendering;
  - the adder example: one child with an input and an output, collected and
    rendered module by module.

`visit_end_scope` pops only the scope path, while `visit_start_scope` clears
the namespace stack. So inside a namespace, the atoms that come after a child
block are visited with an empty namespace. The fold keeps this behaviour.
`Driver.NamespacesBalanced` shows that namespace entries and exits pair up
when no child block intervenes.

Path serialization (`NamedPath::to_string`) is a parameter `toKey` of the
visitor. The model assumes only two things about it: the empty path serializes
to the empty key, and distinct paths get distinct keys (`Collect.KeyingOk`).

The table invariant `Collect.Consistent` has four parts:
- every instantiated child has a record;
- every instance sits in the record of its path's parent, named after the
  last path element;
- each port of a scope has its stub in the parent record;
- **stub symmetry:** for every instance in a record and every port of the
  instantiated child, the record holds that port's stub.

Every callback preserves `Consistent`. `Collect.WiredToStubs` connects it to
the rendered text: each connection `.p(inst_p)` of an instance line names a
stub that the parent module declares with the port's width.

## Model

| member | source | states |
|---|---|---|
| Hdl.Keyword | rust-hdl-core/src/module_defines.rs:40-49 | `verilog_atom_name`: the declaring keyword of each atom kind (`input`, `output reg`, `reg`, `wire`, `localparam`, `wire`); none contains a bracket |
| Hdl.Decl | rust-hdl-core/src/module_defines.rs:51-71 | `decl`: `<keyword> <name> = <literal>;` for a constant, `<keyword> <name>;` for a one-bit atom, `<keyword> [<width-1>:0] <name>;` otherwise |
| Collect.Mangle | rust-hdl-core/src/module_defines.rs:135-140 | the stored name of an atom: the `_`-flattened namespace, `_`, then the atom's name; the bare name when the flattened namespace is empty (so outside any namespace) |
| Collect.StubFor | rust-hdl-core/src/module_defines.rs:147-158 | the parent-side stub of a port: named `<instance>_<port>`, a stub input for an input port and a stub output otherwise, with the port's width and literal |
| Collect.EnumDefs | rust-hdl-core/src/module_defines.rs:94-102 | the enum definitions of a signal: one per value below `2^bits` whose name is non-empty, in ascending value order |
| Collect.ScopeEntered | rust-hdl-core/src/module_defines.rs:112-118 | the table after entering scope `name`: the instance `(child key, name)` appended to the current scope's record, the child's fragment set |
| Collect.AtomVisited | rust-hdl-core/src/module_defines.rs:124-166 | the table after visiting an atom: its stub appended to the parent record when it is a port, its enum values appended when it is an enum, then the atom appended to the current record |
| Render.ModuleText | rust-hdl-core/src/module_defines.rs:184-269 | the lines of one module: header, argument, constant, enum, stub and local sections, instances, update code, footer |
| Render.DefinesText | rust-hdl-core/src/module_defines.rs:178-279 | the lines of `defines()`: the module text of every rendered key in key order, then the black-box texts in key order |
| Hdl.DeclHasRangeIffWide | rust-hdl-core/src/module_defines.rs:51-71 | a declaration carries a `[..]` bit range exactly when the atom is not a constant and is wider than one bit (both directions) |
| Hdl.DeclUpperBound | rust-hdl-core/src/module_defines.rs:60-69 | a wide non-constant atom is declared `<keyword> [<digits>:0] <name>;`, with digits that denote width minus one |
| Hdl.DeclConstant | rust-hdl-core/src/module_defines.rs:52-58 | a constant is declared `localparam <name> = <literal>;`, whatever its width |
| Text.ParseNatToString | rust-hdl-core/src/module_defines.rs:64-66 | the decimal text printed for a number reads back as that number |
| Text.SortedKeys | rust-hdl-core/src/module_defines.rs:180-181 | the table is iterated in strictly ascending key order, each key exactly once |
| Text.JoinEmpty | rust-hdl-core/src/module_defines.rs:135-136 | with no empty parts, a joined path is empty exactly when the path is empty |
| Collect.MangleJoins | rust-hdl-core/src/module_defines.rs:135-140 | an atom's stored name is the namespace path and its own name joined by `_`; outside any namespace it keeps its name |
| Collect.StubShape | rust-hdl-core/src/module_defines.rs:147-158 | a stub is named `<instance>_<port>` and is as wide as the port; it is a stub input exactly for an input port and a stub output exactly for an output port |
| Collect.EnumDefsSpec | rust-hdl-core/src/module_defines.rs:92-104 | an enumerable signal of b bits contributes exactly the values below 2^b that have a non-empty discriminant name, each once, in ascending order |
| Collect.AtomVisitedEffect | rust-hdl-core/src/module_defines.rs:124-166 | an atom visit appends the mangled atom to the current record, plus its enum definitions when it is enumerable; a port appends exactly one stub to the parent record; no other record changes |
| Collect.ScopeEnteredEffect | rust-hdl-core/src/module_defines.rs:112-118 | entering a scope appends (new key, name) to the previous scope's record and replaces the new record's fragment; no other record changes |
| Collect.ParentKeyDiffers | rust-hdl-core/src/module_defines.rs:159-160 | the parent key of a non-empty path never equals its own key, so the stub and the port go to different records |
| Collect.EmptyConsistent | rust-hdl-core/src/module_defines.rs:73-78 | the default visitor's empty table satisfies the table invariant |
| Collect.AtomVisitedConsistent | rust-hdl-core/src/module_defines.rs:124-166 | an atom visit preserves the table invariant, including stub symmetry |
| Collect.ScopeEnteredResolves | rust-hdl-core/src/module_defines.rs:112-118 | entering a scope keeps a record for every instantiated child, the new one included |
| Collect.ScopeEnteredPlaced | rust-hdl-core/src/module_defines.rs:112-118 | entering a scope keeps every instance in the record of its path's parent, named after the path's last element |
| Collect.ScopeEnteredPortsStubbed | rust-hdl-core/src/module_defines.rs:112-118 | entering a scope keeps every port's stub in the parent's record |
| Collect.ScopeEnteredStubbed | rust-hdl-core/src/module_defines.rs:112-118 | entering a scope keeps stub symmetry: the new instance's child already has all its ports' stubs in the parent |
| Collect.ScopeEnteredConsistent | rust-hdl-core/src/module_defines.rs:112-118 | entering a scope preserves the table invariant, including stub symmetry |
| Collect.ConsistentResolves | rust-hdl-core/src/module_defines.rs:239-240 | in a consistent table, every child a rendered module instantiates has a record, so the lookup never fails |
| Collect.WiredPort | rust-hdl-core/src/module_defines.rs:229-252 | when a parent holds the stub of a child port, the instance line connects that port to the stub, and the parent's stub section declares the stub with the port's width |
| Collect.WiredToStubs | rust-hdl-core/src/module_defines.rs:229-252 | in a consistent table, every connection `.p(inst_p)` of an instance line names a stub that the parent's stub section declares, with the port's width |
| Collect.ModuleDefines.constructor | rust-hdl-core/src/module_defines.rs:73-78 | the default visitor has empty paths and an empty, consistent table |
| Collect.ModuleDefines.AddAtom | rust-hdl-core/src/module_defines.rs:81-84 | the atom is appended to the key's record, which is created empty when missing |
| Collect.ModuleDefines.AddSubmodule | rust-hdl-core/src/module_defines.rs:85-91 | the invocation (kind, name) is appended to the key's record, which is created when missing |
| Collect.ModuleDefines.AddEnum | rust-hdl-core/src/module_defines.rs:92-104 | the signal's named enum values are appended to the key's record, which is created when missing |
| Collect.ModuleDefines.AddCode | rust-hdl-core/src/module_defines.rs:105-108 | the key's fragment is replaced, and the record is created when missing |
| Collect.ModuleDefines.VisitStartScope | rust-hdl-core/src/module_defines.rs:112-118 | pushes the name, resets the namespace, updates the table as `ScopeEntered` and keeps the invariant |
| Collect.ModuleDefines.VisitStartNamespace | rust-hdl-core/src/module_defines.rs:120-122 | pushes the name onto the namespace path; nothing else changes |
| Collect.ModuleDefines.VisitAtom | rust-hdl-core/src/module_defines.rs:124-166 | updates the table as `AtomVisited` and keeps the invariant; the paths do not change |
| Collect.ModuleDefines.VisitEndNamespace | rust-hdl-core/src/module_defines.rs:168-170 | pops the namespace path |
| Collect.ModuleDefines.VisitEndScope | rust-hdl-core/src/module_defines.rs:172-174 | pops the scope path; the table is kept |
| Collect.ModuleDefines.Defines | rust-hdl-core/src/module_defines.rs:178-280 | the lines written are exactly `DefinesText` of the table: all modules, then all black boxes |
| Collect.ModuleDefines.EmitModules | rust-hdl-core/src/module_defines.rs:180-270 | the first pass writes the module text of every non-empty, non-black-box key, in key order |
| Collect.ModuleDefines.EmitModuleAt | rust-hdl-core/src/module_defines.rs:184-270 | one step of the first pass: the next key's module text follows the text of the keys before it |
| Collect.ModuleDefines.EmitBlackboxes | rust-hdl-core/src/module_defines.rs:271-278 | the second pass writes every black-box text, in key order |
| Collect.ModuleDefines.EmitBlackboxAt | rust-hdl-core/src/module_defines.rs:274-277 | one step of the second pass: the next black-box text, unchanged, follows the texts of the keys before it |
| Collect.ModuleDefines.EmitModule | rust-hdl-core/src/module_defines.rs:185-269 | one module is written as header, the sections in their fixed order, then the footer |
| Collect.ModuleDefines.EmitSection | rust-hdl-core/src/module_defines.rs:211-236 | a declaration section is written as its title and one `decl` per atom, or not at all when empty |
| Collect.ModuleDefines.EmitEnums | rust-hdl-core/src/module_defines.rs:220-228 | the enum section is written as `localparam <type>_<name> = <value>` lines, or not at all when there are none |
| Collect.ModuleDefines.EmitInstances | rust-hdl-core/src/module_defines.rs:237-255 | the instance section is written with one line per non-black-box child, or not at all when there are no children |
| Collect.ModuleDefines.EmitCode | rust-hdl-core/src/module_defines.rs:256-267 | combinational and custom fragments are written with their own titles; black boxes and empty fragments write nothing |
| Render.SelectMembers | rust-hdl-core/src/module_defines.rs:188-203 | a group keeps exactly the atoms of its kind |
| Render.SelectAppend | rust-hdl-core/src/module_defines.rs:188-203 | selecting from appended atom lists appends the selections, so the recorded order is kept |
| Render.NamesAt | rust-hdl-core/src/module_defines.rs:204-208 | the header's argument list names the ports in order |
| Text.Mapped | rust-hdl-core/src/module_defines.rs:213 | mapping over a sequence gives one result per element, in order; it builds the declaration and enum lines of a section |
| Render.SectionShape | rust-hdl-core/src/module_defines.rs:211-236 | a section is present exactly when its group is non-empty; it is then the title and one declaration per atom |
| Render.ConnectionsAt | rust-hdl-core/src/module_defines.rs:242-251 | one connection `.p(inst_p)` per child port, in port order |
| Render.ShownMembers | rust-hdl-core/src/module_defines.rs:239-241 | a child gets an instantiation line exactly when its record is not a black box |
| Render.InstanceLinesAt | rust-hdl-core/src/module_defines.rs:239-254 | the instance section has one line per instantiated child, in order, each `<key> <name>(<connections>);` for that child |
| Render.ModuleFramed | rust-hdl-core/src/module_defines.rs:209-269 | a module opens with a header naming its key and closes with `endmodule // <key>` |
| Render.PassKeysSorted | rust-hdl-core/src/module_defines.rs:180-183 | filtering the key sequence keeps exactly the passing keys, still ascending |
| Render.RenderSelection | rust-hdl-core/src/module_defines.rs:180-183 | modules are rendered for exactly the non-empty, non-black-box keys, and black boxes for exactly the black-box keys, both in ascending order |
| Render.BlackboxTextsAt | rust-hdl-core/src/module_defines.rs:271-278 | one output line per black-box record, equal to its text |
| Render.BlackboxesLast | rust-hdl-core/src/module_defines.rs:178-279 | the output is the module text followed by the black-box texts, in key order and unchanged |
| Render.ModulesTextSnoc | rust-hdl-core/src/module_defines.rs:184-270 | rendering one more module key appends exactly that module's text |
| Render.CodeWriter.Add | rust-hdl-core/src/module_defines.rs:209 | a line is appended to the output |
| Driver.Accepted | rust-hdl-core/src/module_defines.rs:112-174 | visiting a block (scope entry, its items, scope exit) leaves the scope path as it found it |
| Driver.ItemsAccepted | rust-hdl-core/src/module_defines.rs:120-170 | visiting the items of a scope, in order, leaves the scope path unchanged |
| Driver.AcceptedConsistent | rust-hdl-core/src/module_defines.rs:112-174 | visiting a whole block keeps the table invariant `Consistent` |
| Driver.ItemsAcceptedConsistent | rust-hdl-core/src/module_defines.rs:120-170 | visiting any items of a scope keeps the table invariant `Consistent` |
| Driver.NamespacesBalanced | rust-hdl-core/src/module_defines.rs:120-122 | namespace entries and exits pair up: items that enter no child scope leave the namespace stack as they found it |
| Driver.Collected | rust-hdl-core/src/module_defines.rs:283-285 | the table collected from the fresh visitor by entering the hierarchy as `top` is consistent, so every instance it records has a record and is wired to stubs |
| Driver.Accept | rust-hdl-core/src/module_defines.rs:112-174 | the visitor's path, namespace stack and table after the callbacks for a block are exactly `Accepted` of their old values; the invariant is kept |
| Driver.AcceptItems | rust-hdl-core/src/module_defines.rs:120-170 | the visitor's state after the callbacks for a scope's items is exactly `ItemsAccepted` of its old value; the invariant is kept |
| Driver.GenerateVerilog | rust-hdl-core/src/module_defines.rs:283-287 | the output is exactly `DefinesText` of `Collected`, the consistent table collected from `uut` as `top` |
| Driver.AdderWalked | rust-hdl-core/src/module_defines.rs:112-174 | walking the adder hierarchy enters `top`, then `add1`, then visits `a` and `sum`, and nothing else |
| Driver.AdderStepsTable | rust-hdl-core/src/module_defines.rs:112-166 | those four steps leave exactly three records: the empty key with the root instance, the root with the two stubs and the one instance, and `add1` with both ports and the fragment |
| Driver.AdderCollected | rust-hdl-core/src/module_defines.rs:112-166 | the table `generate_verilog` collects for the adder has exactly the keys `""`, the root and `add1`: the empty key holds the root instance, the root holds the stubs `add1_a` and `add1_sum` and the one instance with no fragment, and `add1` holds the ports and the fragment |
| Driver.AdderChildText | rust-hdl-core/src/module_defines.rs:209-269 | the adder's child renders as `module <key>(a,sum);`, the argument section `input [7:0] a;` and `output reg [7:0] sum;`, the update code, then `endmodule // <key>` |
| Driver.AdderRootText | rust-hdl-core/src/module_defines.rs:209-269 | the adder's root renders as `module <key>();`, the stub section `reg [7:0] add1_a;` and `wire [7:0] add1_sum;`, the instance `<key> add1(.a(add1_a),.sum(add1_sum));`, then `endmodule // <key>` |
| Driver.ChildModuleText | rust-hdl-core/src/module_defines.rs:209-269 | a record holding the adder's ports and a combinational fragment renders as its header, the argument section, the update code and the footer, with no other section |
| Driver.RootModuleText | rust-hdl-core/src/module_defines.rs:209-269 | a record holding the adder's stubs and one instance of a non-black-box child renders as its header, the stub section, the instance section and the footer, with no other section |
| Driver.OneInstance | rust-hdl-core/src/module_defines.rs:237-255 | a single instance of a non-black-box child gives the instance title and one instance line |
| Driver.AdderPortGroups | rust-hdl-core/src/module_defines.rs:188-203 | the adder's ports are all arguments: no constants, stubs or locals |
| Driver.AdderStubGroups | rust-hdl-core/src/module_defines.rs:188-203 | the adder's stubs are all stubs: no arguments, constants or locals |
| Driver.AdderPortSection | rust-hdl-core/src/module_defines.rs:211-214 | the adder's argument section is its title and one declaration per port |
| Driver.AdderStubSection | rust-hdl-core/src/module_defines.rs:229-232 | the root's stub section is its title and one declaration per stub |
| Driver.DeclEightBits | rust-hdl-core/src/module_defines.rs:63-68 | an 8-bit non-constant atom is declared `<keyword> [7:0] <name>;` |
| Driver.AdderPortDecls | rust-hdl-core/src/module_defines.rs:51-71 | the adder's ports are declared `input [7:0] a;` and `output reg [7:0] sum;` |
| Driver.AdderStubDecls | rust-hdl-core/src/module_defines.rs:51-71 | the root's stubs are declared `reg [7:0] add1_a;` and `wire [7:0] add1_sum;` |
| Driver.AdderRootHeader | rust-hdl-core/src/module_defines.rs:204-209 | the root, having no ports, has the header `module <key>();` |
| Driver.AdderHeader | rust-hdl-core/src/module_defines.rs:204-209 | the adder's header is `module <key>(a,sum);` |
| Driver.AdderInstance | rust-hdl-core/src/module_defines.rs:249-252 | the adder's instance line is `<key> add1(.a(add1_a),.sum(add1_sum));` |

## Left out

- The `println!` diagnostic in `visit_atom` is left out. It is console output and changes no state.
- `rust-hdl-core/src/named_path.rs` is not part of this model. `to_string` is the abstract parameter `toKey`, which is only assumed to send the empty path to the empty key and to be injective. `flat("_")` is taken to be a join with `_`.
- `parent()` is taken to be the serialized path without its last element.
- `pop()` on an empty path is taken to do nothing.
- Collect.ModuleDefines.VisitAtom: requires a non-empty scope path, because `last()` of an empty path is not defined by the code shown. The traversal only visits atoms inside a scope.
- Collect.ModuleDefines.Defines: requires that every child a rendered module instantiates has a record. The source's `unwrap` panics otherwise. `Collect.ConsistentResolves` shows that every collected table meets this.
- `rust-hdl-core/src/atom.rs` is not part of this model. Three things follow:
  - `is_parameter` is taken to hold for the input and output parameters, and `is_stub` for the two stub kinds.
  - An atom's queries (`kind`, `bits`, `verilog`, `is_enum`, `type_name`, `name(x)`) are a `Signal` value.
  - Widths are at least one.
- Collect.ModuleDefines.AddEnum: `1 << bits` is unbounded here. The `usize` shift overflow for widths of 64 bits or more is not modelled.
- `verilog_combinatorial` and the literal's `Display` are not modelled. Both live outside this file, so their output is carried as text in the fragment and in the literal.
- `CodeWriter` indentation (`push`/`pop`) and `to_string` are not modelled. The output is the sequence of lines added, so line breaks and indentation are not part of it.
- `Block::accept` and the blocks' `hdl()` are only modelled by the `Driver` walk. That walk calls the callbacks in depth-first order, over a hierarchy given as data.
- Collect.AtomVisitedEffect: says one stub per port visit, not one stub declaration per stub name. A parent can hold the same stub name twice, in two ways:
  - the same scope path is entered more than once, and its ports are visited again;
  - two instances' stub names collide through the `_` join. Instance `a` with port `x` inside namespace `b` (mangled `b_x`) and instance `a_b` with port `x` both give the stub `a_b_x`. The source then declares `a_b_x` twice, and so does the model.
- The callbacks' unused block arguments (`_node`, `_name`) are dropped.
- Other parts of rust-hdl are not modelled: the Alchitry board test, the strobe widget, the PCB part files and `logic.rs`. They use the generator, or are unrelated to it.
