/**
 * The per-module loop of `main`: after the module's registers are filtered,
 * sorted and linked, each register that needs a database model gets a class
 * (its simple fields, its `parent` link and its child links), a concrete
 * model, two access-control lines and its menu entries, until the first
 * register of block 9, which ends the loop.
 */
module Generator {
  import opened Wrappers
  import opened Text
  import opened Registers
  import opened Layout
  import opened Fields

  /** Block registers and their opening and closing registers need no model, except `0000`. */
  predicate Skipped(r: Register) {
    (r.level == 0 || r.level == 1) && r.code != "0000"
  }

  /** The register that ends the loop: the first one not skipped whose block is 9. */
  predicate Stops(r: Register)
    requires |r.code| > 0
  {
    !Skipped(r) && r.code[0] == '9'
  }

  /** The position where the loop stops, or `|regs|`. */
  function EmissionEnd(regs: seq<Register>, from: nat): (e: nat)
    requires Coded(regs) && from <= |regs|
    ensures from <= e <= |regs|
    ensures e < |regs| ==> Stops(regs[e])
    ensures forall i :: from <= i < e ==> !Stops(regs[i])
    decreases |regs| - from
  {
    if from == |regs| || Stops(regs[from]) then from else EmissionEnd(regs, from + 1)
  }

  /** Positions in the hierarchy all name registers of the layout. */
  predicate WellFormed(regs: seq<Register>, h: Hierarchy) {
    && (forall j :: j in h.parent ==> h.parent[j] < |regs|)
    && (forall p :: p in h.childrenO2m ==> InLayout(regs, h.childrenO2m[p]))
    && (forall p :: p in h.childrenM2o ==> InLayout(regs, h.childrenM2o[p]))
  }

  predicate InLayout(regs: seq<Register>, cs: seq<nat>) {
    forall k :: 0 <= k < |cs| ==> cs[k] < |regs|
  }

  /** The links `collect_register_children` leaves only name registers of the layout. */
  lemma HierarchyWellFormed(regs: seq<Register>, h: Hierarchy)
    requires HierarchyOf(regs, h)
    ensures WellFormed(regs, h)
  {
    ParentsInLayout(regs, h);
    ChildrenInLayout(regs, h);
  }

  lemma ParentsInLayout(regs: seq<Register>, h: Hierarchy)
    requires ParentsUpTo(regs, h, |regs|)
    ensures forall j :: j in h.parent ==> h.parent[j] < |regs|
  {
    forall j | j in h.parent ensures h.parent[j] < |regs| {
      assert LastCollector(CollectsIn(regs), h.parent[j], j, |regs|);
    }
  }

  lemma ChildrenInLayout(regs: seq<Register>, h: Hierarchy)
    requires ChildrenUpTo(regs, h, |regs|)
    ensures forall p :: p in h.childrenO2m ==> InLayout(regs, h.childrenO2m[p])
    ensures forall p :: p in h.childrenM2o ==> InLayout(regs, h.childrenM2o[p])
  {
    forall p | p in h.childrenO2m ensures InLayout(regs, h.childrenO2m[p]) {
      ChildListInLayout(regs, p, h.childrenO2m[p], false);
    }
    forall p | p in h.childrenM2o ensures InLayout(regs, h.childrenM2o[p]) {
      ChildListInLayout(regs, p, h.childrenM2o[p], true);
    }
  }

  lemma ChildListInLayout(regs: seq<Register>, p: nat, xs: seq<nat>, toOne: bool)
    requires p < |regs| && ChildList(regs, p, xs, toOne)
    ensures InLayout(regs, xs)
  {
    forall k | 0 <= k < |xs| ensures xs[k] < |regs| {
      assert xs[k] in xs;
    }
  }

  /** A relational attribute: its name and the class it points to. */
  datatype Link = Link(name: string, target: string)

  /** A generated class: its name, its simple attributes, its parent link and its child links. */
  datatype ClassDef = ClassDef(name: string, fields: seq<FieldAttr>, parent: Option<Link>, children: seq<Link>)

  datatype Group = UserGroup | ManagerGroup

  /** One line of the module's access-control file: read access for users, full access for managers. */
  datatype AccessLine = AccessLine(mod: string, code: string, group: Group)

  /**
   * The items of the module's views file: the module menu, the declaration
   * action and its menu, a menu per block, and an action with its menu item
   * for each register of level 2.
   */
  datatype ViewItem =
    | ModuleMenu
    | DeclarationAction
    | DeclarationMenu
    | BlockMenu(bloco: char)
    | RegisterEntry(code: string, bloco: char)

  /**
   * What the loop has produced so far apart from the classes: the positions
   * of the registers it emitted, the access lines, the view items, the codes
   * of the concrete models and the last block it saw. The classes are those
   * of the emitted registers, in order (`ClassesOf`).
   */
  datatype Emission = Emission(
    emitted: seq<nat>,
    security: seq<AccessLine>,
    views: seq<ViewItem>,
    concrete: seq<string>,
    lastBloco: Option<char>)

  function ClassName(code: string): string {
    "Registro" + code
  }

  /** The many-to-one link to the register's parent, `reg_<code>_ids_Registro<parent>_id`. */
  function ParentLink(regs: seq<Register>, h: Hierarchy, i: nat): (l: Option<Link>)
    requires i < |regs| && WellFormed(regs, h)
    ensures l.Some? <==> i in h.parent
    ensures l.Some? ==> l.value.target == ClassName(regs[h.parent[i]].code)
  {
    if i in h.parent then
      var parentName := ClassName(regs[h.parent[i]].code);
      Some(Link("reg_" + regs[i].code + "_ids_" + parentName + "_id", parentName))
    else None
  }

  /** The one-to-many links `reg_<child>_ids` to the given children, in order. */
  function ChildLinks(regs: seq<Register>, cs: seq<nat>): (ls: seq<Link>)
    requires InLayout(regs, cs)
    ensures |ls| == |cs|
    ensures forall k :: 0 <= k < |cs| ==> ls[k].target == ClassName(regs[cs[k]].code)
  {
    if cs == [] then []
    else
      var code := regs[cs[0]].code;
      [Link("reg_" + code + "_ids", ClassName(code))] + ChildLinks(regs, cs[1..])
  }

  /** The to-one children first, then the to-many children. */
  function ChildrenOf(regs: seq<Register>, h: Hierarchy, i: nat): (cs: seq<nat>)
    requires WellFormed(regs, h)
    ensures InLayout(regs, cs)
    ensures var m2o := if i in h.childrenM2o then h.childrenM2o[i] else [];
      var o2m := if i in h.childrenO2m then h.childrenO2m[i] else [];
      |cs| == |m2o| + |o2m| && cs[..|m2o|] == m2o && cs[|m2o|..] == o2m
  {
    (if i in h.childrenM2o then h.childrenM2o[i] else [])
      + (if i in h.childrenO2m then h.childrenO2m[i] else [])
  }

  /** The class of the register at `i`. */
  function ClassFor(regs: seq<Register>, h: Hierarchy, fields: seq<Field>, i: nat): (k: ClassDef)
    requires i < |regs| && WellFormed(regs, h)
    ensures k.name == ClassName(regs[i].code)
  {
    var cs := ChildrenOf(regs, h, i);
    ClassDef(
      ClassName(regs[i].code),
      FieldAttrs(Dedup(RegisterFields(regs[i].code, fields))),
      ParentLink(regs, h, i),
      ChildLinks(regs, cs))
  }

  /** The view items before any register. */
  const InitialViews: seq<ViewItem> := [ModuleMenu, DeclarationAction, DeclarationMenu]

  const Initial: Emission := Emission([], [], InitialViews, [], None)

  /**
   * The view items for a register: its block's menu when the block differs
   * from the last one seen, then an action and menu item if it is at level 2.
   */
  function RegisterViews(lastBloco: Option<char>, r: Register): seq<ViewItem>
    requires |r.code| > 0
  {
    var bloco := r.code[0];
    (if lastBloco != Some(bloco) then [BlockMenu(bloco)] else [])
      + (if r.level == 2 then [RegisterEntry(r.code, bloco)] else [])
  }

  /** What the loop does with the register at `i`. */
  function Step(mod: string, regs: seq<Register>, st: Emission, i: nat): Emission
    requires Coded(regs) && i < |regs|
  {
    var r := regs[i];
    if Skipped(r) then st
    else
      Emission(
        st.emitted + [i],
        st.security + AccessPair(mod, r.code),
        st.views + RegisterViews(st.lastBloco, r),
        if r.level > 1 || r.code == "0000" then st.concrete + [r.code] else st.concrete,
        Some(r.code[0]))
  }

  /** The loop's output after the registers below `n`. */
  function EmitUpTo(mod: string, regs: seq<Register>, n: nat): Emission
    requires Coded(regs) && n <= |regs|
  {
    if n == 0 then Initial
    else Step(mod, regs, EmitUpTo(mod, regs, n - 1), n - 1)
  }

  /** The loop's output: everything before the register that stops it. */
  function Generate(mod: string, regs: seq<Register>): Emission
    requires Coded(regs)
  {
    EmitUpTo(mod, regs, EmissionEnd(regs, 0))
  }

  /**
   * The class `main` builds for the register at `i`: its fields made
   * unique, then turned into attributes, then the parent link and the child
   * links.
   */
  method RegisterClass(regs: seq<Register>, h: Hierarchy, fields: seq<Field>, i: nat)
    returns (k: ClassDef)
    requires i < |regs| && WellFormed(regs, h)
    ensures k == ClassFor(regs, h, fields, i)
  {
    var register := regs[i];
    var fs, _ := DedupFieldCodes(RegisterFields(register.code, fields));
    var attrs := BuildAttrs(fs);
    var cs := ChildrenOf(regs, h, i);
    k := ClassDef(ClassName(register.code), attrs, ParentLink(regs, h, i), ChildLinks(regs, cs));
  }

  /**
   * The body of the register loop for a register that is neither skipped nor
   * the stop: it adds the concrete model, the block menu when the block
   * changes, the action of a level-2 register, the class and the two access
   * lines.
   */
  method EmitRegister(mod: string, regs: seq<Register>, h: Hierarchy, fields: seq<Field>, st: Emission, i: nat)
    returns (next: Emission, k: ClassDef)
    requires Coded(regs) && i < |regs| && WellFormed(regs, h) && !Skipped(regs[i])
    ensures next == Step(mod, regs, st, i)
    ensures k == ClassFor(regs, h, fields, i)
  {
    var register := regs[i];
    var concrete, views, security := st.concrete, st.views, st.security;
    if register.level > 1 || register.code == "0000" {
      concrete := concrete + [register.code];
    }
    var bloco := register.code[0];
    if Some(bloco) != st.lastBloco {
      views := views + [BlockMenu(bloco)];
    }
    var lastBloco := Some(bloco);
    if register.level == 2 {
      views := views + [RegisterEntry(register.code, bloco)];
    }
    k := RegisterClass(regs, h, fields, i);
    security := security + [AccessLine(mod, register.code, UserGroup)];
    security := security + [AccessLine(mod, register.code, ManagerGroup)];
    assert security == st.security + AccessPair(mod, register.code);
    next := Emission(st.emitted + [i], security, views, concrete, lastBloco);
  }

  /**
   * What the loop has built after the registers below `i`: its output so
   * far, and the classes of the registers it emitted.
   */
  ghost predicate Built(mod: string, regs: seq<Register>, h: Hierarchy, fields: seq<Field>, i: nat,
                        out: Emission, classes: seq<ClassDef>)
    requires Coded(regs) && WellFormed(regs, h) && i <= |regs|
  {
    && out == EmitUpTo(mod, regs, i)
    && InLayout(regs, out.emitted)
    && classes == ClassesOf(regs, h, fields, out.emitted)
  }

  lemma BuiltSkip(mod: string, regs: seq<Register>, h: Hierarchy, fields: seq<Field>, i: nat,
                  out: Emission, classes: seq<ClassDef>)
    requires Coded(regs) && WellFormed(regs, h) && i < |regs| && Skipped(regs[i])
    requires Built(mod, regs, h, fields, i, out, classes)
    ensures Built(mod, regs, h, fields, i + 1, out, classes)
  {
  }

  /** One pass of the loop body over a register that is emitted. */
  method VisitRegister(mod: string, regs: seq<Register>, h: Hierarchy, fields: seq<Field>, i: nat,
                       out: Emission, classes: seq<ClassDef>)
    returns (out': Emission, classes': seq<ClassDef>)
    requires Coded(regs) && WellFormed(regs, h) && i < |regs| && !Skipped(regs[i])
    requires Built(mod, regs, h, fields, i, out, classes)
    ensures Built(mod, regs, h, fields, i + 1, out', classes')
  {
    var k;
    ClassesOfSnoc(regs, h, fields, out.emitted, i);
    out', k := EmitRegister(mod, regs, h, fields, out, i);
    classes' := classes + [k];
  }

  /** The register loop of `main` for module `mod`. */
  method EmitRegisters(mod: string, regs: seq<Register>, h: Hierarchy, fields: seq<Field>)
    returns (out: Emission, classes: seq<ClassDef>)
    requires Coded(regs) && WellFormed(regs, h)
    ensures out == Generate(mod, regs)
    ensures InLayout(regs, out.emitted) && classes == ClassesOf(regs, h, fields, out.emitted)
  {
    ghost var end := EmissionEnd(regs, 0);
    out := Initial;
    classes := [];
    var i := 0;
    while i < |regs|
      invariant i <= end
      invariant Built(mod, regs, h, fields, i, out, classes)
    {
      var register := regs[i];
      if Skipped(register) {
        BuiltSkip(mod, regs, h, fields, i, out, classes);
        i := i + 1;
        continue;
      }
      if register.code[0] == '9' {
        break;
      }
      out, classes := VisitRegister(mod, regs, h, fields, i, out, classes);
      i := i + 1;
    }
  }

  /** The two access lines of a register: read access for users, full access for managers. */
  function AccessPair(mod: string, code: string): seq<AccessLine> {
    [AccessLine(mod, code, UserGroup), AccessLine(mod, code, ManagerGroup)]
  }

  /**
   * `e` lists, in layout order, exactly the registers before `n` that are
   * not skipped; each has level 2 or more or is `0000`.
   */
  ghost predicate EmittedBefore(regs: seq<Register>, e: seq<nat>, n: nat)
    requires n <= |regs|
  {
    && Increasing(e)
    && (forall k :: 0 <= k < |e| ==> e[k] < n && (regs[e[k]].level >= 2 || regs[e[k]].code == "0000"))
    && (forall i: nat :: i in e <==> i < n && !Skipped(regs[i]))
  }

  lemma EmittedBeforeSkip(regs: seq<Register>, e: seq<nat>, n: nat)
    requires 0 < n <= |regs| && Skipped(regs[n - 1]) && EmittedBefore(regs, e, n - 1)
    ensures EmittedBefore(regs, e, n)
  {
  }

  lemma EmittedBeforeEmit(regs: seq<Register>, e: seq<nat>, n: nat, e': seq<nat>)
    requires 0 < n <= |regs| && !Skipped(regs[n - 1]) && EmittedBefore(regs, e, n - 1)
    requires e' == e + [n - 1]
    ensures EmittedBefore(regs, e', n)
  {
    assert forall k :: 0 <= k < |e| ==> e'[k] == e[k];
  }

  /** Each step of the loop keeps the list of emitted registers exact. */
  lemma StepKeepsEmitted(mod: string, regs: seq<Register>, st: Emission, i: nat, next: Emission)
    requires Coded(regs) && i < |regs| && EmittedBefore(regs, st.emitted, i)
    requires next == Step(mod, regs, st, i)
    ensures EmittedBefore(regs, next.emitted, i + 1)
  {
    if Skipped(regs[i]) {
      EmittedBeforeSkip(regs, st.emitted, i + 1);
    } else {
      EmittedBeforeEmit(regs, st.emitted, i + 1, next.emitted);
    }
  }

  /** The registers the loop has emitted after the registers below `n`. */
  lemma {:induction false} EmittedRegisters(mod: string, regs: seq<Register>, n: nat)
    requires Coded(regs) && n <= |regs|
    ensures EmittedBefore(regs, EmitUpTo(mod, regs, n).emitted, n)
  {
    if n == 0 {
      assert EmitUpTo(mod, regs, 0).emitted == [];
    } else {
      EmittedRegisters(mod, regs, n - 1);
      StepKeepsEmitted(mod, regs, EmitUpTo(mod, regs, n - 1), n - 1, EmitUpTo(mod, regs, n));
    }
  }

  /** The classes of the registers at `e`, in order. */
  function ClassesOf(regs: seq<Register>, h: Hierarchy, fields: seq<Field>, e: seq<nat>): (ks: seq<ClassDef>)
    requires InLayout(regs, e) && WellFormed(regs, h)
    ensures |ks| == |e|
  {
    if e == [] then [] else ClassesOf(regs, h, fields, e[..|e| - 1]) + [ClassFor(regs, h, fields, e[|e| - 1])]
  }

  lemma ClassesOfSnoc(regs: seq<Register>, h: Hierarchy, fields: seq<Field>, e: seq<nat>, i: nat)
    requires InLayout(regs, e) && WellFormed(regs, h) && i < |regs|
    ensures InLayout(regs, e + [i])
    ensures ClassesOf(regs, h, fields, e + [i]) == ClassesOf(regs, h, fields, e) + [ClassFor(regs, h, fields, i)]
  {
    var e' := e + [i];
    assert e'[..|e'| - 1] == e;
  }

  /** Class `k` of `ClassesOf(e)` is the class of register `e[k]`. */
  lemma {:induction false} ClassesOfAt(regs: seq<Register>, h: Hierarchy, fields: seq<Field>, e: seq<nat>, k: nat)
    requires InLayout(regs, e) && WellFormed(regs, h) && k < |e|
    ensures ClassesOf(regs, h, fields, e)[k] == ClassFor(regs, h, fields, e[k])
  {
    if k < |e| - 1 {
      ClassesOfAt(regs, h, fields, e[..|e| - 1], k);
    }
  }

  /** The codes of the registers at `e`, in order. */
  function CodesOf(regs: seq<Register>, e: seq<nat>): (cs: seq<string>)
    requires InLayout(regs, e)
    ensures |cs| == |e|
  {
    if e == [] then [] else CodesOf(regs, e[..|e| - 1]) + [regs[e[|e| - 1]].code]
  }

  /** Code `k` of `CodesOf(e)` is the code of register `e[k]`. */
  lemma {:induction false} CodesOfAt(regs: seq<Register>, e: seq<nat>, k: nat)
    requires InLayout(regs, e) && k < |e|
    ensures CodesOf(regs, e)[k] == regs[e[k]].code
  {
    if k < |e| - 1 {
      CodesOfAt(regs, e[..|e| - 1], k);
    }
  }

  /** The access lines of the registers at `e`, two per register. */
  function AccessLinesOf(mod: string, regs: seq<Register>, e: seq<nat>): seq<AccessLine>
    requires InLayout(regs, e)
  {
    if e == [] then [] else AccessLinesOf(mod, regs, e[..|e| - 1]) + AccessPair(mod, regs[e[|e| - 1]].code)
  }

  /** Register `k` of `e` owns access lines `2k` (users) and `2k + 1` (managers). */
  lemma {:induction false} AccessLinesAt(mod: string, regs: seq<Register>, e: seq<nat>, k: nat)
    requires InLayout(regs, e) && k < |e|
    ensures |AccessLinesOf(mod, regs, e)| == 2 * |e|
    ensures AccessLinesOf(mod, regs, e)[2 * k] == AccessLine(mod, regs[e[k]].code, UserGroup)
    ensures AccessLinesOf(mod, regs, e)[2 * k + 1] == AccessLine(mod, regs[e[k]].code, ManagerGroup)
  {
    var init := e[..|e| - 1];
    if k < |e| - 1 {
      AccessLinesAt(mod, regs, init, k);
    } else if init != [] {
      AccessLinesAt(mod, regs, init, 0);
    }
  }

  /** The outputs of a state are those of the registers it emitted. */
  predicate OutputsFollow(mod: string, regs: seq<Register>, st: Emission)
  {
    && InLayout(regs, st.emitted)
    && st.concrete == CodesOf(regs, st.emitted)
    && st.security == AccessLinesOf(mod, regs, st.emitted)
  }

  /** Emitting one more register keeps the outputs in step with the emitted registers. */
  lemma OutputsStep(mod: string, regs: seq<Register>, prev: Emission, i: nat, st: Emission)
    requires i < |regs| && OutputsFollow(mod, regs, prev)
    requires && st.emitted == prev.emitted + [i]
             && st.security == prev.security + AccessPair(mod, regs[i].code)
             && st.concrete == prev.concrete + [regs[i].code]
    ensures OutputsFollow(mod, regs, st)
  {
    var e := st.emitted;
    assert e[..|e| - 1] == prev.emitted;
  }

  /** Each step of the loop keeps the outputs in step with the emitted registers. */
  lemma StepKeepsOutputs(mod: string, regs: seq<Register>, st: Emission, i: nat, next: Emission)
    requires Coded(regs) && i < |regs| && OutputsFollow(mod, regs, st)
    requires next == Step(mod, regs, st, i)
    ensures OutputsFollow(mod, regs, next)
  {
    if !Skipped(regs[i]) {
      OutputsStep(mod, regs, st, i, next);
    }
  }

  /**
   * Each emitted register gets its class, its concrete model and its two
   * access lines, in the order of emission.
   */
  lemma {:induction false} EmittedOutputs(mod: string, regs: seq<Register>, n: nat)
    requires Coded(regs) && n <= |regs|
    ensures OutputsFollow(mod, regs, EmitUpTo(mod, regs, n))
  {
    if n == 0 {
      assert EmitUpTo(mod, regs, 0) == Initial;
    } else {
      EmittedOutputs(mod, regs, n - 1);
      StepKeepsOutputs(mod, regs, EmitUpTo(mod, regs, n - 1), n - 1, EmitUpTo(mod, regs, n));
    }
  }

  /** The first characters of the codes of the registers at `e`: their blocks. */
  function Blocks(regs: seq<Register>, e: seq<nat>): (bs: seq<char>)
    requires Coded(regs) && InLayout(regs, e)
    ensures |bs| == |e|
  {
    if e == [] then [] else Blocks(regs, e[..|e| - 1]) + [regs[e[|e| - 1]].code[0]]
  }

  /** Block `k` of `Blocks(e)` is the block of register `e[k]`. */
  lemma {:induction false} BlocksAt(regs: seq<Register>, e: seq<nat>, k: nat)
    requires Coded(regs) && InLayout(regs, e) && k < |e|
    ensures Blocks(regs, e)[k] == regs[e[k]].code[0]
  {
    if k < |e| - 1 {
      BlocksAt(regs, e[..|e| - 1], k);
    }
  }

  /** The first element of each run of equal elements. */
  function RunHeads(s: seq<char>): seq<char> {
    if s == [] then []
    else if |s| == 1 || s[|s| - 2] != s[|s| - 1] then RunHeads(s[..|s| - 1]) + [s[|s| - 1]]
    else RunHeads(s[..|s| - 1])
  }

  /** The blocks of the block menus among some view items. */
  function MenuBlocks(vs: seq<ViewItem>): seq<char> {
    if vs == [] then []
    else if vs[|vs| - 1].BlockMenu? then MenuBlocks(vs[..|vs| - 1]) + [vs[|vs| - 1].bloco]
    else MenuBlocks(vs[..|vs| - 1])
  }

  lemma {:induction false} MenuBlocksAppend(a: seq<ViewItem>, b: seq<ViewItem>)
    ensures MenuBlocks(a + b) == MenuBlocks(a) + MenuBlocks(b)
    decreases |b|
  {
    if b != [] {
      var init := b[..|b| - 1];
      MenuBlocksAppend(a, init);
      assert (a + b)[..|a + b| - 1] == a + init;
    } else {
      assert a + b == a;
    }
  }

  lemma InitialHasNoBlockMenu()
    ensures MenuBlocks(InitialViews) == []
  {
    var v := InitialViews;
    assert v[..2][..1][..0] == [];
    assert MenuBlocks(v[..2][..1]) == [];
    assert MenuBlocks(v[..2]) == [];
    assert v[..2] == v[..|v| - 1];
  }

  /**
   * The state the block menus depend on: the last block seen is that of the
   * last emitted register, and the block menus so far are the run heads of
   * the emitted blocks.
   */
  predicate MenusFollowBlocks(regs: seq<Register>, emitted: seq<nat>, views: seq<ViewItem>, lastBloco: Option<char>)
    requires Coded(regs)
  {
    && InLayout(regs, emitted)
    && lastBloco == (if emitted == [] then None else Some(regs[emitted[|emitted| - 1]].code[0]))
    && MenuBlocks(views) == RunHeads(Blocks(regs, emitted))
  }

  lemma BlocksSnoc(regs: seq<Register>, e: seq<nat>, i: nat)
    requires Coded(regs) && InLayout(regs, e) && i < |regs|
    ensures InLayout(regs, e + [i])
    ensures Blocks(regs, e + [i]) == Blocks(regs, e) + [regs[i].code[0]]
  {
    var e' := e + [i];
    assert e'[..|e'| - 1] == e;
  }

  lemma RunHeadsSnoc(s: seq<char>, x: char)
    ensures RunHeads(s + [x]) == RunHeads(s) + (if s == [] || s[|s| - 1] != x then [x] else [])
  {
    var s' := s + [x];
    assert s'[..|s'| - 1] == s;
  }

  /** The view items of one register add its block to the block menus iff they hold a block menu. */
  lemma MenuBlocksStep(views: seq<ViewItem>, lastBloco: Option<char>, r: Register)
    requires |r.code| > 0
    ensures MenuBlocks(views + RegisterViews(lastBloco, r)) ==
      MenuBlocks(views) + (if lastBloco != Some(r.code[0]) then [r.code[0]] else [])
  {
    var bloco := r.code[0];
    var menu := if lastBloco != Some(bloco) then [BlockMenu(bloco)] else [];
    var entry := if r.level == 2 then [RegisterEntry(r.code, bloco)] else [];
    assert RegisterViews(lastBloco, r) == menu + entry;
    MenuBlocksAppend(views, menu + entry);
    MenuBlocksAppend(menu, entry);
    if entry != [] {
      assert entry[..0] == [];
    }
    if menu != [] {
      assert menu[..0] == [];
    }
  }

  /** One more emitted register keeps the block menus in step with the blocks. */
  lemma MenusStep(regs: seq<Register>, emitted: seq<nat>, views: seq<ViewItem>, lastBloco: Option<char>, i: nat,
                  emitted': seq<nat>, views': seq<ViewItem>, lastBloco': Option<char>)
    requires Coded(regs) && i < |regs| && MenusFollowBlocks(regs, emitted, views, lastBloco)
    requires emitted' == emitted + [i]
    requires views' == views + RegisterViews(lastBloco, regs[i])
    requires lastBloco' == Some(regs[i].code[0])
    ensures MenusFollowBlocks(regs, emitted', views', lastBloco')
  {
    var bloco := regs[i].code[0];
    MenuBlocksStep(views, lastBloco, regs[i]);
    BlocksSnoc(regs, emitted, i);
    var bp := Blocks(regs, emitted);
    RunHeadsSnoc(bp, bloco);
    assert bp == [] <==> lastBloco == None;
    assert bp != [] ==> lastBloco == Some(bp[|bp| - 1]);
  }

  /** Each step of the loop keeps the block menus in step with the blocks. */
  lemma StepKeepsMenus(mod: string, regs: seq<Register>, st: Emission, i: nat, next: Emission)
    requires Coded(regs) && i < |regs|
    requires MenusFollowBlocks(regs, st.emitted, st.views, st.lastBloco)
    requires next == Step(mod, regs, st, i)
    ensures MenusFollowBlocks(regs, next.emitted, next.views, next.lastBloco)
  {
    if !Skipped(regs[i]) {
      MenusStep(regs, st.emitted, st.views, st.lastBloco, i, next.emitted, next.views, next.lastBloco);
    }
  }

  /** A block menu is added whenever the block changes from the last emitted register's. */
  lemma {:induction false} BlockMenusAreRunHeads(mod: string, regs: seq<Register>, n: nat)
    requires Coded(regs) && n <= |regs|
    ensures var st := EmitUpTo(mod, regs, n);
      MenusFollowBlocks(regs, st.emitted, st.views, st.lastBloco)
  {
    if n > 0 {
      BlockMenusAreRunHeads(mod, regs, n - 1);
      StepKeepsMenus(mod, regs, EmitUpTo(mod, regs, n - 1), n - 1, EmitUpTo(mod, regs, n));
    } else {
      InitialHasNoBlockMenu();
    }
  }

  /** Every element has a run head, and run heads are elements. */
  lemma {:induction false} RunHeadsMembers(s: seq<char>)
    ensures forall c :: c in RunHeads(s) <==> c in s
  {
    if s != [] {
      var init := s[..|s| - 1];
      RunHeadsMembers(init);
      assert s == init + [s[|s| - 1]];
      if |s| > 1 && s[|s| - 2] == s[|s| - 1] {
        assert s[|s| - 1] in init;
      }
    }
  }

  /** Equal elements are never separated by a different one. */
  predicate Contiguous(s: seq<char>) {
    forall i, j, k :: 0 <= i <= j <= k < |s| && s[i] == s[k] ==> s[j] == s[i]
  }

  /** No element occurs twice. */
  predicate Distinct(s: seq<char>) {
    forall a, b :: 0 <= a < b < |s| ==> s[a] != s[b]
  }

  /** In a sequence whose runs are contiguous, every element heads one run only. */
  lemma {:induction false} RunHeadsDistinct(s: seq<char>)
    requires Contiguous(s)
    ensures Distinct(RunHeads(s))
  {
    if s != [] {
      var init := s[..|s| - 1];
      var x := s[|s| - 1];
      assert Contiguous(init) by {
        forall i, j, k | 0 <= i <= j <= k < |init| && init[i] == init[k] ensures init[j] == init[i] {
          assert s[i] == init[i] && s[j] == init[j] && s[k] == init[k];
        }
      }
      RunHeadsDistinct(init);
      var ri := RunHeads(init);
      if |s| == 1 || s[|s| - 2] != x {
        if |s| > 1 {
          forall j | 0 <= j < |init| ensures init[j] != x {
            assert s[j] == init[j] && j <= |s| - 2 <= |s| - 1;
          }
        }
        RunHeadsMembers(init);
        var r := RunHeads(s);
        assert r == ri + [x];
        forall a, b | 0 <= a < b < |r| ensures r[a] != r[b] {
          if b == |r| - 1 {
            assert r[a] == ri[a] && ri[a] in ri && r[b] == x;
          } else {
            assert r[a] == ri[a] && r[b] == ri[b];
          }
        }
      } else {
        assert RunHeads(s) == ri;
      }
    }
  }

  /** The action and menu item of a level-2 register, under its block's menu. */
  function EntryOf(r: Register): ViewItem
    requires |r.code| > 0
  {
    RegisterEntry(r.code, r.code[0])
  }

  /** The register entries among some view items, in order. */
  function RegisterEntries(vs: seq<ViewItem>): seq<ViewItem> {
    if vs == [] then []
    else if vs[|vs| - 1].RegisterEntry? then RegisterEntries(vs[..|vs| - 1]) + [vs[|vs| - 1]]
    else RegisterEntries(vs[..|vs| - 1])
  }

  /** The entries of the level-2 registers among those at `e`, in order. */
  function EntriesOf(regs: seq<Register>, e: seq<nat>): seq<ViewItem>
    requires Coded(regs) && InLayout(regs, e)
  {
    if e == [] then []
    else
      var r := regs[e[|e| - 1]];
      EntriesOf(regs, e[..|e| - 1]) + (if r.level == 2 then [EntryOf(r)] else [])
  }

  lemma {:induction false} RegisterEntriesAppend(a: seq<ViewItem>, b: seq<ViewItem>)
    ensures RegisterEntries(a + b) == RegisterEntries(a) + RegisterEntries(b)
    decreases |b|
  {
    if b != [] {
      var init := b[..|b| - 1];
      RegisterEntriesAppend(a, init);
      assert (a + b)[..|a + b| - 1] == a + init;
    } else {
      assert a + b == a;
    }
  }

  lemma InitialHasNoEntry()
    ensures RegisterEntries(InitialViews) == []
  {
    var v := InitialViews;
    assert v[..2][..1][..0] == [];
    assert RegisterEntries(v[..2][..1]) == [];
    assert RegisterEntries(v[..2]) == [];
    assert v[..2] == v[..|v| - 1];
  }

  /** The view items of one register hold its entry iff it is at level 2. */
  lemma RegisterEntriesStep(views: seq<ViewItem>, lastBloco: Option<char>, r: Register)
    requires |r.code| > 0
    ensures RegisterEntries(views + RegisterViews(lastBloco, r)) ==
      RegisterEntries(views) + (if r.level == 2 then [EntryOf(r)] else [])
  {
    var bloco := r.code[0];
    var menu := if lastBloco != Some(bloco) then [BlockMenu(bloco)] else [];
    var entry := if r.level == 2 then [RegisterEntry(r.code, bloco)] else [];
    assert RegisterViews(lastBloco, r) == menu + entry;
    RegisterEntriesAppend(views, menu + entry);
    RegisterEntriesAppend(menu, entry);
    if entry != [] {
      assert entry[..0] == [];
    }
    if menu != [] {
      assert menu[..0] == [];
    }
  }

  /** The register entries of a state are those of the level-2 registers it emitted. */
  predicate EntriesFollow(regs: seq<Register>, st: Emission)
    requires Coded(regs)
  {
    InLayout(regs, st.emitted) && RegisterEntries(st.views) == EntriesOf(regs, st.emitted)
  }

  lemma EntriesStep(regs: seq<Register>, prev: Emission, i: nat, st: Emission)
    requires Coded(regs) && i < |regs| && EntriesFollow(regs, prev)
    requires st.emitted == prev.emitted + [i]
    requires st.views == prev.views + RegisterViews(prev.lastBloco, regs[i])
    ensures EntriesFollow(regs, st)
  {
    RegisterEntriesStep(prev.views, prev.lastBloco, regs[i]);
    var e := st.emitted;
    assert e[..|e| - 1] == prev.emitted;
  }

  /** Each step of the loop keeps the register entries in step with the emitted registers. */
  lemma StepKeepsEntries(mod: string, regs: seq<Register>, st: Emission, i: nat, next: Emission)
    requires Coded(regs) && i < |regs| && EntriesFollow(regs, st)
    requires next == Step(mod, regs, st, i)
    ensures EntriesFollow(regs, next)
  {
    if !Skipped(regs[i]) {
      EntriesStep(regs, st, i, next);
    }
  }

  /** After the registers below `n`, the register entries are those of the emitted level-2 registers. */
  lemma {:induction false} EmittedEntries(mod: string, regs: seq<Register>, n: nat)
    requires Coded(regs) && n <= |regs|
    ensures EntriesFollow(regs, EmitUpTo(mod, regs, n))
  {
    if n == 0 {
      InitialHasNoEntry();
    } else {
      EmittedEntries(mod, regs, n - 1);
      StepKeepsEntries(mod, regs, EmitUpTo(mod, regs, n - 1), n - 1, EmitUpTo(mod, regs, n));
    }
  }

  /** `v` is the entry of some level-2 register among those at `e`. */
  predicate EntryAmong(regs: seq<Register>, e: seq<nat>, v: ViewItem)
    requires Coded(regs) && InLayout(regs, e)
  {
    exists k :: 0 <= k < |e| && regs[e[k]].level == 2 && v == EntryOf(regs[e[k]])
  }

  /** An entry is among those of `e` iff it is the entry of a level-2 register of `e`. */
  lemma {:induction false} EntriesOfMembers(regs: seq<Register>, e: seq<nat>)
    requires Coded(regs) && InLayout(regs, e)
    ensures forall v :: v in EntriesOf(regs, e) <==> EntryAmong(regs, e, v)
  {
    if e != [] {
      var n := |e| - 1;
      var init := e[..n];
      var tail := if regs[e[n]].level == 2 then [EntryOf(regs[e[n]])] else [];
      assert EntriesOf(regs, e) == EntriesOf(regs, init) + tail;
      EntriesOfMembers(regs, init);
      forall v ensures v in EntriesOf(regs, e) <==> EntryAmong(regs, e, v) {
        if EntryAmong(regs, init, v) {
          var k :| 0 <= k < |init| && regs[init[k]].level == 2 && v == EntryOf(regs[init[k]]);
          assert init[k] == e[k];
        }
        if EntryAmong(regs, e, v) {
          var k :| 0 <= k < |e| && regs[e[k]].level == 2 && v == EntryOf(regs[e[k]]);
          if k < n {
            assert init[k] == e[k];
            assert EntryAmong(regs, init, v);
          }
        }
      }
    }
  }

  /**
   * The actions and menu items the whole loop writes: one for each emitted
   * register of level 2, in the order of emission, and no other.
   */
  lemma GenerateEntries(mod: string, regs: seq<Register>)
    requires Coded(regs)
    ensures var out := Generate(mod, regs);
      && InLayout(regs, out.emitted)
      && RegisterEntries(out.views) == EntriesOf(regs, out.emitted)
      && (forall v :: v in RegisterEntries(out.views) <==> EntryAmong(regs, out.emitted, v))
  {
    var end := EmissionEnd(regs, 0);
    EmittedEntries(mod, regs, end);
    var st := EmitUpTo(mod, regs, end);
    EntriesOfMembers(regs, st.emitted);
  }

  /**
   * Which registers the whole loop emits: those before the stop that are
   * not skipped, in layout order, none of them in block 9.
   */
  lemma GenerateEmits(mod: string, regs: seq<Register>)
    requires Coded(regs)
    ensures var e := Generate(mod, regs).emitted;
      && Increasing(e)
      && (forall i: nat :: i in e <==> i < EmissionEnd(regs, 0) && !Skipped(regs[i]))
      && (forall k :: 0 <= k < |e| ==>
           e[k] < |regs| && (regs[e[k]].level >= 2 || regs[e[k]].code == "0000") && regs[e[k]].code[0] != '9')
  {
    var end := EmissionEnd(regs, 0);
    EmittedRegisters(mod, regs, end);
    var e := EmitUpTo(mod, regs, end).emitted;
    forall k | 0 <= k < |e| ensures regs[e[k]].code[0] != '9' {
      assert e[k] in e;
    }
  }

  /**
   * What the whole loop writes: each emitted register's class, concrete
   * model and two access lines, in the order of emission, and one block menu
   * for each block among them.
   */
  lemma GenerateWrites(mod: string, regs: seq<Register>)
    requires Coded(regs)
    ensures var out := Generate(mod, regs);
      && OutputsFollow(mod, regs, out)
      && (forall c :: c in MenuBlocks(out.views) <==> c in Blocks(regs, out.emitted))
  {
    var end := EmissionEnd(regs, 0);
    EmittedOutputs(mod, regs, end);
    BlockMenusAreRunHeads(mod, regs, end);
    var st := EmitUpTo(mod, regs, end);
    RunHeadsMembers(Blocks(regs, st.emitted));
  }

  /**
   * On the sorted layout the stop loses nothing but block 9: the loop emits
   * exactly the registers that are not skipped and not in block 9.
   */
  lemma SortedEmitsAllButBlock9(mod: string, regs: seq<Register>)
    requires Coded(regs) && LayoutSorted(regs)
    ensures forall i: nat :: i in Generate(mod, regs).emitted <==>
      i < |regs| && !Skipped(regs[i]) && regs[i].code[0] != '9'
  {
    var end := EmissionEnd(regs, 0);
    EmittedRegisters(mod, regs, end);
    forall i: nat | end <= i < |regs| ensures regs[i].code[0] == '9' {
      Block9IsLast(regs, end, i);
    }
  }

  /** The blocks of registers visited in layout order are contiguous. */
  lemma SortedBlocksOfEmitted(regs: seq<Register>, e: seq<nat>)
    requires Coded(regs) && LayoutSorted(regs) && InLayout(regs, e) && Increasing(e)
    ensures Contiguous(Blocks(regs, e))
  {
    var bs := Blocks(regs, e);
    forall i, j, k | 0 <= i <= j <= k < |bs| && bs[i] == bs[k] ensures bs[j] == bs[i] {
      BlocksAt(regs, e, i);
      BlocksAt(regs, e, j);
      BlocksAt(regs, e, k);
      assert e[i] <= e[j] <= e[k];
      SortedBlocksContiguous(regs, e[i], e[j], e[k]);
    }
  }

  /** On the sorted layout each block gets one menu, in the order of the blocks. */
  lemma SortedBlockMenusDistinct(mod: string, regs: seq<Register>)
    requires Coded(regs) && LayoutSorted(regs)
    ensures var out := Generate(mod, regs);
      InLayout(regs, out.emitted) &&
      MenuBlocks(out.views) == RunHeads(Blocks(regs, out.emitted)) &&
      Distinct(MenuBlocks(out.views))
  {
    var end := EmissionEnd(regs, 0);
    EmittedRegisters(mod, regs, end);
    BlockMenusAreRunHeads(mod, regs, end);
    var out := Generate(mod, regs);
    SortedBlocksOfEmitted(regs, out.emitted);
    RunHeadsDistinct(Blocks(regs, out.emitted));
  }

  /**
   * The per-module part of `main`: filter and sort the registers, link
   * them, then run the register loop.
   */
  method GenerateModule(mod: string, raw: seq<Register>, fields: seq<Field>)
    returns (regs: seq<Register>, h: Hierarchy, out: Emission, classes: seq<ClassDef>)
    requires Coded(raw)
    ensures regs == PrepareRegisters(mod, raw)
    ensures HierarchyOf(regs, h) && WellFormed(regs, h)
    ensures out == Generate(mod, regs)
    ensures InLayout(regs, out.emitted) && classes == ClassesOf(regs, h, fields, out.emitted)
  {
    regs := PrepareRegisters(mod, raw);
    h := CollectRegisterChildren(regs);
    HierarchyWellFormed(regs, h);
    out, classes := EmitRegisters(mod, regs, h, fields);
  }
}
