/**
 * The register hierarchy of a SPED layout. The layout lists its registers
 * flat, in layout order, each with a nesting level; the generator recovers
 * which register opens which by scanning that list. Registers are referred to
 * by their position in the list, and the links the scan establishes (parent,
 * one-to-many parent, the to-one and to-many children) are index maps.
 */
module Registers {
  import opened Wrappers
  import opened Text

  /** One row of a layout's register table. */
  datatype Register = Register(code: string, level: nat, card: string)

  /** A cardinality column that says "exactly one" (`1:1`, or its misprint `1;1`). */
  predicate IsToOne(card: string) {
    var c := Strip(card);
    c == "1:1" || c == "1;1"
  }

  /** No two registers of the layout share a code. */
  predicate UniqueCodes(regs: seq<Register>) {
    forall i, j :: 0 <= i < j < |regs| ==> regs[i].code != regs[j].code
  }

  predicate Increasing(xs: seq<nat>) {
    forall a, b :: 0 <= a < b < |xs| ==> xs[a] < xs[b]
  }

  /** The first position at or after `from` holding code `c`, or `|regs|`. */
  function FirstWithCode(regs: seq<Register>, c: string, from: nat): (s: nat)
    requires from <= |regs|
    ensures from <= s <= |regs|
    ensures s < |regs| ==> regs[s].code == c
    ensures forall k :: from <= k < s ==> regs[k].code != c
    decreases |regs| - from
  {
    if from == |regs| || regs[from].code == c then from else FirstWithCode(regs, c, from + 1)
  }

  /**
   * Where a scan for children of a register with code `c` and level `level`
   * stops: the first position at or after `from` of a register with another
   * code and a level no deeper than `level`, or `|regs|`.
   */
  function ScanEnd(regs: seq<Register>, c: string, level: nat, from: nat): (e: nat)
    requires from <= |regs|
    ensures from <= e <= |regs|
    ensures e < |regs| ==> regs[e].code != c && regs[e].level <= level
    ensures forall k :: from <= k < e ==> regs[k].code == c || regs[k].level > level
    decreases |regs| - from
  {
    if from == |regs| || (regs[from].code != c && regs[from].level <= level) then from
    else ScanEnd(regs, c, level, from + 1)
  }

  /**
   * The scan collects children from just after the first register carrying
   * the collector's code (the register is found by its code, not by its
   * position).
   */
  function ScanStart(regs: seq<Register>, p: nat): (s: nat)
    requires p < |regs|
    ensures s <= p && regs[s].code == regs[p].code
  {
    FirstWithCode(regs, regs[p].code, 0)
  }

  /**
   * Register `j` lies strictly between the scan's start `s` and its end `e`,
   * carries a code other than `c` and is exactly one level below `level`.
   */
  predicate InRange(regs: seq<Register>, c: string, level: nat, s: nat, e: nat, j: nat) {
    && s < j < e && j < |regs|
    && regs[j].code != c
    && regs[j].level == level + 1
  }

  /** Register `j` is one the scan from register `p` collects. */
  predicate InScan(regs: seq<Register>, p: nat, j: nat)
    requires p < |regs|
  {
    var s := ScanStart(regs, p);
    InRange(regs, regs[p].code, regs[p].level, s, ScanEnd(regs, regs[p].code, regs[p].level, s + 1), j)
  }

  /** Only registers below the block level (level > 1) collect children. */
  predicate Collects(regs: seq<Register>, p: nat, j: nat) {
    p < |regs| && regs[p].level > 1 && InScan(regs, p, j)
  }

  /** `xs` lists, in layout order, exactly the children of `p` whose cardinality is to-one iff `toOne`. */
  ghost predicate ChildList(regs: seq<Register>, p: nat, xs: seq<nat>, toOne: bool)
    requires p < |regs|
  {
    && Increasing(xs)
    && forall j: nat :: j in xs <==> InScan(regs, p, j) && IsToOne(regs[j].card) == toOne
  }

  /**
   * The links the scan leaves behind: `parent[j]` and `o2mParent[j]` are the
   * `parent` and `o2m_parent` entries of register `j`, and `childrenO2m[p]`,
   * `childrenM2o[p]` the `children_o2m` and `children_m2o` lists of `p`.
   */
  datatype Hierarchy = Hierarchy(
    parent: map<nat, nat>,
    o2mParent: map<nat, nat>,
    childrenO2m: map<nat, seq<nat>>,
    childrenM2o: map<nat, seq<nat>>)

  /** The child lists of the collectors at positions below `n`. */
  ghost predicate ChildrenUpTo(regs: seq<Register>, h: Hierarchy, n: nat)
    requires n <= |regs|
  {
    && (forall p: nat :: p in h.childrenO2m <==> p < n && regs[p].level > 1)
    && (forall p: nat :: p in h.childrenM2o <==> p < n && regs[p].level > 1)
    && (forall p: nat :: p in h.childrenO2m ==> ChildList(regs, p, h.childrenO2m[p], false))
    && (forall p: nat :: p in h.childrenM2o ==> ChildList(regs, p, h.childrenM2o[p], true))
  }

  /**
   * Links a sequence of collectors `p < n` leaves when each one, in turn,
   * sets `parent[j] := p` on every `j` it collects: `j` has a link iff some
   * collector collected it, and the link names the last one that did.
   */
  ghost predicate LinksUpTo(collects: (nat, nat) -> bool, parent: map<nat, nat>, n: nat) {
    && (forall j: nat :: j in parent <==> exists p: nat :: p < n && collects(p, j))
    && (forall j: nat :: j in parent ==> LastCollector(collects, parent[j], j, n))
  }

  /** `p` is the last collector of `j` among those below `n`. */
  ghost predicate LastCollector(collects: (nat, nat) -> bool, p: nat, j: nat, n: nat) {
    && p < n
    && collects(p, j)
    && forall q: nat :: p < q < n ==> !collects(q, j)
  }

  /** `Collects` on a fixed layout, as a relation. */
  ghost function CollectsIn(regs: seq<Register>): (nat, nat) -> bool {
    (p: nat, j: nat) => Collects(regs, p, j)
  }

  /** The `parent` links set by the collectors below `n`. */
  ghost predicate ParentsUpTo(regs: seq<Register>, h: Hierarchy, n: nat) {
    LinksUpTo(CollectsIn(regs), h.parent, n)
  }

  /** A register has an `o2m_parent` link iff it has a parent and is not to-one; both links agree. */
  ghost predicate O2mParents(regs: seq<Register>, h: Hierarchy) {
    && (forall j: nat :: j in h.o2mParent <==> j in h.parent && j < |regs| && !IsToOne(regs[j].card))
    && (forall j: nat :: j in h.o2mParent ==> j in h.parent && h.o2mParent[j] == h.parent[j])
  }

  /** The links after the collectors at positions below `n` have run. */
  ghost predicate HierarchyUpTo(regs: seq<Register>, h: Hierarchy, n: nat)
    requires n <= |regs|
  {
    ChildrenUpTo(regs, h, n) && ParentsUpTo(regs, h, n) && O2mParents(regs, h)
  }

  /** The links `collect_register_children` leaves on the whole layout. */
  ghost predicate HierarchyOf(regs: seq<Register>, h: Hierarchy) {
    HierarchyUpTo(regs, h, |regs|)
  }

  /**
   * The inner scan of `collect_register_children` for the register at `p`:
   * walk the whole list, start collecting after the first register with
   * `p`'s code, skip registers with that code, take the registers one level
   * deeper and stop at the first register that is not deeper than `p`.
   */
  method ScanChildren(regs: seq<Register>, p: nat) returns (o2m: seq<nat>, m2o: seq<nat>)
    requires p < |regs|
    ensures ChildList(regs, p, o2m, false)
    ensures ChildList(regs, p, m2o, true)
  {
    var code := regs[p].code;
    var level := regs[p].level;
    ghost var s := ScanStart(regs, p);
    ghost var e := ScanEnd(regs, code, level, s + 1);
    assert forall j: nat :: InScan(regs, p, j) == InRange(regs, code, level, s, e, j);
    var collecting := false;
    o2m, m2o := [], [];
    var k := 0;
    while k < |regs|
      invariant 0 <= k <= |regs|
      invariant collecting <==> s < k
      invariant collecting ==> k <= e
      invariant Increasing(o2m) && Increasing(m2o)
      invariant forall j: nat :: j in o2m <==> j < k && InRange(regs, code, level, s, e, j) && !IsToOne(regs[j].card)
      invariant forall j: nat :: j in m2o <==> j < k && InRange(regs, code, level, s, e, j) && IsToOne(regs[j].card)
    {
      var r := regs[k];
      if r.code == code {
        assert s <= k;
        collecting := true;
        k := k + 1;
        continue;
      }
      if collecting {
        if r.level == level + 1 {
          assert InRange(regs, code, level, s, e, k);
          assert forall a :: 0 <= a < |o2m| ==> o2m[a] in o2m;
          assert forall a :: 0 <= a < |m2o| ==> m2o[a] in m2o;
          if IsToOne(r.card) {
            m2o := m2o + [k];
          } else {
            o2m := o2m + [k];
          }
        } else if r.level <= level {
          assert k == e;
          break;
        }
      } else {
        assert !InRange(regs, code, level, s, e, k);
      }
      k := k + 1;
    }
  }

  /**
   * What one collector leaves behind: its two child lists, a `parent` link
   * on each child and an `o2m_parent` link on each to-many child, replacing
   * any link an earlier collector set.
   */
  function Record(h: Hierarchy, p: nat, o2m: seq<nat>, m2o: seq<nat>): Hierarchy
  {
    Hierarchy(
      h.parent + map j | j in o2m + m2o :: p,
      h.o2mParent + map j | j in o2m :: p,
      h.childrenO2m[p := o2m],
      h.childrenM2o[p := m2o])
  }

  /** A register at level 0 or 1 collects nothing. */
  lemma ChildrenSkip(regs: seq<Register>, h: Hierarchy, i: nat)
    requires i < |regs| && regs[i].level <= 1 && ChildrenUpTo(regs, h, i)
    ensures ChildrenUpTo(regs, h, i + 1)
  {
  }

  lemma ParentsSkip(regs: seq<Register>, h: Hierarchy, i: nat)
    requires i < |regs| && regs[i].level <= 1 && ParentsUpTo(regs, h, i)
    ensures ParentsUpTo(regs, h, i + 1)
  {
    assert forall j: nat :: !CollectsIn(regs)(i, j);
    LinksIdle(CollectsIn(regs), h.parent, i);
  }

  /** The two lists of a scan hold exactly the registers the scan collects. */
  lemma ScanCollects(regs: seq<Register>, i: nat, o2m: seq<nat>, m2o: seq<nat>)
    requires i < |regs| && regs[i].level > 1
    requires ChildList(regs, i, o2m, false) && ChildList(regs, i, m2o, true)
    ensures forall j: nat :: j in o2m + m2o <==> Collects(regs, i, j)
  {
    forall j: nat ensures j in o2m + m2o <==> Collects(regs, i, j) {
      if Collects(regs, i, j) {
        if IsToOne(regs[j].card) { assert j in m2o; } else { assert j in o2m; }
      }
    }
  }

  /** Recording the child list of collector `i` in one of the two maps. */
  lemma ChildMapStep(regs: seq<Register>, m: map<nat, seq<nat>>, m': map<nat, seq<nat>>, i: nat, xs: seq<nat>, toOne: bool)
    requires i < |regs| && regs[i].level > 1 && m' == m[i := xs]
    requires forall p: nat :: p in m <==> p < i && regs[p].level > 1
    requires forall p: nat :: p in m ==> ChildList(regs, p, m[p], toOne)
    requires ChildList(regs, i, xs, toOne)
    ensures forall p: nat :: p in m' <==> p < i + 1 && regs[p].level > 1
    ensures forall p: nat :: p in m' ==> ChildList(regs, p, m'[p], toOne)
  {
    forall p: nat | p in m' ensures ChildList(regs, p, m'[p], toOne) {
      if p != i {
        assert m'[p] == m[p];
      }
    }
  }

  lemma ChildrenStep(regs: seq<Register>, h: Hierarchy, i: nat, o2m: seq<nat>, m2o: seq<nat>)
    requires i < |regs| && regs[i].level > 1 && ChildrenUpTo(regs, h, i)
    requires ChildList(regs, i, o2m, false) && ChildList(regs, i, m2o, true)
    ensures ChildrenUpTo(regs, Record(h, i, o2m, m2o), i + 1)
  {
    var h' := Record(h, i, o2m, m2o);
    ChildMapStep(regs, h.childrenO2m, h'.childrenO2m, i, o2m, false);
    ChildMapStep(regs, h.childrenM2o, h'.childrenM2o, i, m2o, true);
  }

  /** A collector that collects nothing leaves the links as they are. */
  lemma LinksIdle(collects: (nat, nat) -> bool, parent: map<nat, nat>, i: nat)
    requires LinksUpTo(collects, parent, i)
    requires forall j: nat :: !collects(i, j)
    ensures LinksUpTo(collects, parent, i + 1)
  {
    forall j: nat ensures j in parent <==> exists p: nat :: p < i + 1 && collects(p, j) {
      if exists p: nat :: p < i + 1 && collects(p, j) {
        var p: nat :| p < i + 1 && collects(p, j);
        assert p < i;
      }
    }
  }

  /** One more collector, `i`, overwrites the links of the registers in `kids`. */
  lemma LinksStep(collects: (nat, nat) -> bool, parent: map<nat, nat>, i: nat, kids: seq<nat>)
    requires LinksUpTo(collects, parent, i)
    requires forall j: nat :: j in kids <==> collects(i, j)
    ensures LinksUpTo(collects, parent + map j | j in kids :: i, i + 1)
  {
    var parent' := parent + map j | j in kids :: i;
    forall j: nat ensures j in parent' <==> exists p: nat :: p < i + 1 && collects(p, j) {
      if exists p: nat :: p < i + 1 && collects(p, j) {
        var p: nat :| p < i + 1 && collects(p, j);
        if p < i {
          assert j in parent;
        }
      }
    }
    forall j: nat | j in parent' ensures LastCollector(collects, parent'[j], j, i + 1) {
      if j !in kids {
        assert LastCollector(collects, parent[j], j, i);
      }
    }
  }

  lemma ParentsStep(regs: seq<Register>, h: Hierarchy, i: nat, o2m: seq<nat>, m2o: seq<nat>)
    requires i < |regs| && ParentsUpTo(regs, h, i)
    requires forall j: nat :: j in o2m + m2o <==> Collects(regs, i, j)
    ensures ParentsUpTo(regs, Record(h, i, o2m, m2o), i + 1)
  {
    LinksStep(CollectsIn(regs), h.parent, i, o2m + m2o);
  }

  lemma O2mParentsStep(regs: seq<Register>, h: Hierarchy, i: nat, o2m: seq<nat>, m2o: seq<nat>)
    requires i < |regs| && O2mParents(regs, h)
    requires ChildList(regs, i, o2m, false) && ChildList(regs, i, m2o, true)
    ensures O2mParents(regs, Record(h, i, o2m, m2o))
  {
    var h' := Record(h, i, o2m, m2o);
    forall j: nat ensures j in h'.o2mParent <==> j in h'.parent && j < |regs| && !IsToOne(regs[j].card) {
      if j in m2o {
        assert j !in o2m && j !in h.o2mParent;
      }
    }
    forall j: nat | j in h'.o2mParent ensures j in h'.parent && h'.o2mParent[j] == h'.parent[j] {
      if j in o2m {
        assert h'.o2mParent[j] == i;
      } else {
        assert j !in m2o;
      }
    }
  }

  /**
   * `collect_register_children`: every register of level > 1, in layout
   * order, scans for its children and records them, and each child records
   * the register that collected it (and, for to-many children, also as its
   * one-to-many parent).
   */
  method CollectRegisterChildren(regs: seq<Register>) returns (h: Hierarchy)
    ensures HierarchyOf(regs, h)
  {
    h := Hierarchy(map[], map[], map[], map[]);
    for i := 0 to |regs|
      invariant HierarchyUpTo(regs, h, i)
    {
      if regs[i].level > 1 {
        var o2m, m2o := ScanChildren(regs, i);
        ScanCollects(regs, i, o2m, m2o);
        ChildrenStep(regs, h, i, o2m, m2o);
        ParentsStep(regs, h, i, o2m, m2o);
        O2mParentsStep(regs, h, i, o2m, m2o);
        h := Record(h, i, o2m, m2o);
      } else {
        ChildrenSkip(regs, h, i);
        ParentsSkip(regs, h, i);
      }
    }
  }

  /** With unique codes the scan of a register starts right after it. */
  lemma ScanStartsAtCollector(regs: seq<Register>, p: nat)
    requires UniqueCodes(regs) && p < |regs|
    ensures ScanStart(regs, p) == p
  {
    var s := ScanStart(regs, p);
    assert regs[s].code == regs[p].code;
  }

  /**
   * With unique codes, a register collects only registers that follow it,
   * lie one level deeper, and come before the first later register whose
   * level is not deeper than its own.
   */
  lemma ChildrenFollowCollector(regs: seq<Register>, p: nat, j: nat)
    requires UniqueCodes(regs) && Collects(regs, p, j)
    ensures p < j < |regs| && regs[p].level > 1 && regs[j].level == regs[p].level + 1
    ensures forall k :: p < k < j ==> regs[k].level > regs[p].level
  {
    ScanStartsAtCollector(regs, p);
    var e := ScanEnd(regs, regs[p].code, regs[p].level, p + 1);
    forall k | p < k < j ensures regs[k].level > regs[p].level {
      assert regs[k].code != regs[p].code;
    }
  }

  /** With unique codes no register is collected by two registers. */
  lemma CollectorIsUnique(regs: seq<Register>, p: nat, q: nat, j: nat)
    requires UniqueCodes(regs) && Collects(regs, p, j) && Collects(regs, q, j)
    ensures p == q
  {
    ChildrenFollowCollector(regs, p, j);
    ChildrenFollowCollector(regs, q, j);
  }

  /**
   * The last position below `k` whose register is shallower than register `j`
   * (has a smaller level), if there is one.
   */
  function NearestShallower(regs: seq<Register>, j: nat, k: nat): (r: Option<nat>)
    requires j < |regs| && k <= |regs|
    ensures r.Some? ==> r.value < k && regs[r.value].level < regs[j].level
    ensures r.Some? ==> forall q :: r.value < q < k ==> regs[q].level >= regs[j].level
    ensures r.None? ==> forall q :: 0 <= q < k ==> regs[q].level >= regs[j].level
  {
    if k == 0 then None
    else if regs[k - 1].level < regs[j].level then Some(k - 1)
    else NearestShallower(regs, j, k - 1)
  }

  /**
   * The register that opens register `j` in the layout, defined directly: the
   * closest register before `j` with a smaller level.
   */
  function Enclosing(regs: seq<Register>, j: nat): Option<nat>
    requires j < |regs|
  {
    NearestShallower(regs, j, j)
  }

  /**
   * With unique codes, the scan recovers the nesting of the layout: `p`
   * collects `j` exactly when `p` is the register enclosing `j`, one level up,
   * and below the block level.
   */
  lemma CollectsIffEnclosing(regs: seq<Register>, p: nat, j: nat)
    requires UniqueCodes(regs) && j < |regs|
    ensures Collects(regs, p, j) <==>
      (Enclosing(regs, j) == Some(p) && regs[p].level + 1 == regs[j].level && regs[p].level > 1)
  {
    var r := Enclosing(regs, j);
    if Collects(regs, p, j) {
      ChildrenFollowCollector(regs, p, j);
    }
    if r == Some(p) && regs[p].level + 1 == regs[j].level && regs[p].level > 1 {
      ScanStartsAtCollector(regs, p);
      var e := ScanEnd(regs, regs[p].code, regs[p].level, p + 1);
      assert InRange(regs, regs[p].code, regs[p].level, p, e, j);
    }
  }

  /**
   * With unique codes the links `collect_register_children` leaves agree with
   * each other: `j`'s `parent` is `p` iff `j` is in one of `p`'s child lists,
   * and `j`'s `o2m_parent` is `p` iff `j` is in `p`'s to-many list.
   */
  lemma ParentLinksMatchChildLists(regs: seq<Register>, h: Hierarchy, p: nat, j: nat)
    requires UniqueCodes(regs) && HierarchyOf(regs, h)
    ensures (j in h.parent && h.parent[j] == p) <==>
      (p in h.childrenO2m && p in h.childrenM2o && (j in h.childrenO2m[p] || j in h.childrenM2o[p]))
    ensures (j in h.o2mParent && h.o2mParent[j] == p) <==>
      (p in h.childrenO2m && j in h.childrenO2m[p])
  {
    assert LinksUpTo(CollectsIn(regs), h.parent, |regs|);
    if j in h.parent && h.parent[j] == p {
      assert LastCollector(CollectsIn(regs), p, j, |regs|);
      assert Collects(regs, p, j);
      if IsToOne(regs[j].card) { assert j in h.childrenM2o[p]; } else { assert j in h.childrenO2m[p]; }
    }
    if p in h.childrenO2m && p in h.childrenM2o && (j in h.childrenO2m[p] || j in h.childrenM2o[p]) {
      assert ChildList(regs, p, h.childrenO2m[p], false) && ChildList(regs, p, h.childrenM2o[p], true);
      assert Collects(regs, p, j);
      assert CollectsIn(regs)(p, j);
      assert j in h.parent;
      var q := h.parent[j];
      assert LastCollector(CollectsIn(regs), q, j, |regs|);
      CollectorIsUnique(regs, p, q, j);
    }
    if p in h.childrenO2m && j in h.childrenO2m[p] {
      assert ChildList(regs, p, h.childrenO2m[p], false);
      assert !IsToOne(regs[j].card);
    }
    if j in h.o2mParent && h.o2mParent[j] == p {
      assert !IsToOne(regs[j].card);
    }
  }

  /**
   * With unique codes the `parent` link of every register is its enclosing
   * register whenever that one is exactly one level up and below the block
   * level, and there is no link otherwise.
   */
  lemma ParentIsEnclosing(regs: seq<Register>, h: Hierarchy, j: nat)
    requires UniqueCodes(regs) && HierarchyOf(regs, h) && j < |regs|
    ensures j in h.parent <==>
      (Enclosing(regs, j).Some? && regs[Enclosing(regs, j).value].level + 1 == regs[j].level
       && regs[Enclosing(regs, j).value].level > 1)
    ensures j in h.parent ==> Enclosing(regs, j) == Some(h.parent[j])
  {
    assert LinksUpTo(CollectsIn(regs), h.parent, |regs|);
    var r := Enclosing(regs, j);
    if j in h.parent {
      var p := h.parent[j];
      assert LastCollector(CollectsIn(regs), p, j, |regs|);
      CollectsIffEnclosing(regs, p, j);
    }
    if r.Some? && regs[r.value].level + 1 == regs[j].level && regs[r.value].level > 1 {
      CollectsIffEnclosing(regs, r.value, j);
      assert CollectsIn(regs)(r.value, j);
    }
  }

  /**
   * Why the position properties need unique codes: the scan finds its start
   * by code, so the second of two registers `A` collects a register that
   * comes before it.
   */
  lemma DuplicateCodeCollectsEarlier()
    ensures var regs := [Register("A", 2, "1:N"), Register("B", 3, "1:N"), Register("A", 2, "1:N")];
      Collects(regs, 2, 1)
  {
    var regs := [Register("A", 2, "1:N"), Register("B", 3, "1:N"), Register("A", 2, "1:N")];
    assert FirstWithCode(regs, "A", 0) == 0;
    assert ScanEnd(regs, "A", 2, 3) == 3;
    assert ScanEnd(regs, "A", 2, 2) == 3;
    assert ScanEnd(regs, "A", 2, 1) == 3;
  }
}
