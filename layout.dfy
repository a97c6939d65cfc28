/**
 * The order in which the generator visits a module's registers: the
 * registers of the `C` block are dropped for the accounting modules (`ecd`,
 * `ecf`), and the rest are sorted by a key that puts block 0 first, then the
 * letter blocks, then block 1 and block 9 last.
 */
module Layout {
  import opened Text
  import opened Registers

  /** Every register has a non-empty code (the generator reads `code[0]`). */
  predicate Coded(regs: seq<Register>) {
    forall k :: 0 <= k < |regs| ==> |regs[k].code| > 0
  }

  /** `_get_alphanum_sequence`: the code with a one-character block prefix. */
  function AlphanumSequence(code: string): (key: string)
    requires |code| > 0
    ensures |key| == |code| + 1 && key[1..] == code
  {
    var bloco := code[0];
    if bloco == '0' then "0" + code
    else if bloco == '1' then "2" + code
    else if bloco == '9' then "3" + code
    else "1" + code
  }

  /**
   * Where a block goes in the layout: block 0 opens it, the letter blocks
   * follow, then block 1, and block 9 closes it.
   */
  function BlockRank(code: string): (rank: nat)
    requires |code| > 0
    ensures rank <= 3
    ensures rank == 3 <==> code[0] == '9'
  {
    match code[0]
    case '0' => 0
    case '1' => 2
    case '9' => 3
    case _ => 1
  }

  /**
   * Comparing sort keys compares block ranks first and codes second:
   * the key of `a` is below the key of `b` iff `a`'s block comes earlier, or
   * both are in equally ranked blocks and `a`'s code is below `b`'s.
   */
  lemma SortKeyOrder(a: string, b: string)
    requires |a| > 0 && |b| > 0
    ensures LexLess(AlphanumSequence(a), AlphanumSequence(b)) <==>
      BlockRank(a) < BlockRank(b) || (BlockRank(a) == BlockRank(b) && LexLess(a, b))
  {
    var ka, kb := AlphanumSequence(a), AlphanumSequence(b);
    assert ka[0] as int == '0' as int + BlockRank(a);
    assert kb[0] as int == '0' as int + BlockRank(b);
  }

  /** The registers of the `C` block are left out of `ecd` and `ecf`. */
  predicate KeptFor(mod: string, r: Register)
    requires |r.code| > 0
  {
    r.code[0] != 'C' || (mod != "ecd" && mod != "ecf")
  }

  /** The `filter` of `main`: the registers the module keeps, in their order. */
  function ModuleRegisters(mod: string, regs: seq<Register>): (r: seq<Register>)
    requires Coded(regs)
    ensures Coded(r) && |r| <= |regs|
  {
    if regs == [] then []
    else
      var rest := ModuleRegisters(mod, regs[1..]);
      if KeptFor(mod, regs[0]) then [regs[0]] + rest else rest
  }

  /** The filter keeps exactly the registers the module keeps. */
  lemma {:induction false} ModuleRegistersMembers(mod: string, regs: seq<Register>)
    requires Coded(regs)
    ensures forall x :: x in ModuleRegisters(mod, regs) <==> x in regs && KeptFor(mod, x)
  {
    if regs != [] {
      ModuleRegistersMembers(mod, regs[1..]);
      assert regs == [regs[0]] + regs[1..];
    }
  }

  /**
   * The filter works register by register: filtering a concatenation
   * concatenates the filtered parts, and a single register is kept or
   * dropped on its own. Together these fix the result: the kept registers,
   * each as often as it occurs, in their input order.
   */
  lemma {:induction false} ModuleRegistersAppend(mod: string, a: seq<Register>, b: seq<Register>)
    requires Coded(a) && Coded(b)
    ensures Coded(a + b)
    ensures ModuleRegisters(mod, a + b) == ModuleRegisters(mod, a) + ModuleRegisters(mod, b)
  {
    var ab := a + b;
    assert Coded(ab) by {
      forall k | 0 <= k < |ab| ensures |ab[k].code| > 0 {
        if k < |a| { assert ab[k] == a[k]; } else { assert ab[k] == b[k - |a|]; }
      }
    }
    if a != [] {
      var t := a[1..];
      assert ab[1..] == t + b && ab[0] == a[0];
      ModuleRegistersAppend(mod, t, b);
      var head := if KeptFor(mod, a[0]) then [a[0]] else [];
      assert ModuleRegisters(mod, ab) == head + ModuleRegisters(mod, t + b);
      assert ModuleRegisters(mod, a) == head + ModuleRegisters(mod, t);
    } else {
      assert a + b == b;
    }
  }

  lemma ModuleRegistersSingle(mod: string, x: Register)
    requires |x.code| > 0
    ensures Coded([x])
    ensures ModuleRegisters(mod, [x]) == if KeptFor(mod, x) then [x] else []
  {
    assert [x][1..] == [];
  }

  function Key(r: Register): string
    requires |r.code| > 0
  {
    AlphanumSequence(r.code)
  }

  /** Each register's key is not below the previous one's. */
  predicate LayoutSorted(regs: seq<Register>)
    requires Coded(regs)
  {
    forall k :: 0 < k < |regs| ==> !LexLess(Key(regs[k]), Key(regs[k - 1]))
  }

  /** The position of the first register of `s` whose key is not below `x`'s, or `|s|`. */
  function InsertionPoint(x: Register, s: seq<Register>): (m: nat)
    requires |x.code| > 0 && Coded(s)
    ensures m <= |s|
    ensures forall k :: 0 <= k < m ==> LexLess(Key(s[k]), Key(x))
    ensures m < |s| ==> !LexLess(Key(s[m]), Key(x))
  {
    if s == [] || !LexLess(Key(s[0]), Key(x)) then 0
    else 1 + InsertionPoint(x, s[1..])
  }

  /**
   * Insert `x` in front of the first register whose key is not below `x`'s,
   * so that `x` stays ahead of registers with an equal key that came after it.
   */
  function Insert(x: Register, s: seq<Register>): (r: seq<Register>)
    requires |x.code| > 0 && Coded(s)
    ensures Coded(r) && |r| == |s| + 1
    ensures multiset(r) == multiset(s) + multiset{x}
  {
    Splice(s, InsertionPoint(x, s), x)
  }

  /** `s` with `x` put at position `m`. */
  function Splice(s: seq<Register>, m: nat, x: Register): (r: seq<Register>)
    requires |x.code| > 0 && Coded(s) && m <= |s|
    ensures Coded(r) && |r| == |s| + 1
    ensures r[m] == x && r[..m] == s[..m] && r[m + 1..] == s[m..]
    ensures multiset(r) == multiset(s) + multiset{x}
  {
    var lo, hi := s[..m], s[m..];
    assert s == lo + hi;
    assert multiset(lo + [x] + hi) == multiset(lo) + multiset{x} + multiset(hi);
    lo + [x] + hi
  }

  /** Inserting into a sorted list keeps it sorted. */
  lemma InsertSorted(x: Register, s: seq<Register>)
    requires |x.code| > 0 && Coded(s) && LayoutSorted(s)
    ensures LayoutSorted(Insert(x, s))
  {
    var m := InsertionPoint(x, s);
    var r := Insert(x, s);
    assert r == s[..m] + [x] + s[m..];
    forall k | 0 < k < |r| ensures !LexLess(Key(r[k]), Key(r[k - 1])) {
      if k < m {
        assert r[k] == s[k] && r[k - 1] == s[k - 1];
      } else if k == m {
        assert r[k] == x && r[k - 1] == s[k - 1];
        LexLessAsymmetric(Key(x), Key(s[k - 1]));
      } else if k == m + 1 {
        assert r[k] == s[m] && r[k - 1] == x;
      } else {
        assert r[k] == s[k - 1] && r[k - 1] == s[k - 2];
      }
    }
  }

  /** `sorted(..., key=_get_alphanum_sequence(code))`, as an insertion sort. */
  function SortByLayout(regs: seq<Register>): (r: seq<Register>)
    requires Coded(regs)
    ensures Coded(r) && LayoutSorted(r)
    ensures multiset(r) == multiset(regs)
  {
    if regs == [] then []
    else
      assert regs == [regs[0]] + regs[1..];
      var rest := SortByLayout(regs[1..]);
      InsertSorted(regs[0], rest);
      Insert(regs[0], rest)
  }

  /** The registers `main` visits for module `mod`, in visiting order. */
  function PrepareRegisters(mod: string, regs: seq<Register>): (r: seq<Register>)
    requires Coded(regs)
    ensures Coded(r) && LayoutSorted(r)
    ensures multiset(r) == multiset(ModuleRegisters(mod, regs))
    ensures forall x :: x in r <==> x in regs && KeptFor(mod, x)
  {
    var kept := ModuleRegisters(mod, regs);
    ModuleRegistersMembers(mod, regs);
    var r := SortByLayout(kept);
    assert forall x :: x in r <==> x in multiset(r);
    assert forall x :: x in kept <==> x in multiset(kept);
    r
  }

  /** The registers of `s` with code `c`, in their order. */
  function WithCode(c: string, s: seq<Register>): seq<Register> {
    if s == [] then []
    else (if s[0].code == c then [s[0]] else []) + WithCode(c, s[1..])
  }

  lemma {:induction false} WithCodeAppend(c: string, a: seq<Register>, b: seq<Register>)
    ensures WithCode(c, a + b) == WithCode(c, a) + WithCode(c, b)
  {
    if a == [] {
      assert a + b == b;
    } else {
      var ab := a + b;
      assert ab[0] == a[0] && ab[1..] == a[1..] + b;
      WithCodeAppend(c, a[1..], b);
      var head := if a[0].code == c then [a[0]] else [];
      assert WithCode(c, ab) == head + WithCode(c, a[1..] + b);
      assert WithCode(c, a) == head + WithCode(c, a[1..]);
    }
  }

  /** A list without code `c` has no register with code `c`. */
  lemma {:induction false} WithCodeNone(c: string, s: seq<Register>)
    requires forall k :: 0 <= k < |s| ==> s[k].code != c
    ensures WithCode(c, s) == []
  {
    if s != [] {
      WithCodeNone(c, s[1..]);
    }
  }

  /** Putting `x` at position `m` of `s`, where no earlier register has `x`'s code, puts it first among its code. */
  lemma WithCodeSplice(c: string, s: seq<Register>, m: nat, x: Register)
    requires m <= |s|
    requires x.code == c ==> forall k :: 0 <= k < m ==> s[k].code != c
    ensures WithCode(c, s[..m] + [x] + s[m..]) == (if x.code == c then [x] else []) + WithCode(c, s)
  {
    var a, b := s[..m], s[m..];
    var xb := [x] + b;
    assert s == a + b && s[..m] + [x] + s[m..] == a + xb;
    WithCodeAppend(c, a, xb);
    WithCodeAppend(c, a, b);
    var wx := if x.code == c then [x] else [];
    assert xb[0] == x && xb[1..] == b;
    assert WithCode(c, xb) == wx + WithCode(c, b);
    if x.code == c {
      WithCodeNone(c, a);
    }
    var wa, wb := WithCode(c, a), WithCode(c, b);
    assert wa + (wx + wb) == wx + (wa + wb);
  }

  /** Inserting `x` puts it ahead of every register with the same code. */
  lemma InsertWithCode(c: string, x: Register, s: seq<Register>)
    requires |x.code| > 0 && Coded(s)
    ensures WithCode(c, Insert(x, s)) == (if x.code == c then [x] else []) + WithCode(c, s)
  {
    var m := InsertionPoint(x, s);
    assert Insert(x, s) == s[..m] + [x] + s[m..];
    if x.code == c {
      forall k | 0 <= k < m ensures s[k].code != c {
        LexLessIrreflexive(Key(x));
      }
    }
    WithCodeSplice(c, s, m, x);
  }

  /**
   * The sort is stable: registers with the same code — the only ones with
   * equal keys — keep their input order.
   */
  lemma {:induction false} SortByLayoutStable(c: string, regs: seq<Register>)
    requires Coded(regs)
    ensures WithCode(c, SortByLayout(regs)) == WithCode(c, regs)
  {
    if regs != [] {
      SortByLayoutStable(c, regs[1..]);
      InsertWithCode(c, regs[0], SortByLayout(regs[1..]));
    }
  }

  /** In a sorted list the block ranks never go down. */
  lemma {:induction false} SortedRanks(regs: seq<Register>, i: nat, j: nat)
    requires Coded(regs) && LayoutSorted(regs) && i <= j < |regs|
    ensures BlockRank(regs[i].code) <= BlockRank(regs[j].code)
    decreases j - i
  {
    if i < j {
      SortedRanks(regs, i, j - 1);
      SortKeyOrder(regs[j].code, regs[j - 1].code);
    }
  }

  /** In a sorted list everything after a block-9 register is in block 9. */
  lemma Block9IsLast(regs: seq<Register>, i: nat, j: nat)
    requires Coded(regs) && LayoutSorted(regs) && i <= j < |regs|
    requires regs[i].code[0] == '9'
    ensures regs[j].code[0] == '9'
  {
    SortedRanks(regs, i, j);
  }

  /**
   * A register's position in the layout by its sort key's first two
   * characters: rank, then the block character.
   */
  function BlockWeight(r: Register): nat
    requires |r.code| > 0
  {
    BlockRank(r.code) * 0x11_0000 + r.code[0] as int
  }

  /** In a sorted list the block weights never go down. */
  lemma {:induction false} SortedWeights(regs: seq<Register>, i: nat, j: nat)
    requires Coded(regs) && LayoutSorted(regs) && i <= j < |regs|
    ensures BlockWeight(regs[i]) <= BlockWeight(regs[j])
    decreases j - i
  {
    if i < j {
      SortedWeights(regs, i, j - 1);
      var a, b := regs[j - 1].code, regs[j].code;
      SortKeyOrder(b, a);
    }
  }

  /** Two registers share a block iff their codes start with the same character. */
  lemma BlockWeightBlock(a: Register, b: Register)
    requires |a.code| > 0 && |b.code| > 0
    ensures BlockWeight(a) == BlockWeight(b) <==> a.code[0] == b.code[0]
  {
  }

  /**
   * In a sorted list each block is contiguous: between two registers of the
   * same block there is no register of another block.
   */
  lemma SortedBlocksContiguous(regs: seq<Register>, i: nat, j: nat, k: nat)
    requires Coded(regs) && LayoutSorted(regs) && i <= j <= k < |regs|
    requires regs[i].code[0] == regs[k].code[0]
    ensures regs[j].code[0] == regs[i].code[0]
  {
    SortedWeights(regs, i, j);
    SortedWeights(regs, j, k);
    BlockWeightBlock(regs[i], regs[k]);
    BlockWeightBlock(regs[i], regs[j]);
  }
}
