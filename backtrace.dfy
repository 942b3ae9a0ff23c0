// kernel/src/backtrace.rs: the one-shot symbol-table registration and the
// symbol lookup used when printing a backtrace. The symbol table that
// SYMTAB_PTR points to is passed in as a sequence; serial output is the
// returned (offset, name index) pair.

module Backtrace {
  import opened Common

  /** The two fields of an `Elf64Sym` the lookup reads, plus its name offset. */
  datatype Symbol = Symbol(name: nat, value: nat, size: nat)

  /** Does the symbol, relocated by `base`, cover `rip`? */
  predicate Covers(s: Symbol, base: nat, rip: nat)
  {
    base + s.value <= rip < base + s.value + s.size
  }

  /** The globals LOCK, INITALIZED, BASE, SYMTAB_PTR, SYMTAB_NUM and STRTAB_PTR. */
  class BacktraceTables {
    var lock: bool
    var initialized: bool
    var base: nat
    var symtabPtr: nat
    var symtabNum: nat
    var strtabPtr: nat

    constructor ()
      ensures !lock && !initialized && base == 0 && symtabPtr == 0 && symtabNum == 0 && strtabPtr == 0
    {
      lock, initialized := false, false;
      base, symtabPtr, symtabNum, strtabPtr := 0, 0, 0, 0;
    }

    /**
     * `init_backtrace`: arguments with a zero base, a null table or no symbols
     * are ignored; otherwise only the first call that takes the lock stores
     * them and sets the initialised flag.
     */
    method InitBacktrace(base': nat, symtab: nat, num: nat, strtab: nat)
      modifies this
      ensures (base' == 0 || symtab == 0 || num == 0 || strtab == 0 || old(lock)) ==>
        lock == old(lock) && initialized == old(initialized) && base == old(base) &&
        symtabPtr == old(symtabPtr) && symtabNum == old(symtabNum) && strtabPtr == old(strtabPtr)
      ensures !(base' == 0 || symtab == 0 || num == 0 || strtab == 0 || old(lock)) ==>
        lock && initialized && base == base' && symtabPtr == symtab && symtabNum == num && strtabPtr == strtab
    {
      if base' == 0 || symtab == 0 || num == 0 || strtab == 0 {
        return;
      }
      if !lock {
        lock := true;
        base, symtabPtr, symtabNum, strtabPtr := base', symtab, num, strtab;
        initialized := true;
      }
    }

    /**
     * The lookup of `print_fn_name`: before initialisation nothing; otherwise
     * the first of the SYMTAB_NUM symbols that covers `rip`, reported as
     * (rip - BASE, name offset).
     */
    method PrintFnName(rip: nat, symtab: seq<Symbol>) returns (r: Option<(nat, nat)>)
      requires initialized ==> symtabNum <= |symtab|
      ensures !initialized ==> r == None
      ensures r.None? && initialized ==> forall i :: 0 <= i < symtabNum ==> !Covers(symtab[i], base, rip)
      ensures r.Some? ==> initialized
      ensures r.Some? ==>
        exists i :: 0 <= i < symtabNum && Covers(symtab[i], base, rip) &&
          (forall j :: 0 <= j < i ==> !Covers(symtab[j], base, rip)) &&
          r.value == (rip - base, symtab[i].name)
    {
      if !initialized {
        return None;
      }
      var i := 0;
      while i < symtabNum
        invariant i <= symtabNum
        invariant forall j :: 0 <= j < i ==> !Covers(symtab[j], base, rip)
      {
        var sym := symtab[i];
        if base + sym.value <= rip && rip < base + sym.value + sym.size {
          return Some((rip - base, sym.name));
        }
        i := i + 1;
      }
      return None;
    }
  }

  /** A second registration never replaces the first one. */
  method InitTwiceKeepsFirst(t: BacktraceTables, b1: nat, p1: nat, n1: nat, s1: nat, b2: nat, p2: nat, n2: nat, s2: nat)
    requires !t.lock && b1 != 0 && p1 != 0 && n1 != 0 && s1 != 0
    modifies t
    ensures t.initialized && t.base == b1 && t.symtabPtr == p1 && t.symtabNum == n1 && t.strtabPtr == s1
  {
    t.InitBacktrace(b1, p1, n1, s1);
    t.InitBacktrace(b2, p2, n2, s2);
  }
}
