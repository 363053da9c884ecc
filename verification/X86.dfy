/** The two configurations that abstract-machine/am/src/x86/qemu/vme.c is compiled with, against the paging modes they are
    for: 32-bit paging and 4-level paging (sections 4.3 and 4.5 of volume 3A of the Intel SDM). */
module X86Modes {
  import opened Wrappers
  import opened Bits
  import opened Paging
  import Vme

  const TOP: nat := 0x10_0000_0000_0000

  /** The i-th entry of a table, if it is present. */
  function EntryIn(mem: Memory, table: nat, i: nat): Option<nat> {
    if table in mem && i < |mem[table]| && mem[table][i] % 2 == 1 then Some(mem[table][i]) else None
  }

  /** The table or the page at a multiple of size that an entry names. */
  function Address(e: nat, size: nat): nat
    requires size > 0
  {
    e % TOP / size * size
  }

  /** A page of size bytes, seen through entries that all have to allow writing and user access. */
  function Leaf(e: nat, size: nat, va: nat, writable: bool, user: bool): Translation
    requires size > 0
  {
    Frame(Address(e, size) + va % size / 0x1000 * 0x1000, writable && e / 2 % 2 == 1, user && e / 4 % 2 == 1)
  }

  /** 32-bit paging: ten bits, ten bits and the offset; an entry of the page directory may map 4 MB. */
  function Walk32(mem: Memory, cr3: nat, va: nat): Translation {
    var pde := EntryIn(mem, cr3, va / 0x40_0000 % 0x400);
    if pde.None? then Fault
    else if pde.value / 0x80 % 2 == 1 then Leaf(pde.value, 0x40_0000, va, true, true)
    else
      var d := pde.value;
      var pte := EntryIn(mem, Address(d, 0x1000), va / 0x1000 % 0x400);
      if pte.None? then Fault else Leaf(pte.value, 0x1000, va, d / 2 % 2 == 1, d / 4 % 2 == 1)
  }

  /** 4-level paging: four times nine bits and the offset; the second and third level may map 1 GB and 2 MB. */
  function Walk64(mem: Memory, cr3: nat, va: nat): Translation {
    var pml4e := EntryIn(mem, cr3, va / 0x80_0000_0000 % 0x200);
    if pml4e.None? || pml4e.value / 0x80 % 2 == 1 then Fault
    else
      var a := pml4e.value;
      var pdpte := EntryIn(mem, Address(a, 0x1000), va / 0x4000_0000 % 0x200);
      var w, u := a / 2 % 2 == 1, a / 4 % 2 == 1;
      if pdpte.None? then Fault
      else if pdpte.value / 0x80 % 2 == 1 then Leaf(pdpte.value, 0x4000_0000, va, w, u)
      else
        var b := pdpte.value;
        var pde := EntryIn(mem, Address(b, 0x1000), va / 0x20_0000 % 0x200);
        var w', u' := w && b / 2 % 2 == 1, u && b / 4 % 2 == 1;
        if pde.None? then Fault
        else if pde.value / 0x80 % 2 == 1 then Leaf(pde.value, 0x20_0000, va, w', u')
        else
          var c := pde.value;
          var pte := EntryIn(mem, Address(c, 0x1000), va / 0x1000 % 0x200);
          if pte.None? then Fault else Leaf(pte.value, 0x1000, va, w' && c / 2 % 2 == 1, u' && c / 4 % 2 == 1)
  }

  /** The walk by the 32-bit level table is 32-bit paging. */
  lemma {:induction false} X86Walk(mem: Memory, cr3: nat, va: nat)
    ensures Translate(X86, mem, 1, cr3, va) == Walk32(mem, cr3, va)
  {
    PagingPowers();
    hide Pow2;
  }

  /** The walk by the 64-bit level table is 4-level paging. */
  lemma {:induction false} X86_64Walk(mem: Memory, cr3: nat, va: nat)
    ensures Translate(X86_64, mem, 1, cr3, va) == Walk64(mem, cr3, va)
  {
    PagingPowers();
    hide Pow2;
  }

  /** The areas of both. */
  lemma {:induction false} UserAreas(va: nat)
    ensures Vme.IsUserPage(X86, va) <==> 0x4000_0000 <= va < 0x8000_0000 && va % 0x1000 == 0
    ensures Vme.IsUserPage(X86_64, va) <==> 0x1000_0000_0000 <= va < 0x1080_0000_0000 && va % 0x1000 == 0
  {
  }

  lemma {:induction false} KernelAreas(va: nat)
    ensures Vme.IsKernelAddress(X86, va) <==> va < 0x4000_0000 || 0xfd00_0000 <= va < 0x1_0000_0000
    ensures Vme.IsKernelAddress(X86_64, va) <==> va < 0x80_0000_0000
  {
    PagingPowers();
    hide Pow2;
    assert Vme.InArea(X86, X86.areas[1], va) <==> va < 0x4000_0000;
    assert Vme.InArea(X86, X86.areas[2], va) <==> 0xfd00_0000 <= va < 0x1_0000_0000;
    assert Vme.InArea(X86_64, X86_64.areas[1], va) <==> va < 0x80_0000_0000;
  }
}
