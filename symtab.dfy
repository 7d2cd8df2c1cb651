/** The target module's symbol table, as the analyzer reads it, and the
    first pass of the scan: counting the text (executable code) symbols. */
module Symtab {
  import opened Indices

  /** One entry of the target's symbol table (an Elf64_Sym): `name` is the
      offset of the symbol's name in the string table (st_name), `info` is
      the type letter the kernel keeps in st_info, `value` the address
      (st_value) and `size` the size in bytes (st_size). */
  datatype Sym = Sym(name: nat, info: char, value: nat, size: nat)

  /** A loaded target module, as far as the scan reads it: its symbol
      table, in table order. */
  datatype Module = Module(symtab: seq<Sym>)

  /** A local ('t') or global ('T') text symbol: the only entries the analyzer probes. */
  predicate IsText(sym: Sym) {
    sym.info == 't' || sym.info == 'T'
  }

  /** The positions of the text symbols of `symtab`, in table order. */
  function TextIndices(symtab: seq<Sym>): seq<nat> {
    Where(symtab, IsText)
  }

  /** The counting pass: the number of text symbols in `symtab`. */
  method CountText(symtab: seq<Sym>) returns (n: nat)
    ensures n == |TextIndices(symtab)|
    ensures n == |set i | 0 <= i < |symtab| && IsText(symtab[i])|
  {
    n := 0;
    var i := 0;
    while i < |symtab|
      invariant 0 <= i <= |symtab|
      invariant n == |Where(symtab[..i], IsText)|
    {
      WhereStep(symtab, IsText, i);
      if IsText(symtab[i]) {
        n := n + 1;
      }
      i := i + 1;
    }
    assert symtab[..i] == symtab;
    WhereCount(symtab, IsText);
    assert Positions(symtab, IsText) == set i | 0 <= i < |symtab| && IsText(symtab[i]);
  }

  /** Every text symbol has its position among the text indices, and the
      text indices are exactly the text symbols' positions. */
  lemma TextIndicesExact(symtab: seq<Sym>, i: int)
    ensures i in TextIndices(symtab) <==> 0 <= i < |symtab| && IsText(symtab[i])
  {
    WhereMembers(symtab, IsText, i);
  }
}
