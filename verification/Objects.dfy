/** Object files and archives as the linker reads them. */
module Objects {
  import opened Arith
  import opened Sections
  import opened Reloc

  datatype Binding = Local | Global | Weak

  const UNDEF: nat := 0
  const ABS: nat := 0xFFF1

  /** A symbol of an object file, the reserved entry 0 left off; shndx is the section it lives in. */
  datatype Sym = Sym(name: string, binding: Binding, ofSection: bool, shndx: nat, value: nat)

  type Syms = seq<Sym>

  /** A relocation entry: place in its section, kind, symbol (0 for none) and addend. */
  datatype Rela = Rela(off: nat, kind: Kind, sym: nat, addend: int)

  /** Symbols, sections, and the relocations of each section. */
  datatype Object = Object(syms: Syms, secs: seq<Input>, relas: seq<seq<Rela>>)

  /** An index entry names a symbol and a member; -1 stands for an offset that is no member's. */
  datatype Entry = Entry(name: string, member: int)

  datatype Archive = Archive(members: seq<Object>, index: seq<Entry>)
}
