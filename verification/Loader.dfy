/** Loading ELF files one after the other: ubpf/ubpf_loader.c binds map names to file descriptors that
    bpfmap/bpfmap.c hands out, and relocates the program text to them. */
module Loader {
  import opened Words
  import opened Ebpf
  import opened Wrappers
  import Opcodes

  const MAX_MAPS := 64
  const BPF_PSEUDO_MAP_FD: nibble := 1

  datatype MapKind = Hash | Array
  datatype MapDef = MapDef(kind: MapKind, keySize: nat, valueSize: nat, maxEntries: nat)

  type Name = seq<byte>

  /** A bound name: the fd and the definition it was created with. */
  datatype TableEntry = TableEntry(fd: int, def: MapDef)

  /** Copying at most 31 characters into a zeroed buffer of 32: what identifies a map. */
  function MapName(symbol: seq<byte>): (n: Name)
    ensures |n| <= 31 && n <= symbol
  {
    CString(if |symbol| > 31 then symbol[..31] else symbol)
  }

  /** Up to the first zero. */
  function CString(s: seq<byte>): (n: seq<byte>)
    ensures n <= s && forall i :: 0 <= i < |n| ==> n[i] != 0
    ensures |n| < |s| ==> s[|n|] == 0
  {
    if s == [] || s[0] == 0 then [] else [s[0]] + CString(s[1..])
  }

  // ----- file descriptors -----

  /** The sanity checks of htab_map_alloc and array_map_alloc. */
  predicate Allocatable(d: MapDef) {
    d.maxEntries != 0 && d.valueSize != 0 && (if d.kind == Array then d.keySize == 4 else d.keySize != 0)
  }

  /** The table bpf_maps: slot i holds the map with fd i. */
  type Maps = s: seq<Option<MapDef>> | |s| == MAX_MAPS witness seq(MAX_MAPS, _ => None)

  /** First free slot at or after i, or -1. */
  function FreeFrom(maps: Maps, i: nat): (fd: int)
    requires i <= MAX_MAPS
    ensures fd == -1 || (i <= fd < MAX_MAPS && maps[fd] == None)
    ensures forall j :: i <= j < (if fd == -1 then MAX_MAPS else fd) ==> maps[j] != None
    decreases MAX_MAPS - i
  {
    if i == MAX_MAPS then -1 else if maps[i] == None then i else FreeFrom(maps, i + 1)
  }

  function CreatedFd(maps: Maps, d: MapDef): int {
    if Allocatable(d) then FreeFrom(maps, 0) else -1
  }

  function Created(maps: Maps, d: MapDef): Maps {
    var fd := CreatedFd(maps, d);
    if fd == -1 then maps else maps[fd := Some(d)]
  }

  // ----- names -----

  datatype Vm = Vm(metaFd: int, tables: map<Name, TableEntry>, maps: Maps)

  /** A symbol of the maps section. */
  datatype Symbol = Symbol(name: seq<byte>, def: MapDef)

  datatype Bound = Bound(vm: Vm, ok: bool)

  /** A name that is not there yet gets a new map. */
  function BindOne(vm: Vm, s: Symbol): Bound {
    var n := MapName(s.name);
    if n in vm.tables then Bound(vm, true)
    else
      var fd := CreatedFd(vm.maps, s.def);
      if fd == -1 then Bound(vm, false)
      else Bound(Vm(vm.metaFd, vm.tables[n := TableEntry(fd, s.def)], Created(vm.maps, s.def)), true)
  }

  /** The symbols in order, up to the first that cannot be sane. */
  function BindAll(vm: Vm, symbols: seq<Symbol>): Bound
    decreases |symbols|
  {
    if symbols == [] then Bound(vm, true)
    else
      var b := BindOne(vm, symbols[0]);
      if b.ok then BindAll(b.vm, symbols[1..]) else b
  }

  /** Different names have different fds, each of them open with its own definition, none of them the
      fd of the table of names. */
  ghost predicate NamesOk(vm: Vm) {
    0 <= vm.metaFd < MAX_MAPS && vm.maps[vm.metaFd] != None &&
    (forall n :: n in vm.tables ==>
      0 <= vm.tables[n].fd < MAX_MAPS && vm.tables[n].fd != vm.metaFd && vm.maps[vm.tables[n].fd] == Some(vm.tables[n].def)) &&
    (forall m, n :: m in vm.tables && n in vm.tables && m != n ==> vm.tables[m].fd != vm.tables[n].fd)
  }

  /** Nothing bound is bound anew, nothing open is closed. */
  ghost predicate Keeps(vm: Vm, vm': Vm) {
    vm'.metaFd == vm.metaFd &&
    (forall n :: n in vm.tables ==> n in vm'.tables && vm'.tables[n] == vm.tables[n]) &&
    (forall i :: 0 <= i < MAX_MAPS && vm.maps[i] != None ==> vm'.maps[i] == vm.maps[i])
  }

  lemma {:induction false} BindOneKeeps(vm: Vm, s: Symbol)
    requires NamesOk(vm)
    ensures NamesOk(BindOne(vm, s).vm) && Keeps(vm, BindOne(vm, s).vm)
    ensures BindOne(vm, s).ok <==> MapName(s.name) in BindOne(vm, s).vm.tables
  {
    hide MapName, CreatedFd, Created, Sized;
    var r := BindOne(vm, s).vm;
    var fd := CreatedFd(vm.maps, s.def);
    FdExactly(vm.maps, s.def);
    assert forall n :: n in vm.tables ==> vm.tables[n].fd != fd;
  }

  lemma {:induction false} BindAllKeeps(vm: Vm, symbols: seq<Symbol>)
    requires NamesOk(vm)
    ensures var b := BindAll(vm, symbols);
      NamesOk(b.vm) && Keeps(vm, b.vm) &&
      (b.ok <==> forall i :: 0 <= i < |symbols| ==> MapName(symbols[i].name) in b.vm.tables)
    decreases |symbols|
  {
    hide MapName, NamesOk, Created, CreatedFd;
    if symbols != [] {
      var b := BindOne(vm, symbols[0]);
      BindOneKeeps(vm, symbols[0]);
      if b.ok { BindAllKeeps(b.vm, symbols[1..]); }
    }
  }

  // ----- when a load succeeds -----

  /** What a map definition must say: no zero, and 32-bit indices for arrays. */
  predicate Sized(d: MapDef) {
    d.keySize * d.valueSize * d.maxEntries != 0 && (d.kind.Array? ==> d.keySize == 4)
  }

  function FreeSlots(maps: Maps): set<int> { set i | 0 <= i < MAX_MAPS && maps[i] == None }

  lemma {:induction false} NoZeroFactor(a: nat, b: nat, c: nat)
    ensures a * b * c != 0 <==> a != 0 && b != 0 && c != 0
  {
  }

  /** A map gets an fd exactly if its definition is sound and one of the 64 slots is free; it is the
      first free one, and no other slot changes. */
  lemma {:induction false} FdExactly(maps: Maps, d: MapDef)
    ensures var fd := CreatedFd(maps, d);
      var after := Created(maps, d);
      if Sized(d) && FreeSlots(maps) != {} then
        fd in FreeSlots(maps) && (forall i :: i in FreeSlots(maps) ==> fd <= i) && after[fd] == Some(d)
        && FreeSlots(after) == FreeSlots(maps) - {fd} && (forall i :: 0 <= i < MAX_MAPS && i != fd ==> after[i] == maps[i])
      else fd == -1 && after == maps
  {
    NoZeroFactor(d.keySize, d.valueSize, d.maxEntries);
    var fd := FreeFrom(maps, 0);
    if fd == -1 { assert forall i :: 0 <= i < MAX_MAPS ==> maps[i] != None; } else { assert fd in FreeSlots(maps); }
  }

  /** The tables of the example programs. */
  lemma {:induction false} ExampleTables(maps: Maps)
    requires FreeSlots(maps) != {}
    ensures CreatedFd(maps, MapDef(Hash, 6, 4, 256)) != -1 && CreatedFd(maps, MapDef(Array, 4, 32, 24)) != -1
    ensures CreatedFd(maps, MapDef(Array, 6, 4, 256)) == -1
  {
    hide CreatedFd;
    FdExactly(maps, MapDef(Hash, 6, 4, 256));
    FdExactly(maps, MapDef(Array, 4, 32, 24));
    FdExactly(maps, MapDef(Array, 6, 4, 256));
  }

  /** The names a list of symbols adds. */
  function NewNames(tables: map<Name, TableEntry>, symbols: seq<Symbol>): set<Name> {
    set i | 0 <= i < |symbols| && MapName(symbols[i].name) !in tables :: MapName(symbols[i].name)
  }

  /** Symbol i is the first with a name that is not there yet. */
  predicate Introduces(tables: map<Name, TableEntry>, symbols: seq<Symbol>, i: nat)
    requires i < |symbols|
  {
    MapName(symbols[i].name) !in tables && forall j :: 0 <= j < i ==> MapName(symbols[j].name) != MapName(symbols[i].name)
  }

  predicate AllSized(tables: map<Name, TableEntry>, symbols: seq<Symbol>) {
    forall i :: 0 <= i < |symbols| && Introduces(tables, symbols, i) ==> Sized(symbols[i].def)
  }

  /** Every symbol that introduces a name has a sound definition, and there are as many free slots as
      new names. */
  predicate Bindable(vm: Vm, symbols: seq<Symbol>) {
    AllSized(vm.tables, symbols) && |NewNames(vm.tables, symbols)| <= |FreeSlots(vm.maps)|
  }

  /** Exactly then a list of symbols is bound. */
  lemma {:induction false} BindAllExactly(vm: Vm, symbols: seq<Symbol>)
    ensures BindAll(vm, symbols).ok <==> Bindable(vm, symbols)
    decreases |symbols|
  {
    hide BindOne, Bindable;
    if symbols == [] {
      NothingNew(vm);
    } else {
      BindableStep(vm, symbols);
      if BindOne(vm, symbols[0]).ok { BindAllExactly(BindOne(vm, symbols[0]).vm, symbols[1..]); }
    }
  }

  lemma {:induction false} BindableStep(vm: Vm, symbols: seq<Symbol>)
    requires symbols != []
    ensures Bindable(vm, symbols) <==> BindOne(vm, symbols[0]).ok && Bindable(BindOne(vm, symbols[0]).vm, symbols[1..])
  {
    hide MapName, Sized, AllSized, NewNames, FreeSlots, CreatedFd, Created;
    var n := MapName(symbols[0].name);
    NewNamesStep(vm.tables, symbols);
    if n in vm.tables {
      SizedOld(vm.tables, symbols);
    } else {
      BindableNew(vm, symbols);
    }
  }

  lemma {:induction false} BindableNew(vm: Vm, symbols: seq<Symbol>)
    requires symbols != [] && MapName(symbols[0].name) !in vm.tables
    ensures Bindable(vm, symbols) <==> BindOne(vm, symbols[0]).ok && Bindable(BindOne(vm, symbols[0]).vm, symbols[1..])
  {
    hide MapName, Sized, AllSized, NewNames, FreeSlots, CreatedFd, Created;
    var n, b := MapName(symbols[0].name), BindOne(vm, symbols[0]);
    FdExactly(vm.maps, symbols[0].def);
    SizedFirst(vm.tables, symbols);
    SizeMinus(NewNames(vm.tables, symbols), n);
    if b.ok {
      SizedNew(vm.tables, symbols, b.vm.tables);
      NewNamesAfter(vm.tables, symbols, b.vm.tables);
      SizeMinus(FreeSlots(vm.maps), CreatedFd(vm.maps, symbols[0].def));
    }
  }

  lemma {:induction false} NothingNew(vm: Vm)
    ensures Bindable(vm, [])
  {
    assert NewNames(vm.tables, []) == {};
  }

  lemma {:induction false} SizeMinus<T>(s: set<T>, x: T)
    requires x in s
    ensures |s| == |s - {x}| + 1 && |s| > 0
  {
    assert s == (s - {x}) + {x};
  }

  lemma {:induction false} NewNamesStep(tables: map<Name, TableEntry>, symbols: seq<Symbol>)
    requires symbols != []
    ensures var n := MapName(symbols[0].name);
      NewNames(tables, symbols) == NewNames(tables, symbols[1..]) + (if n in tables then {} else {n})
  {
    hide MapName;
    assert forall i :: 0 <= i < |symbols| - 1 ==> symbols[1..][i] == symbols[i + 1];
    forall x | x in NewNames(tables, symbols)
      ensures x in NewNames(tables, symbols[1..]) + (if MapName(symbols[0].name) in tables then {} else {MapName(symbols[0].name)})
    {
      var i :| 0 <= i < |symbols| && MapName(symbols[i].name) !in tables && MapName(symbols[i].name) == x;
      if i > 0 { assert symbols[1..][i - 1] == symbols[i]; }
    }
  }

  lemma {:induction false} NewNamesAfter(tables: map<Name, TableEntry>, symbols: seq<Symbol>, tables': map<Name, TableEntry>)
    requires symbols != [] && MapName(symbols[0].name) !in tables && tables'.Keys == tables.Keys + {MapName(symbols[0].name)}
    ensures NewNames(tables', symbols[1..]) == NewNames(tables, symbols) - {MapName(symbols[0].name)}
  {
    hide MapName;
    var n := MapName(symbols[0].name);
    NewNamesStep(tables, symbols);
    assert forall x :: x in NewNames(tables', symbols[1..]) <==> x in NewNames(tables, symbols[1..]) && x != n;
  }

  lemma {:induction false} SizedFirst(tables: map<Name, TableEntry>, symbols: seq<Symbol>)
    requires symbols != [] && MapName(symbols[0].name) !in tables
    ensures AllSized(tables, symbols) ==> Sized(symbols[0].def)
    ensures MapName(symbols[0].name) in NewNames(tables, symbols)
  {
    hide MapName, Sized;
    assert Introduces(tables, symbols, 0);
  }

  lemma {:induction false} SizedOld(tables: map<Name, TableEntry>, symbols: seq<Symbol>)
    requires symbols != [] && MapName(symbols[0].name) in tables
    ensures AllSized(tables, symbols) <==> AllSized(tables, symbols[1..])
  {
    hide MapName, Sized;
    forall i | 0 <= i < |symbols| - 1
      ensures Introduces(tables, symbols[1..], i) <==> Introduces(tables, symbols, i + 1)
      ensures symbols[1..][i] == symbols[i + 1]
    {
      IntroducesShift(tables, symbols, i, tables);
    }
    assert !Introduces(tables, symbols, 0);
    if AllSized(tables, symbols[1..]) {
      forall i | 0 <= i < |symbols| && Introduces(tables, symbols, i) ensures Sized(symbols[i].def) {
        assert symbols[1..][i - 1] == symbols[i] && Introduces(tables, symbols[1..], i - 1);
      }
    }
  }

  lemma {:induction false} IntroducesShift(tables: map<Name, TableEntry>, symbols: seq<Symbol>, i: nat, tables': map<Name, TableEntry>)
    requires i + 1 < |symbols| && tables'.Keys == tables.Keys + {MapName(symbols[0].name)}
    ensures Introduces(tables', symbols[1..], i) <==> Introduces(tables, symbols, i + 1)
  {
    hide MapName;
    assert forall j :: 0 <= j < |symbols| - 1 ==> symbols[1..][j] == symbols[j + 1];
    if Introduces(tables', symbols[1..], i) {
      forall j | 0 <= j < i + 1 ensures MapName(symbols[j].name) != MapName(symbols[i + 1].name) {
        if j > 0 { assert symbols[1..][j - 1] == symbols[j]; }
      }
    }
  }

  lemma {:induction false} SizedNew(tables: map<Name, TableEntry>, symbols: seq<Symbol>, tables': map<Name, TableEntry>)
    requires symbols != [] && MapName(symbols[0].name) !in tables && tables'.Keys == tables.Keys + {MapName(symbols[0].name)}
    ensures AllSized(tables, symbols) <==> Sized(symbols[0].def) && AllSized(tables', symbols[1..])
    ensures MapName(symbols[0].name) in NewNames(tables, symbols)
  {
    hide MapName, Sized;
    forall i | 0 <= i < |symbols| - 1
      ensures Introduces(tables', symbols[1..], i) <==> Introduces(tables, symbols, i + 1)
      ensures symbols[1..][i] == symbols[i + 1]
    {
      IntroducesShift(tables, symbols, i, tables');
    }
    assert Introduces(tables, symbols, 0);
    if Sized(symbols[0].def) && AllSized(tables', symbols[1..]) {
      forall i | 0 <= i < |symbols| && Introduces(tables, symbols, i) ensures Sized(symbols[i].def) {
        if i > 0 { assert symbols[1..][i - 1] == symbols[i] && Introduces(tables', symbols[1..], i - 1); }
      }
    }
  }

  /** Character i of a zero-terminated string. */
  function CharAt(s: seq<byte>, i: nat): byte { if i < |s| then s[i] else 0 }

  /** The strings agree up to their first zero, or in their first 31 characters. */
  predicate Agree(a: seq<byte>, b: seq<byte>) {
    forall i :: 0 <= i < 31 && (forall j :: 0 <= j < i ==> CharAt(a, j) != 0) ==> CharAt(a, i) == CharAt(b, i)
  }

  lemma {:induction false} MapNameChars(s: seq<byte>)
    ensures var n := MapName(s);
      (forall i :: 0 <= i < |n| ==> n[i] == CharAt(s, i) && n[i] != 0) && (|n| < 31 ==> CharAt(s, |n|) == 0)
  {
  }

  lemma {:induction false} MapNameAgree(a: seq<byte>, b: seq<byte>)
    ensures MapName(a) == MapName(b) <==> Agree(a, b)
  {
    hide MapName, CharAt;
    var m, n := MapName(a), MapName(b);
    MapNameChars(a);
    MapNameChars(b);
    if Agree(a, b) {
      AgreeLength(m, n, a, b);
      assert m == n;
    } else {
      var i :| 0 <= i < 31 && (forall j :: 0 <= j < i ==> CharAt(a, j) != 0) && CharAt(a, i) != CharAt(b, i);
      assert i <= |m|;
    }
  }

  lemma {:induction false} AgreeLength(m: Name, n: Name, a: seq<byte>, b: seq<byte>)
    requires Agree(a, b) && |m| <= 31 && |n| <= 31
    requires (forall i :: 0 <= i < |m| ==> m[i] == CharAt(a, i) && m[i] != 0) && (|m| < 31 ==> CharAt(a, |m|) == 0)
    requires (forall i :: 0 <= i < |n| ==> n[i] == CharAt(b, i) && n[i] != 0) && (|n| < 31 ==> CharAt(b, |n|) == 0)
    ensures |m| == |n|
  {
    hide CharAt;
    var i := if |m| < |n| then |m| else |n|;
    assert forall j :: 0 <= j < i ==> CharAt(a, j) == m[j];
    assert i < 31 ==> CharAt(a, i) == CharAt(b, i);
  }

  /** After a successful binding two symbols share a map exactly if their names agree. */
  lemma {:induction false} SharedExactly(vm: Vm, symbols: seq<Symbol>, i: nat, j: nat)
    requires NamesOk(vm) && BindAll(vm, symbols).ok && i < |symbols| && j < |symbols|
    ensures var t := BindAll(vm, symbols).vm.tables;
      MapName(symbols[i].name) in t && MapName(symbols[j].name) in t &&
      (t[MapName(symbols[i].name)].fd == t[MapName(symbols[j].name)].fd <==> Agree(symbols[i].name, symbols[j].name))
  {
    hide MapName, Agree, BindAll;
    BindAllKeeps(vm, symbols);
    MapNameAgree(symbols[i].name, symbols[j].name);
  }

  // ----- relocation -----

  /** A relocation of the text section; the offset is in instructions. */
  datatype Reloc =
    | MapReloc(slot: nat, name: seq<byte>)
    | StringReloc(slot: nat, address: u64)
    | CallReloc(slot: nat, name: seq<byte>)
    | BadReloc(slot: nat)

  /** What the text and the registered functions offer: the checks before a slot is changed. */
  predicate RelocOk(tables: map<Name, TableEntry>, funcs: map<seq<byte>, int32>, text: seq<Inst>, r: Reloc) {
    r.slot < |text| &&
    match r
    case MapReloc(i, n) => text[i].opcode == Opcodes.LDDW && MapName(n) in tables
    case StringReloc(i, _) => text[i].opcode == Opcodes.LDDW && i + 1 < |text|
    case CallReloc(_, n) => n in funcs
    case BadReloc(_) => false
  }

  /** The low and high halves of an address, as the two immediates of an lddw. */
  function Low(a: u64): int32 { S32(a) }
  function High(a: u64): int32 { S32(a / 0x1_0000_0000) }

  function Relocated(tables: map<Name, TableEntry>, funcs: map<seq<byte>, int32>, text: seq<Inst>, r: Reloc): (t: seq<Inst>)
    requires RelocOk(tables, funcs, text, r)
    ensures |t| == |text|
  {
    match r
    case MapReloc(i, n) => text[i := text[i].(src := BPF_PSEUDO_MAP_FD, imm := S32(tables[MapName(n)].fd))]
    case StringReloc(i, a) => text[i := text[i].(imm := Low(a))][i + 1 := text[i + 1].(imm := High(a))]
    case CallReloc(i, n) => text[i := text[i].(imm := funcs[n])]
  }

  /** All relocations in order; None at the first that fails. */
  function RelocateAll(tables: map<Name, TableEntry>, funcs: map<seq<byte>, int32>, text: seq<Inst>, rs: seq<Reloc>): (t: Option<seq<Inst>>)
    ensures t.Some? ==> |t.value| == |text|
    decreases |rs|
  {
    if rs == [] then Some(text)
    else if RelocOk(tables, funcs, text, rs[0]) then RelocateAll(tables, funcs, Relocated(tables, funcs, text, rs[0]), rs[1..])
    else None
  }

  /** The relocation writes to slot i. */
  predicate Writes(r: Reloc, i: nat) { r.slot == i || (r.StringReloc? && r.slot + 1 == i) }

  /** Relocations change at most src and imm, and only of the slots they name. */
  lemma {:induction false} OnlyNamedSlots(tables: map<Name, TableEntry>, funcs: map<seq<byte>, int32>, text: seq<Inst>, rs: seq<Reloc>, i: nat)
    requires i < |text| && RelocateAll(tables, funcs, text, rs).Some?
    ensures var t := RelocateAll(tables, funcs, text, rs).value;
      t[i].opcode == text[i].opcode && t[i].dst == text[i].dst && t[i].offset == text[i].offset &&
      ((forall j :: 0 <= j < |rs| ==> !Writes(rs[j], i)) ==> t[i] == text[i])
    decreases |rs|
  {
    hide MapName, Low, High;
    if rs != [] {
      OnlyNamedSlots(tables, funcs, Relocated(tables, funcs, text, rs[0]), rs[1..], i);
      assert rs[1..] == rs[1..|rs|];
      if forall j :: 0 <= j < |rs| ==> !Writes(rs[j], i) {
        assert !Writes(rs[0], i);
        assert forall j :: 0 <= j < |rs| - 1 ==> rs[1..][j] == rs[j + 1];
      }
    }
  }

  /** A map relocation that nothing overwrites makes its slot refer to the fd bound to its name, and
      leaves the rest of the instruction alone. */
  lemma {:induction false} MapSlotsBound(tables: map<Name, TableEntry>, funcs: map<seq<byte>, int32>, text: seq<Inst>, rs: seq<Reloc>, j: nat)
    requires RelocateAll(tables, funcs, text, rs).Some? && j < |rs| && rs[j].MapReloc?
    requires forall k :: j < k < |rs| ==> !Writes(rs[k], rs[j].slot)
    ensures var t := RelocateAll(tables, funcs, text, rs).value;
      var i := rs[j].slot;
      i < |text| && MapName(rs[j].name) in tables && text[i].opcode == Opcodes.LDDW &&
      t[i] == text[i].(src := BPF_PSEUDO_MAP_FD, imm := S32(tables[MapName(rs[j].name)].fd))
    decreases |rs|
  {
    hide MapName, Low, High;
    var t1 := Relocated(tables, funcs, text, rs[0]);
    var i := rs[j].slot;
    if j == 0 {
      assert forall k :: 0 <= k < |rs| - 1 ==> rs[1..][k] == rs[k + 1];
      OnlyNamedSlots(tables, funcs, t1, rs[1..], i);
    } else {
      MapSlotsBound(tables, funcs, t1, rs[1..], j - 1);
      OnlyNamedSlots(tables, funcs, text, rs, i);
    }
  }

  // ----- any number of installs -----

  /** What an ELF file holds for the loader. */
  datatype Elf = Elf(symbols: seq<Symbol>, text: seq<Inst>, relocs: seq<Reloc>)

  function Install(vm: Vm, e: Elf): Vm { BindAll(vm, e.symbols).vm }

  function InstallAll(vm: Vm, es: seq<Elf>): Vm
    decreases |es|
  {
    if es == [] then vm else InstallAll(Install(vm, es[0]), es[1..])
  }

  /** ubpf_create in a process without maps: the first one holds the table of names. */
  function NewVm(metaDef: MapDef): Vm
    requires Allocatable(metaDef)
  {
    var none: Maps := seq(MAX_MAPS, _ => None);
    Vm(CreatedFd(none, metaDef), map[], Created(none, metaDef))
  }

  lemma {:induction false} NewVmOk(metaDef: MapDef)
    requires Allocatable(metaDef)
    ensures NewVm(metaDef).metaFd == 0 && NamesOk(NewVm(metaDef))
  {
  }

  lemma {:induction false} KeepsTrans(a: Vm, b: Vm, c: Vm)
    requires Keeps(a, b) && Keeps(b, c)
    ensures Keeps(a, c)
  {
  }

  /** Over any sequence of installs, successful or not, the names stay injective, none gets the fd of
      the table of names, and a name once bound keeps its fd. */
  lemma {:induction false} InstallsKeep(vm: Vm, es: seq<Elf>)
    requires NamesOk(vm)
    ensures NamesOk(InstallAll(vm, es)) && Keeps(vm, InstallAll(vm, es))
    decreases |es|
  {
    hide NamesOk, Keeps, BindAll;
    if es == [] {
      KeepsSelf(vm);
    } else {
      BindAllKeeps(vm, es[0].symbols);
      InstallsKeep(Install(vm, es[0]), es[1..]);
      KeepsTrans(vm, Install(vm, es[0]), InstallAll(vm, es));
    }
  }

  lemma {:induction false} KeepsSelf(vm: Vm)
    ensures Keeps(vm, vm)
  {
  }

  // ----- as the source has it -----

  /** The checks of htab_map_alloc. */
  method HtabMapAlloc(d: MapDef) returns (ok: bool)
    requires d.kind.Hash?
    ensures ok == Allocatable(d)
  {
    return !(d.maxEntries == 0 || d.keySize == 0 || d.valueSize == 0);
  }

  /** The checks of array_map_alloc. */
  method ArrayMapAlloc(d: MapDef) returns (ok: bool)
    requires d.kind.Array?
    ensures ok == Allocatable(d)
  {
    return !(d.maxEntries == 0 || d.keySize != 4 || d.valueSize == 0);
  }

  class Machine {
    const metaFd: int
    var tables: map<Name, TableEntry>
    const bpfMaps: array<Option<MapDef>>

    ghost predicate Valid()
      reads this
    {
      bpfMaps.Length == MAX_MAPS
    }

    ghost function State(): Vm
      reads this, bpfMaps
      requires Valid()
    {
      Vm(metaFd, tables, bpfMaps[..])
    }

    constructor (metaDef: MapDef)
      requires Allocatable(metaDef)
      ensures Valid() && fresh(bpfMaps) && State() == NewVm(metaDef) && NamesOk(State())
    {
      metaFd, tables := 0, map[];
      var a := new Option<MapDef>[MAX_MAPS](_ => None);
      a[0] := Some(metaDef);
      bpfMaps := a;
      NewVmOk(metaDef);
      assert a[..] == NewVm(metaDef).maps;
    }

    /** bpf_create_map: allocate, then scan for a free slot. */
    method CreateMap(d: MapDef) returns (fd: int)
      requires Valid()
      modifies bpfMaps
      ensures fd == old(CreatedFd(State().maps, d)) && State().maps == old(Created(State().maps, d))
    {
      var sane;
      match d.kind {
        case Hash => sane := HtabMapAlloc(d);
        case Array => sane := ArrayMapAlloc(d);
      }
      if !sane {
        return -1;
      }
      fd := -1;
      var i := 0;
      while i < MAX_MAPS && fd == -1
        invariant 0 <= i <= MAX_MAPS
        invariant fd == -1 ==> FreeFrom(bpfMaps[..], 0) == FreeFrom(bpfMaps[..], i)
        invariant fd != -1 ==> fd == FreeFrom(bpfMaps[..], 0) == i
        decreases MAX_MAPS - i, if fd == -1 then 1 else 0
      {
        if bpfMaps[i] == None {
          fd := i;
        } else {
          i := i + 1;
        }
      }
      if fd != -1 {
        bpfMaps[fd] := Some(d);
      }
    }

    /** The loop over the symbols of the maps section. */
    method BindMaps(symbols: seq<Symbol>) returns (ok: bool)
      requires Valid()
      modifies this`tables, bpfMaps
      ensures Valid() && Bound(State(), ok) == BindAll(old(State()), symbols)
    {
      hide MapName, Created, CreatedFd;
      for i := 0 to |symbols|
        invariant BindAll(State(), symbols[i..]) == BindAll(old(State()), symbols)
      {
        assert symbols[i..][0] == symbols[i] && symbols[i..][1..] == symbols[i + 1..];
        var name := MapName(symbols[i].name);
        if name !in tables {
          ghost var before := State();
          var fd := CreateMap(symbols[i].def);
          if fd == -1 {
            MapsKept(before.maps, symbols[i].def);
            assert State() == before;
            return false;
          }
          tables := tables[name := TableEntry(fd, symbols[i].def)];
        }
      }
      return true;
    }

    /** The loop over the relocations of the text section, patching a copy of it in place. */
    method Relocate(text: array<Inst>, relocs: seq<Reloc>, funcs: map<seq<byte>, int32>) returns (ok: bool)
      requires Valid()
      modifies text
      ensures var t := RelocateAll(tables, funcs, old(text[..]), relocs);
        (ok <==> t.Some?) && (ok ==> text[..] == t.value)
    {
      hide MapName, Low, High;
      for i := 0 to |relocs|
        invariant RelocateAll(tables, funcs, text[..], relocs[i..]) == RelocateAll(tables, funcs, old(text[..]), relocs)
      {
        assert relocs[i..][0] == relocs[i] && relocs[i..][1..] == relocs[i + 1..];
        ghost var before := text[..];
        var r := relocs[i];
        if r.slot >= text.Length {
          return false;
        }
        match r {
          case MapReloc(s, n) =>
            if text[s].opcode != Opcodes.LDDW || MapName(n) !in tables {
              return false;
            }
            text[s] := text[s].(src := BPF_PSEUDO_MAP_FD);
            text[s] := text[s].(imm := S32(tables[MapName(n)].fd));
          case StringReloc(s, a) =>
            if text[s].opcode != Opcodes.LDDW || s + 1 >= text.Length {
              return false;
            }
            text[s] := text[s].(imm := Low(a));
            text[s + 1] := text[s + 1].(imm := High(a));
          case CallReloc(s, n) =>
            if n !in funcs {
              return false;
            }
            text[s] := text[s].(imm := funcs[n]);
          case BadReloc(_) =>
            return false;
        }
        assert text[..] == Relocated(tables, funcs, before, r);
        RelocateNext(tables, funcs, before, relocs, i);
      }
      return true;
    }
  }

  /** ubpf_load_elf up to the hand-over of the text: whatever comes of it, the names are those of
      Install, so the theorem about installs is about this machine. */
  method LoadElf(m: Machine, e: Elf, funcs: map<seq<byte>, int32>) returns (text: Option<seq<Inst>>)
    requires m.Valid() && NamesOk(m.State())
    modifies m`tables, m.bpfMaps
    ensures m.Valid() && m.State() == Install(old(m.State()), e)
    ensures NamesOk(m.State()) && Keeps(old(m.State()), m.State())
    ensures text == if BindAll(old(m.State()), e.symbols).ok then RelocateAll(m.tables, funcs, e.text, e.relocs) else None
  {
    hide BindAll, NamesOk, Keeps, RelocateAll;
    BindAllKeeps(m.State(), e.symbols);
    var ok := m.BindMaps(e.symbols);
    if !ok {
      return None;
    }
    var copy := new Inst[|e.text|](i requires 0 <= i < |e.text| => e.text[i]);
    assert copy[..] == e.text;
    ok := m.Relocate(copy, e.relocs, funcs);
    text := if ok then Some(copy[..]) else None;
  }

  lemma {:induction false} RelocateNext(tables: map<Name, TableEntry>, funcs: map<seq<byte>, int32>, text: seq<Inst>, rs: seq<Reloc>, i: nat)
    requires i < |rs| && RelocOk(tables, funcs, text, rs[i])
    ensures RelocateAll(tables, funcs, text, rs[i..])
         == RelocateAll(tables, funcs, Relocated(tables, funcs, text, rs[i]), rs[i + 1..])
  {
    hide RelocOk, Relocated;
    assert rs[i..][0] == rs[i] && rs[i..][1..] == rs[i + 1..];
  }

  lemma {:induction false} MapsKept(maps: Maps, d: MapDef)
    ensures CreatedFd(maps, d) == -1 ==> Created(maps, d) == maps
  {
  }
}
