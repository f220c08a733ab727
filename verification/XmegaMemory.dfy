/** What the NVM controller of an XMEGA makes of the stores it gets: a command register, a page buffer and a memory. */
module XmegaMemories {
  import opened Bits
  import opened Seqs
  import opened PdiTargets
  import opened XmegaNvm
  import SpiTarget

  /** The commands for one of the memories: loading and erasing the page buffer, writing and erasing a page. */
  datatype CommandTable = Commands(load: byte, eraseBuffer: byte, write: byte, erase: byte)
  {
    predicate Distinct() {
      && load !in {eraseBuffer, write, erase, 0x40} && eraseBuffer !in {write, erase, 0x40}
      && write !in {erase, 0x40} && erase != 0x40
    }
  }

  type Commands = c: CommandTable | c.Distinct() witness Commands(0x23, 0x26, 0x24, 0x22)

  type Page = s: seq<byte> | |s| > 0 witness [0xFF]

  datatype Controller = Nvm(
    commands: Commands,
    base: dword,       // of the registers
    origin: nat,       // of the memory in the data space
    command: byte,     // the command register
    page: Page,        // the page buffer
    memory: seq<byte>,
    ran: seq<byte>     // history: the commands that CMDEX has started
  )
  {
    /** The registers lie on a boundary of 64 bytes, the memory beside them, and both within 32 bits. */
    predicate Apart() {
      && base % 0x40 == 0 && base + 0x40 <= 0x1_0000_0000 && origin + |memory| <= 0x1_0000_0000
      && (base + 0x40 <= origin || origin + |memory| <= base)
    }

    /** The start of the page that a place in the memory is in. */
    function PageStart(place: nat): nat { place - SpiTarget.PageOffset(place, |page|) }
  }

  type Nvm = n: Controller | n.Apart()
    witness Nvm(Commands(0x23, 0x26, 0x24, 0x22), 0, 0x40, 0, [0xFF], [], [])

  predicate SameShape(n: Controller, r: Controller) {
    && r.commands == n.commands && r.base == n.base && r.origin == n.origin
    && |r.memory| == |n.memory| && |r.page| == |n.page|
  }

  /** CMDEX starts the command in the command register; 0x40 is the chip erase. */
  function Start(n: Nvm): (r: Nvm)
    ensures SameShape(n, r)
  {
    var r := n.(ran := n.ran + [n.command]);
    if n.command == n.commands.eraseBuffer then r.(page := SpiTarget.Erased(|n.page|))
    else if n.command == 0x40 then
      r.(page := SpiTarget.Erased(|n.page|), memory := SpiTarget.Erased(|n.memory|))
    else r
  }

  function EraseRange(memory: seq<byte>, start: nat, size: nat): (r: seq<byte>)
    ensures |r| == |memory|
    ensures forall i :: 0 <= i < |r| ==> r[i] == if start <= i < start + size then 0xFF else memory[i]
  {
    seq(|memory|, i requires 0 <= i < |memory| => if start <= i < start + size then 0xFF else memory[i])
  }

  /**
    A store into the memory does what the command register says. Loading and writing can only clear bits: a page
    buffer that has not been erased spoils what is loaded.
  */
  function Access(n: Nvm, place: nat, value: byte): (r: Nvm)
    ensures SameShape(n, r)
  {
    var k := SpiTarget.PageOffset(place, |n.page|);
    if n.command == n.commands.load then n.(page := n.page[k := And(n.page[k], value)])
    else if n.command == n.commands.write then
      n.(memory := SpiTarget.Program(n.memory, n.PageStart(place), n.page), page := SpiTarget.Erased(|n.page|))
    else if n.command == n.commands.erase then n.(memory := EraseRange(n.memory, n.PageStart(place), |n.page|))
    else n
  }

  function Store(n: Nvm, s: Stored): (r: Nvm)
    ensures SameShape(n, r)
  {
    if s.address == n.base + 0x0A then n.(command := s.value)
    else if s.address == n.base + 0x0B then if s.value % 2 == 1 then Start(n) else n
    else if n.origin <= s.address < n.origin + |n.memory| then Access(n, s.address - n.origin, s.value)
    else n
  }

  function StoreAll(n: Nvm, s: seq<Stored>): (r: Nvm)
    ensures SameShape(n, r)
  {
    if s == [] then n else Store(StoreAll(n, s[..|s| - 1]), s[|s| - 1])
  }

  lemma {:induction false} StoreConcat(n: Nvm, a: seq<Stored>, b: seq<Stored>)
    ensures StoreAll(n, a + b) == StoreAll(StoreAll(n, a), b)
  {
    if b == [] {
      EmptyRight(a);
    } else {
      StoreConcat(n, a, b[..|b| - 1]);
      ButLast(a, b);
    }
  }

  /** Some stores more, and what they do. */
  lemma StoredMore(n: Nvm, before: seq<Stored>, more: seq<Stored>, after: seq<Stored>, r: Nvm)
    requires after == before + more && StoreAll(StoreAll(n, before), more) == r
    ensures StoreAll(n, after) == r
  {
    StoreConcat(n, before, more);
  }

  lemma StoreTwo(n: Nvm, a: Stored, b: Stored)
    ensures StoreAll(n, [a, b]) == Store(Store(n, a), b)
  {
    StoreOne(n, a);
    assert [a, b][..1] == [a];
  }

  lemma StoreOne(n: Nvm, a: Stored)
    ensures StoreAll(n, [a]) == Store(n, a)
  {
    assert [a][..0] == [];
  }

  /** The registers are where the programmer looks for them. */
  lemma Registers(n: Nvm)
    ensures RegisterAddress(n.base, XMEGA_NVM_REG_CMD) == n.base + 0x0A
    ensures RegisterAddress(n.base, XMEGA_NVM_REG_CTRLA) == n.base + 0x0B
    ensures RegisterAddress(n.base, XMEGA_NVM_REG_STATUS) == n.base + 0x0F
    ensures RegisterAddress(n.base, XMEGA_NVM_REG_DAT0) == n.base + 0x04
  {
    RegisterAddressAdds(n.base, XMEGA_NVM_REG_CMD);
    RegisterAddressAdds(n.base, XMEGA_NVM_REG_CTRLA);
    RegisterAddressAdds(n.base, XMEGA_NVM_REG_STATUS);
    RegisterAddressAdds(n.base, XMEGA_NVM_REG_DAT0);
  }

  /** So these are the stores of the programmer. */
  lemma StoresAre(n: Nvm, command: byte, address: dword, value: byte)
    ensures ReadStores(n.base) == [Stored(n.base + 0x0A, 0x43)]
    ensures EraseBufferStores(n.base, command) == [Stored(n.base + 0x0A, command), Stored(n.base + 0x0B, 1)]
    ensures CommandStores(n.base, command, address, value) == [Stored(n.base + 0x0A, command), Stored(address, value)]
  {
    Registers(n);
  }

  lemma CommandStored(n: Nvm, command: byte)
    ensures Store(n, Stored(n.base + 0x0A, command)) == n.(command := command)
  {}

  lemma CmdexStored(n: Nvm)
    ensures Store(n, Stored(n.base + 0x0B, 1)) == Start(n)
  {}

  /** A command that CMDEX starts. */
  lemma Started(n: Nvm, command: byte)
    ensures StoreAll(n, EraseBufferStores(n.base, command)) == Start(n.(command := command))
  {
    StoresAre(n, command, 0, 0);
    StoreTwo(n, Stored(n.base + 0x0A, command), Stored(n.base + 0x0B, 1));
    CommandStored(n, command);
    CmdexStored(n.(command := command));
  }

  /** A place of the memory. */
  predicate Within(n: Nvm, address: nat) { n.origin <= address < n.origin + |n.memory| }

  /** A command that a store into the memory starts. */
  lemma Accessed(n: Nvm, command: byte, address: dword, value: byte)
    requires Within(n, address)
    ensures StoreAll(n, CommandStores(n.base, command, address, value))
         == Access(n.(command := command), address - n.origin, value)
  {
    StoresAre(n, command, address, value);
    StoreTwo(n, Stored(n.base + 0x0A, command), Stored(address, value));
    CommandStored(n, command);
    StoredInMemory(n.(command := command), address, value);
  }

  lemma StoredInMemory(n: Nvm, address: nat, value: byte)
    requires Within(n, address)
    ensures Store(n, Stored(address, value)) == Access(n, address - n.origin, value)
  {}

  // ----- Loading the page buffer -----

  /** The page buffer after some bytes have been loaded from a place on. */
  function Loaded(page: Page, place: nat, data: seq<byte>): (r: Page)
    ensures |r| == |page|
  {
    if data == [] then page
    else
      var before, k := Loaded(page, place, data[..|data| - 1]), SpiTarget.PageOffset(place + |data| - 1, |page|);
      before[k := And(before[k], data[|data| - 1])]
  }

  lemma {:induction false} BlockLoads(n: Nvm, address: dword, data: seq<byte>)
    requires n.command == n.commands.load
    requires n.origin <= address && address + |data| <= n.origin + |n.memory|
    ensures StoreAll(n, BlockStores(address, data)) == n.(page := Loaded(n.page, address - n.origin, data))
  {
    if data != [] {
      var i := |data| - 1;
      BlockLoads(n, address, data[..i]);
      BlockStoresLast(address, data, i);
      OneMoreStore(n, BlockStores(address, data[..i]), Stored(address as nat + i, data[i]));
      OneMoreLoaded(n, Loaded(n.page, address - n.origin, data[..i]), address as nat + i, data[i]);
    }
  }

  lemma BlockStoresLast(address: dword, data: seq<byte>, i: nat)
    requires i == |data| - 1 && address + i < 0x1_0000_0000
    ensures BlockStores(address, data) == BlockStores(address, data[..i]) + [Stored(address as nat + i, data[i])]
  {
    assert Wrap(address as nat + i) == address as nat + i;
  }

  lemma OneMoreLoaded(n: Nvm, page: Page, address: nat, value: byte)
    requires n.command == n.commands.load && Within(n, address) && |page| == |n.page|
    ensures var k := SpiTarget.PageOffset(address - n.origin, |page|);
            Store(n.(page := page), Stored(address, value)) == n.(page := page[k := And(page[k], value)])
  {
    StoredInMemory(n.(page := page), address, value);
  }

  lemma OneMoreStore(n: Nvm, s: seq<Stored>, x: Stored)
    ensures StoreAll(n, s + [x]) == Store(StoreAll(n, s), x)
  {
    ButLastSnoc(s, x);
  }

  lemma FillStoresAre(n: Nvm, address: dword, data: seq<byte>)
    requires data != []
    ensures FillStores(n.base, n.commands.load, address, data)
         == [Stored(n.base + 0x0A, n.commands.load)] + BlockStores(address, data)
  {
    Registers(n);
  }

  /** The commands of a page write: the command register, then the bytes. */
  lemma FillLoads(n: Nvm, address: dword, data: seq<byte>)
    requires data != []
    requires n.origin <= address && address + |data| <= n.origin + |n.memory|
    ensures StoreAll(n, FillStores(n.base, n.commands.load, address, data))
         == n.(command := n.commands.load, page := Loaded(n.page, address - n.origin, data))
  {
    var command := Stored(n.base + 0x0A, n.commands.load);
    FillStoresAre(n, address, data);
    StoreConcat(n, [command], BlockStores(address, data));
    StoreOne(n, command);
    CommandStored(n, n.commands.load);
    BlockLoads(n.(command := n.commands.load), address, data);
  }

  // ----- The page operation -----

  function BufferErased(n: Nvm): (r: Nvm)
    ensures SameShape(n, r)
  {
    n.(command := n.commands.eraseBuffer, page := SpiTarget.Erased(|n.page|), ran := n.ran + [n.commands.eraseBuffer])
  }

  function BufferLoaded(n: Nvm, place: nat, data: seq<byte>): (r: Nvm)
    ensures SameShape(n, r)
  {
    if data == [] then n else n.(command := n.commands.load, page := Loaded(n.page, place, data))
  }

  function PageWritten(n: Nvm, place: nat): (r: Nvm)
    ensures SameShape(n, r)
  {
    n.(command := n.commands.write, page := SpiTarget.Erased(|n.page|),
       memory := SpiTarget.Program(n.memory, n.PageStart(place), n.page))
  }

  lemma ModeBits(mode: byte)
    ensures And(mode, 0x01) == mode % 2 && And(mode, 0x02) == 2 * (mode / 2 % 2)
  {
    AndMask(mode, 1);
    AndMask(mode / 2, 1);
    AndEven(mode, 1);
    assert Ones(1) == 1 && Pow2(1) == 2;
  }

  /** A page operation: erase the buffer, if asked to, load it, write the page, if asked to. */
  function Operate(n: Nvm, erases: bool, writes: bool, place: nat, data: seq<byte>): (r: Nvm)
    ensures SameShape(n, r)
  {
    var e := if erases then BufferErased(n) else n;
    var l := BufferLoaded(e, place, data);
    if writes then PageWritten(l, place) else l
  }

  /** The two bits of the page mode. */
  function PageOperation(n: Nvm, mode: byte, place: nat, data: seq<byte>): (r: Nvm)
    ensures SameShape(n, r)
  {
    Operate(n, And(mode, 0x01) != 0, And(mode, 0x02) != 0, place, data)
  }

  lemma ModeAsBits(mode: byte)
    ensures Erases(mode) <==> And(mode, 0x01) != 0
    ensures Writes(mode) <==> And(mode, 0x02) != 0
  {
    ModeBits(mode);
  }

  /** The stores up to the page write. */
  function LoadingStores(n: Nvm, mode: byte, address: dword, data: seq<byte>): seq<Stored> {
    var erased := EraseStores(n.base, n.commands.eraseBuffer, mode);
    if data == [] then erased else erased + FillStores(n.base, n.commands.load, address, data)
  }

  lemma LoadingOperates(n: Nvm, mode: byte, address: dword, data: seq<byte>)
    requires Within(n, address) && address + |data| <= n.origin + |n.memory|
    ensures StoreAll(n, LoadingStores(n, mode, address, data))
         == BufferLoaded(if Erases(mode) then BufferErased(n) else n, address - n.origin, data)
  {
    if Erases(mode) {
      Started(n, n.commands.eraseBuffer);
      if data != [] { FillAfter(n, EraseBufferStores(n.base, n.commands.eraseBuffer), BufferErased(n), address, data); }
    } else if data != [] {
      EmptyLeft(FillStores(n.base, n.commands.load, address, data));
      FillLoads(n, address, data);
    }
  }

  lemma FillAfter(n: Nvm, before: seq<Stored>, e: Nvm, address: dword, data: seq<byte>)
    requires StoreAll(n, before) == e && data != []
    requires n.origin <= address && address + |data| <= n.origin + |n.memory|
    ensures StoreAll(n, before + FillStores(n.base, n.commands.load, address, data))
         == BufferLoaded(e, address - n.origin, data)
  {
    StoreConcat(n, before, FillStores(n.base, n.commands.load, address, data));
    FillLoads(e, address, data);
  }

  lemma WriteAccess(n: Nvm, place: nat)
    ensures Access(n.(command := n.commands.write), place, 0) == PageWritten(n, place)
  {}

  lemma WritingOperates(n: Nvm, loading: seq<Stored>, l: Nvm, address: dword, stores: seq<Stored>)
    requires StoreAll(n, loading) == l && Within(l, address)
    requires stores == loading + CommandStores(l.base, l.commands.write, address, 0)
    ensures StoreAll(n, stores) == PageWritten(l, address - l.origin)
  {
    WriteOperates(l, address);
    StoreConcat(n, loading, CommandStores(l.base, l.commands.write, address, 0));
  }

  lemma PartsOperate(n: Nvm, mode: byte, address: dword, data: seq<byte>, stores: seq<Stored>)
    requires Within(n, address) && address + |data| <= n.origin + |n.memory|
    requires stores
          == PageStores(n.base, n.commands.load, n.commands.eraseBuffer, n.commands.write, mode, address, data)
    ensures StoreAll(n, stores) == Operate(n, Erases(mode), Writes(mode), address - n.origin, data)
  {
    var loading := LoadingStores(n, mode, address, data);
    PageStoresAre(n, mode, address, data);
    LoadingOperates(n, mode, address, data);
    if Writes(mode) { WritingOperates(n, loading, StoreAll(n, loading), address, stores); }
  }

  /** The stores of a page write carry out that operation. */
  lemma PageStoresOperate(n: Nvm, mode: byte, address: dword, data: seq<byte>, stores: seq<Stored>)
    requires Within(n, address) && address + |data| <= n.origin + |n.memory|
    requires stores
          == PageStores(n.base, n.commands.load, n.commands.eraseBuffer, n.commands.write, mode, address, data)
    ensures StoreAll(n, stores) == PageOperation(n, mode, address - n.origin, data)
  {
    PartsOperate(n, mode, address, data, stores);
    ModeAsBits(mode);
  }

  lemma PageStoresAre(n: Nvm, mode: byte, address: dword, data: seq<byte>)
    ensures PageStores(n.base, n.commands.load, n.commands.eraseBuffer, n.commands.write, mode, address, data)
         == if Writes(mode)
            then LoadingStores(n, mode, address, data) + CommandStores(n.base, n.commands.write, address, 0)
            else LoadingStores(n, mode, address, data)
  {}

  lemma WriteOperates(l: Nvm, address: dword)
    requires Within(l, address)
    ensures StoreAll(l, CommandStores(l.base, l.commands.write, address, 0)) == PageWritten(l, address - l.origin)
  {
    Accessed(l, l.commands.write, address, 0);
    WriteAccess(l, address - l.origin);
  }

  /** `size` bytes from a place stay within one page. */
  predicate InPage(n: Nvm, place: nat, size: nat) {
    SpiTarget.PageOffset(place, |n.page|) + size <= |n.page| && place + size <= |n.memory|
  }

  lemma {:induction false} LoadedInPage(page: Page, place: nat, data: seq<byte>, size: nat, k: nat)
    requires SpiTarget.PageOffset(place, |page|) + size <= |page| && |data| <= size && k < |page|
    ensures var offset := SpiTarget.PageOffset(place, |page|);
            Loaded(page, place, data)[k]
            == if offset <= k < offset + |data| then And(page[k], data[k - offset]) else page[k]
  {
    if data != [] {
      var i := |data| - 1;
      LoadedInPage(page, place, data[..i], size, k);
      SpiTarget.PageOffsetPlus(place, i, |page|);
    }
  }

  /** An erased page buffer, loaded within the page and written, and-s the data into its place and nothing else. */
  lemma WrittenAt(n: Nvm, place: nat, data: seq<byte>, i: nat)
    requires InPage(n, place, |data|) && i < |n.memory| && n.page == SpiTarget.Erased(|n.page|)
    ensures PageWritten(BufferLoaded(n, place, data), place).memory[i]
         == if place <= i < place + |data| then And(n.memory[i], data[i - place]) else n.memory[i]
  {
    var start := n.PageStart(place);
    ProgrammedAt(BufferLoaded(n, place, data), place, i);
    if start <= i < start + |n.page| {
      BufferAt(n, place, data, i - start);
      AndErased(n.memory[i]);
    }
  }

  lemma ProgrammedAt(l: Nvm, place: nat, i: nat)
    requires i < |l.memory|
    ensures var start := l.PageStart(place);
            PageWritten(l, place).memory[i]
            == if start <= i < start + |l.page| then And(l.memory[i], l.page[i - start]) else l.memory[i]
  {}

  /** In an erased page buffer the data stands as it is. */
  lemma BufferAt(n: Nvm, place: nat, data: seq<byte>, k: nat)
    requires InPage(n, place, |data|) && k < |n.page| && n.page == SpiTarget.Erased(|n.page|)
    ensures var offset := SpiTarget.PageOffset(place, |n.page|);
            BufferLoaded(n, place, data).page[k]
            == if offset <= k < offset + |data| then data[k - offset] else 0xFF
  {
    var offset := SpiTarget.PageOffset(place, |n.page|);
    LoadedInPage(n.page, place, data, |data|, k);
    if offset <= k < offset + |data| { AndErased(data[k - offset]); }
  }

  /**
    A page write with both mode bits, or with the write bit alone on an erased page buffer, and-s each byte of the data
    into its place, and changes no other byte. Without the write bit it changes no byte of the memory at all.
  */
  lemma PageWrites(n: Nvm, mode: byte, place: nat, data: seq<byte>, i: nat)
    requires InPage(n, place, |data|) && i < |n.memory|
    ensures var r := PageOperation(n, mode, place, data).memory;
            && (And(mode, 0x02) == 0 ==> r[i] == n.memory[i])
            && (And(mode, 0x02) != 0 && (And(mode, 0x01) != 0 || n.page == SpiTarget.Erased(|n.page|)) ==>
                  r[i] == if place <= i < place + |data| then And(n.memory[i], data[i - place]) else n.memory[i])
  {
    if And(mode, 0x01) != 0 {
      WrittenAt(BufferErased(n), place, data, i);
    } else if n.page == SpiTarget.Erased(|n.page|) {
      WrittenAt(n, place, data, i);
    }
  }

  /** So the memory holds the data afterwards exactly if it had ones wherever the data has. */
  lemma PageHoldsIff(n: Nvm, mode: byte, place: nat, data: seq<byte>)
    requires InPage(n, place, |data|) && And(mode, 0x02) != 0
    requires And(mode, 0x01) != 0 || n.page == SpiTarget.Erased(|n.page|)
    ensures PageOperation(n, mode, place, data).memory[place..place + |data|] == data
       <==> forall i :: 0 <= i < |data| ==> And(n.memory[place + i], data[i]) == data[i]
  {
    var r := PageOperation(n, mode, place, data).memory;
    forall i | place <= i < place + |data| ensures r[i] == And(n.memory[i], data[i - place]) {
      PageWrites(n, mode, place, data, i);
    }
    HeldIff(r, n.memory, place, data);
  }

  lemma HeldIff(r: seq<byte>, memory: seq<byte>, place: nat, data: seq<byte>)
    requires |r| == |memory| && place + |data| <= |r|
    requires forall i :: place <= i < place + |data| ==> r[i] == And(memory[i], data[i - place])
    ensures r[place..place + |data|] == data
       <==> forall i :: 0 <= i < |data| ==> And(memory[place + i], data[i]) == data[i]
  {
    forall i | 0 <= i < |data| ensures r[place..place + |data|][i] == And(memory[place + i], data[i]) {
      assert r[place + i] == And(memory[place + i], data[place + i - place]);
    }
  }

  // ----- The operations against a controller -----

  /** XMEGANVM_WritePageMemory against a controller. */
  method WritePageTo(programmer: Programmer, mode: byte, address: dword, data: seq<byte>, ghost n0: Nvm,
                     commands: Commands) returns (ok: bool)
    requires programmer.wire.target.Quiet() && n0.base == programmer.nvmBase && commands == n0.commands
    requires Within(n0, address) && address + |data| <= n0.origin + |n0.memory| && |data| <= 256
    modifies programmer.wire, programmer.wire.timer`remaining, programmer.wire.timer`phase
    ensures programmer.wire.target.Quiet()
    ensures ok ==>
              StoreAll(n0, programmer.wire.target.stores)
              == PageOperation(old(StoreAll(n0, programmer.wire.target.stores)), mode, address - n0.origin, data)
  {
    ghost var stores := programmer.wire.target.stores;
    ok := programmer.WritePageMemory(commands.load, commands.eraseBuffer, commands.write, mode, address, data);
    if ok { PageDone(n0, stores, mode, address, data, programmer.wire.target.stores); }
  }

  lemma PageDone(n0: Nvm, before: seq<Stored>, mode: byte, address: dword, data: seq<byte>, after: seq<Stored>)
    requires Within(n0, address) && address + |data| <= n0.origin + |n0.memory|
    requires after == before + PageStores(n0.base, n0.commands.load, n0.commands.eraseBuffer, n0.commands.write, mode,
                                          address, data)
    ensures StoreAll(n0, after) == PageOperation(StoreAll(n0, before), mode, address - n0.origin, data)
  {
    var n := StoreAll(n0, before);
    var page := PageStores(n.base, n.commands.load, n.commands.eraseBuffer, n.commands.write, mode, address, data);
    PageStoresOperate(n, mode, address, data, page);
    StoredMore(n0, before, page, after, PageOperation(n, mode, address - n0.origin, data));
  }

  /** XMEGANVM_EraseMemory against a controller: the whole memory, or the page that the address is in. */
  method EraseIn(programmer: Programmer, command: byte, address: dword, ghost n0: Nvm) returns (ok: bool)
    requires programmer.wire.target.Quiet() && n0.base == programmer.nvmBase && Within(n0, address)
    requires command == 0x40 || command == n0.commands.erase
    modifies programmer.wire, programmer.wire.timer`remaining, programmer.wire.timer`phase
    ensures programmer.wire.target.Quiet()
    ensures ok ==>
              var n, r := old(StoreAll(n0, programmer.wire.target.stores)), StoreAll(n0, programmer.wire.target.stores);
              r.memory == if command == 0x40 then SpiTarget.Erased(|n.memory|)
                          else EraseRange(n.memory, n.PageStart(address - n.origin), |n.page|)
  {
    ghost var stores := programmer.wire.target.stores;
    ghost var n := StoreAll(n0, stores);
    ok := programmer.EraseMemory(command, address);
    if !ok { return; }
    if command == 0x40 {
      Started(n, command);
      StoredMore(n0, stores, EraseBufferStores(n.base, command), programmer.wire.target.stores,
                 Start(n.(command := command)));
    } else {
      Accessed(n, command, address, 0);
      StoredMore(n0, stores, CommandStores(n.base, command, address, 0), programmer.wire.target.stores,
                 Access(n.(command := command), address - n.origin, 0));
    }
  }

  /** From the `from`th answer on, the controller that has been told to read answers with its memory. */
  ghost predicate Answers(reply: (nat, nat) -> byte, from: nat, n: Nvm) {
    forall k: nat, a: nat {:trigger reply(k, a)} :: from <= k && Within(n, a) ==> reply(k, a) == n.memory[a - n.origin]
  }

  /** XMEGANVM_ReadMemory against a controller: it is told to read, and the buffer gets the bytes of the memory. */
  method ReadFrom(programmer: Programmer, address: dword, buffer: array<byte>, size: word, ghost n0: Nvm)
    returns (ok: bool)
    requires programmer.wire.target.Quiet() && n0.base == programmer.nvmBase
    requires 1 <= size <= 256 && size as int <= buffer.Length
    requires n0.origin <= address && address as int + size as int <= n0.origin + |n0.memory|
    requires Answers(programmer.wire.reply, |programmer.wire.target.loads|,
                     StoreAll(n0, programmer.wire.target.stores))
    modifies programmer.wire, programmer.wire.timer`remaining, programmer.wire.timer`phase, buffer
    ensures programmer.wire.target.Quiet()
    ensures ok ==>
              var n := old(StoreAll(n0, programmer.wire.target.stores));
              && StoreAll(n0, programmer.wire.target.stores) == n.(command := 0x43)
              && forall i :: 0 <= i < size ==> buffer[i] == n.memory[address - n.origin + i]
  {
    ghost var stores := programmer.wire.target.stores;
    ghost var n := StoreAll(n0, stores);
    ok := programmer.ReadMemory(address, buffer, size);
    if ok {
      StoresAre(n, 0, 0, 0);
      StoreOne(n, Stored(n.base + 0x0A, 0x43));
      CommandStored(n, 0x43);
      StoredMore(n0, stores, ReadStores(n.base), programmer.wire.target.stores, n.(command := 0x43));
      forall i | 0 <= i < size ensures buffer[i] == n.memory[address - n.origin + i] {
        InMemory(n, address, size, i);
      }
    }
  }

  lemma InMemory(n: Nvm, address: dword, size: nat, i: nat)
    requires n.origin <= address && address + size <= n.origin + |n.memory| && i < size
    ensures Wrap(address as nat + i) == address as nat + i && Within(n, address as nat + i)
  {}
}
