/** The DMA engine over main memory: linked-list transfers to the GPU and the ordering-table clear. */
module Dma {

  import opened DmaLists
  import opened Words

  datatype Port = MdecIn | MdecOut | Gpu | CdRom | Spu | Pio | Otc

  datatype Sync = Manual | Request | LinkedList

  datatype Channel = Channel(toRam: bool, increment: bool, sync: Sync, base: nat, blockSize: nat, blockCount: nat)
  {
    predicate Valid() { base < 0x100_0000 && blockSize < 0x1_0000 && blockCount < 0x1_0000 }

    function Words(): nat {
      match sync
      case Manual => blockSize
      case Request => blockCount * blockSize
      case LinkedList => 0
    }
  }

  class DmaEngine {
    const ram: array<Word>
    /** Every word handed to the GPU's command port, in order. */
    var gp0: seq<Word>

    ghost predicate Valid() { ram.Length == WORDS }

    constructor ()
      ensures Valid() && fresh(ram) && gp0 == []
    {
      ram := new Word[WORDS](_ => 0);
      gp0 := [];
    }

    /** Send one packet; `address` is left on its last word. */
    method SendPacket(header: nat, n: nat)
      requires Valid() && header < WORDS
      modifies this`gp0
      ensures gp0 == old(gp0) + Packet(ram[..], header, n)
    {
      var address: int, left: int := 4 * header, n;
      ghost var sent, before := 0, gp0;
      while left > 0
        invariant 0 <= sent && 0 <= left && left + sent == n && address == 4 * NthAfter(header, sent)
        invariant gp0 == before + Packet(ram[..], header, sent)
        decreases left
      {
        NextWord(header, sent);
        Associate(before, Packet(ram[..], header, sent), [ram[NthAfter(header, sent + 1)]]);
        address := (address + 4) % BYTES;
        gp0 := gp0 + [ram[address / 4]];
        left, sent := left - 1, sent + 1;
      }
    }

    /** Read one header and send its packet. */
    method SendHeader(index: nat) returns (header: Word)
      requires Valid() && index < WORDS
      modifies this`gp0
      ensures header == ram[index] && gp0 == old(gp0) + Packet(ram[..], index, Count(header))
    {
      header := ram[index];
      SendPacket(index, Count(header));
    }

    method Walk(start: nat) returns (words: nat, ghost headers: seq<nat>)
      requires Valid() && start < WORDS
      modifies this`gp0
      ensures IsWalk(ram[..], start, headers)
      ensures gp0 == old(gp0) + Packets(ram[..], headers)
      ensures words == |headers| + |Packets(ram[..], headers)| <= 256 * WORDS
    {
      var visited := new bool[WORDS](_ => false);
      var index := start;
      words, headers := 0, [];
      ghost var memory := ram[..];
      while !visited[index]
        invariant visited.Length == WORDS && ram[..] == memory
        invariant Marks(visited[..], headers)
        invariant Visiting(memory, start, headers, index)
        invariant Account(memory, headers, old(gp0), gp0, words)
        decreases WORDS - |headers|
      {
        MarkOne(visited[..], headers, index);
        VisitOne(memory, start, headers, index);
        visited[index] := true;
        AccountOne(memory, headers, index, old(gp0), gp0, words);
        headers := headers + [index];
        var header := SendHeader(index);
        words := words + 1 + Count(header);
        if IsEnd(header) { break; }
        index := WordAt(header);
      }
      WalkSize(memory, headers);
    }

    /** A linked-list transfer. For every memory, cyclic or not, it stops; it has then sent exactly the packets
        of the walk's headers, in link order, and counted every word it touched. */
    method LinkedListTransfer(ch: Channel, port: Port) returns (words: nat, ghost headers: seq<nat>)
      requires Valid() && ch.Valid()
      modifies this`gp0
      ensures ch.toRam || port != Gpu ==> words == 1 && gp0 == old(gp0)
      ensures !ch.toRam && port == Gpu ==>
                && IsWalk(ram[..], WordAt(ch.base), headers)
                && gp0 == old(gp0) + Packets(ram[..], headers)
                && words == |headers| + |Packets(ram[..], headers)| <= 256 * WORDS
    {
      headers := [];
      if ch.toRam || port != Gpu { return 1, headers; }
      words, headers := Walk(WordAt(ch.base));
    }

    /** The block path on the ordering-table channel. */
    method ClearTable(ch: Channel) returns (words: nat)
      requires Valid() && ch.Valid()
      modifies ram
      ensures ram[..] == if ch.toRam then Cleared(old(ram[..]), ch.base, ch.increment, ch.Words()) else old(ram[..])
      ensures words == if ch.Words() == 0 then 1 else ch.Words()
    {
      if ch.sync == LinkedList { return 1; }
      var address: int, left: int := ch.base, ch.Words();
      while left > 0
        invariant 0 <= address < U32 && 0 <= left <= ch.Words()
        invariant if ch.toRam then
                    Cleared(ram[..], address, ch.increment, left)
                    == Cleared(old(ram[..]), ch.base, ch.increment, ch.Words())
                  else ram[..] == old(ram[..])
      {
        if ch.toRam {
          ram[WordAt(address)] := ClearWord(address, left);
        }
        address := NextAddress(address, ch.increment);
        left := left - 1;
      }
      return if ch.Words() == 0 then 1 else ch.Words();
    }

    /** Building an ordering table and sending it as a list: every entry is visited once, from the base down,
        and nothing reaches the GPU. */
    method ClearThenSend(clear: Channel, send: Channel) returns (words: nat, ghost headers: seq<nat>)
      requires Valid() && clear.Valid() && send.Valid()
      requires clear.toRam && !clear.increment && 1 <= clear.Words() <= WORDS
      requires !send.toRam && WordAt(send.base) == WordAt(clear.base)
      modifies ram, this`gp0
      ensures headers == Entries(clear.base, clear.Words()) && words == clear.Words()
      ensures gp0 == old(gp0)
    {
      ghost var before := ram[..];
      var cleared := ClearTable(clear);
      words, headers := LinkedListTransfer(send, Gpu);
      ClearedTableSends(before, clear.base, clear.Words(), headers);
    }
  }
}
