/** Display lists in main memory: what a linked-list transfer sends, and the ordering table it starts from.

    `IsWalk` says, without any loop, which headers a transfer visits; there is exactly one such
    sequence for every memory and start. Clearing an ordering table builds a memory whose walk visits
    every entry and sends nothing.
 */
module DmaLists {

  import Arith
  import opened Words

  const WORDS := 0x8_0000
  const BYTES := 0x20_0000
  const U32 := 0x1_0000_0000
  const TERMINATOR: Word := 0x00FF_FFFF

  predicate IsRam(ram: seq<Word>) { |ram| == WORDS }

  /** The word that a byte address selects: memory is mirrored and the low two bits are ignored. */
  function WordAt(address: int): (r: nat)
    ensures r < WORDS
  {
    address % BYTES / 4
  }

  function Count(header: Word): (r: nat)
    ensures r < 256
  {
    header / 0x100_0000
  }

  predicate IsEnd(header: Word) { header / 0x80_0000 % 2 == 1 }

  // ---- The walk, without a loop ----

  predicate Distinct(s: seq<nat>) { forall i, j :: 0 <= i < j < |s| ==> s[i] != s[j] }

  predicate Linked(ram: seq<Word>, s: seq<nat>)
    requires IsRam(ram)
  {
    && (forall i :: 0 <= i < |s| ==> s[i] < WORDS)
    && (forall i :: 0 < i < |s| ==> Follows(ram, s, i))
  }

  /** Header i is the one that header i - 1 names. */
  predicate Follows(ram: seq<Word>, s: seq<nat>, i: nat)
    requires IsRam(ram) && 0 < i < |s| && s[i - 1] < WORDS
  {
    !IsEnd(ram[s[i - 1]]) && s[i] == WordAt(ram[s[i - 1]])
  }

  /** The headers of a transfer: each linked to the one before, none repeated, up to an end marker or to
      a header already visited. */
  predicate IsWalk(ram: seq<Word>, start: nat, s: seq<nat>)
    requires IsRam(ram)
  {
    && s != [] && s[0] == start && Linked(ram, s) && Distinct(s)
    && var last := ram[s[|s| - 1]]; IsEnd(last) || WordAt(last) in s
  }

  function NthAfter(header: nat, n: nat): (i: nat)
    ensures i < WORDS
  {
    (header + n) % WORDS
  }

  /** The n words after a header, wrapping at the end of memory. */
  function Packet(ram: seq<Word>, header: nat, n: nat): (r: seq<Word>)
    requires IsRam(ram)
    ensures |r| == n
  {
    if n == 0 then [] else Packet(ram, header, n - 1) + [ram[NthAfter(header, n)]]
  }

  /** The packets of a sequence of headers, in order. */
  function Packets(ram: seq<Word>, headers: seq<nat>): (r: seq<Word>)
    requires IsRam(ram) && forall i :: 0 <= i < |headers| ==> headers[i] < WORDS
  {
    if headers == [] then []
    else
      var h := headers[|headers| - 1];
      Packets(ram, headers[..|headers| - 1]) + Packet(ram, h, Count(ram[h]))
  }

  lemma {:induction false} WalkPrefix(ram: seq<Word>, start: nat, a: seq<nat>, b: seq<nat>, n: nat)
    requires IsRam(ram) && IsWalk(ram, start, a) && IsWalk(ram, start, b) && n <= |a| && n <= |b|
    ensures a[..n] == b[..n]
  {
    if n > 1 {
      WalkPrefix(ram, start, a, b, n - 1);
      assert a[n - 2] == a[..n - 1][n - 2] == b[..n - 1][n - 2] == b[n - 2];
      assert Follows(ram, a, n - 1) && Follows(ram, b, n - 1);
      assert a[..n] == a[..n - 1] + [a[n - 1]] && b[..n] == b[..n - 1] + [b[n - 1]];
    }
  }

  lemma GoesOn(ram: seq<Word>, start: nat, s: seq<nat>, n: nat)
    requires IsRam(ram) && IsWalk(ram, start, s) && 0 < n < |s|
    ensures !IsEnd(ram[s[n - 1]]) && WordAt(ram[s[n - 1]]) !in s[..n]
  {
    assert Follows(ram, s, n);
  }

  lemma WalkNotLonger(ram: seq<Word>, start: nat, a: seq<nat>, b: seq<nat>)
    requires IsRam(ram) && IsWalk(ram, start, a) && IsWalk(ram, start, b)
    ensures |b| <= |a|
  {
    if |b| > |a| {
      GoesOn(ram, start, b, |a|);
      WalkPrefix(ram, start, a, b, |a|);
    }
  }

  /** One memory and one start give one walk. */
  lemma WalkUnique(ram: seq<Word>, start: nat, a: seq<nat>, b: seq<nat>)
    requires IsRam(ram) && IsWalk(ram, start, a) && IsWalk(ram, start, b)
    ensures a == b
  {
    WalkNotLonger(ram, start, a, b);
    WalkNotLonger(ram, start, b, a);
    WalkPrefix(ram, start, a, b, |a|);
    assert a == a[..|a|] && b == b[..|a|];
  }

  /** A transfer under way: the headers visited, and the header it has come to. */
  predicate Visiting(ram: seq<Word>, start: nat, headers: seq<nat>, index: nat)
    requires IsRam(ram)
  {
    && Linked(ram, headers) && Distinct(headers) && index < WORDS
    && if headers == [] then index == start
       else headers[0] == start
            && var last := ram[headers[|headers| - 1]]; !IsEnd(last) && index == WordAt(last)
  }

  /** One more header keeps the walk linked and distinct, and still within memory. */
  lemma VisitOne(ram: seq<Word>, start: nat, headers: seq<nat>, index: nat)
    requires IsRam(ram) && Visiting(ram, start, headers, index) && index !in headers
    ensures var longer := headers + [index];
            && Linked(ram, longer) && Distinct(longer) && |longer| <= WORDS
            && if IsEnd(ram[index]) then IsWalk(ram, start, longer)
               else Visiting(ram, start, longer, WordAt(ram[index]))
  {
    var longer := headers + [index];
    forall i | 0 < i < |longer| ensures Follows(ram, longer, i) {
      assert i < |headers| ==> Follows(ram, headers, i);
    }
    WalkFits(longer);
  }

  /** The transfer's account so far: the words sent after `before`, and the words counted. */
  predicate Account(ram: seq<Word>, headers: seq<nat>, before: seq<Word>, sent: seq<Word>, words: nat)
    requires IsRam(ram) && forall i :: 0 <= i < |headers| ==> headers[i] < WORDS
  {
    sent == before + Packets(ram, headers) && words == |headers| + |Packets(ram, headers)|
  }

  lemma PacketsOneMore(ram: seq<Word>, headers: seq<nat>, index: nat)
    requires IsRam(ram) && (forall i :: 0 <= i < |headers| ==> headers[i] < WORDS) && index < WORDS
    ensures Packets(ram, headers + [index]) == Packets(ram, headers) + Packet(ram, index, Count(ram[index]))
  {
    assert (headers + [index])[..|headers|] == headers;
  }

  lemma AccountOne(ram: seq<Word>, headers: seq<nat>, index: nat, before: seq<Word>, sent: seq<Word>, words: nat)
    requires IsRam(ram) && (forall i :: 0 <= i < |headers| ==> headers[i] < WORDS) && index < WORDS
    requires Account(ram, headers, before, sent, words)
    ensures var n := Count(ram[index]);
            Account(ram, headers + [index], before, sent + Packet(ram, index, n), words + 1 + n)
  {
    PacketsOneMore(ram, headers, index);
    Associate(before, Packets(ram, headers), Packet(ram, index, Count(ram[index])));
  }

  /** The visited flags are up exactly at the headers visited. */
  predicate Marks(flags: seq<bool>, headers: seq<nat>) {
    |flags| == WORDS && forall x :: 0 <= x < WORDS ==> (flags[x] <==> x in headers)
  }

  lemma MarkOne(flags: seq<bool>, headers: seq<nat>, index: nat)
    requires Marks(flags, headers) && index < WORDS
    ensures Marks(flags[index := true], headers + [index])
  {
  }

  lemma NextWord(header: nat, n: nat)
    ensures (4 * NthAfter(header, n) + 4) % BYTES == 4 * NthAfter(header, n + 1)
  {
    Arith.AddDivMod(header + n, WORDS, 1);
  }

  // ---- Counting ----

  function Elements(s: seq<nat>): set<nat> { set x | x in s }

  lemma {:induction false} FewBelow(xs: set<nat>, n: nat)
    requires forall x :: x in xs ==> x < n
    ensures |xs| <= n
  {
    if n > 0 {
      FewBelow(xs - {n - 1}, n - 1);
    } else {
      assert xs == {};
    }
  }

  lemma {:induction false} DistinctCount(s: seq<nat>)
    requires Distinct(s)
    ensures |Elements(s)| == |s|
  {
    if s == [] {
      assert Elements(s) == {};
    } else {
      var m := |s| - 1;
      DistinctCount(s[..m]);
      assert Elements(s) == Elements(s[..m]) + {s[m]};
      assert s[m] !in Elements(s[..m]);
    }
  }

  /** Distinct headers cannot outnumber the words of memory. */
  lemma WalkFits(s: seq<nat>)
    requires Distinct(s) && forall i :: 0 <= i < |s| ==> s[i] < WORDS
    ensures |s| <= WORDS
  {
    DistinctCount(s);
    FewBelow(Elements(s), WORDS);
  }

  lemma {:induction false} PacketsBound(ram: seq<Word>, headers: seq<nat>)
    requires IsRam(ram) && forall i :: 0 <= i < |headers| ==> headers[i] < WORDS
    ensures |Packets(ram, headers)| <= 255 * |headers|
  {
    if headers != [] {
      PacketsBound(ram, headers[..|headers| - 1]);
    }
  }

  lemma WalkSize(ram: seq<Word>, headers: seq<nat>)
    requires IsRam(ram) && Linked(ram, headers) && Distinct(headers)
    ensures |headers| + |Packets(ram, headers)| <= 256 * WORDS
  {
    WalkFits(headers);
    PacketsBound(ram, headers);
  }

  // ---- The ordering-table clear ----

  /** The word stored with `left` words to go, at byte address `address`. */
  function ClearWord(address: int, left: nat): Word {
    if left == 1 then TERMINATOR else (address - 4) % BYTES
  }

  function NextAddress(address: int, increment: bool): int {
    (if increment then address + 4 else address - 4) % U32
  }

  /** Memory after a clear of `left` words from byte address `address`. */
  function Cleared(ram: seq<Word>, address: int, increment: bool, left: nat): (r: seq<Word>)
    requires IsRam(ram)
    ensures IsRam(r)
    decreases left
  {
    if left == 0 then ram
    else Cleared(ram[WordAt(address) := ClearWord(address, left)], NextAddress(address, increment), increment, left - 1)
  }

  /** Slot k of the table whose first entry is at `base`. */
  function Slot(base: int, k: int): (r: nat)
    ensures r < WORDS
  {
    (base / 4 - k) % WORDS
  }

  lemma WrapKeepsWord(x: int)
    ensures WordAt(x % U32) == WordAt(x)
  {
    var m := x / U32;
    assert x % U32 == x + (-2048 * m) * BYTES;
    Arith.AddMultiple(x, BYTES, -2048 * m);
  }

  lemma SlotOfAddress(base: int, k: int)
    ensures WordAt((base - 4 * k) % U32) == Slot(base, k) == WordAt(base - 4 * k)
  {
    WrapKeepsWord(base - 4 * k);
    var q, r := base / 4 - k, base % 4;
    var turns := q / WORDS;
    assert base - 4 * k == (4 * (q % WORDS) + r) + turns * BYTES;
    Arith.AddMultiple(4 * (q % WORDS) + r, BYTES, turns);
  }

  lemma SlotsDiffer(base: int, i: int, j: int)
    requires i < j < i + WORDS
    ensures Slot(base, i) != Slot(base, j)
  {
    var q := base / 4 - j;
    assert base / 4 - i == q + (j - i);
  }

  /** One step of a decrementing clear, in unwrapped addresses. */
  lemma AddressStep(base: int, done: nat, left: nat)
    ensures var address := (base - 4 * done) % U32;
            && NextAddress(address, false) == (base - 4 * (done + 1)) % U32
            && ClearWord(address, left) == ClearWord(base - 4 * done, left)
  {
    var x := base - 4 * done;
    var m := x / U32;
    assert x % U32 - 4 == (x - 4) + (-m) * U32;
    Arith.AddMultiple(x - 4, U32, -m);
    assert x % U32 - 4 == (x - 4) + (-2048 * m) * BYTES;
    Arith.AddMultiple(x - 4, BYTES, -2048 * m);
  }

  lemma {:induction false} ClearedAt(ram: seq<Word>, base: int, done: nat, left: nat, word: nat)
    requires IsRam(ram) && done + left <= WORDS && word < WORDS
    ensures var r := Cleared(ram, (base - 4 * done) % U32, false, left);
            && (forall k :: done <= k < done + left ==> r[Slot(base, k)] == ClearWord(base - 4 * k, done + left - k))
            && ((forall k :: done <= k < done + left ==> word != Slot(base, k)) ==> r[word] == ram[word])
    decreases left
  {
    if left > 0 {
      var address := (base - 4 * done) % U32;
      SlotOfAddress(base, done);
      AddressStep(base, done, left);
      var stored := ram[WordAt(address) := ClearWord(address, left)];
      ClearedAt(stored, base, done + 1, left - 1, word);
      forall k | done < k < done + left ensures Slot(base, k) != Slot(base, done) {
        SlotsDiffer(base, done, k);
      }
      ClearedAt(stored, base, done + 1, left - 1, Slot(base, done));
    }
  }

  /** One step of an incrementing clear, in unwrapped addresses. */
  lemma AddressStepUp(base: int, done: nat, left: nat)
    ensures var address := (base + 4 * done) % U32;
            && NextAddress(address, true) == (base + 4 * (done + 1)) % U32
            && ClearWord(address, left) == ClearWord(base + 4 * done, left)
  {
    var x := base + 4 * done;
    var m := x / U32;
    assert x % U32 + 4 == (x + 4) + (-m) * U32;
    Arith.AddMultiple(x + 4, U32, -m);
    assert x % U32 - 4 == (x - 4) + (-2048 * m) * BYTES;
    Arith.AddMultiple(x - 4, BYTES, -2048 * m);
  }

  /** The same slots counted upwards. */
  function SlotUp(base: int, k: int): (r: nat)
    ensures r < WORDS
  {
    (base / 4 + k) % WORDS
  }

  lemma SlotUpOfAddress(base: int, k: int)
    ensures WordAt((base + 4 * k) % U32) == SlotUp(base, k)
  {
    SlotOfAddress(base, -k);
  }

  lemma SlotsUpDiffer(base: int, i: int, j: int)
    requires i < j < i + WORDS
    ensures SlotUp(base, i) != SlotUp(base, j)
  {
    SlotsDiffer(base, -j, -i);
  }

  lemma {:induction false} ClearedUpAt(ram: seq<Word>, base: int, done: nat, left: nat, word: nat)
    requires IsRam(ram) && done + left <= WORDS && word < WORDS
    ensures var r := Cleared(ram, (base + 4 * done) % U32, true, left);
            && (forall k :: done <= k < done + left ==> r[SlotUp(base, k)] == ClearWord(base + 4 * k, done + left - k))
            && ((forall k :: done <= k < done + left ==> word != SlotUp(base, k)) ==> r[word] == ram[word])
    decreases left
  {
    if left > 0 {
      var address := (base + 4 * done) % U32;
      SlotUpOfAddress(base, done);
      AddressStepUp(base, done, left);
      var stored := ram[WordAt(address) := ClearWord(address, left)];
      ClearedUpAt(stored, base, done + 1, left - 1, word);
      forall k | done < k < done + left ensures SlotUp(base, k) != SlotUp(base, done) {
        SlotsUpDiffer(base, done, k);
      }
      ClearedUpAt(stored, base, done + 1, left - 1, SlotUp(base, done));
    }
  }

  /** An incrementing clear goes up from the base and changes exactly n words; each names the word below it, and the
      last one stored is the terminator. */
  lemma IncrementingClear(ram: seq<Word>, base: int, n: nat, word: nat)
    requires IsRam(ram) && 0 <= base < U32 && 1 <= n <= WORDS && word < WORDS
    ensures var r := Cleared(ram, base, true, n);
            && r[SlotUp(base, n - 1)] == TERMINATOR
            && (forall k :: 0 <= k < n - 1 ==> r[SlotUp(base, k)] == (base + 4 * k - 4) % BYTES)
            && ((forall k :: 0 <= k < n ==> word != SlotUp(base, k)) ==> r[word] == ram[word])
  {
    assert (base + 4 * 0) % U32 == base;
    ClearedUpAt(ram, base, 0, n, word);
    assert ClearWord(base + 4 * (n - 1), n - (n - 1)) == TERMINATOR;
  }

  /** Entry k is an empty packet that names entry k + 1. */
  predicate PointsOn(ram: seq<Word>, base: int, k: nat)
    requires IsRam(ram)
  {
    var header := ram[Slot(base, k)];
    Count(header) == 0 && !IsEnd(header) && WordAt(header) == Slot(base, k + 1)
  }

  lemma LinkWord(base: int, k: nat, header: Word)
    requires header == (base - 4 * k - 4) % BYTES
    ensures Count(header) == 0 && !IsEnd(header) && WordAt(header) == Slot(base, k + 1)
  {
    SlotOfAddress(base, k + 1);
    assert base - 4 * k - 4 == base - 4 * (k + 1);
    assert header < BYTES;
  }

  lemma ClearedFrom(ram: seq<Word>, base: int, n: nat, word: nat)
    requires IsRam(ram) && 0 <= base < U32 && 1 <= n <= WORDS && word < WORDS
    ensures var r := Cleared(ram, base, false, n);
            && (forall k :: 0 <= k < n ==> r[Slot(base, k)] == ClearWord(base - 4 * k, n - k))
            && ((forall k :: 0 <= k < n ==> word != Slot(base, k)) ==> r[word] == ram[word])
  {
    assert (base - 4 * 0) % U32 == base;
    ClearedAt(ram, base, 0, n, word);
  }

  lemma EntryPointsOn(ram: seq<Word>, base: int, n: nat, k: nat)
    requires IsRam(ram) && 0 <= base < U32 && 1 <= n <= WORDS && k < n - 1
    ensures PointsOn(Cleared(ram, base, false, n), base, k)
  {
    ClearedFrom(ram, base, n, 0);
    LinkWord(base, k, Cleared(ram, base, false, n)[Slot(base, k)]);
  }

  lemma LastEntry(ram: seq<Word>, base: int, n: nat)
    requires IsRam(ram) && 0 <= base < U32 && 1 <= n <= WORDS
    ensures Cleared(ram, base, false, n)[Slot(base, n - 1)] == TERMINATOR
  {
    ClearedFrom(ram, base, n, 0);
  }

  /** A decrementing clear of n words changes exactly n words: entry k points at entry k + 1, the last one
      is the terminator, and nothing else moves. */
  lemma ClearChangesExactly(ram: seq<Word>, base: int, n: nat, word: nat)
    requires IsRam(ram) && 0 <= base < U32 && 1 <= n <= WORDS && word < WORDS
    ensures var r := Cleared(ram, base, false, n);
            && r[Slot(base, n - 1)] == TERMINATOR
            && (forall k :: 0 <= k < n - 1 ==> PointsOn(r, base, k))
            && ((forall k :: 0 <= k < n ==> word != Slot(base, k)) ==> r[word] == ram[word])
  {
    ClearedFrom(ram, base, n, word);
    LastEntry(ram, base, n);
    forall k | 0 <= k < n - 1 ensures PointsOn(Cleared(ram, base, false, n), base, k) {
      EntryPointsOn(ram, base, n, k);
    }
  }

  function Entries(base: int, n: nat): (r: seq<nat>)
    ensures |r| == n && forall k :: 0 <= k < n ==> r[k] == Slot(base, k)
  {
    if n == 0 then [] else Entries(base, n - 1) + [Slot(base, n - 1)]
  }

  lemma EntriesDistinct(base: int, n: nat)
    requires n <= WORDS
    ensures Distinct(Entries(base, n))
  {
    forall i, j | 0 <= i < j < n ensures Slot(base, i) != Slot(base, j) {
      SlotsDiffer(base, i, j);
    }
  }

  lemma {:induction false} EmptyPackets(ram: seq<Word>, headers: seq<nat>)
    requires IsRam(ram) && forall i :: 0 <= i < |headers| ==> headers[i] < WORDS && Count(ram[headers[i]]) == 0
    ensures Packets(ram, headers) == []
  {
    if headers != [] {
      EmptyPackets(ram, headers[..|headers| - 1]);
    }
  }

  lemma TableIsLinked(r: seq<Word>, base: int, n: nat)
    requires IsRam(r) && 1 <= n <= WORDS && r[Slot(base, n - 1)] == TERMINATOR
    requires forall k :: 0 <= k < n - 1 ==> PointsOn(r, base, k)
    ensures Linked(r, Entries(base, n)) && Packets(r, Entries(base, n)) == []
  {
    var walk := Entries(base, n);
    forall i | 0 < i < n
      ensures Follows(r, walk, i)
    {
      assert PointsOn(r, base, i - 1);
    }
    forall i | 0 <= i < n
      ensures Count(r[walk[i]]) == 0
    {
      assert i < n - 1 ==> PointsOn(r, base, i);
    }
    TerminatorEnds();
    EmptyPackets(r, walk);
  }

  lemma TerminatorEnds()
    ensures IsEnd(TERMINATOR) && Count(TERMINATOR) == 0
  {
  }

  lemma FirstSlot(base: int)
    ensures Slot(base, 0) == WordAt(base)
  {
    SlotOfAddress(base, 0);
  }

  /** The walk of a cleared table visits its n entries in descending order, sends nothing and ends at the
      terminator, not by meeting a header twice. */
  lemma ClearedTableWalk(ram: seq<Word>, base: int, n: nat)
    requires IsRam(ram) && 0 <= base < U32 && 1 <= n <= WORDS
    ensures var r := Cleared(ram, base, false, n); var walk := Entries(base, n);
            && IsWalk(r, WordAt(base), walk) && Packets(r, walk) == [] && IsEnd(r[walk[n - 1]])
  {
    ClearChangesExactly(ram, base, n, 0);
    TerminatorEnds();
    FirstSlot(base);
    EntriesDistinct(base, n);
    TableIsLinked(Cleared(ram, base, false, n), base, n);
  }

  /** So whatever walk a transfer makes of a cleared table is that one. */
  lemma ClearedTableSends(ram: seq<Word>, base: int, n: nat, headers: seq<nat>)
    requires IsRam(ram) && 0 <= base < U32 && 1 <= n <= WORDS
    requires IsWalk(Cleared(ram, base, false, n), WordAt(base), headers)
    ensures headers == Entries(base, n) && Packets(Cleared(ram, base, false, n), headers) == []
  {
    ClearedTableWalk(ram, base, n);
    WalkUnique(Cleared(ram, base, false, n), WordAt(base), headers, Entries(base, n));
  }

  // ---- Lists with packets ----

  /** A packet at a word of memory. */
  datatype Node = Node(at: nat, words: seq<Word>)

  /** The header of a packet of n words: the count in the top byte, then the byte address of the next header or the
      terminator. */
  predicate HeaderIs(header: Word, n: nat, next: nat) { header == 0x100_0000 * n + next }

  /** A display list in memory: each node's header names the next, the last one ends the list, and each node's words
      follow its header. */
  ghost predicate LaidOut(ram: seq<Word>, nodes: seq<Node>)
    requires IsRam(ram)
  {
    && nodes != []
    && (forall i :: 0 <= i < |nodes| ==> NodeIs(ram, nodes, i))
    && (forall i, j :: 0 <= i < j < |nodes| ==> nodes[i].at != nodes[j].at)
  }

  ghost predicate NodeIs(ram: seq<Word>, nodes: seq<Node>, i: nat)
    requires IsRam(ram) && i < |nodes|
  {
    && nodes[i].at < WORDS && |nodes[i].words| < 256
    && (i + 1 < |nodes| ==> nodes[i + 1].at < WORDS)
    && HeaderIs(ram[nodes[i].at], |nodes[i].words|,
                if i + 1 < |nodes| then 4 * nodes[i + 1].at else TERMINATOR)
    && forall k :: 0 <= k < |nodes[i].words| ==> ram[NthAfter(nodes[i].at, k + 1)] == nodes[i].words[k]
  }

  function Ats(nodes: seq<Node>): (r: seq<nat>)
    ensures |r| == |nodes| && forall i :: 0 <= i < |nodes| ==> r[i] == nodes[i].at
  {
    if nodes == [] then [] else Ats(nodes[..|nodes| - 1]) + [nodes[|nodes| - 1].at]
  }

  /** What the list is meant to send. */
  function AllWords(nodes: seq<Node>): seq<Word> {
    if nodes == [] then [] else AllWords(nodes[..|nodes| - 1]) + nodes[|nodes| - 1].words
  }

  lemma HeaderFields(header: Word, n: nat, next: nat)
    requires n < 256 && HeaderIs(header, n, next) && (next < BYTES || next == TERMINATOR)
    ensures Count(header) == n && (IsEnd(header) <==> next == TERMINATOR)
    ensures next < BYTES ==> WordAt(header) == next / 4
  {
    Arith.QuotientUnique(header, 0x100_0000, n);
    if next < BYTES {
      Arith.QuotientUnique(header, 0x80_0000, 2 * n);
      Arith.QuotientUnique(header, BYTES, 8 * n);
    } else {
      Arith.QuotientUnique(header, 0x80_0000, 2 * n + 1);
    }
  }

  lemma {:induction false} PacketIs(ram: seq<Word>, at: nat, words: seq<Word>, n: nat)
    requires IsRam(ram) && n <= |words| && forall k :: 0 <= k < |words| ==> ram[NthAfter(at, k + 1)] == words[k]
    ensures Packet(ram, at, n) == words[..n]
  {
    if n > 0 {
      PacketIs(ram, at, words, n - 1);
      assert ram[NthAfter(at, n - 1 + 1)] == words[n - 1];
    }
  }

  lemma NodeRead(ram: seq<Word>, nodes: seq<Node>, i: nat)
    requires IsRam(ram) && i < |nodes| && NodeIs(ram, nodes, i)
    ensures var header := ram[nodes[i].at];
            && (IsEnd(header) <==> i + 1 == |nodes|)
            && (i + 1 < |nodes| ==> WordAt(header) == nodes[i + 1].at)
            && Packet(ram, nodes[i].at, Count(header)) == nodes[i].words
  {
    var words := nodes[i].words;
    HeaderFields(ram[nodes[i].at], |words|, if i + 1 < |nodes| then 4 * nodes[i + 1].at else TERMINATOR);
    PacketIs(ram, nodes[i].at, words, |words|);
    assert words[..|words|] == words;
  }

  lemma {:induction false} NodesSent(ram: seq<Word>, nodes: seq<Node>, n: nat)
    requires IsRam(ram) && n <= |nodes| && forall i :: 0 <= i < |nodes| ==> NodeIs(ram, nodes, i)
    requires forall i :: 0 <= i < |nodes| ==> nodes[i].at < WORDS
    ensures Packets(ram, Ats(nodes[..n])) == AllWords(nodes[..n])
  {
    if n > 0 {
      NodesSent(ram, nodes, n - 1);
      NodeRead(ram, nodes, n - 1);
      OneNodeMore(nodes, n - 1);
      PacketsOneMore(ram, Ats(nodes[..n - 1]), nodes[n - 1].at);
    }
  }

  lemma OneNodeMore(nodes: seq<Node>, n: nat)
    requires n < |nodes|
    ensures Ats(nodes[..n + 1]) == Ats(nodes[..n]) + [nodes[n].at]
    ensures AllWords(nodes[..n + 1]) == AllWords(nodes[..n]) + nodes[n].words
  {
    assert nodes[..n + 1][..n] == nodes[..n];
  }

  lemma ListLinked(ram: seq<Word>, nodes: seq<Node>)
    requires IsRam(ram) && LaidOut(ram, nodes)
    ensures Linked(ram, Ats(nodes))
  {
    var s := Ats(nodes);
    forall i | 0 <= i < |s|
      ensures s[i] < WORDS
    {
      assert NodeIs(ram, nodes, i);
    }
    forall i | 0 < i < |s|
      ensures Follows(ram, s, i)
    {
      assert NodeIs(ram, nodes, i - 1);
      NodeRead(ram, nodes, i - 1);
    }
  }

  lemma ListIsWalk(ram: seq<Word>, nodes: seq<Node>)
    requires IsRam(ram) && LaidOut(ram, nodes)
    ensures IsWalk(ram, nodes[0].at, Ats(nodes))
  {
    ListLinked(ram, nodes);
    assert NodeIs(ram, nodes, |nodes| - 1);
    NodeRead(ram, nodes, |nodes| - 1);
  }

  /** A transfer of a list that has been laid out in memory, wherever its packets lie, sends exactly their words, in the
      order of the list. */
  lemma LaidOutListSends(ram: seq<Word>, nodes: seq<Node>, headers: seq<nat>)
    requires IsRam(ram) && LaidOut(ram, nodes) && IsWalk(ram, nodes[0].at, headers)
    ensures headers == Ats(nodes) && Packets(ram, headers) == AllWords(nodes)
  {
    ListIsWalk(ram, nodes);
    WalkUnique(ram, nodes[0].at, headers, Ats(nodes));
    forall i | 0 <= i < |nodes|
      ensures nodes[i].at < WORDS
    {
      assert NodeIs(ram, nodes, i);
    }
    NodesSent(ram, nodes, |nodes|);
    assert nodes[..|nodes|] == nodes;
  }
}
