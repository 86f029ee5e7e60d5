/** The frames of the packet buffer: the free stack (include/common/xsk_user_helpers.c), and the
    receive path that moves them through the fill and receive rings (dbr/dbr.c). */
module FramePool {
  import opened Bits
  import opened XskRing

  const NUM_FRAMES: nat := 0x20000
  const FRAME_SIZE: nat := 4096
  const INVALID_UMEM_FRAME: nat := 0xffff_ffff_ffff_ffff
  const RX_BATCH_SIZE: nat := 64
  const RING_BITS: nat := 11
  const RING_SIZE: nat := 2048

  /** A receive descriptor: an address inside some frame, and a length. */
  datatype Desc = Desc(addr: nat, len: nat)

  /** The frame an address lies in. */
  function Chunk(addr: nat): nat {
    addr / FRAME_SIZE
  }

  ghost function Chunks(addrs: seq<nat>): (m: multiset<nat>)
    ensures |m| == |addrs|
  {
    if addrs == [] then multiset{} else Chunks(addrs[..|addrs| - 1]) + multiset{Chunk(addrs[|addrs| - 1])}
  }

  function Addrs(descs: seq<Desc>): (a: seq<nat>)
    ensures |a| == |descs| && forall i :: 0 <= i < |a| ==> a[i] == descs[i].addr
  {
    seq(|descs|, i requires 0 <= i < |descs| => descs[i].addr)
  }

  lemma AddrsPush(descs: seq<Desc>, d: Desc)
    ensures Addrs(descs + [d]) == Addrs(descs) + [d.addr]
  {
  }

  lemma AddrsPop(descs: seq<Desc>)
    requires descs != []
    ensures Chunks(Addrs(descs)) == multiset{Chunk(descs[0].addr)} + Chunks(Addrs(descs[1..]))
  {
    assert Addrs(descs)[1..] == Addrs(descs[1..]);
    ChunksPop(Addrs(descs));
  }

  lemma ChunksEmpty()
    ensures Chunks([]) == multiset{}
  {
  }

  lemma ChunksPush(s: seq<nat>, x: nat)
    ensures Chunks(s + [x]) == Chunks(s) + multiset{Chunk(x)}
  {
    assert (s + [x])[..|s|] == s;
  }

  lemma {:induction false} ChunksJoin(s: seq<nat>, t: seq<nat>)
    ensures Chunks(s + t) == Chunks(s) + Chunks(t)
    decreases |t|
  {
    if t == [] {
      assert s + t == s;
    } else {
      var u, x := t[..|t| - 1], t[|t| - 1];
      assert s + t == (s + u) + [x] && t == u + [x];
      ChunksJoin(s, u);
      ChunksPush(s + u, x);
      ChunksPush(u, x);
    }
  }

  /** Taking the front entry off a queue. */
  lemma ChunksPop(s: seq<nat>)
    requires s != []
    ensures Chunks(s) == multiset{Chunk(s[0])} + Chunks(s[1..])
  {
    assert s == [s[0]] + s[1..];
    ChunksJoin([s[0]], s[1..]);
    assert [s[0]][..0] == [];
    assert Chunks([s[0]]) == multiset{Chunk(s[0])};
  }

  /** What is popped off the stack and what stays on it make up the stack. */
  lemma {:induction false} ChunksSplit(stack: seq<nat>, popped: seq<nat>)
    requires |popped| <= |stack|
    requires forall i :: 0 <= i < |popped| ==> popped[i] == stack[|stack| - 1 - i]
    ensures Chunks(stack) == Chunks(stack[..|stack| - |popped|]) + Chunks(popped)
    decreases |popped|
  {
    hide Chunks;
    if popped == [] {
      ChunksEmpty();
      assert stack[..|stack|] == stack;
    } else {
      var rest, x := popped[..|popped| - 1], popped[|popped| - 1];
      ChunksSplit(stack, rest);
      var lower := stack[..|stack| - |popped|];
      assert stack[..|stack| - |rest|] == lower + [x] && popped == rest + [x];
      ChunksPush(lower, x);
      ChunksPush(rest, x);
    }
  }

  /** Every frame of the buffer, once. */
  ghost function Everything(n: nat): (m: multiset<nat>)
    ensures |m| == n
    ensures forall c: nat :: m[c] == if c < n then 1 else 0
  {
    if n == 0 then multiset{} else Everything(n - 1) + multiset{n - 1}
  }

  /** The frames in each of the five places a frame can be: the free stack, the fill ring, the
      kernel, the receive ring, and retired. */
  ghost function Total(stack: seq<nat>, fill: seq<nat>, kernel: multiset<nat>, rx: seq<Desc>, retired: multiset<nat>): multiset<nat> {
    Chunks(stack) + Chunks(fill) + kernel + Chunks(Addrs(rx)) + retired
  }

  /** What conservation means for one frame: it is in exactly one of the five places, once. */
  lemma ExactlyOnePlace(stack: seq<nat>, fill: seq<nat>, kernel: multiset<nat>, rx: seq<Desc>, retired: multiset<nat>, c: nat)
    requires Total(stack, fill, kernel, rx, retired) == Everything(NUM_FRAMES) && c < NUM_FRAMES
    ensures Chunks(stack)[c] + Chunks(fill)[c] + kernel[c] + Chunks(Addrs(rx))[c] + retired[c] == 1
  {
    hide Chunks, Addrs, Everything;
    assert Everything(NUM_FRAMES)[c] == 1;
  }

  lemma StackOnly(stack: seq<nat>)
    ensures Total(stack, [], multiset{}, [], multiset{}) == Chunks(stack)
  {
    assert Addrs([]) == [];
  }

  lemma TakeMoves(stack: seq<nat>, fill: seq<nat>, kernel: multiset<nat>, rx: seq<Desc>, retired: multiset<nat>)
    requires fill != []
    ensures Total(stack, fill[1..], kernel + multiset{Chunk(fill[0])}, rx, retired) == Total(stack, fill, kernel, rx, retired)
  {
    hide Chunks, Addrs, Chunk;
    ChunksPop(fill);
  }

  lemma PostMoves(stack: seq<nat>, fill: seq<nat>, kernel: multiset<nat>, rx: seq<Desc>, retired: multiset<nat>, d: Desc)
    requires Chunk(d.addr) in kernel
    ensures Total(stack, fill, kernel - multiset{Chunk(d.addr)}, rx + [d], retired) == Total(stack, fill, kernel, rx, retired)
  {
    hide Chunks, Addrs, Chunk;
    AddrsPush(rx, d);
    ChunksPush(Addrs(rx), d.addr);
  }

  lemma ProcessMoves(stack: seq<nat>, fill: seq<nat>, kernel: multiset<nat>, rx: seq<Desc>, retired: multiset<nat>)
    requires rx != []
    ensures Total(stack, fill, kernel, rx[1..], retired + multiset{Chunk(rx[0].addr)}) == Total(stack, fill, kernel, rx, retired)
    ensures Total(stack + [rx[0].addr], fill, kernel, rx[1..], retired) == Total(stack, fill, kernel, rx, retired)
  {
    hide Chunks, Addrs, Chunk;
    AddrsPop(rx);
    ChunksPush(stack, rx[0].addr);
  }

  lemma RestockMoves(stack: seq<nat>, fill: seq<nat>, kernel: multiset<nat>, rx: seq<Desc>, retired: multiset<nat>, posted: seq<nat>)
    requires |posted| <= |stack|
    requires forall i :: 0 <= i < |posted| ==> posted[i] == stack[|stack| - 1 - i]
    ensures Total(stack[..|stack| - |posted|], fill + posted, kernel, rx, retired) == Total(stack, fill, kernel, rx, retired)
  {
    hide Chunks, Addrs, Chunk;
    ChunksSplit(stack, posted);
    ChunksJoin(fill, posted);
  }

  /** The frames of waiting packets have room on the stack. */
  lemma StackHasRoom(stack: seq<nat>, fill: seq<nat>, kernel: multiset<nat>, rx: seq<Desc>, retired: multiset<nat>)
    requires Total(stack, fill, kernel, rx, retired) == Everything(NUM_FRAMES)
    ensures |stack| + |rx| <= NUM_FRAMES && |retired| <= NUM_FRAMES
  {
    hide Chunks, Addrs, Chunk, Everything;
    assert |Total(stack, fill, kernel, rx, retired)| == NUM_FRAMES;
  }

  /** No frame of a conserved pool is INVALID_UMEM_FRAME. */
  lemma {:induction false} StackIsReal(stack: seq<nat>, i: nat)
    requires i < |stack| && Chunks(stack) <= Everything(NUM_FRAMES)
    ensures stack[i] != INVALID_UMEM_FRAME
  {
    hide Everything;
    if i == |stack| - 1 {
      assert Chunk(stack[i]) in Chunks(stack);
      assert Everything(NUM_FRAMES)[Chunk(stack[i])] == 1;
    } else {
      StackIsReal(stack[..|stack| - 1], i);
    }
  }

  lemma RealStack(stack: seq<nat>, fill: seq<nat>, kernel: multiset<nat>, rx: seq<Desc>, retired: multiset<nat>)
    requires Total(stack, fill, kernel, rx, retired) == Everything(NUM_FRAMES)
    ensures forall i :: 0 <= i < |stack| ==> stack[i] != INVALID_UMEM_FRAME
  {
    hide Chunks, Everything, Addrs;
    forall i | 0 <= i < |stack|
      ensures stack[i] != INVALID_UMEM_FRAME
    {
      StackIsReal(stack, i);
    }
  }

  lemma EverythingNext(n: nat)
    ensures Everything(0) == multiset{} && Everything(n + 1) == Everything(n) + multiset{n}
  {
  }

  lemma RingSize()
    ensures Pow2(RING_BITS) == RING_SIZE
  {
    Pow2Splits(5, 11);
  }

  // ----- What the calls and the kernel do to the pool -----

  /** A step of the kernel, or a call of the receive path; `processed` says which packets of its
      batch the call can process. */
  datatype Step = Take | Post(desc: Desc) | Call(processed: nat -> bool)

  /** Where the frames are. `known` is the number of free entries of the fill ring that the receive
      path knows of, `seen` the number of waiting packets that it knows of. */
  datatype Pool = Pool(stack: seq<nat>, fill: seq<nat>, known: nat, kernel: multiset<nat>, rx: seq<Desc>, seen: nat, retired: multiset<nat>)

  ghost function Held(p: Pool): multiset<nat> {
    Total(p.stack, p.fill, p.kernel, p.rx, p.retired)
  }

  /** A call is going to post more frames than are free: there are packets to receive, and either it
      already knows of more free entries than free frames, or it knows of fewer and finds more. */
  ghost predicate Overdraws(p: Pool) {
    p.rx != [] && (p.known > |p.stack| || p.known < |p.stack| < RING_SIZE - |p.fill|)
  }

  /** How many frames a call posts. */
  ghost function Stock(p: Pool): nat {
    StockOf(p.known, |p.stack|, |p.fill|)
  }

  /** xsk_prod_nb_free asked for the number of free frames. */
  ghost function StockOf(known: nat, free: nat, posted: nat): nat {
    if known >= free then known else if posted <= RING_SIZE then RING_SIZE - posted else 0
  }

  lemma OverdrawsIffStock(p: Pool)
    ensures Overdraws(p) <==> p.rx != [] && Stock(p) > |p.stack|
  {
  }

  /** As long as a ring full of frames is free, no call overdraws. */
  lemma RingfulIsEnough(p: Pool)
    requires p.known <= RING_SIZE
    ensures |p.stack| >= RING_SIZE ==> !Overdraws(p)
  {
  }

  /** The number of packets a call takes. */
  ghost function BatchOf(p: Pool): (n: nat) {
    Min(RX_BATCH_SIZE, if p.seen == 0 then |p.rx| else p.seen)
  }

  /** Frame i popped off a stack: from the top down, and INVALID_UMEM_FRAME below the bottom. */
  ghost function Popped(stack: seq<nat>, i: nat): nat {
    if i < |stack| then stack[|stack| - 1 - i] else INVALID_UMEM_FRAME
  }

  ghost function Top(stack: seq<nat>, n: nat): (s: seq<nat>)
    ensures |s| == n && forall i :: 0 <= i < n ==> s[i] == Popped(stack, i)
  {
    seq(n, i requires 0 <= i => Popped(stack, i))
  }

  /** The addresses freed because their packet cannot be processed. */
  ghost function Freed(descs: seq<Desc>, processed: nat -> bool): (s: seq<nat>)
    ensures |s| <= |descs|
  {
    if descs == [] then []
    else
      var last := |descs| - 1;
      if processed(last) then Freed(descs[..last], processed) else Freed(descs[..last], processed) + [descs[last].addr]
  }

  /** The frames of the packets processed; the code never frees them. */
  ghost function Used(descs: seq<Desc>, processed: nat -> bool): multiset<nat> {
    if descs == [] then multiset{}
    else
      var last := |descs| - 1;
      if processed(last) then Used(descs[..last], processed) + multiset{Chunk(descs[last].addr)} else Used(descs[..last], processed)
  }

  /** A call that does not overdraw: it posts frames off the stack, then processes its batch. */
  ghost function Called(p: Pool, processed: nat -> bool): Pool {
    var n := BatchOf(p);
    if p.rx == [] || n > |p.rx| || Stock(p) > |p.stack| then p
    else
      Pool(p.stack[..|p.stack| - Stock(p)] + Freed(p.rx[..n], processed), p.fill + Top(p.stack, Stock(p)), 0, p.kernel,
           p.rx[n..], (if p.seen == 0 then |p.rx| else p.seen) - n, p.retired + Used(p.rx[..n], processed))
  }

  ghost function After(p: Pool, step: Step): Pool {
    match step
    case Take =>
      if p.fill == [] then p else p.(fill := p.fill[1..], kernel := p.kernel + multiset{Chunk(p.fill[0])})
    case Post(desc) =>
      if Chunk(desc.addr) in p.kernel && |p.rx| < RING_SIZE
      then p.(kernel := p.kernel - multiset{Chunk(desc.addr)}, rx := p.rx + [desc])
      else p
    case Call(processed) => Called(p, processed)
  }

  /** The set-up: all frames on the stack, and a ring full of them posted. */
  ghost function Initial(): Pool {
    var all := seq(NUM_FRAMES, i => i * FRAME_SIZE);
    Pool(all[..NUM_FRAMES - RING_SIZE], Top(all, RING_SIZE), 0, multiset{}, [], 0, multiset{})
  }

  ghost function Run(p: Pool, steps: seq<Step>): Pool {
    if steps == [] then p else After(Run(p, steps[..|steps| - 1]), steps[|steps| - 1])
  }

  /** No call of a run overdraws. */
  ghost predicate Enough(p: Pool, steps: seq<Step>) {
    forall i :: 0 <= i < |steps| && steps[i].Call? ==> !Overdraws(Run(p, steps[..i]))
  }

  lemma IsInitial(p: Pool, all: seq<nat>)
    requires |all| == NUM_FRAMES && forall i :: 0 <= i < NUM_FRAMES ==> all[i] == i * FRAME_SIZE
    requires p.stack == all[..NUM_FRAMES - RING_SIZE] && p.fill == Top(all, RING_SIZE) && p.rx == []
    requires p.known == p.seen == 0 && p.kernel == p.retired == multiset{}
    ensures p == Initial()
  {
    hide Top;
    assert all == seq(NUM_FRAMES, i => i * FRAME_SIZE);
  }

  lemma InitialHeld(all: seq<nat>, posted: seq<nat>)
    requires |all| == NUM_FRAMES && Chunks(all) == Everything(NUM_FRAMES) && |posted| == RING_SIZE
    requires forall i :: 0 <= i < RING_SIZE ==> posted[i] == all[|all| - 1 - i]
    ensures Total(all[..NUM_FRAMES - RING_SIZE], posted, multiset{}, [], multiset{}) == Everything(NUM_FRAMES)
  {
    hide Everything, Chunks, Total;
    StackOnly(all);
    RestockMoves(all, [], multiset{}, [], multiset{}, posted);
    assert [] + posted == posted;
  }

  lemma IsCalled(p: Pool, processed: nat -> bool, n: nat, q: Pool)
    requires p.rx != [] && n == BatchOf(p) <= |p.rx| && Stock(p) <= |p.stack|
    requires q.stack == p.stack[..|p.stack| - Stock(p)] + Freed(p.rx[..n], processed) && q.fill == p.fill + Top(p.stack, Stock(p))
    requires q.known == 0 && q.kernel == p.kernel && q.rx == p.rx[n..] && q.seen == (if p.seen == 0 then |p.rx| else p.seen) - n
    requires q.retired == p.retired + Used(p.rx[..n], processed)
    ensures q == After(p, Call(processed))
  {
    hide Top, Freed, Used, Stock, BatchOf;
  }

  /** A call that does not overdraw, in numbers: it takes at most 64 packets, all those it knows of or, if
      it knows of none, all there are; it posts as many frames as entries it knows of if these are
      enough for all free frames, and else a ring full; the top of the stack goes first. */
  lemma CallMeans(p: Pool, processed: nat -> bool)
    requires p.rx != [] && p.seen <= |p.rx| && |p.fill| <= 2048 && !Overdraws(p)
    ensures var q := After(p, Call(processed));
            var waiting := if p.seen == 0 then |p.rx| else p.seen;
            var n := if waiting < 64 then waiting else 64;
            var stock := if p.known >= |p.stack| then p.known else 2048 - |p.fill|;
            && q.rx == p.rx[n..] && q.seen == waiting - n && q.known == 0 && q.kernel == p.kernel
            && stock <= |p.stack| && |q.fill| == |p.fill| + stock && p.fill <= q.fill
            && (forall a :: |p.fill| <= a < |q.fill| ==> q.fill[a] == p.stack[|p.stack| - 1 - (a - |p.fill|)])
            && p.stack[..|p.stack| - stock] <= q.stack
            && |q.stack| + |q.retired| == |p.stack| - stock + |p.retired| + n
            && ((forall i :: 0 <= i < n ==> processed(i)) ==> |q.stack| == |p.stack| - stock)
            && ((forall i :: 0 <= i < n ==> !processed(i)) ==> q.retired == p.retired)
  {
    hide Freed, Used;
    OverdrawsIffStock(p);
    var n := BatchOf(p);
    FreedCounts(p.rx[..n], processed);
  }

  lemma {:induction false} FreedCounts(descs: seq<Desc>, processed: nat -> bool)
    ensures |Freed(descs, processed)| + |Used(descs, processed)| == |descs|
    ensures (forall i :: 0 <= i < |descs| ==> processed(i)) ==> Freed(descs, processed) == []
    ensures (forall i :: 0 <= i < |descs| ==> !processed(i)) ==> Used(descs, processed) == multiset{}
  {
    if descs != [] {
      FreedCounts(descs[..|descs| - 1], processed);
    }
  }

  lemma IdleCall(p: Pool, processed: nat -> bool)
    requires p.rx == []
    ensures After(p, Call(processed)) == p && !Overdraws(p)
  {
  }

  lemma IsTop(stack: seq<nat>, posted: seq<nat>, n: nat)
    requires |posted| == n && forall i :: 0 <= i < n ==> posted[i] == Popped(stack, i)
    ensures posted == Top(stack, n)
    ensures n <= |stack| ==> forall i :: 0 <= i < n ==> posted[i] == stack[|stack| - 1 - i]
  {
  }

  /** INVALID_UMEM_FRAME is among the frames popped exactly when the stack runs out. */
  lemma TopIsReal(stack: seq<nat>, n: nat)
    requires forall i :: 0 <= i < |stack| ==> stack[i] != INVALID_UMEM_FRAME
    ensures INVALID_UMEM_FRAME in Top(stack, n) <==> n > |stack|
  {
    if n > |stack| {
      assert Top(stack, n)[|stack|] == INVALID_UMEM_FRAME;
    }
  }

  // ----- Conservation -----

  lemma FreedNext(descs: seq<Desc>, processed: nat -> bool, i: nat)
    requires i < |descs|
    ensures var d := descs[i];
            && Freed(descs[..i + 1], processed) == (if processed(i) then Freed(descs[..i], processed) else Freed(descs[..i], processed) + [d.addr])
            && Used(descs[..i + 1], processed) == (if processed(i) then Used(descs[..i], processed) + multiset{Chunk(d.addr)} else Used(descs[..i], processed))
  {
    assert descs[..i + 1][..i] == descs[..i];
  }

  /** Dealing with one more packet of a batch. */
  lemma BatchNext(stack: seq<nat>, retired: multiset<nat>, descs: seq<Desc>, processed: nat -> bool, i: nat)
    requires i < |descs|
    ensures processed(i) ==> stack + Freed(descs[..i + 1], processed) == stack + Freed(descs[..i], processed)
                             && retired + Used(descs[..i + 1], processed) == retired + Used(descs[..i], processed) + multiset{Chunk(descs[i].addr)}
    ensures !processed(i) ==> stack + Freed(descs[..i + 1], processed) == stack + Freed(descs[..i], processed) + [descs[i].addr]
                              && retired + Used(descs[..i + 1], processed) == retired + Used(descs[..i], processed)
  {
    hide Freed, Used, Chunk;
    FreedNext(descs, processed, i);
  }

  /** Processing a batch moves its frames to the stack or retires them. */
  lemma {:induction false} BatchMoves(stack: seq<nat>, fill: seq<nat>, kernel: multiset<nat>, rx: seq<Desc>, retired: multiset<nat>, processed: nat -> bool, n: nat)
    requires n <= |rx|
    ensures Total(stack + Freed(rx[..n], processed), fill, kernel, rx[n..], retired + Used(rx[..n], processed))
         == Total(stack, fill, kernel, rx, retired)
    decreases n
  {
    hide Total, Freed, Used, Chunk;
    if n == 0 {
      assert rx[..0] == [] && rx[0..] == rx;
      NothingFreed(processed);
      assert stack + [] == stack && retired + multiset{} == retired;
    } else {
      BatchMoves(stack, fill, kernel, rx, retired, processed, n - 1);
      FreedNext(rx, processed, n - 1);
      var s, u, rest := stack + Freed(rx[..n - 1], processed), retired + Used(rx[..n - 1], processed), rx[n - 1..];
      ProcessMoves(s, fill, kernel, rest, u);
      assert rest[1..] == rx[n..] && rest[0] == rx[n - 1];
      if processed(n - 1) {
        assert u + multiset{Chunk(rest[0].addr)} == retired + Used(rx[..n], processed);
      } else {
        assert s + [rest[0].addr] == stack + Freed(rx[..n], processed);
      }
    }
  }

  lemma NothingFreed(processed: nat -> bool)
    ensures Freed([], processed) == [] && Used([], processed) == multiset{}
  {
  }

  /** Every step keeps every frame in exactly one place. */
  lemma AfterConserves(p: Pool, step: Step)
    requires Held(p) == Everything(NUM_FRAMES)
    ensures Held(After(p, step)) == Everything(NUM_FRAMES)
  {
    hide Total, Everything, Chunk, Freed, Used, Popped;
    match step {
      case Take =>
        if p.fill != [] {
          TakeMoves(p.stack, p.fill, p.kernel, p.rx, p.retired);
        }
      case Post(desc) =>
        if Chunk(desc.addr) in p.kernel {
          PostMoves(p.stack, p.fill, p.kernel, p.rx, p.retired, desc);
        }
      case Call(processed) =>
        CallConserves(p, processed);
    }
  }

  lemma CallConserves(p: Pool, processed: nat -> bool)
    requires Held(p) == Everything(NUM_FRAMES)
    ensures Held(Called(p, processed)) == Everything(NUM_FRAMES)
  {
    hide Total, Everything, Chunk, Freed, Used;
    var n := BatchOf(p);
    if p.rx != [] && n <= |p.rx| && Stock(p) <= |p.stack| {
      var posted, rest := Top(p.stack, Stock(p)), p.stack[..|p.stack| - Stock(p)];
      RestockMoves(p.stack, p.fill, p.kernel, p.rx, p.retired, posted);
      BatchMoves(rest, p.fill + posted, p.kernel, p.rx, p.retired, processed, n);
    }
  }

  /** The loop that reserves again until the number granted is the number wanted, for as many turns
      as there is patience. It is not entered after a reservation that was granted, and never left
      after one that was refused: nothing makes room meanwhile. */
  method ReserveAgain(fill: Ring<nat>, stock: nat, recvd: nat, ret0: nat, idx0: nat, patience: nat) returns (ret: nat, idx: nat, turns: nat)
    requires fill.Valid()
    modifies fill`prodCachedCons, fill`prodCachedProd, fill`prodView, fill`reserved
    ensures fill.Valid() && turns <= patience && (turns < patience ==> ret == stock)
    ensures ret0 == stock ==> turns == 0 && ret == ret0 && idx == idx0 && unchanged(fill)
    ensures ret0 != stock && 0 < stock && stock > fill.size - (old(fill.reserved) - fill.released) ==> turns == patience
  {
    hide Slot, Pow2, Wrap, Ring.Valid;
    ret, idx, turns := ret0, idx0, 0;
    while ret != stock && turns < patience
      invariant fill.Valid() && turns <= patience && fill.reserved >= old(fill.reserved)
      invariant ret0 == stock ==> turns == 0 && ret == ret0 && idx == idx0 && unchanged(fill)
      invariant ret0 != stock && 0 < stock && stock > fill.size - (old(fill.reserved) - fill.released) ==> ret != stock
      decreases patience - turns
    {
      ret, idx := fill.Reserve(recvd);
      turns := turns + 1;
    }
  }

  class Socket {
    const frames: array<nat>
    var free: nat
    const fill: Ring<nat>
    const rx: Ring<Desc>
    var kernel: multiset<nat>   // frames the kernel holds, waiting for packets
    var retired: multiset<nat>  // frames whose packet was processed; the code never frees them

    ghost predicate Valid()
      reads this, frames, fill, fill.entries, rx, rx.entries
    {
      && frames.Length == NUM_FRAMES && free <= NUM_FRAMES && frames != fill.entries
      && fill.Valid() && rx.Valid() && fill.bits == rx.bits == RING_BITS
    }

    /** Where the frames are, as far as the receive path and the kernel are concerned. */
    ghost function View(): Pool
      requires Valid()
      reads this, frames, fill, fill.entries, rx, rx.entries
    {
      Pool(frames[..free], fill.Queue(0), fill.prodView + fill.size - fill.reserved, kernel, rx.Queue(0), rx.consView - rx.taken, retired)
    }

    /** Between calls nothing is reserved or taken. */
    ghost predicate Settled()
      reads this, fill, rx
    {
      && fill.reserved == |fill.submitted| && rx.reserved == |rx.submitted|
      && fill.taken == fill.released && rx.taken == rx.released
    }

    /** Between calls every frame is in exactly one place. */
    ghost predicate Conserved()
      reads this, frames, fill, fill.entries, rx, rx.entries
    {
      Valid() && Settled() && Held(View()) == Everything(NUM_FRAMES)
    }

    constructor ()
      ensures Valid() && free == 0 && kernel == retired == multiset{}
      ensures fill.submitted == [] && fill.reserved == fill.taken == fill.released == fill.prodView == 0
      ensures rx.submitted == [] && rx.reserved == rx.taken == rx.released == 0
      ensures fresh(frames) && fresh(fill) && fresh(fill.entries) && fresh(rx) && fresh(rx.entries)
    {
      frames := new nat[NUM_FRAMES];
      fill := new Ring<nat>(RING_BITS, 0);
      rx := new Ring<Desc>(RING_BITS, Desc(0, 0));
      free, kernel, retired := 0, multiset{}, multiset{};
    }

    /** The set-up of the free stack in xsk_configure_socket: frame i at address i * FRAME_SIZE. */
    method StackFrames()
      requires Valid()
      modifies frames, this`free
      ensures Valid() && free == NUM_FRAMES && Chunks(frames[..free]) == Everything(NUM_FRAMES)
      ensures forall i :: 0 <= i < NUM_FRAMES ==> frames[i] == i * FRAME_SIZE
    {
      hide Slot, Pow2, Wrap, Everything, Chunks;
      EverythingNext(0);
      ChunksEmpty();
      for i := 0 to NUM_FRAMES
        invariant Valid() && Chunks(frames[..i]) == Everything(i) && forall j :: 0 <= j < i ==> frames[j] == j * FRAME_SIZE
      {
        frames[i] := i * FRAME_SIZE;
        EverythingNext(i);
        assert frames[..i + 1] == frames[..i] + [i * FRAME_SIZE];
        ChunksPush(frames[..i], i * FRAME_SIZE);
      }
      free := NUM_FRAMES;
    }

    /** The rest of the set-up: post a ring full of frames. */
    method Configure()
      requires Valid() && kernel == retired == multiset{}
      requires fill.submitted == [] && fill.reserved == fill.taken == fill.released == fill.prodView == 0
      requires rx.submitted == [] && rx.reserved == rx.taken == rx.released == 0
      modifies this`free, frames, fill, fill.entries
      ensures Conserved() && View() == Initial()
    {
      hide Slot, Pow2, Wrap, Everything, Chunks, Total, Ring.Valid, Initial, Popped, Top;
      StackFrames();
      ghost var stack := frames[..free];
      var posted := PostRing();
      rx.Bounds();
      assert rx.Queue(0) == [];
      IsInitial(View(), stack);
      InitialHeld(stack, posted);
    }

    method PostRing() returns (posted: seq<nat>)
      requires Valid() && free == NUM_FRAMES && fill.submitted == [] && fill.reserved == fill.taken == fill.released == fill.prodView == 0
      modifies this`free, frames, fill, fill.entries
      ensures Valid() && fill.Queue(0) == posted == Top(old(frames[..free]), RING_SIZE) && |posted| == RING_SIZE
      ensures forall i :: 0 <= i < RING_SIZE ==> posted[i] == old(frames[free - 1 - i])
      ensures free == NUM_FRAMES - RING_SIZE && frames[..free] == old(frames[..free])[..free]
      ensures fill.reserved == |fill.submitted| == fill.prodView + fill.size && fill.taken == fill.released == 0
    {
      hide Slot, Pow2, Wrap, Ring.Valid, Popped, Top;
      fill.Bounds();
      RingSize();
      WrapZero();
      var n, idx := fill.Reserve(fill.size);
      ghost var stack := frames[..free];
      posted := Restock(fill.size, idx);
      fill.Bounds();
      IsTop(stack, posted, RING_SIZE);
      assert fill.Queue(0) == [] + posted;
    }

    /** xsk_alloc_umem_frame. */
    method Alloc() returns (frame: nat)
      requires Valid()
      modifies this`free, frames
      ensures Valid()
      ensures old(free) == 0 ==> frame == INVALID_UMEM_FRAME && free == 0
      ensures old(free) > 0 ==> free == old(free) - 1 && frame == old(frames[free - 1])
                                && frames[free] == INVALID_UMEM_FRAME
      ensures frames[..free] == old(frames[..free])[..free]
    {
      if free == 0 {
        return INVALID_UMEM_FRAME;
      }
      free := free - 1;
      frame := frames[free];
      frames[free] := INVALID_UMEM_FRAME;
    }

    /** xsk_free_umem_frame; the requires is its assertion. */
    method Free(frame: nat)
      requires Valid() && free < NUM_FRAMES
      modifies this`free, frames
      ensures Valid() && frames[..free] == old(frames[..free]) + [frame]
    {
      frames[free] := frame;
      free := free + 1;
    }

    /** Write frames off the stack into the `stock` reserved entries. */
    method FillEntries(stock: nat, idx0: nat) returns (posted: seq<nat>)
      requires Valid() && fill.reserved == |fill.submitted| + stock && idx0 == Wrap(|fill.submitted|)
      modifies this`free, frames, fill.entries
      ensures Valid() && |posted| == stock
      ensures free == if stock <= old(free) then old(free) - stock else 0
      ensures frames[..free] == old(frames[..free])[..free]
      ensures forall j :: 0 <= j < stock ==> posted[j] == Popped(old(frames[..free]), j)
      ensures forall a :: |fill.submitted| <= a < fill.reserved ==> fill.entries[Slot(a, RING_BITS)] == posted[a - |fill.submitted|]
    {
      hide Slot, Pow2, Wrap;
      posted := [];
      var idx := idx0;
      ghost var p := |fill.submitted|;
      for i := 0 to stock
        invariant Valid() && |posted| == i && idx == Wrap(p + i)
        invariant free == if i <= old(free) then old(free) - i else 0
        invariant frames[..free] == old(frames[..free])[..free]
        invariant forall j :: 0 <= j < i ==> posted[j] == Popped(old(frames[..free]), j)
        invariant forall a :: p <= a < p + i ==> fill.entries[Slot(a, RING_BITS)] == posted[a - p]
      {
        var frame := Alloc();
        fill.Write(idx, frame, p + i);
        WrapSum(p + i, 1);
        idx := Wrap(idx + 1);
        posted := posted + [frame];
      }
    }

    /** Fill `stock` reserved entries with frames off the stack and submit them. */
    method Restock(stock: nat, idx0: nat) returns (posted: seq<nat>)
      requires Valid() && fill.reserved == |fill.submitted| + stock && idx0 == Wrap(|fill.submitted|)
      modifies this`free, frames, fill`producer, fill`submitted, fill.entries
      ensures Valid() && fill.submitted == old(fill.submitted) + posted && |posted| == stock
      ensures free == if stock <= old(free) then old(free) - stock else 0
      ensures frames[..free] == old(frames[..free])[..free]
      ensures forall j :: 0 <= j < stock ==> posted[j] == Popped(old(frames[..free]), j)
    {
      hide Slot, Pow2, Wrap, Popped;
      posted := FillEntries(stock, idx0);
      fill.Submit(stock);
    }

    /** The kernel takes a frame off the fill ring. */
    method KernelTake()
      requires Conserved()
      modifies this`kernel, fill
      ensures Conserved() && View() == After(old(View()), Take)
    {
      hide Slot, Pow2, Wrap, Everything, Total, Ring.Valid, Chunk;
      AfterConserves(View(), Take);
      fill.Bounds();
      var n, idx := fill.Peek(1);
      if n > 0 {
        ghost var queue := fill.Queue(0);
        var frame := fill.Read(idx, fill.released);
        fill.Release(1);
        kernel := kernel + multiset{Chunk(frame)};
        assert fill.Queue(0) == queue[1..];
      }
    }

    /** The kernel hands over a packet in a frame it holds, if the receive ring has room. */
    method KernelPost(desc: Desc)
      requires Conserved()
      modifies this`kernel, rx, rx.entries
      ensures Conserved() && View() == After(old(View()), Post(desc))
    {
      hide Slot, Pow2, Wrap, Everything, Total, Ring.Valid, Chunk;
      AfterConserves(View(), Post(desc));
      if Chunk(desc.addr) in kernel {
        rx.Bounds();
        RingSize();
        var n, idx := rx.Reserve(1);
        if n > 0 {
          ghost var before, queue := rx.submitted, rx.Queue(0);
          rx.Write(idx, desc, |rx.submitted|);
          rx.Submit(1);
          assert rx.submitted == before + [desc];
          kernel := kernel - multiset{Chunk(desc.addr)};
          assert rx.Queue(0) == queue + [desc];
        }
      }
    }

    /** Process the i-th descriptor taken: a packet that cannot be processed frees its frame. */
    method ProcessOne(ghost i: nat, idx: nat, processed: bool)
      requires Valid() && rx.released + i < rx.taken <= |rx.submitted| && idx == Wrap(rx.released + i) && free < NUM_FRAMES
      modifies this`free, this`retired, frames
      ensures Valid() && free == old(free) + if processed then 0 else 1
      ensures var d := rx.submitted[rx.released + i];
              if processed then frames[..free] == old(frames[..free]) && retired == old(retired) + multiset{Chunk(d.addr)}
              else frames[..free] == old(frames[..free]) + [d.addr] && retired == old(retired)
    {
      hide Slot, Pow2, Wrap, Ring.Valid, Chunk;
      var desc := rx.Read(idx, rx.released + i);
      if processed {
        retired := retired + multiset{Chunk(desc.addr)};
      } else {
        Free(desc.addr);
      }
    }

    /** Process the descriptors taken. */
    method ProcessAll(recvd: nat, idx0: nat, processed: nat -> bool)
      requires Valid() && rx.released + recvd == rx.taken <= |rx.submitted| && idx0 == Wrap(rx.released) && free + recvd <= NUM_FRAMES
      modifies this`free, this`retired, frames
      ensures Valid()
      ensures recvd <= |rx.Queue(0)| && frames[..free] == old(frames[..free]) + Freed(rx.Queue(0)[..recvd], processed)
      ensures retired == old(retired) + Used(rx.Queue(0)[..recvd], processed)
    {
      hide Slot, Pow2, Wrap, Ring.Valid, Freed, Used, Chunk;
      var idx := idx0;
      ghost var queue := rx.Queue(0);
      NothingFreed(processed);
      assert queue[..0] == [];
      for i := 0 to recvd
        invariant Valid() && idx == Wrap(rx.released + i) && free + recvd - i <= NUM_FRAMES
        invariant frames[..free] == old(frames[..free]) + Freed(queue[..i], processed)
        invariant retired == old(retired) + Used(queue[..i], processed)
      {
        BatchNext(old(frames[..free]), old(retired), queue, processed, i);
        ProcessOne(i, idx, processed(i));
        WrapSum(rx.released + i, 1);
        idx := Wrap(idx + 1);
      }
    }

    /** Post as many frames as the fill ring takes. However long the loop that reserves again may run,
        it is not entered. */
    method Refill(recvd: nat) returns (stock: nat, posted: seq<nat>, retried: bool)
      requires Valid() && fill.reserved == |fill.submitted| && fill.taken == fill.released
      modifies this`free, frames, fill, fill.entries
      ensures Valid() && fill.reserved == |fill.submitted| && fill.taken == fill.released
      ensures stock == StockOf(old(fill.prodView + fill.size - fill.reserved), old(free), old(|fill.Queue(0)|)) && posted == Top(old(frames[..free]), stock) && !retried
      ensures fill.Queue(0) == old(fill.Queue(0)) + posted && fill.prodView + fill.size == fill.reserved
      ensures free == if stock <= old(free) then old(free) - stock else 0
      ensures frames[..free] == old(frames[..free])[..free]
    {
      hide Slot, Pow2, Wrap, Ring.Valid;
      posted, retried := [], false;
      fill.Bounds();
      RingSize();
      ghost var stack, queue, before := frames[..free], fill.Queue(0), fill.submitted;
      stock := fill.NbFree(free);
      fill.Bounds();
      if stock > 0 {
        var ret, idx := fill.Reserve(stock);
        var patience: nat := *;
        var turns;
        ret, idx, turns := ReserveAgain(fill, stock, recvd, ret, idx, patience);
        retried := turns > 0;
        posted := Restock(stock, idx);
        fill.Bounds();
      }
      assert fill.Queue(0) == queue + posted;
    }

    /** The receive path on a batch already taken off the receive ring. */
    method Serve(recvd: nat, idx: nat, processed: nat -> bool) returns (stock: nat, posted: seq<nat>, retried: bool)
      requires Valid() && fill.reserved == |fill.submitted| && fill.taken == fill.released && rx.reserved == |rx.submitted|
      requires 0 < recvd <= |rx.Queue(0)| && rx.released + recvd == rx.taken && idx == Wrap(rx.released) && free + recvd <= NUM_FRAMES
      modifies this`free, this`retired, frames, fill, fill.entries, rx
      ensures Valid() && Settled() && !retried
      ensures stock == StockOf(old(fill.prodView + fill.size - fill.reserved), old(free), old(|fill.Queue(0)|)) && posted == Top(old(frames[..free]), stock)
      ensures fill.Queue(0) == old(fill.Queue(0)) + posted && fill.prodView + fill.size == fill.reserved
      ensures rx.Queue(0) == old(rx.Queue(0))[recvd..] && rx.consView == old(rx.consView) && rx.taken == old(rx.taken)
      ensures stock <= old(free) ==> frames[..free] == old(frames[..free])[..old(free) - stock] + Freed(old(rx.Queue(0))[..recvd], processed)
      ensures retired == old(retired) + Used(old(rx.Queue(0))[..recvd], processed)
    {
      hide Slot, Pow2, Wrap, Ring.Valid, Freed, Used, Popped, Top, StockOf;
      rx.Bounds();
      ghost var queue := rx.Queue(0);
      stock, posted, retried := Refill(recvd);
      ProcessAll(recvd, idx, processed);
      rx.Release(recvd);
      assert rx.Queue(0) == queue[recvd..];
    }

    /** The receive path. INVALID_UMEM_FRAME is posted exactly when the call overdraws, which can be
        told before the call. Otherwise every frame stays in exactly one place. The reservation
        never has to be retried. */
    method Receive(processed: nat -> bool) returns (posted: seq<nat>, retried: bool)
      requires Conserved()
      modifies this`free, this`retired, frames, fill, fill.entries, rx
      ensures !retried
      ensures posted == if old(View()).rx == [] then [] else Top(old(frames[..free]), Stock(old(View())))
      ensures INVALID_UMEM_FRAME in posted <==> Overdraws(old(View()))
      ensures old(free) >= RING_SIZE ==> INVALID_UMEM_FRAME !in posted
      ensures !Overdraws(old(View())) ==> Conserved() && View() == After(old(View()), Call(processed))
    {
      hide Slot, Pow2, Wrap, Everything, Total, Ring.Valid, Freed, Used, After, Popped, Top, StockOf, Overdraws;
      posted, retried := [], false;
      ghost var view := View();
      AfterConserves(view, Call(processed));
      OverdrawsIffStock(view);
      fill.Bounds();
      RingSize();
      RingfulIsEnough(view);
      rx.Bounds();
      var recvd, idx := rx.Peek(RX_BATCH_SIZE);
      rx.Bounds();
      if recvd == 0 {
        IdleCall(view, processed);
        return;
      }
      RealStack(view.stack, view.fill, view.kernel, view.rx, view.retired);
      StackHasRoom(view.stack, view.fill, view.kernel, view.rx, view.retired);
      var stock;
      stock, posted, retried := Serve(recvd, idx, processed);
      TopIsReal(view.stack, stock);
      if stock <= |view.stack| {
        IsCalled(view, processed, recvd, View());
      }
    }
  }

  // ----- Whole lifetimes -----

  lemma RunPush(p: Pool, steps: seq<Step>, k: nat)
    requires k < |steps|
    ensures Run(p, steps[..k + 1]) == After(Run(p, steps[..k]), steps[k])
  {
    assert steps[..k + 1][..k] == steps[..k];
  }

  /** Over any sequence of kernel steps and calls: as long as no call overdraws, the frames are where
      the steps say, every frame is in exactly one of the five places, and so no more than NUM_FRAMES
      packets are ever processed. The first call that overdraws posts INVALID_UMEM_FRAME. */
  method Lifetime(steps: seq<Step>)
      returns (stack: seq<nat>, fill: seq<nat>, kernel: multiset<nat>, rx: seq<Desc>, retired: multiset<nat>, enough: bool, posted: seq<nat>)
    ensures enough <==> Enough(Initial(), steps)
    ensures enough ==>
              var p := Run(Initial(), steps);
              stack == p.stack && fill == p.fill && kernel == p.kernel && rx == p.rx && retired == p.retired
    ensures enough ==> Total(stack, fill, kernel, rx, retired) == Everything(NUM_FRAMES) && |retired| <= NUM_FRAMES
    ensures enough <==> INVALID_UMEM_FRAME !in posted
  {
    hide Everything, Total, Ring.Valid, Pow2, Slot, Wrap, Chunk, Overdraws, After, Initial, Run, Top, Stock;
    var s := new Socket();
    s.Configure();
    enough, posted := true, [];
    RunNone(Initial());
    var i := 0;
    while i < |steps| && enough
      invariant i <= |steps| && fresh(s) && fresh(s.frames) && fresh(s.fill) && fresh(s.fill.entries) && fresh(s.rx) && fresh(s.rx.entries)
      invariant enough ==> s.Conserved() && s.View() == Run(Initial(), steps[..i])
      invariant enough <==> INVALID_UMEM_FRAME !in posted
      invariant enough ==> forall j :: 0 <= j < i && steps[j].Call? ==> !Overdraws(Run(Initial(), steps[..j]))
      invariant !enough ==> exists j :: 0 <= j < |steps| && steps[j].Call? && Overdraws(Run(Initial(), steps[..j]))
    {
      RunPush(Initial(), steps, i);
      match steps[i] {
        case Take =>
          s.KernelTake();
        case Post(desc) =>
          s.KernelPost(desc);
        case Call(processed) =>
          var retried;
          posted, retried := s.Receive(processed);
          enough := INVALID_UMEM_FRAME !in posted;
      }
      i := i + 1;
    }
    assert steps[..|steps|] == steps;
    stack, kernel, retired := if s.free <= s.frames.Length then s.frames[..s.free] else [], s.kernel, s.retired;
    fill, rx := s.fill.Queue(0), s.rx.Queue(0);
    if enough {
      StackHasRoom(stack, fill, kernel, rx, retired);
    }
  }

  lemma RunNone(p: Pool)
    ensures Run(p, []) == p
  {
  }

  // ----- The pool does run out -----

  const BURST: nat := 50

  /** The kernel puts a packet into each of the next frames of the fill ring. */
  ghost function Packets(addrs: seq<nat>): seq<Step> {
    if addrs == [] then [] else Packets(addrs[..|addrs| - 1]) + [Take, Post(Desc(addrs[|addrs| - 1], 0))]
  }

  ghost function Descs(addrs: seq<nat>): (d: seq<Desc>)
    ensures |d| == |addrs| && forall i :: 0 <= i < |d| ==> d[i] == Desc(addrs[i], 0)
  {
    seq(|addrs|, i requires 0 <= i < |addrs| => Desc(addrs[i], 0))
  }

  lemma {:induction false} RunJoin(p: Pool, s: seq<Step>, t: seq<Step>)
    ensures Run(p, s + t) == Run(Run(p, s), t)
    decreases |t|
  {
    hide After;
    if t == [] {
      assert s + t == s;
    } else {
      assert (s + t)[..|s + t| - 1] == s + t[..|t| - 1];
      RunJoin(p, s, t[..|t| - 1]);
    }
  }

  lemma RunOne(p: Pool, step: Step)
    ensures Run(p, [step]) == After(p, step)
  {
    hide After;
    assert [step][..0] == [];
    RunNone(p);
  }

  lemma EnoughJoin(p: Pool, s: seq<Step>, t: seq<Step>)
    requires Enough(p, s + t)
    ensures Enough(Run(p, s), t)
  {
    hide After, Overdraws, Run;
    forall i | 0 <= i < |t| && t[i].Call?
      ensures !Overdraws(Run(Run(p, s), t[..i]))
    {
      RunJoin(p, s, t[..i]);
      assert (s + t)[|s| + i] == t[i] && (s + t)[..|s| + i] == s + t[..i];
    }
  }

  lemma TakeAndPost(p: Pool)
    requires p.fill != [] && |p.rx| < RING_SIZE
    ensures Run(p, [Take, Post(Desc(p.fill[0], 0))]) == p.(fill := p.fill[1..], rx := p.rx + [Desc(p.fill[0], 0)])
  {
    hide Chunk;
    var d := Desc(p.fill[0], 0);
    assert [Take, Post(d)][..1] == [Take];
    RunOne(p, Take);
    assert p.kernel + multiset{Chunk(d.addr)} - multiset{Chunk(d.addr)} == p.kernel;
  }

  lemma {:induction false} RunPackets(p: Pool, n: nat)
    requires n <= |p.fill| && |p.rx| + n <= RING_SIZE
    ensures Run(p, Packets(p.fill[..n])) == p.(fill := p.fill[n..], rx := p.rx + Descs(p.fill[..n]))
  {
    hide After, Run;
    if n == 0 {
      RunNone(p);
      assert p.fill[..0] == [] && p.fill[0..] == p.fill && p.rx + Descs([]) == p.rx;
    } else {
      RunPackets(p, n - 1);
      var addrs, rest := p.fill[..n], p.fill[n - 1..];
      assert addrs[..n - 1] == p.fill[..n - 1];
      var q := Run(p, Packets(p.fill[..n - 1]));
      RunJoin(p, Packets(p.fill[..n - 1]), [Take, Post(Desc(addrs[n - 1], 0))]);
      assert q.fill == rest && rest[0] == p.fill[n - 1] && rest[1..] == p.fill[n..];
      assert q.fill[0] == addrs[n - 1] && q.fill[1..] == p.fill[n..];
      TakeAndPost(q);
      assert Descs(addrs) == Descs(addrs[..n - 1]) + [Desc(addrs[n - 1], 0)];
      assert q.rx + [Desc(addrs[n - 1], 0)] == p.rx + Descs(addrs);
    }
  }

  lemma {:induction false} AllProcessed(descs: seq<Desc>, processed: nat -> bool)
    requires forall i :: processed(i)
    ensures Freed(descs, processed) == []
  {
    if descs != [] {
      AllProcessed(descs[..|descs| - 1], processed);
    }
  }

  /** The fill ring is full, and nothing waits. */
  ghost predicate Rested(p: Pool) {
    |p.fill| == RING_SIZE && p.known == 0 && p.rx == [] && p.seen == 0
  }

  /** A burst of packets, all of which the next call processes. */
  ghost function Burst(p: Pool): seq<Step>
    requires Rested(p)
  {
    Packets(p.fill[..BURST]) + [Call(_ => true)]
  }

  lemma BurstRuns(p: Pool)
    requires Rested(p) && |p.stack| >= BURST
    ensures var q := Run(p, Burst(p)); Rested(q) && |q.stack| == |p.stack| - BURST
  {
    hide After, Run, Packets;
    RunPackets(p, BURST);
    var r := Run(p, Packets(p.fill[..BURST]));
    RunJoin(p, Packets(p.fill[..BURST]), [Call(_ => true)]);
    CallRuns(r, _ => true);
  }

  lemma CallRuns(r: Pool, processed: nat -> bool)
    requires |r.fill| == RING_SIZE - BURST && r.known == r.seen == 0 && |r.rx| == BURST <= |r.stack| && forall i :: processed(i)
    ensures var q := Run(r, [Call(processed)]); Rested(q) && |q.stack| == |r.stack| - BURST
  {
    hide Run, Freed, Used;
    RunOne(r, Call(processed));
    AllProcessed(r.rx[..BURST], processed);
  }

  lemma BurstOverdraws(p: Pool)
    requires Rested(p) && 0 < |p.stack| < BURST
    ensures !Enough(p, Burst(p))
  {
    hide After, Run, Packets;
    RunPackets(p, BURST);
    var n := |Packets(p.fill[..BURST])|;
    assert Burst(p)[..n] == Packets(p.fill[..BURST]);
    assert Burst(p)[n].Call? && Overdraws(Run(p, Burst(p)[..n]));
  }

  /** After enough bursts of fifty packets, each processed, INVALID_UMEM_FRAME is posted: processed
      frames are never freed, and the last call finds fewer frames than entries. */
  lemma {:induction false} PoolRunsOut(p: Pool) returns (steps: seq<Step>)
    requires Rested(p) && |p.stack| % BURST != 0
    ensures !Enough(p, steps)
    decreases |p.stack|
  {
    hide After, Run, Rested, Enough, Overdraws, Burst;
    var burst := Burst(p);
    if |p.stack| < BURST {
      BurstOverdraws(p);
      steps := burst;
    } else {
      BurstRuns(p);
      var rest := PoolRunsOut(Run(p, burst));
      steps := burst + rest;
      if Enough(p, steps) {
        EnoughJoin(p, burst, rest);
      }
    }
  }

  lemma InitialPoolRunsOut() returns (steps: seq<Step>)
    ensures !Enough(Initial(), steps)
  {
    hide Enough, Top;
    assert |Initial().stack| == NUM_FRAMES - RING_SIZE;
    steps := PoolRunsOut(Initial());
  }
}
