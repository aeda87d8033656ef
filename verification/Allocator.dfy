/**
 The lock-free bump allocator of the no_std test, as steps of any number of threads that share one
 atomic counter. It allocates from the top of the arena downwards and never frees.
 */
module BumpAllocator {
  import opened Wrappers
  import opened BitPacking

  const ARENA_SIZE := 128 * 1024
  const MAX_SUPPORTED_ALIGN := 4096
  /** Bits of `usize`. */
  const WORD := 64

  // ----- the alignment mask

  function BitAnd(x: nat, y: nat, bits: nat): nat {
    if bits == 0 then 0
    else (if x % 2 == 1 && y % 2 == 1 then 1 else 0) + 2 * BitAnd(x / 2, y / 2, bits - 1)
  }

  function BitNot(x: nat, bits: nat): nat
    requires x < Pow2(bits)
  {
    Pow2(bits) - 1 - x
  }

  lemma {:induction false} AndOnes(x: nat, bits: nat)
    requires x < Pow2(bits)
    ensures BitAnd(x, Pow2(bits) - 1, bits) == x
  {
    if bits > 0 {
      AndOnes(x / 2, bits - 1);
      assert (Pow2(bits) - 1) / 2 == Pow2(bits - 1) - 1;
    }
  }

  function ShiftRight(x: nat, k: nat): nat {
    if k == 0 then x else ShiftRight(x / 2, k - 1)
  }

  /** Masking with the complement of `2^k - 1` clears the low `k` bits. */
  lemma {:induction false} MaskClearsLowBits(x: nat, k: nat, bits: nat)
    requires x < Pow2(bits) && k <= bits
    ensures Pow2(k) <= Pow2(bits)
    ensures var r := BitAnd(x, BitNot(Pow2(k) - 1, bits), bits);
            r <= x < r + Pow2(k) && r == Product(ShiftRight(x, k), Pow2(k))
  {
    hide *;
    Pow2Monotonic(k, bits);
    if k == 0 {
      ClearsNothing(x, bits);
    } else {
      HalfMask(k, bits);
      HalfShift(x, k, bits);
      MaskClearsLowBits(x / 2, k - 1, bits - 1);
      var half := BitNot(Pow2(k - 1) - 1, bits - 1);
      AndDoubled(x, half, bits);
      DoubleProduct(ShiftRight(x, k), Pow2(k - 1));
    }
  }

  lemma ClearsNothing(x: nat, bits: nat)
    requires x < Pow2(bits)
    ensures Pow2(0) == 1 && ShiftRight(x, 0) == x
    ensures BitAnd(x, BitNot(Pow2(0) - 1, bits), bits) == Product(x, 1) == x
  {
    AndOnes(x, bits);
  }

  lemma HalfMask(k: nat, bits: nat)
    requires 0 < k <= bits
    ensures Pow2(k) == 2 * Pow2(k - 1) && Pow2(k - 1) <= Pow2(bits - 1) && Pow2(k) <= Pow2(bits)
    ensures BitNot(Pow2(k) - 1, bits) == 2 * BitNot(Pow2(k - 1) - 1, bits - 1)
  {
    hide BitAnd;
    Pow2Monotonic(k - 1, bits - 1);
    Pow2Monotonic(k, bits);
  }

  lemma HalfShift(x: nat, k: nat, bits: nat)
    requires 0 < k && 0 < bits && x < Pow2(bits)
    ensures x / 2 < Pow2(bits - 1) && ShiftRight(x, k) == ShiftRight(x / 2, k - 1)
  {
  }

  function Product(x: nat, y: nat): nat {
    x * y
  }

  lemma DoubleProduct(q: nat, d: nat)
    ensures 2 * Product(q, d) == Product(q, 2 * d)
  {
  }

  lemma AndDoubled(x: nat, half: nat, bits: nat)
    requires bits > 0
    ensures BitAnd(x, 2 * half, bits) == 2 * BitAnd(x / 2, half, bits - 1)
  {
  }

  ghost predicate Multiple(x: nat, d: nat) {
    exists q: nat :: x == Product(q, d)
  }

  ghost predicate IsPowerOfTwo(align: nat) {
    exists k: nat :: align == Pow2(k)
  }

  lemma {:induction false} Pow2Monotonic(j: nat, k: nat)
    requires j <= k
    ensures Pow2(j) <= Pow2(k)
  {
    if j < k {
      Pow2Monotonic(j, k - 1);
    }
  }

  lemma Pow2Word()
    ensures Pow2(WORD) == 0x1_0000_0000_0000_0000 && Pow2(12) == MAX_SUPPORTED_ALIGN
  {
    assert Pow2(12) == 4096;
    assert Pow2(24) == 0x100_0000;
    assert Pow2(36) == 0x10_0000_0000;
    assert Pow2(48) == 0x1_0000_0000_0000;
    assert Pow2(60) == 0x1000_0000_0000_0000;
  }

  /** `Layout`: an alignment is a power of two. */
  datatype LayoutData = Layout(size: nat, align: nat)
  type LayoutT = l: LayoutData | IsPowerOfTwo(l.align) ghost witness SmallLayout()

  ghost function SmallLayout(): (l: LayoutData)
    ensures IsPowerOfTwo(l.align)
  {
    assert Pow2(0) == 1;
    Layout(0, 1)
  }

  /** `x & !(align - 1)` on machine words. */
  function RoundDown(x: nat, align: nat): nat
    requires 1 <= align <= Pow2(WORD)
  {
    BitAnd(x, BitNot(align - 1, WORD), WORD)
  }

  lemma RoundDownAligns(x: nat, l: LayoutT)
    requires x <= ARENA_SIZE && l.align <= MAX_SUPPORTED_ALIGN
    ensures 1 <= l.align <= Pow2(WORD)
    ensures RoundDown(x, l.align) <= x < RoundDown(x, l.align) + l.align
    ensures Multiple(RoundDown(x, l.align), l.align)
  {
    hide BitAnd, Pow2, BitNot, Product;
    Pow2Word();
    var k: nat :| l.align == Pow2(k);
    if k > WORD {
      Pow2Monotonic(WORD, k);
    }
    MaskClearsLowBits(x, k, WORD);
  }

  // ----- one attempt

  /** The closure of `fetch_update`: where a block would start, if there is room for it. */
  function Propose(l: LayoutT, remaining: nat): (r: Option<nat>)
    requires remaining <= ARENA_SIZE && l.align <= MAX_SUPPORTED_ALIGN
    ensures r.Some? <==> l.size <= remaining
    ensures r.Some? ==> r.value + l.size <= remaining < r.value + l.size + l.align
    ensures r.Some? ==> Multiple(r.value, l.align)
  {
    if l.size > remaining then None
    else
      hide Pow2, BitAnd;
      RoundDownAligns(remaining - l.size, l);
      Some(RoundDown(remaining - l.size, l.align))
  }

  // ----- the threads

  datatype Thread =
    | Idle
      /** Has read the counter. */
    | Loaded(layout: LayoutT, seen: nat)
      /** Has run the closure, which also wrote the local `allocated` (here `offset`). */
    | Proposed(layout: LayoutT, seen: nat, next: nat, offset: nat)

  datatype Block = Block(start: nat, layout: LayoutT)

  /** The shared counter, the threads, and every block ever returned, in the order of the swaps. */
  datatype State = State(remaining: nat, threads: seq<Thread>, blocks: seq<Block>)

  datatype Event =
    | Begin(thread: nat, layout: LayoutT)       // enter `alloc` and load the counter
    | Evaluate(thread: nat)                     // run the closure; without room the result is null
    | Exchange(thread: nat, spurious: bool)     // `compare_exchange_weak`; on failure the counter is loaded again

  predicate Enabled(s: State, e: Event) {
    && e.thread < |s.threads|
    && match e
       case Begin(t, _) => s.threads[t].Idle?
       case Evaluate(t) => s.threads[t].Loaded?
       case Exchange(t, _) => s.threads[t].Proposed?
  }

  /** The thread's view fits the arena: what every step needs to be defined. */
  predicate Sane(s: State) {
    && s.remaining <= ARENA_SIZE
    && forall t :: 0 <= t < |s.threads| && s.threads[t].Loaded? ==>
         s.threads[t].seen <= ARENA_SIZE && s.threads[t].layout.align <= MAX_SUPPORTED_ALIGN
  }

  function Next(s: State, e: Event): State
    requires Sane(s) && Enabled(s, e)
  {
    var t := e.thread;
    match e
    case Begin(_, l) =>
      if l.align > MAX_SUPPORTED_ALIGN then s else s.(threads := s.threads[t := Loaded(l, s.remaining)])
    case Evaluate(_) =>
      var l, seen := s.threads[t].layout, s.threads[t].seen;
      match Propose(l, seen) {
        case None => s.(threads := s.threads[t := Idle])
        case Some(next) => s.(threads := s.threads[t := Proposed(l, seen, next, next)])
      }
    case Exchange(_, spurious) =>
      var Proposed(l, seen, next, offset) := s.threads[t];
      if spurious || s.remaining != seen then
        s.(threads := s.threads[t := Loaded(l, s.remaining)])
      else
        State(next, s.threads[t := Idle], s.blocks + [Block(offset, l)])
  }

  function Init(threads: nat): State {
    State(ARENA_SIZE, seq(threads, _ => Idle), [])
  }

  // ----- what every step keeps

  ghost predicate ThreadOk(th: Thread, remaining: nat) {
    match th
    case Idle => true
    case Loaded(l, seen) => remaining <= seen <= ARENA_SIZE && l.align <= MAX_SUPPORTED_ALIGN
    case Proposed(l, seen, next, offset) =>
      && remaining <= seen <= ARENA_SIZE && l.align <= MAX_SUPPORTED_ALIGN
      && Propose(l, seen) == Some(next) && offset == next
  }

  ghost predicate Inv(s: State) {
    && s.remaining <= ARENA_SIZE
    && (forall t :: 0 <= t < |s.threads| ==> ThreadOk(s.threads[t], s.remaining))
    && (forall i :: 0 <= i < |s.blocks| ==> BlockOk(s.blocks[i], s.remaining))
    && (forall i, j :: 0 <= i < j < |s.blocks| ==> Below(s.blocks[j], s.blocks[i]))
  }

  ghost predicate BlockOk(b: Block, remaining: nat) {
    remaining <= b.start && b.start + b.layout.size <= ARENA_SIZE && Multiple(b.start, b.layout.align)
    && b.layout.align <= MAX_SUPPORTED_ALIGN
  }

  predicate Below(b: Block, c: Block) {
    b.start + b.layout.size <= c.start
  }

  lemma InvSane(s: State)
    requires Inv(s)
    ensures Sane(s)
  {
    hide BlockOk, Propose;
    forall t | 0 <= t < |s.threads| && s.threads[t].Loaded?
      ensures s.threads[t].seen <= ARENA_SIZE && s.threads[t].layout.align <= MAX_SUPPORTED_ALIGN
    {
      assert ThreadOk(s.threads[t], s.remaining);
    }
  }

  lemma ThreadOkLater(th: Thread, remaining: nat, later: nat)
    requires ThreadOk(th, remaining) && later <= remaining
    ensures ThreadOk(th, later)
  {
    hide Propose;
  }

  lemma StepKeepsInv(s: State, e: Event)
    requires Inv(s) && Sane(s) && Enabled(s, e)
    ensures Inv(Next(s, e))
  {
    hide Propose, RoundDown, Multiple;
    var t, s' := e.thread, Next(s, e);
    var th := s.threads[t];
    assert ThreadOk(th, s.remaining);
    if s'.remaining == s.remaining && s'.blocks == s.blocks {
      forall u | 0 <= u < |s'.threads| ensures ThreadOk(s'.threads[u], s'.remaining) {
        assert ThreadOk(s.threads[u], s.remaining);
      }
    } else {
      SwapKeepsInv(s, t);
    }
  }

  lemma SwapKeepsInv(s: State, t: nat)
    requires Inv(s) && t < |s.threads| && s.threads[t].Proposed? && s.threads[t].seen == s.remaining
    ensures var th := s.threads[t];
            Inv(State(th.next, s.threads[t := Idle], s.blocks + [Block(th.offset, th.layout)]))
  {
    hide RoundDown, Multiple;
    var th := s.threads[t];
    assert ThreadOk(th, s.remaining);
    var b := Block(th.offset, th.layout);
    var threads, blocks := s.threads[t := Idle], s.blocks + [b];
    assert th.next <= s.remaining;
    assert BlockOk(b, th.next);
    forall u | 0 <= u < |threads| ensures ThreadOk(threads[u], th.next) {
      if u != t {
        ThreadOkLater(s.threads[u], s.remaining, th.next);
      }
    }
    forall i | 0 <= i < |blocks| ensures BlockOk(blocks[i], th.next) {
      if i < |s.blocks| {
        assert BlockOk(s.blocks[i], s.remaining);
      }
    }
    forall i, j | 0 <= i < j < |blocks| ensures Below(blocks[j], blocks[i]) {
      if j == |s.blocks| {
        assert BlockOk(s.blocks[i], s.remaining);
      }
    }
  }

  // ----- every run

  /** `events` is a run of `threads` threads that ends in `s`. */
  ghost predicate Reaches(threads: nat, events: seq<Event>, s: State)
    decreases |events|
  {
    if events == [] then s == Init(threads) else
    exists before :: Reaches(threads, events[..|events| - 1], before)
                     && Sane(before) && Enabled(before, events[|events| - 1])
                     && s == Next(before, events[|events| - 1])
  }

  lemma {:induction false} RunKeepsInv(threads: nat, events: seq<Event>, s: State)
    requires Reaches(threads, events, s)
    ensures Inv(s) && |s.threads| == threads
    decreases |events|
  {
    hide Next, Inv, Sane;
    if events == [] {
      InitInv(threads);
    } else {
      var n := |events| - 1;
      var before :| Reaches(threads, events[..n], before) && Sane(before) && Enabled(before, events[n])
                    && s == Next(before, events[n]);
      RunKeepsInv(threads, events[..n], before);
      StepKeepsInv(before, events[n]);
      NextThreads(before, events[n]);
    }
  }

  lemma InitInv(threads: nat)
    ensures Inv(Init(threads))
  {
  }

  lemma NextThreads(s: State, e: Event)
    requires Sane(s) && Enabled(s, e)
    ensures |Next(s, e).threads| == |s.threads|
  {
    hide Propose;
  }

  /** No interleaving gets stuck in an undefined step: every enabled event can be taken. */
  lemma StepsAreDefined(threads: nat, events: seq<Event>, s: State, e: Event)
    requires Reaches(threads, events, s) && Enabled(s, e)
    ensures Sane(s) && Reaches(threads, events + [e], Next(s, e))
  {
    hide Next;
    RunKeepsInv(threads, events, s);
    InvSane(s);
    var all := events + [e];
    assert all[..|all| - 1] == events && all[|all| - 1] == e;
  }

  /**
   In every interleaving of any number of threads: all blocks ever returned lie inside the arena, no
   two of them share a byte, and with the arena itself at a multiple of the largest alignment every
   address has the alignment that was asked for.
   */
  lemma AllocatorIsSafe(threads: nat, events: seq<Event>, s: State, base: nat)
    requires Reaches(threads, events, s) && Multiple(base, MAX_SUPPORTED_ALIGN)
    ensures forall i :: 0 <= i < |s.blocks| ==> s.blocks[i].start + s.blocks[i].layout.size <= ARENA_SIZE
    ensures forall i, j :: 0 <= i < j < |s.blocks| ==> Disjoint(s.blocks[i], s.blocks[j])
    ensures forall i :: 0 <= i < |s.blocks| ==> Multiple(base + s.blocks[i].start, s.blocks[i].layout.align)
  {
    hide Reaches, Multiple, ThreadOk;
    RunKeepsInv(threads, events, s);
    forall i, j | 0 <= i < j < |s.blocks| ensures Disjoint(s.blocks[i], s.blocks[j]) {
      assert Below(s.blocks[j], s.blocks[i]);
    }
    forall i | 0 <= i < |s.blocks|
      ensures s.blocks[i].start + s.blocks[i].layout.size <= ARENA_SIZE
      ensures Multiple(base + s.blocks[i].start, s.blocks[i].layout.align)
    {
      assert BlockOk(s.blocks[i], s.remaining);
      AddressAligned(base, s.blocks[i].start, s.blocks[i].layout);
    }
  }

  ghost predicate Disjoint(b: Block, c: Block) {
    forall a: nat :: !(Covers(b, a) && Covers(c, a))
  }

  predicate Covers(b: Block, a: nat) {
    b.start <= a < b.start + b.layout.size
  }

  lemma AddressAligned(base: nat, start: nat, l: LayoutT)
    requires Multiple(base, MAX_SUPPORTED_ALIGN) && Multiple(start, l.align) && l.align <= MAX_SUPPORTED_ALIGN
    ensures Multiple(base + start, l.align)
  {
    hide Pow2, Product;
    Pow2Word();
    var k: nat :| l.align == Pow2(k);
    if k > 12 {
      Pow2Monotonic(12, k - 1);
      Pow2Doubles(k);
    }
    Pow2Divides(k, 12);
    var p: nat :| base == Product(p, MAX_SUPPORTED_ALIGN);
    var q: nat :| start == Product(q, l.align);
    var m: nat :| Pow2(12) == Product(m, Pow2(k));
    ProductSum(p, m, q, l.align);
  }

  lemma Pow2Doubles(k: nat)
    requires k > 0
    ensures Pow2(k) == 2 * Pow2(k - 1)
  {
  }

  lemma ProductSum(p: nat, m: nat, q: nat, d: nat)
    ensures Product(p, Product(m, d)) + Product(q, d) == Product(p * m + q, d)
  {
    assert p * (m * d) == (p * m) * d;
  }

  lemma {:induction false} Pow2Divides(j: nat, k: nat)
    requires j <= k
    ensures Multiple(Pow2(k), Pow2(j))
  {
    if j == k {
      assert Pow2(k) == Product(1, Pow2(j));
    } else {
      Pow2Divides(j, k - 1);
      var q: nat :| Pow2(k - 1) == Product(q, Pow2(j));
      assert Pow2(k) == Product(2 * q, Pow2(j));
    }
  }

  // ----- the concurrent counter refines a sequential allocator

  /** Serve the requests one after the other, each at once. */
  function Serve(layouts: seq<LayoutT>): (r: Option<(nat, seq<nat>)>)
    ensures r.Some? ==> r.value.0 <= ARENA_SIZE && |r.value.1| == |layouts|
  {
    if layouts == [] then Some((ARENA_SIZE, [])) else
    var n := |layouts| - 1;
    var (remaining, starts) :- Serve(layouts[..n]);
    if layouts[n].align > MAX_SUPPORTED_ALIGN then None else
    var start :- Propose(layouts[n], remaining);
    Some((start, starts + [start]))
  }

  function Layouts(blocks: seq<Block>): (ls: seq<LayoutT>)
    ensures |ls| == |blocks|
  {
    seq(|blocks|, i requires 0 <= i < |blocks| => blocks[i].layout)
  }

  function Starts(blocks: seq<Block>): (ns: seq<nat>)
    ensures |ns| == |blocks|
  {
    seq(|blocks|, i requires 0 <= i < |blocks| => blocks[i].start)
  }

  /**
   Whatever the interleaving, the blocks are those that a sequential allocator returns for the same
   requests in the order of the successful exchanges, and the counter is where it leaves it.
   */
  lemma {:induction false} RunIsSequential(threads: nat, events: seq<Event>, s: State)
    requires Reaches(threads, events, s)
    ensures Serve(Layouts(s.blocks)) == Some((s.remaining, Starts(s.blocks)))
    decreases |events|
  {
    hide Propose, Inv, Sane, Serve;
    if events == [] {
      NothingServed();
      assert Starts([]) == [] && Layouts([]) == [];
    } else {
      var n := |events| - 1;
      var before :| Reaches(threads, events[..n], before) && Sane(before) && Enabled(before, events[n])
                    && s == Next(before, events[n]);
      RunIsSequential(threads, events[..n], before);
      RunKeepsInv(threads, events[..n], before);
      if s.blocks != before.blocks {
        ProposalStands(before, events[n].thread);
        ServeOneMore(before.blocks, s.blocks[|before.blocks|], before.remaining);
      }
    }
  }

  lemma NothingServed()
    ensures Serve([]) == Some((ARENA_SIZE, []))
  {
  }

  lemma ProposalStands(s: State, t: nat)
    requires Inv(s) && t < |s.threads| && s.threads[t].Proposed?
    ensures var th := s.threads[t];
            th.seen <= ARENA_SIZE && th.layout.align <= MAX_SUPPORTED_ALIGN
            && Propose(th.layout, th.seen) == Some(th.next) && th.offset == th.next
  {
    hide Propose;
    assert ThreadOk(s.threads[t], s.remaining);
  }

  lemma ServeOneMore(blocks: seq<Block>, b: Block, remaining: nat)
    requires Serve(Layouts(blocks)) == Some((remaining, Starts(blocks)))
    requires remaining <= ARENA_SIZE && b.layout.align <= MAX_SUPPORTED_ALIGN
    requires Propose(b.layout, remaining) == Some(b.start)
    ensures Serve(Layouts(blocks + [b])) == Some((b.start, Starts(blocks + [b])))
  {
    hide Propose;
    assert Layouts(blocks + [b])[..|blocks|] == Layouts(blocks);
    assert Starts(blocks + [b]) == Starts(blocks) + [b.start];
  }

  /** A null result changes nothing but the thread, and was right: the request still does not fit. */
  lemma NullIsRight(threads: nat, events: seq<Event>, s: State, t: nat)
    requires Reaches(threads, events, s) && Sane(s) && Enabled(s, Evaluate(t))
    requires Next(s, Evaluate(t)).threads[t].Idle?
    ensures Next(s, Evaluate(t)) == s.(threads := s.threads[t := Idle])
    ensures Propose(s.threads[t].layout, s.remaining) == None
  {
    hide Propose, Reaches;
    RunKeepsInv(threads, events, s);
    assert ThreadOk(s.threads[t], s.remaining);
  }

  // ----- every call is answered

  /** Block `b` lies right below the counter: aligned, and wasting less than its alignment. */
  ghost predicate PlacedBelow(b: Block, counter: nat) {
    && Multiple(b.start, b.layout.align)
    && b.start + b.layout.size <= counter < b.start + b.layout.size + b.layout.align
  }

  /**
   What a step may do to the thread that takes it. A call with a supported alignment is accepted and goes
   on with its own layout until it is answered; it is answered by exactly one new block of that
   layout, right below the counter, which moves to its start, or by null, and then it does not fit.
   Nothing else changes the blocks or the counter, and no step touches another thread.
   */
  lemma EveryCallIsAnswered(threads: nat, events: seq<Event>, s: State, e: Event)
    requires Reaches(threads, events, s) && Sane(s) && Enabled(s, e)
    ensures var s' := Next(s, e);
            var th, th' := s.threads[e.thread], s'.threads[e.thread];
            && |s'.threads| == |s.threads|
            && (forall u :: 0 <= u < |s.threads| && u != e.thread ==> s'.threads[u] == s.threads[u])
            && (th.Idle? && e.layout.align > MAX_SUPPORTED_ALIGN ==> s' == s)
            && (th.Idle? && e.layout.align <= MAX_SUPPORTED_ALIGN ==> !th'.Idle? && th'.layout == e.layout)
            && (!th.Idle? && !th'.Idle? ==> th'.layout == th.layout)
            && (th.Idle? || !th'.Idle? || th.layout.size > s.remaining ==>
                  s'.blocks == s.blocks && s'.remaining == s.remaining)
            && (!th.Idle? && th'.Idle? && th.layout.size <= s.remaining ==>
                  && |s'.blocks| == |s.blocks| + 1 && s'.blocks[..|s.blocks|] == s.blocks
                  && var b := s'.blocks[|s.blocks|];
                     b.layout == th.layout && PlacedBelow(b, s.remaining) && s'.remaining == b.start)
  {
    hide Reaches, Multiple;
    RunKeepsInv(threads, events, s);
    assert ThreadOk(s.threads[e.thread], s.remaining);
  }

  /**
   A thread that runs alone gets its block at the first attempt exactly if it fits, and null with nothing
   changed otherwise, from whatever state the others left.
   */
  lemma AloneIsServed(threads: nat, events: seq<Event>, s: State, t: nat, l: LayoutT)
    requires Reaches(threads, events, s) && t < |s.threads| && s.threads[t].Idle?
    requires l.align <= MAX_SUPPORTED_ALIGN
    ensures var loaded := events + [Begin(t, l)];
            var evaluated := loaded + [Evaluate(t)];
            if l.size <= s.remaining then
              exists b: Block ::
                b.layout == l && PlacedBelow(b, s.remaining)
                && Reaches(threads, evaluated + [Exchange(t, false)], State(b.start, s.threads, s.blocks + [b]))
            else Reaches(threads, evaluated, s)
  {
    hide Reaches, Next, Multiple;
    RunKeepsInv(threads, events, s);
    StepsAreDefined(threads, events, s, Begin(t, l));
    var s1 := s.(threads := s.threads[t := Loaded(l, s.remaining)]);
    assert Next(s, Begin(t, l)) == s1 by { BeginLoads(s, t, l); }
    StepsAreDefined(threads, events + [Begin(t, l)], s1, Evaluate(t));
    EvaluateAlone(s, s1, t, l);
    if l.size <= s.remaining {
      var start := Propose(l, s.remaining).value;
      var s2 := s.(threads := s.threads[t := Proposed(l, s.remaining, start, start)]);
      StepsAreDefined(threads, events + [Begin(t, l)] + [Evaluate(t)], s2, Exchange(t, false));
      ExchangeAlone(s, s2, t, l, start);
    }
  }

  lemma BeginLoads(s: State, t: nat, l: LayoutT)
    requires Sane(s) && t < |s.threads| && s.threads[t].Idle? && l.align <= MAX_SUPPORTED_ALIGN
    ensures Next(s, Begin(t, l)) == s.(threads := s.threads[t := Loaded(l, s.remaining)])
  {
  }

  lemma EvaluateAlone(s: State, s1: State, t: nat, l: LayoutT)
    requires Sane(s) && Sane(s1) && t < |s.threads| && s.threads[t].Idle? && l.align <= MAX_SUPPORTED_ALIGN
    requires s1 == s.(threads := s.threads[t := Loaded(l, s.remaining)])
    ensures l.size > s.remaining ==> Next(s1, Evaluate(t)) == s
    ensures l.size <= s.remaining ==>
              var start := Propose(l, s.remaining).value;
              Next(s1, Evaluate(t)) == s.(threads := s.threads[t := Proposed(l, s.remaining, start, start)])
  {
    hide Propose;
    if l.size > s.remaining {
      assert s1.threads[t := Idle] == s.threads;
    } else {
      var start := Propose(l, s.remaining).value;
      var proposed := Proposed(l, s.remaining, start, start);
      assert s1.threads[t := proposed] == s.threads[t := proposed];
    }
  }

  lemma ExchangeAlone(s: State, s2: State, t: nat, l: LayoutT, start: nat)
    requires Sane(s2) && t < |s.threads| && s.threads[t].Idle?
    requires s2 == s.(threads := s.threads[t := Proposed(l, s.remaining, start, start)])
    ensures Next(s2, Exchange(t, false)) == State(start, s.threads, s.blocks + [Block(start, l)])
  {
    assert s2.threads[t := Idle] == s.threads;
  }

  // ----- lock freedom

  /** The exchange fails because the counter has moved. */
  predicate Loses(s: State, e: Event)
    requires Enabled(s, e)
  {
    e.Exchange? && !e.spurious && s.threads[e.thread].seen != s.remaining
  }

  /** Like `Reaches`, counting the exchanges that were lost to other threads. */
  ghost predicate ReachesLosing(threads: nat, events: seq<Event>, s: State, lost: nat)
    decreases |events|
  {
    if events == [] then s == Init(threads) && lost == 0 else
    var n := |events| - 1;
    exists before, fewer: nat :: ReachesLosing(threads, events[..n], before, fewer)
                            && Sane(before) && Enabled(before, events[n]) && s == Next(before, events[n])
                            && lost == fewer + (if Loses(before, events[n]) then 1 else 0)
  }

  /** The number of threads that hold an outdated counter. */
  function Outdated(threads: seq<Thread>, remaining: nat): (n: nat)
    ensures n <= |threads|
  {
    if threads == [] then 0
    else OutdatedOne(threads[0], remaining) + Outdated(threads[1..], remaining)
  }

  function OutdatedOne(th: Thread, remaining: nat): nat {
    if !th.Idle? && th.seen != remaining then 1 else 0
  }

  lemma {:induction false} OutdatedUpdate(threads: seq<Thread>, t: nat, th: Thread, remaining: nat)
    requires t < |threads|
    ensures Outdated(threads[t := th], remaining) + OutdatedOne(threads[t], remaining)
         == Outdated(threads, remaining) + OutdatedOne(th, remaining)
  {
    var updated := threads[t := th];
    if t == 0 {
      assert updated[1..] == threads[1..];
    } else {
      OutdatedUpdate(threads[1..], t - 1, th, remaining);
      assert updated[1..] == threads[1..][t - 1 := th];
    }
  }

  lemma {:induction false} OutdatedBound(threads: seq<Thread>, t: nat, remaining: nat)
    requires t < |threads| && threads[t].Idle?
    ensures Outdated(threads, remaining) < |threads|
  {
    if t > 0 {
      OutdatedBound(threads[1..], t - 1, remaining);
    }
  }

  /**
   The allocator is lock-free: an exchange is lost only because another thread was served, and each
   block that is handed out makes at most all other threads lose once. Without a block there is
   no lost exchange, however the threads are scheduled.
   */
  lemma {:induction false} LockFree(threads: nat, events: seq<Event>, s: State, lost: nat)
    requires ReachesLosing(threads, events, s, lost)
    ensures Reaches(threads, events, s)
    ensures lost + Outdated(s.threads, s.remaining) <= Product(|s.blocks|, if threads == 0 then 0 else threads - 1)
    decreases |events|
  {
    hide Next, Sane, Outdated, Product;
    var others := if threads == 0 then 0 else threads - 1;
    if events == [] {
      NobodyOutdated(threads);
      assert Product(0, others) == 0 by { ProductStep(0, others); }
    } else {
      var n := |events| - 1;
      var before, fewer: nat :| ReachesLosing(threads, events[..n], before, fewer)
                           && Sane(before) && Enabled(before, events[n]) && s == Next(before, events[n])
                           && lost == fewer + (if Loses(before, events[n]) then 1 else 0);
      LockFree(threads, events[..n], before, fewer);
      RunKeepsInv(threads, events[..n], before);
      LosingStep(before, events[n], others);
    }
  }

  lemma NobodyOutdated(threads: nat)
    ensures Outdated(Init(threads).threads, ARENA_SIZE) == 0
  {
    AllIdle(seq(threads, _ => Idle), ARENA_SIZE);
  }

  lemma {:induction false} AllIdle(threads: seq<Thread>, remaining: nat)
    requires forall t :: 0 <= t < |threads| ==> threads[t].Idle?
    ensures Outdated(threads, remaining) == 0
  {
    if threads != [] {
      AllIdle(threads[1..], remaining);
    }
  }

  lemma ProductStep(q: nat, d: nat)
    ensures Product(0, d) == 0 && Product(q + 1, d) == Product(q, d) + d
  {
  }

  lemma LosingStep(s: State, e: Event, others: nat)
    requires Inv(s) && Sane(s) && Enabled(s, e) && |s.threads| == others + 1
    ensures var s' := Next(s, e);
            Outdated(s'.threads, s'.remaining) + (if Loses(s, e) then 1 else 0) + Product(|s.blocks|, others)
            <= Outdated(s.threads, s.remaining) + Product(|s'.blocks|, others)
  {
    hide Inv, Propose, Outdated, Product;
    var t, s' := e.thread, Next(s, e);
    if s'.blocks == s.blocks {
      assert s'.remaining == s.remaining;
      OutdatedUpdate(s.threads, t, s'.threads[t], s.remaining);
      assert s.threads[t := s'.threads[t]] == s'.threads;
    } else {
      OutdatedBound(s'.threads, t, s'.remaining);
      ProductStep(|s.blocks|, others);
    }
  }
}
