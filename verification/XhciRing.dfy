/** A transfer ring: a producer and a consumer that share memory and are synchronised by cycle bits alone
    (section 4.9 of the xHCI specification). */
module XhciRing {
  import opened Bytes

  /** The last slot holds a Link TRB back to the first; the others carry transfers. */
  const LINK := 255
  /** TRB type 6, Toggle Cycle, the cycle bit set. */
  const LINK_CONTROL: u32 := 6 * 1024 + 2 + 1

  datatype Trb = Trb(param: u64, status: u32, control: u32)

  function CycleOf(control: u32): nat { control % 2 }
  function ToggleOf(control: u32): nat { control / 2 % 2 }
  /** Bits 10 to 15 are the TRB type. */
  predicate IsLink(control: u32) { control / 2 / 512 % 64 == 6 }

  /** `control` with the cycle bit `c`. */
  function WithCycle(control: u32, c: nat): (r: u32)
    requires c < 2
    ensures CycleOf(r) == c && r / 2 == control / 2 && ToggleOf(r) == ToggleOf(control) &&
      (IsLink(r) <==> IsLink(control))
  {
    control / 2 * 2 + c
  }

  // ---- what the producer writes -------------------------------------------------------------------

  /** One store to ring memory; the fields of a TRB are stored one by one. */
  datatype RingStore = Param(slot: nat, v: u64) | Status(slot: nat, v32: u32) | Control(slot: nat, c: u32)

  type Memory = m: seq<Trb> | |m| == 256 witness seq(256, _ => Trb(0, 0, 0))

  predicate InRing(w: RingStore) {
    w.slot < 256
  }

  function Apply(m: Memory, w: RingStore): Memory
    requires InRing(w)
  {
    match w
    case Param(i, v) => m[i := m[i].(param := v)]
    case Status(i, v) => m[i := m[i].(status := v)]
    case Control(i, v) => m[i := m[i].(control := v)]
  }

  /** The stores of one post, in program order: the control word with the cycle bit comes last, and on the last slot
      the Link TRB is handed over after it. */
  function PostStores(enqueue: nat, pcs: nat, t: Trb, linkControl: u32): (ws: seq<RingStore>)
    requires enqueue < LINK && pcs < 2
    ensures 3 <= |ws| <= 4 && (|ws| == 4 <==> enqueue + 1 == LINK)
    ensures forall j :: 0 <= j < |ws| ==> InRing(ws[j])
  {
    [Param(enqueue, t.param), Status(enqueue, t.status), Control(enqueue, WithCycle(t.control, pcs))]
    + if enqueue + 1 == LINK then [Control(LINK, WithCycle(linkControl, pcs))] else []
  }

  function ApplyStores(m: Memory, ws: seq<RingStore>): Memory
    requires forall j :: 0 <= j < |ws| ==> InRing(ws[j])
  {
    if ws == [] then m else Apply(ApplyStores(m, ws[..|ws| - 1]), ws[|ws| - 1])
  }

  function NextEnqueue(enqueue: nat): nat {
    if enqueue + 1 == LINK then 0 else enqueue + 1
  }

  function NextPcs(enqueue: nat, pcs: nat): (c: nat)
    requires pcs < 2
    ensures c < 2
  {
    if enqueue + 1 == LINK then 1 - pcs else pcs
  }

  /** The driver's side. The ghost log is the order in which the stores reach memory. */
  class TransferRing {
    const mem: array<Trb>
    var enqueue: nat
    var pcs: nat
    ghost var log: seq<RingStore>

    ghost predicate Valid()
      reads this, mem
    {
      mem.Length == 256 && enqueue < LINK && pcs < 2
    }

    /** Ring setup: zeroed memory, the Link TRB in the last slot, cycle state 1. */
    constructor ()
      ensures Valid() && fresh(mem) && mem[..] == EmptyRing() && enqueue == 0 && pcs == 1 && log == []
    {
      mem := new Trb[256](i => Trb(0, 0, 0));
      enqueue, pcs, log := 0, 1, [];
      new;
      mem[LINK] := Trb(0, 0, LINK_CONTROL);
    }

    method Put(w: RingStore)
      requires mem.Length == 256 && InRing(w)
      modifies mem, this`log
      ensures mem[..] == Apply(old(mem[..]), w) && log == old(log) + [w]
    {
      match w {
        case Param(i, v) => mem[i] := mem[i].(param := v);
        case Status(i, v) => mem[i] := mem[i].(status := v);
        case Control(i, v) => mem[i] := mem[i].(control := v);
      }
      log := log + [w];
    }

    /** Post one TRB and advance, handing over the Link TRB when the ring wraps. */
    method Post(t: Trb)
      requires Valid()
      modifies this, mem
      ensures Valid() && enqueue == NextEnqueue(old(enqueue)) && pcs == NextPcs(old(enqueue), old(pcs))
      ensures var ws := PostStores(old(enqueue), old(pcs), t, old(mem[LINK].control));
        log == old(log) + ws && mem[..] == ApplyStores(old(mem[..]), ws)
    {
      ghost var m, ws := mem[..], PostStores(enqueue, pcs, t, mem[LINK].control);
      Put(Param(enqueue, t.param));
      Put(Status(enqueue, t.status));
      Put(Control(enqueue, WithCycle(t.control, pcs)));
      StoresSoFar(m, ws);
      assert mem[LINK].control == m[LINK].control;
      enqueue := enqueue + 1;
      if enqueue == LINK {
        Put(Control(LINK, WithCycle(mem[LINK].control, pcs)));
        enqueue := 0;
        pcs := 1 - pcs;
      }
    }

    /** `post_normal_trb`: type 1, interrupt on short packet and on completion. */
    method PostNormal(buf: u64, length: u32)
      requires Valid()
      modifies this, mem
      ensures Valid() && enqueue == NextEnqueue(old(enqueue)) && pcs == NextPcs(old(enqueue), old(pcs))
      ensures var ws := PostStores(old(enqueue), old(pcs), Normal(buf, length), old(mem[LINK].control));
        log == old(log) + ws && mem[..] == ApplyStores(old(mem[..]), ws)
    {
      Post(Normal(buf, length));
    }
  }

  function Normal(buf: u64, length: u32): (t: Trb)
    ensures !IsLink(t.control)
  {
    Trb(buf, length, 1024 + 32 + 4)
  }

  /** A Normal TRB: the buffer, the length, TRB type 1, interrupt on short packet (bit 2) and on completion (bit 5), and
      nothing else. */
  lemma NormalFields(buf: u64, length: u32)
    ensures var t := Normal(buf, length);
      && t.param == buf && t.status == length && t.control / 1024 == 1
      && t.control / 4 % 2 == 1 && t.control / 32 % 2 == 1
      && t.control % 4 == 0 && t.control / 8 % 4 == 0 && t.control / 64 % 16 == 0
  {
  }

  lemma StoresSoFar(m: Memory, ws: seq<RingStore>)
    requires 3 <= |ws| <= 4 && forall j :: 0 <= j < |ws| ==> InRing(ws[j])
    ensures ApplyStores(m, ws[..3]) == Apply(Apply(Apply(m, ws[0]), ws[1]), ws[2])
    ensures |ws| == 3 ==> ws[..3] == ws
    ensures |ws| == 4 ==> ApplyStores(m, ws) == Apply(ApplyStores(m, ws[..3]), ws[3])
  {
    assert ws[..3][..2] == ws[..2] && ws[..2][..1] == ws[..1] && ws[..1][..0] == [];
    assert ApplyStores(m, ws[..1]) == Apply(m, ws[0]);
    assert ApplyStores(m, ws[..2]) == Apply(ApplyStores(m, ws[..1]), ws[1]);
  }

  function EmptyRing(): (m: seq<Trb>)
    ensures |m| == 256
  {
    seq(256, i => if i == LINK then Trb(0, 0, LINK_CONTROL) else Trb(0, 0, 0))
  }

  // ---- the two actors ---------------------------------------------------------------------------

  /** How far the consumer is with the TRB at its dequeue pointer; it loads the fields one by one. */
  datatype Reading = Idle | GotControl(control: u32) | GotParam(ctl: u32, param: u64)

  /** Memory, the producer and the consumer; `posted` and `got` are what each has dealt with, in order. */
  datatype Ring = Ring(
    mem: Memory,
    enqueue: nat, pcs: nat, stores: nat, posted: seq<Trb>,
    dequeue: nat, ccs: nat, reading: Reading, got: seq<Trb>)

  /** The stores of the post in progress. */
  function Stores(r: Ring): seq<RingStore>
    requires r.enqueue < LINK && r.pcs < 2 && r.posted != []
  {
    PostStores(r.enqueue, r.pcs, r.posted[|r.posted| - 1], r.mem[LINK].control)
  }

  ghost predicate Start(r: Ring) {
    r == Ring(EmptyRing(), 0, 1, 0, [], 0, 1, Idle, [])
  }

  /** The producer takes up a TRB, at most `bound` being outstanding; `stores` counts from 1 while a post is in
      progress. */
  ghost predicate Begins(r: Ring, t: Trb, r': Ring, bound: nat) {
    && r.stores == 0 && |r.posted| - |r.got| < bound && !IsLink(t.control) && r.enqueue < LINK && r.pcs < 2
    && r' == r.(posted := r.posted + [t.(control := WithCycle(t.control, r.pcs))], stores := 1)
  }

  /** The next store of the post. */
  ghost predicate Puts(r: Ring, r': Ring) {
    && r.stores > 0 && r.posted != [] && r.enqueue < LINK && r.pcs < 2 && r.stores <= |Stores(r)|
    && r' == r.(mem := Apply(r.mem, Stores(r)[r.stores - 1]), stores := r.stores + 1)
  }

  /** All stored: the producer's own indices move on. */
  ghost predicate Advances(r: Ring, r': Ring) {
    && r.posted != [] && r.enqueue < LINK && r.pcs < 2 && r.stores == |Stores(r)| + 1
    && r' == r.(enqueue := NextEnqueue(r.enqueue), pcs := NextPcs(r.enqueue, r.pcs), stores := 0)
  }

  /** The consumer looks at its TRB: not its own; a Link to follow; or a transfer, field by field. */
  function Consume(r: Ring): Ring
    requires r.dequeue < 256 && r.ccs < 2
  {
    var t := r.mem[r.dequeue];
    match r.reading
    case Idle =>
      if CycleOf(t.control) != r.ccs then r
      else if IsLink(t.control) then r.(dequeue := 0, ccs := if ToggleOf(t.control) == 1 then 1 - r.ccs else r.ccs)
      else r.(reading := GotControl(t.control))
    case GotControl(c) => r.(reading := GotParam(c, t.param))
    case GotParam(c, p) => r.(reading := Idle, dequeue := r.dequeue + 1, got := r.got + [Trb(p, t.status, c)])
  }

  ghost predicate Step(r: Ring, r': Ring, bound: nat) {
    || (exists t :: Begins(r, t, r', bound)) || Puts(r, r') || Advances(r, r')
    || (r.dequeue < 256 && r.ccs < 2 && r' == Consume(r))
  }

  ghost predicate Run(rs: seq<Ring>, bound: nat) {
    rs != [] && Start(rs[0]) && forall k :: 0 <= k < |rs| - 1 ==> Step(rs[k], rs[k + 1], bound)
  }

  // ---- the invariant ------------------------------------------------------------------------------

  /** Where the `k`-th TRB ever posted goes, and its cycle bit. */
  function Slot(k: nat): nat { k % 255 }
  function Cycle(k: nat): nat { 1 - k / 255 % 2 }

  /** How many posts are complete, that is, have their control word in memory. */
  function Done(r: Ring): nat
  {
    if 1 <= r.stores <= 3 && |r.posted| > 0 then |r.posted| - 1 else |r.posted|
  }

  /** The post the producer's indices stand for. */
  function Current(r: Ring): nat {
    if r.stores > 0 && |r.posted| > 0 then |r.posted| - 1 else |r.posted|
  }

  ghost predicate ProducerOk(r: Ring) {
    && r.stores <= 5 && (r.stores > 0 ==> r.posted != [])
    && r.enqueue == Slot(Current(r)) && r.pcs == Cycle(Current(r))
    && (r.stores == 5 ==> r.enqueue + 1 == LINK)
    && (forall k :: 0 <= k < |r.posted| ==> CycleOf(r.posted[k].control) == Cycle(k) && !IsLink(r.posted[k].control))
    && (r.stores >= 2 ==> r.mem[r.enqueue].param == r.posted[Current(r)].param)
    && (r.stores >= 3 ==> r.mem[r.enqueue].status == r.posted[Current(r)].status)
  }

  /** How often the producer has handed the Link TRB over. */
  function Handed(r: Ring): nat {
    if r.stores == 5 then Current(r) / 255 + 1 else Current(r) / 255
  }

  ghost predicate LinkOk(r: Ring) {
    var c := r.mem[LINK].control;
    IsLink(c) && ToggleOf(c) == 1 && CycleOf(c) == if Handed(r) == 0 then 1 else 1 - (Handed(r) - 1) % 2
  }

  ghost predicate ConsumerOk(r: Ring, bound: nat) {
    && |r.got| <= Done(r) && |r.posted| - |r.got| <= bound <= 255
    && (forall k :: 0 <= k < |r.got| ==> r.got[k] == r.posted[k])
    && (if r.dequeue == LINK then |r.got| > 0 && Slot(|r.got|) == 0 && r.ccs == Cycle(|r.got| - 1) && r.reading == Idle
        else r.dequeue == Slot(|r.got|) && r.ccs == Cycle(|r.got|))
    && (r.reading != Idle ==> |r.got| < Done(r))
    && (r.reading.GotControl? ==> r.reading.control == r.posted[|r.got|].control)
    && (r.reading.GotParam? ==>
          r.reading.ctl == r.posted[|r.got|].control && r.reading.param == r.posted[|r.got|].param)
  }

  /** Unconsumed TRBs stand whole in their slots; every other slot carries the cycle bit of the lap before. */
  ghost predicate MemoryOk(r: Ring)
    requires |r.got| <= Done(r)
  {
    && (forall k :: |r.got| <= k < Done(r) ==> r.mem[Slot(k)] == r.posted[k])
    && (forall k :: Done(r) <= k < |r.got| + 255 ==> CycleOf(r.mem[Slot(k)].control) == 1 - Cycle(k))
  }

  ghost predicate Inv(r: Ring, bound: nat) {
    ProducerOk(r) && LinkOk(r) && ConsumerOk(r, bound) && MemoryOk(r)
  }

  lemma SlotsDiffer(a: nat, b: nat)
    requires a < b < a + 255
    ensures Slot(a) != Slot(b)
  {
  }

  lemma NextSlot(k: nat)
    ensures Slot(k + 1) == if Slot(k) + 1 == LINK then 0 else Slot(k) + 1
    ensures Cycle(k + 1) == if Slot(k) + 1 == LINK then 1 - Cycle(k) else Cycle(k)
    ensures (k + 1) / 255 == if Slot(k) + 1 == LINK then k / 255 + 1 else k / 255
    ensures Slot(k) < LINK && Cycle(k) < 2
    ensures Slot(k + 255) == Slot(k) && Cycle(k + 255) == 1 - Cycle(k)
  {
  }

  lemma StartOk(r: Ring, bound: nat)
    requires Start(r) && bound <= 255
    ensures Inv(r, bound)
  {
    hide Slot, Cycle, IsLink, CycleOf, ToggleOf;
    LinkControl();
    forall k | 0 <= k < 255
      ensures Slot(k) == k && Cycle(k) == 1 && CycleOf(r.mem[k].control) == 0
    {
      FirstLap(k);
    }
  }

  lemma LinkControl()
    ensures IsLink(LINK_CONTROL) && ToggleOf(LINK_CONTROL) == 1 && CycleOf(LINK_CONTROL) == 1 && CycleOf(0) == 0
  {
  }

  lemma FirstLap(k: nat)
    requires k < 255
    ensures Slot(k) == k && Cycle(k) == 1 && CycleOf(0) == 0
  {
  }

  lemma BeginOk(r: Ring, t: Trb, r': Ring, bound: nat)
    requires Inv(r, bound) && Begins(r, t, r', bound)
    ensures Inv(r', bound)
  {
    hide WithCycle, Slot, Cycle, IsLink, CycleOf, ToggleOf;
  }

  /** Storing a field of the post in progress disturbs no unconsumed TRB. */
  lemma PutOk(r: Ring, r': Ring, bound: nat)
    requires Inv(r, bound) && Puts(r, r')
    ensures Inv(r', bound)
  {
    hide WithCycle, Slot, Cycle, IsLink, CycleOf, ToggleOf;
    var n := |r.posted| - 1;
    NextSlot(n);
    forall k | |r.got| <= k < |r.got| + 255
      ensures Slot(k) < LINK && (k != n && |r.got| <= n ==> Slot(k) != Slot(n))
    {
      NextSlot(k);
      if |r.got| <= k < n { SlotsDiffer(k, n); } else if |r.got| <= n < k { SlotsDiffer(n, k); }
    }
    if r.stores == 3 {
      ControlOk(r, r', bound);
    } else if r.stores == 4 {
      HandOverOk(r, r', bound);
    }
  }

  lemma ControlOk(r: Ring, r': Ring, bound: nat)
    requires Inv(r, bound) && Puts(r, r') && r.stores == 3
    ensures Done(r') == Done(r) + 1 == |r.posted| && r'.mem[r.enqueue] == r.posted[|r.posted| - 1]
  {
    hide Slot, Cycle, IsLink, ToggleOf;
    var n := |r.posted| - 1;
    assert CycleOf(r.posted[n].control) == Cycle(n);
    SameCycle(r.posted[n].control, r.pcs);
  }

  lemma SameCycle(c: u32, b: nat)
    requires b < 2 && CycleOf(c) == b
    ensures WithCycle(c, b) == c
  {
  }

  /** The Link TRB gets the cycle bit of the lap that ends. */
  lemma HandOverOk(r: Ring, r': Ring, bound: nat)
    requires Inv(r, bound) && Puts(r, r') && r.stores == 4
    ensures LinkOk(r') && r'.mem == r.mem[LINK := r'.mem[LINK]] && r.enqueue + 1 == LINK
  {
    hide Slot, IsLink, ToggleOf;
    assert |Stores(r)| == 4;
    assert Handed(r') == Current(r) / 255 + 1;
    assert r.pcs == 1 - Current(r) / 255 % 2;
  }

  lemma AdvanceOk(r: Ring, r': Ring, bound: nat)
    requires Inv(r, bound) && Advances(r, r')
    ensures Inv(r', bound)
  {
    hide WithCycle, Slot, Cycle, IsLink, CycleOf, ToggleOf;
    NextSlot(|r.posted| - 1);
  }

  lemma ConsumeOk(r: Ring, bound: nat)
    requires Inv(r, bound)
    ensures r.dequeue < 256 && r.ccs < 2 && Inv(Consume(r), bound)
  {
    hide WithCycle, Slot, Cycle, CycleOf, IsLink, ProducerOk, MemoryOk;
    NextSlot(|r.got|);
    if |r.got| > 0 { NextSlot(|r.got| - 1); }
    if r.reading.GotParam? {
      DeliverOk(r, bound);
    } else {
      LookOk(r, bound);
    }
  }

  /** Looking at a TRB, following a Link and loading a field leave everything but the consumer's own state. */
  lemma LookOk(r: Ring, bound: nat)
    requires Inv(r, bound) && !r.reading.GotParam?
    ensures r.dequeue < 256 && r.ccs < 2 && Inv(Consume(r), bound)
  {
    hide WithCycle, Slot, Cycle, CycleOf, IsLink;
    var m := |r.got|;
    NextSlot(m);
    if m > 0 { NextSlot(m - 1); }
    if r.reading.Idle? {
      if r.dequeue != LINK && CycleOf(r.mem[r.dequeue].control) == r.ccs {
        OwnedIsPosted(r, bound);
      }
    } else {
      assert r.mem[Slot(m)] == r.posted[m];
    }
  }

  lemma DeliverOk(r: Ring, bound: nat)
    requires Inv(r, bound) && r.reading.GotParam?
    ensures r.dequeue < 256 && r.ccs < 2 && Inv(Consume(r), bound)
  {
    hide WithCycle, Slot, Cycle, CycleOf, IsLink, ToggleOf;
    var m := |r.got|;
    NextSlot(m);
    assert r.mem[Slot(m)] == r.posted[m];
    LapBefore(r, bound);
  }

  /** A TRB whose cycle bit matches is the next one posted, whole. */
  lemma OwnedIsPosted(r: Ring, bound: nat)
    requires Inv(r, bound) && r.dequeue != LINK && CycleOf(r.mem[r.dequeue].control) == r.ccs
    ensures |r.got| < Done(r) && r.mem[r.dequeue] == r.posted[|r.got|] && !IsLink(r.mem[r.dequeue].control)
  {
    hide Slot, CycleOf, IsLink;
    var m := |r.got|;
    if m >= Done(r) {
      Stale(r, bound);
    }
  }

  /** The slot of the next TRB, not yet posted, carries the other cycle bit. */
  lemma Stale(r: Ring, bound: nat)
    requires Inv(r, bound) && |r.got| >= Done(r)
    ensures Slot(|r.got|) < LINK && Cycle(|r.got|) < 2 && CycleOf(r.mem[Slot(|r.got|)].control) == 1 - Cycle(|r.got|)
  {
    hide CycleOf, Slot, Cycle, IsLink;
    NextSlot(|r.got|);
  }

  /** Once consumed, a slot counts as one of the lap before the next to use it. */
  lemma LapBefore(r: Ring, bound: nat)
    requires Inv(r, bound) && |r.got| < Done(r)
    ensures CycleOf(r.mem[Slot(|r.got| + 255)].control) == 1 - Cycle(|r.got| + 255)
  {
    hide CycleOf, IsLink, Slot, Cycle;
    NextSlot(|r.got|);
    assert r.mem[Slot(|r.got|)] == r.posted[|r.got|];
  }

  // ---- the theorems --------------------------------------------------------------------------------

  lemma StepOk(r: Ring, r': Ring, bound: nat)
    requires Inv(r, bound) && Step(r, r', bound)
    ensures Inv(r', bound)
  {
    hide Inv, Consume;
    if t :| Begins(r, t, r', bound) {
      BeginOk(r, t, r', bound);
    } else if Puts(r, r') {
      PutOk(r, r', bound);
    } else if Advances(r, r') {
      AdvanceOk(r, r', bound);
    } else {
      ConsumeOk(r, bound);
    }
  }

  lemma {:induction false} RunOk(rs: seq<Ring>, k: nat, bound: nat)
    requires Run(rs, bound) && k < |rs| && bound <= 255
    ensures Inv(rs[k], bound)
  {
    hide Inv, Step, Start;
    if k == 0 {
      StartOk(rs[0], bound);
    } else {
      RunOk(rs, k - 1, bound);
      assert Step(rs[k - 1], rs[k], bound);
      StepOk(rs[k - 1], rs[k], bound);
    }
  }

  /** In every interleaving the consumer has received a prefix of what was posted, whole and in order, through any
      number of wraps. Even a full ring is safe. */
  lemma FirstInFirstOut(rs: seq<Ring>, k: nat, bound: nat)
    requires Run(rs, bound) && k < |rs| && bound <= 255
    ensures rs[k].got <= rs[k].posted
  {
    hide Run, ProducerOk, LinkOk, MemoryOk;
    RunOk(rs, k, bound);
  }

  /** With at most 254 outstanding the consumer is never stuck: whatever the producer is doing, a complete post is
      received within four of the consumer's own steps. */
  lemma NotStuck(rs: seq<Ring>, k: nat)
    requires Run(rs, 254) && k < |rs| && |rs[k].got| < Done(rs[k])
    ensures var r := rs[k];
      exists n: nat :: n <= 4 && Consumes(r, n).got == r.got + [r.posted[|r.got|]]
  {
    hide Run, Inv;
    RunOk(rs, k, 254);
    var r := rs[k];
    var want := r.got + [r.posted[|r.got|]];
    if r.dequeue == LINK {
      FollowsLink(r);
      Reads(Consume(r), 254);
      FirstConsume(r);
      More(r, 1, 3);
      assert Consumes(r, 4).got == want;
    } else {
      Reads(r, 254);
      assert Consumes(r, 3).got == want || Consumes(r, 2).got == want || Consumes(r, 1).got == want;
    }
  }

  /** `n` steps of the consumer alone. */
  function Consumes(r: Ring, n: nat): Ring
    decreases n
  {
    if n == 0 then r else
      var q := Consumes(r, n - 1);
      if q.dequeue < 256 && q.ccs < 2 then Consume(q) else q
  }

  lemma FirstConsume(r: Ring)
    requires r.dequeue < 256 && r.ccs < 2
    ensures Consumes(r, 1) == Consume(r)
  {
    assert Consumes(r, 0) == r;
  }

  lemma {:induction false} More(r: Ring, a: nat, b: nat)
    ensures Consumes(Consumes(r, a), b) == Consumes(r, a + b)
  {
    if b > 0 {
      More(r, a, b - 1);
    }
  }

  /** At the Link with a complete post beyond it, the Link is the consumer's: it has been handed over once since the
      consumer last followed it. */
  lemma FollowsLink(r: Ring)
    requires Inv(r, 254) && r.dequeue == LINK && |r.got| < Done(r)
    ensures r.ccs < 2
    ensures var q := Consume(r);
      q.dequeue == 0 && q.reading == Idle && q.got == r.got && q.posted == r.posted && Done(q) == Done(r) && Inv(q, 254)
  {
    hide IsLink, ToggleOf;
    ConsumeOk(r, 254);
    var m := |r.got|;
    assert m % 255 == 0;
    HandedOnce(r);
    assert r.ccs == 1 - (m - 1) / 255 % 2;
  }

  lemma HandedOnce(r: Ring)
    requires Inv(r, 254) && |r.got| > 0 && |r.got| % 255 == 0 && |r.got| < Done(r)
    ensures Handed(r) == |r.got| / 255 == (|r.got| - 1) / 255 + 1
  {
    hide IsLink, ToggleOf, CycleOf, MemoryOk, LinkOk;
    Laps(|r.got|, Current(r));
  }

  lemma Laps(m: nat, n: nat)
    requires m > 0 && m % 255 == 0 && m <= n <= m + 254
    ensures n / 255 == m / 255 && (m - 1) / 255 == m / 255 - 1
    ensures n % 255 == 254 ==> n == m + 254
  {
  }

  lemma Reads(r: Ring, bound: nat)
    requires Inv(r, bound) && r.dequeue != LINK && |r.got| < Done(r)
    ensures r.ccs < 2 && r.dequeue < LINK
    ensures var want := r.(reading := Idle, dequeue := r.dequeue + 1, got := r.got + [r.posted[|r.got|]]);
      match r.reading
      case Idle => Consumes(r, 3) == want
      case GotControl(_) => Consumes(r, 2) == want
      case GotParam(_, _) => Consumes(r, 1) == want
  {
    hide Slot, Cycle, IsLink, CycleOf;
    var m := |r.got|;
    NextSlot(m);
    assert r.mem[Slot(m)] == r.posted[m];
    assert Consumes(r, 0) == r;
    assert Consumes(r, 1) == Consume(r);
  }

  /** With nothing unconsumed the consumer takes no TRB, stale or half-written. */
  lemma NothingStale(rs: seq<Ring>, k: nat, bound: nat)
    requires Run(rs, bound) && bound <= 255 && k < |rs| && |rs[k].got| == Done(rs[k])
    ensures rs[k].reading == Idle && rs[k].dequeue < 256 && rs[k].ccs < 2
    ensures Consume(rs[k]).got == rs[k].got && Consume(rs[k]).reading == Idle
  {
    hide Run, Slot, Cycle, IsLink, ToggleOf;
    RunOk(rs, k, bound);
    var r := rs[k];
    NextSlot(|r.got|);
    if |r.got| > 0 { NextSlot(|r.got| - 1); }
    if r.dequeue != LINK {
      assert CycleOf(r.mem[Slot(|r.got|)].control) == 1 - Cycle(|r.got|);
    }
  }

  // ---- the bound is tight -----------------------------------------------------------------------------

  /** One more step of a run. */
  lemma Longer(rs: seq<Ring>, r': Ring, bound: nat) returns (more: seq<Ring>)
    requires Run(rs, bound) && Step(rs[|rs| - 1], r', bound)
    ensures Run(more, bound) && more[|more| - 1] == r'
  {
    hide Step, Start;
    more := rs + [r'];
  }

  /** What a run has come to: between posts, the consumer idle. */
  ghost predicate Rests(rs: seq<Ring>, posted: nat, got: nat, dequeue: nat) {
    && Run(rs, 255)
    && var r := rs[|rs| - 1];
      |r.posted| == posted && |r.got| == got && r.dequeue == dequeue && r.stores == 0 && r.reading == Idle
  }

  /** The stores of a post, one after the other. */
  lemma PutRest(rs: seq<Ring>) returns (more: seq<Ring>)
    requires Run(rs, 255) && rs[|rs| - 1].stores > 0
    ensures Run(more, 255)
    ensures var r, r' := rs[|rs| - 1], more[|more| - 1];
      r' == r.(mem := r'.mem, stores := 0, enqueue := r'.enqueue, pcs := r'.pcs)
    decreases 6 - rs[|rs| - 1].stores
  {
    hide Run, LinkOk, MemoryOk, PostStores, Slot, Cycle;
    RunNonEmpty(rs, 255);
    var r := rs[|rs| - 1];
    RunOk(rs, |rs| - 1, 255);
    NextSlot(Current(r));
    if r.stores <= |Stores(r)| {
      var r' := r.(mem := Apply(r.mem, Stores(r)[r.stores - 1]), stores := r.stores + 1);
      assert Puts(r, r');
      more := Longer(rs, r', 255);
      RunNonEmpty(more, 255);
      more := PutRest(more);
    } else {
      FullyStored(r);
      var r' := r.(enqueue := NextEnqueue(r.enqueue), pcs := NextPcs(r.enqueue, r.pcs), stores := 0);
      assert Advances(r, r');
      more := Longer(rs, r', 255);
    }
  }

  lemma RunNonEmpty(rs: seq<Ring>, bound: nat)
    requires Run(rs, bound)
    ensures rs != []
  {
  }

  lemma FullyStored(r: Ring)
    requires Inv(r, 255) && r.stores > 0 && r.enqueue < LINK && r.pcs < 2 && r.stores > |Stores(r)|
    ensures r.stores == |Stores(r)| + 1
  {
  }

  lemma {:induction false} PostMany(rs: seq<Ring>, posted: nat, got: nat, dequeue: nat, n: nat)
    returns (more: seq<Ring>)
    requires Rests(rs, posted, got, dequeue) && posted + n - got <= 255
    ensures Rests(more, posted + n, got, dequeue)
    decreases n
  {
    hide Run;
    if n == 0 {
      more := rs;
    } else {
      more := PostOne(rs, posted, got, dequeue);
      more := PostMany(more, posted + 1, got, dequeue, n - 1);
    }
  }

  lemma PostOne(rs: seq<Ring>, posted: nat, got: nat, dequeue: nat) returns (more: seq<Ring>)
    requires Rests(rs, posted, got, dequeue) && posted + 1 - got <= 255
    ensures Rests(more, posted + 1, got, dequeue)
  {
    hide Run, LinkOk, MemoryOk, PostStores, Slot, Cycle, WithCycle;
    RunNonEmpty(rs, 255);
    RunOk(rs, |rs| - 1, 255);
    var r, t := rs[|rs| - 1], Normal(0, 0);
    NextSlot(Current(r));
    var r' := r.(posted := r.posted + [t.(control := WithCycle(t.control, r.pcs))], stores := 1);
    assert Begins(r, t, r', 255);
    more := Longer(rs, r', 255);
    RunNonEmpty(more, 255);
    more := PutRest(more);
  }

  lemma {:induction false} TakeMany(rs: seq<Ring>, posted: nat, got: nat, dequeue: nat, n: nat)
    returns (more: seq<Ring>)
    requires Rests(rs, posted, got, dequeue) && got + n <= posted && dequeue + n <= LINK
    ensures Rests(more, posted, got + n, dequeue + n)
    decreases n
  {
    hide Run;
    if n == 0 {
      more := rs;
    } else {
      more := TakeOne(rs, posted, got, dequeue);
      more := TakeMany(more, posted, got + 1, dequeue + 1, n - 1);
    }
  }

  lemma TakeOne(rs: seq<Ring>, posted: nat, got: nat, dequeue: nat) returns (more: seq<Ring>)
    requires Rests(rs, posted, got, dequeue) && got < posted && dequeue < LINK
    ensures Rests(more, posted, got + 1, dequeue + 1)
  {
    hide Run, Inv, Consume;
    RunNonEmpty(rs, 255);
    RunOk(rs, |rs| - 1, 255);
    Reads(rs[|rs| - 1], 255);
    more := ConsumeMany(rs, 3);
  }

  lemma {:induction false} ConsumeMany(rs: seq<Ring>, n: nat) returns (more: seq<Ring>)
    requires Run(rs, 255)
    ensures rs != [] && Run(more, 255) && more != [] && more[|more| - 1] == Consumes(rs[|rs| - 1], n)
    decreases n
  {
    hide Run, Consume, Inv;
    RunNonEmpty(rs, 255);
    if n == 0 {
      more := rs;
    } else {
      more := ConsumeMany(rs, n - 1);
      RunOk(more, |more| - 1, 255);
      ConsumeOk(more[|more| - 1], 255);
      more := Longer(more, Consume(more[|more| - 1]), 255);
      RunNonEmpty(more, 255);
    }
  }

  /** Why 254 and no more: with 255 allowed there is a run after which nothing ever moves again, although 255
      complete posts wait for the consumer. The ring is filled, emptied without following the Link, and filled again;
      the wrap hands the Link over a second time before the consumer has followed it. */
  lemma OneMoreStalls() returns (rs: seq<Ring>)
    ensures Run(rs, 255)
    ensures var r := rs[|rs| - 1];
      |r.got| == 255 && Done(r) == 510 && forall r' :: Step(r, r', 255) ==> r' == r
  {
    hide Run, MemoryOk;
    rs := FirstRing();
    rs := PostMany(rs, 0, 0, 0, 255);
    rs := TakeMany(rs, 255, 0, 0, 255);
    rs := PostMany(rs, 255, 255, 255, 255);
    RunNonEmpty(rs, 255);
    RunOk(rs, |rs| - 1, 255);
    assert Handed(rs[|rs| - 1]) == 2;
  }

  lemma FirstRing() returns (rs: seq<Ring>)
    ensures Rests(rs, 0, 0, 0)
  {
    rs := [Ring(EmptyRing(), 0, 1, 0, [], 0, 1, Idle, [])];
  }
}
