/** The single-producer single-consumer ring, whose only synchronisation is one `valid` flag per slot. */
module PcQueue {
  import opened Common

  // The first part is a step machine in which every read or write of a shared field is a step of
  // its own, so that a schedule (a sequence of moves) stands for one interleaving of the two sides.
  // The reference is a bounded FIFO over the visible events.  The second part is the ring as it is
  // called, an object over an array of slots.

  /** One queued triple.  Pointers are numbers, NULL is 0. */
  datatype Item = Item(data: nat, paraInt: int, para: nat)

  datatype Slot = Slot(valid: bool, item: Item)

  /** Which of the two optional out-parameters the consumer passed as non-NULL. */
  datatype Want = Want(paraInt: bool, para: bool)

  /** What one successful dequeue hands back. */
  datatype Got = Got(data: nat, paraInt: Option<int>, para: Option<nat>)

  /** A dequeue that found something: what was asked for, and what was handed back. */
  datatype Delivery = Delivery(want: Want, got: Got)

  // Where each side stands inside its call; the name says what it does next.
  datatype ProdPc = PIdle | PData(it: Item) | PInt(it: Item) | PPara(it: Item) | PValid(it: Item) | PNext
  datatype ConsPc =
    | CIdle
    | CData(want: Want)
    | CInt(want: Want, data: nat)
    | CPara(want: Want, data: nat, i: Option<int>)
    | CClear(want: Want, got: Got)
    | CNext

  datatype State = State(slots: seq<Slot>, p: nat, c: nat, prod: ProdPc, cons: ConsPc)

  datatype Event = Tau | Published(item: Item) | Refused | Took(delivery: Delivery) | Empty

  datatype Move = Produce(item: Item) | Consume(want: Want)

  predicate Shape(s: State) {
    s.p < |s.slots| && s.c < |s.slots|
  }

  /** The slot after slot `i`: the tail is followed by the head. */
  function Succ(n: nat, i: nat): nat
    requires i < n
  {
    if i == n - 1 then 0 else i + 1
  }

  /** The slot `k` places after slot `h`. */
  function At(n: nat, h: nat, k: nat): nat
    requires h < n && k <= n
  {
    if h + k < n then h + k else h + k - n
  }

  function Create(n: nat): State
    requires n >= 1
  {
    State(seq(n, _ => Slot(false, Item(0, 0, 0))), 0, 0, PIdle, CIdle)
  }

  function SetItem(s: State, i: nat, it: Item): State
    requires i < |s.slots|
  {
    s.(slots := s.slots[i := s.slots[i].(item := it)])
  }

  function SetValid(s: State, i: nat, v: bool): State
    requires i < |s.slots|
  {
    s.(slots := s.slots[i := s.slots[i].(valid := v)])
  }

  /** One step of the producer; `it` matters only when a new call starts. */
  function ProdStep(s: State, it: Item): (r: (State, Event))
    requires Shape(s)
    ensures Shape(r.0) && |r.0.slots| == |s.slots|
  {
    var cur := s.slots[s.p].item;
    match s.prod
    case PIdle => if s.slots[s.p].valid then (s, Refused) else (s.(prod := PData(it)), Tau)
    case PData(x) => (SetItem(s, s.p, cur.(data := x.data)).(prod := PInt(x)), Tau)
    case PInt(x) => (SetItem(s, s.p, cur.(paraInt := x.paraInt)).(prod := PPara(x)), Tau)
    case PPara(x) => (SetItem(s, s.p, cur.(para := x.para)).(prod := PValid(x)), Tau)
    case PValid(x) => (SetValid(s, s.p, true).(prod := PNext), Published(x))
    case PNext => (s.(p := Succ(|s.slots|, s.p), prod := PIdle), Tau)
  }

  /** One step of the consumer; `want` matters only when a new call starts. */
  function ConsStep(s: State, want: Want): (r: (State, Event))
    requires Shape(s)
    ensures Shape(r.0) && |r.0.slots| == |s.slots|
  {
    var cur := s.slots[s.c].item;
    match s.cons
    case CIdle => if !s.slots[s.c].valid then (s, Empty) else (s.(cons := CData(want)), Tau)
    case CData(w) => (s.(cons := CInt(w, cur.data)), Tau)
    case CInt(w, d) => (s.(cons := CPara(w, d, if w.paraInt then Some(cur.paraInt) else None)), Tau)
    case CPara(w, d, i) => (s.(cons := CClear(w, Got(d, i, if w.para then Some(cur.para) else None))), Tau)
    case CClear(w, g) => (SetValid(s, s.c, false).(cons := CNext), Took(Delivery(w, g)))
    case CNext => (s.(c := Succ(|s.slots|, s.c), cons := CIdle), Tau)
  }

  function Step(s: State, m: Move): (r: (State, Event))
    requires Shape(s)
    ensures Shape(r.0) && |r.0.slots| == |s.slots|
  {
    match m
    case Produce(it) => ProdStep(s, it)
    case Consume(w) => ConsStep(s, w)
  }

  /** The state and the events after a whole schedule. */
  function Run(s: State, moves: seq<Move>): (r: (State, seq<Event>))
    requires Shape(s)
    ensures Shape(r.0) && |r.0.slots| == |s.slots|
    decreases |moves|
  {
    if moves == [] then (s, [])
    else
      var (s', ev) := Step(s, moves[0]);
      var (s'', evs) := Run(s', moves[1..]);
      (s'', [ev] + evs)
  }

  // ----- The reference: a FIFO that holds at most n items -----

  /** The data always, each out-parameter exactly if it was asked for, and all of one item. */
  predicate Matches(d: Delivery, it: Item) {
    && d.got.data == it.data
    && d.got.paraInt == (if d.want.paraInt then Some(it.paraInt) else None)
    && d.got.para == (if d.want.para then Some(it.para) else None)
  }

  /** What a bounded FIFO holding `q` does on an event; None when it does not allow it. */
  function FifoStep(n: nat, q: seq<Item>, ev: Event): Option<seq<Item>> {
    match ev
    case Tau => Some(q)
    case Published(it) => if |q| < n then Some(q + [it]) else None
    case Refused => if |q| == n then Some(q) else None
    case Took(d) => if q != [] && Matches(d, q[0]) then Some(q[1..]) else None
    case Empty => if q == [] then Some(q) else None
  }

  function FifoRun(n: nat, q: seq<Item>, evs: seq<Event>): Option<seq<Item>>
    decreases |evs|
  {
    if evs == [] then Some(q)
    else
      match FifoStep(n, q, evs[0])
      case None => None
      case Some(q') => FifoRun(n, q', evs[1..])
  }

  // ----- The invariant that ties ring and FIFO -----

  /** The first slot whose item has not been taken. */
  function Head(s: State): nat
    requires Shape(s)
  {
    if s.cons.CNext? then Succ(|s.slots|, s.c) else s.c
  }

  /** The slot the next publication goes to. */
  function Tail(s: State): nat
    requires Shape(s)
  {
    if s.prod.PNext? then Succ(|s.slots|, s.p) else s.p
  }

  /** The producer's slot is empty while it fills it, and holds what it has written so far. */
  ghost predicate ProdInv(s: State, q: seq<Item>)
    requires Shape(s)
  {
    var cur := s.slots[s.p].item;
    match s.prod
    case PIdle => true
    case PData(x) => |q| < |s.slots|
    case PInt(x) => |q| < |s.slots| && cur.data == x.data
    case PPara(x) => |q| < |s.slots| && cur.data == x.data && cur.paraInt == x.paraInt
    case PValid(x) => |q| < |s.slots| && cur == x
    case PNext => true
  }

  /** What the consumer has copied so far belongs to the oldest item. */
  ghost predicate ConsInv(s: State, q: seq<Item>) {
    match s.cons
    case CIdle => true
    case CData(w) => q != []
    case CInt(w, d) => q != [] && d == q[0].data
    case CPara(w, d, i) => q != [] && d == q[0].data && i == if w.paraInt then Some(q[0].paraInt) else None
    case CClear(w, g) => q != [] && Matches(Delivery(w, g), q[0])
    case CNext => true
  }

  /** The valid slots are exactly the |q| slots from Head on, and hold the items of `q` in order. */
  ghost predicate Inv(s: State, q: seq<Item>) {
    && Shape(s)
    && |q| <= |s.slots|
    && Tail(s) == At(|s.slots|, Head(s), |q|)
    && (forall k | 0 <= k < |s.slots| :: s.slots[At(|s.slots|, Head(s), k)].valid <==> k < |q|)
    && (forall k | 0 <= k < |q| :: s.slots[At(|s.slots|, Head(s), k)].item == q[k])
    && ProdInv(s, q)
    && ConsInv(s, q)
  }

  /** A producer step outside the valid slots disturbs nobody. */
  lemma ProdSimulates(s: State, q: seq<Item>, it: Item)
    requires Inv(s, q)
    ensures var (s', ev) := ProdStep(s, it);
      var q' := FifoStep(|s.slots|, q, ev);
      q'.Some? && Inv(s', q'.value)
  {
    var n, h := |s.slots|, Head(s);
    match s.prod {
      case PIdle =>
        if |q| < n {
          assert !s.slots[At(n, h, |q|)].valid;
        } else {
          assert s.slots[At(n, h, 0)].valid;
        }
      case PValid(x) =>
        PublishSimulates(s, q, it);
      case PNext =>
      case _ =>
        FillSimulates(s, q, it);
    }
  }

  lemma FillSimulates(s: State, q: seq<Item>, it: Item)
    requires Inv(s, q) && (s.prod.PData? || s.prod.PInt? || s.prod.PPara?)
    ensures ProdStep(s, it).1 == Tau && Inv(ProdStep(s, it).0, q)
  {
    var n, h := |s.slots|, Head(s);
    var s' := ProdStep(s, it).0;
    forall k | 0 <= k < n && k != |q|
      ensures s'.slots[At(n, h, k)] == s.slots[At(n, h, k)]
    {
    }
    assert s'.slots[At(n, h, |q|)].valid == s.slots[At(n, h, |q|)].valid;
  }

  lemma PublishSimulates(s: State, q: seq<Item>, it: Item)
    requires Inv(s, q) && s.prod.PValid?
    ensures ProdStep(s, it).1 == Published(s.prod.it) && Inv(ProdStep(s, it).0, q + [s.prod.it])
  {
    var n, h := |s.slots|, Head(s);
    var s' := ProdStep(s, it).0;
    forall k | 0 <= k < n && k != |q|
      ensures s'.slots[At(n, h, k)] == s.slots[At(n, h, k)]
    {
    }
    assert s'.slots[At(n, h, |q|)] == Slot(true, s.prod.it);
  }

  lemma ConsSimulates(s: State, q: seq<Item>, want: Want)
    requires Inv(s, q)
    ensures var (s', ev) := ConsStep(s, want);
      var q' := FifoStep(|s.slots|, q, ev);
      q'.Some? && Inv(s', q'.value)
  {
    var n, h := |s.slots|, Head(s);
    match s.cons {
      case CIdle =>
        assert s.slots[At(n, h, 0)].valid <==> 0 < |q|;
      case CClear(_, _) =>
        TakeSimulates(s, q, want);
      case CNext =>
        assert Head(ConsStep(s, want).0) == h;
      case _ =>
        assert s.c == At(n, h, 0) && s.slots[s.c].item == q[0];
    }
  }

  lemma TakeSimulates(s: State, q: seq<Item>, want: Want)
    requires Inv(s, q) && s.cons.CClear?
    ensures var s' := ConsStep(s, want).0;
      && ConsStep(s, want).1 == Took(Delivery(s.cons.want, s.cons.got))
      && s' == s.(slots := s.slots[s.c := s.slots[s.c].(valid := false)], cons := CNext)
      && Inv(s', q[1..])
  {
    var n, h := |s.slots|, Head(s);
    var s' := ConsStep(s, want).0;
    var h' := Head(s');
    assert s.c == At(n, h, 0);
    forall k | 0 <= k < n
      ensures At(n, h', k) == At(n, h, if k + 1 < n then k + 1 else 0)
    {
    }
    forall k | 1 <= k < n
      ensures s'.slots[At(n, h, k)] == s.slots[At(n, h, k)]
    {
    }
  }

  /** From any state that stands for `q`, every interleaving is a history of the bounded FIFO. */
  lemma {:induction false} RunSimulates(s: State, q: seq<Item>, moves: seq<Move>)
    requires Inv(s, q)
    ensures var (s', evs) := Run(s, moves);
      var q' := FifoRun(|s.slots|, q, evs);
      q'.Some? && Inv(s', q'.value)
    decreases |moves|
  {
    if moves == [] {
    } else {
      match moves[0] {
        case Produce(it) => ProdSimulates(s, q, it);
        case Consume(w) => ConsSimulates(s, q, w);
      }
      var (s', ev) := Step(s, moves[0]);
      var q' := FifoStep(|s.slots|, q, ev).value;
      RunSimulates(s', q', moves[1..]);
      var (_, evs) := Run(s', moves[1..]);
      assert Run(s, moves).1[0] == ev && Run(s, moves).1[1..] == evs;
    }
  }

  /** Main result: the ring with n slots refines the FIFO of capacity n. */
  lemma RingRefinesFifo(n: nat, moves: seq<Move>)
    requires n >= 1
    ensures FifoRun(n, [], Run(Create(n), moves).1).Some?
  {
    RunSimulates(Create(n), [], moves);
  }

  // ----- What a FIFO history means for the data -----

  function PublishedBy(ev: Event): seq<Item> {
    if ev.Published? then [ev.item] else []
  }

  function TakenBy(ev: Event): seq<Delivery> {
    if ev.Took? then [ev.delivery] else []
  }

  function AllPublished(evs: seq<Event>): seq<Item> {
    if evs == [] then [] else PublishedBy(evs[0]) + AllPublished(evs[1..])
  }

  function AllTaken(evs: seq<Event>): seq<Delivery> {
    if evs == [] then [] else TakenBy(evs[0]) + AllTaken(evs[1..])
  }

  /** The deliveries match, one for one and in order, the first entries of `items`. */
  ghost predicate MatchPrefix(taken: seq<Delivery>, items: seq<Item>) {
    |taken| <= |items| && forall i | 0 <= i < |taken| :: Matches(taken[i], items[i])
  }

  lemma {:induction false} FifoHistory(n: nat, q: seq<Item>, evs: seq<Event>)
    requires |q| <= n && FifoRun(n, q, evs).Some?
    ensures MatchPrefix(AllTaken(evs), q + AllPublished(evs))
    ensures FifoRun(n, q, evs).value == (q + AllPublished(evs))[|AllTaken(evs)|..]
    ensures |FifoRun(n, q, evs).value| <= n
    decreases |evs|
  {
    if evs == [] {
    } else {
      var q' := FifoStep(n, q, evs[0]).value;
      FifoHistory(n, q', evs[1..]);
      OneEventMore(n, q, evs[0], q', AllTaken(evs[1..]), AllPublished(evs[1..]));
    }
  }

  /** The history from `q'` on, seen from `q`. */
  lemma OneEventMore(n: nat, q: seq<Item>, ev: Event, q': seq<Item>, taken: seq<Delivery>, published: seq<Item>)
    requires FifoStep(n, q, ev) == Some(q') && MatchPrefix(taken, q' + published)
    ensures MatchPrefix(TakenBy(ev) + taken, q + (PublishedBy(ev) + published))
    ensures (q + (PublishedBy(ev) + published))[|TakenBy(ev) + taken|..] == (q' + published)[|taken|..]
  {
    StepBalance(n, q, ev);
    var head := q[..|TakenBy(ev)|];
    assert q + (PublishedBy(ev) + published) == (q + PublishedBy(ev)) + published == head + (q' + published);
    HistoryCons(TakenBy(ev), head, taken, q' + published);
  }

  /** One event: what was held plus what is published is what is taken plus what is held after. */
  lemma StepBalance(n: nat, q: seq<Item>, ev: Event)
    requires FifoStep(n, q, ev).Some?
    ensures |TakenBy(ev)| <= |q| && MatchPrefix(TakenBy(ev), q[..|TakenBy(ev)|])
    ensures q + PublishedBy(ev) == q[..|TakenBy(ev)|] + FifoStep(n, q, ev).value
  {
  }

  lemma HistoryCons(taken1: seq<Delivery>, items1: seq<Item>, taken2: seq<Delivery>, items2: seq<Item>)
    requires |taken1| == |items1| && MatchPrefix(taken1, items1) && MatchPrefix(taken2, items2)
    ensures MatchPrefix(taken1 + taken2, items1 + items2)
    ensures (items1 + items2)[|taken1 + taken2|..] == items2[|taken2|..]
  {
  }

  // ----- The callers' side: which calls the events belong to -----

  /** A move that starts an enqueue which is let in. */
  function OfferedBy(s: State, m: Move): seq<Item>
    requires Shape(s)
  {
    if m.Produce? && s.prod.PIdle? && !s.slots[s.p].valid then [m.item] else []
  }

  /** A move that starts a dequeue which finds something. */
  function AskedBy(s: State, m: Move): seq<Want>
    requires Shape(s)
  {
    if m.Consume? && s.cons.CIdle? && s.slots[s.c].valid then [m.want] else []
  }

  /** The items of the enqueues that were let in, in the order of their calls. */
  function Offered(s: State, moves: seq<Move>): seq<Item>
    requires Shape(s)
    decreases |moves|
  {
    if moves == [] then [] else OfferedBy(s, moves[0]) + Offered(Step(s, moves[0]).0, moves[1..])
  }

  /** What the dequeues that found something asked for, in the order of their calls. */
  function Asked(s: State, moves: seq<Move>): seq<Want>
    requires Shape(s)
    decreases |moves|
  {
    if moves == [] then [] else AskedBy(s, moves[0]) + Asked(Step(s, moves[0]).0, moves[1..])
  }

  /** The item of an enqueue that has not published it yet. */
  function OfferedNow(p: ProdPc): seq<Item> {
    if p.PIdle? || p.PNext? then [] else [p.it]
  }

  function AskedNow(c: ConsPc): seq<Want> {
    if c.CIdle? || c.CNext? then [] else [c.want]
  }

  function Wants(taken: seq<Delivery>): (r: seq<Want>)
    ensures |r| == |taken| && forall i | 0 <= i < |taken| :: r[i] == taken[i].want
  {
    seq(|taken|, i requires 0 <= i < |taken| => taken[i].want)
  }

  lemma OneOfferMore(s: State, m: Move)
    requires Shape(s)
    ensures var (s1, ev) := Step(s, m);
      PublishedBy(ev) + OfferedNow(s1.prod) == OfferedNow(s.prod) + OfferedBy(s, m)
  {
  }

  lemma OneRequestMore(s: State, m: Move)
    requires Shape(s)
    ensures var (s1, ev) := Step(s, m);
      Wants(TakenBy(ev)) + AskedNow(s1.cons) == AskedNow(s.cons) + AskedBy(s, m)
  {
  }

  lemma RunCons(s: State, moves: seq<Move>, s1: State, ev: Event, s': State, evs: seq<Event>)
    requires Shape(s) && moves != [] && Step(s, moves[0]) == (s1, ev) && Run(s1, moves[1..]) == (s', evs)
    ensures Run(s, moves).0 == s'
    ensures AllPublished(Run(s, moves).1) == PublishedBy(ev) + AllPublished(evs)
    ensures AllTaken(Run(s, moves).1) == TakenBy(ev) + AllTaken(evs)
  {
    assert Run(s, moves).1[0] == ev && Run(s, moves).1[1..] == evs;
  }

  /** What comes out and is held at the end is what was held at first and came in. */
  lemma Chain<T>(a: seq<T>, held1: seq<T>, held: seq<T>, o: seq<T>, b: seq<T>, held': seq<T>, more: seq<T>)
    requires a + held1 == held + o && b + held' == held1 + more
    ensures (a + b) + held' == held + (o + more)
  {
    assert (a + b) + held' == a + (b + held') == a + (held1 + more) == (a + held1) + more;
    assert (held + o) + more == held + (o + more);
  }

  lemma {:induction false} OffersArePublished(s: State, moves: seq<Move>)
    requires Shape(s)
    ensures var (s', evs) := Run(s, moves);
      AllPublished(evs) + OfferedNow(s'.prod) == OfferedNow(s.prod) + Offered(s, moves)
    decreases |moves|
  {
    if moves == [] {
    } else {
      var (s1, ev) := Step(s, moves[0]);
      var (s', evs) := Run(s1, moves[1..]);
      OffersArePublished(s1, moves[1..]);
      RunCons(s, moves, s1, ev, s', evs);
      OneOfferMore(s, moves[0]);
      Chain(PublishedBy(ev), OfferedNow(s1.prod), OfferedNow(s.prod), OfferedBy(s, moves[0]),
            AllPublished(evs), OfferedNow(s'.prod), Offered(s1, moves[1..]));
    }
  }

  lemma WantsConcat(a: seq<Delivery>, b: seq<Delivery>)
    ensures Wants(a + b) == Wants(a) + Wants(b)
  {
  }

  lemma {:induction false} RequestsAreMet(s: State, moves: seq<Move>)
    requires Shape(s)
    ensures var (s', evs) := Run(s, moves);
      Wants(AllTaken(evs)) + AskedNow(s'.cons) == AskedNow(s.cons) + Asked(s, moves)
    decreases |moves|
  {
    if moves == [] {
    } else {
      var (s1, ev) := Step(s, moves[0]);
      var (s', evs) := Run(s1, moves[1..]);
      RequestsAreMet(s1, moves[1..]);
      RunCons(s, moves, s1, ev, s', evs);
      OneRequestMore(s, moves[0]);
      WantsConcat(TakenBy(ev), AllTaken(evs));
      Chain(Wants(TakenBy(ev)), AskedNow(s1.cons), AskedNow(s.cons), AskedBy(s, moves[0]),
            Wants(AllTaken(evs)), AskedNow(s'.cons), Asked(s1, moves[1..]));
    }
  }

  /**
   No interleaving tears, drops, repeats or reorders an entry: the n-th dequeue that finds something
   hands back, of the item of the n-th enqueue that is let in, the data and exactly what it asked for.
   */
  lemma DeliveredIsPrefixOfEnqueued(n: nat, moves: seq<Move>)
    requires n >= 1
    ensures var taken := AllTaken(Run(Create(n), moves).1);
      var (offered, asked) := (Offered(Create(n), moves), Asked(Create(n), moves));
      && |taken| <= |offered| && |taken| <= |asked| <= |taken| + 1
      && forall i | 0 <= i < |taken| :: taken[i].want == asked[i] && Matches(taken[i], offered[i])
    ensures var evs := Run(Create(n), moves).1;
      && MatchPrefix(AllTaken(evs), AllPublished(evs)) && AllPublished(evs) <= Offered(Create(n), moves)
      && |AllPublished(evs)| - |AllTaken(evs)| <= n && |Offered(Create(n), moves)| <= |AllPublished(evs)| + 1
  {
    var (s', evs) := Run(Create(n), moves);
    RingRefinesFifo(n, moves);
    FifoHistory(n, [], evs);
    assert [] + AllPublished(evs) == AllPublished(evs);
    OffersArePublished(Create(n), moves);
    RequestsAreMet(Create(n), moves);
    Reached(Create(n).prod, AllTaken(evs), AllPublished(evs), Offered(Create(n), moves), OfferedNow(s'.prod),
            Asked(Create(n), moves), AskedNow(s'.cons));
  }

  lemma Reached(p: ProdPc, taken: seq<Delivery>, published: seq<Item>, offered: seq<Item>, rest: seq<Item>,
                asked: seq<Want>, more: seq<Want>)
    requires MatchPrefix(taken, published) && p == PIdle && |rest| <= 1 && |more| <= 1
    requires published + rest == [] + offered && Wants(taken) + more == [] + asked
    ensures published <= offered && |offered| <= |published| + 1 && |taken| <= |asked| <= |taken| + 1
    ensures forall i | 0 <= i < |taken| :: taken[i].want == asked[i] && Matches(taken[i], offered[i])
  {
    assert [] + offered == offered && [] + asked == asked;
    forall i | 0 <= i < |taken|
      ensures taken[i].want == asked[i] && Matches(taken[i], offered[i])
    {
      assert (Wants(taken) + more)[i] == Wants(taken)[i] && (published + rest)[i] == published[i];
    }
  }

  /** After any interleaving, a refusal means n undelivered items, a miss means none. */
  lemma RefusalAndMissAreExact(n: nat, moves: seq<Move>, it: Item, want: Want)
    requires n >= 1
    ensures var (s, evs) := Run(Create(n), moves);
      var waiting := |AllPublished(evs)| - |AllTaken(evs)|;
      && (s.prod.PIdle? ==> (ProdStep(s, it).1.Refused? <==> waiting == n))
      && (s.cons.CIdle? ==> (ConsStep(s, want).1.Empty? <==> waiting == 0))
  {
    var (s, evs) := Run(Create(n), moves);
    RunSimulates(Create(n), [], moves);
    var q := FifoRun(n, [], evs).value;
    FifoHistory(n, [], evs);
    assert [] + AllPublished(evs) == AllPublished(evs);
    ProdSimulates(s, q, it);
    ConsSimulates(s, q, want);
  }

  // ----- The ring as an object -----

  /** `k` producer steps in a row. */
  function ProdRun(s: State, it: Item, k: nat): (r: State)
    requires Shape(s)
    ensures Shape(r) && |r.slots| == |s.slots|
    decreases k
  {
    if k == 0 then s else ProdRun(ProdStep(s, it).0, it, k - 1)
  }

  function ConsRun(s: State, want: Want, k: nat): (r: State)
    requires Shape(s)
    ensures Shape(r) && |r.slots| == |s.slots|
    decreases k
  {
    if k == 0 then s else ConsRun(ConsStep(s, want).0, want, k - 1)
  }

  /** A call that finds room is six steps; together they publish `it` in the next slot. */
  lemma SoloEnqueue(s: State, q: seq<Item>, it: Item)
    requires Inv(s, q) && s.prod.PIdle? && !s.slots[s.p].valid
    ensures ProdRun(s, it, 6) == s.(slots := s.slots[s.p := Slot(true, it)], p := Succ(|s.slots|, s.p))
    ensures |q| < |s.slots| && Inv(ProdRun(s, it, 6), q + [it])
  {
    var s1 := ProdStep(s, it).0;
    var s2 := ProdStep(s1, it).0;
    var s3 := ProdStep(s2, it).0;
    var s4 := ProdStep(s3, it).0;
    var s5 := ProdStep(s4, it).0;
    var s6 := ProdStep(s5, it).0;
    assert s4.slots == s.slots[s.p := Slot(false, it)];
    assert s5.slots == s.slots[s.p := Slot(true, it)];
    assert ProdRun(s5, it, 1) == ProdRun(s6, it, 0) == s6;
    assert ProdRun(s, it, 6) == ProdRun(s1, it, 5) == ProdRun(s2, it, 4) == ProdRun(s3, it, 3)
        == ProdRun(s4, it, 2) == ProdRun(s5, it, 1);
    ProdSimulates(s, q, it);
    FillSimulates(s1, q, it);
    FillSimulates(s2, q, it);
    FillSimulates(s3, q, it);
    PublishSimulates(s4, q, it);
    ProdSimulates(s5, q + [it], it);
  }

  /** A call that finds an item is six steps; together they take it and hand back what was asked for. */
  lemma SoloDequeue(s: State, q: seq<Item>, want: Want) returns (got: Got)
    requires Inv(s, q) && s.cons.CIdle? && s.slots[s.c].valid
    ensures q != [] && s.slots[s.c].item == q[0] && Matches(Delivery(want, got), q[0])
    ensures ConsStep(ConsRun(s, want, 4), want).1 == Took(Delivery(want, got))
    ensures ConsRun(s, want, 6) ==
      s.(slots := s.slots[s.c := s.slots[s.c].(valid := false)], c := Succ(|s.slots|, s.c))
    ensures Inv(ConsRun(s, want, 6), q[1..])
  {
    assert s.c == At(|s.slots|, Head(s), 0);
    var s4 := SoloCopy(s, q, want);
    got := s4.cons.got;
    TakeSimulates(s4, q, want);
    var s5 := ConsStep(s4, want).0;
    assert s5.cons == CNext;
    var s6 := ConsStep(s5, want).0;
    assert ConsRun(s4, want, 2) == ConsRun(s5, want, 1) == ConsRun(s6, want, 0) == s6;
  }

  /** The first four consumer steps only read. */
  lemma SoloCopy(s: State, q: seq<Item>, want: Want) returns (s4: State)
    requires Inv(s, q) && s.cons.CIdle? && s.slots[s.c].valid
    ensures s4.cons.CClear? && s4.cons.want == want && s4 == s.(cons := s4.cons) && Inv(s4, q)
    ensures s4 == ConsRun(s, want, 4) && ConsRun(s, want, 6) == ConsRun(s4, want, 2)
  {
    var s1 := ConsStep(s, want).0;
    var s2 := ConsStep(s1, want).0;
    var s3 := ConsStep(s2, want).0;
    s4 := ConsStep(s3, want).0;
    assert ConsRun(s, want, 6) == ConsRun(s1, want, 5) == ConsRun(s2, want, 4) == ConsRun(s3, want, 3)
        == ConsRun(s4, want, 2);
    assert ConsRun(s, want, 4) == ConsRun(s1, want, 3) == ConsRun(s2, want, 2) == ConsRun(s3, want, 1)
        == ConsRun(s4, want, 0) == s4;
    ConsSimulates(s, q, want);
    ConsSimulates(s1, q, want);
    ConsSimulates(s2, q, want);
    ConsSimulates(s3, q, want);
  }

  class Ring {
    const nrEntry: nat
    const entries: array<Slot>
    var pPtr: nat
    var cPtr: nat
    ghost var contents: seq<Item>

    /** The object seen as a state of the step machine with both sides outside a call. */
    ghost function View(): State
      reads this, entries
    {
      State(entries[..], pPtr, cPtr, PIdle, CIdle)
    }

    ghost predicate Valid()
      reads this, entries
    {
      entries.Length == nrEntry && Inv(View(), contents)
    }

    constructor (size: nat)
      requires size >= 1
      ensures Valid() && fresh(entries) && nrEntry == size && contents == [] && View() == Create(size)
    {
      nrEntry := size;
      entries := new Slot[size](_ => Slot(false, Item(0, 0, 0)));
      pPtr, cPtr := 0, 0;
      contents := [];
      new;
      assert View() == Create(size);
    }

    /** Returns 1 and changes nothing exactly when all slots hold undelivered items. */
    method EnqTry(it: Item) returns (ret: int)
      requires Valid()
      modifies this, entries
      ensures Valid()
      ensures ret == if |old(contents)| == nrEntry then 1 else 0
      ensures contents == if |old(contents)| == nrEntry then old(contents) else old(contents) + [it]
      ensures ret == 0 ==> View() == ProdRun(old(View()), it, 6)
      ensures ret == 1 ==> View() == old(View())
    {
      ghost var s0 := View();
      ProdSimulates(s0, contents, it);
      if entries[pPtr].valid {
        return 1;
      }
      SoloEnqueue(s0, contents, it);
      var p := pPtr;
      entries[p] := entries[p].(item := entries[p].item.(data := it.data));
      entries[p] := entries[p].(item := entries[p].item.(paraInt := it.paraInt));
      entries[p] := entries[p].(item := entries[p].item.(para := it.para));
      entries[p] := entries[p].(valid := true);
      assert entries[..] == s0.slots[p := Slot(true, it)];
      if pPtr == nrEntry - 1 {
        pPtr := 0;
      } else {
        pPtr := pPtr + 1;
      }
      contents := contents + [it];
      return 0;
    }

    /** None (the NULL return) exactly when nothing is queued, else the oldest item. */
    method OutqTry(want: Want) returns (r: Option<Got>)
      requires Valid()
      modifies this, entries
      ensures Valid()
      ensures r.None? <==> old(contents) == []
      ensures r.Some? ==>
        && Matches(Delivery(want, r.value), old(contents)[0]) && contents == old(contents)[1..]
        && View() == ConsRun(old(View()), want, 6)
      ensures r.None? ==> contents == [] && View() == old(View())
    {
      ghost var s0 := View();
      ConsSimulates(s0, contents, want);
      if !entries[cPtr].valid {
        return None;
      }
      ghost var got := SoloDequeue(s0, contents, want);
      var data := entries[cPtr].item.data;
      var i: Option<int> := None;
      var p: Option<nat> := None;
      if want.paraInt {
        i := Some(entries[cPtr].item.paraInt);
      }
      if want.para {
        p := Some(entries[cPtr].item.para);
      }
      entries[cPtr] := entries[cPtr].(valid := false);
      assert entries[..] == s0.slots[s0.c := s0.slots[s0.c].(valid := false)];
      if cPtr == nrEntry - 1 {
        cPtr := 0;
      } else {
        cPtr := cPtr + 1;
      }
      contents := contents[1..];
      return Some(Got(data, i, p));
    }
  }
}
