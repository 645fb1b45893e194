/** The list of persistent stack buffers on a device, a stack ordered by stack address. */
module PersistStack {
  import opened CStrings

  /** A buffer for the frame at a stack address of a routine. */
  datatype Persist = Persist(addr: int, routine: int, buf: nat)

  /** The device's list, the buffers to destroy, what they add to the message, buffers that got lost. */
  datatype State = State(
    live: seq<Persist>, destroy: seq<nat>, dataLen: nat, nextBuf: nat, lost: seq<nat>)

  const EMPTY := State([], [], 0, 0, [])

  const ADDRESS_SIZE := 8

  /** How creating and setting up a buffer goes. */
  datatype Setup = Works | NotCreated | FailsLater

  datatype Request = Request(addr: int, routine: int, setup: Setup)

  /** Which buffer the offload uses; None when the buffer could not be set up. */
  datatype Answer = Answer(buf: Option<nat>, isNew: bool)

  // -------------------------------------------------------- one request

  predicate IsObsolete(p: Persist, addr: int, routine: int) {
    p.addr < addr || (p.addr == addr && p.routine != routine)
  }

  /** How many leading buffers the scan takes away. */
  function Obsolete(live: seq<Persist>, addr: int, routine: int): (n: nat)
    ensures n <= |live|
  {
    if |live| == 0 || !IsObsolete(live[0], addr, routine) then 0
    else if live[0].addr == addr then 1
    else 1 + Obsolete(live[1..], addr, routine)
  }

  /** The scan stopped at a buffer of the same frame. */
  predicate Reuses(live: seq<Persist>, addr: int, routine: int) {
    var n := Obsolete(live, addr, routine);
    && n < |live| && live[n].addr == addr && live[n].routine == routine
    && (n == 0 || live[n - 1].addr != addr)
  }

  /** The buffers in the order push_front leaves them. */
  function Reversed(ps: seq<Persist>): (r: seq<nat>)
    ensures |r| == |ps|
  {
    if |ps| == 0 then [] else Reversed(ps[1..]) + [ps[0].buf]
  }

  function Swept(s: State, n: nat): State
    requires n <= |s.live|
  {
    s.(live := s.live[n..], destroy := Reversed(s.live[..n]) + s.destroy,
       dataLen := s.dataLen + ADDRESS_SIZE * n)
  }

  function Create(s: State, q: Request): (State, Answer) {
    match q.setup
    case NotCreated => (s, Answer(None, false))
    case FailsLater =>
      (s.(nextBuf := s.nextBuf + 1, lost := s.lost + [s.nextBuf]), Answer(None, false))
    case Works =>
      (s.(live := [Persist(q.addr, q.routine, s.nextBuf)] + s.live, nextBuf := s.nextBuf + 1),
       Answer(Some(s.nextBuf), true))
  }

  function Serve(s: State, q: Request): (State, Answer) {
    var n := Obsolete(s.live, q.addr, q.routine);
    if Reuses(s.live, q.addr, q.routine) then (Swept(s, n), Answer(Some(s.live[n].buf), false))
    else Create(Swept(s, n), q)
  }

  function Run(s: State, qs: seq<Request>): State
    decreases |qs|
  {
    if |qs| == 0 then s else Run(Serve(s, qs[0]).0, qs[1..])
  }

  // --------------------------------------------------------- invariants

  ghost predicate Increasing(live: seq<Persist>) {
    forall i, j :: 0 <= i < j < |live| ==> live[i].addr < live[j].addr
  }

  function Bufs(live: seq<Persist>): (r: seq<nat>)
    ensures |r| == |live| && forall i :: 0 <= i < |live| ==> r[i] == live[i].buf
  {
    seq(|live|, i requires 0 <= i < |live| => live[i].buf)
  }

  /** All buffers ever created, wherever they are now. */
  function Everywhere(s: State): multiset<nat> {
    multiset(Bufs(s.live)) + multiset(s.destroy) + multiset(s.lost)
  }

  function UpTo(n: nat): (m: multiset<nat>)
    ensures forall b: nat :: m[b] == if b < n then 1 else 0
  {
    if n == 0 then multiset{} else UpTo(n - 1) + multiset{n - 1}
  }

  /**
   * The list is strictly increasing; every buffer created is in exactly one of the list, the
   * destroy lists and the lost ones; the message has room for every buffer to destroy.
   */
  ghost predicate Valid(s: State) {
    Increasing(s.live) && Everywhere(s) == UpTo(s.nextBuf) && s.dataLen == ADDRESS_SIZE * |s.destroy|
  }

  /** In an increasing list the scan takes away exactly the obsolete buffers. */
  lemma {:induction false} ScanTakesTheObsolete(live: seq<Persist>, addr: int, routine: int)
    requires Increasing(live)
    ensures var n := Obsolete(live, addr, routine);
      forall i :: 0 <= i < |live| ==> (i < n <==> IsObsolete(live[i], addr, routine))
    decreases |live|
  {
    if |live| > 0 {
      ScanTakesTheObsolete(live[1..], addr, routine);
      assert forall i :: 1 <= i < |live| ==> live[i] == live[1..][i - 1] && live[0].addr < live[i].addr;
    }
  }

  /** A buffer is reused exactly when the list has one for the same address and routine. */
  lemma ReusedIffPresent(s: State, q: Request)
    requires Valid(s)
    ensures Reuses(s.live, q.addr, q.routine)
      <==> exists p :: p in s.live && p.addr == q.addr && p.routine == q.routine
    ensures var a := Serve(s, q).1;
      Reuses(s.live, q.addr, q.routine) ==>
        !a.isNew && exists p :: p in s.live && p.addr == q.addr && p.routine == q.routine && a.buf == Some(p.buf)
  {
    hide Everywhere;
    ScanTakesTheObsolete(s.live, q.addr, q.routine);
    var n := Obsolete(s.live, q.addr, q.routine);
    if p :| p in s.live && p.addr == q.addr && p.routine == q.routine {
      var i :| 0 <= i < |s.live| && s.live[i] == p;
      assert n <= i;
      assert !IsObsolete(s.live[n], q.addr, q.routine);
    }
  }

  lemma {:induction false} ReversedBufs(ps: seq<Persist>)
    ensures multiset(Reversed(ps)) == multiset(Bufs(ps))
    decreases |ps|
  {
    if |ps| > 0 {
      ReversedBufs(ps[1..]);
      assert Bufs(ps) == [ps[0].buf] + Bufs(ps[1..]);
    }
  }

  lemma SweepKeepsEverywhere(s: State, n: nat)
    requires n <= |s.live|
    ensures Everywhere(Swept(s, n)) == Everywhere(s)
  {
    ReversedBufs(s.live[..n]);
    assert Bufs(s.live) == Bufs(s.live[..n]) + Bufs(s.live[n..]);
  }

  lemma SweepKeepsIncreasing(s: State, n: nat)
    requires n <= |s.live| && Increasing(s.live)
    ensures Increasing(Swept(s, n).live)
    ensures s.dataLen == ADDRESS_SIZE * |s.destroy| ==>
      Swept(s, n).dataLen == ADDRESS_SIZE * |Swept(s, n).destroy|
  {
  }

  lemma CreateAddsOne(s: State, q: Request)
    ensures var s' := Create(s, q).0;
      if q.setup.NotCreated? then s' == s
      else s'.nextBuf == s.nextBuf + 1 && Everywhere(s') == Everywhere(s) + multiset{s.nextBuf}
  {
    var p := Persist(q.addr, q.routine, s.nextBuf);
    assert Bufs([p] + s.live) == [p.buf] + Bufs(s.live);
  }

  lemma UpToOneMore(n: nat)
    ensures UpTo(n + 1) == UpTo(n) + multiset{n}
  {
  }

  lemma CreateKeepsEverywhere(s: State, q: Request)
    requires Everywhere(s) == UpTo(s.nextBuf)
    ensures Everywhere(Create(s, q).0) == UpTo(Create(s, q).0.nextBuf)
  {
    hide Everywhere, UpTo, Create;
    CreateAddsOne(s, q);
    UpToOneMore(s.nextBuf);
  }

  lemma ServeKeepsValid(s: State, q: Request)
    requires Valid(s)
    ensures Valid(Serve(s, q).0)
  {
    hide Everywhere, Swept, UpTo, Obsolete;
    ScanTakesTheObsolete(s.live, q.addr, q.routine);
    var n := Obsolete(s.live, q.addr, q.routine);
    var swept := Swept(s, n);
    SweepKeepsEverywhere(s, n);
    SweepKeepsIncreasing(s, n);
    assert swept.nextBuf == s.nextBuf && swept.live == s.live[n..] by { SweptIs(s, n); }
    if !Reuses(s.live, q.addr, q.routine) {
      CreateKeepsEverywhere(swept, q);
      if q.setup.Works? {
        RestIsAbove(s, q);
      }
    }
  }

  lemma SweptIs(s: State, n: nat)
    requires n <= |s.live|
    ensures Swept(s, n).nextBuf == s.nextBuf && Swept(s, n).live == s.live[n..]
  {
  }

  /** What is left when the frame has no buffer lies above it on the stack. */
  lemma RestIsAbove(s: State, q: Request)
    requires Increasing(s.live) && !Reuses(s.live, q.addr, q.routine)
    ensures forall i :: Obsolete(s.live, q.addr, q.routine) <= i < |s.live| ==> q.addr < s.live[i].addr
  {
    hide Obsolete;
    ScanTakesTheObsolete(s.live, q.addr, q.routine);
    var n := Obsolete(s.live, q.addr, q.routine);
    if n < |s.live| {
      assert !IsObsolete(s.live[n], q.addr, q.routine);
      assert n > 0 ==> s.live[n - 1].addr < s.live[n].addr;
    }
  }

  /** Over every run of requests. */
  lemma {:induction false} RunKeepsValid(s: State, qs: seq<Request>)
    requires Valid(s)
    ensures Valid(Run(s, qs))
    decreases |qs|
  {
    if |qs| > 0 {
      ServeKeepsValid(s, qs[0]);
      RunKeepsValid(Serve(s, qs[0]).0, qs[1..]);
    }
  }

  /** The set-up of the request's own buffer fails after the buffer has been created. */
  predicate Loses(s: State, q: Request) {
    !Reuses(s.live, q.addr, q.routine) && q.setup.FailsLater?
  }

  /** Every request of the run finds its buffer or sets one up, or has none created. */
  predicate NeverLoses(s: State, qs: seq<Request>)
    decreases |qs|
  {
    |qs| == 0 || (!Loses(s, qs[0]) && NeverLoses(Serve(s, qs[0]).0, qs[1..]))
  }

  lemma {:induction false} LostOnlyGrows(s: State, qs: seq<Request>)
    ensures s.lost <= Run(s, qs).lost
    decreases |qs|
  {
    if |qs| > 0 {
      LostOnlyGrows(Serve(s, qs[0]).0, qs[1..]);
    }
  }

  /** Buffers get lost exactly when a created one cannot be set up. */
  lemma {:induction false} NothingIsLostIff(s: State, qs: seq<Request>)
    ensures Run(s, qs).lost == s.lost <==> NeverLoses(s, qs)
    decreases |qs|
  {
    if |qs| > 0 {
      var s' := Serve(s, qs[0]).0;
      NothingIsLostIff(s', qs[1..]);
      LostOnlyGrows(s', qs[1..]);
    }
  }

  /** A buffer that was created but not set up is in no list. */
  lemma LostBuffer()
    ensures var s := Run(EMPTY, [Request(100, 1, FailsLater)]);
      s.nextBuf == 1 && s.live == [] && s.destroy == [] && s.lost == [0]
  {
    var q := Request(100, 1, FailsLater);
    assert Run(EMPTY, [q]) == Run(Serve(EMPTY, q).0, []);
    assert Reversed([]) + [] == [];
  }

  lemma EmptyIsValid()
    ensures Valid(EMPTY)
  {
  }

  /** The buffer is in the list or waits to be destroyed, and in one place only. */
  predicate InOnePlace(s: State, b: nat) {
    multiset(Bufs(s.live))[b] + multiset(s.destroy)[b] == 1
  }

  /** After every run from an empty device: no buffer is in two places, and one is in none iff it was lost. */
  lemma BufferInOnePlaceIff(qs: seq<Request>, b: nat)
    ensures var s := Run(EMPTY, qs);
      && Increasing(s.live)
      && multiset(Bufs(s.live))[b] + multiset(s.destroy)[b] == (if b < s.nextBuf && b !in s.lost then 1 else 0)
      && (b in s.lost ==> b < s.nextBuf)
  {
    hide Bufs;
    EmptyIsValid();
    RunKeepsValid(EMPTY, qs);
    var s := Run(EMPTY, qs);
    assert Everywhere(s)[b] == UpTo(s.nextBuf)[b];
    assert b in s.lost <==> multiset(s.lost)[b] > 0;
  }

  /**
   * So after a run every buffer created is in exactly one place if and only if no request
   * that reused no buffer had one created that could not be set up.
   */
  lemma EachBufferInOnePlace(qs: seq<Request>)
    ensures var s := Run(EMPTY, qs);
      (forall b: nat :: b < s.nextBuf ==> InOnePlace(s, b)) <==> NeverLoses(EMPTY, qs)
  {
    hide Bufs;
    var s := Run(EMPTY, qs);
    NothingIsLostIff(EMPTY, qs);
    forall b: nat
      ensures b < s.nextBuf ==> (InOnePlace(s, b) <==> b !in s.lost)
      ensures b in s.lost ==> b < s.nextBuf
    {
      BufferInOnePlaceIff(qs, b);
    }
    if s.lost != [] {
      assert s.lost[0] in s.lost && s.lost[0] < s.nextBuf;
    }
  }

  // ------------------------------------------------ a request and its buffer

  /** The requests that end the life of the frame at addr of routine: a higher frame, or another routine there. */
  predicate Ends(q: Request, addr: int, routine: int) {
    q.addr > addr || (q.addr == addr && q.routine != routine)
  }

  lemma SweptLive(s: State, q: Request, p: Persist)
    requires Increasing(s.live)
    ensures p in s.live[Obsolete(s.live, q.addr, q.routine)..] <==> p in s.live && !Ends(q, p.addr, p.routine)
  {
    hide Obsolete;
    ScanTakesTheObsolete(s.live, q.addr, q.routine);
    var n := Obsolete(s.live, q.addr, q.routine);
    if p in s.live && !Ends(q, p.addr, p.routine) {
      var i :| 0 <= i < |s.live| && s.live[i] == p;
      assert s.live[n..][i - n] == p;
    }
  }

  /**
   * A request ends the frames below it and another routine's at its address, keeps all others,
   * and adds at most an element of its own, with the buffer it answers.
   */
  lemma ListAfterRequest(s: State, q: Request, p: Persist)
    requires Valid(s)
    ensures var (s', a) := Serve(s, q);
      p in s'.live <==> (p in s.live && !Ends(q, p.addr, p.routine))
                        || (a.isNew && p.addr == q.addr && p.routine == q.routine && a.buf == Some(p.buf))
  {
    hide Everywhere, Obsolete, Reversed;
    SweptLive(s, q, p);
    ReusedIffPresent(s, q);
    SweptIs(s, Obsolete(s.live, q.addr, q.routine));
  }

  predicate OneAt(live: seq<Persist>, addr: int) {
    forall i, j :: 0 <= i < |live| && 0 <= j < |live| && live[i].addr == addr && live[j].addr == addr ==> i == j
  }

  /**
   * A request that gets a buffer leaves exactly one element for its address and routine, with
   * that buffer; it is new exactly when this request has created it. A request gets none exactly
   * when its frame has none and none can be set up.
   */
  lemma AnswerIsInTheList(s: State, q: Request)
    requires Valid(s)
    ensures var (s', a) := Serve(s, q);
      && (a.buf.Some? ==>
            && Persist(q.addr, q.routine, a.buf.value) in s'.live
            && OneAt(s'.live, q.addr)
            && (a.isNew <==> a.buf.value >= s.nextBuf)
            && (a.isNew ==> a.buf.value == s.nextBuf && s'.nextBuf == s.nextBuf + 1)
            && (!a.isNew ==> Persist(q.addr, q.routine, a.buf.value) in s.live && s'.nextBuf == s.nextBuf))
      && (a.buf.None? <==>
            !q.setup.Works? && forall p :: p in s.live ==> p.addr != q.addr || p.routine != q.routine)
  {
    hide Everywhere, Obsolete, Reversed;
    var (s', a) := Serve(s, q);
    ServeKeepsValid(s, q);
    ReusedIffPresent(s, q);
    SweptIs(s, Obsolete(s.live, q.addr, q.routine));
    if a.buf.Some? && !a.isNew {
      var p := Persist(q.addr, q.routine, a.buf.value);
      assert p in s.live;
      ListAfterRequest(s, q, p);
      OldBuffer(s, p);
    }
  }

  lemma OldBuffer(s: State, p: Persist)
    requires Valid(s) && p in s.live
    ensures p.buf < s.nextBuf
  {
    var i :| 0 <= i < |s.live| && s.live[i] == p;
    assert Bufs(s.live)[i] == p.buf;
    assert Everywhere(s)[p.buf] == UpTo(s.nextBuf)[p.buf];
  }

  lemma TwiceInSeq(bs: seq<nat>, i: nat, j: nat)
    requires i < j < |bs| && bs[i] == bs[j]
    ensures multiset(bs)[bs[i]] >= 2
  {
    assert bs == bs[..j] + bs[j..];
    assert bs[i] in bs[..j] && bs[j] in bs[j..];
  }

  /** A buffer belongs to one element. */
  lemma OneOwner(s: State, p: Persist, p': Persist)
    requires Valid(s) && p in s.live && p' in s.live && p.buf == p'.buf
    ensures p == p'
  {
    var i :| 0 <= i < |s.live| && s.live[i] == p;
    var j :| 0 <= j < |s.live| && s.live[j] == p';
    var bs := Bufs(s.live);
    assert Everywhere(s)[p.buf] == UpTo(s.nextBuf)[p.buf] <= 1;
    if i < j {
      TwiceInSeq(bs, i, j);
    } else if j < i {
      TwiceInSeq(bs, j, i);
    }
  }

  /** Buffer b is in no element any more, nor will it be. */
  ghost predicate Gone(s: State, b: nat) {
    b < s.nextBuf && forall p :: p in s.live ==> p.buf != b
  }

  lemma GoneStaysGone(s: State, q: Request, b: nat)
    requires Valid(s) && Gone(s, b)
    ensures Gone(Serve(s, q).0, b)
  {
    hide Everywhere, Obsolete, Reversed, Serve;
    var (s', a) := Serve(s, q);
    CountsUp(s, q);
    AnswerIsInTheList(s, q);
    forall p | p in s'.live
      ensures p.buf != b
    {
      ListAfterRequest(s, q, p);
    }
  }

  lemma CountsUp(s: State, q: Request)
    ensures s.nextBuf <= Serve(s, q).0.nextBuf
  {
    hide Obsolete, Reversed;
  }

  /** The element of the frame stays, or its buffer is gone. */
  lemma FrameStaysOrGoes(s: State, q: Request, p: Persist)
    requires Valid(s) && p in s.live
    ensures if Ends(q, p.addr, p.routine) then Gone(Serve(s, q).0, p.buf) else p in Serve(s, q).0.live
  {
    hide Everywhere, Obsolete, Reversed, Serve;
    ListAfterRequest(s, q, p);
    if Ends(q, p.addr, p.routine) {
      var (s', a) := Serve(s, q);
      OldBuffer(s, p);
      CountsUp(s, q);
      AnswerIsInTheList(s, q);
      forall p' | p' in s'.live
        ensures p'.buf != p.buf
      {
        ListAfterRequest(s, q, p');
        if p' in s.live && p'.buf == p.buf {
          OneOwner(s, p, p');
        }
      }
    }
  }

  lemma {:induction false} GoneThroughout(s: State, qs: seq<Request>, b: nat)
    requires Valid(s) && Gone(s, b)
    ensures Gone(Run(s, qs), b)
    decreases |qs|
  {
    hide Valid, Gone, Serve;
    if |qs| > 0 {
      GoneStaysGone(s, qs[0], b);
      ServeKeepsValid(s, qs[0]);
      GoneThroughout(Serve(s, qs[0]).0, qs[1..], b);
    }
  }

  /** Over a run: the frame keeps its element exactly if no request of the run ends it. */
  lemma {:induction false} FrameThroughout(s: State, qs: seq<Request>, p: Persist)
    requires Valid(s) && p in s.live
    ensures if exists q :: q in qs && Ends(q, p.addr, p.routine) then Gone(Run(s, qs), p.buf) else p in Run(s, qs).live
    decreases |qs|
  {
    hide Valid, Gone, Serve, Ends;
    if |qs| > 0 {
      var s' := Serve(s, qs[0]).0;
      assert qs == [qs[0]] + qs[1..];
      FrameStaysOrGoes(s, qs[0], p);
      ServeKeepsValid(s, qs[0]);
      if Ends(qs[0], p.addr, p.routine) {
        GoneThroughout(s', qs[1..], p.buf);
      } else {
        FrameThroughout(s', qs[1..], p);
      }
    }
  }

  /**
   * The same request again answers the same buffer, not new, if and only if no request in
   * between was for a higher frame or for another routine at the address.
   */
  lemma SameFrameSameBuffer(s: State, q: Request, qs: seq<Request>, again: Request)
    requires Valid(s) && Serve(s, q).1.buf.Some? && again.addr == q.addr && again.routine == q.routine
    ensures var s1 := Serve(s, q).0;
      Serve(Run(s1, qs), again).1 == Answer(Serve(s, q).1.buf, false)
      <==> forall x :: x in qs ==> !Ends(x, q.addr, q.routine)
  {
    hide Valid, Serve, Ends, Gone;
    var s1, b := Serve(s, q).0, Serve(s, q).1.buf.value;
    var p, s2 := Persist(q.addr, q.routine, b), Run(s1, qs);
    ServeKeepsValid(s, q);
    RunKeepsValid(s1, qs);
    AnswerIsInTheList(s, q);
    FrameThroughout(s1, qs, p);
    AnswerIsInTheList(s2, again);
    if p in s2.live {
      OnePerFrame(s2, again, p);
    }
    if Gone(s2, b) {
      GoneIsAbsent(s2, p);
    }
  }

  lemma GoneIsAbsent(s: State, p: Persist)
    requires Gone(s, p.buf)
    ensures p !in s.live
  {
  }

  /** A request for a frame with an element answers that element's buffer. */
  lemma OnePerFrame(s: State, q: Request, p: Persist)
    requires Valid(s) && p in s.live && p.addr == q.addr && p.routine == q.routine
    ensures Serve(s, q).1 == Answer(Some(p.buf), false)
  {
    hide Everywhere;
    ReusedIffPresent(s, q);
    var a := Serve(s, q).1;
    var p' :| p' in s.live && p'.addr == q.addr && p'.routine == q.routine && a.buf == Some(p'.buf);
    var i :| 0 <= i < |s.live| && s.live[i] == p;
    var j :| 0 <= j < |s.live| && s.live[j] == p';
    assert i == j;
  }

  // ------------------------------------------------------------- the class

  class StackManager {
    var live: seq<Persist>
    var destroy: seq<nat>
    var dataLen: nat
    var nextBuf: nat
    ghost var lost: seq<nat>

    constructor ()
      ensures Contents() == EMPTY
    {
      live, destroy, dataLen, nextBuf, lost := [], [], 0, 0, [];
    }

    ghost function Contents(): State
      reads this
    {
      State(live, destroy, dataLen, nextBuf, lost)
    }

    /** The scan: moves obsolete buffers to the destroy list; how many, and whether it found the frame. */
    method Sweep(addr: int, routine: int) returns (erase: nat, reused: Option<nat>)
      modifies this`destroy
      ensures erase == Obsolete(live, addr, routine)
      ensures destroy == Reversed(live[..erase]) + old(destroy)
      ensures reused == if Reuses(live, addr, routine) then Some(live[erase].buf) else None
    {
      hide Reversed;
      erase := 0;
      NothingReversed(live);
      while erase < |live|
        invariant 0 <= erase <= |live|
        invariant erase + Obsolete(live[erase..], addr, routine) == Obsolete(live, addr, routine)
        invariant erase > 0 ==> live[erase - 1].addr < addr
        invariant destroy == Reversed(live[..erase]) + old(destroy)
      {
        var it := live[erase];
        ReversedSnoc(live, erase);
        if addr > it.addr {
          destroy := [it.buf] + destroy;
          erase := erase + 1;
        } else if addr == it.addr {
          if routine != it.routine {
            destroy := [it.buf] + destroy;
            erase := erase + 1;
            return erase, None;
          } else {
            return erase, Some(it.buf);
          }
        } else {
          break;
        }
      }
      reused := None;
    }

    /** offload_stack_memory_manager. */
    method Obtain(addr: int, routine: int, setup: Setup) returns (r: Answer)
      modifies this
      ensures (Contents(), r) == Serve(old(Contents()), Request(addr, routine, setup))
    {
      hide Obsolete, Reversed, Reuses;
      var erase, reused := Sweep(addr, routine);
      if erase > 0 {
        live := live[erase..];
        dataLen := dataLen + ADDRESS_SIZE * erase;
      }
      if reused.Some? {
        return Answer(reused, false);
      }
      if setup.NotCreated? {
        return Answer(None, false);
      }
      var buf := nextBuf;
      nextBuf := nextBuf + 1;
      if setup.FailsLater? {
        lost := lost + [buf];
        return Answer(None, false);
      }
      live := [Persist(addr, routine, buf)] + live;
      r := Answer(Some(buf), true);
    }
  }

  lemma NothingReversed(ps: seq<Persist>)
    ensures forall d: seq<nat> :: Reversed(ps[..0]) + d == d
  {
  }

  lemma ReversedSnoc(ps: seq<Persist>, n: nat)
    requires n < |ps|
    ensures Reversed(ps[..n + 1]) == [ps[n].buf] + Reversed(ps[..n])
    decreases |ps|
  {
    if n > 0 {
      ReversedSnoc(ps[1..], n - 1);
      assert ps[..n + 1][1..] == ps[1..][..n] && ps[..n][1..] == ps[1..][..n - 1];
    } else {
      assert ps[..1][1..] == [] && ps[..0] == [];
    }
  }
}
