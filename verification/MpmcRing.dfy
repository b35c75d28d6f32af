/** Every atomic operation preserves the ring part of the invariant. */
module MpmcRing {
  import opened Arith
  import opened Wrappers
  import opened Mpmc
  import opened MpmcInvariant

  /** A step that leaves the ring alone and neither takes nor leaves a claim. */
  lemma Frame<T>(s: State<T>, s': State<T>, t: nat, pc: Pc<T>)
    requires Ring(s) && t < |s.threads|
    requires s' == s.(empty := s'.empty, filled := s'.filled, threads := s.threads[t := pc])
    requires !(s.threads[t].Access? || s.threads[t].Publish?)
    requires !(pc.Access? || pc.Publish?)
    requires ThreadOk(s, t) ==> ThreadOk(s', t)
    ensures Ring(s')
  {
    assert Shape(s');
    forall k: nat | s.r <= k < s.w ensures PushedSlot(s', k) { assert PushedSlot(s, k); }
    forall k: nat | s.w - s.n <= k < s.r ensures PoppedSlot(s', k) { assert PoppedSlot(s, k); }
    forall k: nat | s.w <= k < s.n ensures FreshSlot(s', k) { assert FreshSlot(s, k); }
    forall u: nat | u < |s'.threads| ensures ThreadOk(s', u) { assert ThreadOk(s, u); }
    assert Taken(s') by {
      forall k: nat | k < s.r
        ensures (s'.threads[s.poppers[k]].Access? && Owns(s'.threads[s.poppers[k]], k, false))
             == (s.threads[s.poppers[k]].Access? && Owns(s.threads[s.poppers[k]], k, false))
      {}
    }
  }

  /** The slot that the next position will use is free, given the value just read from `seq`. */
  lemma NextSlotFree<T>(s: State<T>, t: nat)
    requires Ring(s) && Tokens(s) && t < |s.threads|
    requires BeforeClaim(s.threads[t]) && s.threads[t].op.Push?
    ensures s.w < s.r + s.n
    ensures s.w < s.n ==> FreshSlot(s, s.w)
    ensures s.w >= s.n ==> PoppedSlot(s, s.w - s.n) && s.w % s.n == (s.w - s.n) % s.n
    ensures s.seqs[s.w % s.n] == s.w && s.w >= s.n ==> !Owns(s.threads[s.poppers[s.w - s.n]], s.w - s.n, false)
  {
    TotalAtLeast(Unfilled, s.threads, t);
    if s.w >= s.n {
      var k := s.w - s.n;
      ModPeriod(k, s.n);
      assert PoppedSlot(s, k);
      if s.seqs[s.w % s.n] == s.w {
        NotOwnedByPopper(s, t, s.poppers[k], k);
      }
    }
  }

  /** Only with a single slot can both ends see the same number, and there the tokens exclude it. */
  lemma NotOwnedByPopper<T>(s: State<T>, t: nat, u: nat, k: nat)
    requires Shape(s) && Tokens(s) && t < |s.threads| && u < |s.threads|
    requires BeforeClaim(s.threads[t]) && s.threads[t].op.Push?
    requires k + s.n == s.w && s.seqs[k % s.n] == s.w
    requires Owns(s.threads[u], k, false) ==> s.seqs[k % s.n] == k + 1
    ensures !Owns(s.threads[u], k, false)
  {
    if Owns(s.threads[u], k, false) {
      if t < u { TotalAtLeastTwo(Unfilled, s.threads, t, u); } else { TotalAtLeastTwo(Unfilled, s.threads, u, t); }
    }
  }

  /** A popper that may still claim always has something to claim. */
  lemma NextSlotClaimed<T>(s: State<T>, t: nat)
    requires Ring(s) && Tokens(s) && t < |s.threads|
    requires BeforeClaim(s.threads[t]) && s.threads[t].op.Pop?
    ensures s.r < s.w
  {
    TotalAtLeast(Claimed, s.threads, t);
  }

  // ---------- Claims ----------

  lemma ClaimedSlot<T>(s: State<T>, t: nat, s': State<T>)
    requires Ring(s) && Tokens(s) && t < |s.threads|
    requires s.threads[t].Claim? && s.threads[t].op.Push? && s.threads[t].p == s.w
    requires s' == StepClaim(s, t, false) && Shape(s')
    ensures PushedSlot(s', s.w)
  {
    assert ThreadOk(s, t);
    NextSlotEmpty(s, t);
    assert Owns(s'.threads[s'.pushers[s.w]], s.w, true);
  }

  lemma NextSlotEmpty<T>(s: State<T>, t: nat)
    requires Ring(s) && Tokens(s) && t < |s.threads|
    requires BeforeClaim(s.threads[t]) && s.threads[t].op.Push?
    requires s.seqs[s.w % s.n] == s.w
    ensures s.elems[s.w % s.n] == None
  {
    NextSlotFree(s, t);
    if s.w < s.n { assert s.w % s.n == s.w; }
  }

  lemma ClaimPushSlots<T>(s: State<T>, t: nat, s': State<T>)
    requires Ring(s) && Tokens(s) && t < |s.threads|
    requires s.threads[t].Claim? && s.threads[t].op.Push? && s.threads[t].p == s.w
    requires s' == StepClaim(s, t, false)
    ensures Shape(s') && Slots(s') && Taken(s')
  {
    NextSlotFree(s, t);
    assert Shape(s');
    ClaimedSlot(s, t, s');
    forall k: nat | s.r <= k < s.w ensures PushedSlot(s', k) { assert PushedSlot(s, k); }
    forall k: nat | s'.w - s'.n <= k < s'.r ensures PoppedSlot(s', k) { assert PoppedSlot(s, k); }
    forall k: nat | s'.w <= k < s'.n ensures FreshSlot(s', k) { assert FreshSlot(s, k); }
  }

  lemma ClaimPushThreads<T>(s: State<T>, t: nat, s': State<T>)
    requires Ring(s) && Tokens(s) && t < |s.threads|
    requires s.threads[t].Claim? && s.threads[t].op.Push? && s.threads[t].p == s.w
    requires s' == StepClaim(s, t, false) && Shape(s')
    ensures Threads(s')
  {
    assert ThreadOk(s, t);
    NextSlotFree(s, t);
    forall u: nat | u < |s'.threads| ensures ThreadOk(s', u) {
      assert ThreadOk(s, u);
      if u != t && (s.threads[u].Access? || s.threads[u].Publish?) && s.threads[u].op.Pop? {
        assert s.threads[u].p != s.w - s.n;
      }
    }
  }

  lemma ClaimPopSlots<T>(s: State<T>, t: nat, s': State<T>)
    requires Ring(s) && Tokens(s) && t < |s.threads|
    requires s.threads[t].Claim? && s.threads[t].op.Pop? && s.threads[t].p == s.r
    requires s' == StepClaim(s, t, false)
    ensures Shape(s') && Slots(s') && Taken(s')
  {
    assert ThreadOk(s, t);
    NextSlotClaimed(s, t);
    assert PushedSlot(s, s.r);
    assert Shape(s');
    forall k: nat | s'.r <= k < s'.w ensures PushedSlot(s', k) { assert PushedSlot(s, k); }
    forall k: nat | s'.w - s'.n <= k < s'.r ensures PoppedSlot(s', k) {
      if k < s.r { assert PoppedSlot(s, k); }
    }
    forall k: nat | s'.w <= k < s'.n ensures FreshSlot(s', k) { assert FreshSlot(s, k); }
  }

  lemma ClaimPopThreads<T>(s: State<T>, t: nat, s': State<T>)
    requires Ring(s) && Tokens(s) && t < |s.threads|
    requires s.threads[t].Claim? && s.threads[t].op.Pop? && s.threads[t].p == s.r
    requires s' == StepClaim(s, t, false) && Shape(s')
    ensures Threads(s')
  {
    assert ThreadOk(s, t);
    NextSlotClaimed(s, t);
    assert PushedSlot(s, s.r);
    forall u: nat | u < |s'.threads| ensures ThreadOk(s', u) {
      assert ThreadOk(s, u);
      if u != t && (s.threads[u].Access? || s.threads[u].Publish?) && s.threads[u].op.Push? {
        assert s.threads[u].p != s.r;
      }
    }
  }

  // ---------- The window between a claim and its store ----------

  /** The positions whose slot differs from the slot of `p`. */
  lemma OtherSlots<T>(s: State<T>, p: nat)
    requires Shape(s) && s.w - s.n <= p < s.w
    ensures forall k: nat :: s.w - s.n <= k < s.w && k != p ==> k % s.n != p % s.n
    ensures s.w < s.n ==> p % s.n < s.w
    ensures p % s.n < s.n
  {
    forall k: nat | s.w - s.n <= k < s.w && k != p ensures k % s.n != p % s.n {
      if k < p { ModDistinct(k, p, s.n); } else { ModDistinct(p, k, s.n); }
    }
  }

  lemma AccessPushSlots<T>(s: State<T>, t: nat, s': State<T>)
    requires Ring(s) && t < |s.threads| && s.threads[t].Access? && s.threads[t].op.Push?
    requires s' == StepAccess(s, t)
    ensures Shape(s') && Slots(s') && Taken(s')
  {
    var p := s.threads[t].p;
    assert ThreadOk(s, t) && PushedSlot(s, p);
    OtherSlots(s, p);
    assert Shape(s');
    forall k: nat | s.r <= k < s.w ensures PushedSlot(s', k) { assert PushedSlot(s, k); }
    forall k: nat | s.w - s.n <= k < s.r ensures PoppedSlot(s', k) { assert PoppedSlot(s, k); }
    forall k: nat | s.w <= k < s.n ensures FreshSlot(s', k) { assert FreshSlot(s, k); }
  }

  lemma AccessPopSlots<T>(s: State<T>, t: nat, s': State<T>)
    requires Ring(s) && t < |s.threads| && s.threads[t].Access? && s.threads[t].op.Pop?
    requires s' == StepAccess(s, t)
    ensures Shape(s') && Slots(s') && Taken(s')
  {
    var p := s.threads[t].p;
    assert ThreadOk(s, t) && PoppedSlot(s, p);
    OtherSlots(s, p);
    assert Shape(s');
    forall k: nat | s.r <= k < s.w ensures PushedSlot(s', k) { assert PushedSlot(s, k); }
    forall k: nat | s.w - s.n <= k < s.r ensures PoppedSlot(s', k) { assert PoppedSlot(s, k); }
    forall k: nat | s.w <= k < s.n ensures FreshSlot(s', k) { assert FreshSlot(s, k); }
  }

  lemma PublishPushSlots<T>(s: State<T>, t: nat, s': State<T>)
    requires Ring(s) && t < |s.threads| && s.threads[t].Publish? && s.threads[t].op.Push?
    requires s' == StepPublish(s, t)
    ensures Shape(s') && Slots(s') && Taken(s')
  {
    var p := s.threads[t].p;
    assert ThreadOk(s, t) && PushedSlot(s, p);
    OtherSlots(s, p);
    assert Shape(s');
    forall k: nat | s.r <= k < s.w ensures PushedSlot(s', k) { assert PushedSlot(s, k); }
    forall k: nat | s.w - s.n <= k < s.r ensures PoppedSlot(s', k) { assert PoppedSlot(s, k); }
    forall k: nat | s.w <= k < s.n ensures FreshSlot(s', k) { assert FreshSlot(s, k); }
  }

  lemma PublishPopSlots<T>(s: State<T>, t: nat, s': State<T>)
    requires Ring(s) && t < |s.threads| && s.threads[t].Publish? && s.threads[t].op.Pop?
    requires s' == StepPublish(s, t)
    ensures Shape(s') && Slots(s') && Taken(s')
  {
    var p := s.threads[t].p;
    assert ThreadOk(s, t) && PoppedSlot(s, p);
    OtherSlots(s, p);
    assert Shape(s');
    forall k: nat | s.r <= k < s.w ensures PushedSlot(s', k) { assert PushedSlot(s, k); }
    forall k: nat | s.w - s.n <= k < s.r ensures PoppedSlot(s', k) { assert PoppedSlot(s, k); }
    forall k: nat | s.w <= k < s.n ensures FreshSlot(s', k) { assert FreshSlot(s, k); }
  }

  lemma AccessThreads<T>(s: State<T>, t: nat, s': State<T>)
    requires Ring(s) && t < |s.threads| && s.threads[t].Access?
    requires s' == StepAccess(s, t) && Shape(s')
    ensures Threads(s')
  {
    var p := s.threads[t].p;
    assert ThreadOk(s, t);
    assert if s.threads[t].op.Push? then PushedSlot(s, p) else PoppedSlot(s, p);
    forall u: nat | u < |s'.threads| ensures ThreadOk(s', u) { assert ThreadOk(s, u); }
  }

  lemma PublishThreads<T>(s: State<T>, t: nat, s': State<T>)
    requires Ring(s) && t < |s.threads| && s.threads[t].Publish?
    requires s' == StepPublish(s, t) && Shape(s')
    ensures Threads(s')
  {
    assert ThreadOk(s, t);
    forall u: nat | u < |s'.threads| ensures ThreadOk(s', u) {
      assert ThreadOk(s, u);
      if s.threads[u].Claim? && s.threads[u].p == s.Idx(s.threads[u].op) {
        PublishKeepsClaim(s, t, u);
      }
    }
  }

  /** A store to `seq` does not invalidate what another thread saw before its compare-exchange. */
  lemma PublishKeepsClaim<T>(s: State<T>, t: nat, u: nat)
    requires Ring(s) && t < |s.threads| && u < |s.threads|
    requires s.threads[t].Publish? && s.threads[u].Claim?
    requires s.threads[u].p == s.Idx(s.threads[u].op)
    ensures s.threads[t].p % s.n == s.threads[u].p % s.n ==>
              && s.threads[t].op.Pop? && s.threads[u].op.Push?
              && s.threads[u].p == s.threads[t].p + s.n
  {
    var p, q := s.threads[t].p, s.threads[u].p;
    assert ThreadOk(s, t) && ThreadOk(s, u);
    assert if s.threads[t].op.Push? then PushedSlot(s, p) else PoppedSlot(s, p);
    if p < q < p + s.n {
      ModDistinct(p, q, s.n);
    } else if q < p < q + s.n {
      ModDistinct(q, p, s.n);
    }
  }

  lemma TryWaitRing<T>(s: State<T>, t: nat, spurious: bool)
    requires Ring(s) && t < |s.threads| && s.threads[t].TryWait?
    ensures Ring(StepTryWait(s, t, spurious))
  {
    var s' := StepTryWait(s, t, spurious);
    Frame(s, s', t, s'.threads[t]);
  }

  lemma ClaimRing<T>(s: State<T>, t: nat, spurious: bool)
    requires Ring(s) && Tokens(s) && t < |s.threads| && s.threads[t].Claim?
    ensures Ring(StepClaim(s, t, spurious))
  {
    var s' := StepClaim(s, t, spurious);
    if s.Idx(s.threads[t].op) != s.threads[t].p || spurious {
      Frame(s, s', t, s'.threads[t]);
    } else if s.threads[t].op.Push? {
      ClaimPushSlots(s, t, s');
      ClaimPushThreads(s, t, s');
    } else {
      ClaimPopSlots(s, t, s');
      ClaimPopThreads(s, t, s');
    }
  }

  lemma AccessRing<T>(s: State<T>, t: nat)
    requires Ring(s) && t < |s.threads| && s.threads[t].Access?
    ensures Ring(StepAccess(s, t))
  {
    var s' := StepAccess(s, t);
    if s.threads[t].op.Push? { AccessPushSlots(s, t, s'); } else { AccessPopSlots(s, t, s'); }
    AccessThreads(s, t, s');
  }

  lemma PublishRing<T>(s: State<T>, t: nat)
    requires Ring(s) && t < |s.threads| && s.threads[t].Publish?
    ensures Ring(StepPublish(s, t))
  {
    var s' := StepPublish(s, t);
    if s.threads[t].op.Push? { PublishPushSlots(s, t, s'); } else { PublishPopSlots(s, t, s'); }
    PublishThreads(s, t, s');
  }

  lemma PostWakeRing<T>(s: State<T>, t: nat, wake: nat)
    requires Ring(s) && t < |s.threads| && s.threads[t].PostWake?
    ensures Ring(StepPostWake(s, t, wake))
  {
    var s' := StepPostWake(s, t, wake);
    var mid := if Sleeps(s, wake, s.threads[t].op.PostGate())
               then s.Goto(wake, Unregister(s.threads[wake].op)) else s;
    if mid != s {
      Frame(s, mid, wake, mid.threads[wake]);
    }
    if s' != s {
      Frame(mid, s', t, s'.threads[t]);
    }
  }

  lemma WaitRing<T>(s: State<T>, t: nat)
    requires Ring(s) && t < |s.threads|
    requires s.threads[t].Register? || s.threads[t].FutexWait? || s.threads[t].Unregister?
    ensures Ring(StepWait(s, t))
  {
    var s' := StepWait(s, t);
    if s' != s {
      Frame(s, s', t, s'.threads[t]);
    }
  }

  lemma PostRing<T>(s: State<T>, t: nat)
    requires Ring(s) && t < |s.threads| && (s.threads[t].Post? || s.threads[t].PostCheck?)
    ensures Ring(StepPost(s, t))
  {
    assert ThreadOk(s, t);
    var s' := StepPost(s, t);
    Frame(s, s', t, s'.threads[t]);
  }

  lemma GotoRing<T>(s: State<T>, t: nat, pc: Pc<T>)
    requires Ring(s) && t < |s.threads|
    requires !(s.threads[t].Access? || s.threads[t].Publish?)
    requires pc.TryWait? || pc.Unregister? || pc.LoadIdx? || pc.LoadSeq? || pc.Claim?
    requires ThreadOk(s.Goto(t, pc), t)
    ensures Ring(s.Goto(t, pc))
  {
    Frame(s, s.Goto(t, pc), t, pc);
  }

  lemma RunRing<T>(s: State<T>, t: nat, spurious: bool, wake: nat)
    requires Ring(s) && Tokens(s) && t < |s.threads|
    ensures Ring(Step(s, t, Run(spurious, wake)))
  {
    var pc := s.threads[t];
    match pc
    case TryWait(_, _, _) => TryWaitRing(s, t, spurious);
    case Register(_) => WaitRing(s, t);
    case FutexWait(_) => WaitRing(s, t);
    case Unregister(_) => WaitRing(s, t);
    case LoadIdx(op) => GotoRing(s, t, LoadSeq(op, s.Idx(op)));
    case LoadSeq(op, p) => LoadSeqRing(s, t);
    case Claim(_, _) => ClaimRing(s, t, spurious);
    case Access(_, _) => AccessRing(s, t);
    case Publish(_, _, _) => PublishRing(s, t);
    case Post(_, _, _) => PostRing(s, t);
    case PostCheck(_, _, _) => PostRing(s, t);
    case PostWake(_, _, _) => PostWakeRing(s, t, wake);
    case _ =>
  }

  lemma LoadSeqRing<T>(s: State<T>, t: nat)
    requires Ring(s) && t < |s.threads| && s.threads[t].LoadSeq?
    ensures Ring(StepLoadSeq(s, t))
  {
    assert ThreadOk(s, t);
    GotoRing(s, t, StepLoadSeq(s, t).threads[t]);
  }

  lemma StepRing<T>(s: State<T>, t: nat, c: Choice<T>)
    requires Ring(s) && Tokens(s) && t < |s.threads|
    ensures Ring(Step(s, t, c))
  {
    var pc := s.threads[t];
    match c
    case Call(op) => if pc.Idle? || pc.Finished? || pc.Refused? { GotoRing(s, t, TryWait(op, 1, false)); }
    case SpuriousWake => if pc.Asleep? { GotoRing(s, t, Unregister(pc.op)); }
    case Run(spurious, wake) => RunRing(s, t, spurious, wake);
  }
}
