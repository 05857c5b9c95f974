/** What each step of UVCPreview.cpp does with the frame queue, the capture slot and the
    pool: when a frame enters and when it leaves, where it goes instead, and that the
    mutexes guard what they are there for. */
module FrameSteps {
  import opened FrameOwnership

  /** The code of recycle_frame(f), before k. */
  predicate Recycles(c: Code, f: Frame, k: Code) { c == Lock(PoolMutex, Put(f, k)) }

  ghost predicate SameQueue(s: Shared, r: Shared) {
    r.fifo == s.fifo && r.arrived == s.arrived && r.departed == s.departed
  }

  // ---- The FIFO between the USB callback and the preview thread ----

  /** addPreviewFrame: a running preview takes the frame if fewer than four wait; otherwise
      it is recycled. */
  lemma EnqueueStep(s: State, t: nat, choice: nat, yes: bool, addr: Frame, f: Frame)
    requires t < |s.codes| && Enabled(s, t, addr) && s.codes[t] == Preview(Enqueue(f))
    ensures var r := Step(s, t, choice, yes, addr);
            if s.sh.running && |s.sh.fifo| < 4 then
              && r.sh.fifo == s.sh.fifo + [f] && r.sh.arrived == s.sh.arrived + [f] && r.sh.departed == s.sh.departed
              && r.codes[t] == Unlock(PreviewMutex, Idle)
            else
              && SameQueue(s.sh, r.sh)
              && r.codes[t].Unlock? && r.codes[t].m.PreviewMutex? && Recycles(r.codes[t].k, f, Idle)
  {
  }

  /** waitPreviewFrame: a running preview takes the oldest frame, to decode or to draw it. */
  lemma TakeStep(s: State, t: nat, choice: nat, yes: bool, addr: Frame)
    requires t < |s.codes| && Enabled(s, t, addr) && s.codes[t] == Preview(Take)
    ensures var r := Step(s, t, choice, yes, addr);
            if s.sh.running && s.sh.fifo != [] then
              var f := s.sh.fifo[0];
              && s.sh.fifo == [f] + r.sh.fifo && r.sh.departed == s.sh.departed + [f] && r.sh.arrived == s.sh.arrived
              && r.codes[t] == Unlock(PreviewMutex, if yes then Lock(PoolMutex, Pop(Decode(f)))
                                                    else Lock(PreviewMutex, Preview(SeeWindow(f))))
            else SameQueue(s.sh, r.sh) && r.codes[t] == Unlock(PreviewMutex, Preview(Loop))
  {
  }

  /** It waits first if and only if no frame is there: the mutex is given up and taken
      again. */
  lemma AwaitStep(s: State, t: nat, choice: nat, yes: bool, addr: Frame)
    requires t < |s.codes| && Enabled(s, t, addr) && s.codes[t] == Preview(Await)
    ensures var r := Step(s, t, choice, yes, addr);
            && r.sh == s.sh
            && r.codes[t] == if s.sh.fifo == [] then Unlock(PreviewMutex, Lock(PreviewMutex, Preview(Take)))
                             else Preview(Take)
  {
  }

  /** clearPreviewFrame recycles the entries one after the other, and then empties the
      FIFO. */
  lemma ClearFifoStep(s: State, t: nat, choice: nat, yes: bool, addr: Frame, i: nat, k: Code)
    requires t < |s.codes| && Enabled(s, t, addr) && s.codes[t] == ClearFifo(i, k)
    ensures var r := Step(s, t, choice, yes, addr);
            if i < |s.sh.fifo| then SameQueue(s.sh, r.sh) && Recycles(r.codes[t], s.sh.fifo[i], ClearFifo(i + 1, k))
            else r.sh.fifo == [] && r.sh.departed == s.sh.departed + s.sh.fifo && r.codes[t] == Unlock(PreviewMutex, k)
  {
  }

  /** No other step touches the FIFO, and none touches it without preview_mutex. */
  lemma FifoGuarded(s: State, t: nat, choice: nat, yes: bool, addr: Frame)
    requires t < |s.codes| && Enabled(s, t, addr)
    ensures var r := Step(s, t, choice, yes, addr);
            !SameQueue(s.sh, r.sh) ==>
              && PreviewMutex in Held(s.codes[t])
              && (s.codes[t].ClearFifo? || (s.codes[t].Preview? && (s.codes[t].p.Enqueue? || s.codes[t].p.Take?)))
  {
    hide Begin, With;
  }

  // ---- The slot between the preview thread and the capture thread ----

  /** addCaptureFrame: a running preview puts the frame into the slot, after recycling one
      that is still there; otherwise the frame is let go. */
  lemma StoreStep(s: State, t: nat, choice: nat, yes: bool, addr: Frame, f: Frame)
    requires t < |s.codes| && Enabled(s, t, addr) && s.codes[t] == Preview(Store(f))
    ensures var r := Step(s, t, choice, yes, addr);
            && r.sh.slot == s.sh.slot
            && (if !s.sh.running then
                  r.sh.dropped == s.sh.dropped + [f] && r.codes[t] == Unlock(CaptureMutex, Preview(Loop))
                else if s.sh.slot == [] then r.sh == s.sh && r.codes[t] == Replace(f)
                else r.sh == s.sh && Recycles(r.codes[t], s.sh.slot[0], Replace(f)))
  {
  }

  lemma ReplaceStep(s: State, t: nat, choice: nat, yes: bool, addr: Frame, f: Frame)
    requires t < |s.codes| && Enabled(s, t, addr) && s.codes[t] == Replace(f)
    ensures var r := Step(s, t, choice, yes, addr);
            r.sh == s.sh.(slot := [f]) && r.codes[t] == Unlock(CaptureMutex, Preview(Loop))
  {
  }

  /** waitCaptureFrame: a running preview hands over the frame in the slot. */
  lemma TakeSlotStep(s: State, t: nat, choice: nat, yes: bool, addr: Frame, surface: bool, converted: seq<Frame>)
    requires t < |s.codes| && Enabled(s, t, addr) && s.codes[t] == Capture(TakeSlot(surface, converted))
    ensures var r := Step(s, t, choice, yes, addr);
            if s.sh.running && s.sh.slot != [] then
              && r.sh == s.sh.(slot := [])
              && r.codes[t] == Unlock(CaptureMutex, Capture(Handle(s.sh.slot[0], surface, converted)))
            else r.sh == s.sh && r.codes[t] == Unlock(CaptureMutex, Capture(Serve(surface, converted)))
  {
  }

  /** clearCaptureFrame. */
  lemma ClearSlotStep(s: State, t: nat, choice: nat, yes: bool, addr: Frame, k: Code)
    requires t < |s.codes| && Enabled(s, t, addr) && s.codes[t] == ClearSlot(k)
    ensures var r := Step(s, t, choice, yes, addr);
            r.sh == s.sh && if s.sh.slot == [] then r.codes[t] == EmptySlot(k)
                            else Recycles(r.codes[t], s.sh.slot[0], EmptySlot(k))
  {
  }

  lemma EmptySlotStep(s: State, t: nat, choice: nat, yes: bool, addr: Frame, k: Code)
    requires t < |s.codes| && Enabled(s, t, addr) && s.codes[t] == EmptySlot(k)
    ensures var r := Step(s, t, choice, yes, addr);
            r.sh == s.sh.(slot := []) && r.codes[t] == Unlock(CaptureMutex, k)
  {
  }

  /** No other step touches the slot, and none touches it without capture_mutex. */
  lemma SlotGuarded(s: State, t: nat, choice: nat, yes: bool, addr: Frame)
    requires t < |s.codes| && Enabled(s, t, addr)
    ensures var r := Step(s, t, choice, yes, addr);
            r.sh.slot != s.sh.slot ==>
              && CaptureMutex in Held(s.codes[t])
              && (s.codes[t].Replace? || s.codes[t].EmptySlot? || (s.codes[t].Capture? && s.codes[t].q.TakeSlot?))
  {
    hide Begin, With;
  }

  // ---- The pool ----

  /** recycle_frame keeps up to six frames, and frees the others. */
  lemma PutStep(s: State, t: nat, choice: nat, yes: bool, addr: Frame, f: Frame, k: Code)
    requires t < |s.codes| && Enabled(s, t, addr) && s.codes[t] == Put(f, k)
    ensures var r := Step(s, t, choice, yes, addr);
            if |s.sh.pool| < 6 then r.sh == s.sh.(pool := s.sh.pool + [f]) && r.codes[t] == Unlock(PoolMutex, k)
            else r.sh == s.sh && r.codes[t] == Unlock(PoolMutex, Free(f, k))
  {
  }

  /** get_frame takes the last frame of the pool, and allocates one only if there is none. */
  lemma PopStep(s: State, t: nat, choice: nat, yes: bool, addr: Frame, u: Use)
    requires t < |s.codes| && Enabled(s, t, addr) && s.codes[t] == Pop(u)
    ensures var r := Step(s, t, choice, yes, addr);
            if s.sh.pool != [] then
              exists f :: s.sh.pool == r.sh.pool + [f] && r.sh == s.sh.(pool := r.sh.pool)
                          && r.codes[t] == Unlock(PoolMutex, With(u, f))
            else r.sh == s.sh && r.codes[t] == Unlock(PoolMutex, Allocate(u))
  {
    hide With;
    if s.sh.pool != [] {
      var r, n := Step(s, t, choice, yes, addr), |s.sh.pool| - 1;
      assert s.sh.pool == r.sh.pool + [s.sh.pool[n]];
    }
  }

  /** The frame from get_frame goes to the copy for the preview, or to the MJPEG decoder. */
  lemma GotFrame(s: State, t: nat, choice: nat, yes: bool, addr: Frame, u: Use)
    requires t < |s.codes| && Enabled(s, t, addr) && s.codes[t] == Allocate(u)
    ensures var r := Step(s, t, choice, yes, addr);
            && r.sh == s.sh.(live := s.sh.live + {addr}) && r.codes[t] == With(u, addr)
            && (u.UsbCopy? ==> r.codes[t] == Preview(Duplicate(addr)))
            && (u.Decode? ==> r.codes[t] == Preview(Decoded(u.mjpeg, addr)))
  {
  }

  lemma PoolGuarded(s: State, t: nat, choice: nat, yes: bool, addr: Frame)
    requires t < |s.codes| && Enabled(s, t, addr)
    ensures var r := Step(s, t, choice, yes, addr);
            r.sh.pool != s.sh.pool ==> PoolMutex in Held(s.codes[t]) && (s.codes[t].Put? || s.codes[t].Pop?)
  {
    hide Begin, With;
  }

  // ---- Starting and stopping ----

  /** The USB callback gets a frame only while the preview runs; the preview thread and the
      capture thread start by emptying what they read from; stopPreview empties both. */
  lemma BeginStep(s: State, t: nat, choice: nat, yes: bool, addr: Frame)
    requires t < |s.codes| && Enabled(s, t, addr) && s.codes[t] == Idle
    ensures var r := Step(s, t, choice, yes, addr);
            && r.sh == s.sh
            && (t == 0 ==> r.codes[t] == if s.sh.running then Lock(PoolMutex, Pop(UsbCopy)) else Idle)
            && (t == 1 ==> r.codes[t] == Lock(PreviewMutex, ClearFifo(0, Preview(Loop))))
            && (t == 2 ==> r.codes[t] == Lock(CaptureMutex, ClearSlot(Capture(Outer))))
            && (t > 2 && choice == 0 ==>
                  r.codes[t] == Lock(PreviewMutex, ClearFifo(0, Lock(CaptureMutex, ClearSlot(Idle)))))
  {
  }

  /** Both loops go on as long as the preview runs; the capture thread recycles a frame left
      over from a surface before it ends. */
  lemma LoopStep(s: State, t: nat, choice: nat, yes: bool, addr: Frame, surface: bool, converted: seq<Frame>)
    requires t < |s.codes| && Enabled(s, t, addr)
    ensures var c, r := s.codes[t], Step(s, t, choice, yes, addr);
            && (c == Preview(Loop) ==>
                  r.sh == s.sh && r.codes[t] == if s.sh.running then Lock(PreviewMutex, Preview(Await)) else Idle)
            && (c == Capture(Outer) ==>
                  if s.sh.running then r.sh == s.sh.(capturing := true) && r.codes[t] == Capture(Serve(yes, []))
                  else r.sh == s.sh && r.codes[t] == Idle)
            && (c == Capture(Serve(surface, converted)) ==>
                  && r.sh == s.sh
                  && if s.sh.running && s.sh.capturing then
                       r.codes[t] == Lock(CaptureMutex, Capture(AwaitSlot(surface, converted)))
                     else if converted == [] then r.codes[t] == Capture(Outer)
                     else Recycles(r.codes[t], converted[0], Capture(Serve(surface, converted[1..]))))
  {
    hide Begin, With;
  }

  /** The capture thread waits if and only if the slot is empty. */
  lemma AwaitSlotStep(s: State, t: nat, choice: nat, yes: bool, addr: Frame, surface: bool, converted: seq<Frame>)
    requires t < |s.codes| && Enabled(s, t, addr) && s.codes[t] == Capture(AwaitSlot(surface, converted))
    ensures var r, next := Step(s, t, choice, yes, addr), Capture(TakeSlot(surface, converted));
            && r.sh == s.sh
            && r.codes[t] == if s.sh.slot == [] then Unlock(CaptureMutex, Lock(CaptureMutex, next)) else next
  {
  }

  // ---- The way of a frame through a thread ----

  /** uvc_preview_frame_callback queues the frame unless the copy failed. */
  lemma DuplicateStep(s: State, t: nat, choice: nat, yes: bool, addr: Frame, f: Frame)
    requires t < |s.codes| && Enabled(s, t, addr) && s.codes[t] == Preview(Duplicate(f))
    ensures var r := Step(s, t, choice, yes, addr);
            r.sh == s.sh && if yes then r.codes[t] == Lock(PreviewMutex, Preview(Enqueue(f)))
                            else Recycles(r.codes[t], f, Idle)
  {
  }

  /** do_preview in MJPEG mode recycles the compressed frame, and draws the other one
      unless decoding failed. */
  lemma DecodedStep(s: State, t: nat, choice: nat, yes: bool, addr: Frame, mjpeg: Frame, f: Frame)
    requires t < |s.codes| && Enabled(s, t, addr) && s.codes[t] == Preview(Decoded(mjpeg, f))
    ensures var r := Step(s, t, choice, yes, addr);
            r.sh == s.sh && if yes then Recycles(r.codes[t], mjpeg, Lock(PreviewMutex, Preview(SeeWindow(f))))
                            else r.codes[t].Lock? && r.codes[t].k.Put? && Recycles(r.codes[t].k.k, f, Preview(Loop))
                                 && Recycles(r.codes[t], mjpeg, r.codes[t].k.k)
  {
  }

  /** The thread is on its way from draw_preview_one to addCaptureFrame with f. */
  predicate BoundForSlot(c: Code, f: Frame) {
    match c
    case Preview(p) => (p.SeeWindow? || p.Converted? || p.Store?) && p.f == f
    case Pop(u) => u == Convert(f)
    case Allocate(u) => u == Convert(f)
    case Lock(m, k) => BoundForSlot(k, f)
    case Unlock(m, k) => BoundForSlot(k, f)
    case Put(g, k) => BoundForSlot(k, f)
    case Free(g, k) => BoundForSlot(k, f)
    case _ => false
  }

  /** Every frame that is drawn reaches addCaptureFrame, whatever the other threads do and
      whether or not there is a window and the conversion succeeds. */
  lemma DrawnIsStored(s: State, t: nat, u: nat, choice: nat, yes: bool, addr: Frame, f: Frame)
    requires t < |s.codes| && u < |s.codes| && Enabled(s, u, addr)
    requires BoundForSlot(s.codes[t], f) && s.codes[t] != Preview(Store(f))
    ensures BoundForSlot(Step(s, u, choice, yes, addr).codes[t], f)
  {
    assert BoundForSlot(Deliver(f), f);
    if s.codes[t].Preview? && s.codes[t].p.Converted? {
      assert BoundForSlot(Recycle(s.codes[t].p.c, Deliver(f)), f);
    }
  }

  /** do_capture_surface gets one frame for the surface and keeps it; do_capture_callback gets
      another one if there is a callback, and recycles the captured frame in any case. */
  lemma HandleStep(s: State, t: nat, choice: nat, yes: bool, addr: Frame, f: Frame, surface: bool,
                   converted: seq<Frame>)
    requires t < |s.codes| && Enabled(s, t, addr)
    ensures var c, r := s.codes[t], Step(s, t, choice, yes, addr);
            && (c == Capture(Handle(f, surface, converted)) ==>
                  && r.sh == s.sh
                  && r.codes[t] == if surface && s.sh.capturing && converted == [] then Lock(PoolMutex, Pop(Surface(f)))
                                   else Capture(Call(f, surface, converted)))
            && (c == Capture(Call(f, surface, converted)) ==>
                  && r.sh == s.sh
                  && if yes then r.codes[t] == Lock(PoolMutex, Pop(Notify(f, surface, converted)))
                     else Recycles(r.codes[t], f, Capture(Serve(surface, converted))))
  {
    hide Begin, With;
  }

  /** setCaptureDisplay and setFrameCallback make the capture thread leave its loop, inside
      capture_mutex. */
  lemma ToggleStep(s: State, t: nat, choice: nat, yes: bool, addr: Frame)
    requires t < |s.codes| && Enabled(s, t, addr) && s.codes[t] == Capture(Toggle)
    ensures var r := Step(s, t, choice, yes, addr);
            r.sh == s.sh.(capturing := false) && r.codes[t].Unlock? && r.codes[t].m.CaptureMutex?
  {
  }

  /** The capture thread is on its way to recycle f. */
  predicate BoundForPool(c: Code, f: Frame) {
    match c
    case Capture(q) => (q.Handle? || q.Call?) && q.f == f
    case Pop(u) => (u.Surface? || u.Notify?) && u.frame == f
    case Allocate(u) => (u.Surface? || u.Notify?) && u.frame == f
    case Lock(m, k) => BoundForPool(k, f)
    case Unlock(m, k) => BoundForPool(k, f)
    case Put(g, k) => g == f || BoundForPool(k, f)
    case Free(g, k) => BoundForPool(k, f)
    case _ => false
  }

  /** Every frame that the capture thread takes out of the slot is recycled by it. */
  lemma TakenIsRecycled(s: State, t: nat, u: nat, choice: nat, yes: bool, addr: Frame, f: Frame)
    requires t < |s.codes| && u < |s.codes| && Enabled(s, u, addr)
    requires BoundForPool(s.codes[t], f) && !(s.codes[t].Put? && s.codes[t].f == f)
    ensures BoundForPool(Step(s, u, choice, yes, addr).codes[t], f)
  {
  }

  // ---- Atomicity ----

  /** While a thread holds a mutex, no step of another thread changes what it guards. */
  lemma Undisturbed(s: State, t: nat, u: nat, choice: nat, yes: bool, addr: Frame)
    requires t < |s.codes| && u < |s.codes| && t != u && Invariant(s) && Enabled(s, u, addr)
    ensures var r := Step(s, u, choice, yes, addr);
            && r.codes[t] == s.codes[t]
            && (PreviewMutex in Held(s.codes[t]) ==> SameQueue(s.sh, r.sh))
            && (CaptureMutex in Held(s.codes[t]) ==> r.sh.slot == s.sh.slot)
            && (PoolMutex in Held(s.codes[t]) ==> r.sh.pool == s.sh.pool)
  {
    FifoGuarded(s, u, choice, yes, addr);
    SlotGuarded(s, u, choice, yes, addr);
    PoolGuarded(s, u, choice, yes, addr);
    hide Next, Holders, Nested, Held;
    assert if t < u then Held(s.codes[t]) !! Held(s.codes[u]) else Held(s.codes[u]) !! Held(s.codes[t]);
  }
}
