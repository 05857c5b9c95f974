/** The frames of UVCPreview.cpp: the USB callback, the preview thread, the capture
    thread and the application pass frames through a pool, a FIFO and a one-frame
    slot under three mutexes. Every mutex operation and every change of the shared
    data is a step of its own, and the steps of all threads interleave freely. */
module FrameOwnership {

  const MAX_FRAME := 4
  const FRAME_POOL_SZ := 6

  type Frame = nat

  datatype Mutex = PreviewMutex | CaptureMutex | PoolMutex

  /** What a thread wants a frame from get_frame for. */
  datatype Use =
    | UsbCopy                                                     // uvc_preview_frame_callback
    | Decode(mjpeg: Frame)                                        // do_preview, MJPEG mode
    | Convert(frame: Frame)                                       // draw_preview_one
    | Surface(frame: Frame)                                       // do_capture_surface
    | Notify(frame: Frame, surface: bool, converted: seq<Frame>)  // do_capture_callback

  /** Points of the USB callback and of the preview thread. */
  datatype PreviewTask =
    | Duplicate(f: Frame)                     // uvc_duplicate_frame
    | Enqueue(f: Frame)                       // addPreviewFrame
    | Loop
    | Await                                   // waitPreviewFrame
    | Take                                    // waitPreviewFrame, after any wait
    | Decoded(mjpeg: Frame, f: Frame)         // uvc_mjpeg2yuyv
    | SeeWindow(f: Frame)                     // draw_preview_one
    | Converted(f: Frame, c: Frame)           // draw_preview_one, after conversion
    | Store(f: Frame)                         // addCaptureFrame

  /** Points of the capture thread. */
  datatype CaptureTask =
    | Outer                                                       // do_capture
    | Serve(surface: bool, converted: seq<Frame>)
    | AwaitSlot(surface: bool, converted: seq<Frame>)             // waitCaptureFrame
    | TakeSlot(surface: bool, converted: seq<Frame>)
    | Handle(f: Frame, surface: bool, converted: seq<Frame>)      // do_capture_surface
    | Call(f: Frame, surface: bool, converted: seq<Frame>)        // do_capture_callback
    | Toggle                                                      // setCaptureDisplay, setFrameCallback

  /** Where a thread is, with the frames in its local variables; k is what it does
      after returning from a routine. */
  datatype Code =
    | Idle
    | Preview(p: PreviewTask)
    | Capture(q: CaptureTask)
    | Lock(m: Mutex, k: Code)
    | Unlock(m: Mutex, k: Code)
    | Put(f: Frame, k: Code)                  // recycle_frame, inside pool_mutex
    | Free(f: Frame, k: Code)                 // recycle_frame, the pool was full
    | Pop(u: Use)                             // get_frame, inside pool_mutex
    | Allocate(u: Use)                        // get_frame, the pool was empty
    | ClearFifo(i: nat, k: Code)              // clearPreviewFrame, entry i
    | Replace(f: Frame)                       // addCaptureFrame: captureQueu = frame
    | ClearSlot(k: Code)                      // clearCaptureFrame
    | EmptySlot(k: Code)                      // captureQueu = NULL

  /** The shared data. `live` are the allocated frames, `dropped` those that
      addCaptureFrame let go after the preview was stopped; `arrived` and `departed`
      record what has entered and left the FIFO. */
  datatype Shared = Shared(pool: seq<Frame>, fifo: seq<Frame>, slot: seq<Frame>, running: bool, capturing: bool,
                           live: set<Frame>, dropped: seq<Frame>, arrived: seq<Frame>, departed: seq<Frame>)

  datatype State = State(sh: Shared, codes: seq<Code>)

  // ---- The routines ----

  function Recycle(f: Frame, k: Code): Code { Lock(PoolMutex, Put(f, k)) }

  function GetFrame(u: Use): Code { Lock(PoolMutex, Pop(u)) }

  function Draw(f: Frame): Code { Lock(PreviewMutex, Preview(SeeWindow(f))) }

  function Deliver(f: Frame): Code { Lock(CaptureMutex, Preview(Store(f))) }

  /** get_frame has returned f. */
  function With(u: Use, f: Frame): Code {
    match u
    case UsbCopy => Preview(Duplicate(f))
    case Decode(m) => Preview(Decoded(m, f))
    case Convert(g) => Preview(Converted(g, f))
    case Surface(g) => Capture(Call(g, true, [f]))
    case Notify(g, surface, converted) => Recycle(g, Recycle(f, Capture(Serve(surface, converted))))
  }

  /** The first step of the routines that thread t runs: 0 is the USB callback, 1 the
      preview thread, 2 the capture thread, and the rest belong to the application. */
  function Begin(t: nat, choice: nat): Code {
    if t == 0 then GetFrame(UsbCopy)
    else if t == 1 then Lock(PreviewMutex, ClearFifo(0, Preview(Loop)))
    else if t == 2 then Lock(CaptureMutex, ClearSlot(Capture(Outer)))
    else if choice == 0 then StopPreview()
    else if choice == 1 then PreviewSection(Idle)       // setPreviewDisplay
    else if choice == 2 then ClearDisplay()
    else Lock(CaptureMutex, Capture(Toggle))
  }

  function StopPreview(): Code {
    Lock(PreviewMutex, ClearFifo(0, Lock(CaptureMutex, ClearSlot(Idle))))
  }

  function PreviewSection(k: Code): Code { Lock(PreviewMutex, Unlock(PreviewMutex, k)) }

  function ClearDisplay(): Code { Lock(CaptureMutex, Unlock(CaptureMutex, PreviewSection(Idle))) }

  /** pthread_cond_wait gives the mutex up and takes it again. */
  function Wait(m: Mutex, k: Code): Code { Unlock(m, Lock(m, k)) }

  datatype Local = Local(sh: Shared, c: Code)

  /** One step of the USB callback or the preview thread. `yes` decides what the model
      does not compute: a conversion succeeded, a window or a callback is set, ... */
  function PreviewStep(sh: Shared, p: PreviewTask, yes: bool): (r: Local) {
    match p
    case Duplicate(f) => Local(sh, if yes then Lock(PreviewMutex, Preview(Enqueue(f))) else Recycle(f, Idle))
    case Enqueue(f) =>
      if sh.running && |sh.fifo| < MAX_FRAME
      then Local(sh.(fifo := sh.fifo + [f], arrived := sh.arrived + [f]), Unlock(PreviewMutex, Idle))
      else Local(sh, Unlock(PreviewMutex, Recycle(f, Idle)))
    case Loop => Local(sh, if sh.running then Lock(PreviewMutex, Preview(Await)) else Idle)
    case Await => Local(sh, if sh.fifo == [] then Wait(PreviewMutex, Preview(Take)) else Preview(Take))
    case Take =>
      if sh.running && sh.fifo != [] then
        var f := sh.fifo[0];
        Local(sh.(fifo := sh.fifo[1..], departed := sh.departed + [f]),
              Unlock(PreviewMutex, if yes then GetFrame(Decode(f)) else Draw(f)))
      else Local(sh, Unlock(PreviewMutex, Preview(Loop)))
    case Decoded(m, f) => Local(sh, Recycle(m, if yes then Draw(f) else Recycle(f, Preview(Loop))))
    case SeeWindow(f) => Local(sh, Unlock(PreviewMutex, if yes then GetFrame(Convert(f)) else Deliver(f)))
    case Converted(f, g) =>
      Local(sh, if yes then PreviewSection(Recycle(g, Deliver(f))) else Recycle(g, Deliver(f)))
    case Store(f) =>
      if !sh.running then Local(sh.(dropped := sh.dropped + [f]), Unlock(CaptureMutex, Preview(Loop)))
      else if sh.slot != [] then Local(sh, Recycle(sh.slot[0], Replace(f)))
      else Local(sh, Replace(f))
  }

  /** One step of the capture thread. */
  function CaptureStep(sh: Shared, q: CaptureTask, yes: bool): (r: Local) {
    match q
    case Outer => if sh.running then Local(sh.(capturing := true), Capture(Serve(yes, []))) else Local(sh, Idle)
    case Serve(surface, converted) =>
      if sh.running && sh.capturing then Local(sh, Lock(CaptureMutex, Capture(AwaitSlot(surface, converted))))
      else if converted != [] then Local(sh, Recycle(converted[0], Capture(Serve(surface, converted[1..]))))
      else Local(sh, Capture(Outer))
    case AwaitSlot(surface, converted) =>
      var next := Capture(TakeSlot(surface, converted));
      Local(sh, if sh.slot == [] then Wait(CaptureMutex, next) else next)
    case TakeSlot(surface, converted) =>
      if sh.running && sh.slot != [] then
        Local(sh.(slot := []), Unlock(CaptureMutex, Capture(Handle(sh.slot[0], surface, converted))))
      else Local(sh, Unlock(CaptureMutex, Capture(Serve(surface, converted))))
    case Handle(f, surface, converted) =>
      Local(sh, if surface && sh.capturing && converted == [] then GetFrame(Surface(f))
                else Capture(Call(f, surface, converted)))
    case Call(f, surface, converted) =>
      Local(sh, if yes then GetFrame(Notify(f, surface, converted))
                else Recycle(f, Capture(Serve(surface, converted))))
    case Toggle =>
      Local(sh.(capturing := false),
            if yes then Wait(CaptureMutex, Unlock(CaptureMutex, Idle)) else Unlock(CaptureMutex, Idle))
  }

  /** One step of thread t at code c; `addr` is the address that the allocator returns. */
  function Next(sh: Shared, t: nat, c: Code, choice: nat, yes: bool, addr: Frame): (r: Local) {
    match c
    case Idle => Local(sh, if t != 0 || sh.running then Begin(t, choice) else Idle)
    case Preview(p) => PreviewStep(sh, p, yes)
    case Capture(q) => CaptureStep(sh, q, yes)
    case Lock(m, k) => Local(sh, k)
    case Unlock(m, k) => Local(sh, k)
    case Put(f, k) =>
      if |sh.pool| < FRAME_POOL_SZ then Local(sh.(pool := sh.pool + [f]), Unlock(PoolMutex, k))
      else Local(sh, Unlock(PoolMutex, Free(f, k)))
    case Free(f, k) => Local(sh.(live := sh.live - {f}), k)
    case Pop(u) =>
      if sh.pool != [] then
        var n := |sh.pool| - 1;
        Local(sh.(pool := sh.pool[..n]), Unlock(PoolMutex, With(u, sh.pool[n])))
      else Local(sh, Unlock(PoolMutex, Allocate(u)))
    case Allocate(u) => Local(sh.(live := sh.live + {addr}), With(u, addr))
    case ClearFifo(i, k) =>
      if i < |sh.fifo| then Local(sh, Recycle(sh.fifo[i], ClearFifo(i + 1, k)))
      else Local(sh.(fifo := [], departed := sh.departed + sh.fifo), Unlock(PreviewMutex, k))
    case Replace(f) => Local(sh.(slot := [f]), Unlock(CaptureMutex, Preview(Loop)))
    case ClearSlot(k) => Local(sh, if sh.slot != [] then Recycle(sh.slot[0], EmptySlot(k)) else EmptySlot(k))
    case EmptySlot(k) => Local(sh.(slot := []), Unlock(CaptureMutex, k))
  }

  // ---- Mutexes ----

  function PreviewHeld(p: PreviewTask): (h: set<Mutex>) {
    match p
    case Enqueue(_) => {PreviewMutex}
    case Await => {PreviewMutex}
    case Take => {PreviewMutex}
    case SeeWindow(_) => {PreviewMutex}
    case Store(_) => {CaptureMutex}
    case _ => {}
  }

  function CaptureHeld(q: CaptureTask): (h: set<Mutex>) {
    if q.AwaitSlot? || q.TakeSlot? || q.Toggle? then {CaptureMutex} else {}
  }

  /** The mutexes that a thread holds at code c. */
  function Held(c: Code): (h: set<Mutex>) {
    match c
    case Idle => {}
    case Preview(p) => PreviewHeld(p)
    case Capture(q) => CaptureHeld(q)
    case Lock(m, k) => Held(k) - {m}
    case Unlock(m, k) => Held(k) + {m}
    case Put(f, k) => Held(k) + {PoolMutex}
    case Free(f, k) => Held(k)
    case Pop(u) => {PoolMutex}
    case Allocate(u) => {}
    case ClearFifo(i, k) => Held(k) + {PreviewMutex}
    case Replace(f) => {CaptureMutex}
    case ClearSlot(k) => Held(k) + {CaptureMutex}
    case EmptySlot(k) => Held(k) + {CaptureMutex}
  }

  /** How many entries of previewFrames the loop of clearPreviewFrame has already
      recycled; they are still in the array. */
  function Cleared(c: Code): (i: nat) {
    match c
    case ClearFifo(i, k) => i
    case Lock(m, k) => if m.PoolMutex? then Cleared(k) else 0
    case Unlock(m, k) => if m.PoolMutex? then Cleared(k) else 0
    case Put(f, k) => Cleared(k)
    case Free(f, k) => Cleared(k)
    case _ => 0
  }

  /** captureQueu still points at a frame that the thread has already recycled. */
  predicate Swapping(c: Code) {
    match c
    case Replace(f) => true
    case EmptySlot(k) => true
    case Lock(m, k) => m.PoolMutex? && Swapping(k)
    case Unlock(m, k) => m.PoolMutex? && Swapping(k)
    case Put(f, k) => Swapping(k)
    case Free(f, k) => Swapping(k)
    case _ => false
  }

  /** The routine that follows can be entered with nothing half done. */
  predicate Clean(k: Code) {
    Cleared(k) == 0 && !Swapping(k)
  }

  /** The mutexes are nested: pool_mutex innermost, the other two never together. */
  predicate Nested(c: Code) {
    match c
    case Lock(m, k) => Nested(k) && m in Held(k) && (!m.PoolMutex? ==> Held(k) == {m} && Clean(k))
    case Unlock(m, k) => Nested(k) && m !in Held(k) && (!m.PoolMutex? ==> Held(k) == {} && Clean(k))
    case Put(f, k) => Nested(k) && PoolMutex !in Held(k)
    case Free(f, k) => Nested(k) && PoolMutex !in Held(k)
    case ClearFifo(i, k) => Nested(k) && Held(k) == {} && Clean(k)
    case ClearSlot(k) => Nested(k) && Held(k) == {} && Clean(k)
    case EmptySlot(k) => Nested(k) && Held(k) == {} && Clean(k)
    case _ => true
  }

  /** No thread holds m. */
  predicate Available(codes: seq<Code>, m: Mutex) {
    forall t :: 0 <= t < |codes| ==> m !in Held(codes[t])
  }

  predicate Enabled(s: State, t: nat, addr: Frame)
    requires t < |s.codes|
  {
    && (s.codes[t].Lock? ==> Available(s.codes, s.codes[t].m))
    && addr !in s.sh.live
  }

  /** A step of thread t. */
  function Step(s: State, t: nat, choice: nat, yes: bool, addr: Frame): (r: State)
    requires t < |s.codes| && Enabled(s, t, addr)
  {
    var l := Next(s.sh, t, s.codes[t], choice, yes, addr);
    State(l.sh, s.codes[t := l.c])
  }

  /** The application starts and stops the preview at any time, without a mutex. */
  function SetRunning(s: State, running: bool): (r: State) {
    s.(sh := s.sh.(running := running))
  }

  // ---- Who holds a frame ----

  function One(f: Frame, x: Frame): nat { if f == x then 1 else 0 }

  function In(live: set<Frame>, x: Frame): nat { if x in live then 1 else 0 }

  /** How often x occurs. */
  function Count(s: seq<Frame>, x: Frame): nat { multiset(s)[x] }

  lemma CountSnoc(s: seq<Frame>, f: Frame, x: Frame)
    ensures Count(s + [f], x) == Count(s, x) + One(f, x)
  {
  }

  lemma CountFirst(s: seq<Frame>, i: nat, x: Frame)
    requires i < |s|
    ensures Count(s[i..], x) == One(s[i], x) + Count(s[i + 1..], x)
  {
    assert s[i..] == [s[i]] + s[i + 1..];
  }

  lemma CountAll(s: seq<Frame>, x: Frame)
    ensures Count(s[0..], x) == Count(s, x) && Count([], x) == 0
            && (s != [] ==> Count(s, x) == One(s[0], x) + Count(s[1..], x))
  {
    assert s[0..] == s;
    if s != [] {
      CountFirst(s, 0, x);
    }
  }

  function OwnedByUse(u: Use, x: Frame): (n: nat) {
    match u
    case UsbCopy => 0
    case Decode(m) => One(m, x)
    case Convert(f) => One(f, x)
    case Surface(f) => One(f, x)
    case Notify(f, surface, converted) => One(f, x) + Count(converted, x)
  }

  function PreviewOwned(p: PreviewTask, x: Frame): (n: nat) {
    match p
    case Duplicate(f) => One(f, x)
    case Enqueue(f) => One(f, x)
    case Decoded(g, f) => One(g, x) + One(f, x)
    case SeeWindow(f) => One(f, x)
    case Converted(f, g) => One(f, x) + One(g, x)
    case Store(f) => One(f, x)
    case _ => 0
  }

  function CaptureOwned(q: CaptureTask, x: Frame): (n: nat) {
    match q
    case Serve(surface, converted) => Count(converted, x)
    case AwaitSlot(surface, converted) => Count(converted, x)
    case TakeSlot(surface, converted) => Count(converted, x)
    case Handle(f, surface, converted) => One(f, x) + Count(converted, x)
    case Call(f, surface, converted) => One(f, x) + Count(converted, x)
    case _ => 0
  }

  /** The frames in the local variables of a thread at code c. */
  function Owned(c: Code, x: Frame): (n: nat) {
    match c
    case Idle => 0
    case Preview(p) => PreviewOwned(p, x)
    case Capture(q) => CaptureOwned(q, x)
    case Lock(m, k) => Owned(k, x)
    case Unlock(m, k) => Owned(k, x)
    case Put(f, k) => Owned(k, x) + One(f, x)
    case Free(f, k) => Owned(k, x) + One(f, x)
    case Pop(u) => OwnedByUse(u, x)
    case Allocate(u) => OwnedByUse(u, x)
    case ClearFifo(i, k) => Owned(k, x)
    case Replace(f) => One(f, x)
    case ClearSlot(k) => Owned(k, x)
    case EmptySlot(k) => Owned(k, x)
  }

  function OwnedAll(codes: seq<Code>, x: Frame): (n: nat) {
    if codes == [] then 0 else OwnedAll(codes[..|codes| - 1], x) + Owned(codes[|codes| - 1], x)
  }

  function ClearedAll(codes: seq<Code>): (n: nat) {
    if codes == [] then 0 else ClearedAll(codes[..|codes| - 1]) + Cleared(codes[|codes| - 1])
  }

  predicate SwappingAny(codes: seq<Code>) {
    exists t :: 0 <= t < |codes| && Swapping(codes[t])
  }

  /** The pool, the FIFO without the entries already recycled, the slot unless its
      frame is already recycled, and the dropped frames. */
  function Shown(sh: Shared, cleared: nat, swapping: bool, x: Frame): (n: nat)
    requires cleared <= |sh.fifo|
  {
    Count(sh.pool, x) + Count(sh.fifo[cleared..], x) + (if swapping then 0 else Count(sh.slot, x))
      + Count(sh.dropped, x)
  }

  /** All places where a frame can be, counted with multiplicity. */
  ghost function Holders(s: State, x: Frame): (n: nat)
    requires ClearedAll(s.codes) <= |s.sh.fifo|
  {
    Shown(s.sh, ClearedAll(s.codes), SwappingAny(s.codes), x) + OwnedAll(s.codes, x)
  }

  /** No mutex is held by two threads. */
  predicate Exclusive(codes: seq<Code>) {
    forall t, u :: 0 <= t < u < |codes| ==> Held(codes[t]) !! Held(codes[u])
  }

  /** What every reachable state satisfies. */
  ghost predicate Invariant(s: State) {
    && (forall t :: 0 <= t < |s.codes| ==> Nested(s.codes[t]))
    && Exclusive(s.codes)
    && |s.sh.fifo| <= MAX_FRAME && |s.sh.pool| <= FRAME_POOL_SZ && |s.sh.slot| <= 1
    && s.sh.arrived == s.sh.departed + s.sh.fifo
    && ClearedAll(s.codes) <= |s.sh.fifo|
    && forall x: Frame :: Holders(s, x) == In(s.sh.live, x)
  }

  // ---- One step, locally ----

  /** What one thread's step does, when the other threads have recycled `cleared`
      entries of the FIFO and are (or are not) swapping the slot. */
  ghost predicate Fits(sh: Shared, c: Code, cleared: nat, swapping: bool, x: Frame) {
    && Nested(c) && |sh.fifo| <= MAX_FRAME && |sh.pool| <= FRAME_POOL_SZ && |sh.slot| <= 1
    && sh.arrived == sh.departed + sh.fifo
    && cleared + Cleared(c) <= |sh.fifo|
    && (PreviewMutex in Held(c) ==> cleared == 0)
    && (CaptureMutex in Held(c) ==> !swapping)
    && Owned(c, x) <= In(sh.live, x)
  }

  ghost predicate Balanced(sh: Shared, c: Code, cleared: nat, swapping: bool, l: Local, x: Frame) {
    && Nested(l.c) && |l.sh.fifo| <= MAX_FRAME && |l.sh.pool| <= FRAME_POOL_SZ && |l.sh.slot| <= 1
    && l.sh.arrived == l.sh.departed + l.sh.fifo
    && cleared + Cleared(l.c) <= |l.sh.fifo| && cleared + Cleared(c) <= |sh.fifo|
    && Held(l.c) <= Held(c) + (if c.Lock? then {c.m} else {})
    && Shown(l.sh, cleared + Cleared(l.c), swapping || Swapping(l.c), x) + Owned(l.c, x) + In(sh.live, x)
       == Shown(sh, cleared + Cleared(c), swapping || Swapping(c), x) + Owned(c, x) + In(l.sh.live, x)
  }

  /** Half-done work is done under the mutex that protects it. */
  lemma {:induction false} HalfDoneIsLocked(c: Code)
    requires Nested(c)
    ensures Cleared(c) > 0 ==> PreviewMutex in Held(c)
    ensures Swapping(c) ==> CaptureMutex in Held(c)
  {
    match c
    case Lock(m, k) => HalfDoneIsLocked(k);
    case Unlock(m, k) => HalfDoneIsLocked(k);
    case Put(f, k) => HalfDoneIsLocked(k);
    case Free(f, k) => HalfDoneIsLocked(k);
    case _ =>
  }

  // What the routines do to these measures, one level at a time.

  lemma LockIs(m: Mutex, k: Code, x: Frame)
    requires Nested(k) && m in Held(k) && (!m.PoolMutex? ==> Held(k) == {m} && Clean(k))
    ensures Nested(Lock(m, k)) && Held(Lock(m, k)) == Held(k) - {m} && Owned(Lock(m, k), x) == Owned(k, x)
    ensures Cleared(Lock(m, k)) == Cleared(k) && Swapping(Lock(m, k)) == Swapping(k)
  {
  }

  lemma UnlockIs(m: Mutex, k: Code, x: Frame)
    requires Nested(k) && m !in Held(k) && (!m.PoolMutex? ==> Held(k) == {} && Clean(k))
    ensures Nested(Unlock(m, k)) && Held(Unlock(m, k)) == Held(k) + {m} && Owned(Unlock(m, k), x) == Owned(k, x)
    ensures Cleared(Unlock(m, k)) == Cleared(k) && Swapping(Unlock(m, k)) == Swapping(k)
  {
  }

  lemma WaitIs(m: Mutex, k: Code, x: Frame)
    requires Nested(k) && !m.PoolMutex? && Held(k) == {m} && Clean(k)
    ensures Nested(Wait(m, k)) && Held(Wait(m, k)) == {m} && Owned(Wait(m, k), x) == Owned(k, x) && Clean(Wait(m, k))
  {
    hide Count, Nested, Held, Owned, Cleared, Swapping;
    LockIs(m, k, x);
    UnlockIs(m, Lock(m, k), x);
  }

  lemma RecycleIs(f: Frame, k: Code, x: Frame)
    requires Nested(k) && PoolMutex !in Held(k)
    ensures Nested(Recycle(f, k)) && Held(Recycle(f, k)) == Held(k)
            && Owned(Recycle(f, k), x) == Owned(k, x) + One(f, x)
    ensures Cleared(Recycle(f, k)) == Cleared(k) && Swapping(Recycle(f, k)) == Swapping(k)
  {
    PutIs(f, k, x);
    hide Count, Nested, Held, Owned, Cleared, Swapping;
    LockIs(PoolMutex, Put(f, k), x);
  }

  lemma PutIs(f: Frame, k: Code, x: Frame)
    requires Nested(k) && PoolMutex !in Held(k)
    ensures Nested(Put(f, k)) && Held(Put(f, k)) == Held(k) + {PoolMutex}
            && Owned(Put(f, k), x) == Owned(k, x) + One(f, x)
    ensures Cleared(Put(f, k)) == Cleared(k) && Swapping(Put(f, k)) == Swapping(k)
    ensures Nested(Free(f, k)) && Held(Free(f, k)) == Held(k) && Owned(Free(f, k), x) == Owned(k, x) + One(f, x)
    ensures Cleared(Free(f, k)) == Cleared(k) && Swapping(Free(f, k)) == Swapping(k)
  {
  }

  /** A routine of its own: no mutex held, nothing half done. */
  ghost predicate Fresh(c: Code, m: nat, x: Frame) {
    Nested(c) && Held(c) == {} && Clean(c) && Owned(c, x) == m
  }

  lemma GetIs(u: Use, x: Frame)
    ensures Fresh(GetFrame(u), OwnedByUse(u, x), x)
  {
  }

  lemma DrawIs(f: Frame, x: Frame)
    ensures Fresh(Draw(f), One(f, x), x) && Fresh(Deliver(f), One(f, x), x)
  {
  }

  lemma ThenRecycle(f: Frame, k: Code, m: nat, x: Frame)
    requires Fresh(k, m, x)
    ensures Fresh(Recycle(f, k), m + One(f, x), x)
  {
    hide Count, Nested, Held, Owned, Cleared, Swapping;
    RecycleIs(f, k, x);
  }

  lemma ThenLock(m: Mutex, k: Code, o: nat, x: Frame)
    requires !m.PoolMutex? && Nested(k) && Held(k) == {m} && Clean(k) && Owned(k, x) == o
    ensures Fresh(Lock(m, k), o, x)
  {
    hide Count, Nested, Held, Owned, Cleared, Swapping;
    LockIs(m, k, x);
  }

  lemma ThenUnlock(m: Mutex, k: Code, o: nat, x: Frame)
    requires !m.PoolMutex? && Fresh(k, o, x)
    ensures Nested(Unlock(m, k)) && Held(Unlock(m, k)) == {m} && Clean(Unlock(m, k)) && Owned(Unlock(m, k), x) == o
  {
    hide Count, Nested, Held, Owned, Cleared, Swapping;
    UnlockIs(m, k, x);
  }

  lemma IdleIs(x: Frame)
    ensures Fresh(Idle, 0, x)
  {
  }

  lemma PreviewIs(p: PreviewTask, x: Frame)
    ensures Nested(Preview(p)) && Clean(Preview(p)) && Held(Preview(p)) == PreviewHeld(p)
            && Owned(Preview(p), x) == PreviewOwned(p, x)
  {
  }

  lemma CaptureIs(q: CaptureTask, x: Frame)
    ensures Nested(Capture(q)) && Clean(Capture(q)) && Held(Capture(q)) == CaptureHeld(q)
            && Owned(Capture(q), x) == CaptureOwned(q, x)
  {
  }

  lemma SectionIs(k: Code, o: nat, x: Frame)
    requires Fresh(k, o, x)
    ensures Fresh(PreviewSection(k), o, x)
  {
    hide Count, Nested, Held, Owned, Cleared, Swapping;
    ThenUnlock(PreviewMutex, k, o, x);
    ThenLock(PreviewMutex, Unlock(PreviewMutex, k), o, x);
  }

  lemma BeginIs(t: nat, choice: nat, x: Frame)
    ensures Fresh(Begin(t, choice), 0, x)
  {
    hide Count, Nested, Held, Owned, Cleared, Swapping, PreviewSection;
    IdleIs(x);
    PreviewIs(Loop, x);
    CaptureIs(Outer, x);
    CaptureIs(Toggle, x);
    GetIs(UsbCopy, x);
    ClearFifoIs(0, Preview(Loop), x);
    ThenLock(PreviewMutex, ClearFifo(0, Preview(Loop)), 0, x);
    ClearSlotIs(Capture(Outer), x);
    ThenLock(CaptureMutex, ClearSlot(Capture(Outer)), 0, x);
    ClearSlotIs(Idle, x);
    ThenLock(CaptureMutex, ClearSlot(Idle), 0, x);
    ClearFifoIs(0, Lock(CaptureMutex, ClearSlot(Idle)), x);
    ThenLock(PreviewMutex, ClearFifo(0, Lock(CaptureMutex, ClearSlot(Idle))), 0, x);
    SectionIs(Idle, 0, x);
    ThenUnlock(CaptureMutex, PreviewSection(Idle), 0, x);
    ThenLock(CaptureMutex, Unlock(CaptureMutex, PreviewSection(Idle)), 0, x);
    ThenLock(CaptureMutex, Capture(Toggle), 0, x);
  }

  lemma ClearFifoIs(i: nat, k: Code, x: Frame)
    requires Fresh(k, Owned(k, x), x)
    ensures Nested(ClearFifo(i, k)) && Held(ClearFifo(i, k)) == {PreviewMutex}
            && Owned(ClearFifo(i, k), x) == Owned(k, x)
    ensures Cleared(ClearFifo(i, k)) == i && !Swapping(ClearFifo(i, k))
  {
  }

  lemma ClearSlotIs(k: Code, x: Frame)
    requires Fresh(k, Owned(k, x), x)
    ensures Nested(ClearSlot(k)) && Held(ClearSlot(k)) == {CaptureMutex} && Owned(ClearSlot(k), x) == Owned(k, x)
            && Clean(ClearSlot(k))
    ensures Nested(EmptySlot(k)) && Held(EmptySlot(k)) == {CaptureMutex} && Owned(EmptySlot(k), x) == Owned(k, x)
    ensures Cleared(EmptySlot(k)) == 0 && Swapping(EmptySlot(k))
  {
  }

  // ---- Steps that do not move a frame ----

  /** Code that keeps the frames and at most the mutexes of c, with nothing half done. */
  ghost predicate Same(c: Code, d: Code, x: Frame) {
    Nested(d) && Held(d) <= Held(c) && Clean(c) && Clean(d) && Owned(d, x) == Owned(c, x)
  }

  lemma SameBalanced(sh: Shared, c: Code, cleared: nat, swapping: bool, l: Local, x: Frame)
    requires Fits(sh, c, cleared, swapping, x) && Same(c, l.c, x)
    requires l.sh == sh.(capturing := l.sh.capturing)
    ensures Balanced(sh, c, cleared, swapping, l, x)
  {
    hide Count, Nested, Held, Owned, Cleared, Swapping;
  }

  /** A routine that holds no mutex and owns the frames of c follows c. */
  lemma SameFresh(c: Code, d: Code, o: nat, x: Frame)
    requires Fresh(d, o, x) && Clean(c) && Owned(c, x) == o
    ensures Same(c, d, x)
  {
    hide Count, Nested, Held, Owned, Cleared, Swapping;
  }

  /** So does code that holds the mutex of c. */
  lemma SameLocked(m: Mutex, c: Code, d: Code, x: Frame)
    requires Nested(d) && Clean(d) && Held(d) == {m} == Held(c) && Clean(c) && Owned(d, x) == Owned(c, x)
    ensures Same(c, d, x)
  {
    hide Count, Nested, Held, Owned, Cleared, Swapping;
  }

  lemma AwaitSame(sh: Shared, yes: bool, x: Frame)
    ensures var l := PreviewStep(sh, Await, yes); l.sh == sh && Same(Preview(Await), l.c, x)
  {
    PreviewIs(Await, x);
    PreviewIs(Take, x);
    WaitIs(PreviewMutex, Preview(Take), x);
    hide Count, Nested, Held, Owned, Cleared, Swapping, Wait, Recycle, GetFrame, Draw, Deliver, PreviewSection, Same;
    SameLocked(PreviewMutex, Preview(Await), PreviewStep(sh, Await, yes).c, x);
  }

  lemma DecodedSame(sh: Shared, m: Frame, f: Frame, yes: bool, x: Frame)
    ensures var l := PreviewStep(sh, Decoded(m, f), yes); l.sh == sh && Same(Preview(Decoded(m, f)), l.c, x)
  {
    PreviewIs(Decoded(m, f), x);
    PreviewIs(Loop, x);
    DrawIs(f, x);
    hide Count, Nested, Held, Owned, Cleared, Swapping, Wait, Recycle, GetFrame, Draw, Deliver, PreviewSection, Same;
    ThenRecycle(f, Preview(Loop), 0, x);
    ThenRecycle(m, if yes then Draw(f) else Recycle(f, Preview(Loop)), One(f, x), x);
    SameFresh(Preview(Decoded(m, f)), PreviewStep(sh, Decoded(m, f), yes).c, One(f, x) + One(m, x), x);
  }

  lemma LoopSame(sh: Shared, yes: bool, x: Frame)
    ensures var l := PreviewStep(sh, Loop, yes); l.sh == sh && Same(Preview(Loop), l.c, x)
  {
    PreviewIs(Loop, x);
    PreviewIs(Await, x);
    IdleIs(x);
    hide Count, Nested, Held, Owned, Cleared, Swapping, Wait, Recycle, GetFrame, Draw, Deliver, PreviewSection, Same;
    ThenLock(PreviewMutex, Preview(Await), 0, x);
    SameFresh(Preview(Loop), PreviewStep(sh, Loop, yes).c, 0, x);
  }

  lemma SeeWindowSame(sh: Shared, f: Frame, yes: bool, x: Frame)
    ensures var l := PreviewStep(sh, SeeWindow(f), yes); l.sh == sh && Same(Preview(SeeWindow(f)), l.c, x)
  {
    PreviewIs(SeeWindow(f), x);
    GetIs(Convert(f), x);
    DrawIs(f, x);
    hide Count, Nested, Held, Owned, Cleared, Swapping, Wait, Recycle, GetFrame, Draw, Deliver, PreviewSection, Same;
    ThenUnlock(PreviewMutex, if yes then GetFrame(Convert(f)) else Deliver(f), One(f, x), x);
    SameLocked(PreviewMutex, Preview(SeeWindow(f)), PreviewStep(sh, SeeWindow(f), yes).c, x);
  }

  lemma ConvertedSame(sh: Shared, f: Frame, g: Frame, yes: bool, x: Frame)
    ensures var l := PreviewStep(sh, Converted(f, g), yes); l.sh == sh && Same(Preview(Converted(f, g)), l.c, x)
  {
    PreviewIs(Converted(f, g), x);
    DrawIs(f, x);
    hide Count, Nested, Held, Owned, Cleared, Swapping, Wait, Recycle, GetFrame, Draw, Deliver, PreviewSection, Same;
    ThenRecycle(g, Deliver(f), One(f, x), x);
    SectionIs(Recycle(g, Deliver(f)), One(f, x) + One(g, x), x);
    SameFresh(Preview(Converted(f, g)), PreviewStep(sh, Converted(f, g), yes).c, One(f, x) + One(g, x), x);
  }

  lemma DuplicateSame(sh: Shared, f: Frame, yes: bool, x: Frame)
    ensures var l := PreviewStep(sh, Duplicate(f), yes); l.sh == sh && Same(Preview(Duplicate(f)), l.c, x)
  {
    PreviewIs(Duplicate(f), x);
    PreviewIs(Enqueue(f), x);
    IdleIs(x);
    hide Count, Nested, Held, Owned, Cleared, Swapping, Wait, Recycle, GetFrame, Draw, Deliver, PreviewSection, Same;
    ThenRecycle(f, Idle, 0, x);
    ThenLock(PreviewMutex, Preview(Enqueue(f)), One(f, x), x);
    SameFresh(Preview(Duplicate(f)), PreviewStep(sh, Duplicate(f), yes).c, One(f, x), x);
  }

  lemma ServeSame(sh: Shared, surface: bool, converted: seq<Frame>, yes: bool, x: Frame)
    ensures var l := CaptureStep(sh, Serve(surface, converted), yes);
            l.sh == sh && Same(Capture(Serve(surface, converted)), l.c, x)
  {
    CaptureIs(Serve(surface, converted), x);
    CaptureIs(Outer, x);
    CaptureIs(AwaitSlot(surface, converted), x);
    hide Count, Nested, Held, Owned, Cleared, Swapping, Wait, Recycle, GetFrame, Draw, Deliver, PreviewSection, Same;
    CountAll(converted, x);
    var o := Count(converted, x);
    ThenLock(CaptureMutex, Capture(AwaitSlot(surface, converted)), o, x);
    if converted != [] {
      CaptureIs(Serve(surface, converted[1..]), x);
      ThenRecycle(converted[0], Capture(Serve(surface, converted[1..])), Count(converted[1..], x), x);
    }
    SameFresh(Capture(Serve(surface, converted)), CaptureStep(sh, Serve(surface, converted), yes).c, o, x);
  }

  lemma AwaitSlotSame(sh: Shared, surface: bool, converted: seq<Frame>, yes: bool, x: Frame)
    ensures var l := CaptureStep(sh, AwaitSlot(surface, converted), yes);
            l.sh == sh && Same(Capture(AwaitSlot(surface, converted)), l.c, x)
  {
    CaptureIs(AwaitSlot(surface, converted), x);
    CaptureIs(TakeSlot(surface, converted), x);
    hide Count, Nested, Held, Owned, Cleared, Swapping, Wait, Recycle, GetFrame, Draw, Deliver, PreviewSection, Same;
    WaitIs(CaptureMutex, Capture(TakeSlot(surface, converted)), x);
    SameLocked(CaptureMutex, Capture(AwaitSlot(surface, converted)),
               CaptureStep(sh, AwaitSlot(surface, converted), yes).c, x);
  }

  lemma HandleSame(sh: Shared, f: Frame, surface: bool, converted: seq<Frame>, yes: bool, x: Frame)
    ensures var l := CaptureStep(sh, Handle(f, surface, converted), yes);
            l.sh == sh && Same(Capture(Handle(f, surface, converted)), l.c, x)
  {
    CaptureIs(Handle(f, surface, converted), x);
    CaptureIs(Call(f, surface, converted), x);
    GetIs(Surface(f), x);
    hide Count, Nested, Held, Owned, Cleared, Swapping, Wait, Recycle, GetFrame, Draw, Deliver, PreviewSection, Same;
    CountAll(converted, x);
    SameFresh(Capture(Handle(f, surface, converted)), CaptureStep(sh, Handle(f, surface, converted), yes).c,
              One(f, x) + Count(converted, x), x);
  }

  lemma CallSame(sh: Shared, f: Frame, surface: bool, converted: seq<Frame>, yes: bool, x: Frame)
    ensures var l := CaptureStep(sh, Call(f, surface, converted), yes);
            l.sh == sh && Same(Capture(Call(f, surface, converted)), l.c, x)
  {
    CaptureIs(Call(f, surface, converted), x);
    CaptureIs(Serve(surface, converted), x);
    GetIs(Notify(f, surface, converted), x);
    hide Count, Nested, Held, Owned, Cleared, Swapping, Wait, Recycle, GetFrame, Draw, Deliver, PreviewSection, Same;
    ThenRecycle(f, Capture(Serve(surface, converted)), Count(converted, x), x);
    SameFresh(Capture(Call(f, surface, converted)), CaptureStep(sh, Call(f, surface, converted), yes).c,
              One(f, x) + Count(converted, x), x);
  }

  lemma ToggleSame(sh: Shared, yes: bool, x: Frame)
    ensures var l := CaptureStep(sh, Toggle, yes); l.sh == sh.(capturing := false) && Same(Capture(Toggle), l.c, x)
  {
    CaptureIs(Toggle, x);
    IdleIs(x);
    hide Count, Nested, Held, Owned, Cleared, Swapping, Wait, Recycle, GetFrame, Draw, Deliver, PreviewSection, Same;
    ThenUnlock(CaptureMutex, Idle, 0, x);
    WaitIs(CaptureMutex, Unlock(CaptureMutex, Idle), x);
    SameLocked(CaptureMutex, Capture(Toggle), CaptureStep(sh, Toggle, yes).c, x);
  }

  lemma OuterSame(sh: Shared, yes: bool, x: Frame)
    ensures var l := CaptureStep(sh, Outer, yes);
            l.sh == sh.(capturing := l.sh.capturing) && Same(Capture(Outer), l.c, x)
  {
    CaptureIs(Outer, x);
    CaptureIs(Serve(yes, []), x);
    IdleIs(x);
    hide Count, Nested, Held, Owned, Cleared, Swapping, Wait, Recycle, GetFrame, Draw, Deliver, PreviewSection, Same;
    CountAll([], x);
    SameFresh(Capture(Outer), CaptureStep(sh, Outer, yes).c, 0, x);
  }

  /** All of them. */
  lemma PreviewSame(sh: Shared, p: PreviewTask, yes: bool, x: Frame)
    requires !p.Enqueue? && !p.Take? && !p.Store?
    ensures var l := PreviewStep(sh, p, yes); l.sh == sh && Same(Preview(p), l.c, x)
  {
    hide PreviewStep, Same;
    match p {
      case Loop => LoopSame(sh, yes, x);
      case Await => AwaitSame(sh, yes, x);
      case Decoded(m, f) => DecodedSame(sh, m, f, yes, x);
      case SeeWindow(f) => SeeWindowSame(sh, f, yes, x);
      case Converted(f, g) => ConvertedSame(sh, f, g, yes, x);
      case Duplicate(f) => DuplicateSame(sh, f, yes, x);
    }
  }

  lemma CaptureSame(sh: Shared, q: CaptureTask, yes: bool, x: Frame)
    requires !q.TakeSlot?
    ensures var l := CaptureStep(sh, q, yes); l.sh == sh.(capturing := l.sh.capturing) && Same(Capture(q), l.c, x)
  {
    hide CaptureStep, Same;
    match q {
      case Outer => OuterSame(sh, yes, x);
      case Serve(surface, converted) => ServeSame(sh, surface, converted, yes, x);
      case AwaitSlot(surface, converted) => AwaitSlotSame(sh, surface, converted, yes, x);
      case Handle(f, surface, converted) => HandleSame(sh, f, surface, converted, yes, x);
      case Call(f, surface, converted) => CallSame(sh, f, surface, converted, yes, x);
      case Toggle => ToggleSame(sh, yes, x);
    }
  }

  // ---- Steps that move a frame ----

  lemma LockStep(sh: Shared, m: Mutex, k: Code, cleared: nat, swapping: bool, x: Frame)
    requires Fits(sh, Lock(m, k), cleared, swapping, x)
    ensures Balanced(sh, Lock(m, k), cleared, swapping, Local(sh, k), x)
  {
    hide Shown;
  }

  lemma UnlockStep(sh: Shared, m: Mutex, k: Code, cleared: nat, swapping: bool, x: Frame)
    requires Fits(sh, Unlock(m, k), cleared, swapping, x)
    ensures Balanced(sh, Unlock(m, k), cleared, swapping, Local(sh, k), x)
  {
    hide Shown;
  }

  lemma ShownPool(sh: Shared, f: Frame, cleared: nat, swapping: bool, x: Frame)
    requires cleared <= |sh.fifo|
    ensures Shown(sh.(pool := sh.pool + [f]), cleared, swapping, x) == Shown(sh, cleared, swapping, x) + One(f, x)
  {
    hide Count;
    CountSnoc(sh.pool, f, x);
  }

  lemma ShownLive(sh: Shared, live: set<Frame>, cleared: nat, swapping: bool, x: Frame)
    requires cleared <= |sh.fifo|
    ensures Shown(sh.(live := live), cleared, swapping, x) == Shown(sh, cleared, swapping, x)
  {
  }

  lemma PutStep(sh: Shared, f: Frame, k: Code, cleared: nat, swapping: bool, x: Frame)
    requires Fits(sh, Put(f, k), cleared, swapping, x) && |sh.pool| < FRAME_POOL_SZ
    ensures Balanced(sh, Put(f, k), cleared, swapping, Local(sh.(pool := sh.pool + [f]), Unlock(PoolMutex, k)), x)
  {
    PutParts(f, k);
    PutIs(f, k, x);
    hide Count, Nested, Held, Owned, Cleared, Swapping, Shown, In, One;
    UnlockIs(PoolMutex, k, x);
    var n, w := cleared + Cleared(k), swapping || Swapping(k);
    ShownPool(sh, f, n, w, x);
  }

  lemma PutParts(f: Frame, k: Code)
    requires Nested(Put(f, k)) || Nested(Free(f, k))
    ensures Nested(k) && PoolMutex !in Held(k)
  {
  }

  lemma FullStep(sh: Shared, f: Frame, k: Code, cleared: nat, swapping: bool, x: Frame)
    requires Fits(sh, Put(f, k), cleared, swapping, x)
    ensures Balanced(sh, Put(f, k), cleared, swapping, Local(sh, Unlock(PoolMutex, Free(f, k))), x)
  {
    PutParts(f, k);
    PutIs(f, k, x);
    hide Count, Nested, Held, Owned, Cleared, Swapping, Shown;
    UnlockIs(PoolMutex, Free(f, k), x);
  }

  lemma InWithout(live: set<Frame>, f: Frame, x: Frame)
    requires One(f, x) <= In(live, x)
    ensures In(live, x) == In(live - {f}, x) + One(f, x)
  {
  }

  lemma FreeStep(sh: Shared, f: Frame, k: Code, cleared: nat, swapping: bool, x: Frame)
    requires Fits(sh, Free(f, k), cleared, swapping, x)
    ensures Balanced(sh, Free(f, k), cleared, swapping, Local(sh.(live := sh.live - {f}), k), x)
  {
    PutParts(f, k);
    PutIs(f, k, x);
    hide Count, Nested, Held, Owned, Cleared, Swapping, Shown;
    InWithout(sh.live, f, x);
    hide In, One;
    var n, w := cleared + Cleared(k), swapping || Swapping(k);
    ShownLive(sh, sh.live - {f}, n, w, x);
  }

  lemma PopStep(sh: Shared, u: Use, cleared: nat, swapping: bool, x: Frame)
    requires Fits(sh, Pop(u), cleared, swapping, x) && sh.pool != []
    ensures var n := |sh.pool| - 1;
            Balanced(sh, Pop(u), cleared, swapping,
                     Local(sh.(pool := sh.pool[..n]), Unlock(PoolMutex, With(u, sh.pool[n]))), x)
  {
    var n := |sh.pool| - 1;
    PopIs(u, x);
    WithIs(u, sh.pool[n], x);
    hide Count, Nested, Held, Owned, Cleared, Swapping, With, Shown;
    assert sh.pool == sh.pool[..n] + [sh.pool[n]];
    UnlockIs(PoolMutex, With(u, sh.pool[n]), x);
    ShownPool(sh.(pool := sh.pool[..n]), sh.pool[n], cleared, swapping, x);
  }

  lemma PopIs(u: Use, x: Frame)
    ensures Nested(Pop(u)) && Held(Pop(u)) == {PoolMutex} && Owned(Pop(u), x) == OwnedByUse(u, x) && Clean(Pop(u))
    ensures Fresh(Allocate(u), OwnedByUse(u, x), x)
  {
  }

  lemma NotifyIs(g: Frame, surface: bool, converted: seq<Frame>, f: Frame, x: Frame)
    ensures Fresh(With(Notify(g, surface, converted), f), OwnedByUse(Notify(g, surface, converted), x) + One(f, x), x)
  {
    CaptureIs(Serve(surface, converted), x);
    hide Count, Nested, Held, Owned, Cleared, Swapping, Recycle;
    ThenRecycle(f, Capture(Serve(surface, converted)), Count(converted, x), x);
    ThenRecycle(g, Recycle(f, Capture(Serve(surface, converted))), Count(converted, x) + One(f, x), x);
  }

  lemma WithIs(u: Use, f: Frame, x: Frame)
    ensures Fresh(With(u, f), OwnedByUse(u, x) + One(f, x), x)
  {
    if u.Notify? {
      NotifyIs(u.frame, u.surface, u.converted, f, x);
    } else {
      hide Count, Nested, Held, Owned, Cleared, Swapping;
      match u {
        case UsbCopy => PreviewIs(Duplicate(f), x);
        case Decode(m) => PreviewIs(Decoded(m, f), x);
        case Convert(g) => PreviewIs(Converted(g, f), x);
        case Surface(g) => CaptureIs(Call(g, true, [f]), x);
      }
    }
  }

  lemma EmptyPoolStep(sh: Shared, u: Use, cleared: nat, swapping: bool, x: Frame)
    requires Fits(sh, Pop(u), cleared, swapping, x)
    ensures Balanced(sh, Pop(u), cleared, swapping, Local(sh, Unlock(PoolMutex, Allocate(u))), x)
  {
    PopIs(u, x);
    hide Count, Nested, Held, Owned, Cleared, Swapping, Shown;
    UnlockIs(PoolMutex, Allocate(u), x);
  }

  lemma AllocateStep(sh: Shared, u: Use, addr: Frame, cleared: nat, swapping: bool, x: Frame)
    requires Fits(sh, Allocate(u), cleared, swapping, x) && addr !in sh.live
    ensures Balanced(sh, Allocate(u), cleared, swapping, Local(sh.(live := sh.live + {addr}), With(u, addr)), x)
  {
    PopIs(u, x);
    WithIs(u, addr, x);
    hide Count, Nested, Held, Owned, Cleared, Swapping, With, Shown;
    assert In(sh.live + {addr}, x) == In(sh.live, x) + One(addr, x);
    ShownLive(sh, sh.live + {addr}, cleared, swapping, x);
  }

  lemma EnqueueStep(sh: Shared, f: Frame, cleared: nat, swapping: bool, x: Frame)
    requires Fits(sh, Preview(Enqueue(f)), cleared, swapping, x) && |sh.fifo| < MAX_FRAME
    ensures Balanced(sh, Preview(Enqueue(f)), cleared, swapping,
                     Local(sh.(fifo := sh.fifo + [f], arrived := sh.arrived + [f]), Unlock(PreviewMutex, Idle)), x)
  {
    PreviewIs(Enqueue(f), x);
    IdleIs(x);
    hide Count, Nested, Held, Owned, Cleared, Swapping;
    ThenUnlock(PreviewMutex, Idle, 0, x);
    CountSnoc(sh.fifo, f, x);
    assert sh.fifo[0..] == sh.fifo && (sh.fifo + [f])[0..] == sh.fifo + [f];
    assert sh.departed + sh.fifo + [f] == sh.departed + (sh.fifo + [f]);
  }

  lemma RejectStep(sh: Shared, f: Frame, cleared: nat, swapping: bool, x: Frame)
    requires Fits(sh, Preview(Enqueue(f)), cleared, swapping, x)
    ensures Balanced(sh, Preview(Enqueue(f)), cleared, swapping, Local(sh, Unlock(PreviewMutex, Recycle(f, Idle))), x)
  {
    PreviewIs(Enqueue(f), x);
    IdleIs(x);
    hide Count, Nested, Held, Owned, Cleared, Swapping, Recycle, Shown;
    ThenRecycle(f, Idle, 0, x);
    ThenUnlock(PreviewMutex, Recycle(f, Idle), One(f, x), x);
  }

  lemma TakeStep(sh: Shared, yes: bool, cleared: nat, swapping: bool, x: Frame)
    requires Fits(sh, Preview(Take), cleared, swapping, x)
    ensures Balanced(sh, Preview(Take), cleared, swapping, PreviewStep(sh, Take, yes), x)
  {
    PreviewIs(Take, x);
    PreviewIs(Loop, x);
    hide Count, Nested, Held, Owned, Cleared, Swapping, GetFrame, Draw;
    if sh.running && sh.fifo != [] {
      var f := sh.fifo[0];
      hide Shown;
      GetIs(Decode(f), x);
      DrawIs(f, x);
      ThenUnlock(PreviewMutex, if yes then GetFrame(Decode(f)) else Draw(f), One(f, x), x);
      ShownTake(sh, swapping, x);
    } else {
      ThenUnlock(PreviewMutex, Preview(Loop), 0, x);
    }
  }

  lemma ShownTake(sh: Shared, swapping: bool, x: Frame)
    requires sh.fifo != []
    ensures Shown(sh, 0, swapping, x)
         == Shown(sh.(fifo := sh.fifo[1..], departed := sh.departed + [sh.fifo[0]]), 0, swapping, x)
           + One(sh.fifo[0], x)
    ensures sh.departed + sh.fifo == sh.departed + [sh.fifo[0]] + sh.fifo[1..]
  {
    hide Count;
    CountFirst(sh.fifo, 0, x);
    assert sh.fifo[1..][0..] == sh.fifo[1..];
    assert sh.fifo == [sh.fifo[0]] + sh.fifo[1..];
  }

  lemma ClearStep(sh: Shared, i: nat, k: Code, cleared: nat, swapping: bool, x: Frame)
    requires Fits(sh, ClearFifo(i, k), cleared, swapping, x)
    ensures Balanced(sh, ClearFifo(i, k), cleared, swapping, Next(sh, 0, ClearFifo(i, k), 0, false, 0), x)
  {
    ClearParts(i, k, x);
    ClearFifoIs(i, k, x);
    hide Count, Nested, Held, Owned, Cleared, Swapping, Recycle, Shown;
    if i < |sh.fifo| {
      ClearFifoIs(i + 1, k, x);
      RecycleIs(sh.fifo[i], ClearFifo(i + 1, k), x);
      ShownCleared(sh, i, swapping, x);
    } else {
      UnlockIs(PreviewMutex, k, x);
      ShownEmptied(sh, swapping, x);
    }
  }

  lemma ClearParts(i: nat, k: Code, x: Frame)
    requires Nested(ClearFifo(i, k)) || Nested(ClearSlot(k)) || Nested(EmptySlot(k))
    ensures Fresh(k, Owned(k, x), x)
  {
  }

  lemma ShownCleared(sh: Shared, i: nat, swapping: bool, x: Frame)
    requires i < |sh.fifo|
    ensures Shown(sh, i, swapping, x) == Shown(sh, i + 1, swapping, x) + One(sh.fifo[i], x)
  {
    hide Count;
    CountFirst(sh.fifo, i, x);
  }

  lemma ShownEmptied(sh: Shared, swapping: bool, x: Frame)
    ensures Shown(sh, |sh.fifo|, swapping, x)
            == Shown(sh.(fifo := [], departed := sh.departed + sh.fifo), 0, swapping, x)
  {
    assert sh.fifo[|sh.fifo|..] == [];
  }

  lemma StoreStep(sh: Shared, f: Frame, cleared: nat, swapping: bool, x: Frame)
    requires Fits(sh, Preview(Store(f)), cleared, swapping, x)
    ensures Balanced(sh, Preview(Store(f)), cleared, swapping, PreviewStep(sh, Store(f), false), x)
  {
    PreviewIs(Store(f), x);
    PreviewIs(Loop, x);
    ReplaceIs(f, x);
    hide Count, Nested, Held, Owned, Cleared, Swapping, Recycle, Shown;
    if !sh.running {
      ThenUnlock(CaptureMutex, Preview(Loop), 0, x);
      ShownDropped(sh, f, cleared, x);
    } else if sh.slot != [] {
      RecycleIs(sh.slot[0], Replace(f), x);
      ShownSlot(sh, cleared, x);
    } else {
      ShownNoSlot(sh, cleared, x);
    }
  }

  lemma ShownDropped(sh: Shared, f: Frame, cleared: nat, x: Frame)
    requires cleared <= |sh.fifo|
    ensures Shown(sh.(dropped := sh.dropped + [f]), cleared, false, x) == Shown(sh, cleared, false, x) + One(f, x)
  {
    hide Count;
    CountSnoc(sh.dropped, f, x);
  }

  lemma ShownNoSlot(sh: Shared, cleared: nat, x: Frame)
    requires sh.slot == [] && cleared <= |sh.fifo|
    ensures Shown(sh, cleared, false, x) == Shown(sh, cleared, true, x)
  {
  }

  lemma ReplaceIs(f: Frame, x: Frame)
    ensures Nested(Replace(f)) && Held(Replace(f)) == {CaptureMutex} && Owned(Replace(f), x) == One(f, x)
    ensures Cleared(Replace(f)) == 0 && Swapping(Replace(f))
  {
  }

  lemma ShownSlot(sh: Shared, cleared: nat, x: Frame)
    requires |sh.slot| == 1 && cleared <= |sh.fifo|
    ensures Shown(sh, cleared, false, x) == Shown(sh, cleared, true, x) + One(sh.slot[0], x)
  {
    hide Count;
    CountAll(sh.slot, x);
    assert sh.slot[1..] == [];
  }

  lemma ReplaceStep(sh: Shared, f: Frame, cleared: nat, swapping: bool, x: Frame)
    requires Fits(sh, Replace(f), cleared, swapping, x)
    ensures Balanced(sh, Replace(f), cleared, swapping, Local(sh.(slot := [f]), Unlock(CaptureMutex, Preview(Loop))), x)
  {
    ReplaceIs(f, x);
    PreviewIs(Loop, x);
    hide Count, Nested, Held, Owned, Cleared, Swapping;
    ThenUnlock(CaptureMutex, Preview(Loop), 0, x);
    CountAll([f], x);
    assert [f][1..] == [];
  }

  lemma ClearSlotStep(sh: Shared, k: Code, cleared: nat, swapping: bool, x: Frame)
    requires Fits(sh, ClearSlot(k), cleared, swapping, x)
    ensures Balanced(sh, ClearSlot(k), cleared, swapping,
                     Local(sh, if sh.slot != [] then Recycle(sh.slot[0], EmptySlot(k)) else EmptySlot(k)), x)
  {
    ClearParts(0, k, x);
    ClearSlotIs(k, x);
    hide Count, Nested, Held, Owned, Cleared, Swapping, Recycle, Shown;
    if sh.slot != [] {
      RecycleIs(sh.slot[0], EmptySlot(k), x);
      ShownSlot(sh, cleared, x);
    } else {
      ShownNoSlot(sh, cleared, x);
    }
  }

  lemma EmptySlotStep(sh: Shared, k: Code, cleared: nat, swapping: bool, x: Frame)
    requires Fits(sh, EmptySlot(k), cleared, swapping, x)
    ensures Balanced(sh, EmptySlot(k), cleared, swapping, Local(sh.(slot := []), Unlock(CaptureMutex, k)), x)
  {
    ClearParts(0, k, x);
    ClearSlotIs(k, x);
    hide Count, Nested, Held, Owned, Cleared, Swapping;
    UnlockIs(CaptureMutex, k, x);
  }

  lemma TakeSlotStep(sh: Shared, surface: bool, converted: seq<Frame>, cleared: nat, swapping: bool, x: Frame)
    requires Fits(sh, Capture(TakeSlot(surface, converted)), cleared, swapping, x)
    ensures Balanced(sh, Capture(TakeSlot(surface, converted)), cleared, swapping,
                     CaptureStep(sh, TakeSlot(surface, converted), false), x)
  {
    CaptureIs(TakeSlot(surface, converted), x);
    CaptureIs(Serve(surface, converted), x);
    hide Count, Nested, Held, Owned, Cleared, Swapping, Shown;
    if sh.running && sh.slot != [] {
      var f, o := sh.slot[0], Count(converted, x);
      CaptureIs(Handle(f, surface, converted), x);
      ThenUnlock(CaptureMutex, Capture(Handle(f, surface, converted)), One(f, x) + o, x);
      ShownTaken(sh, cleared, x);
    } else {
      ThenUnlock(CaptureMutex, Capture(Serve(surface, converted)), Count(converted, x), x);
    }
  }

  lemma ShownTaken(sh: Shared, cleared: nat, x: Frame)
    requires |sh.slot| == 1 && cleared <= |sh.fifo|
    ensures Shown(sh, cleared, false, x) == Shown(sh.(slot := []), cleared, false, x) + One(sh.slot[0], x)
  {
    hide Count;
    CountAll(sh.slot, x);
    assert sh.slot[1..] == [];
  }

  /** Every step keeps the balance. */
  lemma StepBalanced(sh: Shared, t: nat, c: Code, choice: nat, yes: bool, addr: Frame, cleared: nat, swapping: bool,
                     x: Frame)
    requires Fits(sh, c, cleared, swapping, x) && addr !in sh.live
    ensures Balanced(sh, c, cleared, swapping, Next(sh, t, c, choice, yes, addr), x)
  {
    hide Fits, Balanced, Nested, Held, Owned, Cleared, Swapping, PreviewStep, CaptureStep, Same, With, Begin, Recycle,
         Shown;
    match c {
      case Idle =>
        BeginIs(t, choice, x);
        IdleIs(x);
        SameFresh(Idle, Begin(t, choice), 0, x);
        SameFresh(Idle, Idle, 0, x);
        SameBalanced(sh, Idle, cleared, swapping, Next(sh, t, Idle, choice, yes, addr), x);
      case Preview(p) => PreviewBalanced(sh, p, yes, cleared, swapping, x);
      case Capture(q) => CaptureBalanced(sh, q, yes, cleared, swapping, x);
      case Lock(m, k) => LockStep(sh, m, k, cleared, swapping, x);
      case Unlock(m, k) => UnlockStep(sh, m, k, cleared, swapping, x);
      case Put(f, k) =>
        if |sh.pool| < FRAME_POOL_SZ {
          PutStep(sh, f, k, cleared, swapping, x);
        } else {
          FullStep(sh, f, k, cleared, swapping, x);
        }
      case Free(f, k) => FreeStep(sh, f, k, cleared, swapping, x);
      case Pop(u) =>
        if sh.pool != [] {
          PopStep(sh, u, cleared, swapping, x);
        } else {
          EmptyPoolStep(sh, u, cleared, swapping, x);
        }
      case Allocate(u) => AllocateStep(sh, u, addr, cleared, swapping, x);
      case ClearFifo(i, k) => ClearStep(sh, i, k, cleared, swapping, x);
      case Replace(f) => ReplaceStep(sh, f, cleared, swapping, x);
      case ClearSlot(k) => ClearSlotStep(sh, k, cleared, swapping, x);
      case EmptySlot(k) => EmptySlotStep(sh, k, cleared, swapping, x);
    }
  }

  lemma PreviewBalanced(sh: Shared, p: PreviewTask, yes: bool, cleared: nat, swapping: bool, x: Frame)
    requires Fits(sh, Preview(p), cleared, swapping, x)
    ensures Balanced(sh, Preview(p), cleared, swapping, PreviewStep(sh, p, yes), x)
  {
    hide Fits, Balanced, Same, Recycle;
    if p.Enqueue? {
      if sh.running && |sh.fifo| < MAX_FRAME {
        EnqueueStep(sh, p.f, cleared, swapping, x);
      } else {
        RejectStep(sh, p.f, cleared, swapping, x);
      }
    } else if p.Take? {
      TakeStep(sh, yes, cleared, swapping, x);
    } else if p.Store? {
      StoreStep(sh, p.f, cleared, swapping, x);
    } else {
      hide PreviewStep;
      PreviewSame(sh, p, yes, x);
      SameBalanced(sh, Preview(p), cleared, swapping, PreviewStep(sh, p, yes), x);
    }
  }

  lemma CaptureBalanced(sh: Shared, q: CaptureTask, yes: bool, cleared: nat, swapping: bool, x: Frame)
    requires Fits(sh, Capture(q), cleared, swapping, x)
    ensures Balanced(sh, Capture(q), cleared, swapping, CaptureStep(sh, q, yes), x)
  {
    hide Fits, Balanced, Same, Recycle;
    if q.TakeSlot? {
      TakeSlotStep(sh, q.surface, q.converted, cleared, swapping, x);
    } else {
      hide CaptureStep;
      CaptureSame(sh, q, yes, x);
      SameBalanced(sh, Capture(q), cleared, swapping, CaptureStep(sh, q, yes), x);
    }
  }

  // ---- All threads together ----

  lemma {:induction false} ReplaceOwned(codes: seq<Code>, t: nat, c: Code, x: Frame)
    requires t < |codes|
    ensures OwnedAll(codes[t := c], x) == OwnedAll(codes, x) - Owned(codes[t], x) + Owned(c, x)
    ensures OwnedAll(codes, x) >= Owned(codes[t], x)
    decreases |codes|
  {
    var n := |codes| - 1;
    if t == n {
      assert codes[t := c][..n] == codes[..n];
    } else {
      assert codes[t := c][..n] == codes[..n][t := c];
      ReplaceOwned(codes[..n], t, c, x);
    }
  }

  lemma {:induction false} ReplaceCleared(codes: seq<Code>, t: nat, c: Code)
    requires t < |codes|
    ensures ClearedAll(codes[t := c]) == ClearedAll(codes) - Cleared(codes[t]) + Cleared(c)
    ensures ClearedAll(codes) >= Cleared(codes[t])
    decreases |codes|
  {
    var n := |codes| - 1;
    if t == n {
      assert codes[t := c][..n] == codes[..n];
    } else {
      assert codes[t := c][..n] == codes[..n][t := c];
      ReplaceCleared(codes[..n], t, c);
    }
  }

  lemma {:induction false} NoneCleared(codes: seq<Code>)
    requires forall t :: 0 <= t < |codes| ==> Cleared(codes[t]) == 0
    ensures ClearedAll(codes) == 0
    decreases |codes|
  {
    if codes != [] {
      NoneCleared(codes[..|codes| - 1]);
    }
  }

  /** Some thread other than t is swapping the slot. */
  ghost predicate OthersSwap(codes: seq<Code>, t: nat) {
    exists u :: 0 <= u < |codes| && u != t && Swapping(codes[u])
  }

  /** Half-done work of the others is behind a mutex that t does not hold. */
  lemma OthersLocked(codes: seq<Code>, t: nat)
    requires t < |codes| && forall u :: 0 <= u < |codes| ==> Nested(codes[u])
    requires Exclusive(codes)
    ensures PreviewMutex in Held(codes[t]) ==> ClearedAll(codes) == Cleared(codes[t])
    ensures CaptureMutex in Held(codes[t]) ==> !OthersSwap(codes, t)
  {
    hide Nested, Held, Cleared, Swapping;
    forall u | 0 <= u < |codes| && u != t
      ensures PreviewMutex in Held(codes[t]) ==> Cleared(codes[u]) == 0
      ensures CaptureMutex in Held(codes[t]) ==> !Swapping(codes[u])
    {
      HalfDoneIsLocked(codes[u]);
      assert Held(codes[if u < t then u else t]) !! Held(codes[if u < t then t else u]);
    }
    if PreviewMutex in Held(codes[t]) {
      ReplaceCleared(codes, t, Idle);
      assert Cleared(Idle) == 0 by { IdleIs(0); }
      NoneCleared(codes[t := Idle]);
    }
  }

  lemma StillExclusive(s: State, t: nat, c: Code)
    requires t < |s.codes| && Invariant(s)
    requires s.codes[t].Lock? ==> Available(s.codes, s.codes[t].m)
    requires Held(c) <= Held(s.codes[t]) + (if s.codes[t].Lock? then {s.codes[t].m} else {})
    ensures Exclusive(s.codes[t := c])
  {
    hide Held, Nested, Holders;
  }

  /** A reachable state with only the frame x counted. */
  lemma StepCounts(s: State, t: nat, choice: nat, yes: bool, addr: Frame, x: Frame)
    requires t < |s.codes| && Invariant(s) && Enabled(s, t, addr)
    ensures var r := Step(s, t, choice, yes, addr);
            && Nested(r.codes[t]) && |r.sh.fifo| <= MAX_FRAME && |r.sh.pool| <= FRAME_POOL_SZ && |r.sh.slot| <= 1
            && r.sh.arrived == r.sh.departed + r.sh.fifo
            && Held(r.codes[t]) <= Held(s.codes[t]) + (if s.codes[t].Lock? then {s.codes[t].m} else {})
            && ClearedAll(r.codes) <= |r.sh.fifo|
            && Holders(r, x) == In(r.sh.live, x)
  {
    hide Nested, Held, Owned, Cleared, Swapping, Next, Shown;
    var c := s.codes[t];
    var l := Next(s.sh, t, c, choice, yes, addr);
    var swapping := OthersSwap(s.codes, t);
    ReplaceCleared(s.codes, t, l.c);
    ReplaceOwned(s.codes, t, l.c, x);
    OthersLocked(s.codes, t);
    var cleared: nat := ClearedAll(s.codes) - Cleared(c);
    assert Holders(s, x) == In(s.sh.live, x);
    StepBalanced(s.sh, t, c, choice, yes, addr, cleared, swapping, x);
    SwapSplit(s.codes, t, c);
    SwapSplit(s.codes, t, l.c);
  }

  lemma SwapSplit(codes: seq<Code>, t: nat, c: Code)
    requires t < |codes|
    ensures SwappingAny(codes[t := c]) <==> OthersSwap(codes, t) || Swapping(c)
    ensures codes[t] == c ==> codes[t := c] == codes
  {
    hide Swapping;
    var r := codes[t := c];
    if OthersSwap(codes, t) {
      var u :| 0 <= u < |codes| && u != t && Swapping(codes[u]);
      assert Swapping(r[u]);
    }
    if Swapping(c) {
      assert Swapping(r[t]);
    }
  }

  /** The invariant holds initially, and every step of every thread keeps it. */
  lemma StepKeepsInvariant(s: State, t: nat, choice: nat, yes: bool, addr: Frame)
    requires t < |s.codes| && Invariant(s) && Enabled(s, t, addr)
    ensures Invariant(Step(s, t, choice, yes, addr))
  {
    hide Nested, Held, Next, Holders, Available;
    var r := Step(s, t, choice, yes, addr);
    StepCounts(s, t, choice, yes, addr, 0);
    StillExclusive(s, t, r.codes[t]);
    forall x: Frame ensures Holders(r, x) == In(r.sh.live, x) {
      StepCounts(s, t, choice, yes, addr, x);
    }
  }

  function Initial(n: nat): (s: State) {
    State(Shared([], [], [], false, false, {}, [], [], []), seq(n, t => Idle))
  }

  lemma {:induction false} IdleOwnsNothing(codes: seq<Code>, x: Frame)
    requires forall t :: 0 <= t < |codes| ==> codes[t] == Idle
    ensures OwnedAll(codes, x) == 0
    decreases |codes|
  {
    if codes != [] {
      IdleOwnsNothing(codes[..|codes| - 1], x);
    }
  }

  lemma InitialInvariant(n: nat)
    ensures Invariant(Initial(n))
  {
    var s := Initial(n);
    NoneCleared(s.codes);
    forall x: Frame ensures Holders(s, x) == In(s.sh.live, x) {
      IdleOwnsNothing(s.codes, x);
    }
  }

  // ---- Runs ----

  /** One entry of a schedule: a thread takes a step, or the preview is started or
      stopped. */
  datatype Event = Act(t: nat, choice: nat, yes: bool, addr: Frame) | Run(running: bool)

  ghost predicate Possible(s: State, e: Event) {
    e.Act? ==> e.t < |s.codes| && Enabled(s, e.t, e.addr)
  }

  ghost function After(s: State, e: Event): (r: State)
    requires Possible(s, e)
  {
    match e
    case Act(t, choice, yes, addr) => Step(s, t, choice, yes, addr)
    case Run(running) => SetRunning(s, running)
  }

  /** A sequence of states from the start, each reached from the one before. */
  ghost predicate Execution(states: seq<State>, events: seq<Event>, n: nat) {
    && |states| == |events| + 1 && states[0] == Initial(n)
    && forall i :: 0 <= i < |events| ==> Possible(states[i], events[i]) && states[i + 1] == After(states[i], events[i])
  }

  /** In every interleaving, of any number of threads, every state satisfies the
      invariant: each allocated frame is in exactly one place, the FIFO and the pool
      keep their bounds, and frames leave the FIFO in the order of arrival. */
  lemma {:induction false} EveryStateIsSafe(states: seq<State>, events: seq<Event>, n: nat, i: nat)
    requires Execution(states, events, n) && i < |states|
    ensures Invariant(states[i])
    decreases i
  {
    hide Invariant, Step;
    if i == 0 {
      InitialInvariant(n);
    } else {
      EveryStateIsSafe(states, events, n, i - 1);
      var e := events[i - 1];
      assert Possible(states[i - 1], e) && states[i - 1 + 1] == After(states[i - 1], e);
      if e.Act? {
        StepKeepsInvariant(states[i - 1], e.t, e.choice, e.yes, e.addr);
      } else {
        RunningKeepsInvariant(states[i - 1], e.running);
      }
    }
  }

  lemma RunningKeepsInvariant(s: State, running: bool)
    requires Invariant(s)
    ensures Invariant(SetRunning(s, running))
  {
    hide Nested, Held, Owned, OwnedAll, ClearedAll, SwappingAny, Count;
    var r := SetRunning(s, running);
    forall x: Frame ensures Holders(r, x) == In(r.sh.live, x) {
      assert Holders(s, x) == In(s.sh.live, x);
    }
  }

  /** A frame that a thread is about to recycle or to free is nowhere else: it is
      never recycled twice and never freed while in use. */
  lemma RecycledOnce(s: State, t: nat)
    requires Invariant(s) && t < |s.codes| && (s.codes[t].Put? || s.codes[t].Free?)
    ensures var f := s.codes[t].f;
            && f in s.sh.live && f !in s.sh.pool && f !in s.sh.dropped && f !in s.sh.fifo[ClearedAll(s.codes)..]
            && (!SwappingAny(s.codes) ==> f !in s.sh.slot)
            && Owned(s.codes[t].k, f) == 0
            && forall u :: 0 <= u < |s.codes| && u != t ==> Owned(s.codes[u], f) == 0
  {
    var f, c := s.codes[t].f, s.codes[t];
    assert Holders(s, f) == In(s.sh.live, f);
    assert Owned(c, f) == Owned(c.k, f) + 1;
    ReplaceOwned(s.codes, t, Idle, f);
    forall u | 0 <= u < |s.codes| && u != t ensures Owned(s.codes[u], f) == 0 {
      hide Owned;
      ReplaceOwned(s.codes[t := Idle], u, Idle, f);
    }
  }

  /** Thread t waits for a mutex that thread u holds. */
  predicate WaitsFor(s: State, t: nat, u: nat)
    requires t < |s.codes| && u < |s.codes|
  {
    s.codes[t].Lock? && s.codes[t].m in Held(s.codes[u])
  }

  /** Lock order: whoever is waited for, and itself waits, waits for pool_mutex, and
      the holder of pool_mutex waits for nothing. So no cycle of waiting threads can
      form. */
  lemma LockOrder(s: State, t: nat, u: nat, v: nat)
    requires Invariant(s) && t < |s.codes| && u < |s.codes| && v < |s.codes|
    requires WaitsFor(s, t, u) && WaitsFor(s, u, v)
    ensures s.codes[u].m == PoolMutex && s.codes[t].m != PoolMutex && !s.codes[v].Lock?
    ensures t != u && u != v && t != v
  {
    hide Holders;
    WaiterHolds(s.codes[t]);
    WaiterHolds(s.codes[u]);
    WaiterHolds(s.codes[v]);
  }

  lemma WaiterHolds(c: Code)
    requires Nested(c)
    ensures c.Lock? ==> c.m !in Held(c) && PoolMutex !in Held(c) && (c.m != PoolMutex ==> Held(c) == {})
  {
  }
}
