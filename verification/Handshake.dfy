/**
 * The double-buffer handshake between a client and the compositor, as interleaved atomic steps of the two processes
 * on the shared slot. Frame counters are 32-bit; `presents` and `history` only record what has happened.
 */
module Handshake {
  import opened Options
  import opened Powers

  type Pixel = int
  type Image = seq<Pixel>

  /** Where the client is: between frames, in the wait loop of beginFrame, drawing, or within present. */
  datatype Client = Between | Waiting | Drawing | IndexStored

  /**
   * Where the compositor is with this slot: not looking at it, after loading dirtyFrame, reading pixels for a snapshot
   * that it marked dirty, or after noting the frame as its last.
   */
  datatype Compositor =
    | Away
    | FrameLoaded(frame: nat)
    | Copying(frame: nat, which: nat, copied: map<nat, Pixel>)
    | Noted(frame: nat, which: nat, copied: map<nat, Pixel>)

  datatype State = State(
    // the shared slot
    presentIndex: nat, dirtyFrame: nat, consumedFrame: nat, buffers: seq<Image>,
    // the client
    client: Client, drawIndex: nat, localFrame: nat,
    // the compositor
    compositor: Compositor, lastDirtyFrame: nat,
    // the record: how often present has finished, and the image of each frame when its index was stored
    presents: nat, history: seq<Image>)

  datatype Action =
    | BeginFrame | TestConsumed | WritePixel(at: nat, v: Pixel) | StoreIndex | StoreDirty
    | LoadDirty | LoadIndex | CopyPixel(at: nat) | NoteLast | StoreConsumed

  function Start(size: nat): State {
    var blank := seq(size, i => 0);
    State(1, 0, 0, [blank, blank], Between, 0, 0, Away, 0, 0, [])
  }

  /** One atomic step, if it is possible. */
  function Step(s: State, a: Action): Option<State>
    requires |s.buffers| == 2 && s.drawIndex < 2
  {
    match a
    case BeginFrame =>
      if s.client != Between then None
      else Some(s.(drawIndex := 1 - s.drawIndex, client := if s.localFrame < 2 then Drawing else Waiting))
    case TestConsumed =>
      if s.client != Waiting then None
      else if s.consumedFrame < s.localFrame - 1 then Some(s)
      else Some(s.(client := Drawing))
    case WritePixel(at, v) =>
      if s.client != Drawing || at >= |s.buffers[s.drawIndex]| then None
      else Some(s.(buffers := s.buffers[s.drawIndex := s.buffers[s.drawIndex][at := v]]))
    case StoreIndex =>
      if s.client != Drawing then None
      else Some(s.(client := IndexStored, presentIndex := s.drawIndex, history := s.history + [s.buffers[s.drawIndex]]))
    case StoreDirty =>
      if s.client != IndexStored then None
      else
        var f := (s.localFrame + 1) % TWO32;
        Some(s.(client := Between, localFrame := f, dirtyFrame := f, presents := s.presents + 1))
    case LoadDirty =>
      if s.compositor != Away then None else Some(s.(compositor := FrameLoaded(s.dirtyFrame)))
    case LoadIndex =>
      if !s.compositor.FrameLoaded? then None
      else if s.compositor.frame == s.lastDirtyFrame then Some(s.(compositor := Away))
      else Some(s.(compositor := Copying(s.compositor.frame, s.presentIndex % 2, map[])))
    case CopyPixel(at) =>
      if !s.compositor.Copying? || at >= |s.buffers[s.compositor.which % 2]| then None
      else
        var c := s.compositor;
        Some(s.(compositor := Copying(c.frame, c.which, c.copied[at := s.buffers[c.which % 2][at]])))
    case NoteLast =>
      if !s.compositor.Copying? then None
      else
        var c := s.compositor;
        Some(s.(lastDirtyFrame := c.frame, compositor := Noted(c.frame, c.which, c.copied)))
    case StoreConsumed =>
      if !s.compositor.Noted? then None
      else Some(s.(consumedFrame := s.compositor.frame, compositor := Away))
  }

  predicate Shaped(s: State) { |s.buffers| == 2 && s.drawIndex < 2 }

  /** The state after the actions, if each was possible. */
  function Run(size: nat, acts: seq<Action>): Option<State> {
    if acts == [] then Some(Start(size))
    else
      match Run(size, acts[..|acts| - 1])
      case None => None
      case Some(s) => if Shaped(s) then Step(s, acts[|acts| - 1]) else None
  }

  // ---- Safety ----

  /** The client may write into the buffer that the compositor reads for a dirty snapshot not yet consumed. */
  predicate Conflict(s: State) {
    && s.client == Drawing && (s.compositor.Copying? || s.compositor.Noted?)
    && s.drawIndex == s.compositor.which
  }

  /** The frame whose buffer the snapshot has: the one it is marked with, or the next, presented in the meantime. */
  function SnapshotFrame(frame: nat, which: nat): nat { if which == frame % 2 then frame else frame + 1 }

  /** All pixels read so far are from the one presented frame. */
  predicate Untorn(s: State, frame: nat, which: nat, copied: map<nat, Pixel>) {
    var g := SnapshotFrame(frame, which);
    && 1 <= g <= |s.history|
    && forall i :: i in copied ==> i < |s.history[g - 1]| && copied[i] == s.history[g - 1][i]
  }

  predicate Safe(s: State) {
    && !Conflict(s)
    && s.consumedFrame <= s.dirtyFrame <= s.consumedFrame + 2
    && (s.compositor.Copying? || s.compositor.Noted? ==>
          Untorn(s, s.compositor.frame, s.compositor.which, s.compositor.copied))
  }

  /** Counters, indices and buffers as long as fewer than 2^32 frames have been presented. */
  predicate Inv(s: State) {
    var n, c := s.presents, s.consumedFrame;
    && Shaped(s) && n < TWO32
    && s.localFrame == n && s.dirtyFrame == n
    && s.drawIndex == (if s.client == Between then n % 2 else (n + 1) % 2)
    && s.presentIndex == (if s.client == IndexStored then (n + 1) % 2 else if n == 0 then 1 else n % 2)
    && c <= n <= c + 2 && (s.client == Drawing || s.client == IndexStored ==> n <= c + 1)
    && Buffers(s) && Snapshot(s)
  }

  /** The last frame is intact, and until the client draws again so is the one before. */
  predicate Buffers(s: State)
    requires Shaped(s)
  {
    var n := s.presents;
    && |s.history| == (if s.client == IndexStored then n + 1 else n)
    && (n >= 1 ==> s.buffers[n % 2] == s.history[n - 1])
    && (n >= 2 && (s.client == Between || s.client == Waiting) ==> s.buffers[(n + 1) % 2] == s.history[n - 2])
    && (s.client == IndexStored ==> s.buffers[(n + 1) % 2] == s.history[n])
  }

  predicate Snapshot(s: State) {
    var n, c := s.presents, s.consumedFrame;
    match s.compositor
    case Away => s.lastDirtyFrame == c
    case FrameLoaded(d) => s.lastDirtyFrame == c && c <= d <= n
    case Copying(d, w, copied) => s.lastDirtyFrame == c && Marked(s, d, w) && Untorn(s, d, w, copied)
    case Noted(d, w, copied) => s.lastDirtyFrame == d && Marked(s, d, w) && Untorn(s, d, w, copied)
  }

  predicate Marked(s: State, d: nat, w: nat) {
    && s.consumedFrame < d <= s.presents && w < 2
    && (w == d % 2 || s.presents == d + 1 || (s.presents == d && s.client == IndexStored))
  }

  lemma StartInv(size: nat)
    ensures Inv(Start(size))
  {
  }

  lemma BeginFrameInv(s: State)
    requires Inv(s) && Step(s, BeginFrame).Some?
    ensures Inv(Step(s, BeginFrame).value)
  {
  }

  lemma TestConsumedInv(s: State)
    requires Inv(s) && Step(s, TestConsumed).Some?
    ensures Inv(Step(s, TestConsumed).value)
  {
  }

  lemma WritePixelInv(s: State, at: nat, v: Pixel)
    requires Inv(s) && Step(s, WritePixel(at, v)).Some?
    ensures Inv(Step(s, WritePixel(at, v)).value)
  {
  }

  lemma StoreIndexInv(s: State)
    requires Inv(s) && Step(s, StoreIndex).Some?
    ensures Inv(Step(s, StoreIndex).value)
  {
  }

  lemma StoreDirtyInv(s: State)
    requires Inv(s) && Step(s, StoreDirty).Some? && s.presents + 1 < TWO32
    ensures Inv(Step(s, StoreDirty).value)
  {
  }

  lemma LoadDirtyInv(s: State)
    requires Inv(s) && Step(s, LoadDirty).Some?
    ensures Inv(Step(s, LoadDirty).value)
  {
  }

  lemma LoadIndexInv(s: State)
    requires Inv(s) && Step(s, LoadIndex).Some?
    ensures Inv(Step(s, LoadIndex).value)
  {
  }

  lemma CopyPixelInv(s: State, at: nat)
    requires Inv(s) && Step(s, CopyPixel(at)).Some?
    ensures Inv(Step(s, CopyPixel(at)).value)
  {
  }

  /** The client waits exactly while two frames it has presented are not consumed yet. */
  lemma WaitsTwoAhead(s: State)
    requires Inv(s)
    ensures s.client == Between ==>
      Step(s, BeginFrame).Some? && (Step(s, BeginFrame).value.client == Waiting <==> s.presents >= 2)
    ensures s.client == Waiting ==>
      Step(s, TestConsumed).Some? && (Step(s, TestConsumed).value.client == Waiting <==> s.presents == s.consumedFrame + 2)
  {
    hide Buffers, Snapshot;
  }

  /** The pixel copied is that of the presented frame, and no other is copied or forgotten. */
  lemma CopiedPixel(s: State, at: nat)
    requires Inv(s) && Step(s, CopyPixel(at)).Some?
    ensures var c, t := s.compositor, Step(s, CopyPixel(at)).value.compositor;
      && t.Copying? && t.copied.Keys == c.copied.Keys + {at}
      && (forall i :: i in c.copied && i != at ==> t.copied[i] == c.copied[i])
      && var g := if c.which == c.frame % 2 then c.frame else c.frame + 1;
         && 1 <= g <= |s.history| && at < |s.history[g - 1]| && t.copied[at] == s.history[g - 1][at]
  {
    CopyPixelInv(s, at);
  }

  /** What the client has drawn is what it presents. */
  lemma DrawnPixel(s: State, at: nat, v: Pixel)
    requires Shaped(s) && Step(s, WritePixel(at, v)).Some?
    ensures var t := Step(s, WritePixel(at, v)).value;
      && Shaped(t) && Step(t, StoreIndex).Some?
      && var h, was := Step(t, StoreIndex).value.history, s.buffers[s.drawIndex];
         && |h| == |s.history| + 1 && |h[|s.history|]| == |was| && at < |was| && h[|s.history|][at] == v
         && forall i: nat :: i < |was| && i != at ==> h[|s.history|][i] == was[i]
  {
  }

  lemma NoteLastInv(s: State)
    requires Inv(s) && Step(s, NoteLast).Some?
    ensures Inv(Step(s, NoteLast).value)
  {
  }

  lemma StoreConsumedInv(s: State)
    requires Inv(s) && Step(s, StoreConsumed).Some?
    ensures Inv(Step(s, StoreConsumed).value)
  {
  }

  lemma InvStep(s: State, a: Action)
    requires Inv(s) && Step(s, a).Some? && Step(s, a).value.presents < TWO32
    ensures Inv(Step(s, a).value)
  {
    match a
    case BeginFrame => BeginFrameInv(s);
    case TestConsumed => TestConsumedInv(s);
    case WritePixel(at, v) => WritePixelInv(s, at, v);
    case StoreIndex => StoreIndexInv(s);
    case StoreDirty => StoreDirtyInv(s);
    case LoadDirty => LoadDirtyInv(s);
    case LoadIndex => LoadIndexInv(s);
    case CopyPixel(at) => CopyPixelInv(s, at);
    case NoteLast => NoteLastInv(s);
    case StoreConsumed => StoreConsumedInv(s);
  }

  lemma InvSafe(s: State)
    requires Inv(s)
    ensures Safe(s)
  {
  }

  lemma PresentsRise(s: State, a: Action)
    requires Shaped(s) && Step(s, a).Some?
    ensures s.presents <= Step(s, a).value.presents
  {
  }

  lemma {:induction false} RunInv(size: nat, acts: seq<Action>)
    requires Run(size, acts).Some? && Run(size, acts).value.presents < TWO32
    ensures Inv(Run(size, acts).value)
  {
    if acts == [] {
      StartInv(size);
    } else {
      var s := Run(size, acts[..|acts| - 1]).value;
      PresentsRise(s, acts[|acts| - 1]);
      RunInv(size, acts[..|acts| - 1]);
      InvStep(s, acts[|acts| - 1]);
    }
  }

  /**
   * In every interleaving, as long as fewer than 2^32 frames have been presented: the client never writes the buffer
   * that is being copied, every copy is of one whole presented frame, and the counters are at most two apart.
   */
  lemma AlwaysSafe(size: nat, acts: seq<Action>)
    requires Run(size, acts).Some? && Run(size, acts).value.presents < 0x1_0000_0000
    ensures Safe(Run(size, acts).value)
  {
    RunInv(size, acts);
    InvSafe(Run(size, acts).value);
  }

  // ---- The exact bound ----

  /** Every frame presented so far has been consumed, and both processes are at rest. */
  predicate Calm(s: State, n: nat) {
    && Shaped(s) && s.presents == n && s.localFrame == n && s.dirtyFrame == n
    && s.consumedFrame == n && s.lastDirtyFrame == n
    && s.client == Between && s.compositor == Away && s.drawIndex == n % 2
    && |s.buffers[0]| == |s.buffers[1]|
  }

  lemma RunMore(size: nat, acts: seq<Action>, s: State, a: Action)
    requires Run(size, acts) == Some(s) && Shaped(s)
    ensures Run(size, acts + [a]) == Step(s, a)
  {
    assert (acts + [a])[..|acts|] == acts;
  }

  /** One more step of a run. */
  lemma Then(size: nat, acts: seq<Action>, s: State, a: Action) returns (acts': seq<Action>, s': State)
    requires Run(size, acts) == Some(s) && Shaped(s) && Step(s, a).Some?
    ensures Run(size, acts') == Some(s') && Some(s') == Step(s, a) && Shaped(s')
  {
    RunMore(size, acts, s, a);
    acts', s' := acts + [a], Step(s, a).value;
  }

  /** The client draws the next frame and comes to the end of it. */
  lemma Draw(size: nat, acts: seq<Action>, s: State) returns (acts': seq<Action>, s': State)
    requires Run(size, acts) == Some(s) && Shaped(s) && s.client == Between
    requires s.localFrame >= 2 ==> s.consumedFrame >= s.localFrame - 1
    ensures Run(size, acts') == Some(s') && Shaped(s')
    ensures s' == s.(client := Drawing, drawIndex := 1 - s.drawIndex)
  {
    hide Run;
    acts', s' := Then(size, acts, s, BeginFrame);
    if s.localFrame >= 2 { acts', s' := Then(size, acts', s', TestConsumed); }
  }

  lemma Present(size: nat, acts: seq<Action>, s: State) returns (acts': seq<Action>, s': State)
    requires Run(size, acts) == Some(s) && Shaped(s) && s.client == Drawing
    ensures Run(size, acts') == Some(s') && Shaped(s')
    ensures var f := (s.localFrame + 1) % TWO32;
            s' == s.(client := Between, presentIndex := s.drawIndex, history := s.history + [s.buffers[s.drawIndex]],
                     localFrame := f, dirtyFrame := f, presents := s.presents + 1)
  {
    hide Run;
    acts', s' := Then(size, acts, s, StoreIndex);
    acts', s' := Then(size, acts', s', StoreDirty);
  }

  lemma Snap(size: nat, acts: seq<Action>, s: State) returns (acts': seq<Action>, s': State)
    requires Run(size, acts) == Some(s) && Shaped(s) && s.compositor == Away && s.dirtyFrame != s.lastDirtyFrame
    ensures Run(size, acts') == Some(s') && Shaped(s')
    ensures s' == s.(compositor := Copying(s.dirtyFrame, s.presentIndex % 2, map[]))
  {
    hide Run;
    acts', s' := Then(size, acts, s, LoadDirty);
    acts', s' := Then(size, acts', s', LoadIndex);
  }

  lemma Consume(size: nat, acts: seq<Action>, s: State) returns (acts': seq<Action>, s': State)
    requires Run(size, acts) == Some(s) && Shaped(s) && s.compositor.Copying?
    ensures Run(size, acts') == Some(s') && Shaped(s')
    ensures s' == s.(lastDirtyFrame := s.compositor.frame, consumedFrame := s.compositor.frame, compositor := Away)
  {
    hide Run;
    acts', s' := Then(size, acts, s, NoteLast);
    acts', s' := Then(size, acts', s', StoreConsumed);
  }

  lemma CalmStart(size: nat)
    ensures Run(size, []) == Some(Start(size)) && Calm(Start(size), 0) && |Start(size).buffers[0]| == size
  {
  }

  /** Any number of frames below 2^32 can be presented and consumed one after the other. */
  lemma {:induction false} CalmRun(size: nat, n: nat) returns (acts: seq<Action>, s: State)
    requires n < TWO32
    ensures Run(size, acts) == Some(s) && Calm(s, n) && |s.buffers[0]| == size
  {
    hide Run, Step, Start;
    if n == 0 {
      CalmStart(size);
      acts, s := [], Start(size);
    } else {
      acts, s := CalmRun(size, n - 1);
      acts, s := Draw(size, acts, s);
      acts, s := Present(size, acts, s);
      acts, s := Snap(size, acts, s);
      acts, s := Consume(size, acts, s);
    }
  }

  /** A pixel drawn into any of the first 2^32 - 1 frames arrives in the compositor's copy. */
  lemma PixelArrives(size: nat, n: nat, at: nat, v: Pixel) returns (acts: seq<Action>, s: State)
    requires n + 1 < 0x1_0000_0000 && at < size
    ensures Run(size, acts) == Some(s) && s.presents == n + 1
    ensures s.compositor == Copying(n + 1, (n + 1) % 2, map[at := v])
  {
    hide Run;
    acts, s := CalmRun(size, n);
    acts, s := Draw(size, acts, s);
    acts, s := Then(size, acts, s, WritePixel(at, v));
    acts, s := Present(size, acts, s);
    acts, s := Snap(size, acts, s);
    acts, s := Then(size, acts, s, CopyPixel(at));
  }

  /**
   * With the frame of number 2^32 the client's counter is zero again, beginFrame no longer waits, and the client draws
   * into the buffer that the compositor is still copying.
   */
  lemma WrapConflict(size: nat) returns (acts: seq<Action>, s: State)
    ensures Run(size, acts) == Some(s) && s.presents == 0x1_0000_0000 && Conflict(s)
  {
    hide Run;
    acts, s := CalmRun(size, TWO32 - 2);
    acts, s := Draw(size, acts, s);
    acts, s := Present(size, acts, s);
    acts, s := Draw(size, acts, s);
    acts, s := Snap(size, acts, s);
    acts, s := Present(size, acts, s);
    acts, s := Draw(size, acts, s);
  }

  /** The protocol is safe for as many as `k` frames exactly if `k` is below 2^32. */
  lemma SafeBound(size: nat, k: nat)
    ensures k < 0x1_0000_0000 <==>
            (forall acts :: Run(size, acts).Some? && Run(size, acts).value.presents <= k ==> Safe(Run(size, acts).value))
  {
    hide Run, Safe;
    if k < 0x1_0000_0000 {
      forall acts | Run(size, acts).Some? && Run(size, acts).value.presents <= k
        ensures Safe(Run(size, acts).value)
      {
        AlwaysSafe(size, acts);
      }
    } else {
      var acts, s := WrapConflict(size);
      ConflictUnsafe(s);
      assert Run(size, acts).value == s;
    }
  }

  lemma ConflictUnsafe(s: State)
    requires Conflict(s)
    ensures !Safe(s)
  {
  }

  // ---- The wait of beginFrame ends ----

  /** What the compositor does not change. */
  predicate SameClient(s: State, t: State) {
    && t.client == s.client && t.localFrame == s.localFrame && t.dirtyFrame == s.dirtyFrame
    && t.presents == s.presents && t.drawIndex == s.drawIndex
  }

  /** The compositor finishes with the slot. */
  lemma ToRest(size: nat, acts: seq<Action>, s: State) returns (acts': seq<Action>, s': State)
    requires Run(size, acts) == Some(s) && Shaped(s)
    ensures Run(size, acts') == Some(s') && Shaped(s') && s'.compositor == Away && SameClient(s, s')
  {
    hide Run;
    acts', s' := acts, s;
    if s.compositor.FrameLoaded? { acts', s' := Then(size, acts', s', LoadIndex); }
    if s'.compositor.Copying? { acts', s' := Consume(size, acts', s'); }
    if s'.compositor.Noted? { acts', s' := Then(size, acts', s', StoreConsumed); }
  }

  /**
   * A client waiting in beginFrame is let go by the compositor alone: once the compositor has finished with the slot
   * and then looked at it once more, everything presented is consumed and the test passes.
   */
  lemma WaitEnds(size: nat, acts: seq<Action>, s: State) returns (acts': seq<Action>, s': State)
    requires Run(size, acts) == Some(s) && s.presents < 0x1_0000_0000 && s.client == Waiting
    ensures Run(size, acts') == Some(s') && s'.client == Drawing
    ensures s'.consumedFrame == s'.dirtyFrame == s.dirtyFrame
  {
    hide Run, Buffers, Untorn;
    RunInv(size, acts);
    acts', s' := ToRest(size, acts, s);
    RunInv(size, acts');
    if s'.dirtyFrame != s'.lastDirtyFrame {
      acts', s' := Snap(size, acts', s');
      acts', s' := Consume(size, acts', s');
    }
    acts', s' := Then(size, acts', s', TestConsumed);
  }
}
