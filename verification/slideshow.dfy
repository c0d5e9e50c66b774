/** The `slideshow` coroutine of resources/main.js as a state machine. Each
    `await` is a phase in which the coroutine is suspended; the browser's
    events (a file finished decoding, an `animationend` reached a slide)
    are the methods that move it to the next `await`. */
module SlideshowLoop {
  import opened Optional
  import opened Cycle
  import opened Shuffling
  import opened Images
  import opened Dom
  import opened Pulse

  /** `createSlide(dataUrl)`: an `img` element. Slides are numbered in the
      order they are created; `file` is the file whose data URL is `src`. */
  datatype Slide = Slide(serial: nat, file: File, src: string)

  /** The `await` at which the coroutine is suspended, with the local
      variables that are live there. */
  datatype Phase =
    | LoadingFirst(file: File)                          // decoding the first file
    | FadingIn(current: Slide, slot: nat)                // waiting for the fade-in to end
    | LoadingNext(current: Slide, file: File)           // decoding the next file
    | FadingOut(current: Slide, next: Slide, slot: nat)  // waiting for the fade-out to end

  /** The DOM operations the coroutine performs on slides. */
  datatype DomOp =
    | Attach(slide: Slide)    // appendChild
    | Listen(slide: Slide)    // addEventListener(ANIMATIONEND, ...)
    | Unlisten(slide: Slide)  // removeEventListener(ANIMATIONEND, ...)
    | Detach(slide: Slide)    // removeNode

  /** Whether `op` may follow the operations `before`: a slide gets its
      listener only while attached, loses it only after getting it, and is
      detached right after losing it. */
  ghost predicate MayFollow(before: seq<DomOp>, op: DomOp) {
    match op
    case Attach(_) => true
    case Listen(s) => Attach(s) in before && Detach(s) !in before
    case Unlisten(s) => Listen(s) in before
    case Detach(s) => |before| > 0 && before[|before| - 1] == Unlisten(s)
  }

  /** Every operation of the trace may follow the ones before it. */
  ghost predicate ListenerDiscipline(trace: seq<DomOp>) {
    |trace| == 0 ||
    (ListenerDiscipline(trace[..|trace| - 1]) && MayFollow(trace[..|trace| - 1], trace[|trace| - 1]))
  }

  /** Performing `op` next keeps the discipline when it may follow. */
  lemma ListenerDisciplineExtends(trace: seq<DomOp>, op: DomOp)
    requires ListenerDiscipline(trace) && MayFollow(trace, op)
    ensures ListenerDiscipline(trace + [op])
  {
    assert (trace + [op])[..|trace|] == trace;
  }

  /** The discipline read position by position: in a disciplined trace,
      each operation may follow the operations before it. In particular a
      slide is detached only right after its listener was removed, and
      its listener is removed only after it was added. */
  lemma {:induction false} ListenerDisciplineAt(trace: seq<DomOp>, j: nat)
    requires ListenerDiscipline(trace) && j < |trace|
    ensures MayFollow(trace[..j], trace[j])
  {
    var n := |trace| - 1;
    if j < n {
      ListenerDisciplineAt(trace[..n], j);
      assert trace[..n][..j] == trace[..j];
    }
  }

  /** No slide from serial `n` on has been detached in `trace`. */
  ghost predicate DetachedBelow(trace: seq<DomOp>, n: nat) {
    forall s :: Detach(s) in trace ==> s.serial < n
  }

  class Slideshow {
    /** The element the slides are appended to. */
    const parent: Container<Slide>
    /** The `fulfillingCallback` whose `callback` is every slide's listener. */
    const callback: FulfillingCallback
    /** `imageCycle`, the generator over the shuffled files. */
    const imageCycle: CycleIterator<File>
    /** `shuffledImages` */
    const shuffledImages: seq<File>
    /** The `await` the coroutine is suspended at. */
    var phase: Phase
    /** The number of slides created so far. */
    var created: nat
    /** The slides the `animationend` listener is registered on. */
    var listening: set<Slide>
    /** The DOM operations performed so far. */
    ghost var Trace: seq<DomOp>
    /** The file shown by each slide created so far, in creation order. */
    ghost var Shown: seq<File>

    /** The cycle runs over the shuffled files, which are not empty. */
    ghost predicate CycleReady()
      reads imageCycle
    {
      imageCycle.Valid() && imageCycle.xs == shuffledImages && |shuffledImages| > 0
    }

    /** The k-th slide created shows the file of the k-th draw. */
    ghost predicate ShownInOrder()
      reads this`Shown, this`created
    {
      && |Shown| == created && |shuffledImages| > 0
      && forall k :: 0 <= k < created ==> Shown[k] == Draw(shuffledImages, k)
    }

    /** What holds at every `await` whatever the phase. */
    ghost predicate Common()
      reads this, imageCycle
    {
      CycleReady() && ShownInOrder() && ListenerDiscipline(Trace)
    }

    /** Slide number `s.serial` shows the file the cycle yields on that draw. */
    ghost predicate Drawn(s: Slide)
      reads this
    {
      |shuffledImages| > 0 && s.file == Draw(shuffledImages, s.serial)
    }

    /** The state at each `await`: which slides are attached, which one
        holds the listener, and how far the cycle has been drawn. */
    ghost predicate Suspended()
      reads this, parent, imageCycle
    {
      && Common()
      && match phase
         case LoadingFirst(file) =>
           && parent.children == [] && listening == {} && Trace == []
           && created == 0 && imageCycle.Drawn == 1 && file == Draw(shuffledImages, 0)
         case FadingIn(current, _) =>
           && parent.children == [current] && listening == {current} && Listen(current) in Trace
           && DetachedBelow(Trace, current.serial)
           && current.serial + 1 == created && imageCycle.Drawn == created && Drawn(current)
         case LoadingNext(current, file) =>
           && parent.children == [current] && listening == {current} && Listen(current) in Trace
           && DetachedBelow(Trace, current.serial)
           && current.serial + 1 == created && imageCycle.Drawn == created + 1 && Drawn(current)
           && file == Draw(shuffledImages, created)
         case FadingOut(current, next, _) =>
           && parent.children == [current, next] && listening == {current} && Listen(current) in Trace
           && DetachedBelow(Trace, current.serial)
           && current.serial + 1 == next.serial && next.serial + 1 == created
           && imageCycle.Drawn == created && Drawn(current) && Drawn(next)
    }

    /** Between events: suspended, and an awaited promise slot is the one
        open now, since any pulse would have ended the wait. */
    ghost predicate Valid()
      reads this, parent, callback, imageCycle
    {
      && Suspended()
      && (phase.FadingIn? ==> phase.slot == callback.generation)
      && (phase.FadingOut? ==> phase.slot == callback.generation)
    }

    /** Lines 201-209: shuffle the files (with the given keys in place of
        `Math.random()`), start the cycle, draw the first file and wait for
        it to be decoded. The parent is the freshly created, empty
        `imagesDiv`, and `inputHandler` only starts a slideshow with at least
        one image. */
    constructor (parent: Container<Slide>, images: seq<File>, keys: seq<int>)
      requires |images| > 0 && |keys| == |images| && parent.children == []
      ensures Valid() && fresh(callback) && fresh(imageCycle)
      ensures this.parent == parent && shuffledImages == Shuffle(images, keys)
      ensures phase == LoadingFirst(Draw(shuffledImages, 0))
      ensures Shown == [] && Trace == []
    {
      var shuffled := Shuffle(images, keys);
      var cycle := new CycleIterator(shuffled);
      var first := cycle.Next();
      this.parent := parent;
      shuffledImages := shuffled;
      imageCycle := cycle;
      callback := new FulfillingCallback();
      phase := LoadingFirst(first.value);
      created := 0;
      listening := {};
      Trace := [];
      Shown := [];
      new;
      assert ListenerDiscipline(Trace);
      assert Common();
    }

    /** Lines 215-221, the top of the loop: append `s`, register the
        listener on it, and wait on the promise slot that is open now. */
    method Show(s: Slide)
      requires Common() && listening == {}
      requires parent.children == [] || parent.children == [s]
      requires s.serial + 1 == created && imageCycle.Drawn == created && Drawn(s)
      requires DetachedBelow(Trace, s.serial)
      modifies this, parent
      ensures Valid() && phase == FadingIn(s, callback.generation)
      ensures parent.children == [s] && listening == {s}
      ensures Trace == old(Trace) + [Attach(s), Listen(s)]
      ensures created == old(created) && Shown == old(Shown)
    {
      AppendedSingle(parent.children, s);
      parent.AppendChild(s);
      assert parent.children == [s];
      assert Common();
      ghost var trace := Trace + [Attach(s), Listen(s)];
      ListenerDisciplineExtends(Trace, Attach(s));
      assert (Trace + [Attach(s)])[|Trace|] == Attach(s);
      assert Detach(s) !in Trace + [Attach(s)];
      ListenerDisciplineExtends(Trace + [Attach(s)], Listen(s));
      assert Trace + [Attach(s)] + [Listen(s)] == trace;
      assert trace[|trace| - 1] == Listen(s);
      Trace := trace;
      listening := {s};
      phase := FadingIn(s, callback.Promise());
    }

    /** The decoding awaited at line 209 or line 227 produced `src`: a slide
        is created for the file being decoded. The first slide is shown at
        once; a later one is appended after the current slide (line 229),
        and the coroutine waits on the slot that is open now (line 231). */
    method Decoded(src: string)
      requires Valid() && (phase.LoadingFirst? || phase.LoadingNext?)
      modifies this, parent
      ensures Valid()
      ensures created == old(created) + 1
      ensures Shown == old(Shown) + [Draw(shuffledImages, old(created))]
      ensures old(phase).LoadingFirst? ==>
        var s := Slide(0, old(phase).file, src);
        && phase == FadingIn(s, callback.generation)
        && parent.children == [s]
        && Trace == old(Trace) + [Attach(s), Listen(s)]
      ensures old(phase).LoadingNext? ==>
        var s := Slide(old(created), old(phase).file, src);
        && phase == FadingOut(old(phase).current, s, callback.generation)
        && parent.children == old(parent.children) + [s]
        && Trace == old(Trace) + [Attach(s)]
    {
      var s := Slide(created, phase.file, src);
      created := created + 1;
      Shown := Shown + [s.file];
      if phase.LoadingFirst? {
        Show(s);
      } else {
        var current := phase.current;
        parent.AppendChild(s);
        assert parent.children == [current, s];
        ListenerDisciplineExtends(Trace, Attach(s));
        assert DetachedBelow(Trace + [Attach(s)], current.serial);
        Trace := Trace + [Attach(s)];
        phase := FadingOut(current, s, callback.Promise());
      }
    }

    /** An `animationend` event reached slide `target`. On a slide holding
        the listener it runs `callback`, which fulfils the awaited slot, if
        any. After the fade-in the coroutine draws the next file and waits
        for its decoding (lines 223-227); after the fade-out it removes the
        listener from the old slide, detaches it and loops with the new
        slide (lines 233-236 and 215-221). While a file is being decoded
        nobody waits on the slot, and the pulse is lost. */
    method AnimationEnd(target: Slide)
      requires Valid()
      modifies this, parent, callback, imageCycle
      ensures Valid()
      ensures target !in old(listening) ==>
        && unchanged(this) && parent.children == old(parent.children)
        && callback.generation == old(callback.generation) && imageCycle.Drawn == old(imageCycle.Drawn)
      ensures target in old(listening) ==> callback.generation == old(callback.generation) + 1
      ensures target in old(listening) && old(phase).FadingIn? ==>
        && phase == LoadingNext(old(phase).current, Draw(shuffledImages, created))
        && parent.children == old(parent.children) && Trace == old(Trace)
        && imageCycle.Drawn == old(imageCycle.Drawn) + 1
      ensures target in old(listening) && old(phase).FadingOut? ==>
        var current, next := old(phase).current, old(phase).next;
        && phase == FadingIn(next, callback.generation)
        && parent.children == [next]
        && Trace == old(Trace) + [Unlisten(current), Detach(current), Attach(next), Listen(next)]
      ensures target in old(listening) && old(phase).LoadingNext? ==>
        phase == old(phase) && parent.children == old(parent.children) && Trace == old(Trace)
      ensures created == old(created) && Shown == old(Shown)
    {
      if target in listening {
        callback.Callback();
        if phase.FadingIn? && callback.Settled(phase.slot) {
          ResumeAfterFadeIn();
        } else if phase.FadingOut? && callback.Settled(phase.slot) {
          ResumeAfterFadeOut();
        }
      }
    }

    /** Lines 223-227: the fade-in ended; draw the next file and wait for
        it to be decoded. */
    method ResumeAfterFadeIn()
      requires Suspended() && phase.FadingIn? && callback.Settled(phase.slot)
      modifies this, imageCycle
      ensures Valid()
      ensures phase == LoadingNext(old(phase).current, Draw(shuffledImages, created))
      ensures imageCycle.Drawn == old(imageCycle.Drawn) + 1
      ensures listening == old(listening) && Trace == old(Trace)
      ensures created == old(created) && Shown == old(Shown)
    {
      var file := imageCycle.Next();
      phase := LoadingNext(phase.current, file.value);
    }

    /** Lines 233-236: the fade-out ended; remove the listener from the
        old slide, detach it, and go round the loop with the new slide. */
    method ResumeAfterFadeOut()
      requires Suspended() && phase.FadingOut? && callback.Settled(phase.slot)
      modifies this, parent
      ensures Valid()
      ensures
        var current, next := old(phase).current, old(phase).next;
        && phase == FadingIn(next, callback.generation)
        && parent.children == [next] && listening == {next}
        && Trace == old(Trace) + [Unlisten(current), Detach(current), Attach(next), Listen(next)]
      ensures created == old(created) && Shown == old(Shown)
    {
      var current, next := phase.current, phase.next;
      assert current != next;
      ghost var trace := Trace + [Unlisten(current), Detach(current)];
      ListenerDisciplineExtends(Trace, Unlisten(current));
      assert (Trace + [Unlisten(current)])[|Trace|] == Unlisten(current);
      ListenerDisciplineExtends(Trace + [Unlisten(current)], Detach(current));
      assert Trace + [Unlisten(current)] + [Detach(current)] == trace;
      listening := {};
      Trace := trace;
      RemovedSplit([], current, [next]);
      parent.RemoveNode(current);
      assert parent.children == [next];
      Show(next);
    }

    /** Once the first slide is decoded the parent holds one or two slides,
        two only while the next slide fades in over the current one. */
    lemma AttachedBounds()
      requires Valid()
      ensures |parent.children| <= 2
      ensures !phase.LoadingFirst? ==> |parent.children| >= 1
      ensures |parent.children| == 2 <==> phase.FadingOut?
      ensures Distinct(parent.children)
    {
    }
  }
}
