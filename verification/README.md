# Slideshow core, modelled in Dafny

The program is a single-page browser slideshow (resources/main.js). The
user picks files; the image files among them are shuffled and shown one
after another, full screen, forever: each slide fades in, waits, and fades
out while the next slide, already decoded, waits after it in the page. A mouse
move shows the cursor, and one second without movement hides it again.

This project models the logic behind that behaviour:

- `cycle` (module `Cycle`): the endless generator over an array, as a class
  `CycleIterator` whose `Next` yields the element at the current index and
  advances it modulo the length. Its contract ties the k-th draw to
  `Draw(xs, k) == xs[k % |xs|]`. Lemmas show that draws repeat with period
  `|xs|` and that any `|xs|` consecutive draws visit every position exactly
  once.
- `shuffle` (module `Shuffling`): tag each element with a key, sort stably
  by key, read the values back. The random keys are a parameter. The sort
  is an insertion sort whose result is proved to be a permutation of the
  input, sorted by key and stable. A uniqueness lemma shows that these three
  properties determine the result, so any stable sort by key gives the same
  answer.
- `isImage` and the filter and guard of `inputHandler` (module `Images`).
  The filter is characterised as the subsequence of exactly the image files
  at increasing positions. The slideshow starts if and only if at least one
  image was chosen.
- `removeNode` and `appendChild` on the slides' parent (module `Dom`): a
  `Container` class over the child list, with "move" semantics for
  appending a node that is already a child.
- `FulfillingCallback` (module `Pulse`): a generation counter. The promise
  read before a `callback` call is settled by it; the one read after is
  not.
- The `slideshow` coroutine (module `SlideshowLoop`) as a state machine.
  Each `await` is a `Phase` that carries its live locals. The two kinds of
  browser event are methods: a decode finishes (`Decoded`) and an
  `animationend` reaches a slide (`AnimationEnd`). The invariant `Valid`
  says, at every `await`:
  - which slides are attached: none until the first file is decoded, then
    one, or two only during the fade-out;
  - which slide holds the listener;
  - that the k-th slide created shows the k-th draw of the cycle;
  - that the ghost trace of DOM operations keeps the listener discipline:
    - a listener is added only to a slide that has been attached and not
      detached;
    - it is removed only after being added;
    - a slide is detached right after its listener is removed.
- The position and idle logic of `mouseMoveHandler` (module `Cursor`): a
  class holding the last position, the current timer handle, the pending
  timers and whether the cursor is hidden.

Behaviour of the code that the model makes explicit:

- `FulfillingCallback` does not buffer pulses. An `animationend` that
  arrives while the next file is still being decoded settles a promise
  nobody awaits. The coroutine then awaits a fresh promise at line 231, and
  only a later `animationend` on the old slide can settle it.
  `AnimationEnd` states this: in the `LoadingNext` phase the phase stays as
  it is and the generation advances. A pulse that arrives before a wait
  begins does not release that wait.
- For an empty array, `cycle` yields `undefined` forever (the index becomes
  `NaN`). The model yields `None` and keeps the index at 0. The slideshow
  never reaches this case, because `inputHandler` starts it only with at
  least one image.
- `isImage` matches the MIME type against `^image/` with case taken into
  account, so `IMAGE/PNG` is not an image.
- The last position starts at `(-1, -1)`, so a first move event reported
  at exactly `(-1, -1)` counts as idle.

## Model

| member | source | states |
|---|---|---|
| Cycle.Draw | resources/main.js:36-38 | the element yielded on draw k is an element of the (non-empty) array |
| Cycle.DrawPeriodic | resources/main.js:36-38 | the draws repeat with period `xs.length` |
| Cycle.WindowVisitsEachOnce | resources/main.js:36-38 | any `n` consecutive draws read pairwise distinct positions, and every position in `[0, n)` among them |
| Cycle.AdvanceIndex | resources/main.js:38 | advancing the index modulo n after k draws gives the index of draw k+1: `(k % n + 1) % n == (k + 1) % n` |
| Cycle.ConsecutiveDrawsVisitEachOnce | resources/main.js:36-38 | draws `start` to `start + xs.length - 1` read the array at the positions of the window, which are pairwise distinct and cover every position |
| Cycle.CycleIterator.constructor | resources/main.js:33-34 | the generator starts at index 0 with nothing drawn |
| Cycle.CycleIterator.Next | resources/main.js:35-39 | draw k yields `xs[k % xs.length]`; the index stays below `xs.length`; an empty array yields nothing (`undefined`) forever |
| Shuffling.Tag | resources/main.js:54 | the key-tagging map gives one entry per element |
| Shuffling.TagAt | resources/main.js:54 | entry i of the tagging map holds element i with key i |
| Shuffling.Values | resources/main.js:56 | reading the values back gives one value per entry |
| Shuffling.ValuesAt | resources/main.js:56 | value i read back is the value of entry i |
| Shuffling.Insert | resources/main.js:55 | inserting an entry adds exactly that entry: the length grows by one and the multiset gains the entry |
| Shuffling.InsertSorted | resources/main.js:55 | inserting into a key-sorted sequence keeps it sorted |
| Shuffling.InsertValues | resources/main.js:55-56 | inserting an entry adds its value to the multiset of values |
| Shuffling.InsertWithKey | resources/main.js:55 | the inserted entry goes in front of the entries with its own key; the entries of other keys are unchanged |
| Shuffling.Sort | resources/main.js:55 | the sort result is a permutation of its input and sorted by key |
| Shuffling.SortValues | resources/main.js:55-56 | sorting permutes the values, adding and losing none |
| Shuffling.SortStable | resources/main.js:55 | the sort is stable: for every key, the entries with that key keep their input order |
| Shuffling.SortStableFor | resources/main.js:55 | stability for one given key |
| Shuffling.StableSortUnique | resources/main.js:55 | two key-sorted sequences whose entries agree key by key, in order, are equal, so every stable sort by key returns the same sequence |
| Shuffling.ValuesOfTag | resources/main.js:54-56 | reading the values back out of the tagged entries gives the input unchanged |
| Shuffling.Shuffle | resources/main.js:54-56 | the shuffled array is a permutation of the input |
| Shuffling.ShuffleOrderedByKey | resources/main.js:54-56 | the shuffled array is the values of the tagged entries ordered by key, with equal keys kept in input order |
| Images.IsImage | resources/main.js:181-185 | a file is an image if and only if its MIME type starts with `image/` |
| Images.FilterImages | resources/main.js:244 | the filtered list is no longer than the input and holds only files of the input that are images |
| Images.ImagePositions | resources/main.js:244 | the positions kept by the filter are in bounds and strictly increasing, and position i is kept if and only if file i is an image |
| Images.FilterImagesIsImageSubsequence | resources/main.js:244 | the filtered list is exactly the input files at the image positions, in order |
| Images.InputHandler | resources/main.js:243-257 | the slideshow starts if and only if some chosen file is an image, and then with the non-empty filtered list |
| Dom.Removed | resources/main.js:47 | removing a node that is not a child changes nothing, and never lengthens the list |
| Dom.RemovedMember | resources/main.js:47 | after removal, x is a child if and only if it was one and is not the removed node |
| Dom.RemovedShrinks | resources/main.js:47 | removal keeps distinct children distinct and drops the length by one exactly when the node was a child |
| Dom.RemovedSplit | resources/main.js:47 | removing a node from `pre + [node] + post` with the node not elsewhere gives `pre + post` |
| Dom.Appended | resources/main.js:229 | after `appendChild` the node is the last child |
| Dom.AppendedMember | resources/main.js:229 | after appending, x is a child if and only if it was one or it is the appended node |
| Dom.AppendedMoves | resources/main.js:215 | appending an existing child moves it to the end without duplicating it; appending a new one adds one child |
| Dom.AppendedSingle | resources/main.js:215 | re-appending the only child, or appending to an empty parent, leaves exactly that node |
| Dom.Container.constructor | resources/main.js:108 | the slides' parent starts with no children |
| Dom.Container.AppendChild | resources/main.js:215 | the children become `Appended(old children, node)` |
| Dom.Container.RemoveNode | resources/main.js:47 | the children become `Removed(old children, node)` |
| Pulse.FulfillingCallback.constructor | resources/main.js:94-96 | a fresh callback holds one open promise, not yet settled |
| Pulse.FulfillingCallback.Callback | resources/main.js:86-101 | the promise read from the getter (`Promise`) before the call is settled, a fresh one is open, and settled promises stay settled |
| SlideshowLoop.ListenerDisciplineExtends | resources/main.js:215-234 | an operation allowed after a disciplined trace keeps the trace disciplined |
| SlideshowLoop.ListenerDisciplineAt | resources/main.js:215-234 | in a disciplined trace every operation is allowed after the ones before it: a listener is added only to a slide attached and not detached, a detach comes right after the slide's listener is removed, which comes after it was added |
| SlideshowLoop.Slideshow.constructor | resources/main.js:200-209 | the files are shuffled, the first file is drawn and being decoded, and nothing is attached yet |
| SlideshowLoop.Slideshow.Show | resources/main.js:214-221 | the slide is the only child, it alone holds the listener, and the coroutine waits on the promise open now |
| SlideshowLoop.Slideshow.Decoded | resources/main.js:209-231 | the decoded file becomes the next slide, showing the next draw of the cycle; the first is shown, a later one is appended after the current slide |
| SlideshowLoop.Slideshow.AnimationEnd | resources/main.js:217-236 | an event on a slide without the listener changes nothing; otherwise the callback pulses and the coroutine resumes only if it was awaiting, else the pulse is lost |
| SlideshowLoop.Slideshow.ResumeAfterFadeIn | resources/main.js:223-227 | once the awaited promise is settled, after the fade-in, the next file is drawn from the cycle and the slides are unchanged |
| SlideshowLoop.Slideshow.ResumeAfterFadeOut | resources/main.js:233-236 | once the awaited promise is settled, after the fade-out, the old slide loses its listener and is detached, and the new slide is the only child and holds the listener |
| SlideshowLoop.Slideshow.AttachedBounds | resources/main.js:214-237 | at every await the parent holds at most two distinct slides, at least one once the first is decoded, and two exactly while fading out |
| Cursor.MouseMoveHandler.constructor | resources/main.js:129-137 | a timer is set at once and the last position is `(-1, -1)` |
| Cursor.MouseMoveHandler.Move | resources/main.js:142-158 | a move to the last position (the idle test, `IsIdle`) changes nothing; any other move shows the cursor, replaces the pending timer with a fresh one and records the position |
| Cursor.MouseMoveHandler.TimerFires | resources/main.js:130-132 | only the most recent timer can fire, and when it does it hides the cursor |

## Left out

- Shuffling.Shuffle: the keys come from `Math.random()` in the program and are a caller-supplied sequence of integers here. The model proves nothing about how uniform the shuffle is.
- Decoding a file with `FileReader` (`fileToPromise`) is left out. Its result is the `src` argument of `Decoded`. A failed read never settles its promise; in the model that is simply no `Decoded` event, and the slideshow stalls.
- The scheduling of promises and microtasks is left out. A `callback` pulse and the resumption of the coroutine it releases are one step (`AnimationEnd`).
- The one-second delay of `setTimeout` is left out. A timer firing is the event `TimerFires`.
- CSS classes and animations are left out: `zero-opacity`, `fade-in`, `wait-and-fade-out`, `no-cursor` as a class, and element attributes. Which slide's animation ends is the `target` of `AnimationEnd`.
- `createDom` is left out. Slides are values numbered in creation order.
- Fullscreen (`isFullScreen`, `toggleFullscreen`, `keyHandler`) and `main`'s event wiring are left out.
- The page work in `inputHandler` after its guard is left out: removing the input, fading out its wrapper, and attaching the images element.
- `removeNode` on a node without a parent (optional chaining) is modelled only for the slides' parent: removing a node that is not a child changes nothing.
- SlideshowLoop.Slideshow.constructor: requires an empty parent and at least one image, which is how `inputHandler` calls `slideshow`. A call with no images is not modelled.
- Screen coordinates are unbounded integers; JavaScript numbers are not modelled.
