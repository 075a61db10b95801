# Typewriter text of the portfolio hero section

The portfolio's hero section shows a typewriter effect: the component
`TypewriterText` receives a fixed list of phrases and, driven by a timer,
types the current phrase one character every 100 ms, holds the complete
phrase, deletes it one character every 50 ms, and then moves on to the next
phrase, wrapping from the last phrase back to the first. It never stops.

The component has three state cells: the displayed text, the index of the
current phrase and a deleting flag. It starts with empty text, index 0 and
typing mode. Each step, one firing of the timer (two for the pause), does
exactly one of four things:

- **type**: append the next character of the phrase;
- **pause**: when the phrase is complete, wait 2000 ms more and switch to deleting;
- **delete**: remove the last character;
- **advance**: when the text is empty, switch to typing and take the next phrase modulo the list length.

The model has three modules:

- `Typewriter` (`typewriter.dfy`): the state as a datatype, the transition
  `Step`, the timer delays, and one lemma per kind of step.
- `TypewriterCycle` (`cycle.dfy`): `Run`, the state after `n` steps, and
  `Elapsed`, the time those steps take. It proves that the invariant holds
  in every reachable state, that one phrase's cycle takes `2|p| + 2` steps
  and `150|p| + 2150` ms and ends at the start of the next phrase, and that
  consecutive cycles visit the phrases in list order.
- `TypewriterComponent` (`component.dfy`): the component as a class. Its
  three fields are overwritten by `Tick`, which mirrors the timer callback
  branch by branch and is proved to agree with `Step`.

The invariant: the index names a phrase of the list, and the displayed text
is a prefix of that phrase.

Choices the model makes about the code:

- The code does not check for an empty phrase list. On one, `texts[0]` is
  `undefined`, and the first timer callback throws a TypeError when it reads
  `text.length` (`Portfolio.tsx:35`); no timer is scheduled after that, so
  the component renders the empty text and the cursor for ever. The model
  requires a non-empty list and has no error path.
- The code keeps the displayed string itself and rebuilds it with
  `slice(0, n)` of the current phrase. The model keeps the string too, rather
  than a prefix length, and proves that it is a prefix of the current phrase.
- The pause is two timer callbacks: the 100 ms typing timer fires first and
  then starts a nested 2000 ms timer that sets the deleting flag. The model
  makes these one step that takes 2100 ms in all. `Wait` and `Tick`'s
  `deferredBy` model this. Every other step is exactly one timer callback.

## Model

| member | source | states |
|---|---|---|
| `Typewriter.Initial` | src/components/Portfolio.tsx:27-29 | The first state has empty text, index 0 and typing mode; `InitialValid` proves it valid for every non-empty phrase list. |
| `Typewriter.InitialValid` | src/components/Portfolio.tsx:27-29 | The initial state has empty text, index 0 and typing mode, and it satisfies the invariant for any non-empty phrase list. |
| `Typewriter.Slice` | src/components/Portfolio.tsx:36-42 | `slice(0, end)` returns a prefix of the string, of length `end`, or the whole string when the string is shorter. |
| `Typewriter.Step` | src/components/Portfolio.tsx:32-47 | Applied to a state whose index is in range, the transition keeps the index in range. From a valid state it reaches a valid state: the text is again a prefix of the current phrase. |
| `Typewriter.Delay` | src/components/Portfolio.tsx:48 | The timer delay is 50 ms exactly when deleting and 100 ms exactly when typing. |
| `Typewriter.IsPause` | src/components/Portfolio.tsx:35-38 | A step is the pause exactly when it switches typing to deleting; the pause keeps text and index. |
| `Typewriter.PauseBefore` | src/components/Portfolio.tsx:37-38 | The nested timer adds 2000 ms exactly on the pause and nothing on any other step. |
| `Typewriter.Wait` | src/components/Portfolio.tsx:35-48 | A step takes 2100 ms exactly when it is the pause (outer 100 ms callback plus the nested 2000 ms one, taken as one step), 100 ms exactly on any other typing step, and 50 ms exactly when deleting; `StepType`, `StepPause`, `StepDelete` and `StepAdvance` give 100, 2100, 50 and 50. |
| `Typewriter.StepType` | src/components/Portfolio.tsx:34-36 | In typing mode with an incomplete phrase, a step appends exactly the phrase's next character, leaves index and mode unchanged, and waits 100 ms. |
| `Typewriter.StepPause` | src/components/Portfolio.tsx:37-38 | In typing mode with the phrase complete, a step keeps text and index and switches to deleting. It waits for the 100 ms timer plus the 2000 ms pause. |
| `Typewriter.StepDelete` | src/components/Portfolio.tsx:40-42 | In deleting mode with non-empty text, a step removes exactly the last character, leaves index and mode unchanged, and waits 50 ms. |
| `Typewriter.StepAdvance` | src/components/Portfolio.tsx:43-45 | In deleting mode with empty text, a step switches to typing with index `(i + 1) mod N` (N the number of phrases) and keeps the text empty: index `i + 1` before the last phrase, 0 after it, always 0 with one phrase. It waits 50 ms. |
| `Typewriter.StepIndexChanges` | src/components/Portfolio.tsx:34-45 | The phrase index changes if and only if the step is an advance (deleting mode, empty text) in a list of more than one phrase. |
| `Typewriter.StepModeChanges` | src/components/Portfolio.tsx:34-45 | The mode flips if and only if the step is the pause (typing, phrase complete) or the advance (deleting, text empty). |
| `TypewriterCycle.Run` | src/components/Portfolio.tsx:31-51 | Any number of steps from a state whose index is in range keeps the index in range. |
| `TypewriterCycle.Elapsed` | src/components/Portfolio.tsx:33-48 | `n` steps, each waiting its timer delay, take between `50 n` and `2100 n` ms; `TypeRun`, `DeleteRun` and `Cycle` give the exact sums. |
| `TypewriterCycle.RunValid` | src/components/Portfolio.tsx:33-47 | The invariant (index in range, text a prefix of the current phrase) survives any number of steps. |
| `TypewriterCycle.ReachableValid` | src/components/Portfolio.tsx:27-47 | Every state reached from the initial state satisfies the invariant. |
| `TypewriterCycle.TypeRun` | src/components/Portfolio.tsx:34-36 | From a `k`-character prefix in typing mode, `L - k` steps complete the phrase of length `L`, at 100 ms each. |
| `TypewriterCycle.DeleteRun` | src/components/Portfolio.tsx:40-42 | From a `k`-character prefix in deleting mode, `k` steps empty the text, at 50 ms each. |
| `TypewriterCycle.Cycle` | src/components/Portfolio.tsx:33-48 | From the start of phrase `i`, `2L + 2` steps (`L` the phrase's length: `L` type steps, the pause, `L` delete steps, the advance) reach the start of phrase `(i + 1) mod N` (N the number of phrases) and take `150 L + 2150` ms. |
| `TypewriterCycle.CyclePhases` | src/components/Portfolio.tsx:34-42 | The milestones of that cycle: after `L` steps the whole phrase is shown in typing mode, after `L + 1` (the pause) it is shown in deleting mode, and after `2L + 1` the text is empty in deleting mode. |
| `TypewriterCycle.CyclesInOrder` | src/components/Portfolio.tsx:43-45 | `k` consecutive cycles from the start of phrase `i` end at the start of phrase `(i + k) mod N` (N the number of phrases), so the phrases are shown in list order, wrapping round. |
| `TypewriterCycle.FullRotation` | src/components/Portfolio.tsx:27-45 | One cycle per phrase brings the component back to its initial state. |
| `TypewriterCycle.SinglePhraseLoops` | src/components/Portfolio.tsx:43-45 | With a single phrase, one cycle returns to the initial state. |
| `TypewriterComponent.TypewriterText.constructor` | src/components/Portfolio.tsx:27-29 | The state cells start as empty text, index 0 and not deleting, which satisfies the invariant. |
| `TypewriterComponent.TypewriterText.TimerDelay` | src/components/Portfolio.tsx:48 | The timer delay is 50 ms while deleting and 100 ms while typing, agreeing with `Delay`. |
| `TypewriterComponent.TypewriterText.Tick` | src/components/Portfolio.tsx:33-47 | One step (one timer callback, or both callbacks of the pause) rewrites the three cells to exactly `Step` of the old state and keeps the invariant. The returned extra wait is 2000 ms on the pause and 0 otherwise. |
| `TypewriterComponent.TypewriterText.Render` | src/components/Portfolio.tsx:55 | The rendered text is the current text cell, which is a prefix of the current phrase. |

## Left out

- Real timers and the effect lifecycle (`setTimeout`, `clearTimeout`, re-running the effect when its dependencies change, cleanup on unmount). These are runtime scheduling. The model treats one timer callback as one step (the pause's two callbacks as a single step), and time as the sum of the waits.
- Re-renders of the parent: `Portfolio` passes a fresh array literal as `texts` (`Portfolio.tsx:354-359`), so every render of `Portfolio`, including each of the five visibility flags of `Portfolio.tsx:208-212` turning true, re-runs the effect (dependency list at `Portfolio.tsx:51`) and restarts the pending timer. The model assumes no such re-render and keeps the phrase list fixed.
- Cycle, CyclesInOrder and Elapsed: their step counts and times assume no parent re-render. A re-render restarts the pending timer, so real time can only be longer than `Elapsed`. A re-render during the pause makes the outer timer fire again and start a second 2000 ms timer (`Portfolio.tsx:38`) that the cleanup (`Portfolio.tsx:50`) never clears; its late `setIsDeleting(true)` can cut the next phrase short while it is being typed, or skip it when it lands on the empty text. The invariant lemmas `RunValid` and `ReachableValid` still hold for those states, but "each phrase is typed in full, in order" is not promised then.
- React batching of the two updates in the advance branch: the model performs them as one step, which is how they are rendered.
- Strings are sequences of characters. JavaScript strings are UTF-16 code units, and `slice` may split a surrogate pair; the model makes no distinction.
- The rest of the page: JSX markup, styling, icons and images; animation libraries and visibility hooks; the floating particles (random floating-point positions); fractional animation delays; the hard-coded skill and project data with their cards and badges; and the label transform by regular expression. None of these has state-transition logic.
