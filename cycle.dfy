/** Runs of the typewriter over many steps (one timer callback each, both
    callbacks of the pause as one step): the invariant holds at every step,
    one phrase's cycle of typing, pausing, deleting and advancing takes
    2|p| + 2 steps and 150|p| + 2150 ms, and consecutive cycles visit
    the phrases in order, wrapping round the list. */
module TypewriterCycle {
  import opened Typewriter

  /** The state after `n` steps from `s`. */
  function Run(texts: seq<string>, s: State, n: nat): (r: State)
    requires s.index < |texts|
    ensures r.index < |texts|
    decreases n
  {
    if n == 0 then s else Run(texts, Step(texts, s), n - 1)
  }

  /** Milliseconds taken by `n` steps from `s`. */
  function Elapsed(texts: seq<string>, s: State, n: nat): (ms: nat)
    requires s.index < |texts|
    ensures 50 * n <= ms <= 2100 * n
    decreases n
  {
    if n == 0 then 0 else Wait(texts, s) + Elapsed(texts, Step(texts, s), n - 1)
  }

  /** Number of steps in one full cycle of phrase `i`. */
  function CycleLength(texts: seq<string>, i: nat): nat
    requires i < |texts|
  {
    2 * |texts[i]| + 2
  }

  /** Number of steps in `k` consecutive cycles, the first on phrase `i`. */
  function Cycles(texts: seq<string>, i: nat, k: nat): nat
    requires i < |texts|
    decreases k
  {
    if k == 0 then 0 else CycleLength(texts, i) + Cycles(texts, (i + 1) % |texts|, k - 1)
  }

  /** The state at the start of typing phrase `i`. */
  function Start(i: nat): State {
    State([], i, Typing)
  }

  /** Running `a` then `b` steps is running `a + b`. */
  lemma {:induction false} RunAdd(texts: seq<string>, s: State, a: nat, b: nat)
    requires s.index < |texts|
    ensures Run(texts, s, a + b) == Run(texts, Run(texts, s, a), b)
    ensures Elapsed(texts, s, a + b) == Elapsed(texts, s, a) + Elapsed(texts, Run(texts, s, a), b)
    decreases a
  {
    if a > 0 {
      RunAdd(texts, Step(texts, s), a - 1, b);
    }
  }

  /** The invariant holds after any number of steps. */
  lemma {:induction false} RunValid(texts: seq<string>, s: State, n: nat)
    requires ValidState(texts, s)
    ensures ValidState(texts, Run(texts, s, n))
    decreases n
  {
    if n > 0 {
      RunValid(texts, Step(texts, s), n - 1);
    }
  }

  /** Every state the component reaches keeps its index in range and its
      text a prefix of the current phrase. */
  lemma ReachableValid(texts: seq<string>, n: nat)
    requires |texts| > 0
    ensures ValidState(texts, Run(texts, Initial(), n))
  {
    InitialValid(texts);
    RunValid(texts, Initial(), n);
  }

  /** From the first `k` characters of phrase `i` in typing mode, `|p| - k`
      steps, 100 ms each, complete the phrase. */
  lemma {:induction false} TypeRun(texts: seq<string>, i: nat, k: nat)
    requires i < |texts| && k <= |texts[i]|
    ensures Run(texts, State(texts[i][..k], i, Typing), |texts[i]| - k) == State(texts[i], i, Typing)
    ensures Elapsed(texts, State(texts[i][..k], i, Typing), |texts[i]| - k) == 100 * (|texts[i]| - k)
    decreases |texts[i]| - k
  {
    var p := texts[i];
    var s := State(p[..k], i, Typing);
    if k < |p| {
      StepType(texts, s);
      assert p[..k] + [p[k]] == p[..k + 1];
      TypeRun(texts, i, k + 1);
    } else {
      assert p[..k] == p;
    }
  }

  /** From the first `k` characters of phrase `i` in deleting mode, `k`
      steps, 50 ms each, empty the text. */
  lemma {:induction false} DeleteRun(texts: seq<string>, i: nat, k: nat)
    requires i < |texts| && k <= |texts[i]|
    ensures Run(texts, State(texts[i][..k], i, Deleting), k) == State([], i, Deleting)
    ensures Elapsed(texts, State(texts[i][..k], i, Deleting), k) == 50 * k
    decreases k
  {
    var p := texts[i];
    var s := State(p[..k], i, Deleting);
    if k > 0 {
      StepDelete(texts, s);
      assert p[..k][..k - 1] == p[..k - 1];
      DeleteRun(texts, i, k - 1);
    }
  }

  /** One full cycle: |p| type steps, the pause, |p| delete steps and the
      advance lead from the start of phrase `i` to the start of the next,
      taking 100 ms per character typed, 2100 ms for the pause, 50 ms per
      character deleted and 50 ms for the advance. */
  lemma Cycle(texts: seq<string>, i: nat)
    requires i < |texts|
    ensures Run(texts, Start(i), CycleLength(texts, i)) == Start((i + 1) % |texts|)
    ensures Elapsed(texts, Start(i), CycleLength(texts, i)) == 150 * |texts[i]| + 2150
  {
    var p := texts[i];
    var n := |p|;
    var typed, full, empty := State(p, i, Typing), State(p, i, Deleting), State([], i, Deleting);
    assert p[..0] == [];
    TypeRun(texts, i, 0);
    StepPause(texts, typed);
    assert p[..n] == p;
    DeleteRun(texts, i, n);
    StepAdvance(texts, empty);
    assert Elapsed(texts, empty, 1) == 50;
    RunAdd(texts, full, n, 1);
    assert Elapsed(texts, typed, n + 2) == 2100 + 50 * n + 50;
    RunAdd(texts, Start(i), n, n + 2);
  }

  /** The milestones of one cycle of phrase `p`: after |p| steps the whole
      phrase is shown while typing, after the pause it is shown while
      deleting, and after |p| more steps the text is empty while deleting. */
  lemma CyclePhases(texts: seq<string>, i: nat)
    requires i < |texts|
    ensures Run(texts, Start(i), |texts[i]|) == State(texts[i], i, Typing)
    ensures Run(texts, Start(i), |texts[i]| + 1) == State(texts[i], i, Deleting)
    ensures Run(texts, Start(i), 2 * |texts[i]| + 1) == State([], i, Deleting)
  {
    var p := texts[i];
    var n := |p|;
    assert p[..0] == [];
    TypeRun(texts, i, 0);
    StepPause(texts, State(p, i, Typing));
    RunAdd(texts, Start(i), n, 1);
    assert p[..n] == p;
    DeleteRun(texts, i, n);
    RunAdd(texts, Start(i), n + 1, n);
  }

  /** Arithmetic helper: reducing before adding does not change the result
      modulo `m`. */
  lemma ModShift(x: nat, k: nat, m: nat)
    requires m > 0
    ensures (x % m + k) % m == (x + k) % m
  {
    var q, r := x / m, x % m;
    var q2, r2 := (r + k) / m, (r + k) % m;
    assert x + k == (q + q2) * m + r2 by {
      assert q * m + q2 * m == (q + q2) * m;
    }
    ModUnique(x + k, q + q2, r2, m);
  }

  /** Arithmetic helper: the remainder is determined by any decomposition
      `a == q * m + r` with `0 <= r < m`. */
  lemma ModUnique(a: int, q: int, r: int, m: int)
    requires m > 0 && 0 <= r < m && a == q * m + r
    ensures a % m == r
  {
    var d := q - a / m;
    assert d * m == a % m - r by {
      assert a == (a / m) * m + a % m;
      assert q * m - (a / m) * m == d * m;
    }
    if d >= 1 {
      MulAtLeast(d, m);
    } else if d <= -1 {
      MulAtLeast(-d, m);
    }
  }

  lemma MulAtLeast(d: int, m: int)
    requires d >= 1 && m >= 0
    ensures d * m >= m
  {
  }

  /** `k` consecutive cycles from the start of phrase `i` end at the start
      of phrase `(i + k) mod |texts|`: the phrases are shown in list order
      and the list wraps round. */
  lemma {:induction false} CyclesInOrder(texts: seq<string>, i: nat, k: nat)
    requires i < |texts|
    ensures Run(texts, Start(i), Cycles(texts, i, k)) == Start((i + k) % |texts|)
    decreases k
  {
    if k > 0 {
      var j := (i + 1) % |texts|;
      Cycle(texts, i);
      RunAdd(texts, Start(i), CycleLength(texts, i), Cycles(texts, j, k - 1));
      CyclesInOrder(texts, j, k - 1);
      ModShift(i + 1, k - 1, |texts|);
    }
  }

  /** After one cycle per phrase the component is back in its initial
      state. */
  lemma FullRotation(texts: seq<string>)
    requires |texts| > 0
    ensures Run(texts, Initial(), Cycles(texts, 0, |texts|)) == Initial()
  {
    CyclesInOrder(texts, 0, |texts|);
  }

  /** With a single phrase, one cycle returns to the initial state: the
      same phrase is typed and deleted forever. */
  lemma SinglePhraseLoops(texts: seq<string>)
    requires |texts| == 1
    ensures Run(texts, Initial(), CycleLength(texts, 0)) == Initial()
  {
    Cycle(texts, 0);
  }
}
