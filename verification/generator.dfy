/** Model of `generate` (markov.c:114-142): the selection loop over a suffix
    list and the walk that slides the window, with `rand()` an input. */
module Generator {
  import opened Wrappers
  import opened Words
  import opened StateTable
  import opened Builder

  /** `MAXGEN`, the number of words `main` asks for (markov.c:10, 147). */
  const MAXGEN: nat := 10000

  /** `rand()`: the value returned by its `n`-th call, counting from 0. */
  type Rng = nat -> nat

  /** The `j`-th suffix visited (from 0) replaces the held word: the call
      `rand() % ++nmatch == 0` with `nmatch` raised to `j + 1`. Both operands
      are non-negative, so C's `%` and Dafny's agree. */
  predicate Hit(rng: Rng, base: nat, j: nat)
  {
    rng(base + j) % (j + 1) == 0
  }

  /** No suffix after position `j` (and before `n`) replaces the held word. */
  predicate NoHitAfter(rng: Rng, base: nat, j: nat, n: nat)
  {
    forall l | j < l < n :: !Hit(rng, base, l)
  }

  /** The selection loop from position `k` on, holding `held`: each visited
      suffix replaces the held word when its `rand()` call hits. */
  function Scan(suf: seq<Word>, rng: Rng, base: nat, k: nat, held: Option<Word>): Option<Word>
    requires k <= |suf|
    decreases |suf| - k
  {
    if k == |suf| then held
    else Scan(suf, rng, base, k + 1, if Hit(rng, base, k) then Some(suf[k]) else held)
  }

  /** With no hit from `k` on, the selection loop keeps the held word. */
  lemma {:induction false} ScanNoHit(suf: seq<Word>, rng: Rng, base: nat, k: nat, held: Option<Word>)
    requires k <= |suf|
    ensures (forall j | k <= j < |suf| :: !Hit(rng, base, j)) ==> Scan(suf, rng, base, k, held) == held
    decreases |suf| - k
  {
    if k < |suf| {
      ScanNoHit(suf, rng, base, k + 1, held);
    }
  }

  /** Otherwise the selection loop ends holding the suffix of the last hit. */
  lemma {:induction false} ScanLastHit(suf: seq<Word>, rng: Rng, base: nat, k: nat, held: Option<Word>)
    requires k <= |suf|
    ensures forall j | k <= j < |suf| && Hit(rng, base, j) && NoHitAfter(rng, base, j, |suf|) ::
      Scan(suf, rng, base, k, held) == Some(suf[j])
    decreases |suf| - k
  {
    if k < |suf| {
      var next := if Hit(rng, base, k) then Some(suf[k]) else held;
      ScanLastHit(suf, rng, base, k + 1, next);
      forall j | k <= j < |suf| && Hit(rng, base, j) && NoHitAfter(rng, base, j, |suf|)
        ensures Scan(suf, rng, base, k, held) == Some(suf[j])
      {
        if j == k {
          ScanNoHit(suf, rng, base, k + 1, next);
        }
      }
    }
  }

  /** The position of the last hit among the first `n` suffixes: one always
      exists, as the first suffix hits whatever `rand()` returns. */
  function LastHit(rng: Rng, base: nat, n: nat): (r: nat)
    requires n > 0
    ensures r < n && Hit(rng, base, r) && NoHitAfter(rng, base, r, n)
  {
    if n == 1 || Hit(rng, base, n - 1) then n - 1 else LastHit(rng, base, n - 1)
  }

  /** The whole selection loop (markov.c:128-131): `held` is the value `w`
      has on entry, since `generate` never resets it. */
  function Pick(suf: seq<Word>, rng: Rng, base: nat, held: Option<Word>): (r: Option<Word>)
    // an empty list leaves `w` as it was
    ensures |suf| == 0 ==> r == held
    // otherwise the chosen word is a member of the list
    ensures |suf| > 0 ==> r.Some? && r.value in suf
    // a single suffix is always chosen
    ensures |suf| == 1 ==> r == Some(suf[0])
    // the chosen word is the one at the last hit
    ensures |suf| > 0 ==> r == Some(suf[LastHit(rng, base, |suf|)])
  {
    var r := Scan(suf, rng, base, 0, held);
    ScanNoHit(suf, rng, base, 0, held);
    ScanLastHit(suf, rng, base, 0, held);
    if |suf| > 0 then
      var j := LastHit(rng, base, |suf|);
      assert r == Some(suf[j]);
      r
    else r
  }

  /** The selection loop as written, with its `nmatch` counter; it also
      reports how many `rand()` calls it made. */
  method SelectSuffix(suf: seq<Word>, rng: Rng, base: nat, held: Option<Word>)
    returns (w: Option<Word>, calls: nat)
    ensures w == Pick(suf, rng, base, held)
    ensures calls == base + |suf|
  {
    w, calls := ScanSuffixes(suf, rng, base, held);
    PickIsScan(suf, rng, base, held);
  }

  /** The `nmatch` loop itself: it computes `Scan` from the first suffix. */
  method ScanSuffixes(suf: seq<Word>, rng: Rng, base: nat, held: Option<Word>)
    returns (w: Option<Word>, calls: nat)
    ensures w == Scan(suf, rng, base, 0, held)
    ensures calls == base + |suf|
  {
    w := held;
    var nmatch: nat := 0;
    while nmatch < |suf|
      invariant nmatch <= |suf|
      invariant Scan(suf, rng, base, nmatch, w) == Scan(suf, rng, base, 0, held)
    {
      ScanStep(suf, rng, base, nmatch, w);
      if Hit(rng, base, nmatch) {
        w := Some(suf[nmatch]);
      }
      nmatch := nmatch + 1;
    }
    calls := base + nmatch;
  }

  /** One visit of the selection loop. */
  lemma ScanStep(suf: seq<Word>, rng: Rng, base: nat, k: nat, held: Option<Word>)
    requires k < |suf|
    ensures Scan(suf, rng, base, k, held)
      == Scan(suf, rng, base, k + 1, if Hit(rng, base, k) then Some(suf[k]) else held)
  {
  }

  /** `Pick` is the selection loop run from the first suffix. */
  lemma PickIsScan(suf: seq<Word>, rng: Rng, base: nat, held: Option<Word>)
    ensures Pick(suf, rng, base, held) == Scan(suf, rng, base, 0, held)
  {
  }

  /** Why `generate` would go wrong: `lookup` returned NULL for the window
      (markov.c:127, dereferenced at 129), or `w` was read before the
      selection loop ever set it (markov.c:132). */
  datatype Fault = NoState(window: Prefix) | Unset

  /** The window after reading `out` from `window`. */
  function WindowAfter(window: Prefix, out: seq<Word>): Prefix
    decreases |out|
  {
    if |out| == 0 then window else WindowAfter(Shift(window, out[0]), out[1..])
  }

  /** Each word of `out` is in the suffix bag of the window it completes. */
  predicate Walk(t: Table, window: Prefix, out: seq<Word>)
    decreases |out|
  {
    |out| == 0 || (out[0] in BagOf(t, window) && Walk(t, Shift(window, out[0]), out[1..]))
  }

  /** Each word of `out` follows the window it completes somewhere in `text`. */
  predicate TextWalk(text: seq<Word>, window: Prefix, out: seq<Word>)
    decreases |out|
  {
    |out| == 0 || (out[0] in Follow(text, window) && TextWalk(text, Shift(window, out[0]), out[1..]))
  }

  /** The state `lookup(window, 0)` returns holds the window's suffix bag. */
  lemma FoundSuffixes(t: Table, window: Prefix)
    requires Lookup(t, window, false).sp.Some?
    ensures multiset(Deref(t, Lookup(t, window, false).sp.value).suf) == BagOf(t, window)
  {
    BagOfIsLookup(t, window);
  }

  /** What one iteration of the loop of `generate` does: print a word after
      making some `rand()` calls, stop, or fault. */
  datatype Step = Emit(word: Word, calls: nat) | Stop | Fail(fault: Fault)

  /** One iteration of the loop of `generate` (markov.c:127-133) at `window`,
      with `w` holding `held` and `calls` calls of `rand()` made so far. */
  function GenStep(t: Table, window: Prefix, held: Option<Word>, rng: Rng, calls: nat): (r: Step)
    requires held != Some(NoWord)
    // `lookup` returns NULL exactly for a window without a state
    ensures r == Fail(NoState(window)) <==> !Present(t, window)
    // `w` is read unset exactly when the state has no suffix on the first iteration
    ensures r == Fail(Unset) <==> Present(t, window) && |BagOf(t, window)| == 0 && held.None?
    // a stop means the marker was chosen from the window's bag
    ensures r.Stop? ==> NoWord in BagOf(t, window)
    // a printed word is never the marker; it comes from the window's bag
    // after one `rand()` call per suffix, or repeats `w` when the bag is empty
    ensures r.Emit? ==> r.word != NoWord && r.calls == calls + |BagOf(t, window)|
    ensures r.Emit? && |BagOf(t, window)| > 0 ==> r.word in BagOf(t, window)
    ensures r.Emit? && |BagOf(t, window)| == 0 ==> held == Some(r.word)
    // the step stops exactly when the selection loop over the found state's
    // suffix list picks the marker, and otherwise prints the word it picks
    ensures Present(t, window) ==>
      var suf := Deref(t, Lookup(t, window, false).sp.value).suf;
      && (r.Stop? <==> Pick(suf, rng, calls, held) == Some(NoWord))
      && (r.Emit? <==> Pick(suf, rng, calls, held).Some? && Pick(suf, rng, calls, held) != Some(NoWord))
      && (r.Emit? ==> Pick(suf, rng, calls, held) == Some(r.word))
  {
    var found := Lookup(t, window, false);
    if found.sp.None? then Fail(NoState(window))
    else
      var suf := Deref(t, found.sp.value).suf;
      FoundSuffixes(t, window);
      var w := Pick(suf, rng, calls, held);
      if w.None? then Fail(Unset)
      else if w.value == NoWord then
        assert NoWord in multiset(suf);
        Stop
      else
        assert |suf| > 0 ==> w.value in multiset(suf);
        Emit(w.value, calls + |suf|)
  }

  /** The loop of `generate` from iteration `i` on (markov.c:126-141):
      `window` is `prefix`, `held` the value of `w`, and `calls` the number
      of `rand()` calls so far. The result is the printed words, or the
      fault the C code would run into. */
  function GenLoop(t: Table, nwords: int, rng: Rng, i: nat, window: Prefix,
                   held: Option<Word>, calls: nat): (r: Result<seq<Word>, Fault>)
    requires held != Some(NoWord)
    decreases nwords - i
    // with no iteration left nothing is looked up and nothing is printed
    ensures i >= nwords ==> r == Success([])
    // at most `nwords - i` words are printed
    ensures r.Success? ==> |r.value| <= if nwords > i then nwords - i else 0
    // the marker is never printed
    ensures r.Success? ==> NoWord !in r.value
    // in a populated table every printed word is a successor of its window
    ensures r.Success? && Populated(t) ==> Walk(t, window, r.value)
    // stopping early means the marker was chosen at the last window
    ensures r.Success? && |r.value| < nwords - i ==> NoWord in BagOf(t, WindowAfter(window, r.value))
  {
    if i >= nwords then Success([])
    else
      match GenStep(t, window, held, rng, calls)
      case Fail(f) => Failure(f)
      case Stop => Success([])
      case Emit(w, c) =>
        assert Populated(t) ==> w in BagOf(t, window) by {
          if Populated(t) {
            PopulatedBags(t, window);
          }
        }
        var rest := GenLoop(t, nwords, rng, i + 1, Shift(window, w), Some(w), c);
        if rest.Failure? then rest
        else
          assert ([w] + rest.value)[1..] == rest.value;
          Success([w] + rest.value)
  }

  /** `generate(nwords)` on table `t`: the all-marker window, `w` unset, no
      `rand()` calls yet. */
  function Generate(t: Table, nwords: int, rng: Rng): (r: Result<seq<Word>, Fault>)
    // a non-positive count runs no iteration: empty output, no fault
    ensures nwords <= 0 ==> r == Success([])
    ensures r.Success? ==> |r.value| <= if nwords > 0 then nwords else 0
    ensures r.Success? ==> NoWord !in r.value
    ensures r.Success? && Populated(t) ==> Walk(t, Start, r.value)
    ensures r.Success? && |r.value| < nwords ==> NoWord in BagOf(t, WindowAfter(Start, r.value))
  {
    GenLoop(t, nwords, rng, 0, Start, None, 0)
  }

  /** On a populated, closed table whose current window is stored, the loop
      never faults: `lookup` finds every window, and the non-empty suffix
      list always sets `w`. */
  lemma {:induction false} ClosedLoopSucceeds(t: Table, nwords: int, rng: Rng, i: nat, window: Prefix,
                                              held: Option<Word>, calls: nat)
    requires Populated(t) && Closed(t) && Present(t, window)
    requires held != Some(NoWord)
    ensures GenLoop(t, nwords, rng, i, window, held, calls).Success?
    decreases nwords - i
  {
    if i < nwords {
      PopulatedBags(t, window);
      var step := GenStep(t, window, held, rng, calls);
      if step.Emit? {
        ClosedStep(t, window, step.word);
        ClosedLoopSucceeds(t, nwords, rng, i + 1, Shift(window, step.word), Some(step.word), step.calls);
      }
    }
  }

  /** One step of a closed walk stays on stored windows. */
  lemma ClosedStep(t: Table, window: Prefix, x: Word)
    requires Closed(t) && x in BagOf(t, window) && x != NoWord
    ensures Present(t, Shift(window, x))
  {
  }

  /** The program as `main` runs it (markov.c:154-158): build from the
      tokens, then generate `MAXGEN` words. */
  function Run(tokens: seq<Word>, rng: Rng): (r: Result<seq<Word>, Fault>)
    // at most `MAXGEN` words, never the marker, each a successor of its window
    ensures r.Success? ==> |r.value| <= MAXGEN && NoWord !in r.value
    ensures r.Success? ==> Walk(Build(tokens), Start, r.value)
    // a short run stops at a window whose bag holds the marker
    ensures r.Success? && |r.value| < MAXGEN ==> NoWord in BagOf(Build(tokens), WindowAfter(Start, r.value))
  {
    Generate(Build(tokens), MAXGEN, rng)
  }

  /** A built table's walk is a walk through the text it was built from. */
  lemma {:induction false} BuiltWalkFollowsText(tokens: seq<Word>, window: Prefix, out: seq<Word>)
    requires Walk(Build(tokens), window, out)
    ensures TextWalk(Text(tokens), window, out)
    decreases |out|
  {
    if |out| > 0 {
      BuildRecordsFollowers(tokens, window);
      BuiltWalkFollowsText(tokens, Shift(window, out[0]), out[1..]);
    }
  }

  /** End to end: after the build protocol, generation never dereferences
      NULL nor reads an unset `w`; it prints at most `MAXGEN` words, never
      the marker, and each printed word follows its two-word window
      somewhere in the input text. A run that stops short of `MAXGEN` words
      stops at a window the marker follows in the text. */
  lemma RunSucceeds(tokens: seq<Word>, rng: Rng)
    ensures Run(tokens, rng).Success?
    ensures |Run(tokens, rng).value| <= MAXGEN
    ensures NoWord !in Run(tokens, rng).value
    ensures TextWalk(Text(tokens), Start, Run(tokens, rng).value)
    ensures |Run(tokens, rng).value| < MAXGEN ==>
      NoWord in Follow(Text(tokens), WindowAfter(Start, Run(tokens, rng).value))
  {
    var t := Build(tokens);
    BuildModelsText(tokens);
    BuildIsClosed(tokens);
    ClosedLoopSucceeds(t, MAXGEN, rng, 0, Start, None, 0);
    var out := Run(tokens, rng).value;
    BuiltWalkFollowsText(tokens, Start, out);
    BuildRecordsFollowers(tokens, WindowAfter(Start, out));
  }
}
