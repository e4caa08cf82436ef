/** Model construction: `add` and `addsuffix` (markov.c:93-111), the token
    loop of `build` (markov.c:82-90) and the protocol of `main`
    (markov.c:154-157): marker-filled window, one `add` per token, and a final
    `add` of the marker. */
module Builder {
  import opened Wrappers
  import opened Words
  import opened Hashing
  import opened StateTable

  /** The builder's state: the table and the caller's `prefix` array. */
  datatype BuildState = BuildState(table: Table, window: Prefix)

  /** `addsuffix` (markov.c:104-111): prepend `s` to the suffix list of the
      state `r` points to. */
  function AddSuffix(t: Table, r: Ref, s: Word): (t2: Table)
    requires ValidRef(t, r)
    // the touched state keeps its prefix and gains `s` at the head of its list
    ensures ValidRef(t2, r) && Deref(t2, r) == State(Deref(t, r).pref, [s] + Deref(t, r).suf)
    // no chain grows or shrinks, and every other state is unchanged
    ensures forall i | 0 <= i < NHASH :: |t2[i]| == |t[i]|
    ensures forall i, k | 0 <= i < NHASH && 0 <= k < |t[i]| && Ref(i, k) != r :: t2[i][k] == t[i][k]
  {
    var st := Deref(t, r);
    t[r.bucket := t[r.bucket][r.index := State(st.pref, [s] + st.suf)]]
  }

  /** `addsuffix` touches no prefix: the stored prefixes, the chain order
      and the invariant stay, and the touched state gains a suffix. */
  lemma AddSuffixKeepsShape(t: Table, r: Ref, s: Word)
    requires ValidRef(t, r)
    ensures FindIn(AddSuffix(t, r, s)[r.bucket], Deref(t, r).pref, 0) == FindIn(t[r.bucket], Deref(t, r).pref, 0)
    ensures Valid(t) ==> Valid(AddSuffix(t, r, s))
    ensures PopulatedExcept(t, r) ==> Populated(AddSuffix(t, r, s))
  {
    var t2 := AddSuffix(t, r, s);
    var h := r.bucket;
    assert forall k | 0 <= k < |t[h]| :: t2[h][k].pref == t[h][k].pref;
    FindInSamePrefixes(t[h], t2[h], Deref(t, r).pref);
    AddSuffixKeepsValid(t, r, s);
    AddSuffixPopulates(t, r, s);
  }

  /** `addsuffix` moves no state, so the table invariant stays. */
  lemma AddSuffixKeepsValid(t: Table, r: Ref, s: Word)
    requires ValidRef(t, r)
    ensures Valid(t) ==> Valid(AddSuffix(t, r, s))
  {
    var t2 := AddSuffix(t, r, s);
    if Valid(t) {
      forall i, k | 0 <= i < NHASH && 0 <= k < |t2[i]| ensures t2[i][k].pref == t[i][k].pref {
      }
    }
  }

  /** After `addsuffix` the touched state has a suffix too. */
  lemma AddSuffixPopulates(t: Table, r: Ref, s: Word)
    requires ValidRef(t, r)
    ensures PopulatedExcept(t, r) ==> Populated(AddSuffix(t, r, s))
  {
    var t2 := AddSuffix(t, r, s);
    if PopulatedExcept(t, r) {
      forall i, k | 0 <= i < NHASH && 0 <= k < |t2[i]| ensures |t2[i][k].suf| > 0 {
        if Ref(i, k) != r {
          assert t2[i][k] == t[i][k];
        }
      }
    }
  }

  /** `addsuffix` stores no new prefix and drops none. */
  lemma AddSuffixKeys(t: Table, r: Ref, s: Word)
    requires ValidRef(t, r)
    ensures Keys(AddSuffix(t, r, s)) == Keys(t)
  {
    var t2 := AddSuffix(t, r, s);
    forall q | q in Keys(t2) ensures q in Keys(t) {
      var i, k :| 0 <= i < NHASH && 0 <= k < |t2[i]| && t2[i][k].pref == q;
      assert t[i][k].pref == q;
    }
    forall q | q in Keys(t) ensures q in Keys(t2) {
      var i, k :| 0 <= i < NHASH && 0 <= k < |t[i]| && t[i][k].pref == q;
      assert t2[i][k].pref == q;
    }
  }

  /** `add` (markov.c:93-101): find or create the state of the window, record
      `s` as one more successor of it, then slide the window. */
  function Add(b: BuildState, s: Word): (r: BuildState)
    ensures r.window == Shift(b.window, s)
    ensures Present(r.table, b.window)
    ensures Valid(b.table) ==> Valid(r.table)
    ensures Populated(b.table) ==> Populated(r.table)
  {
    var found := Lookup(b.table, b.window, true);
    var t := AddSuffix(found.table, found.sp.value, s);
    AddSuffixKeepsShape(found.table, found.sp.value, s);
    BuildState(t, Shift(b.window, s))
  }

  /** Prepending `s` to the suffix list of the first state for `w`. */
  lemma ChainBagUpdate(c: seq<State>, j: nat, s: Word, p: Prefix)
    requires j < |c| && FindIn(c, c[j].pref, 0) == Some(j)
    ensures ChainBag(c[j := State(c[j].pref, [s] + c[j].suf)], p)
      == ChainBag(c, p) + (if p == c[j].pref then multiset{s} else multiset{})
  {
    var c' := c[j := State(c[j].pref, [s] + c[j].suf)];
    FindInSamePrefixes(c, c', p);
    if p == c[j].pref {
      assert multiset([s] + c[j].suf) == multiset{s} + multiset(c[j].suf);
    }
  }

  /** Pushing a state for an absent `w` with the single suffix `s`. */
  lemma ChainBagPush(c: seq<State>, w: Prefix, s: Word, p: Prefix)
    requires FindIn(c, w, 0).None?
    ensures ChainBag([State(w, [s])] + c, p)
      == ChainBag(c, p) + (if p == w then multiset{s} else multiset{})
  {
    if p != w {
      FindInBehindHead(State(w, [s]), c, p);
    }
  }

  /** `add` raises the count of `s` in the bag of the window's state by
      exactly one and leaves the bag of every other prefix as it was. */
  lemma AddChangesOneBag(b: BuildState, s: Word, p: Prefix)
    ensures BagOf(Add(b, s).table, p)
      == BagOf(b.table, p) + (if p == b.window then multiset{s} else multiset{})
  {
    var t := b.table;
    var w := b.window;
    var h := Hash(w);
    var found := Lookup(t, w, true);
    var ref := found.sp.value;
    var t2 := Add(b, s).table;
    if Hash(p) != h {
      assert t2[Hash(p)] == t[Hash(p)];
    } else {
      var c := t[h];
      match FindIn(c, w, 0)
      case Some(j) =>
        assert ref.index == j;
        assert t2[h] == c[j := State(c[j].pref, [s] + c[j].suf)];
        ChainBagUpdate(c, j, s, p);
      case None =>
        var c1 := [State(w, [])] + c;
        assert found.table[h] == c1;
        assert t2[h] == c1[0 := State(w, [s] + [])];
        assert [s] + [] == [s];
        assert c1[0 := State(w, [s])] == [State(w, [s])] + c;
        ChainBagPush(c, w, s, p);
    }
  }

  /** `add` stores at most one new prefix: the window. */
  lemma AddKeys(b: BuildState, s: Word)
    ensures Keys(Add(b, s).table) == Keys(b.table) + {b.window}
  {
    var found := Lookup(b.table, b.window, true);
    LookupKeys(b.table, b.window);
    AddSuffixKeys(found.table, found.sp.value, s);
  }

  /** The abstract step: one more occurrence of `s` in the bag of `p`. */
  function AbsAdd(m: map<Prefix, multiset<Word>>, p: Prefix, s: Word): map<Prefix, multiset<Word>>
  {
    m[p := Get(m, p) + multiset{s}]
  }

  /** A table step that adds the window to the keys and `s` to the window's
      bag, and nothing else, is the abstract step. */
  lemma AbsOfStep(t: Table, t2: Table, w: Prefix, s: Word)
    requires Keys(t2) == Keys(t) + {w}
    requires forall q: Prefix :: BagOf(t2, q) == BagOf(t, q) + (if q == w then multiset{s} else multiset{})
    ensures Abs(t2) == AbsAdd(Abs(t), w, s)
  {
    forall q | q in Abs(t2) ensures Abs(t2)[q] == AbsAdd(Abs(t), w, s)[q] {
      BagOfIsAbs(t, q);
    }
  }

  /** The bucket table refines the map from prefixes to suffix bags: a
      concrete `add` is the abstract step on the abstraction. */
  lemma AddRefinesAbstract(b: BuildState, s: Word)
    ensures Abs(Add(b, s).table) == AbsAdd(Abs(b.table), b.window, s)
  {
    var t2 := Add(b, s).table;
    AddKeys(b, s);
    forall q: Prefix
      ensures BagOf(t2, q) == BagOf(b.table, q) + (if q == b.window then multiset{s} else multiset{})
    {
      AddChangesOneBag(b, s, q);
    }
    AbsOfStep(b.table, t2, b.window, s);
  }

  /** Reference definition of what the build records: in the full text, the
      words that follow an occurrence of `p`, one per occurrence. */
  function Follow(text: seq<Word>, p: Prefix): multiset<Word>
    decreases |text|
  {
    if |text| <= NPREF then multiset{}
    else
      var n := |text| - 1;
      Follow(text[..n], p) + (if text[n - NPREF..n] == p then multiset{text[n]} else multiset{})
  }

  /** Slicing a prefix of `s` inside its bounds is slicing `s`. */
  lemma TakeSlice(s: seq<Word>, n: nat, i: nat, j: nat)
    requires i <= j <= n <= |s|
    ensures s[..n][i..j] == s[i..j]
  {
  }

  /** Appending one word leaves the old text and its last window in place. */
  lemma SnocWindow(text: seq<Word>, s: Word)
    requires |text| >= NPREF
    ensures (text + [s])[..|text|] == text
    ensures (text + [s])[|text| - NPREF..|text|] == text[|text| - NPREF..]
    ensures (text + [s])[|text| + 1 - NPREF..] == Shift(text[|text| - NPREF..], s)
  {
  }

  /** Reading the first token and then the rest reads all the tokens. */
  lemma AppendFirst(text: seq<Word>, tokens: seq<Word>)
    requires |tokens| > 0
    ensures text + [tokens[0]] + tokens[1..] == text + tokens
  {
  }

  /** Sliding the window over the word after an occurrence of `p`. */
  lemma SlideAt(text: seq<Word>, k: int, p: Prefix, x: Word)
    requires FollowsAt(text, k, p, x)
    ensures text[k + 1 - NPREF..k + 1] == Shift(p, x)
  {
  }

  /** Position `k` of `text` holds `x` right after an occurrence of `p`. */
  predicate FollowsAt(text: seq<Word>, k: int, p: Prefix, x: Word)
  {
    NPREF <= k < |text| && text[k - NPREF..k] == p && text[k] == x
  }

  /** Every word in `Follow(text, p)` sits at some position of the text
      right after an occurrence of `p`. */
  lemma {:induction false} FollowSound(text: seq<Word>, p: Prefix, x: Word) returns (k: int)
    requires x in Follow(text, p)
    ensures FollowsAt(text, k, p, x)
    decreases |text|
  {
    var n := |text| - 1;
    var init := text[..n];
    if x in Follow(init, p) {
      k := FollowSound(init, p, x);
      TakeSlice(text, n, k - NPREF, k);
    } else {
      k := n;
    }
  }

  /** Conversely every word right after an occurrence of `p` is in `Follow(text, p)`. */
  lemma {:induction false} FollowComplete(text: seq<Word>, p: Prefix, x: Word, k: int)
    requires FollowsAt(text, k, p, x)
    ensures x in Follow(text, p)
    decreases |text|
  {
    var n := |text| - 1;
    var init := text[..n];
    FollowLast(text, p);
    if k < n {
      TakeSlice(text, n, k - NPREF, k);
      FollowComplete(init, p, x, k);
    }
  }

  /** The last word of the text follows its own window. */
  lemma FollowLast(text: seq<Word>, p: Prefix)
    requires |text| > NPREF
    ensures Follow(text[..|text| - 1], p) <= Follow(text, p)
    ensures text[|text| - 1 - NPREF..|text| - 1] == p ==> text[|text| - 1] in Follow(text, p)
  {
  }

  /** One more word adds one follower, to the last window of the text. */
  lemma FollowSnoc(text: seq<Word>, s: Word, p: Prefix)
    requires |text| >= NPREF
    ensures Follow(text + [s], p)
      == Follow(text, p) + (if text[|text| - NPREF..] == p then multiset{s} else multiset{})
  {
    SnocWindow(text, s);
  }

  /** The abstract table `m` holds, for every prefix, the bag of its
      followers in `text`. */
  ghost predicate Records(m: map<Prefix, multiset<Word>>, text: seq<Word>)
  {
    forall p: Prefix :: Get(m, p) == Follow(text, p)
  }

  /** Reading one more word `s` is the abstract step at the last window. */
  lemma RecordsStep(m: map<Prefix, multiset<Word>>, text: seq<Word>, s: Word)
    requires Records(m, text) && |text| >= NPREF
    ensures Records(AbsAdd(m, text[|text| - NPREF..], s), text + [s])
  {
    var text' := text + [s];
    var w := text[|text| - NPREF..];
    forall p: Prefix ensures Get(AbsAdd(m, w, s), p) == Follow(text', p) {
      FollowSnoc(text, s, p);
    }
  }

  /** The full text the build reads: the marker-filled start window, the
      tokens, and the final marker. */
  function Text(tokens: seq<Word>): seq<Word>
  {
    Start + tokens + [NoWord]
  }

  /** The token loop of `build`: one `add` per token, in order. */
  function BuildFrom(b: BuildState, tokens: seq<Word>): (r: BuildState)
    decreases |tokens|
    // the window ends up as the last two words of the old window and the tokens
    ensures r.window == (b.window + tokens)[|tokens|..]
    // the invariant and the every-state-has-a-suffix property are kept
    ensures Valid(b.table) ==> Valid(r.table)
    ensures Populated(b.table) ==> Populated(r.table)
  {
    if |tokens| == 0 then b
    else
      ShiftSlides(b.window, tokens);
      BuildFrom(Add(b, tokens[0]), tokens[1..])
  }

  /** The last two of the old window and the tokens are the last two of the
      shifted window and the remaining tokens. */
  lemma ShiftSlides(w: Prefix, tokens: seq<Word>)
    requires |tokens| > 0
    ensures (Shift(w, tokens[0]) + tokens[1..])[|tokens| - 1..] == (w + tokens)[|tokens|..]
  {
  }

  /** The build protocol of `main` (markov.c:154-157). */
  function Build(tokens: seq<Word>): (t: Table)
    // the built table satisfies the invariant, and every state has a suffix
    ensures Valid(t) && Populated(t)
  {
    Add(BuildFrom(BuildState(Empty(), Start), tokens), NoWord).table
  }

  /** `b` is what the build leaves after reading `text`. */
  ghost predicate Models(b: BuildState, text: seq<Word>)
  {
    && Valid(b.table)
    && Populated(b.table)
    && |text| >= NPREF
    && b.window == text[|text| - NPREF..]
    && Records(Abs(b.table), text)
  }

  lemma EmptyModelsStart()
    ensures Models(BuildState(Empty(), Start), Start)
  {
    assert Keys(Empty()) == {};
  }

  /** One `add` extends the text read by one word. */
  lemma AddExtendsText(b: BuildState, text: seq<Word>, s: Word)
    requires Models(b, text)
    ensures Models(Add(b, s), text + [s])
  {
    SnocWindow(text, s);
    AddRefinesAbstract(b, s);
    RecordsStep(Abs(b.table), text, s);
  }

  lemma {:induction false} BuildFromExtendsText(b: BuildState, text: seq<Word>, tokens: seq<Word>)
    requires Models(b, text)
    ensures Models(BuildFrom(b, tokens), text + tokens)
    decreases |tokens|
  {
    if |tokens| == 0 {
      assert text + tokens == text;
    } else {
      var b1 := Add(b, tokens[0]);
      var text1 := text + [tokens[0]];
      AddExtendsText(b, text, tokens[0]);
      BuildFromExtendsText(b1, text1, tokens[1..]);
      AppendFirst(text, tokens);
    }
  }

  /** The built table is valid and populated, and its abstraction records
      exactly the followers of every prefix in the text. */
  lemma BuildModelsText(tokens: seq<Word>)
    ensures Valid(Build(tokens)) && Populated(Build(tokens))
    ensures Records(Abs(Build(tokens)), Text(tokens))
  {
    var init := BuildState(Empty(), Start);
    EmptyModelsStart();
    BuildFromExtendsText(init, Start, tokens);
    AddExtendsText(BuildFrom(init, tokens), Start + tokens, NoWord);
  }

  /** The bag of each prefix in the built table is exactly the multiset of
      words that follow it in the text. */
  lemma BuildRecordsFollowers(tokens: seq<Word>, p: Prefix)
    ensures BagOf(Build(tokens), p) == Follow(Text(tokens), p)
  {
    BuildModelsText(tokens);
    BagOfIsAbs(Build(tokens), p);
  }

  /** Every non-marker successor leads to a prefix that owns a state, so a
      walk that follows recorded transitions never meets a missing state. */
  ghost predicate Closed(t: Table)
  {
    forall p: Prefix, x: Word :: x in BagOf(t, p) && x != NoWord ==> Present(t, Shift(p, x))
  }

  /** A populated table whose bags are the followers in a text that ends
      with the marker is closed: a non-marker follower is not the last word,
      so the window it completes is followed by the next word. */
  lemma FollowersClosed(t: Table, text: seq<Word>, p: Prefix, x: Word)
    requires Populated(t) && |text| > 0 && text[|text| - 1] == NoWord
    requires forall q: Prefix :: BagOf(t, q) == Follow(text, q)
    requires x in BagOf(t, p) && x != NoWord
    ensures Present(t, Shift(p, x))
  {
    FollowerIsFollowed(text, p, x);
    PopulatedBags(t, Shift(p, x));
  }

  /** In a text ending with the marker, a non-marker follower of `p` is
      itself followed: the window it completes occurs before the end. */
  lemma FollowerIsFollowed(text: seq<Word>, p: Prefix, x: Word)
    requires |text| > 0 && text[|text| - 1] == NoWord
    requires x in Follow(text, p) && x != NoWord
    ensures |Follow(text, Shift(p, x))| > 0
  {
    var k := FollowSound(text, p, x);
    assert k + 1 < |text|;
    SlideAt(text, k, p, x);
    FollowComplete(text, Shift(p, x), text[k + 1], k + 1);
  }

  /** Build closure: the table left by the build protocol is closed and holds
      the all-marker start prefix. No assumption on the tokens is needed: the
      only transition without a successor state is the final one, and its
      successor is the marker. */
  lemma BuildIsClosed(tokens: seq<Word>)
    ensures Closed(Build(tokens))
    ensures Present(Build(tokens), Start)
  {
    var t := Build(tokens);
    var text := Text(tokens);
    BuildModelsText(tokens);
    forall q: Prefix ensures BagOf(t, q) == Follow(text, q) {
      BuildRecordsFollowers(tokens, q);
    }
    assert text[|text| - 1] == NoWord;
    forall p: Prefix, x: Word | x in BagOf(t, p) && x != NoWord
      ensures Present(t, Shift(p, x))
    {
      FollowersClosed(t, text, p, x);
    }
    assert text[0..2] == Start;
    FollowComplete(text, Start, text[2], 2);
    PopulatedBags(t, Start);
  }

  /** The content of the built table depends only on the tokens: the abstract
      table maps exactly the prefixes with a follower in the text, each to
      its bag of followers, whatever the bucket layout. */
  lemma BuildContentIsFollowRelation(tokens: seq<Word>, p: Prefix)
    ensures p in Abs(Build(tokens)) <==> |Follow(Text(tokens), p)| > 0
    ensures p in Abs(Build(tokens)) ==> Abs(Build(tokens))[p] == Follow(Text(tokens), p)
  {
    var t := Build(tokens);
    BuildModelsText(tokens);
    BuildRecordsFollowers(tokens, p);
    KeysArePresent(t, p);
    PopulatedBags(t, p);
  }
}
