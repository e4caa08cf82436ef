/** The chained hash table `statetab` of markov.c:13-33 and its
    lookup-or-create operation `lookup` (markov.c:56-79). */
module StateTable {
  import opened Wrappers
  import opened Words
  import opened Hashing

  /** One table entry: a prefix and its suffix list, head first as the C list
      is traversed (new suffixes are prepended). */
  datatype State = State(pref: Prefix, suf: seq<Word>)

  /** `statetab`: `NHASH` bucket chains, each in `next` order. */
  type Table = t: seq<seq<State>> | |t| == NHASH witness seq(NHASH, _ => [])

  /** A `State *` into the table: bucket and position in its chain. */
  datatype Ref = Ref(bucket: nat, index: nat)

  /** The table as the program starts: every bucket NULL. */
  function Empty(): (t: Table)
    // no prefix is stored, and the invariants hold vacuously
    ensures Keys(t) == {}
    ensures Valid(t) && Populated(t)
  {
    seq(NHASH, _ => [])
  }

  predicate ValidRef(t: Table, r: Ref)
  {
    r.bucket < |t| && r.index < |t[r.bucket]|
  }

  function Deref(t: Table, r: Ref): State
    requires ValidRef(t, r)
  {
    t[r.bucket][r.index]
  }

  /** The inner loop of markov.c:63-65: the first position `>= i` where the
      two prefixes' words differ under `strcmp`, or `NPREF` when none does. */
  function Mismatch(a: Prefix, b: Prefix, i: nat): (r: nat)
    requires i <= NPREF
    ensures i <= r <= NPREF
    ensures forall k | i <= k < r :: a[k] == b[k]
    ensures r < NPREF ==> a[r] != b[r]
    decreases NPREF - i
  {
    if i == NPREF then NPREF
    else if a[i] != b[i] then i
    else Mismatch(a, b, i + 1)
  }

  /** `i == NPREF` at markov.c:66 holds exactly for equal prefixes: word
      order matters and every word is compared. */
  lemma MismatchDecidesEquality(a: Prefix, b: Prefix)
    ensures Mismatch(a, b, 0) == NPREF <==> a == b
  {
    if Mismatch(a, b, 0) == NPREF {
      assert a[0] == b[0] && a[1] == b[1];
    }
  }

  /** The chain walk of markov.c:62-68 from position `j`: the first state
      whose prefix equals `p`. */
  function FindIn(chain: seq<State>, p: Prefix, j: nat): (r: Option<nat>)
    requires j <= |chain|
    ensures r.Some? ==> j <= r.value < |chain| && chain[r.value].pref == p
    ensures r.Some? ==> forall k | j <= k < r.value :: chain[k].pref != p
    ensures r.None? <==> forall k | j <= k < |chain| :: chain[k].pref != p
    decreases |chain| - j
  {
    if j == |chain| then None
    else if Mismatch(p, chain[j].pref, 0) == NPREF then
      MismatchDecidesEquality(p, chain[j].pref);
      Some(j)
    else
      MismatchDecidesEquality(p, chain[j].pref);
      FindIn(chain, p, j + 1)
  }

  /** The chain search returns the first match. */
  lemma FindInIsFirst(c: seq<State>, p: Prefix, j: nat)
    requires j < |c| && c[j].pref == p
    requires forall k | 0 <= k < j :: c[k].pref != p
    ensures FindIn(c, p, 0) == Some(j)
  {
    var r := FindIn(c, p, 0);
    assert r.Some?;
    assert !(j < r.value);
  }

  /** The chain search looks only at prefixes. */
  lemma FindInSamePrefixes(c1: seq<State>, c2: seq<State>, p: Prefix)
    requires |c1| == |c2|
    requires forall k | 0 <= k < |c1| :: c1[k].pref == c2[k].pref
    ensures FindIn(c1, p, 0) == FindIn(c2, p, 0)
  {
    match FindIn(c1, p, 0)
    case None =>
    case Some(j) => FindInIsFirst(c2, p, j);
  }

  /** A state pushed on the head of a chain shifts every other match by one. */
  lemma FindInBehindHead(x: State, c: seq<State>, p: Prefix)
    requires x.pref != p
    ensures FindIn([x] + c, p, 0) == (match FindIn(c, p, 0) case None => None case Some(j) => Some(j + 1))
  {
    var c' := [x] + c;
    match FindIn(c, p, 0)
    case None =>
      forall k | 0 <= k < |c'| ensures c'[k].pref != p {
        if k > 0 { assert c'[k] == c[k - 1]; }
      }
    case Some(j) =>
      forall k | 0 <= k < j + 1 ensures c'[k].pref != p {
        if k > 0 { assert c'[k] == c[k - 1]; }
      }
      assert c'[j + 1] == c[j];
      FindInIsFirst(c', p, j + 1);
  }

  /** `lookup(p, 0)` would find a state for `p`. */
  predicate Present(t: Table, p: Prefix)
  {
    FindIn(t[Hash(p)], p, 0).Some?
  }

  /** Every state sits in the bucket of its own prefix. */
  predicate Placed(t: Table)
  {
    forall i, k | 0 <= i < |t| && 0 <= k < |t[i]| :: Hash(t[i][k].pref) == i
  }

  /** No chain holds two states with the same prefix. */
  predicate Unique(t: Table)
  {
    forall i, j, k | 0 <= i < |t| && 0 <= j < k < |t[i]| :: t[i][j].pref != t[i][k].pref
  }

  /** The table invariant kept by every operation. */
  predicate Valid(t: Table)
  {
    Placed(t) && Unique(t)
  }

  /** Every state has at least one suffix (true between calls of `add`). */
  predicate Populated(t: Table)
  {
    forall i, k | 0 <= i < |t| && 0 <= k < |t[i]| :: |t[i][k].suf| > 0
  }

  /** Every state but the one `r` points to has a suffix: what holds in the
      middle of `add`, between `lookup` and `addsuffix`. */
  predicate PopulatedExcept(t: Table, r: Ref)
  {
    forall i, k | 0 <= i < |t| && 0 <= k < |t[i]| && Ref(i, k) != r :: |t[i][k].suf| > 0
  }

  /** What `lookup` leaves behind: the (possibly grown) table and the pointer
      it returns, `None` standing for NULL. */
  datatype LookupResult = LookupResult(table: Table, sp: Option<Ref>)

  /** `lookup(prefix, create)` of markov.c:56-79. */
  function Lookup(t: Table, p: Prefix, create: bool): (r: LookupResult)
    // a returned state is the one for `p`, in `p`'s bucket
    ensures r.sp.Some? ==>
      && r.sp.value.bucket == Hash(p)
      && ValidRef(r.table, r.sp.value)
      && Deref(r.table, r.sp.value).pref == p
    // NULL exactly when nothing matches and nothing may be created
    ensures r.sp.None? <==> !create && !Present(t, p)
    // only a create of a missing prefix changes the table
    ensures !create || Present(t, p) ==> r.table == t
    // an existing state is found: the first match of the chain
    ensures Present(t, p) ==>
      forall k | 0 <= k < r.sp.value.index :: t[Hash(p)][k].pref != p
    // a create pushes one fresh state with no suffixes on the head of the
    // bucket and leaves every other bucket alone
    ensures create && !Present(t, p) ==>
      && r.sp == Some(Ref(Hash(p), 0))
      && r.table[Hash(p)] == [State(p, [])] + t[Hash(p)]
      && forall i | 0 <= i < NHASH && i != Hash(p) :: r.table[i] == t[i]
    // the table invariant is kept
    ensures Valid(t) ==> Valid(r.table)
    // the only state that may lack a suffix is the one returned
    ensures Populated(t) && r.sp.Some? ==> PopulatedExcept(r.table, r.sp.value)
  {
    var h := Hash(p);
    match FindIn(t[h], p, 0)
    case Some(j) => LookupResult(t, Some(Ref(h, j)))
    case None =>
      if create then
        PushKeepsValid(t, p);
        PushKeepsPopulated(t, h, State(p, []));
        LookupResult(t[h := [State(p, [])] + t[h]], Some(Ref(h, 0)))
      else LookupResult(t, None)
  }

  /** Pushing a state for a missing prefix on its bucket keeps the invariant. */
  lemma PushKeepsValid(t: Table, p: Prefix)
    requires !Present(t, p)
    ensures Valid(t) ==> Valid(t[Hash(p) := [State(p, [])] + t[Hash(p)]])
  {
    var h := Hash(p);
    var t': Table := t[h := [State(p, [])] + t[h]];
    if Valid(t) {
      forall i, j, k | 0 <= i < NHASH && 0 <= j < k < |t'[i]|
        ensures t'[i][j].pref != t'[i][k].pref
      {
        if i == h && j == 0 {
          assert t'[i][k] == t[h][k - 1];
        }
      }
    }
  }

  /** Pushing a state on a chain leaves every other state with its suffixes. */
  lemma PushKeepsPopulated(t: Table, h: nat, st: State)
    requires h < NHASH
    ensures Populated(t) ==> PopulatedExcept(t[h := [st] + t[h]], Ref(h, 0))
  {
    var t': Table := t[h := [st] + t[h]];
    if Populated(t) {
      forall i, k | 0 <= i < NHASH && 0 <= k < |t'[i]| && Ref(i, k) != Ref(h, 0)
        ensures |t'[i][k].suf| > 0
      {
        if i == h {
          assert t'[i][k] == t[h][k - 1];
        }
      }
    }
  }

  /** A create followed by a plain lookup of the same prefix finds the very
      state the create returned: the table holds one state per prefix. */
  lemma CreateThenFind(t: Table, p: Prefix)
    ensures Lookup(Lookup(t, p, true).table, p, false).sp == Lookup(t, p, true).sp
  {
    if !Present(t, p) {
      var t1 := Lookup(t, p, true).table;
      FindInIsFirst(t1[Hash(p)], p, 0);
    }
  }

  /** Under the invariant two states with the same prefix are the same state. */
  lemma AtMostOneStatePerPrefix(t: Table, r1: Ref, r2: Ref)
    requires Valid(t) && ValidRef(t, r1) && ValidRef(t, r2)
    requires Deref(t, r1).pref == Deref(t, r2).pref
    ensures r1 == r2
  {
  }

  /** The suffix bag a chain holds for `p`: the multiset of the first
      matching state's suffix list, empty when none matches. */
  function ChainBag(c: seq<State>, p: Prefix): multiset<Word>
  {
    match FindIn(c, p, 0)
    case None => multiset{}
    case Some(j) => multiset(c[j].suf)
  }

  /** The suffix bag of `p`: what the state `lookup(p, 0)` returns holds,
      empty when it returns NULL. */
  function BagOf(t: Table, p: Prefix): multiset<Word>
  {
    ChainBag(t[Hash(p)], p)
  }

  /** `BagOf` is read through `lookup(p, 0)`. */
  lemma BagOfIsLookup(t: Table, p: Prefix)
    ensures Lookup(t, p, false).sp.None? ==> BagOf(t, p) == multiset{}
    ensures Lookup(t, p, false).sp.Some? ==>
      BagOf(t, p) == multiset(Deref(t, Lookup(t, p, false).sp.value).suf)
  {
  }

  /** The prefixes that own a state. */
  function Keys(t: Table): set<Prefix>
  {
    set i, k | 0 <= i < |t| && 0 <= k < |t[i]| :: t[i][k].pref
  }

  /** The abstract table: each stored prefix mapped to its suffix bag, with
      bucket layout and chain order forgotten. */
  function Abs(t: Table): map<Prefix, multiset<Word>>
  {
    map p | p in Keys(t) :: BagOf(t, p)
  }

  /** The bag of `p` in an abstract table, empty for a missing key. */
  function Get(m: map<Prefix, multiset<Word>>, p: Prefix): multiset<Word>
  {
    if p in m then m[p] else multiset{}
  }

  /** A create adds exactly the looked-up prefix to the stored ones. */
  lemma LookupKeys(t: Table, p: Prefix)
    ensures Keys(Lookup(t, p, true).table) == Keys(t) + {p}
  {
    if Present(t, p) {
      PresentIsKey(t, p);
    } else {
      PushKeys(t, Hash(p), State(p, []));
    }
  }

  /** Pushing a state on a chain adds its prefix to the stored ones. */
  lemma PushKeys(t: Table, h: nat, st: State)
    requires h < NHASH
    ensures Keys(t[h := [st] + t[h]]) == Keys(t) + {st.pref}
  {
    var t': Table := t[h := [st] + t[h]];
    forall q | q in Keys(t') ensures q in Keys(t) + {st.pref} {
      var i, k :| 0 <= i < NHASH && 0 <= k < |t'[i]| && t'[i][k].pref == q;
      if i == h && k > 0 {
        assert t[h][k - 1].pref == q;
      } else if i != h {
        assert t[i][k].pref == q;
      }
    }
    forall q | q in Keys(t) + {st.pref} ensures q in Keys(t') {
      if q == st.pref {
        assert t'[h][0].pref == q;
      } else {
        var i, k :| 0 <= i < NHASH && 0 <= k < |t[i]| && t[i][k].pref == q;
        if i == h {
          assert t'[h][k + 1].pref == q;
        } else {
          assert t'[i][k].pref == q;
        }
      }
    }
  }

  /** A prefix `lookup` finds owns a state. */
  lemma PresentIsKey(t: Table, p: Prefix)
    requires Present(t, p)
    ensures p in Keys(t)
  {
    var k := FindIn(t[Hash(p)], p, 0).value;
    assert t[Hash(p)][k].pref in Keys(t);
  }

  /** Under the invariant a prefix owns a state exactly when `lookup` finds it. */
  lemma KeysArePresent(t: Table, p: Prefix)
    requires Valid(t)
    ensures p in Keys(t) <==> Present(t, p)
  {
    if p in Keys(t) {
      var i, k :| 0 <= i < |t| && 0 <= k < |t[i]| && t[i][k].pref == p;
      assert Hash(p) == i;
    } else if Present(t, p) {
      PresentIsKey(t, p);
    }
  }

  /** A prefix without a state has an empty bag, whatever the layout. */
  lemma NonKeyBagEmpty(t: Table, p: Prefix)
    requires p !in Keys(t)
    ensures BagOf(t, p) == multiset{}
  {
    if Present(t, p) {
      PresentIsKey(t, p);
    }
  }

  /** The bag of `p` read off the abstract table. */
  lemma BagOfIsAbs(t: Table, p: Prefix)
    ensures BagOf(t, p) == Get(Abs(t), p)
  {
    if p !in Keys(t) {
      NonKeyBagEmpty(t, p);
    }
  }

  /** In a populated table a prefix has a non-empty bag exactly when it owns a state. */
  lemma PopulatedBags(t: Table, p: Prefix)
    requires Populated(t)
    ensures |BagOf(t, p)| > 0 <==> Present(t, p)
  {
  }
}
