# An order-2 Markov-chain text generator, modelled in Dafny

This project models `markov.c`, a Markov-chain text generator with a
two-word prefix. It leaves out the program's I/O.

The build reads whitespace-separated words. It starts from a window holding
two copies of the marker `"\n"` (`NOWORD`), and for every word it:

- records the word as one more successor of the current two-word window,
  in a chained hash table of states (`statetab`, `NHASH` = 4093 buckets);
- slides the window.

At the end it records the marker as the successor of the last window.

Generation starts again from the all-marker window and runs at most `nwords`
steps. Each step:

- looks up the state of the window;
- picks one of its suffixes by size-1 reservoir sampling (`rand() % ++nmatch == 0`);
- stops if the pick is the marker, and otherwise prints the word and slides the window.

The model is functional and follows the C code branch by branch.

- **Words** are byte sequences (`seq<bv8>`) compared by content. `strcmp`
  and the `strdup`ed copies have value semantics, so nothing is lost.
- **Prefixes** are sequences of exactly `NPREF` = 2 words.
- **`hash`** (`Hashing`) folds `h := 31*h + byte` over all bytes of both
  words. It reduces modulo 2^32 at every step, because `h` is an `unsigned
  int`, and modulo `NHASH` at the end.
- **`statetab`** (`StateTable`) is a sequence of `NHASH` chains in `next`
  order. A `State *` is a `Ref` (bucket, position).
- **`lookup`** walks the chain of the prefix's bucket and compares word by
  word, stopping at the first mismatch, as the `strcmp` loop does. On a miss
  with `create` set, it pushes a fresh state with no suffixes on the head of
  that bucket. A NULL result is `None`.
- **`add` and `addsuffix`** (`Builder`) prepend to the suffix list and then
  slide the window. `Build` is the protocol of `main`: the marker-filled
  window, one `add` per token, and a final `add` of the marker.
- **`generate`** (`Generator`) takes `rand()` as an input function `rng`,
  where `rng(n)` is the value of the `n`-th call.
  - The C code never resets `w` between iterations. The model therefore
    carries the held word from one step to the next, and an empty suffix
    list repeats the previous word. For this reason the walk property of
    `GenLoop` (each printed word is in its window's bag) is stated for
    tables where every state has a suffix, which is what the build leaves.
  - Two behaviours of the C code are undefined: dereferencing a NULL state
    pointer (markov.c:127-129) and reading `w` before it is ever set
    (markov.c:132). The model returns these as `Fault` values.

The proofs relate the concrete table to two reference views.

- **Abstract view.** `Abs` maps each stored prefix to the multiset of its
  suffixes. A concrete `add` is one abstract step on this view.
- **Text view.** `Follow(text, p)` is the multiset of the words that follow
  an occurrence of `p` in the text.

The main results follow from these two views.

- **The built table is the follower relation.** After the build, every
  prefix's bag is its `Follow` bag over the text: the two start markers, the
  tokens, then the final marker.
- **The built table is closed.** Every non-marker successor leads to a
  stored prefix. This holds for every token sequence, even one that contains
  the marker: the only transition whose window has no successor is the
  final one, and that transition's word is the marker.
- **Generation never faults after a build.** `RunSucceeds` shows that it
  prints at most `MAXGEN` words and never the marker. Each word it prints
  follows its two-word window somewhere in the marker-padded text (`Text`):
  the two start markers, the input words, then the final marker.

## Model

| member | source | states |
|---|---|---|
| Words.Shift | markov.c:99-100 | the new window holds the old window's later words in order and the new word last |
| Hashing.Hash | markov.c:38-51 | the bucket index is below `NHASH` |
| Hashing.ComputeHash | markov.c:46-50 | the nested byte loop, with the 32-bit wrap after every step, computes `Hash` |
| Hashing.FoldBytesIsHornerModulo | markov.c:49 | wrapping modulo 2^32 after every step equals computing the exact polynomial and wrapping once at the end |
| Hashing.HashIsPolynomial | markov.c:46-50 | the bucket is the exact polynomial `31*h + byte` over the concatenated bytes, taken modulo 2^32 and then modulo `NHASH` |
| Hashing.HashUpToIsFoldOfConcat | markov.c:47-49 | hashing word after word is one fold over the concatenated bytes |
| Hashing.SameBytesSameBucket | markov.c:46-50 | prefixes with the same concatenated bytes land in the same bucket |
| Hashing.SplitWordsCollide | markov.c:46-50 | the distinct prefixes ("ab","c") and ("a","bc") share a bucket, so the bucket alone cannot identify a prefix |
| StateTable.Empty | markov.c:33 | the zeroed table stores no prefix and satisfies the table invariant and the every-state-has-a-suffix property |
| StateTable.Mismatch | markov.c:63-65 | the result is the first position whose words differ, with all earlier words equal, or `NPREF` when none differs |
| StateTable.MismatchDecidesEquality | markov.c:63-66 | the loop reaches `i == NPREF` exactly when the two prefixes are equal word for word and in order |
| StateTable.FindIn | markov.c:62-68 | the walk returns the first position whose prefix equals the key, and none exactly when no state in the chain has that prefix |
| StateTable.Lookup | markov.c:56-79 | a returned state has the key's prefix and sits in the key's bucket, at the first match; NULL exactly when the prefix is absent and `create` is off; without a create the table is unchanged; a create pushes one state with the key and no suffixes on the head of the key's bucket and leaves every other bucket alone; the table invariant is kept |
| StateTable.PushKeepsValid | markov.c:70-77 | pushing a state for an absent prefix keeps every state in its own bucket and keeps each prefix at most once |
| StateTable.PushKeepsPopulated | markov.c:74-76 | after the push, only the new state may lack a suffix |
| StateTable.CreateThenFind | markov.c:61-77 | a plain lookup after a create finds the very state the create returned |
| StateTable.AtMostOneStatePerPrefix | markov.c:61-68 | under the invariant, two states with the same prefix are the same state |
| StateTable.LookupKeys | markov.c:70-77 | a create adds exactly the key to the set of stored prefixes |
| StateTable.PushKeys | markov.c:75-76 | pushing on a chain adds exactly the new state's prefix to the stored prefixes |
| StateTable.KeysArePresent | markov.c:61-68 | under the invariant, a prefix is stored exactly when lookup finds it |
| StateTable.BagOfIsLookup | markov.c:127-129 | the suffix bag of a prefix is the suffix list of the state that lookup returns, or empty on NULL |
| StateTable.BagOfIsAbs | markov.c:15-23 | the bag read through the table agrees with the abstract map, and a missing key has an empty bag |
| StateTable.PopulatedBags | markov.c:96-97 | when every state has a suffix, a prefix has a non-empty bag exactly when it is stored |
| Builder.AddSuffix | markov.c:104-111 | the touched state keeps its prefix and gets the new suffix at the head of its list; every chain keeps its length and every other state is unchanged |
| Builder.AddSuffixKeepsShape | markov.c:104-111 | `addsuffix` moves no state, so the chain search for the touched prefix and the table invariant are unchanged; if only the touched state lacked a suffix, afterwards every state has one |
| Builder.AddSuffixKeys | markov.c:104-111 | `addsuffix` neither adds nor drops a stored prefix |
| Builder.Add | markov.c:93-101 | the new window is the old one shifted by the suffix; the old window is stored afterwards; the invariant and the every-state-has-a-suffix property are kept |
| Builder.AddChangesOneBag | markov.c:93-111 | `add` raises the count of the suffix in the old window's bag by exactly one and leaves every other prefix's bag unchanged |
| Builder.AddKeys | markov.c:93-97 | `add` stores exactly one more prefix, the old window, if it was not yet stored |
| Builder.AddRefinesAbstract | markov.c:93-111 | the abstraction of the table after `add` is the abstract step, one more occurrence of the suffix for the window |
| Builder.RecordsStep | markov.c:93-101 | reading one more word is the abstract step at the text's last window |
| Builder.BuildFrom | markov.c:88-89 | after one `add` per token, the window is the last two words of the old window followed by the tokens; the table invariant and the every-state-has-a-suffix property are kept |
| Builder.Build | markov.c:154-157 | the table left by the build protocol satisfies the invariant, and every state in it has a suffix |
| Builder.BuildFromExtendsText | markov.c:88-89 | after the token loop, the table is valid, every state has a suffix, the window is the last two words read, and the abstraction maps each prefix to its followers in the text read |
| Builder.BuildModelsText | markov.c:154-157 | after the build protocol the table is valid, every state has a suffix, and the abstraction is the follower relation of the text |
| Builder.BuildRecordsFollowers | markov.c:154-157 | after the build, each prefix's bag is exactly the multiset of words that follow it in the text |
| Builder.FollowerIsFollowed | markov.c:157 | in a text ending with the marker, the window completed by a non-marker follower is itself followed by some word |
| Builder.BuildIsClosed | markov.c:154-157 | after the build, every non-marker successor of a prefix leads to a stored prefix, and the all-marker start prefix is stored |
| Builder.BuildContentIsFollowRelation | markov.c:154-157 | a prefix is a key of the abstract table exactly when it has a follower in the text, and its value is that bag, whatever the bucket layout |
| Generator.ScanNoHit | markov.c:129-131 | when no visited suffix's `rand()` call hits, the loop leaves `w` as it was |
| Generator.ScanLastHit | markov.c:129-131 | when some call hits, the loop ends holding the suffix of the last hit, since a later hit overwrites `w` |
| Generator.LastHit | markov.c:130 | a last hit always exists, since the first suffix hits whatever `rand()` returns |
| Generator.Pick | markov.c:128-131 | an empty list leaves `w` unchanged; otherwise the pick is the suffix at the last position whose `rand()` call hits, hence a member of the list; a single suffix is always picked |
| Generator.SelectSuffix | markov.c:128-131 | the `nmatch` loop picks what `Pick` specifies and makes one `rand()` call per suffix |
| Generator.ScanSuffixes | markov.c:128-131 | the `nmatch` loop, testing `rand() % ++nmatch == 0` once per suffix, computes the selection loop from the first suffix and makes one `rand()` call per suffix |
| Generator.GenStep | markov.c:127-133 | the step faults on NULL exactly when the window is not stored, and reads `w` unset exactly when the state has no suffix and `w` was never set; a stop means the marker is in the window's bag; a printed word is not the marker and comes from the window's bag, or repeats `w` when the bag is empty; on a stored window the step stops exactly when the `rand()`-driven pick over the found state's suffix list is the marker, and otherwise prints that pick |
| Generator.GenLoop | markov.c:126-141 | with no iteration left the result is the empty output and no fault; at most `nwords - i` words are printed and never the marker; in a table where every state has a suffix, each word is a successor of its window; a short output ends at a window whose bag holds the marker |
| Generator.Generate | markov.c:114-142 | from the all-marker window: when `nwords <= 0`, the empty output and no fault; at most `nwords` words, never the marker, a walk through the table, and an early stop only at a window whose bag holds the marker |
| Generator.Run | markov.c:154-158 | a completed run prints at most `MAXGEN` words, never the marker, each a successor of its window in the built table, and a short run ends at a window whose bag holds the marker |
| Generator.ClosedLoopSucceeds | markov.c:126-141 | on a closed table where every state has a suffix, starting from a stored window, the loop never faults |
| Generator.BuiltWalkFollowsText | markov.c:139-140 | a walk through the built table is a walk through the input text |
| Generator.RunSucceeds | markov.c:154-158 | build then generate never faults, prints at most `MAXGEN` words and never the marker, each printed word follows its window in the text, and a short run ends at a window the marker follows |

## Left out

- Tokenising with `fscanf` and the `%99s` format (markov.c:84-89) is stdio input. The model takes the tokens as a sequence of words, so the splitting of words longer than 99 bytes is not modelled.
- `printf` output and the `-d` debug format (markov.c:134-137, 151-152) are presentation. The output is the sequence of printed words.
- `srand(time(NULL))` and `rand()` (markov.c:121, 130) are replaced by the input function `rng`. Its values are any naturals, a superset of `0..RAND_MAX`.
- The frequency-weighted distribution of the pick is probabilistic and is not stated. The model states which suffix a given `rand()` sequence selects.
- `malloc` and `strdup` (markov.c:71, 89, 107) use value semantics. Allocation failure and the never-freed memory are not modelled.
- Words may contain the byte 0 in the model. C strings cannot, and `hash` and `strcmp` stop at it. `%s` does not stop at a 0 byte, so `buf` may hold one, but `strdup(buf)` (markov.c:89) copies only up to the first 0 byte; a stored word is therefore a 0-free byte string, and the model's tokens stand for those copies.
