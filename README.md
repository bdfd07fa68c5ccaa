# Word puzzle solver: trie dictionary and candidate filter

This project models the trie dictionary of a word puzzle solver, together with the
logic that filters candidate words against it.

The dictionary loads a word list into a trie. Each node keeps:

- its children in a `LinkedHashMap` keyed by character, in insertion order;
- an end-of-word flag;
- its own character.

Words are lower-cased on insertion. An existing child is never replaced, because
insertion uses put-if-absent. Printing the dictionary walks the trie depth-first with
one shared `StringBuilder`. The walk deletes the last character when each level ends.

The entry point then does four things:

- it reads the letters to permute until a line is non-empty and alphabetic;
- it works out the word lengths asked for, expanding a `-n` request into a range;
- it looks up every candidate permutation;
- it reports the candidates that are dictionary words of a requested length, or prints
  a "no valid permutations" line if there are none.

The project has three modules, plus a small `Options` module (options.dfy) that holds
the `Option` type they share.

- `Trie` (trie.dfy) is the abstract value. `Node(end, ch, kids)` mirrors a TrieNode,
  with the child map as a sequence of `(key, child)` pairs in insertion order.
  - A set of functions gives the meaning of each operation: `PutIfAbsent`, `Insert`,
    `Load`, `Search`, and `Enumerate`/`Words`.
  - Lemmas prove the properties of those functions: membership after insertion,
    monotonicity, idempotence, and that enumeration lists exactly the stored words.
- `Dictionary` (dictionary.dfy) holds the heap classes `TrieNode`, `StringBuilder` and
  `Dictionary`. `TrieNode` has exactly the source's fields. `Dictionary` keeps the
  `root` field but not the `File dictionary` field, since the word list is passed in
  as lines. It adds the ghost fields `model` (the abstract trie) and `shape` (its
  footprint).
  - Their methods update the objects in place, like the Java.
  - Each method is proved to compute the `Trie` function of the trie it started from.
  - A ghost footprint (`Shape`) and the predicate `Represents` tie each node to its
    abstract value and keep distinct subtrees disjoint.
- `WordFilter` (main.dfy) models the filtering logic of `Main`. Console input is a
  sequence of lines. Only the report's lines become output, as a sequence of `Line`
  values; the prompts and the rejection message are dropped.

## Model

| member | source | states |
|---|---|---|
| Trie.Empty | src/Dictionary.java:24-28 | definition of `new TrieNode()`: no children, not an end, Java's default character; `Dictionary.TrieNode.constructor` is proved to build it |
| Trie.ToLower | src/Dictionary.java:76 | `Character.toLowerCase` on ASCII: A-Z map to a-z, every other character is unchanged, and no upper-case letter is left |
| Trie.Fold | src/Dictionary.java:76 | a whole word lower-cased character by character, with the same length |
| Trie.FoldIdempotent | src/Dictionary.java:76 | lower-casing twice is lower-casing once |
| Trie.Lookup | src/Dictionary.java:33 | `LinkedHashMap.get` by key: the first entry with the key, or none exactly when no entry has it |
| Trie.PutIfAbsent | src/Dictionary.java:30-34 | `add`: the returned entry carries the key and is the one `get` finds. A present key leaves the entries and the returned child as they were. An absent key appends exactly one entry at the end, with `currChar` set to the key. The flag and character of the node are kept |
| Trie.PutIfAbsentWf | src/Dictionary.java:30-34 | `add` keeps keys unique and equal to each child's `currChar` |
| Trie.LookupSameKeys | src/Dictionary.java:33 | two entry lists with the same keys in the same order give the same lookup result |
| Trie.LookupAppend | src/Dictionary.java:32 | appending an entry under another key does not move a key |
| Trie.LookupAppendNew | src/Dictionary.java:32 | an appended absent key is found at the end |
| Trie.Walk | src/Tests/DictionaryTest.java:24-34 | definition of the walk inside search: follows the keys of a string from a node, none at the first missing child; its properties are proved in `Trie.InsertOtherEdge`, `Trie.InsertSameEdge` and `Trie.InsertEndAt` |
| Trie.EndAt | src/Tests/DictionaryTest.java:24-34 | definition: a string spells a path whose last node ends a word; its properties are proved in `Trie.InsertEndAt`, `Trie.LoadEndAt` and `Trie.ExtendsEndAt` |
| Trie.LeafEndAt | src/Dictionary.java:24-28 | below a node without children, only the empty path can end a word |
| Trie.Insert | src/Dictionary.java:71-86 | `addToDictionary(w, 0, n)` keeps the flag and character of `n` |
| Trie.InsertStep | src/Dictionary.java:76-85 | one recursive step: the child under the lower-cased first character is flagged (last character) or gets the rest of the word |
| Trie.InsertOtherEdge | src/Dictionary.java:76-77 | paths leaving by another first character are unchanged by an insertion |
| Trie.InsertSameEdge | src/Dictionary.java:76-85 | a path through the inserted character continues in the reused or new child |
| Trie.InsertEndAt | src/Dictionary.java:71-86 | after inserting `w`, a path ends in a word iff it did before or it is the lower-cased `w` |
| Trie.InsertWf | src/Dictionary.java:30-34 | insertion keeps every key unique per node and equal to its child's character |
| Trie.InsertIdempotent | src/Dictionary.java:30-34 | inserting a word, or any case variant of it, a second time leaves the trie unchanged |
| Trie.ExtendsRefl | src/Dictionary.java:32 | a trie extends itself |
| Trie.ExtendsTrans | src/Dictionary.java:32 | extension is transitive |
| Trie.InsertExtends | src/Dictionary.java:71-86 | insertion keeps every edge in place and clears no flag |
| Trie.ExtendsEndAt | src/Dictionary.java:32 | a word stored before an extension is still stored after it |
| Trie.Search | src/Tests/DictionaryTest.java:24-34 | definition of search: false for the empty word, else whether the lower-cased word ends at a flagged node; its properties are proved in `Trie.SearchFoldsCase`, `Trie.SearchAfterInsert`, `Trie.SearchLoaded` and `Trie.SearchIffListed`, and `Dictionary.Dictionary.SearchDictionary` is proved to compute it |
| Trie.SearchFoldsCase | src/Tests/DictionaryTest.java:24-25 | search gives the same answer for every case variant of a query |
| Trie.SearchAfterInsert | src/Tests/DictionaryTest.java:24-34 | after inserting `w`, search is true iff it was before or the query folds to `w` |
| Trie.Load | src/Dictionary.java:49-63 | `fillDictionary` keeps the root's flag and character, so the root never ends a word |
| Trie.LoadStep | src/Dictionary.java:53-57 | one more line is one more insertion, or none for an empty line |
| Trie.LoadEndAt | src/Dictionary.java:53-57 | after loading, a path ends in a word iff it did before or it is a lower-cased non-empty line |
| Trie.LoadWf | src/Dictionary.java:53-57 | loading keeps keys unique and equal to the children's characters |
| Trie.LoadExtends | src/Dictionary.java:53-57 | loading only adds edges and flags |
| Trie.SearchLoaded | src/Tests/DictionaryTest.java:24-34 | the loaded dictionary finds a query iff it folds to one of the non-empty lines |
| Trie.LoadedLineFound | src/Tests/DictionaryTest.java:32-34 | every non-empty line of the word list is found, queried exactly as written |
| Trie.Enumerate | src/Dictionary.java:102-119 | definition of `printDictionaryHelper`'s output: for each child in order, the buffer plus its character if it ends a word, then the child's own lines; its properties are proved in `Trie.EnumerateShape`, `Trie.EnumerateSpec` and `Trie.EnumerateNoDuplicates`, and `Dictionary.Dictionary.PrintDictionaryHelper` is proved to compute it |
| Trie.Words | src/Dictionary.java:91-94 | definition of `printDictionary`'s output: `Enumerate` of the root's children from an empty buffer; its properties are proved in `Trie.WordsSpec` and `Trie.WordsLoaded` |
| Trie.EnumerateShape | src/Dictionary.java:104-112 | every printed line is the buffer extended by the character of one of the children visited |
| Trie.EnumerateSpec | src/Dictionary.java:102-119 | a line is printed for the first `k` children iff it extends the buffer by a path through one of them that ends in a word |
| Trie.LastChildLine | src/Dictionary.java:104-112 | a line through the last visited child ends a word iff it is that child's word or one below it, and no earlier child has its key |
| Trie.EarlierApart | src/Dictionary.java:104-112 | lines printed for earlier children are not printed again for a later child |
| Trie.NoDuplicatesConcat | src/Dictionary.java:104-114 | two duplicate-free, disjoint outputs printed in turn are duplicate-free |
| Trie.EnumerateNoDuplicates | src/Dictionary.java:102-119 | in a well-formed trie no line is printed twice |
| Trie.WordsSpec | src/Dictionary.java:91-94 | `printDictionary` prints exactly the non-empty root paths that end at a flagged node, each once, without the root's character |
| Trie.SearchIffListed | src/Dictionary.java:91-94 | search finds a query iff its lower-cased form is one of the printed words |
| Trie.WordsLoaded | src/Dictionary.java:49-63 | the loaded dictionary prints each lower-cased non-empty line once and nothing else |
| Trie.LoadMan | src/Dictionary.java:71-86 | the trie built by inserting "Man" |
| Trie.LoadMens | src/Dictionary.java:71-86 | inserting "Mens" next adds the e-branch after the a-branch |
| Trie.LoadThree | src/Dictionary.java:53-57 | loading three lines is three insertions in order |
| Trie.InsertMen | src/Dictionary.java:80-81 | inserting "Men" into that trie only flags the existing node for "men" |
| Trie.LoadMen | src/Dictionary.java:49-63 | the trie loaded from "Man", "Mens", "Men" |
| Trie.ManMensMenBelowE | src/Dictionary.java:104-112 | below "me" the lines "men" and "mens" are printed, in that order |
| Trie.ManMensMenBelowM | src/Dictionary.java:104-112 | below "m" the lines "man", "men", "mens" are printed |
| Trie.ManMensMenTrieWords | src/Dictionary.java:91-94 | that trie prints "man", "men", "mens" in that preorder |
| Trie.ManMensMenWords | src/Dictionary.java:91-94 | loading "Man", "Mens", "Men" prints exactly "man", "men", "mens" |
| Trie.ManMensMenTrieFinds | src/Tests/DictionaryTest.java:24-25 | "Man" and "Mens" are found in that trie |
| Trie.ManMensMenTrieRejectsPrefix | src/Tests/DictionaryTest.java:24-26 | the prefix "me" and the empty word are not found |
| Trie.ManMensMenTrieRejectsLonger | src/Tests/DictionaryTest.java:24-26 | "mensa", which extends a word, is not found |
| Trie.ManMensMenTrieRejectsOther | src/Tests/DictionaryTest.java:26 | "a_liens", which has no stored path, is not found |
| Trie.ManMensMenSearch | src/Tests/DictionaryTest.java:24-26 | the dictionary loaded from "Man", "Mens", "Men" finds "Man" and "Mens" as written, and not "me", "mensa", "a_liens" or "" |
| Dictionary.GetChild | src/Dictionary.java:33 | `get` on a node finds a child iff its value has one under that key, and the child found represents that child value |
| Dictionary.Untouched | src/Dictionary.java:104-112 | a subtree none of whose objects changed represents the same value |
| Dictionary.FieldsChanged | src/Dictionary.java:31 | writing only a node's flag or character changes only those parts of its value |
| Dictionary.Appended | src/Dictionary.java:32 | appending a disjoint child subtree appends its value and footprint |
| Dictionary.ChildReplaced | src/Dictionary.java:85 | changing one child's subtree within a disjoint footprint replaces that child's value |
| Dictionary.EndMarked | src/Dictionary.java:80-82 | flagging the node of the last character is the insertion of that character |
| Dictionary.Descended | src/Dictionary.java:85 | recursing into the child of a character that is not the last is the insertion of the rest of the word |
| Dictionary.TrieNode.constructor | src/Dictionary.java:24-28 | a new node has no children, ends no word and has the default character |
| Dictionary.TrieNode.Get | src/Dictionary.java:33 | null exactly when no entry has the key; otherwise the child of the first entry with that key |
| Dictionary.TrieNode.Add | src/Dictionary.java:30-34 | the node now represents `PutIfAbsent` of its value. The result is the stored child, and the new node's character is the key. A present key leaves the map alone and returns the existing child; an absent key returns the new node |
| Dictionary.StringBuilder.constructor | src/Dictionary.java:93 | a new buffer is empty |
| Dictionary.StringBuilder.Length | src/Dictionary.java:116-117 | definition of `length()`: the number of characters in the buffer |
| Dictionary.StringBuilder.Append | src/Dictionary.java:106 | one character is added at the end |
| Dictionary.StringBuilder.Replace | src/Dictionary.java:117 | the range from `start` to `end` (capped at the length) is replaced by the string |
| Dictionary.Dictionary.constructor | src/Dictionary.java:37-44 | a fresh root filled from the word list: the dictionary represents the trie `Load` builds from the empty trie, well formed, with the root ending no word. Every object of its footprint is new |
| Dictionary.Dictionary.FillDictionary | src/Dictionary.java:49-63 | the dictionary afterwards represents `Load` of the previous trie and the lines, and stays valid; the objects it gains are all new |
| Dictionary.Dictionary.FillLines | src/Dictionary.java:53-58 | the loop over the lines leaves the root representing `Load` of the lines, and gains only new objects |
| Dictionary.Dictionary.FillLine | src/Dictionary.java:54-57 | a line of length at least 1 is inserted from the root; an empty line changes nothing |
| Dictionary.Dictionary.AddToLevel | src/Dictionary.java:76-77 | after `add` with a new node, the level represents `PutIfAbsent` with an empty child, and the node returned is the child stored under the character, with its subtree |
| Dictionary.Dictionary.AddToDictionary | src/Dictionary.java:71-86 | the level afterwards represents `Insert` of its previous value and the word from `index` on. Its footprint stays apart from every other object and gains only new ones |
| Dictionary.Dictionary.PrintDictionary | src/Dictionary.java:91-94 | the lines printed are `Words` of the trie |
| Dictionary.Dictionary.PrintDictionaryHelper | src/Dictionary.java:102-119 | the lines printed are `Enumerate` of the level from the buffer's content. An empty buffer stays empty; otherwise exactly its last character is removed |
| Dictionary.Dictionary.PrintEntry | src/Dictionary.java:104-114 | for one child: the buffer plus its character is printed if the child ends a word, then the child's own lines follow, and the buffer is as it was |
| Dictionary.Dictionary.SearchDictionary | src/Tests/DictionaryTest.java:24-34 | the answer is `Search` of the trie: false for the empty word, else whether the lower-cased word ends at a flagged node |
| WordFilter.IsLetter | src/Main.java:26 | definition of the character class `[a-zA-Z]`; `WordFilter.MatchesLetters` is stated in terms of it |
| WordFilter.MatchesLetters | src/Main.java:26 | `matches("[a-zA-Z]+")`: true iff the string is non-empty and every character is in A-Z or a-z |
| WordFilter.ReadLetters | src/Main.java:20-29 | the loop stops at the first non-empty alphabetic line and returns it, with every earlier line rejected; if no line qualifies it reads all of them |
| WordFilter.ReadDigits | src/Main.java:38-41 | the loop stops at the first non-empty line and returns it, with every earlier line empty |
| WordFilter.LengthSearch | src/Main.java:81-86 | true iff the length occurs among the requested lengths, so false for none |
| WordFilter.ExpandRange | src/Main.java:47-52 | the `-n` request gives `n, n+1, ...` up to the last candidate's length, strictly ascending, and nothing when `n` is larger |
| WordFilter.Wanted | src/Main.java:61 | definition of the report's test: search finds the candidate and its length is requested; used by `WordFilter.Selected` |
| WordFilter.Selected | src/Main.java:60-61 | definition of the reported candidates: those passing the test, in candidate order; its properties are proved in `WordFilter.SelectedMembers` and `WordFilter.SelectedConcat` |
| WordFilter.SelectedMembers | src/Main.java:60-61 | a candidate is selected iff it is among the candidates, the dictionary finds it and its length is requested |
| WordFilter.SelectedConcat | src/Main.java:60 | selection keeps the candidates' order: selecting from two lists in turn is selecting from their concatenation |
| WordFilter.Permutations | src/Main.java:66 | one printed line per selected candidate, in order |
| WordFilter.Reported | src/Main.java:62-66 | definition of what the report has printed so far: the heading and the hits, or nothing; its step is proved in `WordFilter.ReportedSnoc` |
| WordFilter.Transcript | src/Main.java:62-72 | definition of the report's whole output: the heading and hits, or only the "no valid permutations" line; its properties are proved in `WordFilter.TranscriptMessages` and `WordFilter.TranscriptPermutations`, and `WordFilter.Report` is proved to produce it |
| WordFilter.TranscriptMessages | src/Main.java:58-72 | the "no valid permutations" line appears iff nothing was selected; the heading appears iff something was, and then only first |
| WordFilter.TranscriptPermutations | src/Main.java:60-68 | a candidate is printed iff it was selected, and the printed candidates are the selected ones in order |
| WordFilter.Report | src/Main.java:58-72 | the lines printed are the transcript of the selected candidates: the heading and then the hits, or only the "no valid permutations" line |
| WordFilter.ReportStep | src/Main.java:60-61 | one more candidate adds it to the selection or adds nothing |
| WordFilter.ReportedSnoc | src/Main.java:62-66 | the first hit prints the heading before itself, later hits only themselves |
| WordFilter.PermutationsSnoc | src/Main.java:66 | printing one more hit appends one line |

## Left out

- Reading the word list from `src/english3.txt` is modelled by a sequence of lines. The same goes for swallowing a load failure and printing "Dictionary txt not found". The code catches the exception, so a missing file leaves an empty dictionary. A clean, reported load failure is not modelled.
- Console input (`Scanner`) arrives as a sequence of lines. `ReadLetters` and `ReadDigits` report input that runs out as `None`, where `nextLine` would throw.
- Console output: only two kinds of printed lines become return values. The report's lines (src/Main.java:63, 66, 71) are `Line` values; the heading and "no valid permutations" lines hold the letters and the lengths, and the text of `printf` and `Arrays.toString` is not modelled. The lines `printDictionary` prints (src/Dictionary.java:109) are the strings `PrintDictionary` returns.
- The prompts (src/Main.java:21, 39) and the message "Input can only be alphabetic" (src/Main.java:28) are not modelled: `ReadLetters` and `ReadDigits` return no output.
- The timing (`System.nanoTime`) is not modelled.
- `Integer.parseInt` and the `split` into lengths are not modelled (src/Main.java:48, 54-56). `Report` takes the lengths as integers, and `ExpandRange` takes the number after the `-` as an integer and returns the lengths directly.
- WordFilter.ExpandRange: returns an empty list when `n` exceeds the last candidate's length. In the code the built string is then empty, and `Integer.parseInt("")` throws.
- The `python3` subprocess that generates the permutations is not modelled (src/Main.java:94-130). Its output appears as an arbitrary sequence of candidates, which `ExpandRange` requires to be non-empty, as the code's `split` always is.
- `Character.toLowerCase` is modelled on ASCII A-Z only. Other Unicode case mappings are not modelled.
- The O(n) complexity remarks in the class comment are not functional behaviour.
- `getDictionaryInstance`, the singleton used by the tests, is not part of this model and is not defined in `Dictionary.java`.
- Search is not defined in `Dictionary.java` either. `SearchDictionary` is the counterpart of insertion that the tests demand: false for the empty word, otherwise a walk of the lower-cased characters.
- Dictionary.Dictionary.constructor: takes the word list as its lines rather than reading the hard-coded path.
- The unused local `currentIndex` in `addToDictionary` is omitted.
- `FillLines` and `FillLine` are the loop and the loop body of `fillDictionary`. `AddToLevel` is the first step of `addToDictionary`, and `PrintEntry` is the body of `printDictionaryHelper`'s loop. Together they do exactly what the one Java method does.
- A Java `String` is a sequence of UTF-16 code units, so `charAt` (src/Dictionary.java:76) and `length()` (src/Main.java:50, 61) count code units. A Dafny `string` is a sequence of Unicode scalar values. A character outside the Basic Multilingual Plane is therefore one trie level and length 1 in the model, but two in Java; ASCII input behaves the same in both.
- `LinkedHashMap` is modelled as a sequence of `(key, child)` entries in insertion order. Java's `int[]` and `String[]` are never written after creation, so they are modelled as sequences.
- Trie.LoadedLineFound: requires the line to be non-empty. The test at src/Tests/DictionaryTest.java:32-34 would also query an empty line, and search answers false for it.
