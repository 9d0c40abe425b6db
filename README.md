# Word Tracker: a verified model of its binary search tree and word index

The Word Tracker reads text files line by line and records every word in a binary search tree. Each record is a `Word` object. It holds the lower-cased word, a map from each file name to the line numbers where the word occurs (without duplicates), and a total frequency that counts every occurrence. The tracker can then print every record in ascending word order, in one of three formats: `-pf` (files), `-pl` (lines and files) and `-po` (complete, with the frequency).

This project models that core in Dafny:

- `outcomes.dfy` (module `Outcomes`): the errors that the Java code throws (`NullPointerException` from the tree, `NoSuchElementException` from the iterator, the missing-input `IOException`), modelled as a `Result` datatype.
- `java_text.dfy` (module `JavaText`): the parts of `java.lang.String` the core relies on, restricted to ASCII:
  - `compareTo`, and the strict order it induces;
  - `toLowerCase`;
  - decimal rendering of an `int`;
  - joining and concatenating strings.
- `bstree_node.dfy` (module `TreeNodes`): `BSTreeNode`, a class with mutable `data`, `left` and `right`. It also has a ghost footprint `Repr` and a ghost in-order sequence `Elems` of the subtree.
- `word.dfy` (module `Words`): `Word` as a class whose methods update the location map and the counter in place.
  - Its state is summarised by the value `Tally(locations, frequency)`.
  - The three renderers are `StringBuilder` loops, proved equal to pure text functions.
- `bstree.dfy` (module `Trees`): `BSTree` over `Word` records, the traversal buffers, and `BSTreeIterator`.
  - The tree invariant is that the in-order sequence of records has strictly ascending keys.
  - `SearchTreeIffAscending` proves this is the per-node search-tree property.
- `line_cleaning.dfy` (module `LineCleaning`): `cleanAndSplitLine`, which:
  - removes every character outside `[a-zA-Z0-9\s]`;
  - lower-cases and trims the line;
  - splits it at whitespace;
  - drops empty pieces.
- `ingest.dfy` (module `Ingest`): a pure reference for ingestion. It is a fold of the lines of a file into a map from key to `Tally`, with its properties as lemmas.
- `word_tracker.dfy` (module `Tracker`): the imperative ingestion loop of `processInputFile` over a tree of mutable records, `findWordInTree`, and the report loop of `generateOutput`.
  - The tree's contents as a map (`IndexOf`) are proved to evolve exactly as the pure fold of `Ingest` says.
  - The report is proved to render one line per record, in ascending key order.

## Model

| member | source | states |
|---|---|---|
| JavaText.CompareToZeroIffEqual | src/appDomain/Word.java:108-110 | String comparison gives 0 exactly on equal strings |
| JavaText.CompareToAntisymmetric | src/appDomain/Word.java:108-110 | comparing b with a gives the negated result of comparing a with b |
| JavaText.LessTransitive | src/implementations/BSTree.java:124-147 | the order used by the tree is transitive |
| JavaText.LessTrichotomous | src/implementations/BSTree.java:124-147 | any two keys are either equal or one is less than the other, so every insertion step takes exactly one branch |
| JavaText.LessAsymmetric | src/implementations/BSTree.java:124-147 | the order is irreflexive and asymmetric |
| JavaText.ToLower | src/appDomain/Word.java:27 | lower-casing keeps the length, turns each of `A`-`Z` into the matching `a`-`z` (its code plus 32), and changes no other character |
| JavaText.ToLowerIdempotent | src/appDomain/Word.java:27 | lower-casing twice is the same as once, so the second lower-casing in the constructor changes nothing |
| JavaText.NatToStringRoundTrip | src/appDomain/Word.java:178 | the decimal rendering of a count reads back as that count |
| JavaText.IntToString | src/appDomain/Word.java:164 | a line number's rendering is non-empty, and all digits when the number is non-negative |
| TreeNodes.BSTreeNode.constructor | src/implementations/BSTreeNode.java:19-23 | the node holds the datum, and both children are null |
| TreeNodes.BSTreeNode.WithChildren | src/implementations/BSTreeNode.java:31-35 | the node holds exactly the given datum and children; with disjoint valid children it is a valid subtree whose in-order content is left, datum, right |
| TreeNodes.BSTreeNode.GetData | src/implementations/BSTreeNode.java:43-45 | returns the stored datum; what it means in a valid subtree is stated by `GettersOfValid` |
| TreeNodes.BSTreeNode.GetLeft | src/implementations/BSTreeNode.java:59-61 | returns the stored left link (null when absent); see `GettersOfValid` |
| TreeNodes.BSTreeNode.GetRight | src/implementations/BSTreeNode.java:75-77 | returns the stored right link (null when absent); see `GettersOfValid` |
| TreeNodes.BSTreeNode.GettersOfValid | src/implementations/BSTreeNode.java:43-77 | in a valid subtree the datum returned comes after the left subtree's data and before the right's, and each child returned roots a valid subtree owned by the node |
| TreeNodes.BSTreeNode.SetData | src/implementations/BSTreeNode.java:51-53 | the getter then returns the new datum; both children are unchanged |
| TreeNodes.BSTreeNode.SetLeft | src/implementations/BSTreeNode.java:67-69 | the getter then returns the new left child; datum and right child are unchanged |
| TreeNodes.BSTreeNode.SetRight | src/implementations/BSTreeNode.java:83-85 | the getter then returns the new right child; datum and left child are unchanged |
| TreeNodes.BSTreeNode.IsLeaf | src/implementations/BSTreeNode.java:93-95 | true iff both children are null; in a valid subtree, iff the subtree holds one datum |
| TreeNodes.BSTreeNode.HasLeft | src/implementations/BSTreeNode.java:101-103 | true iff the left child is non-null |
| TreeNodes.BSTreeNode.HasRight | src/implementations/BSTreeNode.java:109-111 | true iff the right child is non-null |
| Words.AddOccurrenceEffect | src/appDomain/Word.java:37-51 | an occurrence raises the frequency by exactly one, even for a repeated line; the file is recorded; the line is in its list; a repeated line leaves the list as it was, and a new line is appended; other files are untouched |
| Words.AddOccurrencePreservesWellFormed | src/appDomain/Word.java:37-51 | every line list stays non-empty and duplicate-free, and the sum of the list lengths stays at most the frequency |
| Words.LengthAtMostTotal | src/appDomain/Word.java:82-85 | one file's line count is at most the sum over all files |
| Words.RenderingsShareSections | src/appDomain/Word.java:154-192 | the lines-and-files and complete renderings share the same per-file sections and differ only in their prefix |
| Words.AppleFilesText | src/tests/unitTests/TestWordTracker.java:60 | the apple record built at lines 21-23 of that file renders in -pf form exactly as `Key = ===apple=== found in file: test1.txt`, the shape CommandLineTest.java:56 expects |
| Words.AppleLinesAndFilesText | src/tests/unitTests/TestWordTracker.java:63 | the apple record built at lines 21-23 of that file (lines 1 and 3 of test1.txt) renders in -pl form as `Key = ===apple=== found in file: test1.txt on lines: 1,3,` |
| Words.AppleCompleteText | src/tests/unitTests/TestWordTracker.java:66 | the same record in -po form renders as `===apple=== number of entries: 2 found in file: test1.txt on lines: 1,3,` |
| Words.AppleTally | src/tests/unitTests/TestWordTracker.java:21-23 | two occurrences on lines 1 and 3 of one file give that file the list [1, 3] and frequency 2 |
| Words.Word.constructor | src/appDomain/Word.java:26-30 | the stored word is the lower-cased argument; no locations; frequency 0 |
| Words.Word.GetWord | src/appDomain/Word.java:57-59 | returns the key, which the constructor stored lower-cased and which never changes |
| Words.Word.GetFileLocations | src/appDomain/Word.java:65-67 | in a valid record every file maps to a non-empty list of distinct line numbers |
| Words.Word.GetTotalFrequency | src/appDomain/Word.java:73-75 | in a valid record the total is non-negative and at least the line count of any one file |
| Words.Word.AddOccurrence | src/appDomain/Word.java:37-51 | the new state is the reference occurrence update of the old state, and well-formedness is kept |
| Words.Word.GetFrequencyInFile | src/appDomain/Word.java:82-85 | the length of the file's line list, or 0 for an absent file; 0 exactly when the file is absent; at most the total frequency |
| Words.Word.GetLineNumbers | src/appDomain/Word.java:100-102 | none (the Java null) exactly for an absent file; otherwise the stored list, non-empty and duplicate-free |
| Words.Word.GetFilenames | src/appDomain/Word.java:91-93 | an enumeration of the recorded file names, each exactly once |
| Words.Word.ToStringFiles | src/appDomain/Word.java:132-148 | the prefix, then ` found in file: ` and the files joined by `, ` (nothing without files), in an enumeration order of the file names |
| Words.FilesTextSnoc | src/appDomain/Word.java:132-148 | one more file adds ` found in file: ` before the first file, `, ` before any later one, and then the file name |
| Words.Word.AppendSection | src/appDomain/Word.java:159-167 | one file's section: ` found in file: f on lines: `, the line numbers joined by `,`, and a closing `,` |
| Words.Word.ToStringLinesAndFiles | src/appDomain/Word.java:154-170 | the prefix, then per file ` found in file: f on lines: `, the lines joined by `,` and a trailing `,` |
| Words.Word.ToStringComplete | src/appDomain/Word.java:176-192 | as the lines-and-files rendering, with the prefix `===w=== number of entries: n` |
| Words.Word.CompareTo | src/appDomain/Word.java:108-110 | 0 exactly when the two keys are equal; swapping the records negates the result |
| Words.Word.Equals | src/appDomain/Word.java:116-121 | true exactly for a non-null record with the same key, so the identity shortcut changes nothing; true exactly when compareTo gives 0 |
| Words.CompareToConsistentWithEquals | src/appDomain/Word.java:108-121 | records compare as 0 exactly when equal, equal exactly when their words are equal, and comparison is antisymmetric |
| Trees.SearchTreeIffAscending | src/implementations/BSTree.java:124-147 | a subtree has smaller keys left and larger keys right at every node iff its in-order keys are strictly ascending |
| Trees.Height | src/implementations/BSTree.java:38-47 | the height is 0 exactly for the empty subtree and at most its number of nodes |
| Trees.HeightOfChildren | src/implementations/BSTree.java:38-47 | a node is taller than both children; its height is 1 iff it is a leaf |
| Trees.SearchFrom | src/implementations/BSTree.java:87-101 | a non-null result is a node of the subtree whose key is the searched key |
| Trees.SearchFromFinds | src/implementations/BSTree.java:87-101 | in an ordered subtree the search succeeds iff the key is present, and then yields one of its records |
| Trees.FindMin | src/implementations/BSTree.java:169-174 | the loop reaches a node of the subtree with no left child, holding the first in-order datum |
| Trees.FindMax | src/implementations/BSTree.java:208-213 | the loop reaches a node with no right child, holding the last in-order datum |
| Trees.RemoveMinAt | src/implementations/BSTree.java:181-187 | the remaining subtree is valid, uses only old nodes, leaves every datum in place, and holds the old in-order data without the first; its root is the old right child when there is no left child, and the node itself otherwise |
| Trees.RemoveMinLeft | src/implementations/BSTree.java:185-186 | with a left child, the first datum is removed from the left subtree and the node itself is returned as the root of a valid subtree; every other datum stays in place |
| Trees.RemoveMaxAt | src/implementations/BSTree.java:220-226 | the same, without the last datum; its root is the old left child when there is no right child, and the node itself otherwise |
| Trees.RemoveMaxRight | src/implementations/BSTree.java:224-225 | with a right child, the last datum is removed from the right subtree and the node itself is returned as the root of a valid subtree; every other datum stays in place |
| Trees.InOrderTraversal | src/implementations/BSTree.java:250-256 | the buffer is extended by exactly the subtree's in-order data |
| Trees.PreOrderTraversal | src/implementations/BSTree.java:258-264 | the buffer is extended by exactly the subtree's pre-order data |
| Trees.PostOrderTraversal | src/implementations/BSTree.java:266-272 | the buffer is extended by exactly the subtree's post-order data |
| Trees.PreOrderPermutes | src/implementations/BSTree.java:258-264 | pre-order visits the same data as in-order, each as often |
| Trees.PostOrderPermutes | src/implementations/BSTree.java:266-272 | post-order visits the same data as in-order, each as often |
| Trees.PreOrderStartsAtRoot | src/implementations/BSTree.java:258-264 | the pre-order visit of a non-empty subtree starts with its root's datum |
| Trees.PostOrderEndsAtRoot | src/implementations/BSTree.java:266-272 | the post-order visit of a non-empty subtree ends with its root's datum |
| Trees.BSTreeIterator.constructor | src/implementations/BSTree.java:279-282 | the cursor starts at index 0 over exactly the given buffer |
| Trees.BSTreeIterator.HasNext | src/implementations/BSTree.java:285-287 | true exactly when the cursor has something left to yield |
| Trees.BSTreeIterator.Next | src/implementations/BSTree.java:290-295 | fails with no-such-element exactly when nothing remains, without moving; otherwise yields the next buffered element and advances by one |
| Trees.BSTree.constructor | src/implementations/BSTree.java:15-18 | a new tree is empty |
| Trees.BSTree.GetRoot | src/implementations/BSTree.java:21-26 | fails with an empty-tree error exactly when the tree is empty; otherwise the root, holding all records |
| Trees.BSTree.GetHeight | src/implementations/BSTree.java:29-31 | 0 exactly for an empty tree, and at most the size |
| Trees.BSTree.Size | src/implementations/BSTree.java:50-52 | the maintained counter equals the number of records |
| Trees.BSTree.IsEmpty | src/implementations/BSTree.java:55-57 | true exactly when there are no records, that is when the size is 0 |
| Trees.BSTree.Clear | src/implementations/BSTree.java:60-63 | the tree is left empty with size 0 |
| Trees.BSTree.Search | src/implementations/BSTree.java:74-79 | fails with a null-entry error exactly for null; otherwise the node found is non-null iff the key is in the tree, and then holds a record with that key |
| Trees.BSTree.Contains | src/implementations/BSTree.java:66-71 | fails with a null-entry error exactly for null; otherwise true iff the key is in the tree |
| Trees.BSTree.AddAt | src/implementations/BSTree.java:124-148 | the recursive insertion keeps the subtree ordered and its root datum; it adds the record at its sorted place iff its key is absent; when the key is present it may modify nothing, so no node, link or size changes |
| Trees.BSTree.AddLeft | src/implementations/BSTree.java:129-137 | a key below the node's key is inserted at its sorted place iff it is absent; only the tree, the node and the left subtree may change, the datum and the right link are kept, and a present key changes nothing; the subtree stays ordered |
| Trees.BSTree.HangLeft | src/implementations/BSTree.java:131-134 | a missing left child becomes a fresh leaf holding the entry, which then comes first in the subtree; the size grows by one |
| Trees.BSTree.AddIntoLeft | src/implementations/BSTree.java:136 | the recursive insertion into an existing left child may change only the tree, the node and the left subtree, keeps the node's datum and right link, changes nothing for a present key, and keeps the subtree ordered |
| Trees.BSTree.AddRight | src/implementations/BSTree.java:138-146 | a key above the node's key is inserted at its sorted place iff it is absent; only the tree, the node and the right subtree may change, the datum and the left link are kept, and a present key changes nothing; the subtree stays ordered |
| Trees.BSTree.HangRight | src/implementations/BSTree.java:140-143 | a missing right child becomes a fresh leaf holding the entry, which then comes last in the subtree; the size grows by one |
| Trees.BSTree.AddIntoRight | src/implementations/BSTree.java:145 | the recursive insertion into an existing right child may change only the tree, the node and the right subtree, keeps the node's datum and left link, changes nothing for a present key, and keeps the subtree ordered |
| Trees.BSTree.Add | src/implementations/BSTree.java:104-116 | null fails with a null-entry error; otherwise the result is true iff the key was absent, the size grows by one and the record is inserted at its sorted place; a null entry or a present key leaves the tree object and every one of its nodes unchanged |
| Trees.BSTree.RemoveMin | src/implementations/BSTree.java:151-162 | null on an empty tree; otherwise the node holding the least key, with the remaining records the old ones without it, still ordered, and the size one less |
| Trees.BSTree.RemoveMax | src/implementations/BSTree.java:190-201 | null on an empty tree; otherwise the node holding the greatest key, with the remaining records the old ones without it, still ordered, and the size one less |
| Trees.BSTree.Reroot | src/implementations/BSTree.java:157-160 | the detached remainder becomes the root with the given size, and the tree is valid with exactly the remainder's records |
| Trees.BSTree.InorderIterator | src/implementations/BSTree.java:229-233 | a fresh cursor at 0 over the in-order records |
| Trees.BSTree.PreorderIterator | src/implementations/BSTree.java:236-240 | a fresh cursor at 0 over the pre-order records |
| Trees.BSTree.PostorderIterator | src/implementations/BSTree.java:243-247 | a fresh cursor at 0 over the post-order records |
| Trees.InOrderIsSorted | src/implementations/BSTree.java:229-233 | the in-order records of a valid tree are strictly ascending, every node is a search-tree node, and the number of records, the size and the number of distinct keys agree |
| Trees.AscendingKeyCount | src/implementations/BSTree.java:250-256 | each key occurs exactly once in an ascending sequence |
| Trees.InsertKeySet | src/implementations/BSTree.java:124-148 | inserting a record grows the key set by exactly its key |
| LineCleaning.StripIsStripped | src/appDomain/WordTracker.java:150 | after removal only letters, digits and whitespace remain |
| LineCleaning.StripKeepsStripped | src/appDomain/WordTracker.java:150 | removal changes nothing on text that holds only letters, digits and whitespace |
| LineCleaning.StripAppend | src/appDomain/WordTracker.java:150 | removal works character by character |
| LineCleaning.LeadingStops | src/appDomain/WordTracker.java:152 | trimming removes exactly the leading characters up to U+0020 |
| LineCleaning.TrailingStops | src/appDomain/WordTracker.java:152 | trimming removes exactly the trailing characters up to U+0020 |
| LineCleaning.TrimIsMiddle | src/appDomain/WordTracker.java:152 | the line is what trim removes in front (characters up to U+0020), what it returns, and what it removes at the back |
| LineCleaning.TrimEnds | src/appDomain/WordTracker.java:152 | a non-empty trimmed text starts and ends above U+0020 |
| LineCleaning.TrimmedIsClean | src/appDomain/WordTracker.java:150-152 | trimming clean text leaves clean text |
| LineCleaning.Clean | src/appDomain/WordTracker.java:150-152 | the cleaned line holds only lower-case letters, digits and whitespace |
| LineCleaning.PiecesDrawFrom | src/appDomain/WordTracker.java:155 | every piece of the split is made of characters of the line, none of them whitespace |
| LineCleaning.JoinPieces | src/appDomain/WordTracker.java:155 | the pieces joined by single spaces give back the line with each whitespace character replaced by a space |
| LineCleaning.ConcatPieces | src/appDomain/WordTracker.java:155 | the pieces spell the line's non-whitespace characters in order |
| LineCleaning.NonEmptyKeeps | src/appDomain/WordTracker.java:158-163 | the filter keeps exactly the non-empty pieces |
| LineCleaning.SplitTrimmed | src/appDomain/WordTracker.java:152-155 | on clean text, trimming before splitting and dropping empty pieces changes no word |
| LineCleaning.TokensAreSplit | src/appDomain/WordTracker.java:148-166 | the one-pass character scanner gives exactly the words of removal, lower-casing, trimming, splitting and dropping empty pieces |
| LineCleaning.PunctuationSkipped | src/appDomain/WordTracker.java:150 | a character outside letters, digits and whitespace is removed, so the words on both sides of it join |
| LineCleaning.RunIsOneWord | src/appDomain/WordTracker.java:148-166 | a run of letters and digits is one word, its lower-cased text |
| LineCleaning.TokensSpellLetters | src/appDomain/WordTracker.java:148-166 | every token is non-empty and made of lower-case letters and digits only; the tokens spell the line's lower-cased letters and digits in order |
| LineCleaning.TokensAreKeys | src/appDomain/WordTracker.java:148-166 | every token is already lower-case |
| LineCleaning.CleanAndSplitLine | src/appDomain/WordTracker.java:148-166 | the loop returns exactly the tokens of the line; each is a word; together they spell the line's letters and digits |
| LineCleaning.NoWordsIffNoLetters | src/appDomain/WordTracker.java:148-166 | a line has no tokens iff it has no letters or digits |
| LineCleaning.ApostropheTokens | src/tests/unitTests/CommandLineTest.java:37 | `it's` gives the single token `its` |
| Ingest.IngestWordsKeys | src/appDomain/WordTracker.java:117-133 | after a line's tokens the keys are the old keys plus the lower-cased tokens |
| Ingest.IngestWordsFrequency | src/appDomain/WordTracker.java:117-133 | a key's frequency grows by its number of occurrences among the line's tokens |
| Ingest.IngestWordsRecordsLine | src/appDomain/WordTracker.java:117-133 | every token's record lists the line for the file |
| Ingest.IngestWordsOtherFiles | src/appDomain/WordTracker.java:117-133 | other files' line lists are untouched |
| Ingest.IngestWordsWellFormed | src/appDomain/WordTracker.java:117-133 | well-formed records stay well-formed |
| Ingest.IngestLinesKeys | src/appDomain/WordTracker.java:109-136 | after a file the keys are the old keys plus the file's tokens |
| Ingest.IngestLinesFrequency | src/appDomain/WordTracker.java:109-136 | a key's frequency grows by its number of occurrences in the file |
| Ingest.IngestLinesRecordsEveryLine | src/appDomain/WordTracker.java:109-136 | a token on the i-th line (counting from 1) has that line number in its record for the file |
| Ingest.IngestLinesKeepsLines | src/appDomain/WordTracker.java:109-136 | line numbers already recorded stay recorded |
| Ingest.IngestLinesOtherFiles | src/appDomain/WordTracker.java:109-136 | other files' line lists are untouched |
| Ingest.IngestLinesWellFormed | src/appDomain/WordTracker.java:109-136 | every record stays well-formed: non-empty duplicate-free lists whose total length is at most the frequency |
| Ingest.FileWordsAreKeys | src/appDomain/WordTracker.java:115-123 | every token of a file is a lower-case word, so it is its own key |
| Ingest.NewKeysCount | src/appDomain/WordTracker.java:122-131 | the number of keys grows by exactly the number of distinct tokens of the file not already held |
| Tracker.IndexOfHolds | src/implementations/BSTree.java:124-147 | each record of the tree's map is found under its own key, with that record's state |
| Tracker.SizeIsKeyCount | src/implementations/BSTree.java:50-52 | the tree's size is the number of keys in its map |
| Tracker.SnapshotOfAscending | src/implementations/BSTree.java:124-147 | the records of an ordered tree have distinct keys |
| Tracker.IndexOfKeys | src/implementations/BSTree.java:124-147 | the tree's map has exactly the keys of the tree's records |
| Tracker.HeldRecord | src/appDomain/WordTracker.java:173-178 | a record held by the tree sits at exactly one in-order position, the keys are distinct, and the map holds that record's state under its key |
| Tracker.FindWordInTree | src/appDomain/WordTracker.java:173-178 | non-null iff the word's key is in the tree, and then a stored record with that key |
| Tracker.AddToExisting | src/appDomain/WordTracker.java:124-126 | updating a stored record in place keeps the tree valid with the same records; the map changes only at that key, by one occurrence |
| Tracker.InsertRecord | src/appDomain/WordTracker.java:130 | inserting an absent key grows the size by one and adds that key with the record's state to the map |
| Tracker.AddNewWord | src/appDomain/WordTracker.java:127-131 | a new record with one occurrence enters the tree; the map gains that key with one occurrence |
| Tracker.RecordWord | src/appDomain/WordTracker.java:117-133 | a token adds a record iff its key was absent; the size grows by one exactly then; the map is the reference update by one occurrence |
| Tracker.RecordLine | src/appDomain/WordTracker.java:114-134 | the map becomes the reference fold of the line's tokens, and the count returned is the growth of the size |
| Tracker.ReadLines | src/appDomain/WordTracker.java:106-136 | lines are numbered from 1, the map becomes the reference fold of the file, and the summary is the number of lines and the growth of the size |
| Tracker.ProcessInputFile | src/appDomain/WordTracker.java:99-141 | a missing file fails with the input-not-found error and changes nothing; otherwise the map becomes the reference fold of the file, with the summary of lines read and words added |
| Tracker.RenderRecord | src/appDomain/WordTracker.java:202-212 | -pf, -pl and -po each produce one line, the matching rendering of the record; any other mode produces none |
| Tracker.GenerateOutput | src/appDomain/WordTracker.java:197-213 | one line per record for a known mode, none otherwise; the i-th line renders the i-th record, and the records are in strictly ascending key order |

## Left out

- Command-line handling, usage text, the display-format captions, the serialized repository (`loadRepository`/`saveRepository`), the test programs, `hashCode` and both `toString` methods. They are I/O or presentation and have no logic to verify.
- File and console I/O. `processInputFile` takes the file's existence as a flag and its lines as a sequence, so reading lines with `Scanner` is not modelled. The report is returned as a sequence of lines, so `PrintWriter`, the headers and the closing messages are not modelled.
- Unicode and the default locale. `toLowerCase()` without an argument lower-cases by the JVM's default locale. The model assumes a locale whose lower-casing maps `A`-`Z` to `a`-`z` and leaves every other ASCII character alone, as `Locale.ROOT` does. Under a Turkish or Azeri default locale `I` lowers to the non-ASCII `ı` (U+0131); that locale dependence is not modelled. Under that assumption every key a cleaned line can produce is ASCII.
- `String.compareTo` is modelled on characters. For ASCII text this matches Java's UTF-16 code-unit order.
- Java's 32-bit `int` wrap-around of `lineNumber`, `wordsAdded`, `size` and `totalFrequency` is not modelled. Counters are unbounded integers, because a file would need more than 2^31 lines or words for the difference to show.
- Trees.BSTree: it is specialised to `Word` records, the only element type the application stores. It is ordered by `compareTo`, which depends only on the immutable key. The node class and the structural operations (`findMin`/`findMax`, the remove helpers, traversals, height) stay generic.
- `BSTreeADT` and `Iterator` are interfaces that are not part of this model. Their contracts are taken from `BSTree` itself.
- The enumeration order of `HashMap.keySet()` is not modelled. The renderers return the order they used as a ghost value, and the contracts only require that order to list each recorded file exactly once. Exact strings are stated only for single-file records.
- External mutation through the node returned by `getRoot`/`search` is not modelled. The tree is treated as encapsulated.
- Words.Word.GetFileLocations and Words.Word.GetLineNumbers: they return values. Java returns the record's live `HashMap` and `ArrayList`, so a caller's changes to them would change the record; that aliasing is not modelled.
- Trees.BSTree.Add: after a successful add the new structure is stated through the in-order sequence, the fresh nodes and the helpers' frames. It is not stated directly that exactly one null link now points to a fresh leaf.
- Lines are split at each whitespace character and empty pieces are then dropped. This gives the same tokens as `split("\\s+")` followed by the empty-token filter. Java's trailing-empty-string removal in `split` is covered by that filter.
- LineCleaning.ApostropheTokens: the example `"Hello, my name is Kitty."` from the test program is not computed as a lemma, because evaluating it is too costly for the verifier. The `it's` example and the general token lemmas are stated instead.
- Tracker.ProcessInputFile: it states that the tree's footprint only grows by fresh nodes, but not the frame of the mutated records. `ReadLines` and the per-line methods state that frame.
- Tracker.ReadLines: the number of words added is stated as the growth of the tree's size, not directly as the number of new distinct tokens. `SizeIsKeyCount` together with `Ingest.NewKeysCount` connects the two.
- The traversal buffer (`ArrayList<E>`) is modelled as a sequence value held by the iterator.
