# TextSearch catalog, modelled in Dafny

TextSearch is an in-memory word-search catalog. A client asks the catalog to index
a file or a directory, optionally tracking later changes. It gets back a disposable
handle and can then ask which indexed files contain a word, ignoring case. This project
models the core of the catalog as sequential state machines and proves what each
part promises.

- **Streaming lexer** (`Lexers`, `LexerSpec`). `StringLexer` keeps a window
  (offset, count) over a rented array of 4096 characters. It skips non-letters,
  delimits a maximal run of letters and refills by moving the unconsumed tail to
  index 0 and reading into the space behind it. The stream is a `TextReader` whose
  reads deliver any number of characters from one up to the number requested.
  Every method is proved against `Lex`, a pure function of the unconsumed input.
  `Lex` is in turn related to `Words`, the reference definition "the maximal letter
  runs of length at least two, in input order".
- **Word-index backends** (`Indexes`). The HashSet and ConcurrentDictionary builders
  and indexes share a case-insensitive set, `FoldedSet`. Case folding is a
  parameter `fold`. `Spellings` is the reference definition of what such a set holds
  after a sequence of adds. `EmptyWordIndex` is the index of a file before its first
  build and after its teardown.
- **Lifecycle guards**:
  - `DisposeStates`: the Alive, Disposing, Disposed guard.
  - `Reporting`: `LexingProcessReporter` and its `ProcessToken`. Each index build
    cancels the previous one and shares or renews the completion that waiters
    observe.
  - `TextSearch.IndexedFile`: reference counting, the once-only teardown and the
    build that installs a finished index by a single swap.
  - `TextSearch.IndexedDirectory`: disposes its held files once.
- **Registry and trackers** (`TextSearch`). `TextSearchCatalog` is a map from full
  path to indexed file, with an append-only log of Added, Removed and Changed
  records. `TrackedFile` and `TrackedDirectory` react to Created, Changed, Deleted
  and Renamed notifications.

The file system is a parameter `fs` that maps a full path to the file's characters.
A path absent from `fs` is a file that cannot be opened. The Unicode letter test is
a parameter `isLetter`, so every lexer result holds for any classification. Each
event handler, and each await-free stretch of an async method, is one atomic step.
`IndexedFile.UpdateIndexAsync` is split into `StartUpdate` (the guard and the new
process token) and `ContinueUpdate` (the build), so another build or a Dispose can
come between them. `IndexFileAsync` and `IndexDirectoryAsync` are split into the
request up to its await and `Settle`, the code after it. A catalog Dispose can run
between the two. `ContinueUpdate` accepts the token of any build, also one that a
later `StartUpdate` has already interrupted (`IndexedFile.OvertakenUpdate`).

The lexer's treatment of over-long runs is modelled as written. A run that fills the
whole array is dropped, and the next delimited run is then skipped as its tail. So
a run of exactly 4096 letters followed by a separator also swallows the next word
(`LexerSpec.FullBufferRunSkipsNextWord`). When every run is shorter than the
array, the lexemes are exactly `Words` of the input, however the reads split it
(`LexerSpec.LexMatchesWords` with `Lexers.ReadAllLexemes`).

## Model

| member | source | states |
|---|---|---|
| DisposeStates.Initial | TextSearch/DisposeState.cs:7-13 | the default guard is Alive and not disposed |
| DisposeStates.DisposeState.TrySetDisposing | TextSearch/DisposeState.cs:15-18 | succeeds exactly when the guard is Alive and then leaves it Disposing; otherwise the state is unchanged |
| DisposeStates.DisposeState.IsDisposed | TextSearch/DisposeState.cs:13 | Alive is not disposed; Disposing and Disposed both are |
| DisposeStates.DisposeState.SetDisposed | TextSearch/DisposeState.cs:19-22 | always ends Disposed, which counts as disposed |
| DisposeStates.DisposeState.ToString | TextSearch/DisposeState.cs:25-31 | names 0, 1 and 2 Alive, Disposing and Disposed, and any other code Unknown |
| DisposeStates.NeverBackToAlive | TextSearch/DisposeState.cs:15-22 | once the guard has left Alive, no sequence of calls brings it back and no TrySetDisposing succeeds |
| DisposeStates.AtMostOneDisposer | TextSearch/DisposeState.cs:15-18 | in any sequence of calls at most one TrySetDisposing returns true, only from Alive, and a leading TrySetDisposing on an Alive guard is that one |
| Reporting.CompletionSource.TrySetResult | TextSearch/LexingProcessReporter.cs:38 | completes the completion; reports a change only when it was pending, so completing twice is harmless |
| Reporting.CancellationSource.Cancel | TextSearch/LexingProcessReporter.cs:24 | a cancellation, once requested, is set |
| Reporting.ProcessCounter.Increment | TextSearch/LexingProcessReporter.cs:57 | the shared counter grows by one and the new value is returned |
| Reporting.ProcessToken.IsInterrupted | TextSearch/LexingProcessReporter.cs:50 | a token is interrupted exactly when its own cancellation has been requested |
| Reporting.ProcessToken.MarkSuccessful | TextSearch/LexingProcessReporter.cs:63-66 | the token becomes successful and keeps its number, completion and cancellation |
| Reporting.ProcessToken.Dispose | TextSearch/LexingProcessReporter.cs:68-80 | a successful token completes its completion; an unsuccessful one leaves it as it was |
| Reporting.NewProcessToken | TextSearch/LexingProcessReporter.cs:52-61 | a new token takes the next process number, so numbers strictly increase, and starts unsuccessful |
| Reporting.LexingProcessReporter.constructor | TextSearch/LexingProcessReporter.cs:15-19 | a new reporter has a pending completion and an uncancelled source |
| Reporting.LexingProcessReporter.StartNew | TextSearch/LexingProcessReporter.cs:22-34 | the previous source is cancelled and retired, so every earlier token is interrupted; the new token is not. A pending completion is kept and shared; a completed one is replaced by a fresh pending one |
| Reporting.LexingProcessReporter.RetiredTokenInterrupted | TextSearch/LexingProcessReporter.cs:22-34 | the token of any earlier build reads as interrupted and shares no cancellation with the current build |
| Reporting.LexingProcessReporter.SetCompleted | TextSearch/LexingProcessReporter.cs:36-39 | the current completion is completed |
| Lexers.TextReader.Read | TextSearch/Lexers/StringLexer.cs:75-78 | a read copies the next characters of the input into the requested slice and nothing else; 0 means end of input |
| Lexers.IsProperWord | TextSearch/Lexers/StringLexer.cs:130-138 | a run of one character or none is not a word; a run of two or more is |
| Lexers.IndexOfNonLetter | TextSearch/Lexers/StringLexer.cs:101-114 | -1 exactly when all characters are letters; otherwise the first non-letter, with only letters before it |
| Lexers.FirstLetter | TextSearch/Lexers/StringLexer.cs:91-97 | the first letter of the window, or its end when there is none, with only separators before it |
| Lexers.ConstrainedCopy | TextSearch/Lexers/StringLexer.cs:148 | the slice is copied to the front of the array and the rest of the array is unchanged |
| Lexers.StringLexer.constructor | TextSearch/Lexers/StringLexer.cs:19-27 | a fresh array of 4096 characters with an empty window; the whole input is still pending |
| Lexers.StringLexer.SkipNonLetters | TextSearch/Lexers/StringLexer.cs:85-100 | the window loses a prefix made only of separators and keeps the rest as it was, so the lexemes still to come are unchanged; the window then starts with a letter or is empty at offset 0 |
| Lexers.StringLexer.CopyTailToBeginning | TextSearch/Lexers/StringLexer.cs:140-150 | the window moves to index 0 unchanged; a window already at 0 stays; an empty window past 0 becomes the whole array |
| Lexers.StringLexer.DelimitRun | TextSearch/Lexers/StringLexer.cs:36-41 | after skipping separators, the run at the front of the window is delimited by a separator or by end of input, or the window is all letters and input remains |
| Lexers.StringLexer.DropFullWindow | TextSearch/Lexers/StringLexer.cs:43-48 | a window that is one run filling the array is discarded, and the lexemes still to come are those of the rest with the next run skipped |
| Lexers.StringLexer.TakeWord | TextSearch/Lexers/StringLexer.cs:50-69 | the delimited run is consumed; it is the next lexeme exactly when it is not a skipped tail and has at least two characters |
| Lexers.StringLexer.FillBuffer | TextSearch/Lexers/StringLexer.cs:71-79 | the window moves to index 0 and reads only into the space behind it, so nothing pending is lost; end of file exactly when the input was exhausted |
| Lexers.StringLexer.Step | TextSearch/Lexers/StringLexer.cs:36-80 | one pass of the loop finds the next lexeme, proves there is none left, or continues with the lexemes still to come unchanged |
| Lexers.StringLexer.NextLexeme | TextSearch/Lexers/StringLexer.cs:30-83 | true with the first lexeme still to come, the rest remaining; false only when nothing is pending and no lexeme remains, so every later call also returns false |
| Lexers.StringLexer.Dispose | TextSearch/Lexers/StringLexer.cs:153-161 | installs an empty array and hands back the rented one only when it was non-empty, so a second Dispose returns nothing |
| Lexers.ReadAllLexemes | TextSearch/IndexedFile.cs:71-91 | driving a fresh lexer until it reports the end yields exactly Lex of the whole input, however the reads split it |
| LexerSpec.RunLength | TextSearch/Lexers/StringLexer.cs:101-114 | the length of the leading letter run: all letters before it and a non-letter or the end at it |
| LexerSpec.LexemeShape | TextSearch/Lexers/StringLexer.cs:50-69 | every lexeme has at least two and fewer than 4096 characters, all letters |
| LexerSpec.LexemesAreInputWords | TextSearch/Lexers/StringLexer.cs:85-114 | every lexeme is a maximal letter run of the input, bounded by separators or the input's ends |
| LexerSpec.LexMatchesWords | TextSearch/Lexers/StringLexer.cs:30-83 | when every letter run is shorter than the array, the lexemes are exactly the input's runs of length at least two, in order |
| LexerSpec.LexSkipsNonLetters | TextSearch/Lexers/StringLexer.cs:85-100 | leading separators do not change the lexemes |
| LexerSpec.LexDropsFullWindow | TextSearch/Lexers/StringLexer.cs:43-48 | a run of array length is dropped and the lexer goes on skipping |
| LexerSpec.FullBufferRunSkipsNextWord | TextSearch/Lexers/StringLexer.cs:43-62 | after a run of exactly the array's length and a separator, the next word is skipped as that run's tail even though it fits |
| Indexes.SpellingsMatch | TextSearch/Indexes/HashSetIndexBuilder.cs:8-15 | after a sequence of adds, a word matches exactly when some added word equals it ignoring case |
| Indexes.SpellingsAreFirst | TextSearch/Indexes/ConcurrentDictionaryIndexBuilder.cs:8-15 | the kept elements are pairwise distinct ignoring case, and each is the first added spelling of its class |
| Indexes.FoldedSet.constructor | TextSearch/Indexes/HashSetIndexBuilder.cs:8 | a new set is empty |
| Indexes.FoldedSet.Contains | TextSearch/Indexes/HashSetIndex.cs:20-23 | an element is contained, and nothing is contained in the empty set |
| Indexes.FoldedSet.Add | TextSearch/Indexes/ConcurrentDictionaryIndexBuilder.cs:15 | adds the word exactly when no equal word is present; a later case variant never replaces the first spelling |
| Indexes.FoldedSet.Clear | TextSearch/Indexes/HashSetIndex.cs:28 | the set is empty and contains no word |
| Indexes.HashSetIndexBuilder.constructor | TextSearch/Indexes/HashSetIndexBuilder.cs:8-9 | an empty set under the given comparer and a count of zero |
| Indexes.HashSetIndexBuilder.Add | TextSearch/Indexes/HashSetIndexBuilder.cs:12-16 | the count grows by one, duplicates included, and the set stays the spellings of all added words |
| Indexes.HashSetIndexBuilder.WithLexer | TextSearch/Indexes/HashSetIndexBuilder.cs:18-21 | changes nothing |
| Indexes.HashSetIndexBuilder.Build | TextSearch/Indexes/HashSetIndexBuilder.cs:23-26 | the index wraps the builder's own set, not a copy, and counts every add |
| Indexes.HashSetIndex.constructor | TextSearch/Indexes/HashSetIndex.cs:13-17 | wraps the given set and count |
| Indexes.HashSetIndex.Count | TextSearch/Indexes/HashSetIndex.cs:11 | the count fixed at construction, also after Dispose |
| Indexes.HashSetIndex.Contains | TextSearch/Indexes/HashSetIndex.cs:20-23 | membership in the wrapped set under its comparer, reading only the set |
| Indexes.HashSetIndex.Dispose | TextSearch/Indexes/HashSetIndex.cs:26-29 | the set is cleared, so no word is contained |
| Indexes.ConcurrentDictionaryIndexBuilder.constructor | TextSearch/Indexes/ConcurrentDictionaryIndexBuilder.cs:8-9 | an empty dictionary under the given comparer and a count of zero |
| Indexes.ConcurrentDictionaryIndexBuilder.Add | TextSearch/Indexes/ConcurrentDictionaryIndexBuilder.cs:12-16 | the count grows by one, duplicates included, and TryAdd keeps the first spelling |
| Indexes.ConcurrentDictionaryIndexBuilder.WithLexer | TextSearch/Indexes/ConcurrentDictionaryIndexBuilder.cs:18-21 | changes nothing |
| Indexes.ConcurrentDictionaryIndexBuilder.Build | TextSearch/Indexes/ConcurrentDictionaryIndexBuilder.cs:23-26 | the index shares the builder's dictionary and counts every add |
| Indexes.ConcurrentDictionaryIndex.constructor | TextSearch/Indexes/ConcurrentDictionaryIndex.cs:14-20 | wraps the given dictionary and count |
| Indexes.ConcurrentDictionaryIndex.Count | TextSearch/Indexes/ConcurrentDictionaryIndex.cs:12 | the count fixed at construction |
| Indexes.ConcurrentDictionaryIndex.Contains | TextSearch/Indexes/ConcurrentDictionaryIndex.cs:23-26 | key membership under the dictionary's comparer, reading only the dictionary |
| Indexes.ConcurrentDictionaryIndex.Dispose | TextSearch/Indexes/ConcurrentDictionaryIndex.cs:29-32 | the dictionary is cleared, so no word is contained; the count is kept |
| Indexes.EmptyWordIndex.Instance | TextSearch/Indexes/EmptyWordIndex.cs:5 | every read yields a new object |
| Indexes.EmptyWordIndex.Count | TextSearch/Indexes/EmptyWordIndex.cs:8 | always 0 |
| Indexes.EmptyWordIndex.Contains | TextSearch/Indexes/EmptyWordIndex.cs:11-14 | false for every word |
| Indexes.EmptyWordIndex.Dispose | TextSearch/Indexes/EmptyWordIndex.cs:17-20 | has no effect |
| Indexes.WordIndex.Contains | TextSearch/IWordIndex.cs:19 | whichever the backend, a word is contained exactly when the index holds a word equal to it ignoring case |
| Indexes.WordIndex.Dispose | TextSearch/IWordIndex.cs:8 | whichever the backend, the index then holds and contains nothing |
| Indexes.WordIndexBuilder.Add | TextSearch/Indexes/HashSetIndexBuilder.cs:12-16 | the added word is appended to the words added so far |
| Indexes.WordIndexBuilder.Build | TextSearch/Indexes/ConcurrentDictionaryIndexBuilder.cs:23-26 | the built index counts every added word and holds the spellings of the added words, within the builder's own objects |
| Indexes.NewBuilder | TextSearch/Indexes/HashSetIndexBuilderFactory.cs:6-9 | a new, empty builder of the configured backend |
| TextSearch.IndexedFile.constructor | TextSearch/IndexedFile.cs:27-52 | reference count 0, alive, and the empty index: WordCount 0 and HasWord false for every word |
| TextSearch.IndexedFile.IndexedWords | TextSearch/IndexedFile.cs:54-57 | once an index built from some lexemes is installed, HasWord holds exactly for the words one of those lexemes equals ignoring case |
| TextSearch.IndexedFile.HasWord | TextSearch/IndexedFile.cs:54-57 | a word of the current index matches ignoring case |
| TextSearch.IndexedFile.WordCount | TextSearch/IndexedFile.cs:23 | the empty index counts 0 |
| TextSearch.IndexedFile.StartUpdate | TextSearch/IndexedFile.cs:59-68 | a disposed file changes nothing; otherwise a new build starts, interrupting the previous one, with the next process number and a pending completion, the old one when it was pending |
| TextSearch.IndexedFile.ContinueUpdate | TextSearch/IndexedFile.cs:69-111 | for the token of any build, current or earlier: a file that cannot be opened keeps its index; a build stopped by interruption or disposal installs nothing and does not complete; otherwise the lexemes' index is installed, completion set and Changed published; a disposed file ends with the empty index unless the build returned early |
| TextSearch.IndexedFile.Build | TextSearch/IndexedFile.cs:71-101 | the build stops exactly when some lexeme arrives while interrupted or disposed; otherwise the installed index counts the file's lexemes and holds their spellings |
| TextSearch.IndexedFile.BuildFrom | TextSearch/IndexedFile.cs:79-101 | the same for given lexemes: stopped builds change neither index nor events nor completion |
| TextSearch.IndexedFile.Compile | TextSearch/IndexedFile.cs:75-93 | no index exactly when the build is stopped; otherwise a new index with the lexemes' count and spellings |
| TextSearch.IndexedFile.Install | TextSearch/IndexedFile.cs:95-101 | the index is swapped in whole, Changed is published and the completion completed |
| TextSearch.IndexedFile.Feed | TextSearch/IndexedFile.cs:79-91 | interrupted exactly when there is a lexeme and the build is interrupted or the file disposed; otherwise every lexeme was added in order |
| TextSearch.IndexedFile.UpdateIndexAsync | TextSearch/IndexedFile.cs:59-112 | on a disposed file nothing changes: index, events, reporter, completion, cancellation and process counter are kept; otherwise a readable file's lexemes are installed with their count and Changed published, and an unreadable file keeps its index |
| TextSearch.IndexedFile.OvertakenUpdate | TextSearch/IndexedFile.cs:59-111 | when a build resumes after a newer one started, a file with lexemes keeps its index and events and the shared completion stays pending for the newer build; a file without lexemes still gets an empty index, Changed and a completed completion |
| TextSearch.IndexedFile.Cleanup | TextSearch/IndexedFile.cs:113-117 | the empty index replaces the current one, which is disposed |
| TextSearch.IndexedFile.IncrementRefCount | TextSearch/IndexedFile.cs:119-122 | one reference more |
| TextSearch.IndexedFile.ZeroRefCount | TextSearch/IndexedFile.cs:123-126 | the count becomes 0, so one following Dispose tears the file down |
| TextSearch.IndexedFile.Dispose | TextSearch/IndexedFile.cs:129-146 | one reference fewer; at or below zero, and only the first time, the catalog drops the file, the index becomes empty, waiters are released and the file ends Disposed; any other release leaves the index, its contents and the completion untouched |
| TextSearch.IndexedDirectory.constructor | TextSearch/IndexedDirectory.cs:14-22 | holds the given files and starts Alive |
| TextSearch.IndexedDirectory.Dispose | TextSearch/IndexedDirectory.cs:25-38 | the first call disposes every held file once and ends Disposed; later calls change nothing |
| TextSearch.IndexedDirectory.ReleaseAll | TextSearch/IndexedDirectory.cs:32-35 | every held file loses exactly one reference |
| TextSearch.TrackedFile.constructor | TextSearch/ChangeTracking/TrackedFile.cs:19-42 | the watched directory is the path's directory part; a watcher exists only when there is one; nothing held |
| TextSearch.TrackedFile.StartTracking | TextSearch/ChangeTracking/TrackedFile.cs:44-60 | the watcher is on and the held file is the catalog's file for the path, with one reference more; every other registered file keeps its count and index |
| TextSearch.TrackedFile.FileChanged | TextSearch/ChangeTracking/TrackedFile.cs:62-83 | rebuilds the held file's index; with nothing held or after Dispose nothing happens |
| TextSearch.TrackedFile.FileDeleted | TextSearch/ChangeTracking/TrackedFile.cs:84-106 | the held file's count is zeroed, it is disposed and torn down, and the field cleared; with nothing held it is a no-op |
| TextSearch.TrackedFile.FileCreated | TextSearch/ChangeTracking/TrackedFile.cs:107-135 | with nothing held, the catalog's file for the notified path is held; otherwise ignored, with the tracker, the catalog, its registered files and the process counter unchanged |
| TextSearch.TrackedFile.FileRenamed | TextSearch/ChangeTracking/TrackedFile.cs:137-147 | a rename away from the path acts as Deleted: the held file ends at count -1 and, when it was live, Disposed and unregistered; otherwise a rename onto it acts as Created: the catalog registers the held file under the rebuilt path; never both; a disposed tracker, or a rename that matches nothing to do, leaves the tracker, the catalog, its files and the process counter unchanged |
| TextSearch.TrackedFile.Dispose | TextSearch/ChangeTracking/TrackedFile.cs:150-166 | only the first call acts: the watcher stops, the held file loses one reference and is cleared, and the state ends Disposed |
| TextSearch.RenamedDeletedPathAsWritten | TextSearch/ChangeTracking/TrackedDirectory.cs:168-171 | a path is forwarded exactly when the old full path has a directory part |
| TextSearch.RenameInSubdirectoryMissesFile | TextSearch/ChangeTracking/TrackedDirectory.cs:166-172 | for a rename inside a subdirectory, the forwarded path repeats the subdirectory and differs from the renamed file's path |
| TextSearch.RenameAtTopLevelFindsFile | TextSearch/ChangeTracking/TrackedDirectory.cs:166-172 | for a file directly in the watched directory, the forwarded path is the old full path |
| TextSearch.ReleaseEach | TextSearch/ChangeTracking/TrackedDirectory.cs:193-198 | every held file loses exactly one reference |
| TextSearch.TrackedDirectory.constructor | TextSearch/ChangeTracking/TrackedDirectory.cs:20-44 | a watcher exists only for a non-empty path; the map is empty |
| TextSearch.TrackedDirectory.StartTracking | TextSearch/ChangeTracking/TrackedDirectory.cs:47-77 | every listed file is indexed and held under its full path; already held paths keep their file; each registered file gains one reference per mention in the listing and keeps its index |
| TextSearch.TrackedDirectory.HoldFirst | TextSearch/ChangeTracking/TrackedDirectory.cs:67-71 | each file is added under its path unless the path is held, so the first entry wins |
| TextSearch.TrackedDirectory.FileChanged | TextSearch/ChangeTracking/TrackedDirectory.cs:79-106 | rebuilds the file held under the notified path; an unknown path, or a disposed tracker, changes nothing, the held file included |
| TextSearch.TrackedDirectory.FileDeleted | TextSearch/ChangeTracking/TrackedDirectory.cs:107-133 | a known path is removed from the map, its count zeroed and the file torn down; an unknown path, or a disposed tracker, changes nothing, the held and registered files included |
| TextSearch.TrackedDirectory.FileCreated | TextSearch/ChangeTracking/TrackedDirectory.cs:134-165 | a known path, or a disposed tracker, is ignored, with the registered files and the process counter unchanged; otherwise the catalog's file for the path is added under it, and the registry changes only at that path (a fresh file when the path was new) |
| TextSearch.TrackedDirectory.UnderRoot | TextSearch/ChangeTracking/TrackedDirectory.cs:168-174 | a path passes the gate exactly when it has a directory part that starts with the root, compared ordinally; such a path starts with the root and has a separator after it |
| TextSearch.TrackedDirectory.FileRenamed | TextSearch/ChangeTracking/TrackedDirectory.cs:166-178 | Deleted fires for the old full path when its directory starts with the root: the held file ends at count -1 and, when it was live, Disposed and no longer registered under that path; Created fires for the new full path when its directory does: the catalog registers it under the file now held; both can fire and no other entry changes; a disposed tracker, or a rename with neither path under the root, changes nothing |
| TextSearch.TrackedDirectory.Dispose | TextSearch/ChangeTracking/TrackedDirectory.cs:181-202 | only the first call acts: the watcher stops, every held file loses one reference, and the state ends Disposed; later calls change neither the tracker, the catalog nor the held files |
| TextSearch.TextSearchCatalog.constructor | TextSearch/TextSearchCatalog.cs:25-42 | an empty registry, an empty event log, and not disposed |
| TextSearch.TextSearchCatalog.OnFileIndexUpdated | TextSearch/TextSearchCatalog.cs:192-195 | always publishes Changed |
| TextSearch.TextSearchCatalog.OnFileIndexDisposed | TextSearch/TextSearchCatalog.cs:196-203 | removes the path and publishes Removed, only when it was registered |
| TextSearch.TextSearchCatalog.IndexFile | TextSearch/TextSearchCatalog.cs:123-161 | a registered path keeps its file, gains a reference and publishes nothing; a new path gets a new registered file with one reference, one Added record, and one build whose words are the file's; every other registered file keeps its count and index |
| TextSearch.TextSearchCatalog.IndexDirectory | TextSearch/TextSearchCatalog.cs:163-174 | a new directory handle holds the registered file of each listed path, in listing order; each listed file gains exactly one reference (a new one holds one); registered files keep their index, and unlisted ones their count |
| TextSearch.TextSearchCatalog.IndexFiles | TextSearch/TextSearchCatalog.cs:167-170 | one IndexFile per listed path, in order: each path ends registered under the returned file; a file gains one reference per mention of its path, and registered paths keep their file and index |
| TextSearch.TextSearchCatalog.IndexAndTrackFile | TextSearch/TextSearchCatalog.cs:113-122 | a new tracker for the path, already holding the registered file, which gains one reference; every other registered file keeps its count and index |
| TextSearch.TextSearchCatalog.IndexAndTrackDirectory | TextSearch/TextSearchCatalog.cs:175-182 | a new tracker for the directory, holding exactly the listed paths' registered files; each gains one reference per mention of its path, and registered files keep their index |
| TextSearch.TextSearchCatalog.IndexFileAsync | TextSearch/TextSearchCatalog.cs:45-60 | refused exactly when the catalog is disposing or disposed, with the catalog, its files and the process counter unchanged; otherwise the file or a new tracker of it |
| TextSearch.TextSearchCatalog.IndexDirectoryAsync | TextSearch/TextSearchCatalog.cs:72-87 | refused exactly when the catalog is disposing or disposed, with the catalog, its files and the process counter unchanged; otherwise a new directory handle or tracker |
| TextSearch.TextSearchCatalog.DisposeHandle | TextSearch/TextSearchCatalog.cs:63 | disposing a handle releases a file's reference, leaving the registry as it was unless the file was torn down, and its index and contents as they were while references remain, or disposes the directory or tracker |
| TextSearch.TextSearchCatalog.Settle | TextSearch/TextSearchCatalog.cs:61-68 | a catalog disposed meanwhile disposes the handle (a live directory or tracker ends Disposed, a registered file ends Disposed), drains the registry and refuses; otherwise the handle is returned, and the catalog, everything it owns and the handle's objects are unchanged |
| TextSearch.TextSearchCatalog.Search | TextSearch/TextSearchCatalog.cs:99-111 | refused exactly when disposed; otherwise exactly the registered paths whose file has the word, each once |
| TextSearch.TextSearchCatalog.CleanupIndexedFiles | TextSearch/TextSearchCatalog.cs:204-214 | the registry ends empty; every file registered before is torn down, with exactly one Removed record each, and no disposed file comes back |
| TextSearch.TextSearchCatalog.DisposeAll | TextSearch/TextSearchCatalog.cs:208-212 | one pass of the foreach empties the registry and publishes one Removed record per entry |
| TextSearch.TextSearchCatalog.DisposeEntry | TextSearch/TextSearchCatalog.cs:210-211 | zeroing and disposing an entry unregisters exactly it and appends its Removed record |
| TextSearch.TextSearchCatalog.Dispose | TextSearch/TextSearchCatalog.cs:217-227 | the first call drains the registry and ends Disposed; later calls keep the state, registry and log, and every registered file unchanged |
| FileSystemPaths.Combine | TextSearch/ChangeTracking/TrackedDirectory.cs:171 | one separator between a directory and a relative name |
| FileSystemPaths.DirectoryName | TextSearch/ChangeTracking/TrackedDirectory.cs:168 | none exactly when there is no separator; otherwise everything before the last separator |
| FileSystemPaths.DirectoryOfCombine | TextSearch/ChangeTracking/TrackedDirectory.cs:168-171 | the directory part of a plain name joined to a directory is that directory |

## Left out

- Null-argument checks: non-null reference types exclude them. These are the checks in IndexedDirectory.cs:16-18, ConcurrentDictionaryIndex.cs:16, StringLexer.cs:21-23, TrackedFile.cs, TrackedDirectory.cs:22-24, TextSearchCatalog.cs:30-32 and the per-method checks.
- The null-element check of the IndexedDirectory constructor: a sequence of non-null files cannot hold null.
- The lost-`TryAdd` retry in `IndexFile` (TextSearchCatalog.cs:145-149) and the dispose after a failed add in the directory tracker's Created handler: with atomic steps, nothing else can add the path in between.
- Interleavings other than the modelled split points: a build racing a Dispose in the middle of its lexing loop, or two handlers of one tracker overlapping. Locks and semaphores are not modelled because every handler is atomic.
- `await indexedFile.LexingCompletion` for a registered path: waiting for the completion is not modelled. The model only shows the completion being shared and completed.
- File I/O: opening, decoding and its exceptions. A file absent from `fs` is the failed open. Directory listing is a given sequence of full paths. `IndexDirectory` and `IndexDirectoryAsync` require that the listing names each file once, as a recursive listing does.
- `FileSystemWatcher`: notifications are calls of the handlers. A watcher is a `watching` flag. Its event arguments are full paths, or a `RenameEvent` of directory and relative names.
- `Path.GetDirectoryName` is simplified to "everything before the last backslash". Drive roots, alternative separators and normalisation are not modelled.
- Unicode `IsLetter` and the OrdinalIgnoreCase comparer are the parameters `isLetter` and `fold`.
- The Patricia-trie backend, the factories beyond choosing a backend, the WinForms application, logging and `Stopwatch` timing.
- The Subject event stream is an append-only sequence of records. Delivery to subscribers is not modelled.
- `Search` is lazy in the source: it checks disposal when enumeration starts and reads the live registry. The model checks and collects eagerly.
- `ArrayPool`: renting is a new array of 4096 characters, and returning is the boolean result of `StringLexer.Dispose`.
- Lexers.StringLexer.NextLexeme: requires a non-empty array. After Dispose the source's loop over a zero-length array never ends, and the model does not include that call.
- Integer widths: reference counts, word counts and process numbers are unbounded. 32-bit wrap-around is not modelled.
- TextSearch.TextSearchCatalog.Settle: for a file handle, states that a registered file ends Disposed, but not the final reference count of a file that was no longer registered.
- TextSearch.TextSearchCatalog.DisposeHandle: for a directory or tracker handle, states the final state of the handle; how many references each held file loses is stated by that handle's own Dispose.

## Findings

| source | as written | input that shows it | evidently intended | confidence | as-written member | corrected member |
|---|---|---|---|---|---|---|
| TextSearch/ChangeTracking/TrackedDirectory.cs:166-178 | Renamed forwards to Deleted (and Created) the directory part of the old (new) full path joined with `OldName` (`Name`). Those names are relative to the watched directory, so they already contain any subdirectory. | a rename of `old` to `new` inside subdirectory `sub` of watched directory `d`: the forwarded path is `d\sub\sub\old`, not `d\sub\old` | forward `OldFullPath` and `FullPath` themselves | not executed | TextSearch.RenameInSubdirectoryMissesFile | TextSearch.TrackedDirectory.FileRenamed |
