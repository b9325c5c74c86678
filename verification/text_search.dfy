// The catalog: a registry of indexed files keyed by full path, the files with
// their reference counts and index builds, directory handles, and the change
// trackers that react to file-system events. Every handler and every await-free
// stretch of an async method is one atomic step; the file system is a parameter
// mapping a full path to the file's characters.
module TextSearch {
  import opened DisposeStates
  import opened Indexes
  import opened Reporting
  import opened FileSystemPaths
  import LexerSpec
  import Lexers

  /** What a read of the file system sees: a path that is absent cannot be opened. */
  type FileSystem = map<string, seq<char>>

  /** Records published on the catalog's event stream. */
  datatype CatalogEvent = FileAdded(path: string) | FileRemoved(path: string) | FileChanged(path: string)

  /** The result of a public catalog operation: ObjectDisposedException once the
      catalog is disposing or disposed. */
  datatype Outcome<T> = Success(value: T) | ObjectDisposed

  /** The IDisposable an index request hands back. */
  datatype Handle =
    | FileHandle(file: IndexedFile)
    | DirectoryHandle(directory: IndexedDirectory)
    | TrackedFileHandle(trackedFile: TrackedFile)
    | TrackedDirectoryHandle(trackedDirectory: TrackedDirectory)
  {
    /** The handle object itself; a file is among the catalog's created files. */
    function Objects(): set<object>
    {
      match this
      case FileHandle(_) => {}
      case DirectoryHandle(d) => {d}
      case TrackedFileHandle(t) => {t}
      case TrackedDirectoryHandle(t) => {t}
    }
  }

  /** The lexemes the file's lexer yields for `content`. */
  ghost function FileLexemes(content: seq<char>, isLetter: char -> bool): seq<string>
  {
    LexerSpec.Lex(content, isLetter, Lexers.BufferSize, false)
  }

  /** Some lexeme equals `word` ignoring case. */
  ghost predicate Mentions(lexemes: seq<string>, word: string, fold: string -> string)
  {
    exists i :: 0 <= i < |lexemes| && fold(lexemes[i]) == fold(word)
  }

  /** The Removed records of `paths`, in order. */
  function Removals(paths: seq<string>): (events: seq<CatalogEvent>)
    ensures |events| == |paths|
    ensures forall i :: 0 <= i < |paths| ==> events[i] == FileRemoved(paths[i])
  {
    if paths == [] then [] else Removals(paths[..|paths| - 1]) + [FileRemoved(paths[|paths| - 1])]
  }

  /** One Dispose on `file`, stated as the loops over several files need it: one
      reference fewer, and only the file's own objects and its catalog changed. */
  method Release(file: IndexedFile)
    requires file.Owned()
    modifies file.catalog, file.DisposeFootprint()
    ensures file.Owned() && file.catalog.owned == old(file.catalog.owned)
    ensures file.catalog.disposeState == old(file.catalog.disposeState)
    ensures file.referenceCount == old(file.referenceCount) - 1
    ensures file.DisposeFootprint() <= old(file.DisposeFootprint())
    ensures file.index == old(file.index) || file.index.Empty?
  {
    file.Dispose();
  }

  class IndexedFile {
    const path: string
    /** Receives the rebuild and dispose callbacks. */
    const catalog: TextSearchCatalog
    const reporter: LexingProcessReporter
    var index: WordIndex
    var referenceCount: int
    var disposeState: DisposeState

    /** Everything the file's operations may change besides the catalog. */
    ghost function Footprint(): set<object>
      reads this, reporter
    {
      {this, reporter, reporter.completionSource, reporter.cancellationSource} + index.Footprint()
    }

    /** What Dispose may change besides the catalog. */
    ghost function DisposeFootprint(): set<object>
      reads this, reporter
    {
      {this, reporter.completionSource} + index.Footprint()
    }

    /** Reference count 0, the empty index, alive. */
    constructor (path: string, catalog: TextSearchCatalog)
      ensures this.path == path && this.catalog == catalog
      ensures fresh(Footprint()) && reporter.Valid()
      ensures referenceCount == 0 && disposeState.code == Alive
      ensures index.Empty? && WordCount() == 0 && forall w :: !HasWord(w)
    {
      this.path := path;
      this.catalog := catalog;
      reporter := new LexingProcessReporter();
      var empty := EmptyWordIndex.Instance();
      index := Empty(empty);
      referenceCount := 0;
      disposeState := Initial();
    }

    /** The file belongs to a consistent catalog. */
    ghost predicate Owned()
      reads this, catalog, catalog.owned
    {
      this in catalog.owned && catalog.Valid()
    }

    /** The current index holds the lexemes' distinct spellings under the catalog's comparer. */
    ghost predicate Indexes(lexemes: seq<string>)
      reads this, index.Footprint()
    {
      index.Elements() == Spellings(lexemes, catalog.fold) && index.Fold() == catalog.fold
    }

    /** An index built from `lexemes` holds exactly the words some lexeme equals ignoring case. */
    lemma IndexedWords(lexemes: seq<string>)
      requires Indexes(lexemes)
      ensures forall w :: HasWord(w) <==> Mentions(lexemes, w, catalog.fold)
    {
      forall w ensures HasWord(w) <==> Mentions(lexemes, w, catalog.fold) {
        SpellingsMatch(lexemes, catalog.fold, w);
      }
    }

    function HasWord(word: string): (b: bool)
      reads this, index.Footprint()
      ensures b <==> HasMatch(index.Elements(), word, index.Fold())
    {
      index.Contains(word)
    }

    function WordCount(): (n: int)
      reads this
      ensures index.Empty? ==> n == 0
    {
      index.Count()
    }

    /** The first stretch of UpdateIndexAsync: nothing on a disposed file; otherwise a
        new build is started, which interrupts the previous one. */
    method StartUpdate() returns (token: Option<ProcessToken>)
      requires Owned()
      ensures Owned() && catalog.owned == old(catalog.owned)
      modifies reporter, reporter.cancellationSource, catalog.processes
      ensures disposeState.IsDisposed() <==> token.None?
      ensures token.None? ==> unchanged(reporter, catalog.processes)
      ensures token.None? ==> reporter.cancellationSource.cancelled == old(reporter.cancellationSource.cancelled)
      ensures token.Some? ==>
        && old(reporter.cancellationSource).cancelled
        && token.value.completion == reporter.completionSource
        && token.value.cancellation == reporter.cancellationSource
        && fresh(reporter.cancellationSource) && !token.value.IsInterrupted() && !token.value.isSuccessful
        && (fresh(reporter.completionSource) || reporter.completionSource == old(reporter.completionSource))
        && (!old(reporter.completionSource.completed) ==> reporter.completionSource == old(reporter.completionSource))
        && !reporter.completionSource.completed
        && token.value.number == catalog.processes.last == old(catalog.processes.last) + 1
      ensures old(reporter.Valid()) ==> reporter.Valid()
    {
      if disposeState.IsDisposed() {
        return None;
      }
      var t := reporter.StartNew(catalog.processes);
      token := Some(t);
    }

    /** The build: open the file, feed its lexemes to a new builder while the build is
        neither interrupted nor the file disposed, install the result by a single swap,
        mark the build successful and report the rebuild. A file that cannot be opened
        leaves the previous index in place. When the build did not stop early and the
        file is disposed by then, the index is torn down. */
    method ContinueUpdate(token: ProcessToken, fs: FileSystem)
      requires Owned()
      ensures Owned() && catalog.owned == old(catalog.owned)
      requires !token.isSuccessful
      modifies this, catalog, token.completion, index.Footprint()
      ensures referenceCount == old(referenceCount) && disposeState == old(disposeState)
      ensures catalog.files == old(catalog.files) && catalog.disposeState == old(catalog.disposeState)
      ensures var stopped := path in fs && FileLexemes(fs[path], catalog.isLetter) != []
                             && (old(token.IsInterrupted()) || disposeState.IsDisposed());
              var installed := path in fs && !stopped;
              && catalog.events == old(catalog.events) + (if installed then [FileChanged(path)] else [])
              && (installed ==> token.completion.completed)
              && (!installed ==> token.completion.completed == old(token.completion.completed))
              && (installed && !disposeState.IsDisposed() ==>
                    && index.Count() == |FileLexemes(fs[path], catalog.isLetter)|
                    && Indexes(FileLexemes(fs[path], catalog.isLetter)))
              && (disposeState.IsDisposed() && !stopped ==> index.Empty? && forall w :: !HasWord(w))
              && (!installed && !(disposeState.IsDisposed() && !stopped) ==> index == old(index))
    {
      if path in fs {
        var stopped := Build(token, fs[path]);
        if stopped {
          return;
        }
      }
      if disposeState.IsDisposed() {
        Cleanup();
      }
    }

    /** The body of the try block once the file is open: lex it and build from its
        lexemes. Reports whether the build returned early. */
    method Build(token: ProcessToken, content: seq<char>) returns (stopped: bool)
      requires Owned()
      requires !token.isSuccessful
      modifies this, catalog, token.completion
      ensures Owned() && catalog.owned == old(catalog.owned)
      ensures referenceCount == old(referenceCount) && disposeState == old(disposeState)
      ensures catalog.files == old(catalog.files) && catalog.disposeState == old(catalog.disposeState)
      ensures stopped <==> FileLexemes(content, catalog.isLetter) != [] && (old(token.IsInterrupted()) || disposeState.IsDisposed())
      ensures stopped ==> index == old(index) && catalog.events == old(catalog.events)
      ensures stopped ==> token.completion.completed == old(token.completion.completed)
      ensures !stopped ==>
        && fresh(index.Footprint()) && index.Fold() == catalog.fold
        && catalog.events == old(catalog.events) + [FileChanged(path)]
        && token.completion.completed
        && index.Count() == |FileLexemes(content, catalog.isLetter)|
        && Indexes(FileLexemes(content, catalog.isLetter))
    {
      var lexemes := Lexers.ReadAllLexemes(content, catalog.isLetter);
      stopped := BuildFrom(token, lexemes);
    }

    /** Feeds `lexemes` to a new builder; unless the build is stopped, installs the
        index built from them. */
    method BuildFrom(token: ProcessToken, lexemes: seq<string>) returns (stopped: bool)
      requires Owned()
      requires !token.isSuccessful
      modifies this, catalog, token.completion
      ensures Owned() && catalog.owned == old(catalog.owned)
      ensures referenceCount == old(referenceCount) && disposeState == old(disposeState)
      ensures catalog.files == old(catalog.files) && catalog.disposeState == old(catalog.disposeState)
      ensures stopped <==> lexemes != [] && (old(token.IsInterrupted()) || disposeState.IsDisposed())
      ensures stopped ==> index == old(index) && catalog.events == old(catalog.events)
      ensures stopped ==> token.completion.completed == old(token.completion.completed)
      ensures !stopped ==>
        && fresh(index.Footprint()) && index.Fold() == catalog.fold
        && catalog.events == old(catalog.events) + [FileChanged(path)]
        && token.completion.completed
        && index.Count() == |lexemes| && Indexes(lexemes)
    {
      var built := Compile(token, lexemes);
      if built.None? {
        token.Dispose();
        return true;
      }
      Install(built.value, token);
      return false;
    }

    /** The builder's side of the build: a new builder is fed the lexemes; the built
        index is returned unless the build had to stop. */
    method Compile(token: ProcessToken, lexemes: seq<string>) returns (built: Option<WordIndex>)
      ensures built.None? <==> lexemes != [] && (token.IsInterrupted() || disposeState.IsDisposed())
      ensures built.Some? ==>
        && fresh(built.value.Footprint()) && built.value.Fold() == catalog.fold
        && built.value.Count() == |lexemes| && built.value.Elements() == Spellings(lexemes, catalog.fold)
    {
      var builder := NewBuilder(catalog.kind, catalog.fold);
      var interrupted := Feed(builder, lexemes, token);
      if interrupted {
        return None;
      }
      var newIndex := builder.Build();
      return Some(newIndex);
    }

    /** The swap, MarkSuccessful, the rebuild callback and the token's disposal. */
    method Install(newIndex: WordIndex, token: ProcessToken)
      requires Owned()
      requires newIndex.Footprint() !! {this, catalog, token.completion}
      ensures Owned() && catalog.owned == old(catalog.owned)
      modifies this, catalog, token.completion
      ensures index == newIndex && index.Elements() == old(newIndex.Elements())
      ensures referenceCount == old(referenceCount) && disposeState == old(disposeState)
      ensures catalog.files == old(catalog.files) && catalog.disposeState == old(catalog.disposeState)
      ensures catalog.events == old(catalog.events) + [FileChanged(path)]
      ensures token.completion.completed
    {
      index := newIndex;
      var finished := token.MarkSuccessful();
      catalog.OnFileIndexUpdated(path);
      finished.Dispose();
    }

    /** The lexing loop: adds the lexemes in order, returning as soon as a lexeme
        arrives while the build is interrupted or the file disposed. */
    method Feed(builder: WordIndexBuilder, lexemes: seq<string>, token: ProcessToken) returns (interrupted: bool)
      requires builder.Valid() && builder.Added() == []
      requires this !in builder.Repr() && token.cancellation !in builder.Repr()
      modifies builder.Repr()
      ensures builder.Valid()
      ensures interrupted <==> lexemes != [] && (token.IsInterrupted() || disposeState.IsDisposed())
      ensures !interrupted ==> builder.Added() == lexemes
    {
      var i := 0;
      while i < |lexemes|
        modifies builder.Repr()
        invariant 0 <= i <= |lexemes|
        invariant builder.Valid() && builder.Added() == lexemes[..i]
        invariant i > 0 ==> !token.IsInterrupted() && !disposeState.IsDisposed()
      {
        if token.IsInterrupted() || disposeState.IsDisposed() {
          return true;
        }
        builder.Add(lexemes[i]);
        i := i + 1;
      }
      assert lexemes[..i] == lexemes;
      return false;
    }

    /** UpdateIndexAsync run without interruption. */
    method UpdateIndexAsync(fs: FileSystem)
      requires Owned()
      ensures Owned() && catalog.owned == old(catalog.owned)
      modifies this, catalog, index.Footprint(), reporter, reporter.completionSource, reporter.cancellationSource, catalog.processes
      ensures referenceCount == old(referenceCount) && disposeState == old(disposeState)
      ensures catalog.files == old(catalog.files) && catalog.disposeState == old(catalog.disposeState)
      ensures disposeState.IsDisposed() ==> catalog.events == old(catalog.events) && index == old(index)
      ensures disposeState.IsDisposed() ==>
        && unchanged(reporter, catalog.processes)
        && reporter.completionSource.completed == old(reporter.completionSource.completed)
        && reporter.cancellationSource.cancelled == old(reporter.cancellationSource.cancelled)
      ensures !disposeState.IsDisposed() ==>
        && catalog.events == old(catalog.events) + (if path in fs then [FileChanged(path)] else [])
        && (path in fs ==> reporter.completionSource.completed)
        && (path in fs ==> index.Count() == |FileLexemes(fs[path], catalog.isLetter)|)
        && (path in fs ==> Indexes(FileLexemes(fs[path], catalog.isLetter)))
        && (path !in fs ==> index == old(index))
      ensures old(reporter.Valid()) ==> reporter.Valid()
    {
      var token := StartUpdate();
      if token.Some? {
        ContinueUpdate(token.value, fs);
      }
    }

    /** Two UpdateIndexAsync calls on a live file whose first build only resumes
        after the second has started. The first build is interrupted: a file with
        lexemes keeps its index, publishes nothing and leaves the shared completion
        pending for the second build, whose token is returned. A file without
        lexemes never reaches the interruption check, so the stale build still
        installs an empty index, publishes Changed and completes the completion. */
    method OvertakenUpdate(fs: FileSystem) returns (later: ProcessToken)
      requires Owned() && reporter.Valid() && !disposeState.IsDisposed()
      ensures Owned() && catalog.owned == old(catalog.owned) && reporter.Valid()
      modifies this, catalog, index.Footprint(), reporter, reporter.completionSource, reporter.cancellationSource, catalog.processes
      ensures referenceCount == old(referenceCount) && disposeState == old(disposeState)
      ensures catalog.files == old(catalog.files) && catalog.disposeState == old(catalog.disposeState)
      ensures later.completion == reporter.completionSource && later.cancellation == reporter.cancellationSource
      ensures !later.IsInterrupted() && !later.isSuccessful
      ensures path !in fs ==> index == old(index) && catalog.events == old(catalog.events) && !reporter.completionSource.completed
      ensures path in fs && FileLexemes(fs[path], catalog.isLetter) != [] ==>
        index == old(index) && catalog.events == old(catalog.events) && !reporter.completionSource.completed
      ensures path in fs && FileLexemes(fs[path], catalog.isLetter) == [] ==>
        && index.Count() == 0 && (forall w :: !HasWord(w))
        && catalog.events == old(catalog.events) + [FileChanged(path)] && reporter.completionSource.completed
    {
      var first := StartUpdate();
      var second := StartUpdate();
      ContinueUpdate(first.value, fs);
      later := second.value;
    }

    /** Swaps in the empty index and disposes the one it replaces. */
    method Cleanup()
      requires Owned()
      ensures Owned() && catalog.owned == old(catalog.owned)
      modifies this, index.Footprint()
      ensures index.Empty? && forall w :: !HasWord(w)
      ensures old(index).Elements() == {}
      ensures referenceCount == old(referenceCount) && disposeState == old(disposeState)
    {
      var original := index;
      var empty := EmptyWordIndex.Instance();
      index := Empty(empty);
      original.Dispose();
    }

    method IncrementRefCount()
      requires Owned()
      ensures Owned() && catalog.owned == old(catalog.owned)
      modifies this
      ensures referenceCount == old(referenceCount) + 1
      ensures index == old(index) && disposeState == old(disposeState)
    {
      referenceCount := referenceCount + 1;
    }

    method ZeroRefCount()
      requires Owned()
      ensures Owned() && catalog.owned == old(catalog.owned)
      modifies this
      ensures referenceCount == 0
      ensures index == old(index) && disposeState == old(disposeState)
    {
      referenceCount := 0;
    }

    /** Releases one reference. The last release (count at or below zero) tears the
        file down once: the catalog drops it, the index becomes empty, waiters are
        released and the state ends Disposed. */
    method Dispose()
      requires Owned()
      modifies this, catalog, index.Footprint(), reporter.completionSource
      ensures Owned() && catalog.owned == old(catalog.owned)
      ensures referenceCount == old(referenceCount) - 1
      ensures catalog.disposeState == old(catalog.disposeState)
      ensures var teardown := referenceCount <= 0 && old(disposeState.code) == Alive;
              && (teardown ==>
                    && disposeState.code == Disposed
                    && index.Empty? && old(index).Elements() == {}
                    && reporter.completionSource.completed
                    && catalog.files == old(catalog.files) - {path}
                    && catalog.events == old(catalog.events) + (if path in old(catalog.files) then [FileRemoved(path)] else []))
              && (!teardown ==>
                    && disposeState == old(disposeState) && index == old(index)
                    && unchanged(index.Footprint()) && unchanged(reporter.completionSource)
                    && catalog.files == old(catalog.files) && catalog.events == old(catalog.events))
    {
      referenceCount := referenceCount - 1;
      if referenceCount > 0 {
        return; // still used by someone else
      }
      var transition := disposeState.TrySetDisposing();
      disposeState := transition.1;
      if !transition.0 {
        return; // already disposed or disposing
      }
      catalog.OnFileIndexDisposed(path);
      Cleanup();
      reporter.SetCompleted();
      disposeState := disposeState.SetDisposed();
    }
  }

  /** The handle IndexDirectory returns: the files of one directory listing, each
      held once per listed path. */
  class IndexedDirectory {
    const name: string
    const files: seq<IndexedFile>
    /** The catalog the files belong to. */
    ghost const catalog: TextSearchCatalog
    var disposeState: DisposeState

    /** Every held file belongs to the consistent catalog. */
    ghost predicate Valid()
      reads this, catalog, catalog.owned
    {
      && catalog.Valid()
      && (forall i :: 0 <= i < |files| ==> files[i] in catalog.owned)
      && (forall i, j :: 0 <= i < j < |files| ==> files[i] != files[j])
    }

    constructor (name: string, files: seq<IndexedFile>, ghost catalog: TextSearchCatalog)
      ensures this.name == name && this.files == files && this.catalog == catalog
      ensures disposeState.code == Alive
    {
      this.name := name;
      this.files := files;
      this.catalog := catalog;
      disposeState := Initial();
    }

    /** Only the first call acts: it releases every held file once per time it is
        held and ends Disposed. */
    method Dispose()
      requires Valid()
      modifies this, catalog, catalog.OwnedRepr()
      ensures Valid() && catalog.owned == old(catalog.owned) && catalog.disposeState == old(catalog.disposeState)
      ensures old(disposeState.code) == Alive ==>
        && disposeState.code == Disposed
        && forall j :: 0 <= j < |files| ==> files[j].referenceCount == old(files[j].referenceCount) - 1
      ensures forall f :: f in old(catalog.owned) ==> f.index == old(f.index) || f.index.Empty?
      ensures old(disposeState.code) != Alive ==>
        && disposeState == old(disposeState) && unchanged(catalog)
        && forall f :: f in files ==> unchanged(f)
    {
      var transition := disposeState.TrySetDisposing();
      disposeState := transition.1;
      if !transition.0 {
        return; // already disposed
      }
      ReleaseAll();
      disposeState := disposeState.SetDisposed();
    }

    /** The foreach over the held files. */
    method ReleaseAll()
      requires Valid()
      modifies catalog, catalog.OwnedRepr()
      ensures Valid() && catalog.owned == old(catalog.owned) && catalog.disposeState == old(catalog.disposeState)
      ensures forall j :: 0 <= j < |files| ==> files[j].referenceCount == old(files[j].referenceCount) - 1
      ensures forall f :: f in old(catalog.owned) ==> f.index == old(f.index) || f.index.Empty?
    {
      var i := 0;
      while i < |files|
        invariant 0 <= i <= |files|
        invariant catalog.Valid() && catalog.owned == old(catalog.owned) && catalog.disposeState == old(catalog.disposeState)
        invariant forall f :: f in old(catalog.owned) ==> f.index == old(f.index) || f.index.Empty?
        invariant forall j :: 0 <= j < |files| ==>
          files[j].referenceCount == old(files[j].referenceCount) - (if j < i then 1 else 0)
      {
        catalog.FootprintOwned(files[i]);
        ReleaseAt(i);
        i := i + 1;
      }
    }

    /** One step of that foreach: only the file at `i` changes. */
    method ReleaseAt(i: nat)
      requires Valid() && i < |files|
      modifies catalog, files[i].DisposeFootprint()
      ensures Valid() && catalog.owned == old(catalog.owned) && catalog.disposeState == old(catalog.disposeState)
      ensures forall j :: 0 <= j < |files| ==>
        files[j].referenceCount == old(files[j].referenceCount) - (if j == i then 1 else 0)
      ensures forall f :: f in old(catalog.owned) ==> f.index == old(f.index) || f.index.Empty?
    {
      Release(files[i]);
    }
  }

  /** A file handle that follows one path through the notifications of a watcher on
      the path's directory; the notifications arrive as calls of the handlers. Every
      handler holds the update lock for its whole run and is one step here. Dispose
      takes the lock and disposes it, so a handler that comes later cannot take it
      and returns at once. */
  class TrackedFile {
    const path: string
    const catalog: TextSearchCatalog
    /** The directory part of the path, empty when it has none. */
    const directory: string
    /** A watcher exists only for a path with a directory part. */
    const hasWatcher: bool
    var watching: bool
    var indexedFile: IndexedFile?
    var disposeState: DisposeState

    /** The held file, if any, belongs to the consistent catalog. */
    ghost predicate Valid()
      reads this, catalog, catalog.owned
    {
      catalog.Valid() && (indexedFile != null ==> indexedFile in catalog.owned)
    }

    constructor (path: string, catalog: TextSearchCatalog)
      ensures this.path == path && this.catalog == catalog
      ensures directory == (match DirectoryName(path) case Some(d) => d case None => [])
      ensures hasWatcher <==> directory != []
      ensures !watching && indexedFile == null && disposeState.code == Alive
    {
      this.path := path;
      this.catalog := catalog;
      var name := DirectoryName(path);
      directory := if name.Some? then name.value else [];
      hasWatcher := name.Some? && name.value != [];
      watching := false;
      indexedFile := null;
      disposeState := Initial();
    }

    /** Switches the watcher on and holds the file the catalog hands out for the path. */
    method StartTracking(fs: FileSystem)
      requires Valid()
      modifies this, catalog, catalog.files.Values, catalog.processes
      ensures Valid() && old(catalog.owned) <= catalog.owned && disposeState == old(disposeState)
      ensures catalog.disposeState == old(catalog.disposeState)
      ensures watching == (hasWatcher || old(watching))
      ensures indexedFile != null && indexedFile.path == path
      ensures catalog.files == old(catalog.files)[path := indexedFile]
      ensures path in old(catalog.files) ==>
        indexedFile == old(catalog.files[path]) && indexedFile.referenceCount == old(catalog.files[path].referenceCount) + 1
      ensures path !in old(catalog.files) ==> fresh(indexedFile) && indexedFile.referenceCount == 1
      ensures forall p :: p in old(catalog.files) && p != path ==>
        catalog.files[p].referenceCount == old(catalog.files[p].referenceCount)
        && catalog.files[p].index == old(catalog.files[p].index)
    {
      if hasWatcher {
        watching := true;
      }
      indexedFile := catalog.IndexFile(path, fs);
    }

    /** Changed: rebuilds the held file's index; with nothing held, nothing happens. */
    method FileChanged(fs: FileSystem)
      requires Valid()
      modifies catalog, catalog.processes, if indexedFile != null then indexedFile.Footprint() else {}
      ensures Valid() && catalog.owned == old(catalog.owned) && catalog.disposeState == old(catalog.disposeState)
      ensures disposeState.IsDisposed() || indexedFile == null ==> unchanged(catalog, catalog.processes)
      ensures !disposeState.IsDisposed() && indexedFile != null ==>
        && catalog.files == old(catalog.files)
        && var file := indexedFile;
           (!file.disposeState.IsDisposed() ==>
              && catalog.events == old(catalog.events) + (if file.path in fs then [CatalogEvent.FileChanged(file.path)] else [])
              && (file.path in fs ==> file.Indexes(FileLexemes(fs[file.path], catalog.isLetter))))
    {
      if disposeState.IsDisposed() {
        return; // the lock is disposed
      }
      if indexedFile != null {
        indexedFile.UpdateIndexAsync(fs);
      }
    }

    /** Deleted: the held file loses all its references, is disposed and let go. */
    method FileDeleted()
      requires Valid()
      modifies this, catalog, if indexedFile != null then indexedFile.DisposeFootprint() else {}
      ensures Valid() && catalog.owned == old(catalog.owned) && catalog.disposeState == old(catalog.disposeState)
      ensures old(disposeState.IsDisposed()) || old(indexedFile) == null ==>
        unchanged(this, catalog) && unchanged(old(catalog.files.Values))
      ensures !old(disposeState.IsDisposed()) ==> indexedFile == null && disposeState == old(disposeState)
      ensures !old(disposeState.IsDisposed()) && old(indexedFile) != null ==>
        && old(indexedFile).referenceCount == -1
        && (old(indexedFile.disposeState.code) == Alive ==>
              old(indexedFile).disposeState.code == Disposed
              && catalog.files == old(catalog.files) - {old(indexedFile).path})
    {
      if disposeState.IsDisposed() {
        return; // the lock is disposed
      }
      if indexedFile != null {
        indexedFile.ZeroRefCount();
        indexedFile.Dispose();
      }
      indexedFile := null;
    }

    /** Created: with nothing held, holds the file the catalog hands out for the
        notified path; otherwise the notification is ignored. */
    method FileCreated(createdPath: string, fs: FileSystem)
      requires Valid()
      modifies this, catalog, catalog.files.Values, catalog.processes
      ensures Valid() && old(catalog.owned) <= catalog.owned && disposeState == old(disposeState)
      ensures catalog.disposeState == old(catalog.disposeState)
      ensures old(disposeState.IsDisposed()) || old(indexedFile) != null ==>
        unchanged(this, catalog) && unchanged(old(catalog.files.Values)) && unchanged(catalog.processes)
      ensures !old(disposeState.IsDisposed()) && old(indexedFile) == null ==>
        && indexedFile != null && indexedFile.path == createdPath
        && catalog.files == old(catalog.files)[createdPath := indexedFile]
    {
      if disposeState.IsDisposed() {
        return; // the lock is disposed
      }
      if indexedFile != null {
        return; // already found
      }
      indexedFile := catalog.IndexFile(createdPath, fs);
    }

    /** Renamed: a rename away from the path counts as Deleted; otherwise a rename
        onto the path counts as Created, for the path rebuilt from the watched
        directory and the new name. */
    method FileRenamed(renamed: RenameEvent, fs: FileSystem)
      requires Valid()
      modifies this, catalog, catalog.files.Values, catalog.processes
      modifies if indexedFile != null then indexedFile.DisposeFootprint() else {}
      ensures Valid() && old(catalog.owned) <= catalog.owned && disposeState == old(disposeState)
      ensures catalog.disposeState == old(catalog.disposeState)
      ensures renamed.OldFullPath() == path && !old(disposeState.IsDisposed()) ==> indexedFile == null
      ensures renamed.OldFullPath() == path && !old(disposeState.IsDisposed()) && old(indexedFile) != null ==>
        && old(indexedFile).referenceCount == -1
        && (old(indexedFile.disposeState.code) == Alive ==>
              old(indexedFile).disposeState.code == Disposed
              && catalog.files == old(catalog.files) - {old(indexedFile).path})
      ensures renamed.OldFullPath() != path && renamed.FullPath() == path
              && !old(disposeState.IsDisposed()) && old(indexedFile) == null ==>
        && indexedFile != null && indexedFile.path == Combine(directory, renamed.name)
        && catalog.files == old(catalog.files)[indexedFile.path := indexedFile]
      ensures renamed.OldFullPath() != path && old(indexedFile) != null ==>
        unchanged(this, catalog) && unchanged(old(catalog.files.Values)) && unchanged(catalog.processes)
      ensures old(disposeState.IsDisposed()) ==>
        unchanged(this, catalog) && unchanged(old(catalog.files.Values)) && unchanged(catalog.processes)
      ensures renamed.OldFullPath() != path && renamed.FullPath() != path ==>
        unchanged(this, catalog) && unchanged(old(catalog.files.Values)) && unchanged(catalog.processes)
    {
      if renamed.OldFullPath() == path {
        FileDeleted();
      } else if renamed.FullPath() == path {
        FileCreated(Combine(directory, renamed.name), fs);
      }
    }

    /** Only the first call acts: the watcher stops, the held file gives up one
        reference and is let go, and the state ends Disposed. */
    method Dispose()
      requires Valid()
      modifies this, catalog, if indexedFile != null then indexedFile.DisposeFootprint() else {}
      ensures Valid() && catalog.owned == old(catalog.owned) && catalog.disposeState == old(catalog.disposeState)
      ensures old(disposeState.code) == Alive ==>
        && disposeState.code == Disposed && !watching && indexedFile == null
        && (old(indexedFile) != null ==> old(indexedFile).referenceCount == old(indexedFile.referenceCount) - 1)
      ensures forall f :: f in old(catalog.owned) ==> f.index == old(f.index) || f.index.Empty?
      ensures old(disposeState.code) != Alive ==> unchanged(this, catalog)
    {
      var transition := disposeState.TrySetDisposing();
      disposeState := transition.1;
      if !transition.0 {
        return; // already disposed
      }
      watching := false;
      if indexedFile != null {
        indexedFile.Dispose();
      }
      indexedFile := null;
      disposeState := disposeState.SetDisposed();
    }
  }

  /** The path the directory tracker's Renamed handler forwards to Deleted, as
      written: the directory part of the old full path joined with the old name,
      which is relative to the watched directory and so repeats a subdirectory. */
  function RenamedDeletedPathAsWritten(renamed: RenameEvent): (path: Option<string>)
    ensures path.Some? <==> DirectoryName(renamed.OldFullPath()).Some?
  {
    match DirectoryName(renamed.OldFullPath())
    case None => None
    case Some(directory) => Some(Combine(directory, renamed.oldName))
  }

  /** A rename inside a subdirectory of the watched directory: the forwarded path
      repeats the subdirectory, so it names a file that is not the one renamed. */
  lemma RenameInSubdirectoryMissesFile(directory: string, subdirectory: string, oldName: string, name: string)
    requires directory != [] && directory[|directory| - 1] != Separator
    requires subdirectory != [] && Separator !in subdirectory && Separator !in oldName
    ensures var renamed := RenameEvent(directory, subdirectory + [Separator] + oldName, name);
            && renamed.OldFullPath() == directory + [Separator] + subdirectory + [Separator] + oldName
            && RenamedDeletedPathAsWritten(renamed)
               == Some(directory + [Separator] + subdirectory + [Separator] + subdirectory + [Separator] + oldName)
            && RenamedDeletedPathAsWritten(renamed) != Some(renamed.OldFullPath())
  {
    var renamed := RenameEvent(directory, subdirectory + [Separator] + oldName, name);
    var parent := directory + [Separator] + subdirectory;
    assert renamed.OldFullPath() == Combine(parent, oldName);
    assert parent[|parent| - 1] == subdirectory[|subdirectory| - 1];
    DirectoryOfCombine(parent, oldName);
    assert DirectoryName(renamed.OldFullPath()) == Some(parent);
    assert RenamedDeletedPathAsWritten(renamed) == Some(Combine(parent, renamed.oldName));
    assert Combine(parent, renamed.oldName)
        == directory + [Separator] + subdirectory + [Separator] + subdirectory + [Separator] + oldName;
  }

  /** For a file directly in the watched directory the forwarded path is right. */
  lemma RenameAtTopLevelFindsFile(renamed: RenameEvent)
    requires renamed.directory != [] && renamed.directory[|renamed.directory| - 1] != Separator
    requires Separator !in renamed.oldName
    ensures RenamedDeletedPathAsWritten(renamed) == Some(renamed.OldFullPath())
  {
    DirectoryOfCombine(renamed.directory, renamed.oldName);
  }

  /** The foreach of the directory tracker's Dispose: every held file gives up one
      reference. Files held under different paths are different files. */
  method ReleaseEach(catalog: TextSearchCatalog, held: map<string, IndexedFile>)
    requires catalog.Valid()
    requires forall p :: p in held ==> held[p] in catalog.owned && held[p].path == p
    modifies catalog, catalog.OwnedRepr()
    ensures catalog.Valid() && catalog.owned == old(catalog.owned) && catalog.disposeState == old(catalog.disposeState)
    ensures forall p :: p in held ==> held[p].referenceCount == old(held[p].referenceCount) - 1
    ensures forall f :: f in old(catalog.owned) ==> f.index == old(f.index) || f.index.Empty?
  {
    ghost var counts := map p | p in held :: held[p].referenceCount;
    catalog.ReportersOutsideRepr();
    var pending := held.Keys;
    while pending != {}
      invariant pending <= held.Keys
      invariant catalog.Valid() && catalog.owned == old(catalog.owned) && catalog.disposeState == old(catalog.disposeState)
      invariant forall f :: f in old(catalog.owned) ==> f.index == old(f.index) || f.index.Empty?
      invariant ReleasedOutside(held, counts, pending)
      decreases pending
    {
      var p :| p in pending;
      catalog.FootprintOwned(held[p]);
      ReleaseHeld(catalog, held, p, counts, pending);
      pending := pending - {p};
    }
  }

  /** Every file held under a path outside `pending` has one reference fewer than
      its count in `counts`; the others have that count. */
  ghost predicate ReleasedOutside(held: map<string, IndexedFile>, counts: map<string, int>, pending: set<string>)
    reads held.Values
  {
    forall p :: p in held ==> p in counts && held[p].referenceCount == counts[p] - (if p in pending then 0 else 1)
  }

  /** One step of that foreach: only the file held under `path` changes. */
  method ReleaseHeld(catalog: TextSearchCatalog, held: map<string, IndexedFile>, path: string,
                     ghost counts: map<string, int>, ghost pending: set<string>)
    requires catalog.Valid() && path in held && path in pending
    requires forall p :: p in held ==> held[p] in catalog.owned && held[p].path == p
    requires ReleasedOutside(held, counts, pending)
    modifies catalog, held[path].DisposeFootprint()
    ensures catalog.Valid() && catalog.owned == old(catalog.owned) && catalog.disposeState == old(catalog.disposeState)
    ensures ReleasedOutside(held, counts, pending - {path})
    ensures forall f :: f in old(catalog.owned) ==> f.index == old(f.index) || f.index.Empty?
  {
    Release(held[path]);
  }

  /** A directory handle that keeps the files found under it, by full path, in step
      with the notifications of a watcher on the whole tree. Handlers are single
      steps under the update lock, as for TrackedFile. */
  class TrackedDirectory {
    const root: string
    const catalog: TextSearchCatalog
    /** A watcher exists only for a non-empty full path. */
    const hasWatcher: bool
    var watching: bool
    var indexedFiles: map<string, IndexedFile>
    var disposeState: DisposeState

    /** Each held file belongs to the consistent catalog and sits under its own path. */
    ghost predicate Valid()
      reads this, catalog, catalog.owned
    {
      && catalog.Valid()
      && forall p :: p in indexedFiles ==> indexedFiles[p] in catalog.owned && indexedFiles[p].path == p
    }

    constructor (root: string, catalog: TextSearchCatalog)
      ensures this.root == root && this.catalog == catalog && (hasWatcher <==> root != [])
      ensures !watching && indexedFiles == map[] && disposeState.code == Alive
    {
      this.root := root;
      this.catalog := catalog;
      hasWatcher := root != [];
      watching := false;
      indexedFiles := map[];
      disposeState := Initial();
    }

    /** Switches the watcher on, has the catalog index every listed file, and holds
        each under its path; a path already held keeps its first file. */
    method StartTracking(listing: seq<string>, fs: FileSystem)
      requires Valid()
      modifies this, catalog, catalog.owned, catalog.processes
      ensures Valid() && old(catalog.owned) <= catalog.owned && disposeState == old(disposeState)
      ensures catalog.disposeState == old(catalog.disposeState)
      ensures watching == (hasWatcher || old(watching))
      ensures indexedFiles.Keys == old(indexedFiles.Keys) + set p | p in listing
      ensures forall p :: p in old(indexedFiles) ==> indexedFiles[p] == old(indexedFiles[p])
      ensures forall p :: p in listing ==> p in catalog.files
      ensures forall p :: p in listing && p !in old(indexedFiles) ==> indexedFiles[p] == catalog.files[p]
      ensures forall p :: p in old(catalog.files) ==>
        && p in catalog.files && catalog.files[p] == old(catalog.files[p]) && catalog.files[p].index == old(catalog.files[p].index)
        && catalog.files[p].referenceCount == old(catalog.files[p].referenceCount) + multiset(listing)[p]
      ensures forall p :: p in catalog.files && p !in old(catalog.files) ==>
        catalog.files[p].referenceCount == multiset(listing)[p]
    {
      if hasWatcher {
        watching := true;
      }
      var indexed := catalog.IndexFiles(listing, fs);
      HoldFirst(indexed);
      PathsOfListing(indexed, listing);
    }

    /** Files indexed in listing order carry exactly the listed paths. */
    static lemma PathsOfListing(indexed: seq<IndexedFile>, listing: seq<string>)
      requires |indexed| == |listing| && forall j :: 0 <= j < |listing| ==> indexed[j].path == listing[j]
      ensures (set j | 0 <= j < |indexed| :: indexed[j].path) == set p | p in listing
    {
      forall p | p in listing ensures p in set j | 0 <= j < |indexed| :: indexed[j].path {
        var j :| 0 <= j < |listing| && listing[j] == p;
        assert indexed[j].path == p;
      }
    }

    /** The foreach of TryAdd calls: each file is held under its path unless the path
        is held already, so an earlier entry always wins. */
    method HoldFirst(indexed: seq<IndexedFile>)
      modifies this
      ensures indexedFiles.Keys == old(indexedFiles.Keys) + set j | 0 <= j < |indexed| :: indexed[j].path
      ensures forall p :: p in old(indexedFiles) ==> indexedFiles[p] == old(indexedFiles[p])
      ensures forall p :: p in indexedFiles && p !in old(indexedFiles) ==> indexedFiles[p] in indexed && indexedFiles[p].path == p
      ensures watching == old(watching) && disposeState == old(disposeState)
    {
      var i := 0;
      while i < |indexed|
        invariant 0 <= i <= |indexed|
        invariant watching == old(watching) && disposeState == old(disposeState)
        invariant indexedFiles.Keys == old(indexedFiles.Keys) + set j | 0 <= j < i :: indexed[j].path
        invariant forall p :: p in old(indexedFiles) ==> indexedFiles[p] == old(indexedFiles[p])
        invariant forall p :: p in indexedFiles && p !in old(indexedFiles) ==> indexedFiles[p] in indexed[..i] && indexedFiles[p].path == p
      {
        var file := indexed[i];
        if file.path !in indexedFiles {
          indexedFiles := indexedFiles[file.path := file];
        }
        assert indexed[..i + 1] == indexed[..i] + [file];
        i := i + 1;
      }
      assert indexed[..i] == indexed;
    }

    /** Changed: rebuilds the index of the file held under the notified path; an
        unknown path changes nothing. */
    method FileChanged(changedPath: string, fs: FileSystem)
      requires Valid()
      modifies catalog, catalog.processes
      modifies if changedPath in indexedFiles then indexedFiles[changedPath].Footprint() else {}
      ensures Valid() && catalog.owned == old(catalog.owned) && catalog.disposeState == old(catalog.disposeState)
      ensures disposeState.IsDisposed() || changedPath !in indexedFiles ==> unchanged(catalog, catalog.processes)
      ensures disposeState.IsDisposed() && changedPath in indexedFiles ==> unchanged(indexedFiles[changedPath])
      ensures !disposeState.IsDisposed() && changedPath in indexedFiles ==>
        && catalog.files == old(catalog.files)
        && var file := indexedFiles[changedPath];
           (!file.disposeState.IsDisposed() ==>
              && catalog.events == old(catalog.events) + (if changedPath in fs then [CatalogEvent.FileChanged(changedPath)] else [])
              && (changedPath in fs ==> file.Indexes(FileLexemes(fs[changedPath], catalog.isLetter))))
    {
      if disposeState.IsDisposed() {
        return; // the lock is disposed
      }
      if changedPath !in indexedFiles {
        return;
      }
      indexedFiles[changedPath].UpdateIndexAsync(fs);
    }

    /** Deleted: the file held under the notified path is dropped, loses all its
        references and is disposed; an unknown path changes nothing. */
    method FileDeleted(deletedPath: string)
      requires Valid()
      modifies this, catalog
      modifies if deletedPath in indexedFiles then indexedFiles[deletedPath].DisposeFootprint() else {}
      ensures Valid() && catalog.owned == old(catalog.owned) && catalog.disposeState == old(catalog.disposeState) && disposeState == old(disposeState)
      ensures old(disposeState.IsDisposed()) || deletedPath !in old(indexedFiles) ==>
        unchanged(this, catalog) && unchanged(old(catalog.files.Values))
      ensures old(disposeState.IsDisposed()) && deletedPath in old(indexedFiles) ==> unchanged(old(indexedFiles[deletedPath]))
      ensures !old(disposeState.IsDisposed()) && deletedPath in old(indexedFiles) ==>
        && indexedFiles == old(indexedFiles) - {deletedPath}
        && var file := old(indexedFiles[deletedPath]);
           && file.referenceCount == -1
           && (old(file.disposeState.code) == Alive ==>
                 file.disposeState.code == Disposed && catalog.files == old(catalog.files) - {deletedPath})
      ensures forall p :: p in catalog.files ==> p in old(catalog.files) && catalog.files[p] == old(catalog.files[p])
    {
      if disposeState.IsDisposed() {
        return; // the lock is disposed
      }
      if deletedPath !in indexedFiles {
        return;
      }
      var file := indexedFiles[deletedPath];
      indexedFiles := indexedFiles - {deletedPath};
      file.ZeroRefCount();
      file.Dispose();
    }

    /** Created: a path not held yet gets the file the catalog hands out for it; a
        held path is ignored. */
    method FileCreated(createdPath: string, fs: FileSystem)
      requires Valid()
      modifies this, catalog, catalog.files.Values, catalog.processes
      ensures Valid() && old(catalog.owned) <= catalog.owned && disposeState == old(disposeState)
      ensures catalog.disposeState == old(catalog.disposeState)
      ensures old(disposeState.IsDisposed()) || createdPath in old(indexedFiles) ==>
        unchanged(this, catalog) && unchanged(old(catalog.files.Values)) && unchanged(catalog.processes)
      ensures !old(disposeState.IsDisposed()) && createdPath !in old(indexedFiles) ==>
        && createdPath in catalog.files
        && indexedFiles == old(indexedFiles)[createdPath := catalog.files[createdPath]]
        && catalog.files == old(catalog.files)[createdPath := catalog.files[createdPath]]
        && (createdPath !in old(catalog.files) ==> fresh(catalog.files[createdPath]))
    {
      if disposeState.IsDisposed() {
        return; // the lock is disposed
      }
      if createdPath in indexedFiles {
        return; // already indexed
      }
      var file := catalog.IndexFile(createdPath, fs);
      indexedFiles := indexedFiles[createdPath := file];
    }

    /** Renamed: when the old path's directory starts with the root, the old full
        path is handled as Deleted; then, when the new path's directory does, the
        new full path is handled as Created. Both can happen. */
    method FileRenamed(renamed: RenameEvent, fs: FileSystem)
      requires Valid()
      modifies this, catalog, catalog.files.Values, catalog.processes
      modifies if renamed.OldFullPath() in indexedFiles then indexedFiles[renamed.OldFullPath()].DisposeFootprint() else {}
      ensures Valid() && old(catalog.owned) <= catalog.owned && disposeState == old(disposeState)
      ensures catalog.disposeState == old(catalog.disposeState)
      ensures var fromRoot := UnderRoot(renamed.OldFullPath());
              var toRoot := UnderRoot(renamed.FullPath());
              && ((!fromRoot && !toRoot) || old(disposeState.IsDisposed()) ==>
                    unchanged(this, catalog) && unchanged(old(catalog.files.Values)) && unchanged(catalog.processes))
              && (!old(disposeState.IsDisposed()) && fromRoot && renamed.OldFullPath() in old(indexedFiles) ==>
                    var file := old(indexedFiles[renamed.OldFullPath()]);
                    && (old(file.disposeState.code) == Alive || !(toRoot && renamed.FullPath() == renamed.OldFullPath()) ==>
                          file.referenceCount == -1)
                    && (old(file.disposeState.code) == Alive ==>
                          && file.disposeState.code == Disposed
                          && (renamed.OldFullPath() in catalog.files ==> catalog.files[renamed.OldFullPath()] != file)))
              && (!old(disposeState.IsDisposed()) && toRoot
                  && (renamed.FullPath() !in old(indexedFiles) || (fromRoot && renamed.FullPath() == renamed.OldFullPath())) ==>
                    renamed.FullPath() in catalog.files && renamed.FullPath() in indexedFiles
                    && indexedFiles[renamed.FullPath()] == catalog.files[renamed.FullPath()])
              && (!old(disposeState.IsDisposed()) ==>
                    && (toRoot ==> renamed.FullPath() in indexedFiles)
                    && (fromRoot && !(toRoot && renamed.FullPath() == renamed.OldFullPath()) ==>
                          renamed.OldFullPath() !in indexedFiles)
                    && forall p :: p != renamed.OldFullPath() && p != renamed.FullPath() ==>
                         (p in indexedFiles <==> p in old(indexedFiles))
                         && (p in indexedFiles ==> indexedFiles[p] == old(indexedFiles[p])))
    {
      if UnderRoot(renamed.OldFullPath()) {
        FileDeleted(renamed.OldFullPath());
      }
      if UnderRoot(renamed.FullPath()) {
        FileCreated(renamed.FullPath(), fs);
      }
    }

    /** The gate of the Renamed handler: the path has a directory part that starts
        with the root, compared ordinally. */
    predicate UnderRoot(path: string): (under: bool)
      ensures under <==> DirectoryName(path).Some? && root <= DirectoryName(path).value
      ensures under ==> |root| < |path| && path[..|root|] == root && Separator in path[|root|..]
    {
      match DirectoryName(path)
      case None => false
      case Some(directory) => root <= directory
    }

    /** Only the first call acts: the watcher stops, every held file gives up one
        reference, and the state ends Disposed. The held paths stay as they are. */
    method Dispose()
      requires Valid()
      modifies this, catalog, catalog.OwnedRepr()
      ensures Valid() && catalog.owned == old(catalog.owned) && catalog.disposeState == old(catalog.disposeState) && indexedFiles == old(indexedFiles)
      ensures old(disposeState.code) == Alive ==>
        && disposeState.code == Disposed && !watching
        && forall p :: p in indexedFiles ==> indexedFiles[p].referenceCount == old(indexedFiles[p].referenceCount) - 1
      ensures forall f :: f in old(catalog.owned) ==> f.index == old(f.index) || f.index.Empty?
      ensures old(disposeState.code) != Alive ==> unchanged(this, catalog)
      ensures old(disposeState.code) != Alive ==> forall p :: p in indexedFiles ==> unchanged(indexedFiles[p])
    {
      var transition := disposeState.TrySetDisposing();
      disposeState := transition.1;
      if !transition.0 {
        return; // already disposed
      }
      watching := false;
      assert this !in catalog.OwnedRepr();
      ReleaseEach(catalog, indexedFiles);
      disposeState := disposeState.SetDisposed();
    }
  }

  class TextSearchCatalog {
    const kind: BuilderKind
    const fold: string -> string
    const isLetter: char -> bool
    /** The process-number counter shared by all builds. */
    const processes: ProcessCounter
    var files: map<string, IndexedFile>
    var events: seq<CatalogEvent>
    var disposeState: DisposeState

    /** Every file the catalog has ever created, registered or not. */
    ghost var owned: set<IndexedFile>

    /** Each registered file is one the catalog created, sits under its own full path
        and is not disposed; the created files report to this catalog. */
    ghost predicate Valid()
      reads this, owned
    {
      && (forall p :: p in files ==> files[p] in owned && files[p].path == p && files[p].disposeState.code == Alive)
      && (forall f :: f in owned ==> f.catalog == this)
    }

    /** Valid, except that the file registered under `path` may already be disposing. */
    ghost predicate ValidExcept(path: string)
      reads this, owned
    {
      && (forall p :: p in files ==> files[p] in owned && files[p].path == p && (p != path ==> files[p].disposeState.code == Alive))
      && (forall f :: f in owned ==> f.catalog == this)
    }

    /** Everything the created files' operations may change. */
    ghost function OwnedRepr(): set<object>
      reads this, owned, set f | f in owned :: f.reporter
    {
      set f, o | f in owned && o in f.DisposeFootprint() :: o
    }

    constructor (kind: BuilderKind, fold: string -> string, isLetter: char -> bool, processes: ProcessCounter)
      ensures Valid() && files == map[] && owned == {} && events == [] && !disposeState.IsDisposed()
      ensures this.kind == kind && this.fold == fold && this.isLetter == isLetter && this.processes == processes
    {
      this.kind := kind;
      this.fold := fold;
      this.isLetter := isLetter;
      this.processes := processes;
      files := map[];
      owned := {};
      events := [];
      disposeState := Initial();
    }

    /** The rebuild callback: publishes Changed. */
    method OnFileIndexUpdated(path: string)
      requires Valid()
      modifies this
      ensures Valid() && owned == old(owned)
      ensures files == old(files) && disposeState == old(disposeState)
      ensures events == old(events) + [FileChanged(path)]
    {
      events := events + [FileChanged(path)];
    }

    /** The dispose callback: drops the path and publishes Removed, only when it was registered. */
    method OnFileIndexDisposed(path: string)
      requires ValidExcept(path)
      modifies this
      ensures Valid() && owned == old(owned)
      ensures files == old(files) - {path} && disposeState == old(disposeState)
      ensures events == old(events) + (if path in old(files) then [FileRemoved(path)] else [])
    {
      if path in files {
        files := files - {path};
        events := events + [FileRemoved(path)];
      }
    }

    /** IndexFile: a registered path gains a reference and keeps its file; a new path
        gets a new file, which is registered, announced, referenced once and built. */
    method IndexFile(path: string, fs: FileSystem) returns (file: IndexedFile)
      requires Valid()
      modifies this, files.Values, processes
      ensures Valid() && file in owned && file.path == path
      ensures files == old(files)[path := file] && disposeState == old(disposeState)
      ensures path in old(files) ==>
        && file == old(files[path]) && owned == old(owned) && events == old(events)
        && file.referenceCount == old(files[path].referenceCount) + 1
        && file.index == old(files[path].index)
      ensures path !in old(files) ==>
        && fresh(file) && owned == old(owned) + {file} && file.referenceCount == 1
        && events == old(events) + [FileAdded(path)] + (if path in fs then [FileChanged(path)] else [])
        && forall w :: file.HasWord(w) <==> path in fs && Mentions(FileLexemes(fs[path], isLetter), w, fold)
      ensures forall p :: p in old(files) && p != path ==>
        files[p].referenceCount == old(files[p].referenceCount) && files[p].index == old(files[p].index)
    {
      if path in files {
        file := files[path];
        file.IncrementRefCount();
        return;
      }
      file := new IndexedFile(path, this);
      owned := owned + {file};
      files := files[path := file];
      events := events + [FileAdded(path)];
      file.IncrementRefCount();
      file.UpdateIndexAsync(fs);
      if path in fs {
        file.IndexedWords(FileLexemes(fs[path], isLetter));
      }
    }

    /** A path that a listing without repetitions names is counted once. */
    static lemma {:induction false} ListedOnce(listing: seq<string>, j: nat)
      requires j < |listing|
      requires forall a, b :: 0 <= a < b < |listing| ==> listing[a] != listing[b]
      ensures multiset(listing)[listing[j]] == 1
    {
      var last := |listing| - 1;
      var init := listing[..last];
      assert listing == init + [listing[last]];
      if j == last {
        assert listing[j] !in init;
      } else {
        ListedOnce(init, j);
      }
    }

    /** A handle of this catalog in a consistent state. */
    ghost predicate HandleValid(handle: Handle)
      reads this, owned, handle.Objects()
    {
      match handle
      case FileHandle(f) => f in owned
      case DirectoryHandle(d) => d.catalog == this && d.Valid()
      case TrackedFileHandle(t) => t.catalog == this && t.Valid()
      case TrackedDirectoryHandle(t) => t.catalog == this && t.Valid()
    }

    /** IndexDirectory: one IndexFile per listed file (the listing names each file
        once), gathered into a new directory handle. */
    method IndexDirectory(name: string, listing: seq<string>, fs: FileSystem) returns (directory: IndexedDirectory)
      requires Valid()
      requires forall i, j :: 0 <= i < j < |listing| ==> listing[i] != listing[j]
      modifies this, owned, processes
      ensures Valid() && old(owned) <= owned && disposeState == old(disposeState)
      ensures fresh(directory) && directory.Valid() && directory.catalog == this
      ensures directory.name == name && directory.disposeState.code == Alive && |directory.files| == |listing|
      ensures forall j :: 0 <= j < |listing| ==>
        && directory.files[j].path == listing[j]
        && listing[j] in files && files[listing[j]] == directory.files[j]
      ensures forall p :: p in old(files) ==> p in files
      ensures forall j :: 0 <= j < |listing| ==>
        directory.files[j].referenceCount == (if listing[j] in old(files) then old(files[listing[j]].referenceCount) else 0) + 1
      ensures forall p :: p in old(files) && p !in listing ==>
        files[p].referenceCount == old(files[p].referenceCount) && files[p].index == old(files[p].index)
      ensures forall p :: p in old(files) && p in listing ==> files[p] == old(files[p]) && files[p].index == old(files[p].index)
    {
      var indexed := IndexFiles(listing, fs);
      directory := new IndexedDirectory(name, indexed, this);
      forall j | 0 <= j < |listing| ensures multiset(listing)[listing[j]] == 1 {
        ListedOnce(listing, j);
      }
    }

    /** Task.WhenAll over IndexFile for each listed path, taken one after another:
        the files in listing order. */
    method IndexFiles(listing: seq<string>, fs: FileSystem) returns (indexed: seq<IndexedFile>)
      requires Valid()
      modifies this, owned, processes
      ensures Valid() && old(owned) <= owned && disposeState == old(disposeState)
      ensures |indexed| == |listing|
      ensures forall j :: 0 <= j < |listing| ==>
        && indexed[j] in owned && indexed[j].path == listing[j]
        && listing[j] in files && files[listing[j]] == indexed[j]
      ensures forall p :: p in old(files) ==> p in files
      ensures forall p :: p in old(files) ==>
        && files[p] == old(files[p]) && files[p].index == old(files[p].index)
        && files[p].referenceCount == old(files[p].referenceCount) + multiset(listing)[p]
      ensures forall p :: p in files && p !in old(files) ==> files[p].referenceCount == multiset(listing)[p]
    {
      ghost var counts := map p | p in files :: files[p].referenceCount;
      ghost var indexes := map p | p in files :: files[p].index;
      indexed := [];
      var i := 0;
      while i < |listing|
        invariant Valid() && old(owned) <= owned && disposeState == old(disposeState)
        invariant forall f :: f in owned ==> f in old(owned) || fresh(f)
        invariant IndexedPrefix(listing, i, indexed, old(files), counts, indexes)
      {
        indexed := IndexNext(listing, i, indexed, fs, old(files), counts, indexes);
        i := i + 1;
      }
      assert listing[..i] == listing;
    }

    /** IndexFile, stated as what it does to the registry's reference counts. */
    method Register(path: string, fs: FileSystem, ghost before: map<string, IndexedFile>, ghost counts: map<string, int>,
                    ghost indexes: map<string, WordIndex>, ghost done: seq<string>) returns (file: IndexedFile)
      requires Valid() && CountsAfter(before, counts, indexes, done)
      modifies this, files.Values, processes
      ensures Valid() && old(owned) <= owned && disposeState == old(disposeState)
      ensures forall f :: f in owned ==> f in old(owned) || fresh(f)
      ensures files == old(files)[path := file] && (path in old(files) ==> file == old(files[path]))
      ensures CountsAfter(before, counts, indexes, done + [path])
    {
      file := IndexFile(path, fs);
      assert multiset(done + [path]) == multiset(done) + multiset{path};
    }

    /** The registry after IndexFile ran once per entry of `done`, starting from the
        registry `before` whose files had the reference counts `counts` and the
        indexes `indexes`: every earlier entry keeps its file and index and gains one
        reference per mention; every new entry holds one reference per mention; every
        mentioned path is registered. */
    ghost predicate CountsAfter(before: map<string, IndexedFile>, counts: map<string, int>,
                                indexes: map<string, WordIndex>, done: seq<string>)
      reads this, files.Values
    {
      && (forall p :: p in before ==>
            && p in counts && p in indexes && p in files && files[p] == before[p]
            && files[p].index == indexes[p] && files[p].referenceCount == counts[p] + multiset(done)[p])
      && (forall p :: p in files && p !in before ==> files[p].referenceCount == multiset(done)[p])
      && (forall p :: p in done ==> p in files)
    }

    /** The IndexFiles loop after its first `i` paths: `indexed` holds the file now
        registered under each of them, and the counts are as CountsAfter says. */
    ghost predicate IndexedPrefix(listing: seq<string>, i: int, indexed: seq<IndexedFile>, before: map<string, IndexedFile>,
                                  counts: map<string, int>, indexes: map<string, WordIndex>)
      reads this, files.Values
    {
      && 0 <= i <= |listing| && |indexed| == i
      && (forall j :: 0 <= j < i ==> listing[j] in files && files[listing[j]] == indexed[j])
      && CountsAfter(before, counts, indexes, listing[..i])
    }

    /** One IndexFile of the IndexFiles loop, stated as the loop needs it. */
    method IndexNext(listing: seq<string>, i: nat, indexed: seq<IndexedFile>, fs: FileSystem, ghost before: map<string, IndexedFile>,
                     ghost counts: map<string, int>, ghost indexes: map<string, WordIndex>) returns (extended: seq<IndexedFile>)
      requires Valid() && i < |listing| && IndexedPrefix(listing, i, indexed, before, counts, indexes)
      modifies this, files.Values, processes
      ensures Valid() && old(owned) <= owned && disposeState == old(disposeState)
      ensures forall f :: f in owned ==> f in old(owned) || fresh(f)
      ensures IndexedPrefix(listing, i + 1, extended, before, counts, indexes)
    {
      var path := listing[i];
      var file := Register(path, fs, before, counts, indexes, listing[..i]);
      assert listing[..i + 1] == listing[..i] + [path];
      extended := indexed + [file];
    }

    /** IndexAndTrackFile: a tracker for the path, already holding its file. */
    method IndexAndTrackFile(path: string, fs: FileSystem) returns (tracked: TrackedFile)
      requires Valid()
      modifies this, owned, processes
      ensures Valid() && old(owned) <= owned && disposeState == old(disposeState)
      ensures fresh(tracked) && tracked.Valid() && tracked.catalog == this && tracked.path == path
      ensures tracked.disposeState.code == Alive && tracked.watching == tracked.hasWatcher
      ensures path in files && tracked.indexedFile == files[path]
      ensures forall p :: p in old(files) ==> p in files
      ensures files[path].referenceCount == (if path in old(files) then old(files[path].referenceCount) else 0) + 1
      ensures forall p :: p in old(files) && p != path ==>
        files[p].referenceCount == old(files[p].referenceCount) && files[p].index == old(files[p].index)
    {
      tracked := new TrackedFile(path, this);
      tracked.StartTracking(fs);
    }

    /** IndexAndTrackDirectory: a tracker for the directory, already holding every
        listed file. */
    method IndexAndTrackDirectory(root: string, listing: seq<string>, fs: FileSystem) returns (tracked: TrackedDirectory)
      requires Valid()
      modifies this, owned, processes
      ensures Valid() && old(owned) <= owned && disposeState == old(disposeState)
      ensures fresh(tracked) && tracked.Valid() && tracked.catalog == this && tracked.root == root
      ensures tracked.disposeState.code == Alive && tracked.watching == tracked.hasWatcher
      ensures tracked.indexedFiles.Keys == set p | p in listing
      ensures forall p :: p in listing ==> p in files && tracked.indexedFiles[p] == files[p]
      ensures forall p :: p in old(files) ==>
        && p in files && files[p] == old(files[p]) && files[p].index == old(files[p].index)
        && files[p].referenceCount == old(files[p].referenceCount) + multiset(listing)[p]
      ensures forall p :: p in files && p !in old(files) ==> files[p].referenceCount == multiset(listing)[p]
    {
      tracked := new TrackedDirectory(root, this);
      tracked.StartTracking(listing, fs);
    }

    /** IndexFileAsync up to its await: refused once disposing or disposed,
        otherwise the file, or a tracker of it, is handed out. */
    method IndexFileAsync(path: string, trackChanges: bool, fs: FileSystem) returns (result: Outcome<Handle>)
      requires Valid()
      modifies this, owned, processes
      ensures Valid() && old(owned) <= owned && disposeState == old(disposeState)
      ensures result.ObjectDisposed? <==> disposeState.IsDisposed()
      ensures result.ObjectDisposed? ==> unchanged(this) && unchanged(owned) && unchanged(processes)
      ensures result.Success? ==>
        && HandleValid(result.value) && path in files
        && (trackChanges ==>
              && result.value.TrackedFileHandle? && fresh(result.value.trackedFile)
              && result.value.trackedFile.indexedFile == files[path])
        && (!trackChanges ==> result.value == FileHandle(files[path]))
    {
      if disposeState.IsDisposed() {
        return ObjectDisposed;
      }
      if trackChanges {
        var tracked := IndexAndTrackFile(path, fs);
        result := Success(TrackedFileHandle(tracked));
      } else {
        var file := IndexFile(path, fs);
        result := Success(FileHandle(file));
      }
    }

    /** IndexDirectoryAsync up to its await: refused once disposing or disposed,
        otherwise a directory handle, or a tracker of the directory, is handed out. */
    method IndexDirectoryAsync(root: string, listing: seq<string>, trackChanges: bool, fs: FileSystem)
      returns (result: Outcome<Handle>)
      requires Valid()
      requires forall i, j :: 0 <= i < j < |listing| ==> listing[i] != listing[j]
      modifies this, owned, processes
      ensures Valid() && old(owned) <= owned && disposeState == old(disposeState)
      ensures result.ObjectDisposed? <==> disposeState.IsDisposed()
      ensures result.ObjectDisposed? ==> unchanged(this) && unchanged(owned) && unchanged(processes)
      ensures result.Success? ==>
        && HandleValid(result.value)
        && (forall p :: p in listing ==> p in files)
        && (trackChanges ==> result.value.TrackedDirectoryHandle? && fresh(result.value.trackedDirectory))
        && (!trackChanges ==> result.value.DirectoryHandle? && fresh(result.value.directory))
    {
      if disposeState.IsDisposed() {
        return ObjectDisposed;
      }
      if trackChanges {
        var tracked := IndexAndTrackDirectory(root, listing, fs);
        result := Success(TrackedDirectoryHandle(tracked));
      } else {
        var directory := IndexDirectory(root, listing, fs);
        result := Success(DirectoryHandle(directory));
      }
    }

    /** IDisposable.Dispose on a handle of this catalog. */
    method DisposeHandle(handle: Handle)
      requires Valid() && HandleValid(handle)
      modifies this, OwnedRepr(), handle.Objects()
      ensures Valid() && owned == old(owned) && disposeState == old(disposeState)
      ensures forall f :: f in old(owned) ==> f.index == old(f.index) || f.index.Empty?
      ensures forall f :: f in owned ==> unchanged(f.reporter)
      ensures match handle
        case FileHandle(f) =>
          && f.referenceCount == old(f.referenceCount) - 1 && (f.disposeState.code == Disposed || files == old(files))
          && (f.referenceCount > 0 ==> f.index == old(f.index) && unchanged(f.index.Footprint()))
        case DirectoryHandle(d) => old(d.disposeState.code) == Alive ==> d.disposeState.code == Disposed
        case TrackedFileHandle(t) => old(t.disposeState.code) == Alive ==> t.disposeState.code == Disposed
        case TrackedDirectoryHandle(t) => old(t.disposeState.code) == Alive ==> t.disposeState.code == Disposed
    {
      match handle
      case FileHandle(f) =>
        FootprintOwned(f);
        f.Dispose();
      case DirectoryHandle(d) =>
        d.Dispose();
      case TrackedFileHandle(t) =>
        if t.indexedFile != null {
          FootprintOwned(t.indexedFile);
        }
        t.Dispose();
      case TrackedDirectoryHandle(t) =>
        t.Dispose();
    }

    /** The rest of IndexFileAsync and IndexDirectoryAsync after the await: when the
        catalog was disposed meanwhile, the handle is disposed, the registry drained
        and the request refused; otherwise the handle is returned. */
    method Settle(handle: Handle) returns (result: Outcome<Handle>)
      requires Valid() && HandleValid(handle)
      modifies this, OwnedRepr(), handle.Objects()
      ensures Valid() && owned == old(owned) && disposeState == old(disposeState)
      ensures result.ObjectDisposed? <==> disposeState.IsDisposed()
      ensures result.Success? ==> result == Success(handle) && unchanged(this)
      ensures result.Success? ==> unchanged(old(OwnedRepr())) && unchanged(handle.Objects())
      ensures result.ObjectDisposed? ==> files == map[]
      ensures result.ObjectDisposed? && handle.DirectoryHandle? && old(handle.directory.disposeState.code) == Alive ==>
        handle.directory.disposeState.code == Disposed
      ensures result.ObjectDisposed? && handle.TrackedFileHandle? && old(handle.trackedFile.disposeState.code) == Alive ==>
        handle.trackedFile.disposeState.code == Disposed
      ensures result.ObjectDisposed? && handle.TrackedDirectoryHandle? && old(handle.trackedDirectory.disposeState.code) == Alive ==>
        handle.trackedDirectory.disposeState.code == Disposed
      ensures result.ObjectDisposed? && handle.FileHandle? && handle.file in old(files.Values) ==>
        handle.file.disposeState.code == Disposed
    {
      if !disposeState.IsDisposed() {
        return Success(handle);
      }
      DisposeHandle(handle);
      ReprShrinks();
      HandleOutsideRepr(handle);
      CleanupIndexedFiles();
      return ObjectDisposed;
    }

    /** No created file's reporter is among the objects the created files own. */
    lemma ReportersOutsideRepr()
      ensures forall f :: f in owned ==> f.reporter !in OwnedRepr()
    {
    }

    /** A directory or tracker handle is none of the objects the created files own. */
    lemma HandleOutsideRepr(handle: Handle)
      ensures handle.Objects() !! OwnedRepr()
    {
    }

    /** After the created files' indexes were kept or emptied, they own no object
        they did not own before. */
    twostate lemma ReprShrinks()
      requires owned == old(owned)
      requires forall f :: f in old(owned) ==> f.index == old(f.index) || f.index.Empty?
      requires forall f :: f in owned ==> unchanged(f.reporter)
      ensures OwnedRepr() <= old(OwnedRepr())
    {
      forall o | o in OwnedRepr() ensures o in old(OwnedRepr()) {
        var f :| f in owned && o in f.DisposeFootprint();
        assert o in old(f.DisposeFootprint());
      }
    }

    /** The registered paths whose file holds `word`, each once. */
    method Search(word: string) returns (result: Outcome<seq<string>>)
      ensures disposeState.IsDisposed() <==> result.ObjectDisposed?
      ensures result.Success? ==>
        && (forall i, j :: 0 <= i < j < |result.value| ==> result.value[i] != result.value[j])
        && (forall p :: p in result.value <==> p in files && files[p].HasWord(word))
    {
      if disposeState.IsDisposed() {
        return ObjectDisposed;
      }
      var found: seq<string> := [];
      var remaining := files.Keys;
      while remaining != {}
        invariant remaining <= files.Keys
        invariant forall i, j :: 0 <= i < j < |found| ==> found[i] != found[j]
        invariant forall p :: p in found <==> p in files && p !in remaining && files[p].HasWord(word)
        decreases remaining
      {
        var p :| p in remaining;
        remaining := remaining - {p};
        if files[p].HasWord(word) {
          found := found + [p];
        }
      }
      return Success(found);
    }

    /** Every file of `drained` (the registry at some earlier point, when the event
        log was `log`) has been torn down, and the log has since grown by exactly one
        Removed record for each of them. */
    ghost predicate Drained(drained: map<string, IndexedFile>, log: seq<CatalogEvent>)
      reads this, drained.Values
    {
      && (forall p :: p in drained ==> drained[p].disposeState.code == Disposed && drained[p].index.Empty?)
      && |log| <= |events| && events[..|log|] == log
      && (forall i :: |log| <= i < |events| ==> events[i].FileRemoved? && events[i].path in drained)
      && (forall p :: p in drained ==> FileRemoved(p) in events[|log|..])
      && (forall i, j :: |log| <= i < j < |events| ==> events[i] != events[j])
    }

    /** Zeroes and disposes registered files until none is left; each teardown
        unregisters its file and publishes Removed. */
    method CleanupIndexedFiles()
      requires Valid()
      modifies this, OwnedRepr()
      ensures Valid() && files == map[] && owned == old(owned) && disposeState == old(disposeState)
      ensures Drained(old(files), old(events))
      ensures forall f :: f in owned && old(f.disposeState.code) == Disposed ==> f.disposeState.code == Disposed
    {
      while |files| > 0
        invariant Valid() && owned == old(owned) && disposeState == old(disposeState)
        invariant |files| > 0 ==> files == old(files) && events == old(events) && forall f :: f in owned ==> unchanged(f, f.reporter)
        invariant files == map[] ==> Drained(old(files), old(events))
        invariant forall f :: f in owned && old(f.disposeState.code) == Disposed ==> f.disposeState.code == Disposed
        decreases |files|
      {
        DisposeAll();
      }
    }

    /** Draining from the registry `initial` with the event log `log` so far: the
        remaining entries are initial ones; every initial file gone from the registry
        is torn down; `removed` lists the gone paths, once each, in the order their
        Removed records were appended. */
    ghost predicate DrainProgress(initial: map<string, IndexedFile>, log: seq<CatalogEvent>, removed: seq<string>)
      reads this, initial.Values
    {
      && (forall p :: p in files ==> p in initial && files[p] == initial[p])
      && (forall p :: p in initial && p !in files ==> initial[p].disposeState.code == Disposed && initial[p].index.Empty?)
      && events == log + Removals(removed)
      && (forall p :: p in removed <==> p in initial && p !in files)
      && (forall i, j :: 0 <= i < j < |removed| ==> removed[i] != removed[j])
    }

    /** One pass of the foreach over the registered files. */
    method DisposeAll()
      requires Valid()
      modifies this, OwnedRepr()
      ensures Valid() && files == map[] && owned == old(owned) && disposeState == old(disposeState)
      ensures Drained(old(files), old(events))
      ensures forall f :: f in owned && old(f.disposeState.code) == Disposed ==> f.disposeState.code == Disposed
    {
      var snapshot := files.Keys;
      ghost var initialFiles, initialEvents := files, events;
      ghost var removed: seq<string> := [];
      while snapshot != {}
        invariant Valid() && owned == old(owned) && disposeState == old(disposeState)
        invariant files.Keys <= snapshot
        invariant forall p :: p in files ==> unchanged(files[p], files[p].reporter)
        invariant DrainProgress(initialFiles, initialEvents, removed)
        invariant forall f :: f in owned && old(f.disposeState.code) == Disposed ==> f.disposeState.code == Disposed
        decreases snapshot
      {
        var p :| p in snapshot;
        snapshot := snapshot - {p};
        if p in files {
          FootprintOwned(files[p]);
          removed := DisposeEntry(p, initialFiles, initialEvents, removed);
        }
      }
      RemovalsDrain(initialEvents, removed, initialFiles);
    }

    /** The foreach body for the entry under `p`: ZeroRefCount, then Dispose, whose
        callback unregisters the file and appends its Removed record. */
    method DisposeEntry(p: string, ghost initial: map<string, IndexedFile>, ghost log: seq<CatalogEvent>, ghost removed: seq<string>)
      returns (ghost removedNow: seq<string>)
      requires Valid() && p in files && DrainProgress(initial, log, removed)
      modifies this, files[p].DisposeFootprint()
      ensures Valid() && owned == old(owned) && disposeState == old(disposeState)
      ensures files == old(files) - {p} && removedNow == removed + [p]
      ensures DrainProgress(initial, log, removedNow)
      ensures forall f :: f in owned && f != old(files[p]) ==> unchanged(f, f.reporter)
    {
      var file := files[p];
      ghost var before, beforeEvents := files, events;
      file.ZeroRefCount();
      file.Dispose();
      removedNow := removed + [p];
      DrainStep(initial, log, removed, p, before, beforeEvents);
    }

    /** Unregistering the entry under `p` with its Removed record extends a drain by `p`. */
    lemma DrainStep(initial: map<string, IndexedFile>, log: seq<CatalogEvent>, removed: seq<string>, p: string,
                    before: map<string, IndexedFile>, beforeEvents: seq<CatalogEvent>)
      requires forall q :: q in before ==> q in initial && before[q] == initial[q]
      requires beforeEvents == log + Removals(removed)
      requires forall q :: q in removed <==> q in initial && q !in before
      requires forall i, j :: 0 <= i < j < |removed| ==> removed[i] != removed[j]
      requires p in before && files == before - {p} && events == beforeEvents + [FileRemoved(p)]
      requires forall q :: q in initial && q !in files ==> initial[q].disposeState.code == Disposed && initial[q].index.Empty?
      ensures DrainProgress(initial, log, removed + [p])
    {
      RemovalsGrow(log, removed, p, beforeEvents, events);
      RemovedGrows(initial, removed, p, before, files);
    }

    /** Appending the Removed record of `p` to a drain log extends its removed paths by `p`. */
    static lemma RemovalsGrow(log: seq<CatalogEvent>, removed: seq<string>, p: string,
                              before: seq<CatalogEvent>, after: seq<CatalogEvent>)
      requires before == log + Removals(removed) && after == before + [FileRemoved(p)]
      ensures after == log + Removals(removed + [p])
    {
      var removedNow := removed + [p];
      assert removedNow[..|removedNow| - 1] == removed;
      calc {
        after;
        log + Removals(removed) + [FileRemoved(p)];
        log + (Removals(removed) + [FileRemoved(p)]);
      }
    }

    /** The removed paths, extended by `p`, are still distinct and still exactly the
        initial paths no longer registered. */
    static lemma RemovedGrows(initial: map<string, IndexedFile>, removed: seq<string>, p: string,
                              before: map<string, IndexedFile>, after: map<string, IndexedFile>)
      requires forall q :: q in removed <==> q in initial && q !in before
      requires forall i, j :: 0 <= i < j < |removed| ==> removed[i] != removed[j]
      requires p in before && p in initial && after == before - {p}
      ensures forall q :: q in removed + [p] <==> q in initial && q !in after
      ensures forall i, j :: 0 <= i < j < |removed + [p]| ==> (removed + [p])[i] != (removed + [p])[j]
    {
      var removedNow := removed + [p];
      forall q ensures q in removedNow <==> q in initial && q !in after {
        assert q in removedNow <==> q in removed || q == p;
      }
      forall i, j | 0 <= i < j < |removedNow| ensures removedNow[i] != removedNow[j] {
        if j == |removed| {
          assert removedNow[i] in removed;
        }
      }
    }

    /** A created file whose objects are as they were owns only objects the catalog
        owned then. */
    twostate lemma FootprintOwned(file: IndexedFile)
      requires file in old(owned) && unchanged(file.reporter)
      requires file.index == old(file.index) || file.index.Empty?
      ensures file.DisposeFootprint() <= old(OwnedRepr())
    {
      forall o | o in file.DisposeFootprint() ensures o in old(OwnedRepr()) {
        assert o in old(file.DisposeFootprint());
      }
    }

    /** Removed records for distinct registered paths covering every unregistered one
        amount to a drained registry. */
    lemma RemovalsDrain(before: seq<CatalogEvent>, removed: seq<string>, drained: map<string, IndexedFile>)
      requires events == before + Removals(removed)
      requires forall p :: p in drained ==> drained[p].disposeState.code == Disposed && drained[p].index.Empty?
      requires forall p :: p in removed <==> p in drained
      requires forall i, j :: 0 <= i < j < |removed| ==> removed[i] != removed[j]
      ensures Drained(drained, before)
    {
      assert events[|before|..] == Removals(removed);
      forall p | p in drained ensures FileRemoved(p) in events[|before|..] {
        var i :| 0 <= i < |removed| && removed[i] == p;
        assert events[|before|..][i] == FileRemoved(p);
      }
    }

    /** Only the first call acts: it drains the registry and ends Disposed. */
    method Dispose()
      requires Valid()
      modifies this, OwnedRepr()
      ensures Valid() && owned == old(owned)
      ensures old(disposeState.code) == Alive ==>
        && disposeState.code == Disposed && files == map[]
        && Drained(old(files), old(events))
      ensures old(disposeState.code) != Alive ==>
        disposeState == old(disposeState) && files == old(files) && events == old(events)
      ensures old(disposeState.code) != Alive ==> forall f :: f in owned ==> unchanged(f)
    {
      var transition := disposeState.TrySetDisposing();
      disposeState := transition.1;
      if !transition.0 {
        return; // already disposed or disposing
      }
      CleanupIndexedFiles();
      disposeState := disposeState.SetDisposed();
    }
  }
}
