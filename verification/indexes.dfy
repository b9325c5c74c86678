// The word-index backends. Both collection-backed indexes keep their words in a
// case-insensitive set (HashSet<string> with the OrdinalIgnoreCase comparer, or a
// ConcurrentDictionary<string, string> with the same comparer whose value is the key):
// two words are equal when `fold` maps them to the same key, and the first spelling
// added is the one kept. The folding itself is a parameter.
module Indexes {

  /** True when some element of `elements` equals `word` ignoring case. */
  predicate HasMatch(elements: set<string>, word: string, fold: string -> string) {
    exists e :: e in elements && fold(e) == fold(word)
  }

  /** No two elements are equal ignoring case. */
  predicate Distinct(elements: set<string>, fold: string -> string) {
    forall a, b :: a in elements && b in elements && fold(a) == fold(b) ==> a == b
  }

  /** Reference definition: the elements of a case-insensitive set after adding
      `words` in order to an empty one. */
  function Spellings(words: seq<string>, fold: string -> string): set<string>
    decreases |words|
  {
    if words == [] then {}
    else
      var before := Spellings(words[..|words| - 1], fold);
      var w := words[|words| - 1];
      if HasMatch(before, w, fold) then before else before + {w}
  }

  /** After adding `words`, a word is matched exactly when one of the added words
      equals it ignoring case. */
  lemma {:induction false} SpellingsMatch(words: seq<string>, fold: string -> string, word: string)
    ensures HasMatch(Spellings(words, fold), word, fold)
            <==> exists i :: 0 <= i < |words| && fold(words[i]) == fold(word)
    decreases |words|
  {
    if words != [] {
      var init := words[..|words| - 1];
      SpellingsMatch(init, fold, word);
      SpellingsMatch(init, fold, words[|words| - 1]);
      if exists i :: 0 <= i < |words| && fold(words[i]) == fold(word) {
        var i :| 0 <= i < |words| && fold(words[i]) == fold(word);
        if i < |words| - 1 {
          assert init[i] == words[i];
        }
      }
      if exists i :: 0 <= i < |init| && fold(init[i]) == fold(word) {
        var i :| 0 <= i < |init| && fold(init[i]) == fold(word);
        assert words[i] == init[i];
      }
    }
  }

  /** Every kept element is the first added word of its case-insensitive class, and
      the kept elements are pairwise distinct ignoring case. */
  lemma {:induction false} SpellingsAreFirst(words: seq<string>, fold: string -> string)
    ensures Distinct(Spellings(words, fold), fold)
    ensures forall e :: e in Spellings(words, fold) ==>
              exists i :: 0 <= i < |words| && words[i] == e &&
                          forall j :: 0 <= j < i ==> fold(words[j]) != fold(e)
    decreases |words|
  {
    if words != [] {
      var init := words[..|words| - 1];
      var w := words[|words| - 1];
      SpellingsAreFirst(init, fold);
      var before := Spellings(init, fold);
      forall e | e in Spellings(words, fold)
        ensures exists i :: 0 <= i < |words| && words[i] == e &&
                            forall j :: 0 <= j < i ==> fold(words[j]) != fold(e)
      {
        if e in before {
          var i :| 0 <= i < |init| && init[i] == e && forall j :: 0 <= j < i ==> fold(init[j]) != fold(e);
          assert words[i] == e;
          forall j | 0 <= j < i ensures fold(words[j]) != fold(e) {
            assert words[j] == init[j];
          }
        } else {
          assert e == w && !HasMatch(before, w, fold);
          SpellingsMatch(init, fold, w);
          forall j | 0 <= j < |words| - 1 ensures fold(words[j]) != fold(e) {
            assert words[j] == init[j];
          }
        }
      }
    }
  }

  /** A case-insensitive set of words: the HashSet of the HashSet backend, and the
      ConcurrentDictionary (key and value both the word) of the dictionary backend. */
  class FoldedSet {
    const fold: string -> string
    var elements: set<string>

    ghost predicate Valid()
      reads this
    {
      Distinct(elements, fold)
    }

    constructor (fold: string -> string)
      ensures Valid() && this.fold == fold && elements == {}
    {
      this.fold := fold;
      elements := {};
    }

    /** Membership under the comparer. */
    function Contains(word: string): (b: bool)
      reads this
      ensures word in elements ==> b
      ensures elements == {} ==> !b
    {
      HasMatch(elements, word, fold)
    }

    /** HashSet.Add and ConcurrentDictionary.TryAdd: adds `word` unless an equal word
        is present; a later case variant never replaces the first spelling. */
    method Add(word: string) returns (added: bool)
      requires Valid()
      modifies this
      ensures Valid() && Contains(word)
      ensures added <==> !old(Contains(word))
      ensures elements == if added then old(elements) + {word} else old(elements)
    {
      added := !Contains(word);
      if added {
        elements := elements + {word};
      }
    }

    method Clear()
      modifies this
      ensures Valid() && elements == {}
      ensures forall w :: !Contains(w)
    {
      elements := {};
    }
  }

  /** Builder of the HashSet backend. */
  class HashSetIndexBuilder {
    const list: FoldedSet
    var wordCount: int
    /** The words added so far, in order. */
    ghost var added: seq<string>

    ghost predicate Valid()
      reads this, list
    {
      && list.Valid()
      && list.elements == Spellings(added, list.fold)
      && wordCount == |added|
    }

    constructor (fold: string -> string)
      ensures Valid() && fresh(list) && list.fold == fold && added == []
    {
      list := new FoldedSet(fold);
      wordCount := 0;
      added := [];
    }

    /** Counts every word, duplicates included, and adds it to the set. */
    method Add(word: string)
      requires Valid()
      modifies this, list
      ensures Valid() && added == old(added) + [word]
      ensures wordCount == old(wordCount) + 1
    {
      wordCount := wordCount + 1;
      var _ := list.Add(word);
      added := added + [word];
      assert added[..|added| - 1] == old(added);
    }

    /** Takes no notice of the lexer. */
    method WithLexer()
      ensures unchanged(this, list)
    {
    }

    /** Wraps the builder's own set (not a copy) and its count. */
    method Build() returns (index: HashSetIndex)
      requires Valid()
      ensures fresh(index) && index.wordSet == list && index.Count() == |added|
    {
      index := new HashSetIndex(list, wordCount);
    }
  }

  class HashSetIndex {
    const wordSet: FoldedSet
    const wordCount: int

    constructor (wordSet: FoldedSet, wordCount: int)
      ensures this.wordSet == wordSet && Count() == wordCount
    {
      this.wordSet := wordSet;
      this.wordCount := wordCount;
    }

    /** The count given at construction; fixed for the life of the index. */
    function Count(): (n: int)
      ensures n == wordCount
    {
      wordCount
    }

    function Contains(word: string): (b: bool)
      reads wordSet
      ensures b <==> HasMatch(wordSet.elements, word, wordSet.fold)
    {
      wordSet.Contains(word)
    }

    /** Clears the wrapped set in place; the count is kept. */
    method Dispose()
      modifies wordSet
      ensures wordSet.Valid() && wordSet.elements == {} && forall w :: !Contains(w)
    {
      wordSet.Clear();
    }
  }

  /** Builder of the ConcurrentDictionary backend. */
  class ConcurrentDictionaryIndexBuilder {
    const dictionary: FoldedSet
    var wordCount: int
    /** The words added so far, in order. */
    ghost var added: seq<string>

    ghost predicate Valid()
      reads this, dictionary
    {
      && dictionary.Valid()
      && dictionary.elements == Spellings(added, dictionary.fold)
      && wordCount == |added|
    }

    constructor (fold: string -> string)
      ensures Valid() && fresh(dictionary) && dictionary.fold == fold && added == []
    {
      dictionary := new FoldedSet(fold);
      wordCount := 0;
      added := [];
    }

    /** Counts every word and offers it to TryAdd, which keeps the first spelling. */
    method Add(word: string)
      requires Valid()
      modifies this, dictionary
      ensures Valid() && added == old(added) + [word]
      ensures wordCount == old(wordCount) + 1
    {
      wordCount := wordCount + 1;
      var _ := dictionary.Add(word);
      added := added + [word];
      assert added[..|added| - 1] == old(added);
    }

    /** Takes no notice of the lexer. */
    method WithLexer()
      ensures unchanged(this, dictionary)
    {
    }

    /** Wraps the builder's own dictionary (not a copy) and its count. */
    method Build() returns (index: ConcurrentDictionaryIndex)
      requires Valid()
      ensures fresh(index) && index.dictionary == dictionary && index.Count() == |added|
    {
      index := new ConcurrentDictionaryIndex(dictionary, wordCount);
    }
  }

  class ConcurrentDictionaryIndex {
    const dictionary: FoldedSet
    const wordCount: int

    constructor (dictionary: FoldedSet, wordCount: int)
      ensures this.dictionary == dictionary && Count() == wordCount
    {
      this.dictionary := dictionary;
      this.wordCount := wordCount;
    }

    /** The count given at construction; fixed for the life of the index. */
    function Count(): (n: int)
      ensures n == wordCount
    {
      wordCount
    }

    function Contains(word: string): (b: bool)
      reads dictionary
      ensures b <==> HasMatch(dictionary.elements, word, dictionary.fold)
    {
      dictionary.Contains(word)
    }

    /** Clears the wrapped dictionary in place; the count is kept. */
    method Dispose()
      modifies dictionary
      ensures dictionary.Valid() && dictionary.elements == {} && forall w :: !Contains(w)
    {
      dictionary.Clear();
    }
  }

  /** The index of a file before its first build and after its teardown. */
  class EmptyWordIndex {
    constructor ()
    {
    }

    /** Every read of the instance property constructs a new object. */
    static method Instance() returns (index: EmptyWordIndex)
      ensures fresh(index)
    {
      index := new EmptyWordIndex();
    }

    function Count(): (n: int)
      ensures n == 0
    {
      0
    }

    function Contains(word: string): (b: bool)
      ensures !b
    {
      false
    }

    method Dispose()
      ensures unchanged(this)
    {
    }
  }

  /** The word index a file holds: one of the backends. */
  datatype WordIndex =
    | Empty(empty: EmptyWordIndex)
    | HashSetBacked(hashSet: HashSetIndex)
    | DictionaryBacked(dictionaryIndex: ConcurrentDictionaryIndex)
  {
    /** The collection the index wraps, if any. */
    function Footprint(): set<object>
    {
      match this
      case Empty(_) => {}
      case HashSetBacked(ix) => {ix.wordSet}
      case DictionaryBacked(ix) => {ix.dictionary}
    }

    /** The words the index holds (none for the empty index). */
    ghost function Elements(): set<string>
      reads Footprint()
    {
      match this
      case Empty(_) => {}
      case HashSetBacked(ix) => ix.wordSet.elements
      case DictionaryBacked(ix) => ix.dictionary.elements
    }

    /** The comparer of the wrapped collection. */
    function Fold(): string -> string
    {
      match this
      case Empty(_) => w => w
      case HashSetBacked(ix) => ix.wordSet.fold
      case DictionaryBacked(ix) => ix.dictionary.fold
    }

    function Count(): int
    {
      match this
      case Empty(ix) => ix.Count()
      case HashSetBacked(ix) => ix.Count()
      case DictionaryBacked(ix) => ix.Count()
    }

    /** A word is contained when the index holds a word equal to it ignoring case. */
    function Contains(word: string): (b: bool)
      reads Footprint()
      ensures b <==> HasMatch(Elements(), word, Fold())
    {
      match this
      case Empty(ix) => ix.Contains(word)
      case HashSetBacked(ix) => ix.Contains(word)
      case DictionaryBacked(ix) => ix.Contains(word)
    }

    method Dispose()
      modifies Footprint()
      ensures Elements() == {} && forall w :: !Contains(w)
    {
      match this
      case Empty(ix) => ix.Dispose();
      case HashSetBacked(ix) => ix.Dispose();
      case DictionaryBacked(ix) => ix.Dispose();
    }
  }

  /** Which backend the builder factory creates. */
  datatype BuilderKind = HashSetKind | DictionaryKind

  /** A builder of either backend. */
  datatype WordIndexBuilder =
    | HashSetBuilding(hashSetBuilder: HashSetIndexBuilder)
    | DictionaryBuilding(dictionaryBuilder: ConcurrentDictionaryIndexBuilder)
  {
    function Repr(): set<object>
    {
      match this
      case HashSetBuilding(b) => {b, b.list}
      case DictionaryBuilding(b) => {b, b.dictionary}
    }

    ghost predicate Valid()
      reads Repr()
    {
      match this
      case HashSetBuilding(b) => b.Valid()
      case DictionaryBuilding(b) => b.Valid()
    }

    ghost function Added(): seq<string>
      reads Repr()
    {
      match this
      case HashSetBuilding(b) => b.added
      case DictionaryBuilding(b) => b.added
    }

    function Fold(): string -> string
    {
      match this
      case HashSetBuilding(b) => b.list.fold
      case DictionaryBuilding(b) => b.dictionary.fold
    }

    method Add(word: string)
      requires Valid()
      modifies Repr()
      ensures Valid() && Added() == old(Added()) + [word]
    {
      match this
      case HashSetBuilding(b) => b.Add(word);
      case DictionaryBuilding(b) => b.Add(word);
    }

    /** The built index counts every added word and holds the first spelling of each
        case-insensitive class of them, so (SpellingsMatch) it contains exactly the
        words equal, ignoring case, to one of them. */
    method Build() returns (index: WordIndex)
      requires Valid()
      ensures !index.Empty? && index.Footprint() <= Repr() && index.Fold() == Fold()
      ensures index.Count() == |Added()| && index.Elements() == Spellings(Added(), Fold())
    {
      match this {
        case HashSetBuilding(b) =>
          var ix := b.Build();
          index := HashSetBacked(ix);
        case DictionaryBuilding(b) =>
          var ix := b.Build();
          index := DictionaryBacked(ix);
      }
    }
  }

  /** The builder factory: a new, empty builder of the configured backend. */
  method NewBuilder(kind: BuilderKind, fold: string -> string) returns (builder: WordIndexBuilder)
    ensures builder.Valid() && fresh(builder.Repr()) && builder.Added() == [] && builder.Fold() == fold
    ensures kind == HashSetKind <==> builder.HashSetBuilding?
  {
    match kind
    case HashSetKind =>
      var b := new HashSetIndexBuilder(fold);
      builder := HashSetBuilding(b);
    case DictionaryKind =>
      var b := new ConcurrentDictionaryIndexBuilder(fold);
      builder := DictionaryBuilding(b);
  }
}
