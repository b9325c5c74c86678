// The streaming tokenizer: a fixed character array holds a sliding window
// (offset, count) over the input; the lexer skips non-letters, delimits a
// maximal letter run, and refills by moving the unconsumed tail to index 0 and
// reading into the free space behind it.
module Lexers {
  import opened LexerSpec

  /** Length of the array the lexer rents for its window. */
  const BufferSize := 4096

  /** The decoded character stream under the lexer. How many characters one read
      delivers is not fixed: any number from one up to the requested count while
      input remains, so every property below holds however the reads split the input. */
  class TextReader {
    const data: seq<char>
    var position: nat

    ghost predicate Valid()
      reads this
    {
      position <= |data|
    }

    constructor (data: seq<char>)
      ensures Valid() && this.data == data && position == 0
    {
      this.data := data;
      position := 0;
    }

    /** Reads at most `count` characters into `buffer[index..]`; 0 means end of input
        (or nothing requested). */
    method Read(buffer: array<char>, index: nat, count: nat) returns (read: nat)
      requires Valid()
      requires index + count <= buffer.Length
      modifies this, buffer
      ensures Valid()
      ensures read <= count && position == old(position) + read
      ensures read == 0 <==> count == 0 || old(position) == |data|
      ensures buffer[index..index + read] == data[old(position)..position]
      ensures forall i :: 0 <= i < buffer.Length && !(index <= i < index + read) ==> buffer[i] == old(buffer[i])
    {
      var available := |data| - position;
      var most := if count < available then count else available;
      if most == 0 {
        read := 0;
        return;
      }
      read :| 1 <= read <= most;
      forall i | index <= i < index + read {
        buffer[i] := data[position + (i - index)];
      }
      position := position + read;
    }
  }

  /** A candidate word is kept only when it has at least two characters. */
  function IsProperWord(chars: seq<char>): (proper: bool)
    ensures |chars| <= 1 ==> !proper
    ensures |chars| >= 2 ==> proper
  {
    |chars| > 1
  }

  /** The two parts of a slice cut at `i` are slices of the whole. */
  lemma SliceOfSlice(s: seq<char>, lo: nat, hi: nat, i: nat)
    requires lo <= hi <= |s| && i <= hi - lo
    ensures s[lo..hi][..i] == s[lo..lo + i]
    ensures s[lo..hi][i..] == s[lo + i..hi]
  {
  }

  /** Writing only `after[mid..hi]` extends the slice from `lo` to `mid` by what was written. */
  lemma Appended(before: seq<char>, after: seq<char>, lo: nat, mid: nat, hi: nat, written: seq<char>)
    requires lo <= mid <= hi <= |before| == |after|
    requires forall i :: 0 <= i < |after| && !(mid <= i < hi) ==> after[i] == before[i]
    requires after[mid..hi] == written
    ensures after[lo..hi] == before[lo..mid] + written
  {
    assert after[lo..hi] == after[lo..mid] + after[mid..hi];
  }

  /** Moving the input from `i` to `j` into the window leaves what is pending unchanged. */
  lemma Refilled(window: seq<char>, s: seq<char>, i: nat, j: nat)
    requires i <= j <= |s|
    ensures window + s[i..] == (window + s[i..j]) + s[j..]
  {
    assert s[i..] == s[i..j] + s[j..];
  }

  /** Position of the first non-letter in `chars`, or -1 when all are letters. */
  method IndexOfNonLetter(chars: seq<char>, isLetter: char -> bool) returns (index: int)
    ensures -1 <= index < |chars|
    ensures index == -1 <==> AllLetters(chars, isLetter)
    ensures index >= 0 ==> !isLetter(chars[index]) && AllLetters(chars[..index], isLetter)
  {
    for i := 0 to |chars|
      invariant AllLetters(chars[..i], isLetter)
    {
      if isLetter(chars[i]) {
        continue;
      }
      return i;
    }
    assert chars[..|chars|] == chars;
    return -1;
  }

  /** What one pass of the lexer's loop ends with. */
  datatype StepOutcome = Found(word: string) | Exhausted | Continue(endOfFile: bool, extraLongWord: bool)

  /** Index of the first letter in `chars[start..end]`, or `end` when there is none. */
  method FirstLetter(chars: array<char>, start: nat, end: nat, isLetter: char -> bool) returns (i: nat)
    requires start <= end <= chars.Length
    ensures start <= i <= end
    ensures forall k :: start <= k < i ==> !isLetter(chars[k])
    ensures i < end ==> isLetter(chars[i])
  {
    i := start;
    while i < end
      invariant start <= i <= end
      invariant forall k :: start <= k < i ==> !isLetter(chars[k])
    {
      if isLetter(chars[i]) {
        return;
      }
      i := i + 1;
    }
  }

  /** The array copy the lexer uses to move its window: `length` elements from
      `sourceIndex` to the front of the same array, front to back. */
  method ConstrainedCopy(chars: array<char>, sourceIndex: nat, length: nat)
    requires sourceIndex + length <= chars.Length
    modifies chars
    ensures chars[..length] == old(chars[sourceIndex..sourceIndex + length])
    ensures chars[length..] == old(chars[length..])
  {
    for i := 0 to length
      invariant forall j :: 0 <= j < i ==> chars[j] == old(chars[sourceIndex + j])
      invariant forall j :: i <= j < chars.Length ==> chars[j] == old(chars[j])
    {
      chars[i] := chars[sourceIndex + i];
    }
    assert chars[..length] == old(chars[sourceIndex..sourceIndex + length]);
    assert chars[length..] == old(chars[length..]);
  }

  class StringLexer {
    const reader: TextReader
    const isLetter: char -> bool
    var buffer: array<char>
    var offset: nat
    var count: nat
    var currentLexeme: string
    /** Everything not yet consumed: the window followed by the unread input. */
    ghost var pending: seq<char>

    ghost predicate Valid()
      reads this, buffer, reader
    {
      && offset + count <= buffer.Length
      && reader.Valid()
      && pending == buffer[offset..offset + count] + reader.data[reader.position..]
    }

    /** The characters of the window. */
    ghost function Window(): seq<char>
      reads this, buffer
      requires offset + count <= buffer.Length
    {
      buffer[offset..offset + count]
    }

    /** Rents a BufferSize array and starts with an empty window. */
    constructor (reader: TextReader, isLetter: char -> bool)
      requires reader.Valid()
      ensures Valid() && fresh(buffer)
      ensures this.reader == reader && this.isLetter == isLetter
      ensures buffer.Length == BufferSize && offset == 0 && count == 0 && currentLexeme == []
      ensures pending == reader.data[reader.position..]
    {
      this.reader := reader;
      this.isLetter := isLetter;
      buffer := new char[BufferSize];
      offset, count := 0, 0;
      currentLexeme := [];
      pending := reader.data[reader.position..];
      new;
      assert buffer[0..0] == [];
    }

    /** Drops the leading non-letters of the window; an all-separator window becomes
        empty at 0. What the lexer yields is unchanged. */
    method SkipNonLetters(ghost skipping: bool)
      requires Valid() && buffer.Length > 0
      modifies this
      ensures Valid() && buffer == old(buffer) && currentLexeme == old(currentLexeme)
      ensures count <= old(count) && |pending| <= old(|pending|)
      ensures Lex(pending, isLetter, buffer.Length, skipping) == old(Lex(pending, isLetter, buffer.Length, skipping))
      ensures count > 0 ==> isLetter(buffer[offset])
      ensures count == 0 ==> offset == 0
      ensures count > 0 ==> offset + count == old(offset + count)
      ensures forall k :: old(offset) <= k < old(offset) + old(count) - count ==> !isLetter(buffer[k])
    {
      ghost var window := Window();
      ghost var rest := reader.data[reader.position..];
      var i := FirstLetter(buffer, offset, offset + count, isLetter);
      LexSkipsWindowPrefix(window, rest, i - offset, isLetter, buffer.Length, skipping);
      DropWindowPrefix(i);
    }

    /** Drops the window's characters before index `i`; a window emptied this way
        restarts at 0. */
    method DropWindowPrefix(i: nat)
      requires Valid() && offset <= i <= offset + count
      modifies this
      ensures Valid() && buffer == old(buffer) && currentLexeme == old(currentLexeme)
      ensures i == old(offset + count) ==> offset == 0 && count == 0
      ensures i < old(offset + count) ==> offset == i && offset + count == old(offset + count)
      ensures pending == old(Window())[i - old(offset)..] + reader.data[reader.position..]
    {
      var end := offset + count;
      SliceOfSlice(buffer[..], offset, end, i - offset);
      if i == end {
        offset, count := 0, 0; // all chars are separators
      } else {
        offset, count := i, end - i;
      }
      pending := buffer[offset..offset + count] + reader.data[reader.position..];
    }

    /** Moves the window to the start of the array. An empty window that does not
        start at 0 becomes a segment over the whole array. */
    method CopyTailToBeginning()
      requires Valid()
      modifies this, buffer
      ensures Valid() && buffer == old(buffer) && currentLexeme == old(currentLexeme)
      ensures old(offset) == 0 ==> unchanged(buffer) && offset == old(offset) && count == old(count)
      ensures old(offset) > 0 && old(count) == 0 ==> unchanged(buffer) && offset == 0 && count == buffer.Length
      ensures old(offset) > 0 && old(count) > 0 ==> offset == 0 && count == old(count)
      ensures old(count) > 0 ==> pending == old(pending)
    {
      if offset <= 0 {
        return;
      }
      if count == 0 {
        offset, count := 0, buffer.Length;
        pending := buffer[..] + reader.data[reader.position..];
        return;
      }
      ConstrainedCopy(buffer, offset, count);
      offset := 0;
    }

    /** Skips the separators at the front of the window and finds where the letter run
        that follows ends: at the first non-letter of the window, at the end of the window
        when the input is exhausted, or nowhere yet (-1) when the window holds letters only
        and more input may follow. */
    method DelimitRun(endOfFile: bool, ghost skipping: bool) returns (nextSeparatorIndex: int)
      requires Valid() && buffer.Length > 0
      requires endOfFile ==> reader.position == |reader.data| && count < buffer.Length
      modifies this
      ensures Valid() && buffer == old(buffer) && currentLexeme == old(currentLexeme)
      ensures |pending| <= old(|pending|)
      ensures Lex(pending, isLetter, buffer.Length, skipping) == old(Lex(pending, isLetter, buffer.Length, skipping))
      ensures count <= old(count) && (count == 0 ==> offset == 0)
      ensures -1 <= nextSeparatorIndex <= count
      ensures nextSeparatorIndex < 0 ==> !endOfFile && AllLetters(Window(), isLetter)
      ensures nextSeparatorIndex >= 0 ==>
        && nextSeparatorIndex < buffer.Length
        && AllLetters(Window()[..nextSeparatorIndex], isLetter)
        && (nextSeparatorIndex < count ==> !isLetter(Window()[nextSeparatorIndex]))
        && (nextSeparatorIndex == count ==> endOfFile)
        && (nextSeparatorIndex == 0 ==> pending == [])
    {
      SkipNonLetters(skipping);
      var chars := buffer[offset..offset + count];
      nextSeparatorIndex := IndexOfNonLetter(chars, isLetter);
      if nextSeparatorIndex < 0 && endOfFile {
        nextSeparatorIndex := count; // last word in the input
        assert chars[..count] == chars;
      }
    }

    /** Discards a window that is one letter run filling the whole array; the lexer then
        skips the rest of that run. */
    method DropFullWindow(ghost skipping: bool)
      requires Valid() && buffer.Length > 0 && count == buffer.Length && AllLetters(Window(), isLetter)
      modifies this
      ensures Valid() && buffer == old(buffer) && currentLexeme == old(currentLexeme)
      ensures offset == 0 && count == 0
      ensures |pending| < old(|pending|)
      ensures Lex(pending, isLetter, buffer.Length, true) == old(Lex(pending, isLetter, buffer.Length, skipping))
    {
      LexDropsFullWindow(Window(), reader.data[reader.position..], isLetter, buffer.Length, skipping);
      offset, count := 0, 0;
      pending := reader.data[reader.position..];
    }

    /** Consumes the letter run of `length` characters at the front of the window, delimited
        inside the window or by the end of the input, and returns it. */
    method TakeWord(length: nat, ghost skipping: bool) returns (word: string)
      requires Valid() && length < buffer.Length && length <= count
      requires length == 0 ==> pending == []
      requires AllLetters(Window()[..length], isLetter)
      requires length < count ==> !isLetter(Window()[length])
      requires length == count ==> reader.position == |reader.data|
      modifies this
      ensures Valid() && buffer == old(buffer) && currentLexeme == old(currentLexeme)
      ensures word == old(Window())[..length]
      ensures length > 0 ==> |pending| < old(|pending|)
      ensures count == old(count) - length
      ensures !skipping && length >= 2 ==>
        old(Lex(pending, isLetter, buffer.Length, skipping)) == [word] + Lex(pending, isLetter, buffer.Length, false)
      ensures skipping || length < 2 ==>
        old(Lex(pending, isLetter, buffer.Length, skipping)) == Lex(pending, isLetter, buffer.Length, false)
    {
      LexDelimitedRun(Window(), reader.data[reader.position..], length, isLetter, buffer.Length, skipping);
      word := Advance(length);
    }

    /** Moves the start of the window past its first `length` characters and returns them. */
    method Advance(length: nat) returns (word: string)
      requires Valid() && length <= count
      modifies this
      ensures Valid() && buffer == old(buffer) && currentLexeme == old(currentLexeme)
      ensures word == old(Window())[..length] && count == old(count) - length
      ensures pending == old(Window())[length..] + reader.data[reader.position..]
    {
      var chars, startIndex, n := buffer, offset, count;
      SliceOfSlice(chars[..], startIndex, startIndex + n, length);
      word := chars[startIndex..startIndex + length];
      offset, count := startIndex + length, n - length;
      pending := chars[offset..offset + count] + reader.data[reader.position..];
    }

    /** Reads into the free space behind the window: the array then holds the window
        followed by what was read. */
    method ReadBehindWindow() returns (read: nat)
      requires offset + count <= buffer.Length && reader.Valid()
      modifies buffer, reader
      ensures reader.Valid() && offset + count + read <= buffer.Length
      ensures read == 0 <==> offset + count == buffer.Length || old(reader.position) == |reader.data|
      ensures reader.position == old(reader.position) + read
      ensures buffer[offset..offset + count + read] == old(buffer[offset..offset + count]) + reader.data[old(reader.position)..reader.position]
    {
      ghost var before := buffer[..];
      ghost var from := reader.position;
      read := reader.Read(buffer, offset + count, buffer.Length - count - offset);
      Appended(before, buffer[..], offset, offset + count, offset + count + read, reader.data[from..reader.position]);
    }

    /** Moves the window to the front of the array and reads into the free space behind it;
        reports the end of the input when the read delivers nothing. */
    method FillBuffer() returns (endOfFile: bool)
      requires Valid() && count < buffer.Length && (count == 0 ==> offset == 0)
      modifies this, buffer, reader
      ensures Valid() && buffer == old(buffer) && currentLexeme == old(currentLexeme)
      ensures pending == old(pending)
      ensures endOfFile <==> old(reader.position) == |reader.data|
      ensures endOfFile ==> count == old(count) && reader.position == |reader.data|
      ensures !endOfFile ==> reader.position > old(reader.position)
    {
      CopyTailToBeginning();
      ghost var window := Window();
      ghost var from := reader.position;
      var read := ReadBehindWindow();
      endOfFile := read == 0;
      Refilled(window, reader.data, from, reader.position);
      count := count + read;
    }

    /** One pass of the lexer's loop: delimit the next run, then drop the window, take
        the run, or refill. `extraLongWord` is set while the tail of a dropped run is
        still to be skipped. */
    method Step(endOfFile: bool, extraLongWord: bool) returns (outcome: StepOutcome)
      requires Valid() && buffer.Length > 0
      requires endOfFile ==> reader.position == |reader.data| && count < buffer.Length
      modifies this, buffer, reader
      ensures Valid() && buffer == old(buffer) && currentLexeme == old(currentLexeme)
      ensures outcome.Found? ==>
        old(Lex(pending, isLetter, buffer.Length, extraLongWord)) == [outcome.word] + Lex(pending, isLetter, buffer.Length, false)
      ensures outcome.Exhausted? ==> pending == [] && old(Lex(pending, isLetter, buffer.Length, extraLongWord)) == []
      ensures outcome.Continue? ==>
        && Lex(pending, isLetter, buffer.Length, outcome.extraLongWord) == old(Lex(pending, isLetter, buffer.Length, extraLongWord))
        && (outcome.endOfFile ==> reader.position == |reader.data| && count < buffer.Length)
        && (|pending| < old(|pending|)
            || (|pending| == old(|pending|) && reader.position > old(reader.position))
            || (|pending| == old(|pending|) && reader.position == old(reader.position) && outcome.endOfFile && !endOfFile))
    {
      var nextSeparatorIndex := DelimitRun(endOfFile, extraLongWord);
      var eof, extra := endOfFile, extraLongWord;
      if nextSeparatorIndex < 0 && count == buffer.Length {
        DropFullWindow(extraLongWord);
        extra := true;
      } else if nextSeparatorIndex >= 0 {
        var word := TakeWord(nextSeparatorIndex, extraLongWord);
        if extraLongWord {
          extra := false; // the tail of a dropped run
        } else if IsProperWord(word) {
          return Found(word);
        }
      } else {
        eof := FillBuffer();
      }
      if eof && count == 0 {
        return Exhausted;
      }
      return Continue(eof, extra);
    }

    /** Advances to the next lexeme. On `true`, `currentLexeme` is the first lexeme of
        what was pending, and the rest of the lexemes are those of what is pending now;
        on `false` the input is exhausted and no lexeme was pending. */
    method NextLexeme() returns (found: bool)
      requires Valid() && buffer.Length > 0
      modifies this, buffer, reader
      ensures Valid() && buffer == old(buffer)
      ensures found ==>
        [currentLexeme] + Lex(pending, isLetter, buffer.Length, false)
          == old(Lex(pending, isLetter, buffer.Length, false))
      ensures !found ==> pending == [] && old(Lex(pending, isLetter, buffer.Length, false)) == []
      ensures !found ==> currentLexeme == old(currentLexeme)
    {
      var endOfFile := false;
      var extraLongWord := false;
      ghost var lexemes := Lex(pending, isLetter, buffer.Length, false);
      while true
        invariant Valid() && buffer == old(buffer) && currentLexeme == old(currentLexeme)
        invariant Lex(pending, isLetter, buffer.Length, extraLongWord) == lexemes
        invariant endOfFile ==> reader.position == |reader.data| && count < buffer.Length
        decreases |pending|, |reader.data| - reader.position, if endOfFile then 0 else 1
      {
        var outcome := Step(endOfFile, extraLongWord);
        match outcome
        case Found(word) =>
          currentLexeme := word;
          return true;
        case Exhausted =>
          return false;
        case Continue(eof, extra) =>
          endOfFile, extraLongWord := eof, extra;
      }
    }

    /** Installs an empty array; reports whether a non-empty rented array was handed back. */
    method Dispose() returns (returnedToPool: bool)
      requires Valid()
      modifies this
      ensures Valid() && buffer.Length == 0 && offset == 0 && count == 0
      ensures returnedToPool <==> old(buffer.Length) != 0
      ensures currentLexeme == old(currentLexeme)
    {
      var rented := buffer;
      buffer := new char[0];
      offset, count := 0, 0;
      pending := reader.data[reader.position..];
      returnedToPool := rented.Length != 0;
    }
  }

  /** Drives a fresh lexer over `data` until it reports the end, collecting every lexeme. */
  method ReadAllLexemes(data: seq<char>, isLetter: char -> bool) returns (lexemes: seq<string>)
    ensures lexemes == Lex(data, isLetter, BufferSize, false)
  {
    var reader := new TextReader(data);
    var lexer := new StringLexer(reader, isLetter);
    lexemes := [];
    var more := lexer.NextLexeme();
    while more
      invariant lexer.Valid() && lexer.buffer.Length == BufferSize
      invariant fresh(lexer) && fresh(lexer.buffer) && fresh(reader) && lexer.reader == reader && lexer.isLetter == isLetter
      invariant more ==> lexemes + [lexer.currentLexeme] + Lex(lexer.pending, isLetter, BufferSize, false)
                           == Lex(data, isLetter, BufferSize, false)
      invariant !more ==> lexemes == Lex(data, isLetter, BufferSize, false)
      decreases if more then |Lex(lexer.pending, isLetter, BufferSize, false)| + 1 else 0
    {
      lexemes := lexemes + [lexer.currentLexeme];
      more := lexer.NextLexeme();
    }
    var _ := lexer.Dispose();
  }
}
