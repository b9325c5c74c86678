// What the streaming tokenizer produces, stated over the whole input at once.
// The letter classification (Unicode categories in the source) is a parameter
// `isLetter`, so every result here holds for any classification.
module LexerSpec {

  /** Length of the longest prefix of `s` made of letters. */
  function RunLength(s: seq<char>, isLetter: char -> bool): (n: nat)
    ensures n <= |s|
    ensures forall i :: 0 <= i < n ==> isLetter(s[i])
    ensures n < |s| ==> !isLetter(s[n])
    ensures s != [] && isLetter(s[0]) ==> n > 0
    decreases |s|
  {
    if s == [] || !isLetter(s[0]) then 0 else 1 + RunLength(s[1..], isLetter)
  }

  predicate AllLetters(s: seq<char>, isLetter: char -> bool) {
    forall i :: 0 <= i < |s| ==> isLetter(s[i])
  }

  /** Reference definition: the maximal letter runs of the input that are at least
      two characters long, in input order. */
  function Words(s: seq<char>, isLetter: char -> bool): seq<string>
    decreases |s|
  {
    if s == [] then []
    else if !isLetter(s[0]) then Words(s[1..], isLetter)
    else
      var len := RunLength(s, isLetter);
      (if len >= 2 then [s[..len]] else []) + Words(s[len..], isLetter)
  }

  /** What the lexer with a buffer of `n` characters yields for the rest of the input `s`.
      A run that fills the whole buffer is dropped `n` characters at a time; the run
      delimited right after such a drop is taken as the dropped run's tail and is
      skipped too (`skipping`). A run shorter than two characters is never yielded. */
  function Lex(s: seq<char>, isLetter: char -> bool, n: nat, skipping: bool): seq<string>
    requires n > 0
    decreases |s|
  {
    if s == [] then []
    else if !isLetter(s[0]) then Lex(s[1..], isLetter, n, skipping)
    else
      var len := RunLength(s, isLetter);
      if len >= n then Lex(s[n..], isLetter, n, true)
      else (if !skipping && len >= 2 then [s[..len]] else []) + Lex(s[len..], isLetter, n, false)
  }

  /** Every letter run of `s` is shorter than `n`. */
  predicate RunsShorterThan(s: seq<char>, isLetter: char -> bool, n: nat) {
    forall i :: 0 <= i < |s| ==> RunLength(s[i..], isLetter) < n
  }

  lemma {:induction false} RunLengthAppend(u: seq<char>, v: seq<char>, isLetter: char -> bool)
    requires AllLetters(u, isLetter)
    ensures RunLength(u + v, isLetter) == |u| + RunLength(v, isLetter)
    decreases |u|
  {
    if u == [] {
      assert u + v == v;
    } else {
      assert (u + v)[1..] == u[1..] + v;
      RunLengthAppend(u[1..], v, isLetter);
    }
  }

  lemma {:induction false} RunLengthShift(s: seq<char>, k: nat, isLetter: char -> bool)
    requires k <= RunLength(s, isLetter)
    ensures RunLength(s[k..], isLetter) == RunLength(s, isLetter) - k
  {
    assert s == s[..k] + s[k..];
    RunLengthAppend(s[..k], s[k..], isLetter);
  }

  /** Leading non-letters never change what the lexer yields. */
  lemma {:induction false} LexSkipsNonLetters(s: seq<char>, k: nat, isLetter: char -> bool, n: nat, skipping: bool)
    requires n > 0 && k <= |s|
    requires forall i :: 0 <= i < k ==> !isLetter(s[i])
    ensures Lex(s[k..], isLetter, n, skipping) == Lex(s, isLetter, n, skipping)
    decreases k
  {
    if k > 0 {
      assert s[1..][k - 1..] == s[k..];
      LexSkipsNonLetters(s[1..], k - 1, isLetter, n, skipping);
    }
  }

  /** Every yielded lexeme has at least two characters, fits strictly inside the
      buffer, and consists of letters only. */
  lemma {:induction false} LexemeShape(s: seq<char>, isLetter: char -> bool, n: nat, skipping: bool)
    requires n > 0
    ensures forall w :: w in Lex(s, isLetter, n, skipping) ==>
              2 <= |w| < n && AllLetters(w, isLetter)
    decreases |s|
  {
    if s == [] {
    } else if !isLetter(s[0]) {
      LexemeShape(s[1..], isLetter, n, skipping);
    } else {
      var len := RunLength(s, isLetter);
      if len >= n {
        LexemeShape(s[n..], isLetter, n, true);
      } else {
        LexemeShape(s[len..], isLetter, n, false);
      }
    }
  }

  lemma {:induction false} WordsAfterFirstRun(s: seq<char>, isLetter: char -> bool)
    ensures forall w :: w in Words(s[RunLength(s, isLetter)..], isLetter) ==> w in Words(s, isLetter)
  {
    if s == [] || !isLetter(s[0]) {
      assert s[0..] == s;
    }
  }

  /** Every yielded lexeme is one of the input's letter runs of length at least two.
      When the lexer is skipping, the run it stands in is not among them. */
  lemma {:induction false} LexemesAreInputWords(s: seq<char>, isLetter: char -> bool, n: nat, skipping: bool)
    requires n > 0
    ensures forall w :: w in Lex(s, isLetter, n, skipping) ==>
              w in Words(if skipping then s[RunLength(s, isLetter)..] else s, isLetter)
    decreases |s|
  {
    if s == [] {
    } else if !isLetter(s[0]) {
      assert s[0..] == s;
      LexemesAreInputWords(s[1..], isLetter, n, skipping);
      WordsAfterFirstRun(s[1..], isLetter);
    } else {
      var len := RunLength(s, isLetter);
      if len >= n {
        RunLengthShift(s, n, isLetter);
        assert s[n..][len - n..] == s[len..];
        LexemesAreInputWords(s[n..], isLetter, n, true);
      } else {
        LexemesAreInputWords(s[len..], isLetter, n, false);
      }
    }
  }

  lemma RunsShorterThanSuffix(s: seq<char>, k: nat, isLetter: char -> bool, n: nat)
    requires k <= |s| && RunsShorterThan(s, isLetter, n)
    ensures RunsShorterThan(s[k..], isLetter, n)
  {
    forall i | 0 <= i < |s[k..]| ensures RunLength(s[k..][i..], isLetter) < n {
      assert s[k..][i..] == s[k + i..];
    }
  }

  /** When no letter run reaches the buffer size, the lexer yields exactly the
      input's letter runs of length at least two, in order. */
  lemma {:induction false} LexMatchesWords(s: seq<char>, isLetter: char -> bool, n: nat)
    requires n > 0
    requires RunsShorterThan(s, isLetter, n)
    ensures Lex(s, isLetter, n, false) == Words(s, isLetter)
    decreases |s|
  {
    if s == [] {
    } else if !isLetter(s[0]) {
      RunsShorterThanSuffix(s, 1, isLetter, n);
      LexMatchesWords(s[1..], isLetter, n);
    } else {
      var len := RunLength(s, isLetter);
      assert s[0..] == s;
      RunsShorterThanSuffix(s, len, isLetter, n);
      LexMatchesWords(s[len..], isLetter, n);
    }
  }

  /** Separators at the front of a window followed by the unread input do not change
      what the lexer yields. */
  lemma {:induction false} LexSkipsWindowPrefix(window: seq<char>, rest: seq<char>, k: nat,
                                                isLetter: char -> bool, n: nat, skipping: bool)
    requires n > 0 && k <= |window|
    requires forall i :: 0 <= i < k ==> !isLetter(window[i])
    ensures Lex(window[k..] + rest, isLetter, n, skipping) == Lex(window + rest, isLetter, n, skipping)
    ensures k == |window| ==> window[k..] + rest == rest
  {
    assert (window + rest)[k..] == window[k..] + rest;
    LexSkipsNonLetters(window + rest, k, isLetter, n, skipping);
  }

  /** A letter run of `len` characters at the front of a window, delimited inside the
      window or where the input after the window resumes, is the whole first run. */
  lemma {:induction false} DelimitedRunLength(window: seq<char>, rest: seq<char>, len: nat, isLetter: char -> bool)
    requires len <= |window|
    requires AllLetters(window[..len], isLetter)
    requires len < |window| ==> !isLetter(window[len])
    requires len == |window| && rest != [] ==> !isLetter(rest[0])
    ensures RunLength(window + rest, isLetter) == len
    ensures (window + rest)[..len] == window[..len]
    ensures (window + rest)[len..] == window[len..] + rest
  {
    assert window + rest == window[..len] + (window[len..] + rest);
    RunLengthAppend(window[..len], window[len..] + rest, isLetter);
    assert window[len..] + rest == [] || !isLetter((window[len..] + rest)[0]);
  }

  /** One step of the lexer on a window followed by the unread input: the window starts
      with a letter run of `len` characters, shorter than the buffer and delimited either
      inside the window or where the input after it resumes. The run is yielded unless
      skipping or shorter than two, and the lexer continues right after it, no longer
      skipping. */
  lemma {:induction false} LexDelimitedRun(window: seq<char>, rest: seq<char>, len: nat,
                                           isLetter: char -> bool, n: nat, skipping: bool)
    requires len < n && len <= |window|
    requires len == 0 ==> window + rest == []
    requires AllLetters(window[..len], isLetter)
    requires len < |window| ==> !isLetter(window[len])
    requires len == |window| && rest != [] ==> !isLetter(rest[0])
    ensures Lex(window + rest, isLetter, n, skipping)
            == (if !skipping && len >= 2 then [window[..len]] else []) + Lex(window[len..] + rest, isLetter, n, false)
  {
    if len > 0 {
      DelimitedRunLength(window, rest, len, isLetter);
    }
  }

  /** A window of `n` letters at the front of the input is dropped whole and the lexer
      goes on skipping. */
  lemma {:induction false} LexDropsFullWindow(window: seq<char>, rest: seq<char>, isLetter: char -> bool, n: nat, skipping: bool)
    requires n > 0 && |window| == n && AllLetters(window, isLetter)
    ensures Lex(window + rest, isLetter, n, skipping) == Lex(rest, isLetter, n, true)
  {
    RunLengthAppend(window, rest, isLetter);
    assert (window + rest)[0] == window[0];
    assert (window + rest)[n..] == rest;
  }

  /** A full window dropped right before a separator leaves the lexer skipping at the
      input after the separator. */
  lemma {:induction false} LexDropsWindowAndSeparator(r: seq<char>, c: char, x: seq<char>,
                                                      isLetter: char -> bool, n: nat)
    requires n > 0 && |r| == n && AllLetters(r, isLetter)
    requires !isLetter(c)
    ensures Lex(r + [c] + x, isLetter, n, false) == Lex(x, isLetter, n, true)
  {
    assert r + [c] + x == r + ([c] + x);
    LexDropsFullWindow(r, [c] + x, isLetter, n, false);
    assert ([c] + x)[1..] == x;
    LexSkipsNonLetters([c] + x, 1, isLetter, n, true);
  }

  /** A run of exactly `n` letters is dropped, and the run delimited after it is
      taken as its tail and dropped as well, even though it fits in the buffer. */
  lemma {:induction false} FullBufferRunSkipsNextWord(r: seq<char>, c: char, w: seq<char>, t: seq<char>,
                                                      isLetter: char -> bool, n: nat)
    requires n > 0 && |r| == n && AllLetters(r, isLetter)
    requires !isLetter(c)
    requires 0 < |w| < n && AllLetters(w, isLetter)
    requires t == [] || !isLetter(t[0])
    ensures Lex(r + [c] + w + t, isLetter, n, false) == Lex(t, isLetter, n, false)
  {
    assert r + [c] + w + t == r + [c] + (w + t);
    LexDropsWindowAndSeparator(r, c, w + t, isLetter, n);
    assert w[..|w|] == w && w[|w|..] + t == t;
    LexDelimitedRun(w, t, |w|, isLetter, n, true);
  }
}
