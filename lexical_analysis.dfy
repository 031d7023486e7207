/** The analysis of a plain-text file in the report: its lines, its words,
    the word-frequency table and its ten most frequent words, and the
    content preview. */
module LexicalAnalysis {
  import opened Text
  import opened Numbers

  // ---------------------------------------------------------------------
  // Lines, words and characters

  /** `content.split('\n')`. */
  function Lines(content: string): (lines: seq<string>)
    ensures |lines| == Occurrences(content, '\n') + 1
  {
    SplitCount(content, '\n');
    Split(content, '\n')
  }

  /** No character of `w` is whitespace. */
  predicate NoWhitespace(w: string) {
    forall k :: 0 <= k < |w| ==> !IsWhitespace(w[k])
  }

  /** The words of `s`, where `word` is the part of a word already read. */
  function WordsFrom(s: string, word: string): (words: seq<string>)
    requires NoWhitespace(word)
    ensures forall w :: w in words ==> w != [] && NoWhitespace(w)
  {
    if s == [] then
      (if word == [] then [] else [word])
    else if IsWhitespace(s[0]) then
      (if word == [] then WordsFrom(s[1..], []) else [word] + WordsFrom(s[1..], []))
    else
      WordsFrom(s[1..], word + [s[0]])
  }

  /** `content.split(/\s+/).filter(w => w.length > 0)`: the maximal runs of
      characters that are not whitespace, in order. */
  function Words(content: string): (words: seq<string>)
    ensures forall w :: w in words ==> w != [] && NoWhitespace(w)
  {
    WordsFrom(content, [])
  }

  /** The characters of `s` that are not whitespace, in order. */
  function NonWhitespace(s: string): string
  {
    if s == [] then []
    else (if IsWhitespace(s[0]) then [] else [s[0]]) + NonWhitespace(s[1..])
  }

  /** The words laid end to end. */
  function Concat(words: seq<string>): string
  {
    if words == [] then [] else words[0] + Concat(words[1..])
  }

  lemma {:induction false} WordsFromConcat(s: string, word: string)
    requires NoWhitespace(word)
    ensures Concat(WordsFrom(s, word)) == word + NonWhitespace(s)
  {
    if s == [] {
      if word != [] {
        assert Concat([word]) == word + Concat([]);
      }
    } else if IsWhitespace(s[0]) {
      WordsFromConcat(s[1..], []);
      if word != [] {
        var rest := WordsFrom(s[1..], []);
        assert ([word] + rest)[1..] == rest;
      }
    } else {
      WordsFromConcat(s[1..], word + [s[0]]);
      assert word + [s[0]] + NonWhitespace(s[1..]) == word + ([s[0]] + NonWhitespace(s[1..]));
    }
  }

  /** The words hold every character of the content that is not whitespace,
      in order, and nothing else. */
  lemma WordsCoverContent(content: string)
    ensures Concat(Words(content)) == NonWhitespace(content)
  {
    WordsFromConcat(content, []);
  }

  /** A word starts at `i`: `s[i]` is not whitespace and either opens the
      text or follows whitespace. */
  predicate StartsWord(s: string, i: nat) {
    i < |s| && !IsWhitespace(s[i]) && (i == 0 || IsWhitespace(s[i - 1]))
  }

  /** The number of positions from `i` on where a word starts. */
  function WordStartsFrom(s: string, i: nat): nat
    decreases |s| - i
  {
    if i >= |s| then 0 else (if StartsWord(s, i) then 1 else 0) + WordStartsFrom(s, i + 1)
  }

  lemma {:induction false} WordsFromCount(s: string, i: nat, word: string)
    requires i <= |s| && NoWhitespace(word)
    requires word != [] <==> (0 < i && !IsWhitespace(s[i - 1]))
    ensures |WordsFrom(s[i..], word)| == (if word == [] then 0 else 1) + WordStartsFrom(s, i)
    decreases |s| - i
  {
    if i < |s| {
      var t := s[i..];
      assert t[0] == s[i] && t[1..] == s[i + 1..];
      if IsWhitespace(s[i]) {
        WordsFromCount(s, i + 1, []);
      } else {
        WordsFromCount(s, i + 1, word + [s[i]]);
      }
    }
  }

  /** There are as many words as positions where a run of characters that
      are not whitespace begins. */
  lemma WordCount(content: string)
    ensures |Words(content)| == WordStartsFrom(content, 0)
  {
    WordsFromCount(content, 0, []);
    assert content[0..] == content;
  }

  lemma {:induction false} WordsFromSplit(a: string, c: char, b: string, word: string)
    requires IsWhitespace(c) && NoWhitespace(word)
    ensures WordsFrom(a + [c] + b, word) == WordsFrom(a, word) + WordsFrom(b, [])
    decreases |a|
  {
    var s := a + [c] + b;
    if a == [] {
      assert s[0] == c && s[1..] == b;
    } else {
      assert s[0] == a[0] && s[1..] == a[1..] + [c] + b;
      if IsWhitespace(a[0]) {
        WordsFromSplit(a[1..], c, b, []);
        var rest := WordsFrom(a[1..], []);
        assert [word] + (rest + WordsFrom(b, [])) == ([word] + rest) + WordsFrom(b, []);
      } else {
        assert NoWhitespace(word + [a[0]]);
        WordsFromSplit(a[1..], c, b, word + [a[0]]);
      }
    }
  }

  /** Whitespace separates words: the words of `a`, one whitespace character
      and `b` are the words of `a` followed by the words of `b`. */
  lemma WordsSplitAtWhitespace(a: string, c: char, b: string)
    requires IsWhitespace(c)
    ensures Words(a + [c] + b) == Words(a) + Words(b)
  {
    WordsFromSplit(a, c, b, []);
  }

  lemma {:induction false} WordsFromRun(w: string, word: string)
    requires NoWhitespace(w) && NoWhitespace(word)
    ensures WordsFrom(w, word) == if word + w == [] then [] else [word + w]
  {
    if w != [] {
      assert NoWhitespace(word + [w[0]]);
      WordsFromRun(w[1..], word + [w[0]]);
      assert word + [w[0]] + w[1..] == word + w;
    } else {
      assert word + w == word;
    }
  }

  /** A run of characters that are not whitespace is one word, whole. */
  lemma WordsOfRun(w: string)
    requires w != [] && NoWhitespace(w)
    ensures Words(w) == [w]
  {
    WordsFromRun(w, []);
    assert [] + w == w;
  }

  /** `content.length`: JavaScript counts UTF-16 code units, two for a code
      point above U+FFFF. */
  function Utf16Length(s: string): (n: nat)
    ensures |s| <= n <= 2 * |s|
  {
    if s == [] then 0 else (if s[0] >= '\U{10000}' then 2 else 1) + Utf16Length(s[1..])
  }

  // ---------------------------------------------------------------------
  // Normalised words

  /** A character that `.replace(/[^a-z0-9]/g, '')` keeps. */
  predicate IsWordChar(c: char) {
    'a' <= c <= 'z' || '0' <= c <= '9'
  }

  predicate AllWordChars(w: string) {
    forall k :: 0 <= k < |w| ==> IsWordChar(w[k])
  }

  /** The characters of `c.toLowerCase()` that are ASCII lower-case letters
      or digits. Besides `A`-`Z`, `a`-`z` and `0`-`9` only two code points
      lower-case to such a character: U+212A KELVIN SIGN, to `k`, and
      U+0130 LATIN CAPITAL LETTER I WITH DOT ABOVE, to `i` followed by a
      combining dot, which the filter drops. */
  function LowerWordChars(c: char): (r: string)
    ensures |r| <= 1 && AllWordChars(r)
    ensures IsWordChar(c) ==> r == [c]
    ensures 'A' <= c <= 'Z' ==> |r| == 1 && UpperAscii(r[0]) == c
    ensures c == '\U{212A}' ==> r == "k"
    ensures c == '\U{0130}' ==> r == "i"
    ensures !('A' <= c <= 'Z') && !IsWordChar(c) && c != '\U{212A}' && c != '\U{0130}' ==> r == []
  {
    if 'A' <= c <= 'Z' then [(c as int + 32) as char]
    else if IsWordChar(c) then [c]
    else if c == '\U{212A}' then "k"
    else if c == '\U{0130}' then "i"
    else []
  }

  /** `word.toLowerCase().replace(/[^a-z0-9]/g, '')`. */
  function Normalize(word: string): (w: string)
    ensures |w| <= |word| && AllWordChars(w)
  {
    if word == [] then [] else LowerWordChars(word[0]) + Normalize(word[1..])
  }

  /** Normalising a concatenation normalises each part. */
  lemma {:induction false} NormalizeAppend(a: string, b: string)
    ensures Normalize(a + b) == Normalize(a) + Normalize(b)
  {
    if a != [] {
      assert (a + b)[0] == a[0] && (a + b)[1..] == a[1..] + b;
      NormalizeAppend(a[1..], b);
      assert Normalize(a + b) == LowerWordChars(a[0]) + (Normalize(a[1..]) + Normalize(b));
    } else {
      assert a + b == b;
    }
  }

  /** `c.toUpperCase()` on the ASCII letters, every other character kept. */
  function UpperAscii(c: char): char {
    if 'a' <= c <= 'z' then (c as int - 32) as char else c
  }

  /** A word with its ASCII letters upper-cased. */
  function ToUpperAscii(w: string): (u: string)
    ensures |u| == |w|
  {
    seq(|w|, k requires 0 <= k < |w| => UpperAscii(w[k]))
  }

  /** Case does not matter: a word and its upper-cased form have the same
      normal form, so `The` and `the` are counted as one word. */
  lemma {:induction false} NormalizeIgnoresCase(w: string)
    ensures Normalize(ToUpperAscii(w)) == Normalize(w)
  {
    if w != [] {
      var u := ToUpperAscii(w);
      assert u[1..] == ToUpperAscii(w[1..]);
      NormalizeIgnoresCase(w[1..]);
      assert LowerWordChars(u[0]) == LowerWordChars(w[0]);
    }
  }

  /** A word made of lower-case letters and digits is its own normal form. */
  lemma {:induction false} NormalizeKeeps(w: string)
    requires AllWordChars(w)
    ensures Normalize(w) == w
  {
    if w != [] {
      assert IsWordChar(w[0]);
      NormalizeKeeps(w[1..]);
      assert [w[0]] + w[1..] == w;
    }
  }

  /** Normalising twice is normalising once. */
  lemma NormalizeIdempotent(word: string)
    ensures Normalize(Normalize(word)) == Normalize(word)
  {
    NormalizeKeeps(Normalize(word));
  }

  /** The normalised words longer than two characters, in order: the words
      the frequency table counts. */
  function Qualifying(words: seq<string>): (ws: seq<string>)
    ensures |ws| <= |words|
    ensures forall k :: 0 <= k < |words| && |Normalize(words[k])| > 2 ==> Normalize(words[k]) in ws
  {
    if words == [] then []
    else
      var w := Normalize(words[|words| - 1]);
      Qualifying(words[..|words| - 1]) + (if |w| > 2 then [w] else [])
  }

  /** The words of two texts in a row are counted as those of the first,
      then those of the second. */
  lemma {:induction false} QualifyingAppend(a: seq<string>, b: seq<string>)
    ensures Qualifying(a + b) == Qualifying(a) + Qualifying(b)
    decreases |b|
  {
    if b != [] {
      var b' := b[..|b| - 1];
      assert (a + b)[..|a + b| - 1] == a + b';
      assert (a + b)[|a + b| - 1] == b[|b| - 1];
      QualifyingAppend(a, b');
      var w := Normalize(b[|b| - 1]);
      var last := if |w| > 2 then [w] else [];
      assert Qualifying(a + b) == Qualifying(a + b') + last;
      assert Qualifying(b) == Qualifying(b') + last;
    } else {
      assert a + b == a;
    }
  }

  /** Only normalised words longer than two characters are counted. */
  lemma {:induction false} QualifyingWords(words: seq<string>)
    ensures forall w :: w in Qualifying(words) ==> |w| > 2 && AllWordChars(w)
  {
    if words != [] {
      QualifyingWords(words[..|words| - 1]);
    }
  }

  // ---------------------------------------------------------------------
  // The frequency table

  /** How often `w` occurs in `ws`. */
  function Count(ws: seq<string>, w: string): nat
  {
    if ws == [] then 0
    else Count(ws[..|ws| - 1], w) + (if ws[|ws| - 1] == w then 1 else 0)
  }

  lemma {:induction false} CountPositive(ws: seq<string>, w: string)
    ensures Count(ws, w) > 0 <==> w in ws
  {
    if ws != [] {
      var init := ws[..|ws| - 1];
      CountPositive(init, w);
      assert ws == init + [ws[|ws| - 1]];
    }
  }

  /** The distinct words of `ws` in the order of their first occurrence. */
  function FirstSeen(ws: seq<string>): (keys: seq<string>)
    ensures |keys| <= |ws|
  {
    if ws == [] then []
    else
      var keys := FirstSeen(ws[..|ws| - 1]);
      var w := ws[|ws| - 1];
      if w in keys then keys else keys + [w]
  }

  /** Every word occurs in `FirstSeen` exactly once. */
  lemma {:induction false} FirstSeenKeys(ws: seq<string>)
    ensures forall w :: w in FirstSeen(ws) <==> w in ws
    ensures forall i, j :: 0 <= i < j < |FirstSeen(ws)| ==> FirstSeen(ws)[i] != FirstSeen(ws)[j]
  {
    if ws != [] {
      var init := ws[..|ws| - 1];
      FirstSeenKeys(init);
      assert ws == init + [ws[|ws| - 1]];
    }
  }

  /** The counts of the words of `ws`, added up one occurrence at a time. */
  function Counts(ws: seq<string>): map<string, nat>
  {
    if ws == [] then map[]
    else
      var m := Counts(ws[..|ws| - 1]);
      var w := ws[|ws| - 1];
      m[w := (if w in m then m[w] else 0) + 1]
  }

  /** The words with a count are the words that occur. */
  lemma {:induction false} CountsKeys(ws: seq<string>)
    ensures forall w :: w in Counts(ws) <==> w in ws
  {
    if ws != [] {
      var init := ws[..|ws| - 1];
      CountsKeys(init);
      assert ws == init + [ws[|ws| - 1]];
    }
  }

  /** Each word is mapped to the number of times it occurs. */
  lemma {:induction false} CountsAreCounts(ws: seq<string>, w: string)
    requires w in ws
    ensures w in Counts(ws) && Counts(ws)[w] == Count(ws, w)
  {
    var init := ws[..|ws| - 1];
    var last := ws[|ws| - 1];
    assert ws == init + [last];
    CountsKeys(init);
    if w in init {
      CountsAreCounts(init, w);
    } else {
      CountPositive(init, w);
    }
  }

  /** The table after counting one more normalised word `w`: a new word is
      appended to the order and starts at 1, a known word's count goes up
      by one, and a word of two characters or fewer is skipped. */
  function Tallied(order: seq<string>, freq: map<string, nat>, w: string): (r: (seq<string>, map<string, nat>))
    ensures |w| <= 2 ==> r == (order, freq)
    ensures |w| > 2 ==> r.1.Keys == freq.Keys + {w} && r.1[w] == 1 + (if w in freq then freq[w] else 0)
    ensures |w| > 2 ==> (r.0 == order <==> w in freq) && (r.0 == order || r.0 == order + [w])
    ensures forall u :: u in freq && u != w ==> r.1[u] == freq[u]
  {
    if |w| > 2 then
      (if w in freq then order else order + [w], freq[w := (if w in freq then freq[w] else 0) + 1])
    else
      (order, freq)
  }

  /** Counting one more word into the table of `counted`. */
  lemma CountOne(counted: seq<string>, w: string)
    requires |w| > 2
    ensures Tallied(FirstSeen(counted), Counts(counted), w) ==
            (FirstSeen(counted + [w]), Counts(counted + [w]))
  {
    FirstSeenSnoc(counted, w);
    CountsSnoc(counted, w);
    KeysAgree(counted, w);
  }

  lemma FirstSeenSnoc(counted: seq<string>, w: string)
    ensures FirstSeen(counted + [w]) ==
            if w in FirstSeen(counted) then FirstSeen(counted) else FirstSeen(counted) + [w]
  {
    assert (counted + [w])[..|counted|] == counted;
  }

  lemma CountsSnoc(counted: seq<string>, w: string)
    ensures Counts(counted + [w]) ==
            Counts(counted)[w := (if w in Counts(counted) then Counts(counted)[w] else 0) + 1]
  {
    assert (counted + [w])[..|counted|] == counted;
  }

  /** A word has a count exactly when it is in the order. */
  lemma KeysAgree(counted: seq<string>, w: string)
    ensures w in Counts(counted) <==> w in FirstSeen(counted)
  {
    CountsKeys(counted);
    FirstSeenKeys(counted);
  }

  /** The table the loop holds after the words `words`. */
  function Tally(words: seq<string>): (seq<string>, map<string, nat>)
  {
    if words == [] then ([], map[])
    else
      var (order, freq) := Tally(words[..|words| - 1]);
      Tallied(order, freq, Normalize(words[|words| - 1]))
  }

  /** The loop's table is the list of distinct counted words in order of
      first occurrence together with their counts. */
  lemma {:induction false} TallyIsCounts(words: seq<string>)
    ensures Tally(words) == (FirstSeen(Qualifying(words)), Counts(Qualifying(words)))
  {
    if words != [] {
      var init := words[..|words| - 1];
      var w := Normalize(words[|words| - 1]);
      var counted := Qualifying(init);
      TallyIsCounts(init);
      if |w| > 2 {
        assert Qualifying(words) == counted + [w];
        CountOne(counted, w);
      } else {
        assert Qualifying(words) == counted + [];
        assert counted + [] == counted;
      }
    }
  }

  /** The `words.forEach` loop that fills `wordFreq`: `order` is the order
      in which words were first counted and `freq` maps each to its count. */
  method CountWords(words: seq<string>) returns (order: seq<string>, freq: map<string, nat>)
    ensures order == FirstSeen(Qualifying(words))
    ensures freq == Counts(Qualifying(words))
  {
    order := [];
    freq := map[];
    var i := 0;
    while i < |words|
      invariant 0 <= i <= |words|
      invariant (order, freq) == Tally(words[..i])
    {
      var w := Normalize(words[i]);
      assert words[..i + 1][..i] == words[..i];
      if |w| > 2 {
        var n := if w in freq then freq[w] else 0;
        if w !in freq {
          order := order + [w];
        }
        freq := freq[w := n + 1];
      }
      i := i + 1;
    }
    assert words[..|words|] == words;
    TallyIsCounts(words);
  }

  // ---------------------------------------------------------------------
  // The order of Object.entries

  /** A key that is an array index: the canonical decimal form of an
      integer below 2^32 - 1. `Object.entries` lists such keys first, in
      ascending numeric order, and then the other keys in the order they
      were added. */
  predicate IsArrayIndex(k: string) {
    |k| > 0 && AllDigits(k) && (k[0] != '0' || k == "0") && DigitsValue(k) < 4294967295
  }

  /** The keys of `ks` that are array indices, in their order. */
  function IndexKeys(ks: seq<string>): (r: seq<string>)
    ensures forall k :: k in r <==> k in ks && IsArrayIndex(k)
  {
    if ks == [] then []
    else
      assert ks == [ks[0]] + ks[1..];
      (if IsArrayIndex(ks[0]) then [ks[0]] else []) + IndexKeys(ks[1..])
  }

  /** The keys of `ks` that are not array indices, in their order. */
  function NamedKeys(ks: seq<string>): (r: seq<string>)
    ensures forall k :: k in r <==> k in ks && !IsArrayIndex(k)
  {
    if ks == [] then []
    else
      assert ks == [ks[0]] + ks[1..];
      (if IsArrayIndex(ks[0]) then [] else [ks[0]]) + NamedKeys(ks[1..])
  }

  lemma {:induction false} KeysSplit(ks: seq<string>)
    ensures multiset(IndexKeys(ks)) + multiset(NamedKeys(ks)) == multiset(ks)
    ensures |IndexKeys(ks)| + |NamedKeys(ks)| == |ks|
  {
    if ks != [] {
      KeysSplit(ks[1..]);
      assert ks == [ks[0]] + ks[1..];
    }
  }

  predicate Ascending(ks: seq<string>) {
    forall i, j :: 0 <= i < j < |ks| ==> DigitsValue(ks[i]) <= DigitsValue(ks[j])
  }

  /** Inserting `k` into keys in ascending numeric order. */
  function InsertByValue(k: string, ks: seq<string>): (r: seq<string>)
    ensures |r| == |ks| + 1
    ensures multiset(r) == multiset(ks) + multiset{k}
    ensures forall x :: x in r <==> x == k || x in ks
  {
    if ks == [] || DigitsValue(k) <= DigitsValue(ks[0]) then
      [k] + ks
    else
      assert ks == [ks[0]] + ks[1..];
      [ks[0]] + InsertByValue(k, ks[1..])
  }

  lemma HeadIsLeast(ks: seq<string>)
    requires ks != [] && Ascending(ks)
    ensures forall x :: x in ks ==> DigitsValue(ks[0]) <= DigitsValue(x)
  {
    forall x | x in ks
      ensures DigitsValue(ks[0]) <= DigitsValue(x)
    {
      var j :| 0 <= j < |ks| && ks[j] == x;
      if j > 0 {
        assert DigitsValue(ks[0]) <= DigitsValue(ks[j]);
      }
    }
  }

  lemma ConsAscending(a: string, rest: seq<string>)
    requires Ascending(rest)
    requires forall x :: x in rest ==> DigitsValue(a) <= DigitsValue(x)
    ensures Ascending([a] + rest)
  {
    var r := [a] + rest;
    forall i, j | 0 <= i < j < |r|
      ensures DigitsValue(r[i]) <= DigitsValue(r[j])
    {
      assert r[j] == rest[j - 1];
      assert rest[j - 1] in rest;
      if i > 0 {
        assert r[i] == rest[i - 1];
      }
    }
  }

  lemma {:induction false} InsertAscending(k: string, ks: seq<string>)
    requires Ascending(ks)
    ensures Ascending(InsertByValue(k, ks))
  {
    if ks == [] || DigitsValue(k) <= DigitsValue(ks[0]) {
      if ks != [] {
        HeadIsLeast(ks);
      }
      ConsAscending(k, ks);
    } else {
      var rest := InsertByValue(k, ks[1..]);
      assert Ascending(ks[1..]) by {
        assert forall i :: 0 <= i < |ks[1..]| ==> ks[1..][i] == ks[i + 1];
      }
      InsertAscending(k, ks[1..]);
      HeadIsLeast(ks);
      assert forall x :: x in ks[1..] ==> x in ks;
      ConsAscending(ks[0], rest);
    }
  }

  /** Keys sorted by ascending numeric value. */
  function SortByValue(ks: seq<string>): (r: seq<string>)
    ensures |r| == |ks|
    ensures multiset(r) == multiset(ks)
    ensures forall x :: x in r <==> x in ks
  {
    if ks == [] then []
    else
      assert ks == [ks[0]] + ks[1..];
      InsertByValue(ks[0], SortByValue(ks[1..]))
  }

  lemma {:induction false} SortAscending(ks: seq<string>)
    ensures Ascending(SortByValue(ks))
  {
    if ks != [] {
      SortAscending(ks[1..]);
      InsertAscending(ks[0], SortByValue(ks[1..]));
    }
  }

  /** The order in which `Object.entries` lists the keys added in the order
      `keys`. */
  function EntryOrder(keys: seq<string>): (r: seq<string>)
    ensures |r| == |keys|
    ensures forall k :: k in r <==> k in keys
  {
    KeysSplit(keys);
    SortByValue(IndexKeys(keys)) + NamedKeys(keys)
  }

  /** `Object.entries` lists every key once, the array indices first and in
      ascending numeric order. */
  lemma EntryOrderIsPermutation(keys: seq<string>)
    ensures multiset(EntryOrder(keys)) == multiset(keys)
    ensures forall i, j :: 0 <= i < j < |EntryOrder(keys)| && IsArrayIndex(EntryOrder(keys)[j]) ==>
              IsArrayIndex(EntryOrder(keys)[i]) && DigitsValue(EntryOrder(keys)[i]) <= DigitsValue(EntryOrder(keys)[j])
  {
    var index := SortByValue(IndexKeys(keys));
    var named := NamedKeys(keys);
    var r := index + named;
    KeysSplit(keys);
    SortAscending(IndexKeys(keys));
    assert forall m :: 0 <= m < |named| ==> !IsArrayIndex(named[m]);
    forall i, j | 0 <= i < j < |r| && IsArrayIndex(r[j])
      ensures IsArrayIndex(r[i]) && DigitsValue(r[i]) <= DigitsValue(r[j])
    {
      assert r[i] == index[i] && r[j] == index[j];
      assert index[i] in index;
    }
  }

  /** Without array-index keys, `Object.entries` lists the keys in the order
      they were added. */
  lemma EntryOrderOfNamedKeys(keys: seq<string>)
    requires forall k :: k in keys ==> !IsArrayIndex(k)
    ensures EntryOrder(keys) == keys
  {
    var index := IndexKeys(keys);
    if index != [] {
      assert index[0] in index;
    }
    OnlyNamedKeys(keys);
  }

  /** Keys that are not array indices keep the order they were added in. */
  lemma NamedKeysKeepTheirOrder(keys: seq<string>)
    ensures NamedKeys(EntryOrder(keys)) == NamedKeys(keys)
  {
    var index := SortByValue(IndexKeys(keys));
    NamedKeysAppend(index, NamedKeys(keys));
    NoNamedKeys(index);
    OnlyNamedKeys(NamedKeys(keys));
  }

  lemma {:induction false} NamedKeysAppend(a: seq<string>, b: seq<string>)
    ensures NamedKeys(a + b) == NamedKeys(a) + NamedKeys(b)
  {
    if a != [] {
      var head := if IsArrayIndex(a[0]) then [] else [a[0]];
      assert (a + b)[0] == a[0];
      assert (a + b)[1..] == a[1..] + b;
      assert NamedKeys(a + b) == head + NamedKeys(a[1..] + b);
      NamedKeysAppend(a[1..], b);
      assert NamedKeys(a) == head + NamedKeys(a[1..]);
    } else {
      assert a + b == b;
    }
  }

  lemma {:induction false} NoNamedKeys(ks: seq<string>)
    requires forall k :: k in multiset(ks) ==> IsArrayIndex(k)
    ensures NamedKeys(ks) == []
  {
    if ks != [] {
      assert ks[0] in multiset(ks);
      assert forall k :: k in multiset(ks[1..]) ==> k in multiset(ks) by {
        assert ks == [ks[0]] + ks[1..];
      }
      NoNamedKeys(ks[1..]);
    }
  }

  lemma {:induction false} OnlyNamedKeys(ks: seq<string>)
    requires forall k :: k in ks ==> !IsArrayIndex(k)
    ensures NamedKeys(ks) == ks
  {
    if ks != [] {
      assert ks[0] in ks;
      OnlyNamedKeys(ks[1..]);
      assert [ks[0]] + ks[1..] == ks;
    }
  }

  // ---------------------------------------------------------------------
  // Sorting by frequency and the top ten

  /** A `[word, count]` pair of `Object.entries(wordFreq)`. */
  datatype Entry = Entry(word: string, count: nat)

  /** The entries of the frequency table, in the order `Object.entries`
      lists them. */
  function Entries(order: seq<string>, freq: map<string, nat>): (es: seq<Entry>)
    requires forall w :: w in order ==> w in freq
    ensures |es| == |order|
    ensures forall i :: 0 <= i < |es| ==> es[i].word == EntryOrder(order)[i] && es[i].count == freq[es[i].word]
  {
    var keys := EntryOrder(order);
    seq(|keys|, i requires 0 <= i < |keys| => Entry(keys[i], freq[keys[i]]))
  }

  /** The entries are the table: every counted word once, with its count. */
  lemma EntriesAreTheTable(order: seq<string>, freq: map<string, nat>)
    requires forall w :: w in order ==> w in freq
    ensures forall e :: e in Entries(order, freq) ==> e.word in order && e.count == freq[e.word]
    ensures forall w :: w in order ==> Entry(w, freq[w]) in Entries(order, freq)
  {
    var keys := EntryOrder(order);
    var es := Entries(order, freq);
    forall w | w in order
      ensures Entry(w, freq[w]) in es
    {
      var i :| 0 <= i < |keys| && keys[i] == w;
      assert es[i] == Entry(w, freq[w]);
    }
  }

  predicate ByDecreasingCount(es: seq<Entry>) {
    forall i, j :: 0 <= i < j < |es| ==> es[i].count >= es[j].count
  }

  /** Inserting `e` into entries ordered by decreasing count: after the
      entries with a larger count and before all others. */
  function InsertByCount(e: Entry, es: seq<Entry>): (r: seq<Entry>)
    ensures multiset(r) == multiset(es) + multiset{e}
    ensures forall x :: x in r <==> x == e || x in es
  {
    if es == [] || es[0].count <= e.count then
      [e] + es
    else
      assert es == [es[0]] + es[1..];
      [es[0]] + InsertByCount(e, es[1..])
  }

  /** `entries.sort((a, b) => b[1] - a[1])`: `Array.prototype.sort` is
      stable, so this orders by decreasing count and keeps entries with
      equal counts in their original order. */
  function SortByCount(es: seq<Entry>): (r: seq<Entry>)
    ensures multiset(r) == multiset(es)
  {
    if es == [] then []
    else
      assert es == [es[0]] + es[1..];
      InsertByCount(es[0], SortByCount(es[1..]))
  }

  lemma CountsAtMostHead(es: seq<Entry>)
    requires es != [] && ByDecreasingCount(es)
    ensures forall x :: x in es ==> x.count <= es[0].count
  {
    forall x | x in es
      ensures x.count <= es[0].count
    {
      var j :| 0 <= j < |es| && es[j] == x;
      if j > 0 {
        assert es[0].count >= es[j].count;
      }
    }
  }

  lemma ConsByCount(a: Entry, rest: seq<Entry>)
    requires ByDecreasingCount(rest)
    requires forall x :: x in rest ==> x.count <= a.count
    ensures ByDecreasingCount([a] + rest)
  {
    var r := [a] + rest;
    forall i, j | 0 <= i < j < |r|
      ensures r[i].count >= r[j].count
    {
      assert r[j] == rest[j - 1];
      assert rest[j - 1] in rest;
      if i > 0 {
        assert r[i] == rest[i - 1];
      }
    }
  }

  lemma {:induction false} InsertKeepsOrder(e: Entry, es: seq<Entry>)
    requires ByDecreasingCount(es)
    ensures ByDecreasingCount(InsertByCount(e, es))
  {
    if es == [] || es[0].count <= e.count {
      if es != [] {
        CountsAtMostHead(es);
      }
      ConsByCount(e, es);
    } else {
      var rest := InsertByCount(e, es[1..]);
      assert ByDecreasingCount(es[1..]) by {
        assert forall i :: 0 <= i < |es[1..]| ==> es[1..][i] == es[i + 1];
      }
      InsertKeepsOrder(e, es[1..]);
      CountsAtMostHead(es);
      assert forall x :: x in es[1..] ==> x in es;
      ConsByCount(es[0], rest);
    }
  }

  /** The sorted entries are in order of decreasing count. */
  lemma {:induction false} SortedByCount(es: seq<Entry>)
    ensures ByDecreasingCount(SortByCount(es))
  {
    if es != [] {
      SortedByCount(es[1..]);
      InsertKeepsOrder(es[0], SortByCount(es[1..]));
    }
  }

  /** The entries of `es` with count `c`, in order. */
  function WithCount(es: seq<Entry>, c: nat): seq<Entry>
  {
    if es == [] then []
    else (if es[0].count == c then [es[0]] else []) + WithCount(es[1..], c)
  }

  lemma {:induction false} InsertWithCount(e: Entry, es: seq<Entry>, c: nat)
    ensures WithCount(InsertByCount(e, es), c) ==
            (if e.count == c then [e] else []) + WithCount(es, c)
  {
    if es == [] || es[0].count <= e.count {
      assert ([e] + es)[1..] == es;
    } else {
      var r := [es[0]] + InsertByCount(e, es[1..]);
      assert r[1..] == InsertByCount(e, es[1..]);
      InsertWithCount(e, es[1..], c);
    }
  }

  /** Sorting is stable: the entries with any one count come out in the
      order they went in. */
  lemma {:induction false} SortIsStable(es: seq<Entry>, c: nat)
    ensures WithCount(SortByCount(es), c) == WithCount(es, c)
  {
    if es != [] {
      SortIsStable(es[1..], c);
      InsertWithCount(es[0], SortByCount(es[1..]), c);
    }
  }

  /** `.slice(0, 10)` of the sorted entries: the first ones of the sorted
      list, by decreasing count. */
  function Top(es: seq<Entry>): (top: seq<Entry>)
    ensures |top| == if |es| < 10 then |es| else 10
    ensures top == SortByCount(es)[..|top|]
    ensures ByDecreasingCount(top)
  {
    var sorted := SortByCount(es);
    assert |multiset(sorted)| == |multiset(es)|;
    SortedByCount(es);
    var top := sorted[..if |sorted| < 10 then |sorted| else 10];
    assert forall i :: 0 <= i < |top| ==> top[i] == sorted[i];
    top
  }

  lemma {:induction false} WithCountAppend(a: seq<Entry>, b: seq<Entry>, c: nat)
    ensures WithCount(a + b, c) == WithCount(a, c) + WithCount(b, c)
  {
    if a == [] {
      assert a + b == b;
    } else {
      assert (a + b)[0] == a[0] && (a + b)[1..] == a[1..] + b;
      WithCountAppend(a[1..], b, c);
      var head := if a[0].count == c then [a[0]] else [];
      assert head + (WithCount(a[1..], c) + WithCount(b, c)) == (head + WithCount(a[1..], c)) + WithCount(b, c);
    }
  }

  /** Ties at the cut: the listed entries with any one count are the first
      entries with that count, in the order they came in. */
  lemma TopKeepsTies(es: seq<Entry>, c: nat)
    ensures WithCount(Top(es), c) <= WithCount(es, c)
  {
    var sorted := SortByCount(es);
    var top := Top(es);
    assert sorted == top + sorted[|top|..];
    WithCountAppend(top, sorted[|top|..], c);
    SortIsStable(es, c);
  }

  /** The top list holds entries of the table, and no entry left out of it
      has a larger count than any entry in it. */
  lemma TopAreMostFrequent(es: seq<Entry>)
    ensures forall e :: e in Top(es) ==> e in es
    ensures forall e, f :: e in Top(es) && f in es && f !in Top(es) ==> f.count <= e.count
  {
    var sorted := SortByCount(es);
    var top := Top(es);
    SortedByCount(es);
    assert forall m :: 0 <= m < |top| ==> top[m] == sorted[m];
    forall e | e in top
      ensures e in es
    {
      assert e in multiset(sorted);
    }
    forall e, f | e in top && f in es && f !in top
      ensures f.count <= e.count
    {
      var i :| 0 <= i < |top| && top[i] == e;
      assert f in multiset(sorted);
      var j :| 0 <= j < |sorted| && sorted[j] == f;
      assert sorted[i] == e;
    }
  }

  // ---------------------------------------------------------------------
  // The text section of the report

  /** `Object.entries(wordFreq)` for a text: one entry per distinct counted
      word, in `Object.entries` order of the first-seen order. */
  function TextEntries(content: string): (es: seq<Entry>)
    ensures var order := FirstSeen(Qualifying(Words(content)));
            |es| == |order| && forall i :: 0 <= i < |es| ==> es[i].word == EntryOrder(order)[i]
  {
    var counted := Qualifying(Words(content));
    FirstSeenKeys(counted);
    CountsKeys(counted);
    Entries(FirstSeen(counted), Counts(counted))
  }

  /** The ten most frequent words of a text, as the report lists them. */
  function TopWords(content: string): (top: seq<Entry>)
    ensures |top| <= 10
    ensures var distinct := |FirstSeen(Qualifying(Words(content)))|;
            |top| == if distinct < 10 then distinct else 10
    ensures ByDecreasingCount(top)
  {
    Top(TextEntries(content))
  }

  /** Each listed word is a counted word of more than two characters, shown
      with the number of times it occurs. */
  lemma TopWordsAreCounted(content: string)
    ensures forall e :: e in TopWords(content) ==>
              |e.word| > 2 && e.count == Count(Qualifying(Words(content)), e.word)
  {
    var counted := Qualifying(Words(content));
    FirstSeenKeys(counted);
    CountsKeys(counted);
    QualifyingWords(Words(content));
    var es := Entries(FirstSeen(counted), Counts(counted));
    EntriesAreTheTable(FirstSeen(counted), Counts(counted));
    TopAreMostFrequent(es);
    forall e | e in TopWords(content)
      ensures |e.word| > 2 && e.count == Count(counted, e.word)
    {
      CountsAreCounts(counted, e.word);
    }
  }

  /** No counted word left out of the list occurs more often than a word
      in it. */
  lemma TopWordsRanked(content: string)
    ensures forall e, w ::
              (e in TopWords(content) && w in Qualifying(Words(content)) &&
               (forall f :: f in TopWords(content) ==> f.word != w)) ==>
              Count(Qualifying(Words(content)), w) <= e.count
  {
    var counted := Qualifying(Words(content));
    FirstSeenKeys(counted);
    CountsKeys(counted);
    var es := Entries(FirstSeen(counted), Counts(counted));
    EntriesAreTheTable(FirstSeen(counted), Counts(counted));
    TopAreMostFrequent(es);
    var top := TopWords(content);
    forall e, w | e in top && w in counted && (forall f :: f in top ==> f.word != w)
      ensures Count(counted, w) <= e.count
    {
      CountsAreCounts(counted, w);
      assert Entry(w, Counts(counted)[w]) in es;
    }
  }

  /** Words with equal counts: the listed entries with a count `c` are the
      first entries with count `c` in `Object.entries` order, which for
      words that are not array indices is the order they were first seen
      in (`EntryOrderOfNamedKeys`, `NamedKeysKeepTheirOrder`). */
  lemma TopWordsTies(content: string, c: nat)
    ensures WithCount(TopWords(content), c) <= WithCount(TextEntries(content), c)
  {
    TopKeepsTies(TextEntries(content), c);
  }

  /** The preview keeps this many characters. */
  const PreviewLength: nat := 500

  /** `content.slice(0, 500)` followed by `...` when something was cut. */
  function Preview(content: string): (p: string)
    ensures |content| <= PreviewLength ==> p == content
    ensures |content| > PreviewLength ==>
              |p| == PreviewLength + 3 && p[..PreviewLength] == content[..PreviewLength] &&
              p[PreviewLength..] == "..."
  {
    if |content| > PreviewLength then content[..PreviewLength] + "..." else content
  }

  /** What the report states about a text file. */
  datatype TextSummary = TextSummary(
    lines: nat, words: nat, characters: nat, wordsPerLine: string,
    topWords: seq<Entry>, preview: string)

  /** The statistics of a text file. */
  function SummarizeText(content: string): (t: TextSummary)
    ensures t.lines == Occurrences(content, '\n') + 1
    ensures t.words == |Words(content)|
    ensures t.characters == Utf16Length(content) && |content| <= t.characters
    ensures t.wordsPerLine == ToFixed(t.words as real / t.lines as real, 1)
    ensures t.topWords == TopWords(content) && |t.topWords| <= 10
    ensures t.preview == Preview(content)
  {
    var lines := Lines(content);
    var words := Words(content);
    TextSummary(
      |lines|, |words|, Utf16Length(content),
      ToFixed(|words| as real / |lines| as real, 1),
      TopWords(content), Preview(content))
  }

  /** The text branch of the report as the component computes it: the
      counting loop over the words, then the ranking of its table. */
  method AnalyzeText(content: string) returns (t: TextSummary)
    ensures t == SummarizeText(content)
  {
    var lines := Lines(content);
    var words := Words(content);
    var order, freq := CountWords(words);
    FirstSeenKeys(Qualifying(words));
    CountsKeys(Qualifying(words));
    var top := Top(Entries(order, freq));
    t := TextSummary(
      |lines|, |words|, Utf16Length(content),
      ToFixed(|words| as real / |lines| as real, 1),
      top, Preview(content));
  }

  // ---------------------------------------------------------------------
  // The frequency object as JavaScript builds it

  /** A property value of the `wordFreq` object. */
  datatype JsValue = Undefined | Number(n: nat) | Str(s: string) | InheritedConstructor

  /** The text `String(Object)` gives for the built-in `Object` function. */
  const ObjectSource: string := "function Object() { [native code] }"

  /** `wordFreq[w]` on an object created by `{}`: an own property, else the
      `constructor` property every such object inherits, else `undefined`.
      `constructor` is the only inherited property whose name consists of
      lower-case letters and digits. */
  function Lookup(freq: map<string, JsValue>, w: string): (v: JsValue)
    ensures w in freq ==> v == freq[w]
    ensures w !in freq ==> (v == InheritedConstructor <==> w == "constructor")
    ensures w !in freq ==> (v == Undefined || v == InheritedConstructor)
  {
    if w in freq then freq[w] else if w == "constructor" then InheritedConstructor else Undefined
  }

  /** `(v || 0) + 1`: a function or a non-empty string is truthy, and adding
      a number to either concatenates strings. */
  function Bump(v: JsValue): (r: JsValue)
    ensures r.Number? <==> v.Undefined? || v.Number? || v == Str([])
    ensures v.Number? ==> r == Number(v.n + 1)
    ensures v.Undefined? || v == Str([]) ==> r == Number(1)
    ensures r.Str? ==> EndsWith(r.s, "1") && |r.s| > 1
  {
    match v
    case Undefined => Number(1)
    case Number(n) => Number(n + 1)
    case Str(text) => if text == [] then Number(1) else Str(text + "1")
    case InheritedConstructor => Str(ObjectSource + "1")
  }

  /** The `wordFreq` object the loop builds from the counted words. */
  function FrequencyAsWritten(counted: seq<string>): (m: map<string, JsValue>)
    ensures forall w :: w in m <==> w in counted
  {
    if counted == [] then map[]
    else
      var init := counted[..|counted| - 1];
      var w := counted[|counted| - 1];
      assert counted == init + [w];
      var m := FrequencyAsWritten(init);
      m[w := Bump(Lookup(m, w))]
  }

  /** Without the word `constructor` the object holds the counts. */
  lemma {:induction false} AsWrittenCounts(counted: seq<string>)
    requires "constructor" !in counted
    ensures forall w :: w in counted ==>
              w in Counts(counted) && FrequencyAsWritten(counted)[w] == Number(Counts(counted)[w])
  {
    CountsKeys(counted);
    if counted != [] {
      var init := counted[..|counted| - 1];
      var last := counted[|counted| - 1];
      assert counted == init + [last];
      AsWrittenCounts(init);
      CountsKeys(init);
      forall w | w in counted
        ensures FrequencyAsWritten(counted)[w] == Number(Counts(counted)[w])
      {
        if w != last {
          assert w in init;
        }
      }
    }
  }

  /** A text holding the word `constructor` once gets the frequency
      `function Object() { [native code] }1` for it instead of 1. */
  lemma ConstructorIsNotCounted(words: seq<string>)
    requires words == ["constructor"]
    ensures Qualifying(words) == ["constructor"]
    ensures Counts(Qualifying(words))["constructor"] == 1
    ensures FrequencyAsWritten(Qualifying(words))["constructor"] == Str(ObjectSource + "1")
  {
    assert words[..0] == [];
    NormalizeKeeps("constructor");
    assert ([] + ["constructor"])[..0] == [];
  }
}
