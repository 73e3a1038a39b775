/** Splitting text into words on the space character, and removing stop words.

    `Words` is the reference definition: skip a space, or take the maximal run of
    non-space characters at the front. `SplitIntoWords` is the character-by-character
    loop of the implementation, proved to compute `Words`.
 */
module Tokenizer {

  /** Length of the run of non-space characters at the front of `t`. */
  function RunLength(t: string): (n: nat)
    ensures n <= |t|
    ensures forall i :: 0 <= i < n ==> t[i] != ' '
    ensures n < |t| ==> t[n] == ' '
  {
    if t == [] || t[0] == ' ' then 0 else 1 + RunLength(t[1..])
  }

  /** The maximal runs of non-space characters of `t`, in order. */
  function Words(t: string): seq<string>
    decreases |t|
  {
    if t == [] then []
    else if t[0] == ' ' then Words(t[1..])
    else
      var n := RunLength(t);
      [t[..n]] + Words(t[n..])
  }

  /** A word as produced by the tokenizer: non-empty and free of spaces. */
  predicate IsWord(w: string) {
    w != [] && ' ' !in w
  }

  /** Every element of `Words(t)` is a non-empty run without spaces. */
  lemma {:induction false} WordsAreWords(t: string)
    ensures forall w :: w in Words(t) ==> IsWord(w)
    decreases |t|
  {
    if t == [] {
    } else if t[0] == ' ' {
      WordsAreWords(t[1..]);
    } else {
      var n := RunLength(t);
      WordsAreWords(t[n..]);
      assert Words(t) == [t[..n]] + Words(t[n..]);
      assert ' ' !in t[..n] by {
        forall i | 0 <= i < n ensures t[..n][i] != ' ' { }
      }
    }
  }

  /** `t` consists of spaces only (or is empty). */
  predicate AllSpaces(t: string) {
    forall i :: 0 <= i < |t| ==> t[i] == ' '
  }

  /** The text yields no word exactly when it holds nothing but spaces. */
  lemma {:induction false} NoWordsIffAllSpaces(t: string)
    ensures Words(t) == [] <==> AllSpaces(t)
    decreases |t|
  {
    if t == [] {
    } else if t[0] == ' ' {
      NoWordsIffAllSpaces(t[1..]);
      assert AllSpaces(t) <==> AllSpaces(t[1..]) by {
        if AllSpaces(t[1..]) {
          forall i | 0 <= i < |t| ensures t[i] == ' ' {
            if i > 0 { assert t[i] == t[1..][i - 1]; }
          }
        }
        if AllSpaces(t) {
          forall i | 0 <= i < |t[1..]| ensures t[1..][i] == ' ' {
            assert t[1..][i] == t[i + 1];
          }
        }
      }
    } else {
      assert !AllSpaces(t);
    }
  }

  /** A single word is split into itself. */
  lemma WordOfWord(w: string)
    requires IsWord(w)
    ensures Words(w) == [w]
  {
    assert forall i :: 0 <= i < |w| ==> w[i] in w;
    RunLengthOfNoSpaces(w);
    assert w[..|w|] == w && w[|w|..] == [];
    WordsFront(w, w, []);
  }

  /** Appending text after a run that already ends (at a space inside `t`, or at the
      end of `t` followed by a space or nothing) leaves the run unchanged. */
  lemma {:induction false} RunLengthOfConcat(t: string, rest: string)
    requires RunLength(t) < |t| || rest == [] || rest[0] == ' '
    ensures RunLength(t + rest) == RunLength(t)
    decreases |t|
  {
    if t == [] {
      assert t + rest == rest;
    } else if t[0] != ' ' {
      assert (t + rest)[1..] == t[1..] + rest;
      RunLengthOfConcat(t[1..], rest);
    }
  }

  /** The first word of `t + rest` is the first run of `t` when that run ends
      within `t` or right at its end. */
  lemma WordsOfConcatFront(t: string, rest: string, n: nat)
    requires t != [] && t[0] != ' ' && n == RunLength(t)
    requires n < |t| || rest == [] || rest[0] == ' '
    ensures 0 < n
    ensures Words(t + rest) == [t[..n]] + Words(t[n..] + rest)
  {
    var s := t + rest;
    RunLengthOfConcat(t, rest);
    SliceOfConcat(t, rest, n);
    WordsFront(s, t[..n], t[n..] + rest);
  }

  /** Slicing a string extended on the right at a point inside the original string. */
  lemma SliceOfConcat(t: string, rest: string, n: nat)
    requires n <= |t|
    ensures (t + rest)[..n] == t[..n] && (t + rest)[n..] == t[n..] + rest
  {
  }

  /** A string starting with a non-space splits into its first word and the words of the rest. */
  lemma WordsFront(s: string, w: string, r: string)
    requires s != [] && s[0] != ' '
    requires w == s[..RunLength(s)] && r == s[RunLength(s)..]
    ensures Words(s) == [w] + Words(r)
  {
  }

  /** Splitting distributes over a separating space: the words of `t + " " + u`
      are the words of `t` followed by the words of `u`. */
  lemma {:induction false} WordsOfSeparated(t: string, u: string)
    ensures Words(t + " " + u) == Words(t) + Words(u)
    decreases |t|
  {
    var s := t + " " + u;
    if t == [] {
      assert s == " " + u;
      assert s[1..] == u;
      WordsOfLeadingSpace(s);
    } else if t[0] == ' ' {
      assert s[1..] == t[1..] + " " + u;
      WordsOfLeadingSpace(s);
      WordsOfLeadingSpace(t);
      WordsOfSeparated(t[1..], u);
    } else {
      var n := RunLength(t);
      assert s == t + (" " + u);
      WordsOfConcatFront(t, " " + u, n);
      assert t[n..] + (" " + u) == t[n..] + " " + u;
      WordsOfSeparated(t[n..], u);
    }
  }

  /** A leading space adds no word. */
  lemma WordsOfLeadingSpace(s: string)
    requires s != [] && s[0] == ' '
    ensures Words(s) == Words(s[1..])
  {
  }

  /** The words joined back with single spaces. */
  function Join(ws: seq<string>): string {
    if ws == [] then ""
    else if |ws| == 1 then ws[0]
    else ws[0] + " " + Join(ws[1..])
  }

  /** Round trip: joining words with single spaces and splitting gives them back. */
  lemma {:induction false} WordsOfJoin(ws: seq<string>)
    requires forall i :: 0 <= i < |ws| ==> IsWord(ws[i])
    ensures Words(Join(ws)) == ws
  {
    if ws == [] {
    } else if |ws| == 1 {
      WordOfWord(ws[0]);
    } else {
      WordOfWord(ws[0]);
      WordsOfJoin(ws[1..]);
      WordsOfSeparated(ws[0], Join(ws[1..]));
      assert ws == [ws[0]] + ws[1..];
    }
  }

  /** Appending a space to the text adds no word. */
  lemma {:induction false} WordsOfSnocSpace(t: string)
    ensures Words(t + [' ']) == Words(t)
    decreases |t|
  {
    var s := t + [' '];
    if t == [] {
      assert s[1..] == [];
    } else if t[0] == ' ' {
      assert s[1..] == t[1..] + [' '];
      WordsOfSnocSpace(t[1..]);
    } else {
      WordsOfConcatFront(t, [' '], RunLength(t));
      WordsOfSnocSpace(t[RunLength(t)..]);
    }
  }

  /** Appending a non-space character to a text that is empty or ends in a space
      starts a new one-character word. */
  lemma {:induction false} WordsOfSnocStart(t: string, c: char)
    requires c != ' '
    requires t == [] || t[|t| - 1] == ' '
    ensures Words(t + [c]) == Words(t) + [[c]]
    decreases |t|
  {
    var s := t + [c];
    if t == [] {
      assert s == [c];
      assert RunLength(s) == 1;
      assert s[..1] == [c];
      assert s[1..] == [];
    } else if t[0] == ' ' {
      assert s[1..] == t[1..] + [c];
      if |t| > 1 {
        assert t[1..][|t[1..]| - 1] == t[|t| - 1];
      }
      WordsOfSnocStart(t[1..], c);
    } else {
      var n := RunLength(t);
      assert n < |t|;
      WordsOfConcatFront(t, [c], RunLength(t));
      assert t[n..][|t[n..]| - 1] == t[|t| - 1];
      WordsOfSnocStart(t[n..], c);
    }
  }

  /** Appending a non-space character to a text that ends inside a word extends
      that last word. */
  lemma {:induction false} WordsOfSnocExtend(t: string, c: char)
    requires c != ' '
    requires t != [] && t[|t| - 1] != ' '
    ensures |Words(t)| > 0
    ensures Words(t + [c]) == Words(t)[..|Words(t)| - 1] + [Words(t)[|Words(t)| - 1] + [c]]
    decreases |t|
  {
    var s := t + [c];
    if t[0] == ' ' {
      assert |t| > 1;
      assert s[1..] == t[1..] + [c];
      assert t[1..][|t[1..]| - 1] == t[|t| - 1];
      WordsOfSnocExtend(t[1..], c);
    } else {
      var n := RunLength(t);
      if n < |t| {
        WordsOfConcatFront(t, [c], n);
        assert t[n..][|t[n..]| - 1] == t[|t| - 1];
        WordsOfSnocExtend(t[n..], c);
        var rest := Words(t[n..]);
        LastOfCons(t[..n], rest, rest[|rest| - 1] + [c]);
      } else {
        WordsOfSnocWholeRun(t, c);
      }
    }
  }

  /** Replacing the last element of `[x] + rest` keeps `x` in front. */
  lemma LastOfCons(x: string, rest: seq<string>, y: string)
    requires |rest| > 0
    ensures ([x] + rest)[..|rest|] + [y] == [x] + (rest[..|rest| - 1] + [y])
    ensures ([x] + rest)[|rest|] == rest[|rest| - 1]
  {
  }

  /** A text whose leading run is all of it stays a single word when a non-space
      character is appended. */
  lemma WordsOfSnocWholeRun(t: string, c: char)
    requires c != ' ' && t != [] && t[0] != ' ' && RunLength(t) == |t|
    ensures Words(t) == [t]
    ensures Words(t + [c]) == [t + [c]]
  {
    var s := t + [c];
    forall i | 0 <= i < |s| ensures s[i] != ' ' {
      if i < |t| {
        assert s[i] == t[i];
      }
    }
    assert ' ' !in t && ' ' !in s;
    WordOfWord(t);
    WordOfWord(s);
  }

  /** A string without spaces is one run: its run length is its whole length. */
  lemma {:induction false} RunLengthOfNoSpaces(t: string)
    requires forall i :: 0 <= i < |t| ==> t[i] != ' '
    ensures RunLength(t) == |t|
    decreases |t|
  {
    if t != [] {
      assert forall i :: 0 <= i < |t[1..]| ==> t[1..][i] == t[i + 1];
      RunLengthOfNoSpaces(t[1..]);
    }
  }

  /** The implementation's tokenizer: a character loop that accumulates the current
      word and pushes it when a space or the end of the text is reached. */
  method SplitIntoWords(text: string) returns (words: seq<string>)
    ensures words == Words(text)
  {
    words := [];
    var word: string := [];
    for i := 0 to |text|
      invariant Words(text[..i]) == words + (if word == [] then [] else [word])
      invariant word != [] <==> (i > 0 && text[i - 1] != ' ')
    {
      var c := text[i];
      ghost var done := text[..i];
      assert text[..i + 1] == done + [c];
      if c == ' ' {
        WordsOfSnocSpace(done);
        if word != [] {
          words := words + [word];
          word := [];
        }
      } else {
        if word == [] {
          WordsOfSnocStart(done, c);
          assert Words(done + [c]) == words + [[c]];
          assert word + [c] == [c];
        } else {
          assert done[|done| - 1] == text[i - 1];
          WordsOfSnocExtend(done, c);
          assert Words(done) == words + [word];
          assert Words(done + [c]) == words + [word + [c]];
        }
        word := word + [c];
      }
    }
    if word != [] {
      words := words + [word];
    }
    assert text[..|text|] == text;
  }

  /** The words of `words` that are not in `stops`, in their original order. */
  function RemoveStopWords(words: seq<string>, stops: set<string>): seq<string>
    decreases |words|
  {
    if words == [] then []
    else
      var last := words[|words| - 1];
      RemoveStopWords(words[..|words| - 1], stops) + (if last in stops then [] else [last])
  }

  /** A word outside `stops` survives as often as it occurs; a stop word never does. */
  lemma {:induction false} RemoveStopWordsCount(words: seq<string>, stops: set<string>, w: string)
    ensures w in RemoveStopWords(words, stops) <==> w in words && w !in stops
    ensures multiset(RemoveStopWords(words, stops))[w] == if w in stops then 0 else multiset(words)[w]
    decreases |words|
  {
    if words != [] {
      var init := words[..|words| - 1];
      var last := words[|words| - 1];
      assert words == init + [last];
      RemoveStopWordsCount(init, stops, w);
      var tail := if last in stops then [] else [last];
      assert RemoveStopWords(words, stops) == RemoveStopWords(init, stops) + tail;
      assert multiset(words) == multiset(init) + multiset{last};
      assert multiset(RemoveStopWords(words, stops)) == multiset(RemoveStopWords(init, stops)) + multiset(tail);
    }
  }

  /** Exactly the words outside `stops` survive, each as often as it occurs. */
  lemma RemoveStopWordsCounts(words: seq<string>, stops: set<string>)
    ensures forall w :: w in RemoveStopWords(words, stops) <==> w in words && w !in stops
    ensures forall w :: multiset(RemoveStopWords(words, stops))[w] ==
                        if w in stops then 0 else multiset(words)[w]
  {
    forall w ensures w in RemoveStopWords(words, stops) <==> w in words && w !in stops
             ensures multiset(RemoveStopWords(words, stops))[w] ==
                     if w in stops then 0 else multiset(words)[w]
    {
      RemoveStopWordsCount(words, stops, w);
    }
  }

  /** A text of stop words only leaves nothing. */
  lemma RemoveStopWordsOfStopsOnly(words: seq<string>, stops: set<string>)
    requires forall i :: 0 <= i < |words| ==> words[i] in stops
    ensures RemoveStopWords(words, stops) == []
  {
    var r := RemoveStopWords(words, stops);
    if r != [] {
      RemoveStopWordsCount(words, stops, r[0]);
      assert false;
    }
  }

  /** Removing stop words keeps relative order: it distributes over concatenation. */
  lemma {:induction false} RemoveStopWordsAppend(a: seq<string>, b: seq<string>, stops: set<string>)
    ensures RemoveStopWords(a + b, stops) == RemoveStopWords(a, stops) + RemoveStopWords(b, stops)
    decreases |b|
  {
    if b == [] {
      assert a + b == a;
    } else {
      var init := b[..|b| - 1];
      var last := b[|b| - 1];
      var tail := if last in stops then [] else [last];
      assert (a + b)[..|a + b| - 1] == a + init;
      assert (a + b)[|a + b| - 1] == last;
      assert RemoveStopWords(a + b, stops) == RemoveStopWords(a + init, stops) + tail;
      assert RemoveStopWords(b, stops) == RemoveStopWords(init, stops) + tail;
      RemoveStopWordsAppend(a, init, stops);
    }
  }
}
