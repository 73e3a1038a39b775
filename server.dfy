/** The search server: an inverted index from words to per-document term
    frequencies, a table of document ratings and statuses, and the queries over them.

    `log` from the C++ math library is not modelled: the operations that compute
    relevance take it as a parameter `ln`. Term frequencies are exact reals.
 */
module Server {
  import opened Tokenizer
  import opened Ordering
  import opened Rating
  import opened Ranking

  /** The number of results `FindTopDocuments` returns at most. */
  const MaxResultDocumentCount: nat := 5

  datatype Status = Actual | Irrelevant | Banned | Removed

  /** What the server stores per document. */
  datatype DocumentData = DocumentData(rating: int, status: Status)

  /** A classified query word: its text without a leading minus, whether it had one,
      and whether that text is a stop word. */
  datatype QueryWord = QueryWord(data: string, isMinus: bool, isStop: bool)

  datatype Query = Query(plus: set<string>, minus: set<string>)

  /** The outcome of a lookup that throws `std::out_of_range` for an unknown key. */
  datatype Result<T> = Ok(value: T) | OutOfRange

  /** The answer of `MatchDocument`: the matched plus words and the document's status. */
  datatype Match = Match(words: seq<string>, status: Status)

  /** The predicate `FindTopDocuments(raw_query, status)` hands to the predicate form. */
  function StatusIs(givenStatus: Status): (accepts: (int, Status, int) -> bool)
    ensures forall id, status, rating :: accepts(id, status, rating) <==> status == givenStatus
  {
    (id: int, status: Status, rating: int) => status == givenStatus
  }

  class SearchServer {
    var stopWords: set<string>
    var wordToDocumentFreqs: map<string, map<int, real>>
    var documents: map<int, DocumentData>

    /** Every posting belongs to a document of `ids` and carries a positive frequency;
        no word has an empty posting list. */
    ghost predicate PostingsWithin(ids: set<int>)
      reads this`wordToDocumentFreqs
    {
      IndexWithin(wordToDocumentFreqs, ids)
    }

    static ghost predicate IndexWithin(index: map<string, map<int, real>>, ids: set<int>) {
      && (forall w :: w in index ==> index[w] != map[])
      && (forall w, d :: w in index && d in index[w] ==> d in ids && index[w][d] > 0.0)
    }

    /** The index only refers to stored documents. */
    ghost predicate Valid()
      reads this
    {
      PostingsWithin(documents.Keys)
    }

    constructor ()
      ensures Valid()
      ensures stopWords == {} && wordToDocumentFreqs == map[] && documents == map[]
    {
      stopWords := {};
      wordToDocumentFreqs := map[];
      documents := map[];
    }

    // ---------------------------------------------------------------- the index

    /** The documents whose postings contain `w`. */
    ghost function Postings(w: string): set<int>
      reads this`wordToDocumentFreqs
    {
      PostingsIn(wordToDocumentFreqs, w)
    }

    static ghost function PostingsIn(index: map<string, map<int, real>>, w: string): set<int> {
      if w in index then index[w].Keys else {}
    }

    /** The term frequency of `w` in document `d`, 0 when there is no posting. */
    ghost function Tf(w: string, d: int): real
      reads this`wordToDocumentFreqs
    {
      TfIn(wordToDocumentFreqs, w, d)
    }

    static ghost function TfIn(index: map<string, map<int, real>>, w: string, d: int): real {
      if w in index && d in index[w] then index[w][d] else 0.0
    }

    /** Some word of `words` has a posting for document `d`. */
    ghost predicate Hit(d: int, words: set<string>)
      reads this`wordToDocumentFreqs
    {
      exists w :: w in words && d in Postings(w)
    }

    lemma HitExtend(d: int, words: set<string>, w: string)
      ensures Hit(d, words + {w}) <==> Hit(d, words) || d in Postings(w)
    {
      if d in Postings(w) {
        assert w in words + {w};
      }
      if Hit(d, words) {
        var v :| v in words && d in Postings(v);
        assert v in words + {w};
      }
    }

    // ---------------------------------------------------------------- stop words

    method SetStopWords(text: string)
      requires Valid()
      modifies this`stopWords
      ensures Valid()
      ensures stopWords == old(stopWords) + (set w | w in Words(text))
    {
      var words := SplitIntoWords(text);
      for i := 0 to |words|
        invariant stopWords == old(stopWords) + (set w | w in words[..i])
      {
        assert words[..i + 1] == words[..i] + [words[i]];
        stopWords := stopWords + {words[i]};
      }
      assert words[..|words|] == words;
    }

    function IsStopWord(word: string): bool
      reads this`stopWords
    {
      word in stopWords
    }

    /** The words of `text` that are not stop words, in order. */
    method SplitIntoWordsNoStop(text: string) returns (words: seq<string>)
      ensures words == RemoveStopWords(Words(text), stopWords)
    {
      var all := SplitIntoWords(text);
      words := [];
      for i := 0 to |all|
        invariant words == RemoveStopWords(all[..i], stopWords)
      {
        assert all[..i + 1][..i] == all[..i];
        if !IsStopWord(all[i]) {
          words := words + [all[i]];
        }
      }
      assert all[..|all|] == all;
    }

    // ---------------------------------------------------------------- documents

    static method ComputeAverageRating(ratings: seq<int>) returns (r: int)
      ensures |ratings| == 0 ==> r == 0
      ensures |ratings| > 0 ==> r == TruncDiv(Sum(ratings), |ratings|)
    {
      if |ratings| == 0 {
        return 0;
      }
      var ratingSum := 0;
      for i := 0 to |ratings|
        invariant ratingSum == Sum(ratings[..i])
      {
        assert ratings[..i + 1][..i] == ratings[..i];
        ratingSum := ratingSum + ratings[i];
      }
      assert ratings[..|ratings|] == ratings;
      r := TruncDiv(ratingSum, |ratings|);
    }

    /** One step of indexing: `inc` is added to the frequency of `word` in
        document `documentId`, a missing entry counting as 0. */
    method AddTermFrequency(word: string, documentId: int, inc: real, ghost ids: set<int>)
      requires inc > 0.0 && PostingsWithin(ids)
      modifies this`wordToDocumentFreqs
      ensures PostingsWithin(ids + {documentId})
      ensures forall w :: w in wordToDocumentFreqs <==> w in old(wordToDocumentFreqs) || w == word
      ensures forall w :: w in wordToDocumentFreqs ==>
                Postings(w) == old(Postings(w)) + (if w == word then {documentId} else {})
      ensures forall w, d :: Tf(w, d) == old(Tf(w, d)) + if w == word && d == documentId then inc else 0.0
    {
      var freqs := if word in wordToDocumentFreqs then wordToDocumentFreqs[word] else map[];
      var f := if documentId in freqs then freqs[documentId] else 0.0;
      IncrementWithin(wordToDocumentFreqs, word, documentId, f, inc, ids);
      wordToDocumentFreqs := wordToDocumentFreqs[word := freqs[documentId := f + inc]];
    }

    /** Raising one posting by a positive amount keeps every posting positive and
        adds `documentId` to the ids referred to. */
    static lemma IncrementWithin(index: map<string, map<int, real>>, word: string, documentId: int,
                                 f: real, inc: real, ids: set<int>)
      requires inc > 0.0 && IndexWithin(index, ids)
      requires f == if word in index && documentId in index[word] then index[word][documentId] else 0.0
      ensures var freqs := if word in index then index[word] else map[];
        var updated := index[word := freqs[documentId := f + inc]];
        && IndexWithin(updated, ids + {documentId})
        && (forall w :: w in updated <==> w in index || w == word)
        && (forall w :: w in updated ==>
              PostingsIn(updated, w) == PostingsIn(index, w) + (if w == word then {documentId} else {}))
        && (forall w, d :: TfIn(updated, w, d) == TfIn(index, w, d) + if w == word && d == documentId then inc else 0.0)
    {
      var freqs := if word in index then index[word] else map[];
      var updated := index[word := freqs[documentId := f + inc]];
      if documentId in freqs {
        assert f == index[word][documentId];
      }
      assert documentId in updated[word];
      forall w, d | w in updated && d in updated[w]
        ensures d in ids + {documentId} && updated[w][d] > 0.0
      {
        if w != word || d != documentId {
          assert w in index && d in index[w];
        }
      }
    }

    /** The total `inc` repeated once per occurrence of `w` in `words`. */
    static ghost function Accumulated(words: seq<string>, w: string, inc: real): real
      decreases |words|
    {
      if words == [] then 0.0
      else Accumulated(words[..|words| - 1], w, inc) + if words[|words| - 1] == w then inc else 0.0
    }

    /** Adding `inc` once per occurrence is multiplying it by the number of occurrences. */
    static lemma AccumulatedIsScaledCount(words: seq<string>, w: string, inc: real)
      ensures Accumulated(words, w, inc) == multiset(words)[w] as real * inc
    {
      AccumulatedIsScaledOccurrences(words, w, inc);
      OccurrencesIsCount(words, w);
    }

    /** The number of occurrences of `w` in `words`. */
    static function Occurrences(words: seq<string>, w: string): nat
      decreases |words|
    {
      if words == [] then 0
      else Occurrences(words[..|words| - 1], w) + if words[|words| - 1] == w then 1 else 0
    }

    static lemma {:induction false} AccumulatedIsScaledOccurrences(words: seq<string>, w: string, inc: real)
      ensures Accumulated(words, w, inc) == Occurrences(words, w) as real * inc
      decreases |words|
    {
      if words != [] {
        var init := words[..|words| - 1];
        AccumulatedIsScaledOccurrences(init, w, inc);
        var m := Occurrences(init, w);
        assert (m + 1) as real * inc == m as real * inc + inc;
      }
    }

    static lemma {:induction false} OccurrencesIsCount(words: seq<string>, w: string)
      ensures Occurrences(words, w) == multiset(words)[w]
      decreases |words|
    {
      if words != [] {
        var init := words[..|words| - 1];
        assert words == init + [words[|words| - 1]];
        OccurrencesIsCount(init, w);
      }
    }

    /** The word loop of `AddDocument`: every occurrence of a word adds `inc` to its
        frequency in document `documentId`. */
    method IndexWords(words: seq<string>, documentId: int, inc: real, ghost ids: set<int>)
      requires |words| > 0 ==> inc > 0.0
      requires PostingsWithin(ids)
      modifies this`wordToDocumentFreqs
      ensures PostingsWithin(ids + {documentId})
      ensures forall w :: w in wordToDocumentFreqs <==> w in old(wordToDocumentFreqs) || w in words
      ensures forall w :: w in wordToDocumentFreqs ==>
                Postings(w) == old(Postings(w)) + (if w in words then {documentId} else {})
      ensures forall w, d :: Tf(w, d) == old(Tf(w, d)) +
                if d == documentId then Accumulated(words, w, inc) else 0.0
      ensures words == [] ==> wordToDocumentFreqs == old(wordToDocumentFreqs)
    {
      assert words[..0] == [];
      assert forall w :: Accumulated(words[..0], w, inc) == 0.0;
      for i := 0 to |words|
        invariant PostingsWithin(ids + {documentId})
        invariant forall w :: w in wordToDocumentFreqs <==> w in old(wordToDocumentFreqs) || w in words[..i]
        invariant forall w :: w in wordToDocumentFreqs ==>
                    Postings(w) == old(Postings(w)) + (if w in words[..i] then {documentId} else {})
        invariant forall w, d :: Tf(w, d) == old(Tf(w, d)) +
                    if d == documentId then Accumulated(words[..i], w, inc) else 0.0
        invariant words == [] ==> wordToDocumentFreqs == old(wordToDocumentFreqs)
      {
        var word := words[i];
        assert words[..i + 1] == words[..i] + [word];
        assert words[..i + 1][..i] == words[..i];
        AddTermFrequency(word, documentId, inc, ids + {documentId});
        assert ids + {documentId} + {documentId} == ids + {documentId};
      }
      assert words[..|words|] == words;
    }

    /** Indexes `document` under `documentId`. Each non-stop word of the text gains
        (its occurrences) / (number of non-stop words) in its posting for the
        document; nothing else in the index changes. The document table keeps an
        existing entry, so a repeated id accumulates postings but keeps the first
        rating and status. */
    method AddDocument(documentId: int, document: string, status: Status, ratings: seq<int>)
      requires Valid()
      modifies this`wordToDocumentFreqs, this`documents
      ensures Valid()
      ensures
        var words := RemoveStopWords(Words(document), stopWords);
        && (forall w :: w in wordToDocumentFreqs <==> w in old(wordToDocumentFreqs) || w in words)
        && (forall w :: w in wordToDocumentFreqs ==>
              Postings(w) == old(Postings(w)) + (if w in words then {documentId} else {}))
        && (forall w, d :: Tf(w, d) == old(Tf(w, d)) +
              if d == documentId then TermFrequencyIn(Words(document), words, w) else 0.0)
      ensures documents == if documentId in old(documents) then old(documents)
                           else old(documents)[documentId := DocumentData(AverageRating(ratings), status)]
      ensures |documents| == |old(documents)| + if documentId in old(documents) then 0 else 1
      ensures RemoveStopWords(Words(document), stopWords) == [] ==>
                wordToDocumentFreqs == old(wordToDocumentFreqs)
    {
      var words := SplitIntoWordsNoStop(document);
      var invWordCount: real := if |words| == 0 then 0.0 else 1.0 / |words| as real;
      IndexWords(words, documentId, invWordCount, documents.Keys);
      ghost var index := wordToDocumentFreqs;
      if documentId !in documents {
        var rating := ComputeAverageRating(ratings);
        documents := documents[documentId := DocumentData(rating, status)];
        assert documents.Keys == old(documents.Keys) + {documentId};
      } else {
        assert documents.Keys + {documentId} == documents.Keys;
      }
      assert stopWords == old(stopWords) && wordToDocumentFreqs == index;
      forall w, d ensures Tf(w, d) == old(Tf(w, d)) +
                if d == documentId then TermFrequencyIn(Words(document), words, w) else 0.0
      {
        TermFrequencyOfDocument(Words(document), stopWords, words, invWordCount, w);
      }
    }

    /** The term frequency of `w` in a document with words `text` of which `words`
        are not stop words: its occurrences in `text` over the number of `words`,
        0 for a word outside `words`. */
    static function TermFrequencyIn(text: seq<string>, words: seq<string>, w: string): real {
      if w in words then multiset(text)[w] as real / |words| as real else 0.0
    }

    /** The frequency a word reaches in a document: its count among the non-stop
        words, divided by their number. */
    static lemma TermFrequencyOfDocument(text: seq<string>, stops: set<string>, words: seq<string>,
                                         inv: real, w: string)
      requires words == RemoveStopWords(text, stops)
      requires inv == if |words| == 0 then 0.0 else 1.0 / |words| as real
      ensures Accumulated(words, w, inv) == TermFrequencyIn(text, words, w)
    {
      AccumulatedIsScaledCount(words, w, inv);
      RemoveStopWordsCount(text, stops, w);
      WordFrequency(multiset(words)[w], multiset(text)[w], |words|, inv, w in words);
    }

    /** `m` occurrences of weight 1/n are m/n; none are 0. */
    static lemma WordFrequency(m: nat, k: nat, n: nat, inv: real, present: bool)
      requires inv == if n == 0 then 0.0 else 1.0 / n as real
      requires present ==> n > 0 && m == k
      requires !present ==> m == 0
      ensures m as real * inv == if present then k as real / n as real else 0.0
    {
    }

    /** Every document frequency is at most the document count, so the argument of
        the logarithm in the inverse document frequency is at least 1. */
    function DocumentCount(): (n: int)
      reads this
      ensures Valid() ==> forall w :: w in wordToDocumentFreqs ==> |wordToDocumentFreqs[w]| <= n
    {
      DocumentFrequencyBound();
      |documents|
    }

    lemma DocumentFrequencyBound()
      ensures Valid() ==> forall w :: w in wordToDocumentFreqs ==> |wordToDocumentFreqs[w]| <= |documents|
    {
      if Valid() {
        forall w | w in wordToDocumentFreqs
          ensures |wordToDocumentFreqs[w]| <= |documents|
        {
          forall d | d in wordToDocumentFreqs[w].Keys ensures d in documents.Keys {
          }
          SubsetCardinality(wordToDocumentFreqs[w].Keys, documents.Keys);
        }
      }
    }

    static lemma {:induction false} SubsetCardinality(a: set<int>, b: set<int>)
      requires a <= b
      ensures |a| <= |b|
      decreases a
    {
      if a != {} {
        IntElementExists(a);
        var x :| x in a;
        SubsetCardinality(a - {x}, b - {x});
      }
    }

    // ---------------------------------------------------------------- relevance

    /** Document count over document frequency: at least 1 for an indexed word. */
    function DocumentFrequencyRatio(word: string): (x: real)
      requires Valid() && word in wordToDocumentFreqs
      reads this
      ensures x >= 1.0
    {
      var n := DocumentCount();
      var df := |wordToDocumentFreqs[word]|;
      assert df > 0;
      n as real / df as real
    }

    /** The inverse document frequency: `ln` of the document count over the number of
        documents containing the word; a word found in every document gets `ln(1)`. */
    function ComputeWordInverseDocumentFreq(word: string, ln: real -> real): (idf: real)
      requires Valid() && word in wordToDocumentFreqs
      reads this
      ensures Postings(word) == documents.Keys ==> idf == ln(1.0)
    {
      RatioInEveryDocument(word);
      ln(DocumentFrequencyRatio(word))
    }

    /** A word every document contains has ratio 1. */
    lemma RatioInEveryDocument(word: string)
      requires Valid() && word in wordToDocumentFreqs
      ensures Postings(word) == documents.Keys ==> DocumentFrequencyRatio(word) == 1.0
    {
      if Postings(word) == documents.Keys {
        assert |wordToDocumentFreqs[word]| == |wordToDocumentFreqs[word].Keys| == |documents.Keys| == |documents|;
      }
    }

    /** The relevance `w` adds to document `d`: term frequency times inverse document
        frequency, 0 without a posting. */
    ghost function Contribution(w: string, d: int, ln: real -> real): real
      requires Valid()
      reads this
    {
      if w in wordToDocumentFreqs && d in wordToDocumentFreqs[w]
      then wordToDocumentFreqs[w][d] * ComputeWordInverseDocumentFreq(w, ln)
      else 0.0
    }

    /** The TF-IDF relevance of document `d` for the plus words `words`: the sum of
        their contributions (exact, so independent of summation order). */
    ghost function Relevance(d: int, words: set<string>, ln: real -> real): real
      requires Valid()
      reads this
      decreases words
    {
      if words == {} then 0.0
      else
        var w :| w in words;
        Contribution(w, d, ln) + Relevance(d, words - {w}, ln)
    }

    /** Any word can be taken out of the sum first. */
    lemma {:induction false} RelevanceSplit(d: int, words: set<string>, w: string, ln: real -> real)
      requires Valid() && w in words
      ensures Relevance(d, words, ln) == Contribution(w, d, ln) + Relevance(d, words - {w}, ln)
      decreases words
    {
      var v :| v in words && Relevance(d, words, ln) == Contribution(v, d, ln) + Relevance(d, words - {v}, ln);
      if v != w {
        RelevanceSplit(d, words - {v}, w, ln);
        RelevanceSplit(d, words - {w}, v, ln);
        assert words - {v} - {w} == words - {w} - {v};
      }
    }

    /** A document no word of `words` hits has relevance 0. */
    lemma {:induction false} RelevanceWithoutHit(d: int, words: set<string>, ln: real -> real)
      requires Valid() && !Hit(d, words)
      ensures Relevance(d, words, ln) == 0.0
      decreases words
    {
      if words != {} {
        var w :| w in words && Relevance(d, words, ln) == Contribution(w, d, ln) + Relevance(d, words - {w}, ln);
        assert d !in Postings(w);
        assert Contribution(w, d, ln) == 0.0;
        assert !Hit(d, words - {w});
        RelevanceWithoutHit(d, words - {w}, ln);
      }
    }

    /** The result item for document `d` under plus words `plus`. */
    ghost function ItemFor(d: int, plus: set<string>, ln: real -> real): Document
      requires Valid() && d in documents
      reads this
    {
      Document(d, Relevance(d, plus, ln), documents[d].rating)
    }

    // ---------------------------------------------------------------- queries

    /** Classifies one query word: a leading '-' marks a minus word and is stripped
        (only that one character); the rest is checked against the stop words. */
    function ParseQueryWord(text: string): (r: QueryWord)
      reads this`stopWords
      ensures r.isMinus <==> |text| > 0 && text[0] == '-'
      ensures text == (if r.isMinus then "-" else "") + r.data
      ensures r.isStop <==> r.data in stopWords
    {
      var isMinus := |text| > 0 && text[0] == '-';
      var data := if isMinus then text[1..] else text;
      QueryWord(data, isMinus, IsStopWord(data))
    }

    /** The plus words of a raw query: its non-minus, non-stop words. */
    ghost function QueryPlus(rawQuery: string): set<string>
      reads this`stopWords
    {
      PlusWords(Words(rawQuery))
    }

    /** The plus words among `words`. */
    ghost function PlusWords(words: seq<string>): set<string>
      reads this`stopWords
    {
      set w | w in words && !ParseQueryWord(w).isMinus && !ParseQueryWord(w).isStop
    }

    /** The minus words among `words`, without their '-'. */
    ghost function MinusWords(words: seq<string>): set<string>
      reads this`stopWords
    {
      set w | w in words && ParseQueryWord(w).isMinus && !ParseQueryWord(w).isStop :: ParseQueryWord(w).data
    }

    /** One more query word adds itself to the plus or the minus words, or nothing
        when it is a stop word. */
    lemma QueryWordsSnoc(words: seq<string>, word: string)
      ensures var q := ParseQueryWord(word);
        && PlusWords(words + [word]) == PlusWords(words) + (if !q.isStop && !q.isMinus then {q.data} else {})
        && MinusWords(words + [word]) == MinusWords(words) + (if !q.isStop && q.isMinus then {q.data} else {})
    {
      var q := ParseQueryWord(word);
      forall w ensures w in PlusWords(words + [word]) <==> w in PlusWords(words) || (w == q.data && !q.isStop && !q.isMinus) {
      }
      forall w ensures w in MinusWords(words + [word]) <==> w in MinusWords(words) || (w == q.data && !q.isStop && q.isMinus) {
        if w in MinusWords(words + [word]) {
          var v :| v in words + [word] && ParseQueryWord(v).isMinus && !ParseQueryWord(v).isStop && ParseQueryWord(v).data == w;
          if v != word {
            assert v in words;
          }
        }
      }
    }

    /** The minus words of a raw query: the minus words with the '-' stripped, unless a
        stop word remains. */
    ghost function QueryMinus(rawQuery: string): set<string>
      reads this`stopWords
    {
      MinusWords(Words(rawQuery))
    }

    ghost function ParsedQuery(rawQuery: string): Query
      reads this`stopWords
    {
      Query(QueryPlus(rawQuery), QueryMinus(rawQuery))
    }

    /** What the parsed query holds, in terms of the words of the raw query: neither
        set holds a stop word; a word goes to the minus set, without its first
        character, exactly when it starts with '-'. */
    lemma QueryMembership(rawQuery: string)
      ensures forall w :: w in QueryPlus(rawQuery) <==>
                w in Words(rawQuery) && !(|w| > 0 && w[0] == '-') && w !in stopWords
      ensures forall w :: w in QueryMinus(rawQuery) <==>
                "-" + w in Words(rawQuery) && w !in stopWords
    {
      forall w | "-" + w in Words(rawQuery) && w !in stopWords
        ensures w in QueryMinus(rawQuery)
      {
        assert ParseQueryWord("-" + w).data == w;
      }
    }

    /** A lone "-" is a minus word: the empty string. */
    lemma LoneMinusIsEmptyMinusWord(rawQuery: string)
      requires "-" in Words(rawQuery) && "" !in stopWords
      ensures "" in QueryMinus(rawQuery)
    {
      QueryMembership(rawQuery);
      assert "-" + "" == "-";
    }

    method ParseQuery(text: string) returns (query: Query)
      ensures query == ParsedQuery(text)
    {
      var words := SplitIntoWords(text);
      query := Query({}, {});
      for i := 0 to |words|
        invariant query.plus == PlusWords(words[..i])
        invariant query.minus == MinusWords(words[..i])
      {
        assert words[..i + 1] == words[..i] + [words[i]];
        QueryWordsSnoc(words[..i], words[i]);
        var queryWord := ParseQueryWord(words[i]);
        if !queryWord.isStop {
          if queryWord.isMinus {
            query := query.(minus := query.minus + {queryWord.data});
          } else {
            query := query.(plus := query.plus + {queryWord.data});
          }
        }
      }
      assert words[..|words|] == words;
    }

    // ---------------------------------------------------------------- search

    /** Document `d` is stored and the predicate accepts its id, status and rating. */
    predicate Accepted(d: int, pred: (int, Status, int) -> bool)
      reads this`documents
    {
      d in documents && pred(d, documents[d].status, documents[d].rating)
    }

    /** The documents the predicate accepts and some plus word hits. */
    ghost function Candidates(plus: set<string>, pred: (int, Status, int) -> bool): set<int>
      reads this
    {
      set d | d in documents && Accepted(d, pred) && Hit(d, plus)
    }

    /** The documents a query selects: accepted by the predicate, hit by a plus word
        and by no minus word. */
    ghost function Selected(query: Query, pred: (int, Status, int) -> bool): set<int>
      reads this
    {
      set d | d in Candidates(query.plus, pred) && !Hit(d, query.minus)
    }

    /** A document hit by a minus word is never selected, whatever the predicate. */
    lemma MinusWordExcludes(query: Query, pred: (int, Status, int) -> bool, d: int)
      requires Hit(d, query.minus)
      ensures d !in Selected(query, pred)
    {
    }

    /** The status form selects exactly the documents with that status. */
    lemma SelectedByStatus(query: Query, givenStatus: Status)
      ensures Selected(query, StatusIs(givenStatus)) ==
              set d | d in documents && documents[d].status == givenStatus
                      && Hit(d, query.plus) && !Hit(d, query.minus)
    {
    }

    /** A query made only of stop words selects nothing, so its top-K answer is
        empty: "in" finds no document once "in" is a stop word. */
    lemma StopWordQueryFindsNothing(rawQuery: string, pred: (int, Status, int) -> bool, ln: real -> real)
      requires Valid()
      requires forall w :: w in Words(rawQuery) ==> w in stopWords
      ensures Selected(ParsedQuery(rawQuery), pred) == {}
      ensures forall top :: IsTopDocuments(top, ParsedQuery(rawQuery), pred, ln) ==> top == []
    {
      QueryMembership(rawQuery);
      assert QueryPlus(rawQuery) == {};
      forall d ensures !Hit(d, QueryPlus(rawQuery)) {
      }
    }

    /** The postings loop for one plus word: every accepted document that contains
        `word` gains term frequency times `idf`, a missing entry counting as 0. */
    method AddWordRelevance(rel: map<int, real>, word: string, idf: real,
                            pred: (int, Status, int) -> bool, ln: real -> real)
      returns (r: map<int, real>)
      requires Valid() && word in wordToDocumentFreqs
      requires idf == ComputeWordInverseDocumentFreq(word, ln)
      ensures forall d :: d in r <==> d in rel || (d in Postings(word) && Accepted(d, pred))
      ensures forall d :: d in r ==>
                r[d] == (if d in rel then rel[d] else 0.0)
                        + (if d in Postings(word) && Accepted(d, pred) then Contribution(word, d, ln) else 0.0)
    {
      var freqs := wordToDocumentFreqs[word];
      var rest := freqs.Keys;
      r := rel;
      while rest != {}
        invariant rest <= freqs.Keys
        invariant forall d :: d in r <==> d in rel || (d in freqs && d !in rest && Accepted(d, pred))
        invariant forall d :: d in r ==>
                    r[d] == (if d in rel then rel[d] else 0.0)
                            + (if d in freqs && d !in rest && Accepted(d, pred) then Contribution(word, d, ln) else 0.0)
        decreases rest
      {
        IntElementExists(rest);
        var d :| d in rest;
        if pred(d, documents[d].status, documents[d].rating) {
          r := r[d := (if d in r then r[d] else 0.0) + freqs[d] * idf];
        }
        rest := rest - {d};
      }
    }

    /** One plus word more: if `before` holds the relevances over `done` and `after`
        adds the contributions of `word`, then `after` holds them over `done + {word}`. */
    lemma RelevanceStep(before: map<int, real>, after: map<int, real>, done: set<string>, word: string,
                        pred: (int, Status, int) -> bool, ln: real -> real)
      requires Valid() && word !in done
      requires before.Keys == Candidates(done, pred)
      requires forall d :: d in before ==> before[d] == Relevance(d, done, ln)
      requires forall d :: d in after <==> d in before || (d in Postings(word) && Accepted(d, pred))
      requires forall d :: d in after ==>
                 after[d] == (if d in before then before[d] else 0.0)
                             + (if d in Postings(word) && Accepted(d, pred) then Contribution(word, d, ln) else 0.0)
      ensures after.Keys == Candidates(done + {word}, pred)
      ensures forall d :: d in after ==> after[d] == Relevance(d, done + {word}, ln)
    {
      CandidatesStep(done, word, pred);
      forall d ensures d in after.Keys <==> d in Candidates(done + {word}, pred) {
        assert d in before.Keys <==> d in Candidates(done, pred);
      }
      forall d | d in after ensures after[d] == Relevance(d, done + {word}, ln) {
        RelevanceSplit(d, done + {word}, word, ln);
        assert done + {word} - {word} == done;
        if d !in before {
          RelevanceWithoutHit(d, done, ln);
        }
      }
    }

    /** A document is a candidate for `done + {word}` when it is one for `done` or
        an accepted document in the postings of `word`. */
    lemma CandidatesStep(done: set<string>, word: string, pred: (int, Status, int) -> bool)
      ensures forall d :: d in Candidates(done + {word}, pred) <==>
                d in Candidates(done, pred)
                || (d in Postings(word) && Accepted(d, pred))
    {
      forall d | true ensures Hit(d, done + {word}) <==> Hit(d, done) || d in Postings(word) {
        HitExtend(d, done, word);
      }
    }

    /** The plus-word loop of `FindAllDocuments`: sums term frequency times inverse
        document frequency per accepted document, plus words in ascending order. */
    method AccumulatePlus(plus: set<string>, pred: (int, Status, int) -> bool, ln: real -> real)
      returns (rel: map<int, real>)
      requires Valid()
      ensures rel.Keys == Candidates(plus, pred)
      ensures forall d :: d in rel ==> rel[d] == Relevance(d, plus, ln)
    {
      var ws := InOrder(plus);
      rel := map[];
      ghost var done: set<string> := {};
      for i := 0 to |ws|
        invariant forall w :: w in done <==> w in ws[..i]
        invariant rel.Keys == Candidates(done, pred)
        invariant forall d :: d in rel ==> rel[d] == Relevance(d, done, ln)
      {
        var word := ws[i];
        assert word !in done by {
          forall k | 0 <= k < i ensures ws[k] != word {
            LessIrreflexive(word);
          }
        }
        ghost var before := rel;
        if word in wordToDocumentFreqs {
          var idf := ComputeWordInverseDocumentFreq(word, ln);
          rel := AddWordRelevance(rel, word, idf, pred, ln);
        }
        RelevanceStep(before, rel, done, word, pred, ln);
        done := done + {word};
        assert ws[..i + 1] == ws[..i] + [word];
      }
      assert ws[..|ws|] == ws;
      assert done == plus;
    }

    /** The minus-word loop of `FindAllDocuments`: erases every document a minus word hits. */
    method EraseMinus(rel: map<int, real>, minus: set<string>) returns (r: map<int, real>)
      ensures forall d :: d in r <==> d in rel && !Hit(d, minus)
      ensures forall d :: d in r ==> r[d] == rel[d]
    {
      var ws := InOrder(minus);
      r := rel;
      ghost var done: set<string> := {};
      for i := 0 to |ws|
        invariant forall w :: w in done <==> w in ws[..i]
        invariant forall d :: d in r <==> d in rel && !Hit(d, done)
        invariant forall d :: d in r ==> r[d] == rel[d]
      {
        var word := ws[i];
        ghost var before := r;
        if word in wordToDocumentFreqs {
          var rest := wordToDocumentFreqs[word].Keys;
          while rest != {}
            invariant rest <= wordToDocumentFreqs[word].Keys
            invariant forall d :: d in r <==> d in before && !(d in wordToDocumentFreqs[word] && d !in rest)
            invariant forall d :: d in r ==> r[d] == rel[d]
            decreases rest
          {
            IntElementExists(rest);
            var d :| d in rest;
            r := r - {d};
            rest := rest - {d};
          }
        }
        forall d | true ensures Hit(d, done + {word}) <==> Hit(d, done) || d in Postings(word) {
          HitExtend(d, done, word);
        }
        done := done + {word};
        assert ws[..i + 1] == ws[..i] + [word];
      }
      assert ws[..|ws|] == ws;
      assert done == minus;
    }

    /** Lists the accumulated relevances as result items, in ascending id order. */
    method Materialize(rel: map<int, real>) returns (docs: seq<Document>)
      requires forall d :: d in rel ==> d in documents
      ensures AscendingIds(docs)
      ensures DocIds(docs) == rel.Keys
      ensures forall i :: 0 <= i < |docs| ==>
                docs[i].id in rel && docs[i] == Document(docs[i].id, rel[docs[i].id], documents[docs[i].id].rating)
    {
      docs := [];
      var rest := rel.Keys;
      while rest != {}
        invariant rest <= rel.Keys
        invariant DocIds(docs) == rel.Keys - rest
        invariant AscendingIds(docs)
        invariant forall i, x :: 0 <= i < |docs| && x in rest ==> docs[i].id < x
        invariant forall i :: 0 <= i < |docs| ==>
                    docs[i].id in rel && docs[i] == Document(docs[i].id, rel[docs[i].id], documents[docs[i].id].rating)
        decreases rest
      {
        IntLeastExists(rest);
        var d :| d in rest && forall x :: x in rest ==> d <= x;
        DocIdsSnoc(docs, Document(d, rel[d], documents[d].rating));
        docs := docs + [Document(d, rel[d], documents[d].rating)];
        rest := rest - {d};
      }
    }

    /** All documents the query selects under the predicate, once each, in ascending
        id order, each with its relevance and its stored rating. */
    method FindAllDocuments(query: Query, pred: (int, Status, int) -> bool, ln: real -> real)
      returns (matched: seq<Document>)
      requires Valid()
      ensures AscendingIds(matched)
      ensures DocIds(matched) == Selected(query, pred)
      ensures forall i :: 0 <= i < |matched| ==>
                matched[i].id in documents && matched[i] == ItemFor(matched[i].id, query.plus, ln)
    {
      var rel := AccumulatePlus(query.plus, pred, ln);
      var kept := EraseMinus(rel, query.minus);
      forall d ensures d in kept.Keys <==> d in Selected(query, pred) {
        assert d in rel.Keys <==> d in Candidates(query.plus, pred);
      }
      matched := Materialize(kept);
    }

    /** `top` is a top-K answer for the query: the first min(K, |selected|) items of a
        ranking of the selected documents, K = `MaxResultDocumentCount`. */
    ghost predicate IsTopDocuments(top: seq<Document>, query: Query, pred: (int, Status, int) -> bool,
                                   ln: real -> real)
      requires Valid()
      reads this
    {
      var selected := Selected(query, pred);
      && |top| == (if |selected| > MaxResultDocumentCount then MaxResultDocumentCount else |selected|)
      && (forall i :: 0 <= i < |top| ==>
            top[i].id in selected && top[i] == ItemFor(top[i].id, query.plus, ln))
      && DistinctIds(top)
      && SortedByRank(top)
      && (forall d, i :: d in selected && d !in DocIds(top) && 0 <= i < |top| ==>
            !Precedes(ItemFor(d, query.plus, ln), top[i]))
    }

    method FindTopDocuments(rawQuery: string, pred: (int, Status, int) -> bool, ln: real -> real)
      returns (top: seq<Document>)
      requires Valid()
      ensures IsTopDocuments(top, ParsedQuery(rawQuery), pred, ln)
    {
      var query := ParseQuery(rawQuery);
      var matched := FindAllDocuments(query, pred, ln);
      var a := new Document[|matched|](i requires 0 <= i < |matched| => matched[i]);
      assert a[..] == matched;
      SortByRank(a);
      var n := if a.Length > MaxResultDocumentCount then MaxResultDocumentCount else a.Length;
      top := a[..n];
      TopOfSorted(matched, a[..], n, query.plus, pred, ln);
    }

    /** The truncated sorted permutation of the `FindAllDocuments` result is a top-K answer. */
    lemma TopOfSorted(matched: seq<Document>, sorted: seq<Document>, n: nat, plus: set<string>,
                      pred: (int, Status, int) -> bool, ln: real -> real)
      requires Valid()
      requires AscendingIds(matched)
      requires forall i :: 0 <= i < |matched| ==>
                 matched[i].id in documents && matched[i] == ItemFor(matched[i].id, plus, ln)
      requires multiset(sorted) == multiset(matched)
      requires SortedByRank(sorted)
      requires n == if |sorted| > MaxResultDocumentCount then MaxResultDocumentCount else |sorted|
      ensures var top := sorted[..n]; var selected := DocIds(matched);
        && |top| == (if |selected| > MaxResultDocumentCount then MaxResultDocumentCount else |selected|)
        && (forall i :: 0 <= i < |top| ==> top[i].id in selected && top[i] == ItemFor(top[i].id, plus, ln))
        && DistinctIds(top)
        && SortedByRank(top)
        && (forall d, i :: d in selected && d !in DocIds(top) && 0 <= i < |top| ==>
              !Precedes(ItemFor(d, plus, ln), top[i]))
    {
      var top := sorted[..n];
      DistinctIdsCount(matched);
      RankedPrefix(matched, sorted, n);
      forall i | 0 <= i < |top| ensures top[i].id in DocIds(matched) && top[i] == ItemFor(top[i].id, plus, ln) {
        assert top[i] == sorted[i] && sorted[i] in matched;
      }
      forall d, i | d in DocIds(matched) && d !in DocIds(top) && 0 <= i < |top|
        ensures !Precedes(ItemFor(d, plus, ln), top[i])
      {
        var k :| 0 <= k < |matched| && matched[k].id == d;
        assert matched[k] in matched && top[i] == sorted[i];
      }
    }

    /** `FindTopDocuments(raw_query, status)`: the predicate form with
        `status == givenStatus`; the status defaults to `Actual`. */
    method FindTopDocumentsByStatus(rawQuery: string, ln: real -> real, givenStatus: Status := Actual)
      returns (top: seq<Document>)
      requires Valid()
      ensures IsTopDocuments(top, ParsedQuery(rawQuery), StatusIs(givenStatus), ln)
    {
      top := FindTopDocuments(rawQuery, StatusIs(givenStatus), ln);
    }

    /** The plus words of the query that document `documentId` contains, in ascending
        order, with the document's status; no words when a minus word hits the
        document; `OutOfRange` for an unknown id. */
    method MatchDocument(rawQuery: string, documentId: int) returns (r: Result<Match>)
      ensures documentId !in documents ==> r == OutOfRange
      ensures documentId in documents ==> r.Ok? && r.value.status == documents[documentId].status
      ensures documentId in documents && Hit(documentId, QueryMinus(rawQuery)) ==> r.value.words == []
      ensures documentId in documents && !Hit(documentId, QueryMinus(rawQuery)) ==>
                Ascending(r.value.words)
                && forall w :: w in r.value.words <==> w in QueryPlus(rawQuery) && documentId in Postings(w)
    {
      var query := ParseQuery(rawQuery);
      var plus := InOrder(query.plus);
      var matchedWords: seq<string> := [];
      for i := 0 to |plus|
        invariant Ascending(matchedWords)
        invariant forall k, j :: 0 <= k < |matchedWords| && i <= j < |plus| ==> Less(matchedWords[k], plus[j])
        invariant forall w :: w in matchedWords <==> w in plus[..i] && documentId in Postings(w)
      {
        var word := plus[i];
        assert plus[..i + 1] == plus[..i] + [word];
        if word !in wordToDocumentFreqs {
          continue;
        }
        if documentId in wordToDocumentFreqs[word] {
          matchedWords := matchedWords + [word];
        }
      }
      assert plus[..|plus|] == plus;
      var minus := InOrder(query.minus);
      ghost var hit := false;
      for i := 0 to |minus|
        invariant !hit
        invariant forall k :: 0 <= k < i ==> documentId !in Postings(minus[k])
      {
        var word := minus[i];
        if word !in wordToDocumentFreqs {
          continue;
        }
        if documentId in wordToDocumentFreqs[word] {
          matchedWords := [];
          hit := true;
          assert word in query.minus;
          break;
        }
      }
      if !hit {
        forall w | w in query.minus ensures documentId !in Postings(w) {
          var k :| 0 <= k < |minus| && minus[k] == w;
        }
      }
      if documentId !in documents {
        return OutOfRange;
      }
      r := Ok(Match(matchedWords, documents[documentId].status));
    }
  }
}
