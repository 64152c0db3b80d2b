/**
 * The inverted index: a map from each term to its posting list, the ids of the documents it
 * occurs in, one entry per occurrence, in build order. `build_inverted_index` fills the map
 * document by document and token by token; `InvertedIndex.query` concatenates the posting lists
 * of the query words.
 */
module Index {
  import opened SeqUtil
  import opened Tokenizer
  import opened Corpus

  // ---------------------------------------------------------------------------------------------
  // Query

  /** The stored posting list of `word`, or nothing when `word` is not a key. */
  function Lookup(wordsIds: map<string, seq<int>>, word: string): seq<int>
  {
    if word in wordsIds then wordsIds[word] else []
  }

  /** What `query(words)` returns: the posting lists of the words, in the order of `words`. */
  function QueryOf(wordsIds: map<string, seq<int>>, words: seq<string>): seq<int>
    decreases |words|
  {
    if words == [] then []
    else QueryOf(wordsIds, words[..|words| - 1]) + Lookup(wordsIds, words[|words| - 1])
  }

  /** A one-word query is that word's posting list, and nothing for a word that is not a key. */
  lemma QuerySingle(wordsIds: map<string, seq<int>>, word: string)
    ensures QueryOf(wordsIds, [word]) == Lookup(wordsIds, word)
  {
    assert [word][..0] == [];
  }

  /** Querying a concatenation is concatenating the queries. */
  lemma {:induction false} QueryConcat(wordsIds: map<string, seq<int>>, a: seq<string>, b: seq<string>)
    ensures QueryOf(wordsIds, a + b) == QueryOf(wordsIds, a) + QueryOf(wordsIds, b)
    decreases |b|
  {
    if b == [] {
      assert a + b == a;
    } else {
      var b' := b[..|b| - 1];
      assert (a + b)[..|a + b| - 1] == a + b';
      assert (a + b)[|a + b| - 1] == b[|b| - 1];
      QueryConcat(wordsIds, a, b');
    }
  }

  /** A word that is not a key contributes nothing, wherever it stands in the query. */
  lemma QueryAbsentWord(wordsIds: map<string, seq<int>>, a: seq<string>, word: string, b: seq<string>)
    requires word !in wordsIds
    ensures QueryOf(wordsIds, a + [word] + b) == QueryOf(wordsIds, a + b)
  {
    QueryConcat(wordsIds, a + [word], b);
    QueryConcat(wordsIds, a, [word]);
    QueryConcat(wordsIds, a, b);
  }

  /** Repeating a query repeats its result; a word asked twice brings its posting list twice. */
  lemma QueryRepeated(wordsIds: map<string, seq<int>>, words: seq<string>, word: string)
    ensures QueryOf(wordsIds, words + words) == QueryOf(wordsIds, words) + QueryOf(wordsIds, words)
    ensures QueryOf(wordsIds, [word, word]) == Lookup(wordsIds, word) + Lookup(wordsIds, word)
    ensures |QueryOf(wordsIds, [word, word])| == 2 * |Lookup(wordsIds, word)|
  {
    QueryConcat(wordsIds, words, words);
    assert [word, word][..1] == [word];
    assert [word][..0] == [];
    assert QueryOf(wordsIds, [word]) == Lookup(wordsIds, word);
  }

  /** An id is in the result exactly when it is in the posting list of one of the words. */
  lemma {:induction false} QueryMembership(wordsIds: map<string, seq<int>>, words: seq<string>, d: int)
    ensures d in QueryOf(wordsIds, words) <==>
      exists i :: 0 <= i < |words| && words[i] in wordsIds && d in wordsIds[words[i]]
    decreases |words|
  {
    if words != [] {
      var pre := words[..|words| - 1];
      QueryMembership(wordsIds, pre, d);
      assert forall i :: 0 <= i < |pre| ==> pre[i] == words[i];
      if d in QueryOf(wordsIds, words) && d !in QueryOf(wordsIds, pre) {
        assert words[|words| - 1] in wordsIds && d in wordsIds[words[|words| - 1]];
      }
    }
  }

  // ---------------------------------------------------------------------------------------------
  // Build

  /** The terms of a collection: every token of every document text. */
  function Terms(docs: seq<Document>): set<string>
    decreases |docs|
  {
    if docs == [] then {}
    else Terms(docs[..|docs| - 1]) + TokenSet(Tokenize(docs[|docs| - 1].text))
  }

  function TokenSet(tokens: seq<string>): set<string>
  {
    set t | t in tokens
  }

  /**
   * The posting list of `word`: for each document in iteration order, its id once per
   * occurrence of `word` among its tokens.
   */
  function Postings(docs: seq<Document>, word: string): seq<int>
    decreases |docs|
  {
    if docs == [] then []
    else
      var d := docs[|docs| - 1];
      Postings(docs[..|docs| - 1], word) + Repeat(d.id, Count(word, Tokenize(d.text)))
  }

  /** The index that `build_inverted_index` produces: every term, mapped to its postings. */
  function IndexOf(docs: seq<Document>): map<string, seq<int>>
  {
    map w | w in Terms(docs) :: Postings(docs, w)
  }

  /** The keys of the index are exactly the tokens of the document texts. */
  lemma {:induction false} TermsAreTokens(docs: seq<Document>, word: string)
    ensures word in IndexOf(docs) <==> exists k :: 0 <= k < |docs| && word in Tokenize(docs[k].text)
    decreases |docs|
  {
    if docs != [] {
      var pre := docs[..|docs| - 1];
      TermsAreTokens(pre, word);
      assert forall k :: 0 <= k < |pre| ==> pre[k] == docs[k];
    }
  }

  /** A word has postings exactly when it is a term, so no key maps to an empty list. */
  lemma {:induction false} PostingsNonEmpty(docs: seq<Document>, word: string)
    ensures Postings(docs, word) != [] <==> word in Terms(docs)
    decreases |docs|
  {
    if docs != [] {
      var d := docs[|docs| - 1];
      var toks := Tokenize(d.text);
      PostingsNonEmpty(docs[..|docs| - 1], word);
      RepeatFacts(d.id, Count(word, toks));
      CountZero(word, toks);
    }
  }

  lemma IndexValuesNonEmpty(docs: seq<Document>)
    ensures forall w :: w in IndexOf(docs) ==> IndexOf(docs)[w] != []
  {
    forall w | w in IndexOf(docs) ensures IndexOf(docs)[w] != [] {
      PostingsNonEmpty(docs, w);
    }
  }

  /** Every id in a posting list is the id of an input document whose tokens hold the word. */
  lemma {:induction false} PostingsFromInput(docs: seq<Document>, word: string, id: int)
    requires id in Postings(docs, word)
    ensures exists k :: 0 <= k < |docs| && docs[k].id == id && word in Tokenize(docs[k].text)
    decreases |docs|
  {
    var pre := docs[..|docs| - 1];
    var d := docs[|docs| - 1];
    var toks := Tokenize(d.text);
    if id in Postings(pre, word) {
      PostingsFromInput(pre, word, id);
      var k :| 0 <= k < |pre| && pre[k].id == id && word in Tokenize(pre[k].text);
      assert docs[k] == pre[k];
    } else {
      RepeatFacts(d.id, Count(word, toks));
      CountZero(word, toks);
    }
  }

  /** Concatenation of `f` over a sequence, folded from its end as `Postings` is. */
  ghost function FoldEnd<T>(f: T -> seq<int>, s: seq<T>): seq<int>
    decreases |s|
  {
    if s == [] then [] else FoldEnd(f, s[..|s| - 1]) + f(s[|s| - 1])
  }

  lemma {:induction false} FoldEndAppend<T>(f: T -> seq<int>, a: seq<T>, b: seq<T>)
    ensures FoldEnd(f, a + b) == FoldEnd(f, a) + FoldEnd(f, b)
    decreases |b|
  {
    if b == [] {
      assert a + b == a;
    } else {
      var b' := b[..|b| - 1];
      assert (a + b)[..|a + b| - 1] == a + b';
      FoldEndAppend(f, a, b');
    }
  }

  /** What one document adds to the posting list of `word`. */
  ghost function Hits(word: string): Document -> seq<int>
  {
    (d: Document) => Repeat(d.id, Count(word, Tokenize(d.text)))
  }

  lemma {:induction false} PostingsFold(docs: seq<Document>, word: string)
    ensures Postings(docs, word) == FoldEnd(Hits(word), docs)
    decreases |docs|
  {
    if docs != [] {
      PostingsFold(docs[..|docs| - 1], word);
    }
  }

  /** Postings over two consecutive parts of a collection are the two parts' postings, in order. */
  lemma PostingsAppend(a: seq<Document>, b: seq<Document>, word: string)
    ensures Postings(a + b, word) == Postings(a, word) + Postings(b, word)
  {
    PostingsFold(a + b, word);
    PostingsFold(a, word);
    PostingsFold(b, word);
    FoldEndAppend(Hits(word), a, b);
  }

  /** No document carries `id`, so no posting list holds it. */
  lemma {:induction false} PostingsWithoutId(docs: seq<Document>, word: string, id: int)
    requires forall k :: 0 <= k < |docs| ==> docs[k].id != id
    ensures id !in Postings(docs, word)
    decreases |docs|
  {
    if docs != [] {
      var d := docs[|docs| - 1];
      PostingsWithoutId(docs[..|docs| - 1], word, id);
      RepeatFacts(d.id, Count(word, Tokenize(d.text)));
    }
  }

  /**
   * With unique ids, a document's id occurs in the posting list of a word exactly as often as
   * the word occurs among that document's tokens.
   */
  lemma {:induction false} PostingsCount(docs: seq<Document>, word: string, k: nat)
    requires UniqueIds(docs) && k < |docs|
    ensures Count(docs[k].id, Postings(docs, word)) == Count(word, Tokenize(docs[k].text))
    decreases |docs|
  {
    var n := |docs| - 1;
    var pre := docs[..n];
    var d := docs[n];
    var c := Count(word, Tokenize(d.text));
    CountAppend(docs[k].id, Postings(pre, word), Repeat(d.id, c));
    RepeatFacts(d.id, c);
    assert UniqueIds(pre);
    if k == n {
      PostingsWithoutId(pre, word, d.id);
      CountZero(d.id, Postings(pre, word));
    } else {
      assert pre[k] == docs[k];
      PostingsCount(pre, word, k);
      CountZero(docs[k].id, Repeat(d.id, c));
    }
  }

  /**
   * Posting lists keep document order: with unique ids, every entry of an earlier document comes
   * before every entry of a later one.
   */
  lemma PostingsOrder(docs: seq<Document>, word: string, i: nat, j: nat, p: nat, q: nat)
    requires UniqueIds(docs) && i < j < |docs|
    requires p < |Postings(docs, word)| && q < |Postings(docs, word)|
    requires Postings(docs, word)[p] == docs[i].id && Postings(docs, word)[q] == docs[j].id
    ensures p < q
  {
    var before, after := docs[..j], docs[j..];
    var x, y := docs[i].id, docs[j].id;
    assert docs == before + after;
    PostingsAppend(before, after, word);
    var P, Q := Postings(before, word), Postings(after, word);
    assert forall k :: 0 <= k < |before| ==> before[k].id != y by {
      forall k | 0 <= k < |before| ensures before[k].id != y {
        assert before[k] == docs[k];
      }
    }
    PostingsWithoutId(before, word, y);
    assert forall k :: 0 <= k < |after| ==> after[k].id != x by {
      forall k | 0 <= k < |after| ensures after[k].id != x {
        assert after[k] == docs[j + k];
      }
    }
    PostingsWithoutId(after, word, x);
    ConcatSides(P, Q, x, y, p, q);
  }

  /** Built from a loaded dataset, every id in a posting list is the id of one of its lines. */
  lemma LoadedPostingsFromLines(lines: seq<string>, word: string, id: int)
    requires LoadOf(lines).Ok? && id in Postings(LoadOf(lines).value, word)
    ensures exists i :: 0 <= i < |lines| && ParseLine(lines[i]).Ok? && ParseLine(lines[i]).value.id == id
  {
    var docs := LoadOf(lines).value;
    PostingsFromInput(docs, word, id);
    var k :| 0 <= k < |docs| && docs[k].id == id && word in Tokenize(docs[k].text);
    assert Ids(docs)[k] == id;
    LoadOfContents(lines);
    assert id in Ids(docs);
  }

  /** Querying one word of a built index gives that word's postings, empty for a non-term. */
  lemma QueryOfBuilt(docs: seq<Document>, word: string)
    ensures QueryOf(IndexOf(docs), [word]) == Postings(docs, word)
  {
    PostingsNonEmpty(docs, word);
  }

  /**
   * Query words are matched exactly, without case folding: a word with a capital letter is never
   * a key of a built index and contributes nothing.
   */
  lemma CapitalizedWordMissing(docs: seq<Document>, word: string, i: nat)
    requires i < |word| && IsUpper(word[i])
    ensures word !in IndexOf(docs)
    ensures QueryOf(IndexOf(docs), [word]) == []
  {
    TermsAreTokens(docs, word);
    if word in IndexOf(docs) {
      var k :| 0 <= k < |docs| && word in Tokenize(docs[k].text);
      TokenizeYieldsLowerTokens(docs[k].text);
    }
  }

  // ---------------------------------------------------------------------------------------------
  // The index object

  /** `InvertedIndex`: holds `words_ids`, set once when the object is made and only read. */
  class InvertedIndex {
    const wordsIds: map<string, seq<int>>

    constructor (wordsIds: map<string, seq<int>>)
      ensures this.wordsIds == wordsIds
    {
      this.wordsIds := wordsIds;
    }

    /** `query`: the posting lists of the known words, extended one after the other. */
    method Query(words: seq<string>) returns (docIndexes: seq<int>)
      ensures docIndexes == QueryOf(wordsIds, words)
    {
      docIndexes := [];
      for i := 0 to |words|
        invariant docIndexes == QueryOf(wordsIds, words[..i])
      {
        assert words[..i + 1][..i] == words[..i];
        var word := words[i];
        if word in wordsIds {
          docIndexes := docIndexes + wordsIds[word];
        }
      }
      assert words[..|words|] == words;
    }
  }

  /**
   * The state of `words_ids` partway through a document: `base` is the map before the document,
   * and the first `j` of its tokens, whose document id is `id`, have been appended.
   */
  ghost predicate Partial(m: map<string, seq<int>>, base: map<string, seq<int>>, id: int, tokens: seq<string>, j: nat)
    requires j <= |tokens|
  {
    && m.Keys == base.Keys + TokenSet(tokens[..j])
    && forall w :: w in m ==> m[w] == Lookup(base, w) + Repeat(id, Count(w, tokens[..j]))
  }

  lemma PartialStart(base: map<string, seq<int>>, id: int, tokens: seq<string>)
    ensures Partial(base, base, id, tokens, 0)
  {
    assert tokens[..0] == [];
  }

  /** One more token `word`: the list of `word` gains one entry `id` and every other list stays. */
  lemma PartialValue(base: map<string, seq<int>>, id: int, pre: seq<string>, word: string, w: string, v: seq<int>)
    requires v == Lookup(base, w) + Repeat(id, Count(w, pre))
    ensures (if w == word then v + [id] else v) == Lookup(base, w) + Repeat(id, Count(w, pre + [word]))
  {
    assert (pre + [word])[..|pre|] == pre;
  }

  /** Appending `id` to the list of the next token, creating the list if needed, extends the state. */
  lemma PartialStep(m: map<string, seq<int>>, base: map<string, seq<int>>, id: int, tokens: seq<string>, j: nat)
    requires j < |tokens| && Partial(m, base, id, tokens, j)
    ensures Partial(m[tokens[j] := Lookup(m, tokens[j]) + [id]], base, id, tokens, j + 1)
  {
    var word := tokens[j];
    var pre := tokens[..j];
    var m' := m[word := Lookup(m, word) + [id]];
    assert tokens[..j + 1] == pre + [word];
    if word !in m {
      CountZero(word, pre);
    }
    PartialValue(base, id, pre, word, word, Lookup(m, word));
    forall w | w in m' && w != word ensures m'[w] == Lookup(base, w) + Repeat(id, Count(w, pre + [word])) {
      PartialValue(base, id, pre, word, w, m[w]);
    }
    PartialKeys(m, base, pre, word, Lookup(m, word) + [id]);
  }

  lemma PartialKeys(m: map<string, seq<int>>, base: map<string, seq<int>>, pre: seq<string>, word: string, v: seq<int>)
    requires m.Keys == base.Keys + TokenSet(pre)
    ensures m[word := v].Keys == base.Keys + TokenSet(pre + [word])
  {
    assert TokenSet(pre + [word]) == TokenSet(pre) + {word};
  }

  /** Once every token of `docs[i]` is appended to the index of `docs[..i]`, the map is the index of `docs[..i + 1]`. */
  lemma PartialEnd(m: map<string, seq<int>>, docs: seq<Document>, i: nat)
    requires i < |docs|
    requires Partial(m, IndexOf(docs[..i]), docs[i].id, Tokenize(docs[i].text), |Tokenize(docs[i].text)|)
    ensures m == IndexOf(docs[..i + 1])
  {
    var done := docs[..i];
    var tokens := Tokenize(docs[i].text);
    var next := docs[..i + 1];
    assert tokens[..|tokens|] == tokens;
    assert next[..i] == done && next[i] == docs[i];
    assert m.Keys == Terms(next);
    forall w | w in m ensures m[w] == Postings(next, w) {
      PostingsNonEmpty(done, w);
    }
  }

  /** `build_inverted_index`: append each document's id to the list of each of its tokens. */
  method BuildInvertedIndex(documents: seq<Document>) returns (index: InvertedIndex)
    ensures index.wordsIds == IndexOf(documents)
  {
    var wordsIds: map<string, seq<int>> := map[];
    for i := 0 to |documents|
      invariant wordsIds == IndexOf(documents[..i])
    {
      var docId := documents[i].id;
      var cleanedText := Tokenize(documents[i].text);
      ghost var base := wordsIds;
      PartialStart(base, docId, cleanedText);
      for j := 0 to |cleanedText|
        invariant Partial(wordsIds, base, docId, cleanedText, j)
      {
        var word := cleanedText[j];
        PartialStep(wordsIds, base, docId, cleanedText, j);
        ghost var next := wordsIds[word := Lookup(wordsIds, word) + [docId]];
        if word !in wordsIds {
          wordsIds := wordsIds[word := []];
        }
        wordsIds := wordsIds[word := wordsIds[word] + [docId]];
        assert wordsIds == next;
      }
      PartialEnd(wordsIds, documents, i);
    }
    assert documents[..|documents|] == documents;
    index := new InvertedIndex(wordsIds);
  }
}
