/** Concrete corpora, worked through the tokenizer, the index and the query. */
module Scenarios {
  import opened SeqUtil
  import opened Tokenizer
  import opened Corpus
  import opened Index

  lemma TokenizeHelloWorld()
    ensures Tokenize("Hello World") == ["hello", "world"]
  {
    assert "Hello World" == Unwords(["Hello", "World"]);
    assert Lower("Hello World") == Unwords(["hello", "world"]);
    SplitUnwords(["hello", "world"]);
  }

  lemma TokenizeBlankTexts()
    ensures Tokenize("") == [] && Tokenize(" \t\n") == []
  {
    TokenizeBlank(" \t\n");
  }

  lemma SplitMilkWater()
    ensures Split("milk water") == ["milk", "water"]
  {
    assert Unwords(["milk", "water"]) == "milk water";
    SplitUnwords(["milk", "water"]);
  }

  lemma TokenizeMilkWater()
    ensures Tokenize("milk water") == ["milk", "water"]
  {
    LowerOfLowercase("milk water");
    SplitMilkWater();
  }

  lemma SplitMilkSugarWater()
    ensures Split("milk sugar water") == ["milk", "sugar", "water"]
  {
    assert Unwords(["milk", "sugar", "water"]) == "milk sugar water";
    SplitUnwords(["milk", "sugar", "water"]);
  }

  lemma TokenizeMilkSugarWater()
    ensures Tokenize("milk sugar water") == ["milk", "sugar", "water"]
  {
    LowerOfLowercase("milk sugar water");
    SplitMilkSugarWater();
  }

  /** `{1: "milk water", 2: "milk sugar water"}`. */
  function MilkCorpus(): seq<Document>
  {
    [Document(1, "milk water"), Document(2, "milk sugar water")]
  }

  lemma TwoDocumentTerms(d1: Document, d2: Document)
    ensures Terms([d1, d2]) == TokenSet(Tokenize(d1.text)) + TokenSet(Tokenize(d2.text))
  {
    assert [d1, d2][..1] == [d1] && [d1][..0] == [];
    assert Terms([d1]) == TokenSet(Tokenize(d1.text));
  }

  lemma TwoDocumentPostings(d1: Document, d2: Document, w: string)
    ensures Postings([d1, d2], w) ==
      Repeat(d1.id, Count(w, Tokenize(d1.text))) + Repeat(d2.id, Count(w, Tokenize(d2.text)))
  {
    assert [d1, d2][..1] == [d1] && [d1][..0] == [];
    assert Postings([d1], w) == Repeat(d1.id, Count(w, Tokenize(d1.text)));
  }

  /** The index of two documents with tokens `t1` and `t2` and ids `x` and `y`. */
  function TwoListIndex<T(==)>(t1: seq<T>, t2: seq<T>, x: int, y: int): map<T, seq<int>>
  {
    map w | w in (set t | t in t1) + (set t | t in t2) :: Repeat(x, Count(w, t1)) + Repeat(y, Count(w, t2))
  }

  lemma TwoListIndexOf(d1: Document, d2: Document)
    ensures IndexOf([d1, d2]) == TwoListIndex(Tokenize(d1.text), Tokenize(d2.text), d1.id, d2.id)
  {
    TwoDocumentTerms(d1, d2);
    forall w ensures Postings([d1, d2], w) ==
      Repeat(d1.id, Count(w, Tokenize(d1.text))) + Repeat(d2.id, Count(w, Tokenize(d2.text)))
    {
      TwoDocumentPostings(d1, d2, w);
    }
  }

  lemma CountPair<T>(w: T, p: T, q: T)
    ensures Count(w, [p, q]) == (if p == w then 1 else 0) + (if q == w then 1 else 0)
  {
    assert [p, q][..1] == [p] && [p][..0] == [];
    assert Count(w, [p]) == if p == w then 1 else 0;
  }

  lemma CountTriple<T>(w: T, p: T, q: T, r: T)
    ensures Count(w, [p, q, r]) == (if p == w then 1 else 0) + (if q == w then 1 else 0) + (if r == w then 1 else 0)
  {
    assert [p, q, r][..2] == [p, q];
    CountPair(w, p, q);
  }

  /** Tokens `a b` and `a c b`: `a` and `b` list both ids in order, `c` only the second. */
  lemma ThreeWordIndex<T>(a: T, b: T, c: T, x: int, y: int)
    requires a != b && b != c && a != c
    ensures var m := TwoListIndex([a, b], [a, c, b], x, y);
      m.Keys == {a, b, c} && m[a] == [x, y] && m[b] == [x, y] && m[c] == [y]
  {
    var m := TwoListIndex([a, b], [a, c, b], x, y);
    assert (set t | t in [a, b]) + (set t | t in [a, c, b]) == {a, b, c};
    CountPair(a, a, b);
    CountPair(b, a, b);
    CountPair(c, a, b);
    CountTriple(a, a, c, b);
    CountTriple(b, a, c, b);
    CountTriple(c, a, c, b);
    assert Repeat(x, 1) == [x] && Repeat(y, 1) == [y];
    assert m[a] == [x, y];
    assert m[b] == [x, y];
    assert m[c] == [y];
  }

  /**
   * Two documents whose tokens are `a b` and `a c b`: `a` and `b` list both ids in document
   * order, `c` only the second.
   */
  lemma TwoDocumentIndex(d1: Document, d2: Document, a: string, b: string, c: string)
    requires a != b && b != c && a != c
    requires Tokenize(d1.text) == [a, b] && Tokenize(d2.text) == [a, c, b]
    ensures IndexOf([d1, d2]) == map[a := [d1.id, d2.id], b := [d1.id, d2.id], c := [d2.id]]
  {
    TwoListIndexOf(d1, d2);
    var m := TwoListIndex([a, b], [a, c, b], d1.id, d2.id);
    ThreeWordIndex(a, b, c, d1.id, d2.id);
    MapOfThree(m, a, b, c);
  }

  /** A map with keys `a`, `b` and `c` is the display of its three entries. */
  lemma MapOfThree<K, V>(m: map<K, V>, a: K, b: K, c: K)
    requires m.Keys == {a, b, c}
    ensures m == map[a := m[a], b := m[b], c := m[c]]
  {
  }

  lemma MilkCorpusIndex()
    ensures IndexOf(MilkCorpus()) == map["milk" := [1, 2], "water" := [1, 2], "sugar" := [2]]
  {
    TokenizeMilkWater();
    TokenizeMilkSugarWater();
    TwoDocumentIndex(MilkCorpus()[0], MilkCorpus()[1], "milk", "water", "sugar");
  }

  /** The posting lists follow build order, and a multi-word query concatenates them. */
  lemma MilkCorpusQueries()
    ensures QueryOf(IndexOf(MilkCorpus()), ["milk"]) == [1, 2]
    ensures QueryOf(IndexOf(MilkCorpus()), ["water"]) == [1, 2]
    ensures QueryOf(IndexOf(MilkCorpus()), ["sugar"]) == [2]
    ensures QueryOf(IndexOf(MilkCorpus()), ["absent"]) == []
    ensures QueryOf(IndexOf(MilkCorpus()), ["milk", "sugar"]) == [1, 2, 2]
    ensures QueryOf(IndexOf(MilkCorpus()), ["milk", "milk"]) == [1, 2, 1, 2]
  {
    MilkCorpusIndex();
    TwoDocumentQueries(IndexOf(MilkCorpus()), "milk", "water", "sugar", 1, 2, "absent");
  }

  lemma TwoDocumentQueries(m: map<string, seq<int>>, a: string, b: string, c: string, x: int, y: int, other: string)
    requires m == map[a := [x, y], b := [x, y], c := [y]]
    requires a != b && b != c && a != c
    requires other != a && other != b && other != c
    ensures QueryOf(m, [a]) == [x, y] && QueryOf(m, [b]) == [x, y] && QueryOf(m, [c]) == [y]
    ensures QueryOf(m, [other]) == []
    ensures QueryOf(m, [a, c]) == [x, y, y]
    ensures QueryOf(m, [a, a]) == [x, y, x, y]
  {
    QuerySingle(m, a);
    QuerySingle(m, b);
    QuerySingle(m, c);
    QuerySingle(m, other);
    QueryConcat(m, [a], [c]);
    assert [a] + [c] == [a, c];
    QueryRepeated(m, [], a);
  }

  /**
   * Document text is folded to lower case but query words are not: for `{1: "Milk"}` the query
   * `["Milk"]` finds nothing and `["milk"]` finds document 1.
   */
  lemma CaseSensitiveQuery()
    ensures QueryOf(IndexOf([Document(1, "Milk")]), ["Milk"]) == []
    ensures QueryOf(IndexOf([Document(1, "Milk")]), ["milk"]) == [1]
  {
    var docs := [Document(1, "Milk")];
    CapitalizedWordMissing(docs, "Milk", 0);
    TokenizeMilk();
    assert docs[..0] == [];
    assert Count("milk", ["milk"]) == 1;
    assert Postings(docs, "milk") == [1];
    QueryOfBuilt(docs, "milk");
  }

  lemma TokenizeMilk()
    ensures Tokenize("Milk") == ["milk"]
  {
    TokenizeWord("Milk");
    assert Lower("Milk") == "milk";
  }

  /** The same corpus through the build and query methods. */
  method BuildAndQueryMilk() returns (milk: seq<int>, both: seq<int>, twice: seq<int>, absent: seq<int>)
    ensures milk == [1, 2] && both == [1, 2, 2] && twice == [1, 2, 1, 2] && absent == []
  {
    var index := BuildInvertedIndex(MilkCorpus());
    MilkCorpusQueries();
    milk := index.Query(["milk"]);
    both := index.Query(["milk", "sugar"]);
    twice := index.Query(["milk", "milk"]);
    absent := index.Query(["absent"]);
  }
}
