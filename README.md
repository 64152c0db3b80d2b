# Inverted index: tokenizer, builder, query and dataset lines

This project models the core of a small command-line inverted index (`final_task.py`).

- **Tokenizer.** Each document text is tokenized with `text.lower().split()`. The text is folded to lower case and cut at runs of whitespace. Empty pieces are dropped.
- **Builder.** `build_inverted_index` walks the documents in dictionary order. For every token it appends the document's id to that token's posting list, creating the list the first time the token is seen. The id is appended once per occurrence. Lists are neither deduplicated nor sorted.
- **Index object.** `InvertedIndex` holds the map `words_ids`. It is set when the object is made and only read afterwards. `query(words)` concatenates the stored lists of the query words, in query order. Unknown words add nothing. Query words are matched exactly and are not lower-cased.
- **Dataset lines.** `load_documents` strips each line and splits it at tabs into exactly two fields. It then reads the first field as an integer id and assigns `documents[id] = text`. A repeated id therefore replaces the earlier text and keeps its original position.

Files:

- `wrappers.dfy` holds `Option` and `Result`.
- `sequtil.dfy` holds `Count`, `Repeat` and `Flatten`.
- `tokenizer.dfy` models `lower()` and `split()`.
- `corpus.dfy` models the document collection, `strip()`, `split('\t')`, `int()`, one dataset line and `load_documents`.
- `index.dfy` holds the specification functions `QueryOf`, `Terms`, `Postings` and `IndexOf`, the class `InvertedIndex` with its `Query` method, the `BuildInvertedIndex` method, and the lemmas.
- `scenarios.dfy` works through concrete corpora.

Modelling choices:

- A Python dict keeps insertion order. The document collection is therefore a `seq<Document>`, and `Corpus.Store` models assigning to a key.
- The index is a `map<string, seq<int>>`.
- `Query`, `BuildInvertedIndex` and `LoadDocuments` keep the source's loops. Each is proved equal to a specification function: `QueryOf`, `IndexOf` or `LoadOf`. The properties are then proved about those functions.
- `IndexOf` is not a fold of the loop. It is defined directly: the keys are all tokens of all texts, and the list of `w` is each document's id repeated once per occurrence of `w`.

Three points about the code:

- Query words are matched exactly, without case folding. On `{1: "Milk"}` the query `Milk` gives `[]` and `milk` gives `[1]` (`Scenarios.CaseSensitiveQuery`).
- `int()` accepts a sign, so document ids may be negative.
- Postings are per occurrence. A document whose text holds a word twice is listed twice in that word's list.

## Model

| member | source | states |
|---|---|---|
| `Tokenizer.Lower` | final_task.py:97 | `text.lower()`: every character folded by `LowerChar` in place, so the length is kept |
| `Tokenizer.Split` | final_task.py:97 | `split()` with no separator: the maximal whitespace-free runs, left to right, with no empty pieces for leading, trailing or repeated whitespace |
| `Tokenizer.Tokenize` | final_task.py:97 | `text.lower().split()`: `Split` applied to `Lower(text)` |
| `Tokenizer.LowerChar` | final_task.py:97 | `lower()` on one character: an ASCII capital moves up by 32, every other character is unchanged, the result is never a capital, and whitespace stays whitespace |
| `Tokenizer.Word` | final_task.py:97 | the piece `split()` cuts next is the longest whitespace-free prefix: it is a prefix, holds no whitespace, and is followed by whitespace or the end of the text |
| `Tokenizer.SplitYieldsTokens` | final_task.py:97 | every piece of `split()` is non-empty, holds no whitespace, and is made of characters of the input |
| `Tokenizer.SplitToken` | final_task.py:97 | a non-empty whitespace-free text splits into exactly itself |
| `Tokenizer.SplitBlank` | final_task.py:97 | `split()` yields nothing exactly when the text is empty or all whitespace |
| `Tokenizer.SplitSeparator` | final_task.py:97 | a whitespace character separates: `split(a + c + b) == split(a) + split(b)` |
| `Tokenizer.SplitKeepsNonSpace` | final_task.py:97 | the pieces put back together are exactly the non-whitespace characters of the text, in order |
| `Tokenizer.SplitUnwords` | final_task.py:97 | splitting tokens joined by single spaces gives the tokens back |
| `Tokenizer.SplitLower` | final_task.py:97 | lower-casing and then splitting equals splitting and then lower-casing each piece |
| `Tokenizer.TokenizeYieldsLowerTokens` | final_task.py:97 | every token of `text.lower().split()` is non-empty, free of whitespace and free of capitals |
| `Tokenizer.TokenizeBlank` | final_task.py:97 | an empty or all-whitespace text, and only such a text, yields no tokens |
| `Tokenizer.TokenizeWord` | final_task.py:97 | a single word tokenizes to its lower-case form |
| `Corpus.Store` | final_task.py:85 | `documents[id] = text` on an insertion-ordered dict: the entry with that id gets the new text in its place, or a new entry is appended last |
| `Corpus.StoreIds` | final_task.py:85 | `documents[id] = text` keeps a known id in its place and appends a new id last |
| `Corpus.StoreText` | final_task.py:85 | after `documents[id] = text` the id maps to `text` and every other id keeps its text |
| `Corpus.StoreUnique` | final_task.py:85 | assigning a key keeps the ids unique |
| `Corpus.Strip` | final_task.py:84 | `line.strip()`: leading and trailing whitespace removed |
| `Corpus.SplitOn` | final_task.py:84 | `split('\t')`: the text cut at every tab, empty fields kept, so at least one field |
| `Corpus.ParseInt` | final_task.py:85 | `int(doc_id)`: optional surrounding whitespace, an optional `+` or `-`, then one or more decimal digits read as a number; anything else is `None`, where Python raises `ValueError` |
| `Corpus.ParseLine` | final_task.py:84-85 | one dataset line: strip, split at tabs, exactly two fields or `FieldCount` with the number found, then the first field through `ParseInt` or `InvalidId` |
| `Corpus.StripSpec` | final_task.py:84 | `strip()` returns the slice left after removing whitespace-only ends; it starts and ends with non-whitespace |
| `Corpus.SplitOnSpec` | final_task.py:84 | `split('\t')` gives one field more than there are tabs, no field holds a tab, and joining the fields with tabs restores the text |
| `Corpus.SplitOnTwo` | final_task.py:84 | two tab-free texts around one tab split into exactly those two fields |
| `Corpus.ParseFormatInt` | final_task.py:85 | `int(str(n)) == n` for every integer `n` |
| `Corpus.ParseLineSpec` | final_task.py:84-85 | a line is accepted exactly when its stripped form holds one tab and the part before the tab reads as an integer; otherwise the error gives the field count or the rejected id field; an accepted text holds no tab and is what follows the tab |
| `Corpus.ParseFormatLine` | final_task.py:84-85 | `ParseLine` applied to the string `str(id) + TAB + text + LF` returns the document, when its text holds no tab and does not end in whitespace; a text that holds a line break would make that string several lines of a file, so this is a statement about `ParseLine` alone |
| `Corpus.LoadOf` | final_task.py:81-86 | the documents dict after reading the lines in order, each parsed line stored with `Store`; the first line that does not parse ends the load with its error |
| `Corpus.LoadDocuments` | final_task.py:81-86 | the loop over the lines returns `LoadOf(lines)`: the dictionary built line by line, or the error of the first bad line |
| `Corpus.LoadOfSucceeds` | final_task.py:83-85 | loading succeeds exactly when every line parses |
| `Corpus.LoadOfFirstError` | final_task.py:83-85 | a failed load reports the error of the first line that does not parse, and every earlier line parses |
| `Corpus.LoadOfContents` | final_task.py:83-85 | a loaded collection has unique ids, and they are exactly the ids of the lines |
| `Corpus.LaterLineOverwrites` | final_task.py:85 | one more line sets its id's text and leaves every other id's text alone; a known id keeps its place and a new id goes last |
| `Index.InvertedIndex.constructor` | final_task.py:43-44 | the object holds exactly the map it was given |
| `Index.InvertedIndex.Query` | final_task.py:46-52 | the loop returns `QueryOf(wordsIds, words)`; the method has no `modifies` clause and `wordsIds` is a constant, so the index is only read |
| `Index.Lookup` | final_task.py:50-51 | the stored list of a word that is a key of `words_ids`, otherwise nothing |
| `Index.QueryOf` | final_task.py:46-52 | what `query(words)` returns: the `Lookup` lists of the words concatenated in query order |
| `Index.QuerySingle` | final_task.py:49-51 | a one-word query is that word's `Lookup`: its stored list, or empty for a word that is not a key |
| `Index.QueryConcat` | final_task.py:48-52 | `query(a + b) == query(a) + query(b)` |
| `Index.QueryAbsentWord` | final_task.py:50 | a word that is not a key adds nothing and can be dropped wherever it stands |
| `Index.QueryRepeated` | final_task.py:48-52 | `query(ws + ws)` is `query(ws)` twice; `query([w, w])` is the list of `w` twice, of twice its length |
| `Index.QueryMembership` | final_task.py:48-52 | an id is in the result exactly when it is in the stored list of some query word |
| `Index.Terms` | final_task.py:96-101 | every token of every document text |
| `Index.Postings` | final_task.py:96-101 | the posting list of a word: for each document in iteration order, its id once per occurrence of the word among its tokens |
| `Index.IndexOf` | final_task.py:96-101 | the map `build_inverted_index` produces: every term mapped to its `Postings` |
| `Index.BuildInvertedIndex` | final_task.py:89-102 | the nested loops return an index whose map is `IndexOf(documents)` |
| `Index.PartialStep` | final_task.py:98-101 | appending the id to the next token's list, after creating the list if it is missing, advances the build state by one token |
| `Index.TermsAreTokens` | final_task.py:96-101 | a word is a key of the built index exactly when it is a token of some document text |
| `Index.PostingsNonEmpty` | final_task.py:99-101 | a word has postings exactly when it is a term |
| `Index.IndexValuesNonEmpty` | final_task.py:99-101 | no key of the built index maps to an empty list |
| `Index.PostingsFromInput` | final_task.py:96-101 | every id in a posting list is the id of an input document whose tokens contain the word |
| `Index.PostingsWithoutId` | final_task.py:96-101 | an id that no document carries is in no posting list |
| `Index.PostingsAppend` | final_task.py:96-101 | the postings of two consecutive runs of documents are the first run's postings followed by the second's |
| `Index.PostingsCount` | final_task.py:96-101 | with unique ids, a document's id occurs in the list of `w` exactly as often as `w` occurs among that document's tokens |
| `Index.PostingsOrder` | final_task.py:96-101 | with unique ids, every entry of an earlier document precedes every entry of a later one |
| `Index.LoadedPostingsFromLines` | final_task.py:84-101 | in an index built from a loaded dataset, every posted id is the id of one of the dataset's lines |
| `Index.QueryOfBuilt` | final_task.py:50-51 | a one-word query on a built index gives that word's postings, and nothing for a non-term |
| `Index.CapitalizedWordMissing` | final_task.py:50 | a query word containing a capital letter is never a key of a built index and contributes nothing |
| `Scenarios.TokenizeHelloWorld` | final_task.py:97 | `"Hello World"` tokenizes to `["hello", "world"]` |
| `Scenarios.MilkCorpusIndex` | final_task.py:96-101 | `{1: "milk water", 2: "milk sugar water"}` builds `{milk: [1, 2], water: [1, 2], sugar: [2]}` |
| `Scenarios.MilkCorpusQueries` | final_task.py:46-52 | on that corpus `milk`, `water` and `sugar` give `[1, 2]`, `[1, 2]` and `[2]`; `absent` gives `[]`; `milk sugar` gives `[1, 2, 2]` |
| `Scenarios.CaseSensitiveQuery` | final_task.py:50 | on `{1: "Milk"}`, the query `Milk` gives `[]` and `milk` gives `[1]` |
| `Scenarios.BuildAndQueryMilk` | final_task.py:89-102 | the build and query methods give the same answers on that corpus, and `milk milk` gives `[1, 2, 1, 2]` |

## Left out

- `InvertedIndex.dump` and `InvertedIndex.load` (final_task.py:54-72) are file I/O and `json` library calls. The JSON encoding is not modelled, and neither is the order in which `words_ids` keys were inserted, which only `dump` would show.
- The model does not open or iterate the dataset file (final_task.py:82-83). `LoadDocuments` takes the file's lines as a parameter, with their line breaks. Errors from opening or decoding the file are not modelled.
- `EncodedFileType` (final_task.py:11-36) only wraps standard input/output and opens files.
- The argument parser, the callbacks, printing and `main` (final_task.py:105-219) are command-line plumbing. This includes splitting query lines read from a file.
- `lower()` on non-ASCII characters is not modelled; only ASCII capitals are folded.
- `split()` and `strip()` use a fixed whitespace set: space, tab, line feed, carriage return, vertical tab and form feed. Python also counts `\x1c`-`\x1f` and non-ASCII spaces as whitespace.
- Corpus.ParseInt: models `int()` as optional surrounding whitespace, an optional sign and one or more ASCII digits. Underscores between digits and non-ASCII digits, which Python also accepts, are not modelled.
- The model reads `words_ids` as a value. Python's `InvertedIndex` keeps a reference to the caller's dict, and that dict could be mutated from outside later; this aliasing is not modelled.
