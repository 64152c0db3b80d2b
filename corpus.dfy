/**
 * The document collection and `load_documents`: every line of the dataset is stripped, cut at
 * tab characters into exactly two fields, and the first field is read as a decimal integer id.
 * The pair is written into an insertion-ordered dictionary, so a later line with an id already
 * seen replaces that document's text and keeps its position.
 */
module Corpus {
  import opened Wrappers
  import opened SeqUtil
  import opened Tokenizer

  /** One entry `doc_id: text` of the documents dictionary. */
  datatype Document = Document(id: int, text: string)

  /** The document ids in iteration order. */
  function Ids(docs: seq<Document>): (ids: seq<int>)
    ensures |ids| == |docs|
    ensures forall k :: 0 <= k < |docs| ==> ids[k] == docs[k].id
  {
    seq(|docs|, k requires 0 <= k < |docs| => docs[k].id)
  }

  /** No id occurs twice, which a dictionary guarantees of its keys. */
  predicate UniqueIds(docs: seq<Document>)
  {
    forall i, j :: 0 <= i < j < |docs| ==> docs[i].id != docs[j].id
  }

  /** `documents.get(id)`. */
  function TextOf(docs: seq<Document>, id: int): (r: Option<string>)
    ensures r.None? <==> id !in Ids(docs)
    ensures r.Some? ==> Document(id, r.value) in docs
    decreases |docs|
  {
    if docs == [] then None
    else if docs[0].id == id then Some(docs[0].text)
    else
      assert Ids(docs) == [docs[0].id] + Ids(docs[1..]);
      TextOf(docs[1..], id)
  }

  /** `documents[id] = text`: replace the text of an existing id in place, else append. */
  function Store(docs: seq<Document>, id: int, text: string): seq<Document>
    decreases |docs|
  {
    if docs == [] then [Document(id, text)]
    else if docs[0].id == id then [Document(id, text)] + docs[1..]
    else [docs[0]] + Store(docs[1..], id, text)
  }

  lemma IdsCons(d: Document, docs: seq<Document>)
    ensures Ids([d] + docs) == [d.id] + Ids(docs)
  {
  }

  /** Assigning a key: a known key keeps its place, a new key goes last. */
  lemma {:induction false} StoreIds(docs: seq<Document>, id: int, text: string)
    ensures Ids(Store(docs, id, text)) == if id in Ids(docs) then Ids(docs) else Ids(docs) + [id]
    decreases |docs|
  {
    if docs == [] {
      assert Ids([Document(id, text)]) == [id];
    } else {
      var d, tail := docs[0], docs[1..];
      assert docs == [d] + tail;
      IdsCons(d, tail);
      if d.id == id {
        IdsCons(Document(id, text), tail);
      } else {
        var rest := Store(tail, id, text);
        StoreIds(tail, id, text);
        IdsCons(d, rest);
        assert (id in Ids(docs)) == (id in Ids(tail));
        if id !in Ids(tail) {
          assert [d.id] + (Ids(tail) + [id]) == ([d.id] + Ids(tail)) + [id];
        }
      }
    }
  }

  /** Assigning a key: the key now maps to the new text and every other key keeps its text. */
  lemma {:induction false} StoreText(docs: seq<Document>, id: int, text: string)
    ensures TextOf(Store(docs, id, text), id) == Some(text)
    ensures forall other :: other != id ==> TextOf(Store(docs, id, text), other) == TextOf(docs, other)
    decreases |docs|
  {
    if docs != [] && docs[0].id != id {
      StoreText(docs[1..], id, text);
      assert Store(docs, id, text)[1..] == Store(docs[1..], id, text);
    } else if docs != [] {
      assert Store(docs, id, text)[1..] == docs[1..];
    }
  }

  /** Assigning a key keeps the keys unique. */
  lemma StoreUnique(docs: seq<Document>, id: int, text: string)
    requires UniqueIds(docs)
    ensures UniqueIds(Store(docs, id, text))
  {
    var r := Store(docs, id, text);
    StoreIds(docs, id, text);
    assert forall k :: 0 <= k < |r| ==> r[k].id == Ids(r)[k];
    if id !in Ids(docs) {
      assert forall k :: 0 <= k < |docs| ==> Ids(r)[k] == docs[k].id;
    }
  }

  // ---------------------------------------------------------------------------------------------
  // `str.strip()`

  function StripLeft(s: string): (r: string)
    decreases |s|
  {
    if s != [] && IsSpace(s[0]) then StripLeft(s[1..]) else s
  }

  function StripRight(s: string): (r: string)
    decreases |s|
  {
    if s != [] && IsSpace(s[|s| - 1]) then StripRight(s[..|s| - 1]) else s
  }

  /** `str.strip()` with no argument: drop leading and trailing whitespace. */
  function Strip(s: string): string
  {
    StripRight(StripLeft(s))
  }

  /** `StripLeft(s)` is `s` without a whitespace-only prefix, and starts with no whitespace. */
  lemma {:induction false} StripLeftSpec(s: string) returns (i: nat)
    ensures i <= |s| && StripLeft(s) == s[i..] && AllSpace(s[..i])
    ensures StripLeft(s) != [] ==> !IsSpace(StripLeft(s)[0])
    decreases |s|
  {
    if s != [] && IsSpace(s[0]) {
      var i' := StripLeftSpec(s[1..]);
      i := i' + 1;
      assert s[1..][i'..] == s[i..];
      forall k | 0 <= k < i ensures IsSpace(s[k]) {
        if k > 0 { assert s[k] == s[1..][..i'][k - 1]; }
      }
    } else {
      i := 0;
    }
  }

  /** `StripRight(s)` is `s` without a whitespace-only suffix, and ends with no whitespace. */
  lemma {:induction false} StripRightSpec(s: string) returns (j: nat)
    ensures j <= |s| && StripRight(s) == s[..j] && AllSpace(s[j..])
    ensures StripRight(s) != [] ==> !IsSpace(StripRight(s)[|StripRight(s)| - 1])
    decreases |s|
  {
    if s != [] && IsSpace(s[|s| - 1]) {
      var s' := s[..|s| - 1];
      j := StripRightSpec(s');
      assert s'[..j] == s[..j];
      forall k | j <= k < |s| ensures IsSpace(s[k]) {
        if k < |s| - 1 { assert s[k] == s'[j..][k - j]; }
      }
    } else {
      j := |s|;
    }
  }

  /**
   * `Strip(s)` is the slice `s[i..j]` left after cutting whitespace-only ends, and it neither
   * starts nor ends with whitespace.
   */
  lemma StripSpec(s: string) returns (i: nat, j: nat)
    ensures i <= j <= |s| && Strip(s) == s[i..j] && AllSpace(s[..i]) && AllSpace(s[j..])
    ensures Strip(s) != [] ==> !IsSpace(Strip(s)[0]) && !IsSpace(Strip(s)[|Strip(s)| - 1])
  {
    i := StripLeftSpec(s);
    var l := s[i..];
    var n := StripRightSpec(l);
    j := i + n;
    assert Strip(s) == l[..n] == s[i..j];
    forall k | j <= k < |s| ensures IsSpace(s[k]) {
      assert s[k] == l[n..][k - j];
    }
    if Strip(s) != [] {
      assert Strip(s)[0] == l[0];
    }
  }

  lemma StripUnchanged(s: string)
    requires s != [] ==> !IsSpace(s[0]) && !IsSpace(s[|s| - 1])
    ensures Strip(s) == s
  {
  }

  lemma StripTrailingSpace(s: string, c: char)
    requires IsSpace(c)
    ensures StripRight(s + [c]) == StripRight(s)
  {
    assert (s + [c])[..|s|] == s;
  }

  // ---------------------------------------------------------------------------------------------
  // `str.split(sep)` with an explicit one-character separator

  /** `s.split(sep)`: the pieces between separators, empty pieces included; never empty. */
  function SplitOn(s: string, sep: char): (fields: seq<string>)
    ensures |fields| >= 1
    decreases |s|
  {
    if s == [] then [[]]
    else
      var rest := SplitOn(s[1..], sep);
      if s[0] == sep then [[]] + rest else [[s[0]] + rest[0]] + rest[1..]
  }

  /** The fields joined back with `sep` in between. */
  function JoinWith(sep: char, fields: seq<string>): string
    requires |fields| >= 1
    decreases |fields|
  {
    if |fields| == 1 then fields[0] else fields[0] + [sep] + JoinWith(sep, fields[1..])
  }

  lemma {:induction false} SplitOnCount(s: string, sep: char)
    ensures |SplitOn(s, sep)| == Count(sep, s) + 1
    decreases |s|
  {
    if s != [] {
      SplitOnCount(s[1..], sep);
      CountAppend(sep, [s[0]], s[1..]);
      assert [s[0]] + s[1..] == s;
    }
  }

  lemma {:induction false} SplitOnFieldsFree(s: string, sep: char)
    ensures forall k :: 0 <= k < |SplitOn(s, sep)| ==> sep !in SplitOn(s, sep)[k]
    decreases |s|
  {
    if s != [] {
      var rest := SplitOn(s[1..], sep);
      SplitOnFieldsFree(s[1..], sep);
      var fields := SplitOn(s, sep);
      if s[0] == sep {
        assert fields[1..] == rest;
      } else {
        assert fields[1..] == rest[1..];
      }
    }
  }

  lemma JoinWithEmptyHead(sep: char, fields: seq<string>)
    requires |fields| >= 1
    ensures JoinWith(sep, [[]] + fields) == [sep] + JoinWith(sep, fields)
  {
    var g := [[]] + fields;
    assert g[0] == [] && g[1..] == fields;
  }

  lemma JoinWithLongerHead(sep: char, c: char, fields: seq<string>)
    requires |fields| >= 1
    ensures JoinWith(sep, [[c] + fields[0]] + fields[1..]) == [c] + JoinWith(sep, fields)
  {
    var g := [[c] + fields[0]] + fields[1..];
    assert g[0] == [c] + fields[0] && g[1..] == fields[1..];
    if |fields| > 1 {
      assert ([c] + fields[0]) + [sep] + JoinWith(sep, fields[1..]) ==
        [c] + (fields[0] + [sep] + JoinWith(sep, fields[1..]));
    }
  }

  lemma {:induction false} SplitOnJoin(s: string, sep: char)
    ensures JoinWith(sep, SplitOn(s, sep)) == s
    decreases |s|
  {
    if s != [] {
      var rest := SplitOn(s[1..], sep);
      SplitOnJoin(s[1..], sep);
      assert [s[0]] + s[1..] == s;
      if s[0] == sep {
        JoinWithEmptyHead(sep, rest);
      } else {
        JoinWithLongerHead(sep, s[0], rest);
      }
    }
  }

  /**
   * There is one field more than there are separators, no field contains the separator, and
   * joining the fields with the separator gives back the text.
   */
  lemma SplitOnSpec(s: string, sep: char)
    ensures |SplitOn(s, sep)| == Count(sep, s) + 1
    ensures forall k :: 0 <= k < |SplitOn(s, sep)| ==> sep !in SplitOn(s, sep)[k]
    ensures JoinWith(sep, SplitOn(s, sep)) == s
  {
    SplitOnCount(s, sep);
    SplitOnFieldsFree(s, sep);
    SplitOnJoin(s, sep);
  }

  /** Two separator-free texts around one separator split into exactly those two fields. */
  lemma {:induction false} SplitOnTwo(a: string, sep: char, b: string)
    requires sep !in a && sep !in b
    ensures SplitOn(a + [sep] + b, sep) == [a, b]
    decreases |a|
  {
    if a == [] {
      assert ([sep] + b)[1..] == b;
      SplitOnSingle(b, sep);
    } else {
      assert (a + [sep] + b)[1..] == a[1..] + [sep] + b;
      SplitOnTwo(a[1..], sep, b);
      assert [a[0]] + a[1..] == a;
    }
  }

  lemma {:induction false} SplitOnSingle(s: string, sep: char)
    requires sep !in s
    ensures SplitOn(s, sep) == [s]
    decreases |s|
  {
    if s != [] {
      SplitOnSingle(s[1..], sep);
      assert [s[0]] + s[1..] == s;
    }
  }

  // ---------------------------------------------------------------------------------------------
  // `int(field)` on a decimal field

  predicate IsDigit(c: char)
  {
    '0' <= c <= '9'
  }

  predicate AllDigits(s: string)
  {
    forall i :: 0 <= i < |s| ==> IsDigit(s[i])
  }

  /** The value of a string of decimal digits, most significant first. */
  function DigitsValue(s: string): nat
    requires AllDigits(s)
    decreases |s|
  {
    if s == [] then 0 else DigitsValue(s[..|s| - 1]) * 10 + (s[|s| - 1] as int - '0' as int)
  }

  /** `int(field)`: surrounding whitespace allowed, an optional sign, then one or more digits. */
  function ParseInt(field: string): Option<int>
  {
    var t := Strip(field);
    if t != [] && (t[0] == '+' || t[0] == '-') then
      if |t| > 1 && AllDigits(t[1..]) then
        var v: int := DigitsValue(t[1..]);
        Some(if t[0] == '-' then -v else v)
      else None
    else if t != [] && AllDigits(t) then Some(DigitsValue(t))
    else None
  }

  /** The decimal digits of `n`, without leading zeros. */
  function Decimal(n: nat): (r: string)
    ensures r != [] && AllDigits(r)
  {
    if n < 10 then [('0' as int + n) as char] else Decimal(n / 10) + [('0' as int + n % 10) as char]
  }

  /** `str(n)`. */
  function FormatInt(n: int): string
  {
    if n < 0 then ['-'] + Decimal(-n) else Decimal(n)
  }

  lemma {:induction false} DecimalValue(n: nat)
    ensures DigitsValue(Decimal(n)) == n
  {
    if n >= 10 {
      DecimalValue(n / 10);
      var d := Decimal(n);
      assert d[..|d| - 1] == Decimal(n / 10);
    }
  }

  /** `int(str(n)) == n`. */
  lemma ParseFormatInt(n: int)
    ensures ParseInt(FormatInt(n)) == Some(n)
  {
    var t := FormatInt(n);
    var m := if n < 0 then -n else n;
    DecimalValue(m);
    assert !IsSpace(t[0]) && !IsSpace(t[|t| - 1]);
    StripUnchanged(t);
    if n < 0 {
      assert t[1..] == Decimal(m);
    }
  }

  lemma DecimalHasNoTab(n: int)
    ensures '\t' !in FormatInt(n)
  {
    var t := FormatInt(n);
    forall k | 0 <= k < |t| ensures t[k] != '\t' {
      if n < 0 && k > 0 {
        assert t[k] == Decimal(-n)[k - 1];
      }
    }
  }

  // ---------------------------------------------------------------------------------------------
  // One dataset line, and the whole dataset

  datatype LineError =
    | FieldCount(found: nat)   // `doc_id, text = ...` unpacked a number of fields other than two
    | InvalidId(field: string) // `int(doc_id)` rejected the id field

  /** `doc_id, text = line.strip().split('\t')` followed by `int(doc_id)`. */
  function ParseLine(line: string): Result<Document, LineError>
  {
    var fields := SplitOn(Strip(line), '\t');
    if |fields| != 2 then Err(FieldCount(|fields|))
    else
      match ParseInt(fields[0])
      case None => Err(InvalidId(fields[0]))
      case Some(id) => Ok(Document(id, fields[1]))
  }

  /**
   * A line is accepted exactly when its stripped form holds one tab and the text before the tab
   * reads as an integer; the document's text is then what follows the tab, and holds no tab.
   */
  lemma ParseLineSpec(line: string)
    ensures ParseLine(line).Ok? <==>
      Count('\t', Strip(line)) == 1 && ParseInt(SplitOn(Strip(line), '\t')[0]).Some?
    ensures ParseLine(line).Err? && ParseLine(line).error.FieldCount? ==>
      ParseLine(line).error.found == Count('\t', Strip(line)) + 1
    ensures ParseLine(line).Ok? ==>
      '\t' !in ParseLine(line).value.text &&
      exists idField :: Strip(line) == idField + ['\t'] + ParseLine(line).value.text &&
        ParseInt(idField) == Some(ParseLine(line).value.id)
  {
    var fields := SplitOn(Strip(line), '\t');
    SplitOnSpec(Strip(line), '\t');
    if |fields| == 2 {
      assert JoinWith('\t', fields[1..]) == fields[1];
    }
  }

  /** The dataset line that holds a document: its id, a tab, its text and a line break. */
  function FormatLine(d: Document): string
  {
    FormatInt(d.id) + ['\t'] + d.text + ['\n']
  }

  /**
   * A document whose text holds no tab and does not end in whitespace (so is not empty) is read
   * back unchanged from its line. Texts outside this shape do not survive `strip()` or the split.
   */
  lemma ParseFormatLine(d: Document)
    requires '\t' !in d.text
    requires d.text != [] && !IsSpace(d.text[|d.text| - 1])
    ensures ParseLine(FormatLine(d)) == Ok(d)
  {
    var body := FormatInt(d.id) + ['\t'] + d.text;
    assert FormatLine(d) == body + ['\n'];
    assert StripLeft(body + ['\n']) == body + ['\n'];
    StripTrailingSpace(body, '\n');
    assert Strip(FormatLine(d)) == body;
    DecimalHasNoTab(d.id);
    SplitOnTwo(FormatInt(d.id), '\t', d.text);
    ParseFormatInt(d.id);
  }

  /** The documents dictionary after reading `lines` in order, or the first line's error. */
  function LoadOf(lines: seq<string>): Result<seq<Document>, LineError>
    decreases |lines|
  {
    if lines == [] then Ok([])
    else
      match LoadOf(lines[..|lines| - 1])
      case Err(e) => Err(e)
      case Ok(docs) =>
        match ParseLine(lines[|lines| - 1])
        case Err(e) => Err(e)
        case Ok(d) => Ok(Store(docs, d.id, d.text))
  }

  /** The body of `load_documents` once the file has been opened: `lines` are its lines. */
  method LoadDocuments(lines: seq<string>) returns (r: Result<seq<Document>, LineError>)
    ensures r == LoadOf(lines)
  {
    var documents: seq<Document> := [];
    for i := 0 to |lines|
      invariant LoadOf(lines[..i]) == Ok(documents)
    {
      assert lines[..i + 1][..i] == lines[..i];
      var parsed := ParseLine(lines[i]);
      if parsed.Err? {
        r := Err(parsed.error);
        LoadOfPrefixError(lines, i + 1);
        return;
      }
      documents := Store(documents, parsed.value.id, parsed.value.text);
    }
    assert lines[..|lines|] == lines;
    r := Ok(documents);
  }

  /** Once a prefix of the lines fails, the whole file fails with the same error. */
  lemma {:induction false} LoadOfPrefixError(lines: seq<string>, n: nat)
    requires n <= |lines| && LoadOf(lines[..n]).Err?
    ensures LoadOf(lines) == LoadOf(lines[..n])
    decreases |lines| - n
  {
    if n < |lines| {
      assert lines[..n + 1][..n] == lines[..n];
      LoadOfPrefixError(lines, n + 1);
    } else {
      assert lines[..n] == lines;
    }
  }

  /** Loading succeeds exactly when every line parses. */
  lemma {:induction false} LoadOfSucceeds(lines: seq<string>)
    ensures LoadOf(lines).Ok? <==> forall i :: 0 <= i < |lines| ==> ParseLine(lines[i]).Ok?
    decreases |lines|
  {
    if lines != [] {
      var pre := lines[..|lines| - 1];
      LoadOfSucceeds(pre);
      assert forall i :: 0 <= i < |pre| ==> pre[i] == lines[i];
    }
  }

  /** A failed load reports the error of the first line that does not parse. */
  lemma {:induction false} LoadOfFirstError(lines: seq<string>)
    requires LoadOf(lines).Err?
    ensures exists i :: 0 <= i < |lines| && ParseLine(lines[i]) == Err(LoadOf(lines).error) &&
                        forall j :: 0 <= j < i ==> ParseLine(lines[j]).Ok?
    decreases |lines|
  {
    var pre := lines[..|lines| - 1];
    assert forall i :: 0 <= i < |pre| ==> pre[i] == lines[i];
    if LoadOf(pre).Err? {
      LoadOfFirstError(pre);
    } else {
      LoadOfSucceeds(pre);
    }
  }

  /** A loaded collection never holds two documents with the same id. */
  lemma {:induction false} LoadOfUnique(lines: seq<string>)
    requires LoadOf(lines).Ok?
    ensures UniqueIds(LoadOf(lines).value)
    decreases |lines|
  {
    if lines != [] {
      var n := |lines| - 1;
      LoadOfUnique(lines[..n]);
      var last := ParseLine(lines[n]).value;
      StoreUnique(LoadOf(lines[..n]).value, last.id, last.text);
    }
  }

  /** A key is present after an assignment exactly when it was present before or is the assigned key. */
  lemma StoreMember(docs: seq<Document>, id: int, text: string, x: int)
    ensures x in Ids(Store(docs, id, text)) <==> x in Ids(docs) || x == id
  {
    StoreIds(docs, id, text);
  }

  /** The ids that the lines assign; a line that does not parse assigns none. */
  function LineIds(lines: seq<string>): set<int>
    decreases |lines|
  {
    if lines == [] then {}
    else
      LineIds(lines[..|lines| - 1]) +
        match ParseLine(lines[|lines| - 1])
        case Ok(d) => {d.id}
        case Err(_) => {}
  }

  lemma {:induction false} LineIdsSpec(lines: seq<string>)
    ensures forall id :: id in LineIds(lines) <==>
      exists i :: 0 <= i < |lines| && ParseLine(lines[i]).Ok? && ParseLine(lines[i]).value.id == id
    decreases |lines|
  {
    if lines != [] {
      var n := |lines| - 1;
      var pre := lines[..n];
      LineIdsSpec(pre);
      forall id ensures id in LineIds(lines) <==>
        exists i :: 0 <= i < |lines| && ParseLine(lines[i]).Ok? && ParseLine(lines[i]).value.id == id
      {
        if id in LineIds(pre) {
          var i :| 0 <= i < |pre| && ParseLine(pre[i]).Ok? && ParseLine(pre[i]).value.id == id;
          assert lines[i] == pre[i];
        } else if id !in LineIds(lines) {
          forall i | 0 <= i < |lines| ensures !(ParseLine(lines[i]).Ok? && ParseLine(lines[i]).value.id == id) {
            if i < n {
              assert lines[i] == pre[i];
            }
          }
        }
      }
    }
  }

  lemma {:induction false} LoadOfIds(lines: seq<string>)
    requires LoadOf(lines).Ok?
    ensures forall id :: id in Ids(LoadOf(lines).value) <==> id in LineIds(lines)
    decreases |lines|
  {
    if lines != [] {
      var n := |lines| - 1;
      LoadOfIds(lines[..n]);
      var docs := LoadOf(lines[..n]).value;
      var last := ParseLine(lines[n]).value;
      assert LoadOf(lines).value == Store(docs, last.id, last.text);
      assert LineIds(lines) == LineIds(lines[..n]) + {last.id};
      forall id ensures id in Ids(LoadOf(lines).value) <==> id in LineIds(lines) {
        StoreMember(docs, last.id, last.text, id);
      }
    }
  }

  /** The ids of a loaded collection are exactly the ids of its lines, and they are unique. */
  lemma LoadOfContents(lines: seq<string>)
    requires LoadOf(lines).Ok?
    ensures UniqueIds(LoadOf(lines).value)
    ensures forall id :: id in Ids(LoadOf(lines).value) <==>
      exists i :: 0 <= i < |lines| && ParseLine(lines[i]).Ok? && ParseLine(lines[i]).value.id == id
  {
    LoadOfUnique(lines);
    LoadOfIds(lines);
    LineIdsSpec(lines);
  }

  /**
   * One more line: its id now maps to its text, every other id keeps its text, and a known id
   * keeps its place while a new id goes last.
   */
  lemma LaterLineOverwrites(lines: seq<string>, line: string)
    requires LoadOf(lines).Ok? && ParseLine(line).Ok?
    ensures LoadOf(lines + [line]).Ok?
    ensures TextOf(LoadOf(lines + [line]).value, ParseLine(line).value.id) == Some(ParseLine(line).value.text)
    ensures forall other :: other != ParseLine(line).value.id ==>
      TextOf(LoadOf(lines + [line]).value, other) == TextOf(LoadOf(lines).value, other)
    ensures Ids(LoadOf(lines + [line]).value) ==
      var id := ParseLine(line).value.id;
      if id in Ids(LoadOf(lines).value) then Ids(LoadOf(lines).value) else Ids(LoadOf(lines).value) + [id]
  {
    assert (lines + [line])[..|lines|] == lines;
    var d := ParseLine(line).value;
    StoreIds(LoadOf(lines).value, d.id, d.text);
    StoreText(LoadOf(lines).value, d.id, d.text);
  }
}
