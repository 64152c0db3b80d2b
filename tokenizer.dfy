/**
 * The tokenization `text.lower().split()` that the index builder applies to every document:
 * fold the text to lower case, then cut it at runs of whitespace, dropping empty pieces.
 * Case folding is ASCII only and whitespace is the fixed set space, tab, line feed, carriage
 * return, vertical tab and form feed.
 */
module Tokenizer {
  import opened SeqUtil

  predicate IsSpace(c: char)
  {
    c == ' ' || c == '\t' || c == '\n' || c == '\r' || c == '\U{B}' || c == '\U{C}'
  }

  predicate IsUpper(c: char)
  {
    'A' <= c <= 'Z'
  }

  /** `str.lower()` on one character; only ASCII capitals change. */
  function LowerChar(c: char): (r: char)
    ensures !IsUpper(r)
    ensures IsSpace(r) <==> IsSpace(c)
    ensures IsUpper(c) ==> r as int == c as int + 32
    ensures !IsUpper(c) ==> r == c
  {
    if IsUpper(c) then (c as int + 32) as char else c
  }

  /** `str.lower()`: every character folded in place. */
  function Lower(s: string): string
  {
    seq(|s|, i requires 0 <= i < |s| => LowerChar(s[i]))
  }

  /** Empty, or made only of whitespace. */
  predicate AllSpace(s: string)
  {
    forall i :: 0 <= i < |s| ==> IsSpace(s[i])
  }

  /** A piece `split()` can produce: non-empty and free of whitespace. */
  predicate IsToken(t: string)
  {
    t != [] && forall i :: 0 <= i < |t| ==> !IsSpace(t[i])
  }

  /** The longest prefix of `s` holding no whitespace. */
  function Word(s: string): (w: string)
    ensures |w| <= |s| && w == s[..|w|]
    ensures forall i :: 0 <= i < |w| ==> !IsSpace(w[i])
    ensures |w| < |s| ==> IsSpace(s[|w|])
    decreases |s|
  {
    if s == [] || IsSpace(s[0]) then [] else [s[0]] + Word(s[1..])
  }

  /** `str.split()` with no separator: the maximal whitespace-free pieces, left to right. */
  function Split(s: string): seq<string>
    decreases |s|
  {
    if s == [] then []
    else if IsSpace(s[0]) then Split(s[1..])
    else
      var w := Word(s);
      [w] + Split(s[|w|..])
  }

  /** `text.lower().split()`. */
  function Tokenize(text: string): seq<string>
  {
    Split(Lower(text))
  }

  /** Every piece of `Split(s)` is a token made of characters of `s`. */
  lemma {:induction false} SplitYieldsTokens(s: string)
    ensures forall t :: t in Split(s) ==> IsToken(t)
    ensures forall t, c :: t in Split(s) && c in t ==> c in s
    decreases |s|
  {
    if s == [] {
    } else if IsSpace(s[0]) {
      SplitYieldsTokens(s[1..]);
    } else {
      var w := Word(s);
      SplitYieldsTokens(s[|w|..]);
      forall c | c in w ensures c in s {
        var i :| 0 <= i < |w| && w[i] == c;
        assert s[i] == c;
      }
    }
  }

  /** A token splits into itself. */
  lemma {:induction false} SplitToken(t: string)
    requires IsToken(t)
    ensures Split(t) == [t]
  {
    WordOfSpaceFree(t);
    assert t[|t|..] == [];
  }

  lemma {:induction false} WordOfSpaceFree(t: string)
    requires forall i :: 0 <= i < |t| ==> !IsSpace(t[i])
    ensures Word(t) == t
    decreases |t|
  {
    if t != [] {
      WordOfSpaceFree(t[1..]);
    }
  }

  /** Text made only of whitespace, and only such text, yields no pieces. */
  lemma {:induction false} SplitBlank(s: string)
    ensures Split(s) == [] <==> AllSpace(s)
    decreases |s|
  {
    if s != [] {
      if IsSpace(s[0]) {
        SplitBlank(s[1..]);
        if Split(s) == [] {
          forall i | 0 <= i < |s| ensures IsSpace(s[i]) {
            if i > 0 { assert s[i] == s[1..][i - 1]; }
          }
        } else {
          var j :| 0 <= j < |s[1..]| && !IsSpace(s[1..][j]);
          assert !IsSpace(s[j + 1]);
        }
      }
    }
  }

  /** A whitespace character separates: the pieces on its two sides are independent. */
  lemma {:induction false} SplitSeparator(a: string, c: char, b: string)
    requires IsSpace(c)
    ensures Split(a + [c] + b) == Split(a) + Split(b)
    decreases |a|
  {
    var s := a + [c] + b;
    if a == [] {
      assert s[1..] == b;
    } else if IsSpace(a[0]) {
      assert s[1..] == a[1..] + [c] + b;
      SplitSeparator(a[1..], c, b);
    } else {
      var w := Word(a);
      WordBeforeSpace(a, c, b);
      assert s[|w|..] == a[|w|..] + [c] + b;
      SplitSeparator(a[|w|..], c, b);
    }
  }

  lemma {:induction false} WordBeforeSpace(a: string, c: char, b: string)
    requires IsSpace(c)
    ensures Word(a + [c] + b) == Word(a)
    decreases |a|
  {
    var s := a + [c] + b;
    if a == [] {
    } else if !IsSpace(a[0]) {
      assert s[1..] == a[1..] + [c] + b;
      WordBeforeSpace(a[1..], c, b);
    }
  }

  /** The pieces, put back together, are exactly the non-whitespace characters of `s`. */
  function NonSpace(s: string): (r: string)
    decreases |s|
  {
    if s == [] then [] else (if IsSpace(s[0]) then [] else [s[0]]) + NonSpace(s[1..])
  }

  lemma {:induction false} SplitKeepsNonSpace(s: string)
    ensures Flatten(Split(s)) == NonSpace(s)
    decreases |s|
  {
    if s == [] {
    } else if IsSpace(s[0]) {
      SplitKeepsNonSpace(s[1..]);
    } else {
      var w := Word(s);
      SplitKeepsNonSpace(s[|w|..]);
      assert Split(s)[1..] == Split(s[|w|..]);
      NonSpaceAppend(w, s[|w|..]);
      assert s == w + s[|w|..];
      WordNonSpace(w);
    }
  }

  lemma {:induction false} NonSpaceAppend(a: string, b: string)
    ensures NonSpace(a + b) == NonSpace(a) + NonSpace(b)
    decreases |a|
  {
    if a != [] {
      assert (a + b)[0] == a[0] && (a + b)[1..] == a[1..] + b;
      NonSpaceAppend(a[1..], b);
    } else {
      assert a + b == b;
    }
  }

  lemma {:induction false} WordNonSpace(w: string)
    requires forall i :: 0 <= i < |w| ==> !IsSpace(w[i])
    ensures NonSpace(w) == w
    decreases |w|
  {
    if w != [] {
      WordNonSpace(w[1..]);
    }
  }

  /** `' '.join(ws)`. */
  function Unwords(ws: seq<string>): string
    decreases |ws|
  {
    if ws == [] then [] else if |ws| == 1 then ws[0] else ws[0] + [' '] + Unwords(ws[1..])
  }

  /** Splitting tokens joined by single spaces gives the tokens back. */
  lemma {:induction false} SplitUnwords(ws: seq<string>)
    requires forall t :: t in ws ==> IsToken(t)
    ensures Split(Unwords(ws)) == ws
    decreases |ws|
  {
    if |ws| == 1 {
      SplitToken(ws[0]);
    } else if |ws| > 1 {
      SplitToken(ws[0]);
      SplitUnwords(ws[1..]);
      SplitSeparator(ws[0], ' ', Unwords(ws[1..]));
    }
  }

  /** Every string of `ws` folded to lower case. */
  function LowerAll(ws: seq<string>): seq<string>
  {
    seq(|ws|, i requires 0 <= i < |ws| => Lower(ws[i]))
  }

  lemma {:induction false} WordLower(s: string)
    ensures Word(Lower(s)) == Lower(Word(s))
    decreases |s|
  {
    if s != [] && !IsSpace(s[0]) {
      assert Lower(s)[1..] == Lower(s[1..]);
      WordLower(s[1..]);
      assert Lower([s[0]] + Word(s[1..])) == [LowerChar(s[0])] + Lower(Word(s[1..]));
    }
  }

  /**
   * Folding case never moves a whitespace boundary: lower-casing then splitting is splitting then
   * lower-casing every piece.
   */
  lemma {:induction false} SplitLower(s: string)
    ensures Split(Lower(s)) == LowerAll(Split(s))
    decreases |s|
  {
    if s == [] {
      assert Lower(s) == [];
    } else if IsSpace(s[0]) {
      assert Lower(s)[1..] == Lower(s[1..]);
      SplitLower(s[1..]);
    } else {
      var w := Word(s);
      WordLower(s);
      assert Lower(s)[|w|..] == Lower(s[|w|..]);
      SplitLower(s[|w|..]);
      assert LowerAll([w] + Split(s[|w|..])) == [Lower(w)] + LowerAll(Split(s[|w|..]));
    }
  }

  /** Tokens are non-empty, hold no whitespace and are already lower case. */
  lemma TokenizeYieldsLowerTokens(text: string)
    ensures forall t :: t in Tokenize(text) ==> IsToken(t)
    ensures forall t, i :: t in Tokenize(text) && 0 <= i < |t| ==> !IsUpper(t[i])
  {
    SplitYieldsTokens(Lower(text));
    forall t, i | t in Tokenize(text) && 0 <= i < |t| ensures !IsUpper(t[i]) {
      assert t[i] in t;
    }
  }

  /** Empty or all-whitespace text, and only such text, yields no tokens. */
  lemma TokenizeBlank(text: string)
    ensures Tokenize(text) == [] <==> AllSpace(text)
  {
    var s := Lower(text);
    SplitBlank(s);
    assert forall i :: 0 <= i < |text| ==> (IsSpace(s[i]) <==> IsSpace(text[i]));
  }

  /** Folding text that is already lower case changes nothing. */
  lemma LowerOfLowercase(s: string)
    requires forall i :: 0 <= i < |s| ==> !IsUpper(s[i])
    ensures Lower(s) == s
  {
  }

  /** A lower-case token tokenizes to itself, and a capitalized word to its folded form. */
  lemma {:induction false} TokenizeWord(t: string)
    requires IsToken(t)
    ensures Tokenize(t) == [Lower(t)]
  {
    SplitToken(Lower(t));
  }
}
