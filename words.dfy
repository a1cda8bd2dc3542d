/**
 * Turning the user's text into a code: splitting it into upper-cased words,
 * removing repeated words while keeping first occurrences, checking that all
 * words have one length, and deriving the sorted alphabet (app.py, lines 8-36).
 */
module Words {
  import opened Wrappers
  import opened Strings

  // ---------------------------------------------------------------------------
  // unique_preserve_order
  // ---------------------------------------------------------------------------

  /** The elements of `xs` without repetitions, each kept where it first occurs. */
  function Dedup<T(==)>(xs: seq<T>): seq<T>
    decreases |xs|
  {
    if |xs| == 0 then []
    else
      var d := Dedup(xs[..|xs| - 1]);
      if xs[|xs| - 1] in d then d else d + [xs[|xs| - 1]]
  }

  /** Elements of `out` appear in the order of their first occurrence in `xs`:
      wherever the later one occurs in `xs`, the earlier one has occurred before. */
  ghost predicate FirstOccurrenceOrder<T>(xs: seq<T>, out: seq<T>) {
    forall i, j, k :: 0 <= i < j < |out| && 0 <= k < |xs| && xs[k] == out[j] ==> out[i] in xs[..k]
  }

  /** Dedup leaves no duplicates, loses and invents nothing, and keeps the order
      of first occurrences. */
  lemma {:induction false} DedupCorrect<T>(xs: seq<T>)
    ensures NoDuplicates(Dedup(xs))
    ensures forall y :: y in Dedup(xs) ==> y in xs
    ensures forall y :: y in xs ==> y in Dedup(xs)
    ensures FirstOccurrenceOrder(xs, Dedup(xs))
    decreases |xs|
  {
    if |xs| > 0 {
      var p, x := xs[..|xs| - 1], xs[|xs| - 1];
      assert xs == p + [x];
      DedupCorrect(p);
      var dp := Dedup(p);
      var d := Dedup(xs);
      forall y ensures y in xs <==> y in p || y == x {
        assert y in xs <==> y in multiset(xs);
      }
      assert d == if x in dp then dp else dp + [x];
      forall i, j, k | 0 <= i < j < |d| && 0 <= k < |xs| && xs[k] == d[j]
        ensures d[i] in xs[..k]
      {
        if k < |p| {
          assert xs[..k] == p[..k];
          assert xs[k] == p[k];
          assert p[k] in p;
          assert d[j] in dp;
          assert j < |dp|;
          assert d[i] == dp[i] && d[j] == dp[j];
          assert FirstOccurrenceOrder(p, dp);
        } else {
          assert i < |dp|;
          assert d[i] == dp[i];
          assert dp[i] in dp;
          assert xs[..k] == p;
        }
      }
    }
  }

  /** unique_preserve_order: a loop over the input with a `seen` set. */
  method UniquePreserveOrder<T(==)>(xs: seq<T>) returns (out: seq<T>)
    ensures out == Dedup(xs)
    ensures NoDuplicates(out)
    ensures forall y :: y in out <==> y in xs
    ensures FirstOccurrenceOrder(xs, out)
  {
    var seen: set<T> := {};
    out := [];
    for k := 0 to |xs|
      invariant out == Dedup(xs[..k])
      invariant forall y :: y in seen <==> y in out
    {
      assert xs[..k + 1][..k] == xs[..k];
      if xs[k] !in seen {
        seen := seen + {xs[k]};
        out := out + [xs[k]];
      }
    }
    assert xs[..|xs|] == xs;
    DedupCorrect(xs);
  }

  // ---------------------------------------------------------------------------
  // parse_words
  // ---------------------------------------------------------------------------

  /** The characters parse_words turns into spaces before splitting. */
  const Separators: seq<char> := [',', '\n', '\r', '\t']

  /** `s.replace(from, to)` for single characters. */
  function ReplaceChar(s: string, from: char, to: char): (r: string)
    ensures |r| == |s|
    ensures forall i :: 0 <= i < |s| ==> r[i] == if s[i] == from then to else s[i]
  {
    seq(|s|, i requires 0 <= i < |s| => if s[i] == from then to else s[i])
  }

  /** The text with every separator replaced by a space. */
  function Normalize(text: string): (r: string)
    ensures |r| == |text|
    ensures forall i :: 0 <= i < |text| ==> r[i] == if text[i] in Separators then ' ' else text[i]
  {
    seq(|text|, i requires 0 <= i < |text| => if text[i] in Separators then ' ' else text[i])
  }

  /** `[w.strip().upper() for w in pieces if w.strip()]` */
  function CleanPieces(pieces: seq<string>): seq<string> {
    if |pieces| == 0 then []
    else
      var w := Strip(pieces[0]);
      (if w != "" then [Upper(w)] else []) + CleanPieces(pieces[1..])
  }

  /** What parse_words returns for `text`. */
  function WordsOf(text: string): seq<string> {
    if text == "" then [] else CleanPieces(Split(Normalize(text), ' '))
  }

  /** A word as parse_words hands it on: non-empty, without ASCII lower-case
      letters and without separators or spaces. */
  predicate IsParsedWord(w: string) {
    w != "" && forall c :: c in w ==> !IsLowerAscii(c) && c !in Separators && c != ' '
  }

  /** No separator and no space occurs in `s`. */
  predicate SeparatorFree(s: string) {
    forall c :: c in s ==> c !in Separators && c != ' '
  }

  lemma UpperCharParsed(d: char)
    ensures !IsLowerAscii(UpperChar(d))
    ensures d !in Separators && d != ' ' ==> UpperChar(d) !in Separators && UpperChar(d) != ' '
  {
  }

  lemma {:induction false} CleanPiecesParsed(pieces: seq<string>)
    requires forall p :: p in pieces ==> SeparatorFree(p)
    ensures forall w :: w in CleanPieces(pieces) ==> IsParsedWord(w)
    decreases |pieces|
  {
    if |pieces| > 0 {
      var rest := pieces[1..];
      assert forall p :: p in rest ==> p in pieces;
      CleanPiecesParsed(rest);
      var w := Strip(pieces[0]);
      StripMembers(pieces[0]);
      assert pieces[0] in pieces;
      assert SeparatorFree(pieces[0]);
      if w != "" {
        var u := Upper(w);
        forall c | c in u ensures !IsLowerAscii(c) && c !in Separators && c != ' ' {
          var i :| 0 <= i < |u| && u[i] == c;
          assert w[i] in w;
          assert w[i] in pieces[0];
          UpperCharParsed(w[i]);
        }
        assert IsParsedWord(u);
      }
      assert CleanPieces(pieces) == (if w != "" then [Upper(w)] else []) + CleanPieces(rest);
    }
  }

  lemma {:induction false} SplitPiecesFrom(s: string, sep: char)
    ensures forall p, c :: p in Split(s, sep) && c in p ==> c in s
    decreases |s|
  {
    if |s| > 0 {
      SplitPiecesFrom(s[1..], sep);
      var rest := Split(s[1..], sep);
      forall p, c | p in Split(s, sep) && c in p ensures c in s {
        if p in rest[1..] {
          assert p in rest;
        } else if s[0] != sep && p == [s[0]] + rest[0] {
          assert rest[0] in rest;
        } else {
          assert p in rest;
        }
      }
    }
  }

  /** Every word parse_words returns is non-empty, upper-case and free of
      commas, newlines, carriage returns, tabs and spaces. */
  lemma WordsOfParsed(text: string)
    ensures forall w :: w in WordsOf(text) ==> IsParsedWord(w)
  {
    if text != "" {
      var t := Normalize(text);
      SplitPiecesFrom(t, ' ');
      forall c | c in t ensures c !in Separators {
        var i :| 0 <= i < |t| && t[i] == c;
      }
      forall p | p in Split(t, ' ') ensures SeparatorFree(p) {
        assert forall c :: c in p ==> c in t;
      }
      CleanPiecesParsed(Split(t, ' '));
    }
  }

  /** parse_words: the separators are replaced one after the other, then the
      text is split on spaces and the pieces are stripped and upper-cased. */
  method ParseWords(text: string) returns (words: seq<string>)
    ensures words == WordsOf(text)
    ensures text == "" ==> words == []
    ensures forall w :: w in words ==> IsParsedWord(w)
  {
    WordsOfParsed(text);
    if text == "" {
      return [];
    }
    var t := text;
    for k := 0 to |Separators|
      invariant |t| == |text|
      invariant forall i :: 0 <= i < |t| ==> t[i] == if text[i] in Separators[..k] then ' ' else text[i]
    {
      t := ReplaceChar(t, Separators[k], ' ');
    }
    assert Separators[..|Separators|] == Separators;
    assert t == Normalize(text);
    words := CleanPieces(Split(t, ' '));
  }

  lemma {:induction false} JoinChars(parts: seq<string>, sep: string, c: char)
    requires c in Join(parts, sep)
    ensures c in sep || exists p :: p in parts && c in p
    decreases |parts|
  {
    if |parts| > 1 {
      var tail := Join(parts[1..], sep);
      if c in tail {
        JoinChars(parts[1..], sep, c);
        if !(c in sep) {
          var p :| p in parts[1..] && c in p;
          assert p in parts;
        }
      } else {
        assert c in parts[0] + sep;
      }
    }
  }

  /** Words that are already clean, written with single spaces between them,
      parse back to exactly those words. */
  lemma ParseJoinedWords(tokens: seq<string>)
    requires forall t :: t in tokens ==> t != "" && forall c :: c in t ==> !IsSpace(c) && c != ',' && !IsLowerAscii(c)
    ensures WordsOf(Join(tokens, " ")) == tokens
  {
    var text := Join(tokens, " ");
    if |tokens| == 0 {
    } else {
      assert text != "" by {
        assert tokens[0] in tokens;
        if |tokens| == 1 {
          assert text == tokens[0];
        } else {
          assert text == tokens[0] + " " + Join(tokens[1..], " ");
        }
      }
      assert Normalize(text) == text by {
        forall i | 0 <= i < |text| ensures text[i] !in Separators {
          assert text[i] in text;
          JoinChars(tokens, " ", text[i]);
        }
      }
      assert forall t :: t in tokens ==> ' ' !in t;
      SplitJoin(tokens, ' ');
      forall t | t in tokens ensures IsCleanToken(t) { }
      CleanTokens(tokens);
    }
  }

  /** A word parse_words keeps as it is. */
  predicate IsCleanToken(t: string) {
    t != "" && forall c :: c in t ==> !IsSpace(c) && !IsLowerAscii(c)
  }

  lemma CleanTokenKept(t: string)
    requires IsCleanToken(t)
    ensures Strip(t) == t && Upper(t) == t
  {
    assert Strip(t) == t;
    forall i | 0 <= i < |t| ensures Upper(t)[i] == t[i] {
      assert t[i] in t;
    }
  }

  lemma {:induction false} CleanTokens(tokens: seq<string>)
    requires forall t :: t in tokens ==> IsCleanToken(t)
    ensures CleanPieces(tokens) == tokens
    decreases |tokens|
  {
    if |tokens| > 0 {
      var t, rest := tokens[0], tokens[1..];
      assert t in tokens;
      CleanTokenKept(t);
      assert forall u :: u in rest ==> u in tokens;
      CleanTokens(rest);
      assert CleanPieces(tokens) == [t] + CleanPieces(rest);
      assert [t] + rest == tokens;
    }
  }

  // ---------------------------------------------------------------------------
  // verify_uniform_and_metadata
  // ---------------------------------------------------------------------------

  /** A code after validation: its distinct words in first-seen order, the
      common word length and the sorted alphabet. */
  datatype CodeMetadata = CodeMetadata(words: seq<string>, n: nat, alphabet: seq<char>)

  /** The two ValueErrors raised by verify_uniform_and_metadata; the second
      carries the set of word lengths it reports. */
  datatype VerifyError = NoWords | MixedLengths(lengths: set<nat>)

  function Lengths(words: seq<string>): set<nat> {
    set w | w in words :: |w|
  }

  predicate Uniform(words: seq<string>, n: nat) {
    forall w :: w in words ==> |w| == n
  }

  predicate CharLess(a: char, b: char) {
    a < b
  }

  lemma CharLessTotal()
    ensures Total(CharLess)
  {
  }

  lemma UniformIffOneLength(words: seq<string>)
    requires words != []
    ensures |Lengths(words)| == 1 <==> Uniform(words, |words[0]|)
  {
    var n := |words[0]|;
    assert words[0] in words;
    if Uniform(words, n) {
      assert Lengths(words) == {n};
    } else {
      var w :| w in words && |w| != n;
      assert {n, |w|} <= Lengths(words);
      assert |{n, |w|}| == 2;
      SubsetCard({n, |w|}, Lengths(words));
    }
  }

  lemma SubsetCard<T>(a: set<T>, b: set<T>)
    requires a <= b
    ensures |a| <= |b|
  {
    assert b == a + (b - a);
  }

  lemma {:induction false} JoinEmptyChars(ws: seq<string>, c: char)
    ensures c in Join(ws, "") <==> exists w :: w in ws && c in w
    decreases |ws|
  {
    if |ws| > 1 {
      JoinEmptyChars(ws[1..], c);
      assert Join(ws, "") == ws[0] + Join(ws[1..], "");
      if c in ws[0] {
        assert ws[0] in ws;
      }
      forall w | w in ws[1..] ensures w in ws { }
      if exists w :: w in ws && c in w {
        var w :| w in ws && c in w;
        if w != ws[0] {
          assert w in ws[1..];
        }
      }
    } else if |ws| == 1 {
      assert Join(ws, "") == ws[0];
    }
  }

  /** verify_uniform_and_metadata: rejects an empty list and words of
      different lengths; otherwise returns the distinct words in first-seen
      order, their length and the sorted set of their characters. */
  function VerifyUniformAndMetadata(words: seq<string>): (r: Result<CodeMetadata, VerifyError>)
    ensures r == Failure(NoWords) <==> words == []
    ensures r.Success? <==> words != [] && Uniform(words, |words[0]|)
    ensures r.Failure? && r.error.MixedLengths? ==>
              r.error.lengths == Lengths(words) && |r.error.lengths| > 1
    ensures r.Success? ==>
              var m := r.value;
              && m.n == |words[0]|
              && Uniform(m.words, m.n)
              && NoDuplicates(m.words)
              && (forall w :: w in m.words <==> w in words)
              && FirstOccurrenceOrder(words, m.words)
              && Sorted(m.alphabet, CharLess)
              && NoDuplicates(m.alphabet)
              && (forall c :: c in m.alphabet <==> exists w :: w in words && c in w)
  {
    if words == [] then Failure(NoWords)
    else
      var lens := Lengths(words);
      UniformIffOneLength(words);
      if |lens| != 1 then
        assert |lens| != 0 by { assert |words[0]| in lens; }
        Failure(MixedLengths(lens))
      else
        var unique := Dedup(words);
        DedupCorrect(words);
        var joined := Join(unique, "");
        var alphabet := SortedDistinct(joined, CharLess);
        CharLessTotal();
        SortedDistinctCorrect(joined, CharLess);
        assert forall c :: c in alphabet <==> exists w :: w in words && c in w by {
          forall c ensures c in alphabet <==> exists w :: w in words && c in w {
            JoinEmptyChars(unique, c);
          }
        }
        Success(CodeMetadata(unique, |words[0]|, alphabet))
  }
}
