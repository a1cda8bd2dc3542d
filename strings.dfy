/**
 * The Python and JavaScript built-ins the analyser and the client lean on, on
 * `seq<char>` strings: `str.split(sep)`, `sep.join(...)`, `str.strip()`,
 * `str.upper()` (ASCII letters only), decimal rendering of integers, string
 * concatenation, the ordering `sorted()` uses, and a sorted insertion that
 * builds `sorted(set(...))`.
 */
module Strings {

  /** No element occurs twice. */
  predicate NoDuplicates<T(==)>(s: seq<T>) {
    forall i, j :: 0 <= i < j < |s| ==> s[i] != s[j]
  }

  // ---------------------------------------------------------------------------
  // str.split(sep) and sep.join(parts)
  // ---------------------------------------------------------------------------

  /** Python's `s.split(sep)` for a one-character separator: the pieces between
      separators, empty pieces included, and always at least one piece. */
  function Split(s: string, sep: char): (parts: seq<string>)
    ensures |parts| > 0
    ensures forall p :: p in parts ==> sep !in p
    decreases |s|
  {
    if |s| == 0 then [""]
    else if s[0] == sep then [""] + Split(s[1..], sep)
    else
      var rest := Split(s[1..], sep);
      [[s[0]] + rest[0]] + rest[1..]
  }

  /** Python's `sep.join(parts)`. */
  function Join(parts: seq<string>, sep: string): string {
    if |parts| == 0 then ""
    else if |parts| == 1 then parts[0]
    else parts[0] + sep + Join(parts[1..], sep)
  }

  /** Joining the pieces of a split with the separator gives back the text. */
  lemma {:induction false} JoinSplit(s: string, sep: char)
    ensures Join(Split(s, sep), [sep]) == s
    decreases |s|
  {
    if |s| > 0 {
      var rest := Split(s[1..], sep);
      JoinSplit(s[1..], sep);
      assert s == [s[0]] + s[1..];
      var parts := Split(s, sep);
      if s[0] == sep {
        assert parts == [""] + rest;
        assert parts[1..] == rest;
        if |rest| == 1 {
          assert Join(parts, [sep]) == "" + [sep] + Join(rest, [sep]);
        } else {
          assert Join(parts, [sep]) == "" + [sep] + Join(parts[1..], [sep]);
        }
      } else {
        assert parts == [[s[0]] + rest[0]] + rest[1..];
        if |rest| == 1 {
          assert Join(parts, [sep]) == parts[0];
          assert Join(rest, [sep]) == rest[0];
        } else {
          assert parts[1..] == rest[1..];
          assert Join(parts, [sep]) == parts[0] + [sep] + Join(rest[1..], [sep]);
          assert Join(rest, [sep]) == rest[0] + [sep] + Join(rest[1..], [sep]);
        }
      }
    }
  }

  /** Splitting a join of separator-free pieces gives back the pieces. */
  lemma SplitCons(c: char, s: string, sep: char)
    requires c != sep
    ensures Split([c] + s, sep) == [[c] + Split(s, sep)[0]] + Split(s, sep)[1..]
  {
    assert ([c] + s)[1..] == s;
  }

  lemma SplitSepCons(s: string, sep: char)
    ensures Split([sep] + s, sep) == [""] + Split(s, sep)
  {
    assert ([sep] + s)[1..] == s;
  }

  lemma JoinFirstChar(c: char, parts: seq<string>, sep: string)
    requires |parts| > 0
    ensures Join([[c] + parts[0]] + parts[1..], sep) == [c] + Join(parts, sep)
  {
    var ps := [[c] + parts[0]] + parts[1..];
    assert ps[1..] == parts[1..];
  }

  /** Dropping the first character of the first part keeps every part free
      of the separator. */
  lemma DropFirstChar(parts: seq<string>, sep: char)
    requires |parts| > 0 && |parts[0]| > 0
    requires forall p :: p in parts ==> sep !in p
    ensures forall p :: p in [parts[0][1..]] + parts[1..] ==> sep !in p
  {
    var shorter := [parts[0][1..]] + parts[1..];
    forall p | p in shorter ensures sep !in p {
      if p == parts[0][1..] {
        assert parts[0] in parts;
        forall k | 0 <= k < |p| ensures p[k] != sep {
          assert p[k] == parts[0][k + 1];
          assert parts[0][k + 1] in parts[0];
        }
      } else {
        assert p in parts[1..];
        assert p in parts;
      }
    }
  }

  lemma {:induction false} SplitJoin(parts: seq<string>, sep: char)
    requires |parts| > 0
    requires forall p :: p in parts ==> sep !in p
    ensures Split(Join(parts, [sep]), sep) == parts
    decreases |parts|, |parts[0]|
  {
    if |parts| == 1 {
      SplitWithout(parts[0], sep);
    } else if |parts[0]| == 0 {
      var tail := parts[1..];
      SplitJoin(tail, sep);
      assert Join(parts, [sep]) == [sep] + Join(tail, [sep]);
      SplitSepCons(Join(tail, [sep]), sep);
      assert [""] + tail == parts;
    } else {
      var c := parts[0][0];
      var shorter := [parts[0][1..]] + parts[1..];
      DropFirstChar(parts, sep);
      SplitJoin(shorter, sep);
      assert c != sep by { assert c in parts[0]; }
      assert shorter[1..] == parts[1..];
      assert [c] + shorter[0] == parts[0];
      assert parts == [[c] + shorter[0]] + shorter[1..];
      JoinFirstChar(c, shorter, [sep]);
      SplitCons(c, Join(shorter, [sep]), sep);
    }
  }


  lemma {:induction false} SplitWithout(s: string, sep: char)
    requires sep !in s
    ensures Split(s, sep) == [s]
    decreases |s|
  {
    if |s| > 0 {
      assert s[0] != sep;
      assert sep !in s[1..];
      SplitWithout(s[1..], sep);
      assert [s[0]] + s[1..] == s;
    }
  }

  // ---------------------------------------------------------------------------
  // str.strip() and str.upper()
  // ---------------------------------------------------------------------------

  /** The characters Python's `str.isspace()` accepts, which `str.strip()` removes. */
  predicate IsSpace(c: char) {
    c == ' ' || ('\t' <= c <= '\r') || ('\U{1C}' <= c <= '\U{1F}') ||
    c == '\U{85}' || c == '\U{A0}' || c == '\U{1680}' ||
    ('\U{2000}' <= c <= '\U{200A}') || c == '\U{2028}' || c == '\U{2029}' ||
    c == '\U{202F}' || c == '\U{205F}' || c == '\U{3000}'
  }

  /** The first position at or after `i` that does not hold white space
      (`|s|` when there is none). */
  function SpaceEnd(s: string, i: nat): (k: nat)
    requires i <= |s|
    ensures i <= k <= |s|
    ensures forall m :: i <= m < k ==> IsSpace(s[m])
    ensures k == |s| || !IsSpace(s[k])
    decreases |s| - i
  {
    if i < |s| && IsSpace(s[i]) then SpaceEnd(s, i + 1) else i
  }

  /** The position just after the last character before `j` that does not
      hold white space, not going below `lo`. */
  function SpaceStart(s: string, lo: nat, j: nat): (k: nat)
    requires lo <= j <= |s|
    ensures lo <= k <= j
    ensures forall m :: k <= m < j ==> IsSpace(s[m])
    ensures k == lo || !IsSpace(s[k - 1])
    decreases j - lo
  {
    if j > lo && IsSpace(s[j - 1]) then SpaceStart(s, lo, j - 1) else j
  }

  /** Python's `s.strip()`: `s` without its leading and trailing white
      space, all of `s` when it has none. */
  function Strip(s: string): (r: string)
    ensures r == [] || (!IsSpace(r[0]) && !IsSpace(r[|r| - 1]))
    ensures (forall c :: c in s ==> !IsSpace(c)) ==> r == s
  {
    var i := SpaceEnd(s, 0);
    var j := SpaceStart(s, i, |s|);
    assert (forall c :: c in s ==> !IsSpace(c)) ==> i == 0 && j == |s| && s[i..j] == s by {
      if forall c :: c in s ==> !IsSpace(c) {
        assert |s| > 0 ==> s[0] in s;
        assert |s| > 0 ==> s[|s| - 1] in s;
      }
    }
    s[i..j]
  }

  /** What `strip` keeps is a contiguous piece of its argument, and what it
      drops before and after that piece is all white space. */
  lemma StripWithin(s: string) returns (i: nat)
    ensures i + |Strip(s)| <= |s| && Strip(s) == s[i..i + |Strip(s)|]
    ensures forall k :: 0 <= k < i ==> IsSpace(s[k])
    ensures forall k :: i + |Strip(s)| <= k < |s| ==> IsSpace(s[k])
  {
    i := SpaceEnd(s, 0);
    var j := SpaceStart(s, i, |s|);
    assert Strip(s) == s[i..j];
  }

  /** Every character `strip` keeps occurs in its argument. */
  lemma StripMembers(s: string)
    ensures forall c :: c in Strip(s) ==> c in s
  {
    var i := StripWithin(s);
    var r := Strip(s);
    forall c | c in r ensures c in s {
      var k :| 0 <= k < |r| && r[k] == c;
      assert s[i + k] == c;
    }
  }

  predicate IsLowerAscii(c: char) {
    'a' <= c <= 'z'
  }

  function UpperChar(c: char): char {
    if IsLowerAscii(c) then (c as int - 'a' as int + 'A' as int) as char else c
  }

  /** `s.upper()` restricted to ASCII: lower-case letters become capitals,
      every other character is kept. */
  function Upper(s: string): (r: string)
    ensures |r| == |s|
    ensures forall i :: 0 <= i < |s| ==> r[i] == UpperChar(s[i])
  {
    seq(|s|, i requires 0 <= i < |s| => UpperChar(s[i]))
  }

  // ---------------------------------------------------------------------------
  // Decimal rendering of naturals (f-strings and template literals)
  // ---------------------------------------------------------------------------

  function Digit(d: nat): char
    requires d < 10
  {
    ('0' as int + d) as char
  }

  function NatToString(n: nat): (s: string)
    ensures |s| > 0
    ensures n < 10 <==> |s| == 1
    decreases n
  {
    if n < 10 then [Digit(n)] else NatToString(n / 10) + [Digit(n % 10)]
  }

  /** Different numbers render differently. */
  lemma {:induction false} NatToStringInjective(a: nat, b: nat)
    requires NatToString(a) == NatToString(b)
    ensures a == b
    decreases a
  {
    if a >= 10 && b >= 10 {
      var sa, sb := NatToString(a), NatToString(b);
      assert sa[|sa| - 1] == Digit(a % 10) && sb[|sb| - 1] == Digit(b % 10);
      assert sa[..|sa| - 1] == NatToString(a / 10);
      assert sb[..|sb| - 1] == NatToString(b / 10);
      NatToStringInjective(a / 10, b / 10);
    }
  }

  // ---------------------------------------------------------------------------
  // Concatenation of pieces (a string built by repeated `+=`)
  // ---------------------------------------------------------------------------

  function Concat(pieces: seq<string>): string {
    if |pieces| == 0 then "" else Concat(pieces[..|pieces| - 1]) + pieces[|pieces| - 1]
  }

  // ---------------------------------------------------------------------------
  // Ordering and sorted insertion (Python's `sorted`)
  // ---------------------------------------------------------------------------

  /** `less` orders any two different values one way or the other. */
  ghost predicate Total<T(!new)>(less: (T, T) -> bool) {
    forall a, b :: a != b ==> less(a, b) || less(b, a)
  }

  /** Each element is below its successor. */
  predicate Sorted<T>(s: seq<T>, less: (T, T) -> bool) {
    forall i :: 0 <= i < |s| - 1 ==> less(s[i], s[i + 1])
  }

  /** Python's `<` on strings: code-point lexicographic order. */
  predicate LexLess(a: string, b: string)
    decreases |a|
  {
    if |a| == 0 then |b| > 0
    else if |b| == 0 then false
    else if a[0] != b[0] then a[0] < b[0]
    else LexLess(a[1..], b[1..])
  }

  lemma {:induction false} LexLessTotalAt(a: string, b: string)
    requires a != b
    ensures LexLess(a, b) || LexLess(b, a)
    decreases |a|
  {
    if |a| > 0 && |b| > 0 && a[0] == b[0] {
      assert a == [a[0]] + a[1..] && b == [b[0]] + b[1..];
      LexLessTotalAt(a[1..], b[1..]);
    }
  }

  lemma LexLessTotal()
    ensures Total(LexLess)
  {
    forall a: string, b: string | a != b ensures LexLess(a, b) || LexLess(b, a) {
      LexLessTotalAt(a, b);
    }
  }

  /** Puts `x` in front of the first element it is below. */
  function Place<T>(s: seq<T>, x: T, less: (T, T) -> bool): (r: seq<T>)
    ensures |r| == |s| + 1
    ensures multiset(r) == multiset(s) + multiset{x}
    ensures r[0] == x || (|s| > 0 && r[0] == s[0])
  {
    if |s| == 0 then [x]
    else if less(x, s[0]) then [x] + s
    else
      var rest := Place(s[1..], x, less);
      assert s == [s[0]] + s[1..];
      [s[0]] + rest
  }

  lemma {:induction false} PlaceSorted<T(!new)>(s: seq<T>, x: T, less: (T, T) -> bool)
    requires Total(less) && Sorted(s, less) && x !in s
    ensures Sorted(Place(s, x, less), less)
  {
    if |s| > 0 && !less(x, s[0]) {
      PlaceSorted(s[1..], x, less);
      var rest := Place(s[1..], x, less);
      assert rest[0] == x || rest[0] == s[1];
    }
  }

  /** Adds `x` to a duplicate-free sorted sequence unless it is already there. */
  function Insert<T(==)>(s: seq<T>, x: T, less: (T, T) -> bool): (r: seq<T>)
    ensures multiset(r) == if x in s then multiset(s) else multiset(s) + multiset{x}
  {
    if x in s then s else Place(s, x, less)
  }

  /** Inserting keeps a duplicate-free sorted sequence so, and adds exactly `x`. */
  lemma InsertSorted<T(!new)>(s: seq<T>, x: T, less: (T, T) -> bool)
    requires Total(less) && Sorted(s, less) && NoDuplicates(s)
    ensures var r := Insert(s, x, less);
      Sorted(r, less) && NoDuplicates(r) && (forall y :: y in r <==> y in s || y == x)
  {
    var r := Insert(s, x, less);
    if x !in s {
      PlaceSorted(s, x, less);
      MultisetNoDuplicates(s);
      MultisetNoDuplicates(r);
    }
    forall y ensures y in r <==> y in s || y == x {
      assert y in r <==> y in multiset(r);
      assert y in s <==> y in multiset(s);
    }
  }

  /** A sequence is duplicate-free exactly when no multiplicity exceeds one. */
  lemma {:induction false} MultisetNoDuplicates<T>(s: seq<T>)
    ensures NoDuplicates(s) <==> forall y :: multiset(s)[y] <= 1
  {
    if |s| > 0 {
      var t := s[1..];
      assert s == [s[0]] + t;
      MultisetNoDuplicates(t);
      if NoDuplicates(s) {
        forall k | 0 <= k < |t| ensures t[k] != s[0] {
          assert t[k] == s[k + 1];
        }
        assert s[0] !in t;
        assert NoDuplicates(t) by {
          forall i, j | 0 <= i < j < |t| ensures t[i] != t[j] {
            assert t[i] == s[i + 1] && t[j] == s[j + 1];
          }
        }
      } else {
        var i, j :| 0 <= i < j < |s| && s[i] == s[j];
        if i == 0 {
          assert s[j] in t;
          assert multiset(s)[s[0]] == multiset(t)[s[0]] + 1;
        } else {
          assert t[i - 1] == t[j - 1];
          assert !NoDuplicates(t);
          var y :| multiset(t)[y] > 1;
          assert multiset(s)[y] >= multiset(t)[y];
        }
      }
    }
  }

  /** The distinct elements of `s` in increasing order: `sorted(set(s))`. */
  function SortedDistinct<T(==)>(s: seq<T>, less: (T, T) -> bool): seq<T>
    decreases |s|
  {
    if |s| == 0 then [] else Insert(SortedDistinct(s[..|s| - 1], less), s[|s| - 1], less)
  }

  lemma {:induction false} SortedDistinctCorrect<T(!new)>(s: seq<T>, less: (T, T) -> bool)
    requires Total(less)
    ensures var r := SortedDistinct(s, less);
      Sorted(r, less) && NoDuplicates(r) && (forall y :: y in r <==> y in s)
    decreases |s|
  {
    if |s| > 0 {
      var init := s[..|s| - 1];
      SortedDistinctCorrect(init, less);
      InsertSorted(SortedDistinct(init, less), s[|s| - 1], less);
      assert s == init + [s[|s| - 1]];
      forall y ensures y in s <==> y in init || y == s[|s| - 1] {
        assert y in s <==> y in multiset(s);
      }
    }
  }

  /** Python's `sorted(xs)` of a set of strings. */
  method SortedStrings(xs: set<string>) returns (r: seq<string>)
    ensures Sorted(r, LexLess) && NoDuplicates(r)
    ensures forall y :: y in r <==> y in xs
  {
    LexLessTotal();
    r := [];
    var rest := xs;
    while rest != {}
      invariant Sorted(r, LexLess) && NoDuplicates(r)
      invariant forall y :: y in r <==> y in xs && y !in rest
      invariant rest <= xs
      decreases |rest|
    {
      var x :| x in rest;
      InsertSorted(r, x, LexLess);
      r := Insert(r, x, LexLess);
      rest := rest - {x};
    }
  }
}
