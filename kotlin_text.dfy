/** The Kotlin and Java string operations the `:command` code relies on:
    `trim`, `startsWith`, `removePrefix`, `takeWhile { it != ' ' }` (and
    `split(" ")[0]`, which yields the same text), `padEnd`, `toIntOrNull`,
    `joinToString`, and sorting with `String.CASE_INSENSITIVE_ORDER`. */
module KotlinText {
  import opened Wrappers

  /** Kotlin's `Char.isWhitespace()` on the JVM: Java's `isWhitespace` or
      `isSpaceChar`. */
  predicate IsWhitespace(c: char)
  {
    || c == ' ' || '\t' <= c <= '\r' || '\U{1C}' <= c <= '\U{1F}'
    || c == '\U{A0}' || c == '\U{1680}' || '\U{2000}' <= c <= '\U{200A}'
    || c == '\U{2028}' || c == '\U{2029}' || c == '\U{202F}' || c == '\U{205F}' || c == '\U{3000}'
  }

  /** The first index at or after i that does not hold whitespace, or |s|. */
  function SkipWhitespace(s: string, i: nat): (k: nat)
    requires i <= |s|
    ensures i <= k <= |s|
    ensures forall j :: i <= j < k ==> IsWhitespace(s[j])
    ensures k < |s| ==> !IsWhitespace(s[k])
    decreases |s| - i
  {
    if i < |s| && IsWhitespace(s[i]) then SkipWhitespace(s, i + 1) else i
  }

  /** The end of `s[lo..j]` once the whitespace at its end is dropped. */
  function SkipWhitespaceBack(s: string, lo: nat, j: nat): (k: nat)
    requires lo <= j <= |s|
    ensures lo <= k <= j
    ensures forall m :: k <= m < j ==> IsWhitespace(s[m])
    ensures k > lo ==> !IsWhitespace(s[k - 1])
    decreases j
  {
    if j > lo && IsWhitespace(s[j - 1]) then SkipWhitespaceBack(s, lo, j - 1) else j
  }

  /** Where the text `trim()` keeps starts: `startIndex` in Kotlin's `trim`. */
  function TrimStartIndex(s: string): nat
  {
    SkipWhitespace(s, 0)
  }

  /** Where the text `trim()` keeps ends: `endIndex + 1` in Kotlin's `trim`. */
  function TrimEndIndex(s: string): nat
    requires TrimStartIndex(s) <= |s|
  {
    SkipWhitespaceBack(s, TrimStartIndex(s), |s|)
  }

  /** Kotlin's `trim()`: the text between the leading and the trailing whitespace. */
  function Trim(s: string): string
  {
    s[TrimStartIndex(s)..TrimEndIndex(s)]
  }

  /** A text that neither starts nor ends with whitespace. */
  predicate IsTrimmed(s: string)
  {
    s == [] || (!IsWhitespace(s[0]) && !IsWhitespace(s[|s| - 1]))
  }

  /** Any index with only whitespace between i and it, and no whitespace at
      it, is the one `SkipWhitespace` finds. */
  lemma SkipWhitespaceUnique(s: string, i: nat, k: nat)
    requires i <= k <= |s|
    requires forall j :: i <= j < k ==> IsWhitespace(s[j])
    requires k < |s| ==> !IsWhitespace(s[k])
    ensures SkipWhitespace(s, i) == k
  {
  }

  /** Likewise for the end that `SkipWhitespaceBack` finds. */
  lemma SkipWhitespaceBackUnique(s: string, lo: nat, j: nat, k: nat)
    requires lo <= k <= j <= |s|
    requires forall m :: k <= m < j ==> IsWhitespace(s[m])
    requires k > lo ==> !IsWhitespace(s[k - 1])
    ensures SkipWhitespaceBack(s, lo, j) == k
  {
  }

  /** What `trim()` returns neither starts nor ends with whitespace. */
  lemma TrimIsTrimmed(s: string)
    ensures IsTrimmed(Trim(s))
  {
    var i := TrimStartIndex(s);
    var e := TrimEndIndex(s);
    var r := Trim(s);
    if r != [] {
      assert r[0] == s[i];
      assert r[|r| - 1] == s[e - 1];
    }
  }

  /** `trim()` removes exactly the whitespace at both ends: what it returns
      is a piece of `s` that starts and ends with no whitespace, and what lies
      before and after that piece is all whitespace. */
  lemma TrimRemovesOnlyOuterWhitespace(s: string)
    ensures IsTrimmed(Trim(s))
    ensures var i := TrimStartIndex(s);
      && i + |Trim(s)| <= |s|
      && Trim(s) == s[i..i + |Trim(s)|]
      && (forall k :: 0 <= k < i ==> IsWhitespace(s[k]))
      && (forall k :: i + |Trim(s)| <= k < |s| ==> IsWhitespace(s[k]))
  {
    TrimIsTrimmed(s);
  }

  /** A text that is already trimmed is left alone. */
  lemma TrimmedUnchanged(s: string)
    requires IsTrimmed(s)
    ensures Trim(s) == s
  {
    if s != [] {
      SkipWhitespaceUnique(s, 0, 0);
      SkipWhitespaceBackUnique(s, 0, |s|, |s|);
    }
    assert s[0..|s|] == s;
  }

  /** Whitespace in front of a text moves where `trim()` starts by its length. */
  lemma TrimStartAfterWhitespace(w: string, s: string)
    requires forall k :: 0 <= k < |w| ==> IsWhitespace(w[k])
    ensures TrimStartIndex(w + s) == |w| + TrimStartIndex(s)
  {
    var u := w + s;
    var i := TrimStartIndex(s);
    forall j | 0 <= j < |w| + i
      ensures IsWhitespace(u[j])
    {
      if j >= |w| {
        assert u[j] == s[j - |w|];
      }
    }
    if |w| + i < |u| {
      assert u[|w| + i] == s[i];
    }
    SkipWhitespaceUnique(u, 0, |w| + i);
  }

  /** ... and where it ends. */
  lemma TrimEndAfterWhitespace(w: string, s: string)
    requires TrimStartIndex(w + s) == |w| + TrimStartIndex(s)
    ensures TrimEndIndex(w + s) == |w| + TrimEndIndex(s)
  {
    var u := w + s;
    var i := TrimStartIndex(s);
    var e := TrimEndIndex(s);
    forall m | |w| + e <= m < |u|
      ensures IsWhitespace(u[m])
    {
      assert u[m] == s[m - |w|];
    }
    if e > i {
      assert u[|w| + e - 1] == s[e - 1];
    }
    SkipWhitespaceBackUnique(u, |w| + i, |u|, |w| + e);
  }

  /** Whitespace in front of a text does not survive `trim()`. */
  lemma TrimSkipsLeadingWhitespace(w: string, s: string)
    requires forall k :: 0 <= k < |w| ==> IsWhitespace(w[k])
    ensures Trim(w + s) == Trim(s)
  {
    TrimStartAfterWhitespace(w, s);
    TrimEndAfterWhitespace(w, s);
    var u := w + s;
    assert u[|w| + TrimStartIndex(s)..|w| + TrimEndIndex(s)] == s[TrimStartIndex(s)..TrimEndIndex(s)];
  }

  /** `trim()` is idempotent. */
  lemma TrimIdempotent(s: string)
    ensures Trim(Trim(s)) == Trim(s)
  {
    TrimIsTrimmed(s);
    TrimmedUnchanged(Trim(s));
  }

  /** Kotlin's `startsWith`. */
  predicate StartsWith(s: string, prefix: string)
  {
    |prefix| <= |s| && s[..|prefix|] == prefix
  }

  /** Kotlin's `removePrefix`: the prefix goes if it is there. */
  function RemovePrefix(s: string, prefix: string): (r: string)
    ensures StartsWith(s, prefix) ==> prefix + r == s
    ensures !StartsWith(s, prefix) ==> r == s
  {
    if StartsWith(s, prefix) then s[|prefix|..] else s
  }

  /** The text before the first ASCII space: `takeWhile { it != ' ' }`, and
      equally `split(" ")[0]`. */
  function UntilSpace(s: string): (r: string)
    ensures StartsWith(s, r) && ' ' !in r
    ensures |r| < |s| ==> s[|r|] == ' '
  {
    if s == [] || s[0] == ' ' then [] else [s[0]] + UntilSpace(s[1..])
  }

  /** A space-free front part is kept whole. */
  lemma {:induction false} UntilSpaceAppend(p: string, q: string)
    requires ' ' !in p
    ensures UntilSpace(p + q) == p + UntilSpace(q)
  {
    if p == [] {
      assert p + q == q;
    } else {
      assert (p + q)[0] == p[0];
      assert (p + q)[1..] == p[1..] + q;
      UntilSpaceAppend(p[1..], q);
    }
  }

  /** A space-free word, a space and a rest: the word is what comes before
      the first space, and removing it leaves the space and the rest. */
  lemma SplitAtSpace(word: string, rest: string)
    requires ' ' !in word
    ensures UntilSpace(word + " " + rest) == word
    ensures RemovePrefix(word + " " + rest, word) == " " + rest
  {
    assert word + " " + rest == word + (" " + rest);
    UntilSpaceAppend(word, " " + rest);
  }

  /** Trimming after a space gives back a trimmed text. */
  lemma TrimAfterSpace(rest: string)
    requires IsTrimmed(rest)
    ensures Trim(" " + rest) == rest
  {
    TrimSkipsLeadingWhitespace(" ", rest);
    TrimmedUnchanged(rest);
  }

  /** Kotlin's `padEnd(n)`: spaces are appended up to length n. */
  function PadEnd(s: string, n: nat): (r: string)
    ensures |r| == if |s| < n then n else |s|
    ensures r[..|s|] == s
    ensures forall k :: |s| <= k < |r| ==> r[k] == ' '
    decreases n - |s|
  {
    if |s| < n then PadEnd(s + " ", n) else s
  }

  /** `joinToString(separator)`. */
  function Join(lines: seq<string>, separator: string): string
  {
    if lines == [] then ""
    else if |lines| == 1 then lines[0]
    else lines[0] + separator + Join(lines[1..], separator)
  }

  /** `Char.isUpperCase()`, for the ASCII letters. */
  predicate IsUpperCase(c: char)
  {
    'A' <= c <= 'Z'
  }

  predicate IsDigit(c: char)
  {
    '0' <= c <= '9'
  }

  predicate AllDigits(s: string)
  {
    forall k :: 0 <= k < |s| ==> IsDigit(s[k])
  }

  /** The number a string of decimal digits denotes. */
  function DecimalValue(s: string): nat
    requires AllDigits(s)
  {
    if s == [] then 0 else 10 * DecimalValue(s[..|s| - 1]) + (s[|s| - 1] as int - '0' as int)
  }

  const IntMax: int := 0x7fff_ffff
  const IntMin: int := -0x8000_0000

  /** Kotlin's `String.toIntOrNull()`: an optional sign and decimal digits
      whose value fits in a 32-bit Int; anything else gives null (None). */
  function ToIntOrNull(s: string): (r: Option<int>)
    ensures r.Some? ==> IntMin <= r.value <= IntMax
  {
    if s == [] then None
    else if s[0] < '0' then
      if |s| == 1 || !AllDigits(s[1..]) then None
      else if s[0] == '-' then (if DecimalValue(s[1..]) <= -IntMin then Some(-(DecimalValue(s[1..]) as int)) else None)
      else if s[0] == '+' then (if DecimalValue(s[1..]) <= IntMax then Some(DecimalValue(s[1..])) else None)
      else None
    else if AllDigits(s) && DecimalValue(s) <= IntMax then Some(DecimalValue(s))
    else None
  }

  /** The single digit of a number below ten. */
  function DigitChar(d: nat): (c: char)
    requires d < 10
    ensures IsDigit(c) && c as int - '0' as int == d
  {
    ('0' as int + d) as char
  }

  /** The decimal digits of n, without leading zeros. */
  function DecimalString(n: nat): (s: string)
    ensures s != [] && AllDigits(s)
    ensures DecimalValue(s) == n
    decreases n
  {
    if n < 10 then [DigitChar(n)]
    else
      var front := DecimalString(n / 10);
      var s := front + [DigitChar(n % 10)];
      assert s[..|s| - 1] == front;
      s
  }

  /** Kotlin's `Int.toString()`. */
  function IntToString(n: int): string
  {
    if n < 0 then "-" + DecimalString(-n) else DecimalString(n)
  }

  /** `toIntOrNull` reads back what `toString` wrote, for every Int. */
  lemma IntToStringRoundTrip(n: int)
    requires IntMin <= n <= IntMax
    ensures ToIntOrNull(IntToString(n)) == Some(n)
  {
    var ds := DecimalString(if n < 0 then -n else n);
    if n < 0 {
      assert ("-" + ds)[1..] == ds;
    } else {
      assert ds[0] >= '0';
    }
  }

  /** The character `String.CASE_INSENSITIVE_ORDER` compares: Java's
      `toLowerCase(toUpperCase(c))`, for ASCII letters. */
  function FoldCase(c: char): char
  {
    if 'A' <= c <= 'Z' then (c as int + 32) as char else c
  }

  /** `String.CASE_INSENSITIVE_ORDER.compare(a, b)`: negative, zero or
      positive as a sorts before, with or after b. */
  function CompareIgnoreCase(a: string, b: string): int
  {
    if a == [] || b == [] then |a| - |b|
    else if FoldCase(a[0]) != FoldCase(b[0]) then FoldCase(a[0]) as int - FoldCase(b[0]) as int
    else CompareIgnoreCase(a[1..], b[1..])
  }

  lemma {:induction false} CompareAntisymmetric(a: string, b: string)
    ensures CompareIgnoreCase(a, b) == -CompareIgnoreCase(b, a)
  {
    if a != [] && b != [] && FoldCase(a[0]) == FoldCase(b[0]) {
      CompareAntisymmetric(a[1..], b[1..]);
    }
  }

  lemma {:induction false} CompareTransitive(a: string, b: string, c: string)
    requires CompareIgnoreCase(a, b) <= 0 && CompareIgnoreCase(b, c) <= 0
    ensures CompareIgnoreCase(a, c) <= 0
  {
    if a != [] && b != [] && c != []
       && FoldCase(a[0]) == FoldCase(b[0]) && FoldCase(b[0]) == FoldCase(c[0]) {
      CompareTransitive(a[1..], b[1..], c[1..]);
    }
  }

  /** Ordered by `String.CASE_INSENSITIVE_ORDER`. */
  ghost predicate SortedIgnoreCase(s: seq<string>)
  {
    forall i, j :: 0 <= i < j < |s| ==> CompareIgnoreCase(s[i], s[j]) <= 0
  }

  /** x placed before the first element it does not sort after. */
  function InsertIgnoreCase(x: string, s: seq<string>): seq<string>
  {
    if s == [] then [x]
    else if CompareIgnoreCase(x, s[0]) <= 0 then [x] + s
    else [s[0]] + InsertIgnoreCase(x, s[1..])
  }

  /** `sortedWith(String.CASE_INSENSITIVE_ORDER)`, as an insertion sort. */
  function SortIgnoreCase(s: seq<string>): seq<string>
  {
    if s == [] then [] else InsertIgnoreCase(s[0], SortIgnoreCase(s[1..]))
  }

  lemma {:induction false} InsertIgnoreCaseElements(x: string, s: seq<string>)
    ensures multiset(InsertIgnoreCase(x, s)) == multiset(s) + multiset{x}
    ensures forall e :: e in InsertIgnoreCase(x, s) ==> e == x || e in s
  {
    if s != [] && CompareIgnoreCase(x, s[0]) > 0 {
      InsertIgnoreCaseElements(x, s[1..]);
      assert s == [s[0]] + s[1..];
    }
  }

  /** A sorted sequence stays sorted under a head that sorts before all of it. */
  lemma ConsSorted(h: string, t: seq<string>)
    requires SortedIgnoreCase(t)
    requires forall e :: e in t ==> CompareIgnoreCase(h, e) <= 0
    ensures SortedIgnoreCase([h] + t)
  {
    var r := [h] + t;
    forall i, j | 0 <= i < j < |r|
      ensures CompareIgnoreCase(r[i], r[j]) <= 0
    {
      assert r[j] == t[j - 1];
      if i > 0 {
        assert r[i] == t[i - 1];
      } else {
        assert r[j] in t;
      }
    }
  }

  lemma InsertBeforeHeadBound(x: string, s: seq<string>)
    requires SortedIgnoreCase(s) && s != [] && CompareIgnoreCase(x, s[0]) <= 0
    ensures forall e :: e in s ==> CompareIgnoreCase(x, e) <= 0
  {
    forall e | e in s
      ensures CompareIgnoreCase(x, e) <= 0
    {
      var m :| 0 <= m < |s| && s[m] == e;
      if m > 0 {
        CompareTransitive(x, s[0], s[m]);
      }
    }
  }

  lemma InsertAfterHeadBound(x: string, s: seq<string>)
    requires SortedIgnoreCase(s) && s != [] && CompareIgnoreCase(x, s[0]) > 0
    ensures forall e :: e in InsertIgnoreCase(x, s[1..]) ==> CompareIgnoreCase(s[0], e) <= 0
  {
    InsertIgnoreCaseElements(x, s[1..]);
    CompareAntisymmetric(x, s[0]);
    forall e | e in InsertIgnoreCase(x, s[1..]) && e != x
      ensures CompareIgnoreCase(s[0], e) <= 0
    {
      assert e in s[1..];
      var m :| 0 <= m < |s[1..]| && s[1..][m] == e;
      assert s[m + 1] == e;
    }
  }

  lemma TailSorted(s: seq<string>)
    requires SortedIgnoreCase(s) && s != []
    ensures SortedIgnoreCase(s[1..])
  {
    forall i, j | 0 <= i < j < |s[1..]|
      ensures CompareIgnoreCase(s[1..][i], s[1..][j]) <= 0
    {
      assert s[1..][i] == s[i + 1] && s[1..][j] == s[j + 1];
    }
  }

  lemma {:induction false} InsertIgnoreCaseSorted(x: string, s: seq<string>)
    requires SortedIgnoreCase(s)
    ensures SortedIgnoreCase(InsertIgnoreCase(x, s))
  {
    if s == [] {
    } else if CompareIgnoreCase(x, s[0]) <= 0 {
      InsertBeforeHeadBound(x, s);
      ConsSorted(x, s);
    } else {
      TailSorted(s);
      InsertIgnoreCaseSorted(x, s[1..]);
      InsertAfterHeadBound(x, s);
      ConsSorted(s[0], InsertIgnoreCase(x, s[1..]));
    }
  }

  /** The sort returns the same lines, in case-insensitive order. */
  lemma {:induction false} SortIgnoreCaseCorrect(s: seq<string>)
    ensures multiset(SortIgnoreCase(s)) == multiset(s)
    ensures SortedIgnoreCase(SortIgnoreCase(s))
  {
    if s != [] {
      SortIgnoreCaseCorrect(s[1..]);
      InsertIgnoreCaseElements(s[0], SortIgnoreCase(s[1..]));
      InsertIgnoreCaseSorted(s[0], SortIgnoreCase(s[1..]));
      assert s == [s[0]] + s[1..];
    }
  }
}
