/**
 * The part of Python's `str` behaviour that the scraper relies on: `strip()`,
 * `lower()`, `replace()`, `count()`, `split()`, `"".join()`, the `in` test,
 * runs of decimal digits and `str()` of an integer. Strings are `seq<char>`.
 */
module Text {

  /** Python's `str.isspace()`: exactly the characters `str.strip()` removes. */
  predicate IsSpace(c: char) {
    || c == ' ' || ('\t' <= c <= '\r') || ('\U{1c}' <= c <= '\U{1f}')
    || c == '\U{85}' || c == '\U{a0}' || c == '\U{1680}'
    || ('\U{2000}' <= c <= '\U{200a}') || c == '\U{2028}' || c == '\U{2029}'
    || c == '\U{202f}' || c == '\U{205f}' || c == '\U{3000}'
  }

  /** Index of the first non-whitespace character at or after `i`, or `|s|`. */
  function SkipSpaces(s: string, i: nat): (r: nat)
    requires i <= |s|
    ensures i <= r <= |s|
    ensures forall k :: i <= k < r ==> IsSpace(s[k])
    ensures r < |s| ==> !IsSpace(s[r])
    decreases |s| - i
  {
    if i < |s| && IsSpace(s[i]) then SkipSpaces(s, i + 1) else i
  }

  /** One past the last non-whitespace character before `j` and at or after `lo`, or `lo`. */
  function SkipSpacesBack(s: string, lo: nat, j: nat): (r: nat)
    requires lo <= j <= |s|
    ensures lo <= r <= j
    ensures forall k :: r <= k < j ==> IsSpace(s[k])
    ensures r > lo ==> !IsSpace(s[r - 1])
    decreases j
  {
    if j > lo && IsSpace(s[j - 1]) then SkipSpacesBack(s, lo, j - 1) else j
  }

  /** Python's `str.strip()`: drops leading and trailing whitespace. */
  function Strip(s: string): (r: string)
    ensures |r| <= |s|
    ensures r == [] || (!IsSpace(r[0]) && !IsSpace(r[|r| - 1]))
    ensures r == [] <==> forall i :: 0 <= i < |s| ==> IsSpace(s[i])
    ensures (forall i :: 0 <= i < |s| ==> !IsSpace(s[i])) ==> r == s
  {
    var a := SkipSpaces(s, 0);
    var b := SkipSpacesBack(s, a, |s|);
    s[a..b]
  }

  lemma StripIdempotent(s: string)
    ensures Strip(Strip(s)) == Strip(s)
  {
    var r := Strip(s);
    if r != [] {
      assert SkipSpaces(r, 0) == 0;
      assert SkipSpacesBack(r, 0, |r|) == |r|;
    }
  }

  /** `strip()` keeps a slice and drops only whitespace before and after it. */
  lemma StripBounds(s: string)
    ensures var a := SkipSpaces(s, 0);
      && a + |Strip(s)| <= |s| && Strip(s) == s[a..a + |Strip(s)|]
      && (forall k :: 0 <= k < a ==> IsSpace(s[k]))
      && (forall k :: a + |Strip(s)| <= k < |s| ==> IsSpace(s[k]))
  {
  }

  /** Text that neither starts nor ends with whitespace is its own `strip()`. */
  lemma StripUnpadded(s: string)
    requires s != [] && !IsSpace(s[0]) && !IsSpace(s[|s| - 1])
    ensures Strip(s) == s
  {
    assert SkipSpaces(s, 0) == 0;
    assert SkipSpacesBack(s, 0, |s|) == |s|;
  }

  /** Python's `str.lower()` on ASCII and Latin-1 letters (`"VÍA"` becomes `"vía"`). */
  function LowerChar(c: char): char {
    if 'A' <= c <= 'Z' || ('\U{c0}' <= c <= '\U{de}' && c != '\U{d7}') then (c as int + 32) as char else c
  }

  function Lower(s: string): string {
    seq(|s|, i requires 0 <= i < |s| => LowerChar(s[i]))
  }

  /** Text without capitals is its own `lower()`. */
  lemma LowerUnchanged(s: string)
    requires forall i :: 0 <= i < |s| ==> LowerChar(s[i]) == s[i]
    ensures Lower(s) == s
  {
  }

  /** Python's `pat in s` for strings. */
  predicate Contains(s: string, pat: string)
    decreases |s|
  {
    if |s| < |pat| then false else s[..|pat|] == pat || Contains(s[1..], pat)
  }

  lemma ContainsSelf(pat: string)
    ensures Contains(pat, pat)
  {
    assert pat[..|pat|] == pat;
  }

  /** A string contains whatever its tail contains. */
  lemma {:induction false} ContainsRight(a: string, b: string, pat: string)
    requires Contains(b, pat)
    ensures Contains(a + b, pat)
    decreases |a|
  {
    if a != [] {
      assert (a + b)[1..] == a[1..] + b;
      ContainsRight(a[1..], b, pat);
    } else {
      assert a + b == b;
    }
  }

  /** A string contains whatever its head contains. */
  lemma {:induction false} ContainsLeft(a: string, b: string, pat: string)
    requires Contains(a, pat)
    ensures Contains(a + b, pat)
    decreases |a|
  {
    if a[..|pat|] == pat {
      assert (a + b)[..|pat|] == a[..|pat|];
    } else {
      assert (a + b)[1..] == a[1..] + b;
      ContainsLeft(a[1..], b, pat);
    }
  }

  /** Python's `s.replace(pat, rep)`: non-overlapping occurrences, left to right, in one pass. */
  function Replace(s: string, pat: string, rep: string): string
    requires pat != []
    decreases |s|
  {
    if |s| < |pat| then s
    else if s[..|pat|] == pat then rep + Replace(s[|pat|..], pat, rep)
    else [s[0]] + Replace(s[1..], pat, rep)
  }

  /** `s` with every occurrence of `c` deleted. */
  function RemoveChar(s: string, c: char): string {
    if s == [] then [] else (if s[0] == c then [] else [s[0]]) + RemoveChar(s[1..], c)
  }

  /** Python's `s.count(c)` for a one-character argument. */
  function Count(s: string, c: char): nat {
    if s == [] then 0 else (if s[0] == c then 1 else 0) + Count(s[1..], c)
  }

  /** Index of the first `c` in `s`, or `|s|` when there is none. */
  function IndexOf(s: string, c: char): (r: nat)
    ensures r <= |s|
    ensures r < |s| ==> s[r] == c
    ensures forall k :: 0 <= k < r ==> s[k] != c
  {
    if s == [] then 0 else if s[0] == c then 0 else 1 + IndexOf(s[1..], c)
  }

  /** Index of the last `c` in `s`. */
  function LastIndexOf(s: string, c: char): (r: nat)
    requires c in s
    ensures r < |s| && s[r] == c
    ensures forall k :: r < k < |s| ==> s[k] != c
  {
    if s[|s| - 1] == c then |s| - 1 else LastIndexOf(s[..|s| - 1], c)
  }

  /** Python's `s.split(c)` for a one-character separator. */
  function Split(s: string, c: char): seq<string>
    decreases |s|
  {
    var i := IndexOf(s, c);
    if i == |s| then [s] else [s[..i]] + Split(s[i + 1..], c)
  }

  /** Python's `"".join(parts)`. */
  function Concat(parts: seq<string>): string {
    if parts == [] then [] else parts[0] + Concat(parts[1..])
  }

  /** `"".join(parts[:-1]) + "." + parts[-1]`: the dot-collapsing rule of both numeric parsers. */
  function JoinKeepingLastDot(parts: seq<string>): string
    requires parts != []
  {
    Concat(parts[..|parts| - 1]) + "." + parts[|parts| - 1]
  }

  /** `replace` leaves text alone when the pattern's first character does not occur in it. */
  lemma {:induction false} ReplaceAbsent(s: string, pat: string, rep: string)
    requires pat != [] && pat[0] !in s
    ensures Replace(s, pat, rep) == s
    decreases |s|
  {
    if |s| >= |pat| {
      assert s[..|pat|][0] == s[0];
      assert pat[0] !in s[1..] by {
        forall k | 0 <= k < |s[1..]| ensures s[1..][k] != pat[0] { assert s[1..][k] == s[k + 1]; }
      }
      ReplaceAbsent(s[1..], pat, rep);
      assert s == [s[0]] + s[1..];
    }
  }

  /** No match can start inside a prefix without the pattern's first character, so `replace` passes it through. */
  lemma {:induction false} ReplaceSkip(a: string, b: string, pat: string, rep: string)
    requires pat != [] && pat[0] !in a
    ensures Replace(a + b, pat, rep) == a + Replace(b, pat, rep)
    decreases |a|
  {
    var s := a + b;
    if a == [] {
      assert s == b;
    } else if |s| < |pat| {
      assert Replace(b, pat, rep) == b;
    } else {
      assert s[..|pat|] != pat by { assert s[..|pat|][0] == a[0]; }
      assert s[1..] == a[1..] + b;
      assert pat[0] !in a[1..] by {
        forall k | 0 <= k < |a[1..]| ensures a[1..][k] != pat[0] { assert a[1..][k] == a[k + 1]; }
      }
      ReplaceSkip(a[1..], b, pat, rep);
      calc {
        Replace(s, pat, rep);
        [s[0]] + Replace(s[1..], pat, rep);
        [a[0]] + (a[1..] + Replace(b, pat, rep));
        { assert a == [a[0]] + a[1..]; }
        a + Replace(b, pat, rep);
      }
    }
  }

  /** A single-character pattern occurring once is replaced exactly there. */
  lemma ReplaceOnce(a: string, c: char, b: string, rep: string)
    requires c !in a && c !in b
    ensures Replace(a + [c] + b, [c], rep) == a + rep + b
  {
    assert a + [c] + b == a + ([c] + b);
    ReplaceSkip(a, [c] + b, [c], rep);
    assert ([c] + b)[..1] == [c] && ([c] + b)[1..] == b;
    ReplaceAbsent(b, [c], rep);
  }

  lemma ReplaceWhole(pat: string, rep: string)
    requires pat != []
    ensures Replace(pat, pat, rep) == rep
  {
    assert pat[..|pat|] == pat;
    assert pat[|pat|..] == [];
  }

  lemma {:induction false} ReplaceChar(s: string, c: char, d: char)
    ensures |Replace(s, [c], [d])| == |s|
    ensures forall i :: 0 <= i < |s| ==> Replace(s, [c], [d])[i] == if s[i] == c then d else s[i]
    decreases |s|
  {
    if s != [] {
      ReplaceChar(s[1..], c, d);
      assert s[..1] == [s[0]];
      assert s[1..] == s[|[c]|..];
    }
  }

  lemma {:induction false} DeleteChar(s: string, c: char)
    ensures Replace(s, [c], []) == RemoveChar(s, c)
    decreases |s|
  {
    if s != [] {
      DeleteChar(s[1..], c);
      assert s[..1] == [s[0]];
    }
  }

  lemma {:induction false} RemoveCharChars(s: string, c: char)
    ensures c !in RemoveChar(s, c)
    ensures forall x :: x in RemoveChar(s, c) ==> x in s
    ensures Count(RemoveChar(s, c), c) == 0
  {
    if s != [] {
      RemoveCharChars(s[1..], c);
      var t := RemoveChar(s[1..], c);
      var h: string := if s[0] == c then [] else [s[0]];
      assert RemoveChar(s, c) == h + t;
      forall x | x in h + t ensures x in s {
        if x in t { assert x in s[1..]; }
      }
      CountConcat(h, t, c);
    }
  }

  lemma {:induction false} CountConcat(a: string, b: string, c: char)
    ensures Count(a + b, c) == Count(a, c) + Count(b, c)
  {
    if a != [] {
      assert (a + b)[0] == a[0] && (a + b)[1..] == a[1..] + b;
      CountConcat(a[1..], b, c);
      assert Count(a + b, c) == (if a[0] == c then 1 else 0) + Count(a[1..] + b, c);
    } else {
      assert a + b == b;
    }
  }

  lemma {:induction false} CountZero(s: string, c: char)
    ensures Count(s, c) == 0 <==> c !in s
  {
    if s != [] {
      CountZero(s[1..], c);
      assert s == [s[0]] + s[1..];
    }
  }

  /** The pieces of `s.split(c)` are the text between separators, one more piece than separators. */
  lemma {:induction false} SplitCount(s: string, c: char)
    ensures |Split(s, c)| == Count(s, c) + 1
    decreases |s|
  {
    var i := IndexOf(s, c);
    CountZero(s[..i], c);
    assert s == s[..i] + s[i..];
    CountConcat(s[..i], s[i..], c);
    if i < |s| {
      SplitCount(s[i + 1..], c);
      assert s[i..] == [c] + s[i + 1..];
      CountConcat([c], s[i + 1..], c);
    }
  }

  /** Joining the pieces of a split deletes the separators. */
  lemma {:induction false} ConcatSplit(s: string, c: char)
    ensures Concat(Split(s, c)) == RemoveChar(s, c)
    decreases |s|
  {
    var i := IndexOf(s, c);
    if i == |s| {
      RemoveAbsent(s, c);
      assert Concat([s]) == s + Concat([]);
    } else {
      var head, rest := s[..i], s[i + 1..];
      ConcatSplit(rest, c);
      assert Concat([head] + Split(rest, c)) == head + Concat(Split(rest, c));
      assert s == head + [c] + rest;
      RemoveAroundSeparator(head, c, rest);
    }
  }

  lemma RemoveAroundSeparator(head: string, c: char, rest: string)
    requires c !in head
    ensures RemoveChar(head + [c] + rest, c) == head + RemoveChar(rest, c)
  {
    var tail := [c] + rest;
    assert tail[0] == c && tail[1..] == rest;
    assert RemoveChar(tail, c) == RemoveChar(rest, c);
    RemoveAbsent(head, c);
    assert head + [c] + rest == head + tail;
    RemoveCharConcat(head, tail, c);
  }

  lemma {:induction false} RemoveAbsent(s: string, c: char)
    requires c !in s
    ensures RemoveChar(s, c) == s
  {
    if s != [] {
      assert s[1..] == s[1..];
      RemoveAbsent(s[1..], c);
    }
  }

  lemma {:induction false} RemoveCharConcat(a: string, b: string, c: char)
    ensures RemoveChar(a + b, c) == RemoveChar(a, c) + RemoveChar(b, c)
  {
    if a != [] {
      assert (a + b)[0] == a[0] && (a + b)[1..] == a[1..] + b;
      RemoveCharConcat(a[1..], b, c);
      var h: string := if a[0] == c then [] else [a[0]];
      assert RemoveChar(a + b, c) == h + RemoveChar(a[1..] + b, c);
      assert RemoveChar(a, c) == h + RemoveChar(a[1..], c);
    } else {
      assert a + b == b;
    }
  }

  lemma IndexOfIs(s: string, c: char, p: nat)
    requires p <= |s| && (p < |s| ==> s[p] == c)
    requires forall k :: 0 <= k < p ==> s[k] != c
    ensures IndexOf(s, c) == p
  {
  }

  /** A separator followed by separator-free text ends the split with that text. */
  lemma {:induction false} SplitAppend(x: string, c: char, y: string)
    requires c !in y
    ensures Split(x + [c] + y, c) == Split(x, c) + [y]
    decreases |x|
  {
    var i := IndexOf(x, c);
    if i == |x| {
      SplitAppendLast(x, c, y);
    } else {
      var s, t := x + [c] + y, x[i + 1..];
      SplitAppendHead(x, c, y);
      SplitAtFirst(s, c, i);
      SplitAtFirst(x, c, i);
      SplitAppend(t, c, y);
      Assoc([x[..i]], Split(t, c), [y]);
    }
  }

  /** A split at the first separator: the text before it, then the split of the rest. */
  lemma SplitAtFirst(s: string, c: char, i: nat)
    requires i == IndexOf(s, c) && i < |s|
    ensures Split(s, c) == [s[..i]] + Split(s[i + 1..], c)
  {
  }

  /** With no separator in x, appending a separator and y makes exactly the two pieces x and y. */
  lemma SplitAppendLast(x: string, c: char, y: string)
    requires IndexOf(x, c) == |x| && c !in y
    ensures Split(x + [c] + y, c) == Split(x, c) + [y]
  {
    var s := x + [c] + y;
    assert Split(y, c) == [y] by {
      IndexOfIs(y, c, |y|);
    }
    assert IndexOf(s, c) == |x| by {
      IndexOfIs(s, c, |x|);
    }
    assert s[..|x|] == x && s[|x| + 1..] == y;
  }

  /** Appending after x leaves x's first separator, and what comes before it, where they were. */
  lemma SplitAppendHead(x: string, c: char, y: string)
    requires IndexOf(x, c) < |x|
    ensures var i, s := IndexOf(x, c), x + [c] + y;
      && IndexOf(s, c) == i && s[..i] == x[..i] && s[i + 1..] == x[i + 1..] + [c] + y
  {
    var i, s := IndexOf(x, c), x + [c] + y;
    IndexOfIs(s, c, i);
    assert s[i + 1..] == x[i + 1..] + [c] + y;
  }

  /** A run of digits followed by a dot is the first piece of a split at dots. */
  lemma SplitAfterDigits(w: string, rest: string)
    requires AllDigits(w)
    ensures Split(w + "." + rest, '.') == [w] + Split(rest, '.')
  {
    var s := w + "." + rest;
    IndexOfIs(s, '.', |w|);
    assert s[..|w|] == w;
    assert s[|w| + 1..] == rest;
  }

  /** Digits alone are one piece. */
  lemma SplitDigits(w: string)
    requires AllDigits(w)
    ensures Split(w, '.') == [w]
  {
    IndexOfIs(w, '.', |w|);
  }

  /** Digits hold none of the other characters. */
  lemma DigitsCount(w: string, c: char)
    requires AllDigits(w) && !IsDigit(c)
    ensures c !in w && Count(w, c) == 0
  {
    CountZero(w, c);
  }

  /** Splitting at every separator is splitting before the last one and taking the tail after it. */
  lemma SplitAtLast(s: string, c: char)
    requires c in s
    ensures Split(s, c) == Split(s[..LastIndexOf(s, c)], c) + [s[LastIndexOf(s, c) + 1..]]
  {
    var k := LastIndexOf(s, c);
    var tail := s[k + 1..];
    assert c !in tail by {
      forall j | 0 <= j < |tail| ensures tail[j] != c { assert tail[j] == s[k + 1 + j]; }
    }
    assert s == s[..k] + [c] + tail;
    SplitAppend(s[..k], c, tail);
  }

  lemma JoinAtLastDot(s: string)
    requires '.' in s
    ensures var k := LastIndexOf(s, '.');
      JoinKeepingLastDot(Split(s, '.')) == Concat(Split(s[..k], '.')) + "." + s[k + 1..]
  {
    var k := LastIndexOf(s, '.');
    SplitAtLast(s, '.');
    var parts := Split(s, '.');
    assert parts[..|parts| - 1] == Split(s[..k], '.') && parts[|parts| - 1] == s[k + 1..];
  }

  /** The dot-collapsing rule keeps the last dot and deletes every earlier one. */
  lemma KeepLastDotIsRemoveEarlierDots(s: string)
    requires '.' in s
    ensures var k := LastIndexOf(s, '.');
      JoinKeepingLastDot(Split(s, '.')) == RemoveChar(s[..k], '.') + s[k..]
  {
    var k := LastIndexOf(s, '.');
    var left := Concat(Split(s[..k], '.'));
    assert JoinKeepingLastDot(Split(s, '.')) == left + "." + s[k + 1..] by {
      JoinAtLastDot(s);
    }
    assert left == RemoveChar(s[..k], '.') by {
      ConcatSplit(s[..k], '.');
    }
    assert s[k..] == "." + s[k + 1..] by {
      SliceAtIndex(s, k);
    }
    Assoc(left, ".", s[k + 1..]);
  }

  /** A suffix from index k is the character at k followed by the suffix after it. */
  lemma SliceAtIndex(s: string, k: nat)
    requires k < |s|
    ensures s[k..] == [s[k]] + s[k + 1..]
  {
  }

  /** Three parts joined keep only the last dot. */
  lemma JoinThreeParts(a: string, b: string, f: string)
    ensures JoinKeepingLastDot([a, b, f]) == (a + b) + "." + f
  {
    assert [a, b, f][..2] == [a, b];
    assert [a, b][1..] == [b];
    assert Concat([b]) == b + Concat([]);
  }

  lemma DropSeparator(a: string, b: string, f: string)
    ensures a + "" + (b + "." + f) == (a + b) + "." + f
  {
  }

  /** Concatenation is associative. */
  lemma Assoc<T>(a: seq<T>, b: seq<T>, c: seq<T>)
    ensures a + (b + c) == (a + b) + c
  {
  }

  // ---------------------------------------------------------------------------
  // Decimal digits

  predicate IsDigit(c: char) {
    '0' <= c <= '9'
  }

  predicate AllDigits(s: string) {
    forall i :: 0 <= i < |s| ==> IsDigit(s[i])
  }

  function DigitValue(c: char): nat
    requires IsDigit(c)
  {
    c as int - '0' as int
  }

  function Pow10(n: nat): (r: nat)
    ensures r >= 1
  {
    if n == 0 then 1 else 10 * Pow10(n - 1)
  }

  /** Python's `int(s)` for a string of ASCII digits. */
  function DigitsValue(s: string): nat
    requires AllDigits(s)
  {
    if s == [] then 0 else DigitsValue(s[..|s| - 1]) * 10 + DigitValue(s[|s| - 1])
  }

  lemma AllDigitsConcat(a: string, b: string)
    requires AllDigits(a) && AllDigits(b)
    ensures AllDigits(a + b)
  {
    forall i | 0 <= i < |a + b| ensures IsDigit((a + b)[i]) {
      if i >= |a| { assert (a + b)[i] == b[i - |a|]; }
    }
  }

  lemma ShiftDigit(x: int, p: int, y: int, d: int)
    ensures (x * p + y) * 10 + d == x * (10 * p) + (y * 10 + d)
  {
  }

  lemma {:induction false} DigitsValueAppend(a: string, b: string)
    requires AllDigits(a) && AllDigits(b)
    ensures AllDigits(a + b)
    ensures DigitsValue(a + b) == DigitsValue(a) * Pow10(|b|) + DigitsValue(b)
    decreases |b|
  {
    AllDigitsConcat(a, b);
    if b != [] {
      var b' := b[..|b| - 1];
      assert (a + b)[..|a + b| - 1] == a + b';
      assert (a + b)[|a + b| - 1] == b[|b| - 1];
      DigitsValueAppend(a, b');
      ShiftDigit(DigitsValue(a), Pow10(|b'|), DigitsValue(b'), DigitValue(b[|b| - 1]));
      assert DigitsValue(a + b) == DigitsValue(a + b') * 10 + DigitValue(b[|b| - 1]);
      assert DigitsValue(b) == DigitsValue(b') * 10 + DigitValue(b[|b| - 1]);
      assert Pow10(|b|) == 10 * Pow10(|b'|);
    } else {
      assert a + b == a;
    }
  }

  function DigitChar(d: nat): (c: char)
    requires d < 10
    ensures IsDigit(c) && DigitValue(c) == d
  {
    ('0' as int + d) as char
  }

  /** Python's `str(n)` for a non-negative integer. */
  function NatToString(n: nat): (s: string)
    ensures s != [] && AllDigits(s)
  {
    if n < 10 then [DigitChar(n)] else NatToString(n / 10) + [DigitChar(n % 10)]
  }

  /** Python's `str(n)` for any integer. */
  function IntToString(n: int): string {
    if n < 0 then "-" + NatToString(-n) else NatToString(n)
  }

  /** `int(str(n)) == n`: the decimal rendering reads back as the same number. */
  lemma {:induction false} NatToStringValue(n: nat)
    ensures DigitsValue(NatToString(n)) == n
  {
    if n >= 10 {
      NatToStringValue(n / 10);
      var s := NatToString(n);
      assert s[..|s| - 1] == NatToString(n / 10);
    }
  }
}
