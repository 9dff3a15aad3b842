/**
 * The few Python `str` built-ins the retrieval core relies on, stated over
 * `seq<char>`: `isspace`/`strip`, `lower`, `capitalize`, the `in` substring
 * test, `str(n)` for a natural number and the `repr` of a list of strings.
 */
module PyStr {

  /**
   * `c.isspace()`: the code points Python classifies as whitespace. Space,
   * tab and the line breaks are among them; no letter, digit or sentence end
   * is, so stripping never removes text content.
   */
  predicate IsSpace(c: char)
    ensures c == ' ' || c == '\t' || c == '\n' || c == '\r' ==> IsSpace(c)
    ensures IsSpace(c) ==> !('a' <= c <= 'z' || 'A' <= c <= 'Z' || '0' <= c <= '9' ||
                             c == '.' || c == '!' || c == '?')
  {
    var n := c as int;
    n == 0x20 || 0x09 <= n <= 0x0d || 0x1c <= n <= 0x1f || n == 0x85 || n == 0xa0 ||
    n == 0x1680 || 0x2000 <= n <= 0x200a || n == 0x2028 || n == 0x2029 ||
    n == 0x202f || n == 0x205f || n == 0x3000
  }

  /** Every character of `s` is whitespace (so `s.strip()` is empty). */
  predicate AllSpace(s: string) {
    forall k :: 0 <= k < |s| ==> IsSpace(s[k])
  }

  lemma AllSpaceConcat(a: string, b: string)
    ensures AllSpace(a + b) <==> AllSpace(a) && AllSpace(b)
  {
    if AllSpace(a) && AllSpace(b) {
      forall k | 0 <= k < |a + b| ensures IsSpace((a + b)[k]) {
        if k >= |a| { assert (a + b)[k] == b[k - |a|]; }
      }
    }
    if AllSpace(a + b) {
      forall k | 0 <= k < |b| ensures IsSpace(b[k]) { assert b[k] == (a + b)[|a| + k]; }
      forall k | 0 <= k < |a| ensures IsSpace(a[k]) { assert a[k] == (a + b)[k]; }
    }
  }

  /** Number of leading whitespace characters. */
  function LeadingSpace(s: string): (k: nat)
    ensures k <= |s| && AllSpace(s[..k])
    ensures k < |s| ==> !IsSpace(s[k])
  {
    if s == [] || !IsSpace(s[0]) then 0
    else
      var k := 1 + LeadingSpace(s[1..]);
      assert forall j :: 1 <= j < k ==> s[..k][j] == s[1..][..k - 1][j - 1];
      k
  }

  /** Length of `s` once its trailing whitespace is removed. */
  function TrailingCut(s: string): (j: nat)
    ensures j <= |s| && AllSpace(s[j..])
    ensures j > 0 ==> !IsSpace(s[j - 1])
  {
    if s == [] || !IsSpace(s[|s| - 1]) then |s|
    else
      var j := TrailingCut(s[..|s| - 1]);
      assert s[j..] == s[..|s| - 1][j..] + [s[|s| - 1]];
      j
  }

  /**
   * `s.strip()`: the slice left after removing leading and trailing
   * whitespace. The result is empty exactly when `s` is all whitespace, and
   * otherwise starts and ends with a non-space.
   */
  function Strip(s: string): (r: string)
    ensures |r| <= |s|
    ensures r == [] <==> AllSpace(s)
    ensures r != [] ==> !IsSpace(r[0]) && !IsSpace(r[|r| - 1])
  {
    var i := LeadingSpace(s);
    var j := TrailingCut(s[i..]);
    StripEmptyIff(s, i, j);
    StripEnds(s, i, j);
    s[i..i + j]
  }

  /** The stripped text is the slice of `s` between a whitespace prefix and a whitespace suffix. */
  lemma StripIsSlice(s: string)
    ensures var r := Strip(s);
            exists i :: 0 <= i <= |s| - |r| && s[i..i + |r|] == r &&
                        AllSpace(s[..i]) && AllSpace(s[i + |r|..])
  {
    var i := LeadingSpace(s);
    var j := TrailingCut(s[i..]);
    assert s[i + j..] == s[i..][j..];
  }

  lemma StripEmptyIff(s: string, i: nat, j: nat)
    requires i == LeadingSpace(s) && j == TrailingCut(s[i..])
    ensures j == 0 <==> AllSpace(s)
  {
    if j == 0 {
      assert s == s[..i] + s[i..];
      AllSpaceConcat(s[..i], s[i..]);
    }
  }

  lemma StripEnds(s: string, i: nat, j: nat)
    requires i == LeadingSpace(s) && j == TrailingCut(s[i..])
    ensures j > 0 ==> !IsSpace(s[i..i + j][0]) && !IsSpace(s[i..i + j][j - 1])
  {
    if j > 0 {
      assert s[i..i + j][j - 1] == s[i..][j - 1];
    }
  }

  /** A text whose first and last characters are not whitespace is its own `strip()`. */
  lemma StripUnchanged(s: string)
    requires s != [] && !IsSpace(s[0]) && !IsSpace(s[|s| - 1])
    ensures Strip(s) == s
  {
    assert LeadingSpace(s) == 0;
    assert TrailingCut(s[0..]) == |s|;
  }

  function Min(a: int, b: int): int {
    if a <= b then a else b
  }

  function Max(a: int, b: int): int {
    if a <= b then b else a
  }

  /**
   * Python's normalisation of a slice bound `i` for a sequence of length
   * `n`: a negative bound counts from the end, and the result is clamped to
   * `[0, n]`.
   */
  function SliceBound(i: int, n: nat): (k: nat)
    ensures 0 <= i <= n ==> k == i
    ensures i > n ==> k == n
    ensures i < 0 <= i + n ==> k == i + n
    ensures i + n < 0 ==> k == 0
  {
    if i < 0 then Max(i + n, 0) else Min(i, n)
  }

  /** `s[a:b]` for any integers `a` and `b`, as Python evaluates it. */
  function PySlice(s: string, a: int, b: int): (r: string)
    ensures 0 <= a <= b <= |s| ==> r == s[a..b]
    ensures 0 <= a <= |s| <= b ==> r == s[a..]
    ensures SliceBound(b, |s|) <= SliceBound(a, |s|) ==> r == []
  {
    var i := SliceBound(a, |s|);
    var j := SliceBound(b, |s|);
    if i < j then s[i..j] else []
  }

  /** `c.lower()` for the ASCII upper-case letters; every other character is kept. */
  function LowerChar(c: char): char {
    if 'A' <= c <= 'Z' then (c as int + 32) as char else c
  }

  /** `c.upper()` for the ASCII lower-case letters; every other character is kept. */
  function UpperChar(c: char): char {
    if 'a' <= c <= 'z' then (c as int - 32) as char else c
  }

  /** `s.lower()`: character by character. */
  function Lower(s: string): (r: string)
    ensures |r| == |s|
    ensures forall k :: 0 <= k < |s| ==> r[k] == LowerChar(s[k])
  {
    seq(|s|, k requires 0 <= k < |s| => LowerChar(s[k]))
  }

  /** `s.capitalize()`: first character upper case, all others lower case. */
  function Capitalize(s: string): (r: string)
    ensures |r| == |s|
  {
    if s == [] then [] else [UpperChar(s[0])] + Lower(s[1..])
  }

  /** Capitalising upper-cases the first character and lower-cases every other one. */
  lemma CapitalizeChars(s: string)
    ensures s != [] ==> Capitalize(s)[0] == UpperChar(s[0])
    ensures forall k :: 0 < k < |s| ==> Capitalize(s)[k] == LowerChar(s[k])
  {
  }

  /** `needle` occurs in `hay` starting at index `i`. */
  predicate OccursAt(needle: string, hay: string, i: int) {
    0 <= i && i + |needle| <= |hay| && hay[i..i + |needle|] == needle
  }

  /** `needle in hay` for strings: some slice of `hay` equals `needle`. */
  ghost predicate IsInfix(needle: string, hay: string) {
    exists i :: OccursAt(needle, hay, i)
  }

  /** The substring test written as Python's scan over start positions. */
  function Contains(hay: string, needle: string): (b: bool)
    ensures b <==> IsInfix(needle, hay)
    decreases |hay|
  {
    if |needle| > |hay| then false
    else if hay[..|needle|] == needle then
      assert OccursAt(needle, hay, 0);
      true
    else
      var b := Contains(hay[1..], needle);
      ContainsStep(hay, needle);
      b
  }

  /** When `needle` is not a prefix of `hay`, it occurs in `hay` iff it occurs in `hay[1..]`. */
  lemma ContainsStep(hay: string, needle: string)
    requires |needle| <= |hay| && hay[..|needle|] != needle
    ensures IsInfix(needle, hay) <==> IsInfix(needle, hay[1..])
  {
    if IsInfix(needle, hay[1..]) {
      var i :| OccursAt(needle, hay[1..], i);
      assert hay[1..][i..i + |needle|] == hay[i + 1..i + 1 + |needle|];
      assert OccursAt(needle, hay, i + 1);
    }
    if IsInfix(needle, hay) {
      var i :| OccursAt(needle, hay, i);
      assert i != 0;
      assert hay[1..][i - 1..i - 1 + |needle|] == hay[i..i + |needle|];
      assert OccursAt(needle, hay[1..], i - 1);
    }
  }

  /** An infix of `a` or of `b` is an infix of their concatenation. */
  lemma InfixOfConcat(needle: string, a: string, b: string)
    ensures IsInfix(needle, a) ==> IsInfix(needle, a + b)
    ensures IsInfix(needle, b) ==> IsInfix(needle, a + b)
  {
    if IsInfix(needle, a) {
      var i :| OccursAt(needle, a, i);
      assert (a + b)[i..i + |needle|] == a[i..i + |needle|];
      assert OccursAt(needle, a + b, i);
    }
    if IsInfix(needle, b) {
      var i :| OccursAt(needle, b, i);
      assert (a + b)[|a| + i..|a| + i + |needle|] == b[i..i + |needle|];
      assert OccursAt(needle, a + b, |a| + i);
    }
  }

  /** `"".join(parts)`: the parts one after another. */
  function Join(parts: seq<string>): string {
    if parts == [] then "" else Join(parts[..|parts| - 1]) + parts[|parts| - 1]
  }

  /** Joining splits over any division of the parts. */
  lemma {:induction false} JoinSplit(parts: seq<string>, n: nat)
    requires n <= |parts|
    ensures Join(parts) == Join(parts[..n]) + Join(parts[n..])
    decreases |parts|
  {
    if n < |parts| {
      var init := parts[..|parts| - 1];
      var tail := parts[n..];
      JoinSplit(init, n);
      assert init[..n] == parts[..n];
      assert tail[..|tail| - 1] == init[n..];
    } else {
      assert parts[..n] == parts;
    }
  }

  /**
   * Regrouping a concatenation. Dafny proves it unaided; stated once so that
   * the string-building loops use the fact without an extensionality proof
   * in their own, larger, contexts.
   */
  lemma ConcatAssoc(a: string, b: string, c: string)
    ensures (a + b) + c == a + (b + c)
  {
  }

  /** Joining one more part appends it. */
  lemma JoinSnoc(parts: seq<string>, i: nat)
    requires i < |parts|
    ensures Join(parts[..i + 1]) == Join(parts[..i]) + parts[i]
  {
    assert parts[..i + 1][..i] == parts[..i];
  }

  /** Part `i` appears in the joined text right after the parts before it. */
  lemma JoinAt(parts: seq<string>, i: nat)
    requires i < |parts|
    ensures OccursAt(parts[i], Join(parts), |Join(parts[..i])|)
  {
    JoinSplit(parts, i + 1);
    var pre := parts[..i + 1];
    assert pre[..|pre| - 1] == parts[..i];
    var a := Join(parts[..i]);
    var c := Join(parts[i + 1..]);
    assert Join(parts) == a + parts[i] + c;
    assert (a + parts[i] + c)[|a|..|a| + |parts[i]|] == parts[i];
  }

  /** Behind a fixed header, part `i` still appears right after the header and the parts before it. */
  lemma JoinAtAfter(header: string, parts: seq<string>, i: nat)
    requires i < |parts|
    ensures OccursAt(parts[i], header + Join(parts), |header| + |Join(parts[..i])|)
  {
    JoinAt(parts, i);
    var j := Join(parts);
    var a := |Join(parts[..i])|;
    assert (header + j)[|header| + a..|header| + a + |parts[i]|] == j[a..a + |parts[i]|];
  }

  predicate IsDigit(c: char) {
    '0' <= c <= '9'
  }

  function DigitChar(d: nat): (c: char)
    requires d < 10
    ensures IsDigit(c)
  {
    ('0' as int + d) as char
  }

  /** `str(n)` for a natural number: its decimal digits, most significant first. */
  function NatToString(n: nat): (s: string)
    ensures s != []
    ensures forall k :: 0 <= k < |s| ==> IsDigit(s[k])
  {
    if n < 10 then [DigitChar(n)] else NatToString(n / 10) + [DigitChar(n % 10)]
  }

  /** `int(s)` for a string of decimal digits. */
  function ParseDecimal(s: string): nat
    requires forall k :: 0 <= k < |s| ==> IsDigit(s[k])
  {
    if s == [] then 0
    else
      assert IsDigit(s[|s| - 1]);
      10 * ParseDecimal(s[..|s| - 1]) + (s[|s| - 1] as int - '0' as int)
  }

  /** `int(str(n)) == n`. */
  lemma {:induction false} ParseNatToString(n: nat)
    ensures ParseDecimal(NatToString(n)) == n
  {
    if n >= 10 {
      var s := NatToString(n);
      assert s[..|s| - 1] == NatToString(n / 10);
      ParseNatToString(n / 10);
    }
  }

  /** Distinct numbers have distinct decimal strings. */
  lemma NatToStringInjective(m: nat, n: nat)
    requires NatToString(m) == NatToString(n)
    ensures m == n
  {
    ParseNatToString(m);
    ParseNatToString(n);
  }

  /** Python's `repr` of one string that holds no quote or backslash: `'s'`. */
  function QuotedRepr(s: string): string {
    "'" + s + "'"
  }

  /** The `i`-th item's part of a list repr: its quoted text, after a `", "` unless it is the first. */
  function ReprPart(items: seq<string>, i: nat): string
    requires i < |items|
  {
    (if i == 0 then "" else ", ") + QuotedRepr(items[i])
  }

  /** The parts of a list repr, one per item, in list order. */
  function ReprParts(items: seq<string>): (parts: seq<string>)
    ensures |parts| == |items|
    ensures forall i :: 0 <= i < |items| ==> parts[i] == ReprPart(items, i)
  {
    seq(|items|, i requires 0 <= i < |items| => ReprPart(items, i))
  }

  /** `repr(items)` for a list of strings free of quotes and backslashes. */
  function ListRepr(items: seq<string>): (r: string)
    ensures |r| >= 2 && r[0] == '[' && r[|r| - 1] == ']'
  {
    "[" + Join(ReprParts(items)) + "]"
  }

  /**
   * The items of a list repr, in order: item `i` appears quoted right after
   * the bracket and the earlier items' parts, preceded by `", "` unless it is
   * the first, and the next item's part starts right after it.
   */
  lemma ListReprItem(items: seq<string>, i: nat)
    requires i < |items|
    ensures var parts := ReprParts(items);
            var at := 1 + |Join(parts[..i])|;
            var sep := if i == 0 then 0 else 2;
            && (i > 0 ==> OccursAt(", ", ListRepr(items), at))
            && OccursAt(QuotedRepr(items[i]), ListRepr(items), at + sep)
            && |Join(parts[..i + 1])| == |Join(parts[..i])| + sep + |items[i]| + 2
  {
    var parts := ReprParts(items);
    JoinAtAfter("[", parts, i);
    JoinSnoc(parts, i);
    var at := 1 + |Join(parts[..i])|;
    OccursInPrefix(parts[i], "[" + Join(parts), "]", at);
    if i > 0 {
      OccursSplit(", ", QuotedRepr(items[i]), ListRepr(items), at);
    }
  }

  /** An occurrence in `a` is an occurrence at the same index in `a + b`. */
  lemma OccursInPrefix(needle: string, a: string, b: string, k: int)
    requires OccursAt(needle, a, k)
    ensures OccursAt(needle, a + b, k)
  {
    assert (a + b)[k..k + |needle|] == a[k..k + |needle|];
  }

  /** In `pre + x + post`, `x` sits right after `pre` and `post` is the rest. */
  lemma Framed(pre: string, x: string, post: string)
    ensures OccursAt(x, pre + x + post, |pre|)
    ensures (pre + x + post)[|pre| + |x|..] == post
  {
    assert (pre + x + post)[|pre|..|pre| + |x|] == x;
  }

  /** An occurrence of `x + y` holds `x` at its start and `y` right after it. */
  lemma OccursSplit(x: string, y: string, hay: string, k: int)
    requires OccursAt(x + y, hay, k)
    ensures OccursAt(x, hay, k) && OccursAt(y, hay, k + |x|)
  {
    assert hay[k..k + |x|] == (x + y)[..|x|];
    assert hay[k + |x|..k + |x| + |y|] == (x + y)[|x|..];
  }

  /** The repr of a one-item list: the item in single quotes, in brackets. */
  lemma SingletonListRepr(item: string)
    ensures ListRepr([item]) == "['" + item + "']"
  {
    var parts := ReprParts([item]);
    assert parts[0] == ReprPart([item], 0) == QuotedRepr(item);
    assert Join(parts) == Join(parts[..0]) + parts[0];
  }
}
