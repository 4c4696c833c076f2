/** String primitives both halves of the application lean on: trimming
    (JavaScript `trim`, Python `strip`), case mapping, substring search, the
    NNNN-NNNN student-id pattern and the decimal conversions between numbers
    and text. Whitespace and case mapping are restricted to ASCII. */
module Text {
  import opened Common

  /** The ASCII whitespace that JavaScript's `trim` removes. Python's `strip`
      also removes the separators `\x1c`-`\x1f`; those count as text here. */
  predicate IsSpace(c: char) {
    c == ' ' || c == '\t' || c == '\n' || c == '\r' || c == '\U{000B}' || c == '\U{000C}'
  }

  predicate AllSpace(s: string) {
    forall i :: 0 <= i < |s| ==> IsSpace(s[i])
  }

  /** `s` neither starts nor ends with whitespace. */
  predicate Unpadded(s: string) {
    s == [] || (!IsSpace(s[0]) && !IsSpace(s[|s| - 1]))
  }

  /** Drops leading whitespace. */
  function TrimStart(s: string): (r: string)
    ensures |r| <= |s| && r == s[|s| - |r|..]
    ensures r == [] || !IsSpace(r[0])
    ensures AllSpace(s[..|s| - |r|])
  {
    if |s| > 0 && IsSpace(s[0]) then TrimStart(s[1..]) else s
  }

  /** JavaScript `String.prototype.trim` and Python `str.strip()` on the
      whitespace `IsSpace` names: it is peeled from the front, then from the
      back, until neither end has any. */
  function Strip(s: string): (r: string)
    ensures Unpadded(r)
    ensures |r| <= |s|
    ensures r == [] <==> AllSpace(s)
    decreases |s|
  {
    if s == [] then []
    else if IsSpace(s[0]) then Strip(s[1..])
    else if IsSpace(s[|s| - 1]) then Strip(s[..|s| - 1])
    else s
  }

  /** A string that is empty once trimmed: the "required" checks of every form. */
  predicate IsBlank(s: string) {
    Strip(s) == []
  }

  lemma BlankIffAllSpace(s: string)
    ensures IsBlank(s) <==> AllSpace(s)
  {
  }

  /** Trimming recovers the core of a padded string, so it is idempotent. */
  lemma {:induction false} StripPadded(pre: string, core: string, post: string)
    requires AllSpace(pre) && AllSpace(post) && Unpadded(core)
    ensures Strip(pre + core + post) == core
    decreases |pre| + |post|
  {
    var s := pre + core + post;
    if pre != [] {
      assert s[0] == pre[0];
      assert s[1..] == pre[1..] + core + post;
      StripPadded(pre[1..], core, post);
    } else if core == [] {
      assert s == post;
    } else if post != [] {
      assert s[0] == core[0];
      assert s[|s| - 1] == post[|post| - 1];
      assert s[..|s| - 1] == pre + core + post[..|post| - 1];
      StripPadded(pre, core, post[..|post| - 1]);
    } else {
      assert s == core;
    }
  }

  /** An unpadded string is its own trim. */
  lemma StripUnpadded(s: string)
    requires Unpadded(s)
    ensures Strip(s) == s
  {
    StripPadded([], s, []);
    assert [] + s + [] == s;
  }

  lemma StripIdempotent(s: string)
    ensures Strip(Strip(s)) == Strip(s)
  {
    StripUnpadded(Strip(s));
  }

  /** Every string is its trim with whitespace around it. */
  lemma {:induction false} StripSplit(s: string) returns (pre: string, post: string)
    ensures s == pre + Strip(s) + post
    ensures AllSpace(pre) && AllSpace(post)
    decreases |s|
  {
    if s == [] {
      pre, post := [], [];
    } else if IsSpace(s[0]) {
      var p, q := StripSplit(s[1..]);
      pre, post := [s[0]] + p, q;
      assert s == [s[0]] + s[1..];
    } else if IsSpace(s[|s| - 1]) {
      var p, q := StripSplit(s[..|s| - 1]);
      pre, post := p, q + [s[|s| - 1]];
      assert s == s[..|s| - 1] + [s[|s| - 1]];
    } else {
      pre, post := [], [];
      assert s == [] + s + [];
    }
  }

  /** Extra whitespace around a string does not change its trim. */
  lemma StripIgnoresPadding(pre: string, s: string, post: string)
    requires AllSpace(pre) && AllSpace(post)
    ensures Strip(pre + s + post) == Strip(s)
  {
    var a, b := StripSplit(s);
    assert pre + s + post == (pre + a) + Strip(s) + (b + post);
    StripPadded(pre + a, Strip(s), b + post);
  }

  /** Upper-casing leaves whitespace alone, so it commutes with trimming. */
  lemma StripUpper(s: string)
    ensures Strip(Upper(s)) == Upper(Strip(s))
  {
    var a, b := StripSplit(s);
    var core := Strip(s);
    UpperConcat(a, core);
    UpperConcat(a + core, b);
    UpperKeepsSpace(a);
    UpperKeepsSpace(b);
    UpperKeepsUnpadded(core);
    StripPadded(Upper(a), Upper(core), Upper(b));
  }

  lemma UpperKeepsSpace(s: string)
    requires AllSpace(s)
    ensures AllSpace(Upper(s))
  {
    forall i | 0 <= i < |s| ensures IsSpace(Upper(s)[i]) {
      assert IsSpace(s[i]);
    }
  }

  lemma UpperKeepsUnpadded(s: string)
    requires Unpadded(s)
    ensures Unpadded(Upper(s))
  {
    if s != [] {
      assert Upper(s)[0] == UpperChar(s[0]);
      assert Upper(s)[|s| - 1] == UpperChar(s[|s| - 1]);
    }
  }

  /** Upper-casing works character by character, so it distributes over `+`. */
  lemma UpperConcat(x: string, y: string)
    ensures Upper(x + y) == Upper(x) + Upper(y)
  {
    assert forall i :: 0 <= i < |x + y| ==> Upper(x + y)[i] == (Upper(x) + Upper(y))[i];
  }

  function UpperChar(c: char): char {
    if 'a' <= c <= 'z' then (c as int - 32) as char else c
  }

  function LowerChar(c: char): char {
    if 'A' <= c <= 'Z' then (c as int + 32) as char else c
  }

  /** `toUpperCase` / `upper()` / SQL `UPPER`. */
  function Upper(s: string): (r: string)
    ensures |r| == |s|
    ensures forall i :: 0 <= i < |s| ==> r[i] == UpperChar(s[i])
  {
    seq(|s|, i requires 0 <= i < |s| => UpperChar(s[i]))
  }

  /** `toLowerCase` / `lower()`. */
  function Lower(s: string): (r: string)
    ensures |r| == |s|
    ensures forall i :: 0 <= i < |s| ==> r[i] == LowerChar(s[i])
  {
    seq(|s|, i requires 0 <= i < |s| => LowerChar(s[i]))
  }

  /** Case mapping works character by character, so it commutes with slicing. */
  lemma LowerSlice(s: string, i: int, j: int)
    requires 0 <= i <= j <= |s|
    ensures Lower(s)[i..j] == Lower(s[i..j])
  {
    forall k | 0 <= k < j - i
      ensures Lower(s)[i..j][k] == Lower(s[i..j])[k]
    {
      assert s[i..j][k] == s[i + k];
    }
  }

  /** No character of `s` is an ASCII capital. */
  predicate NoCapitals(s: string) {
    s == [] || (!('A' <= s[0] <= 'Z') && NoCapitals(s[1..]))
  }

  /** A string without capitals is its own lower-case form. */
  lemma {:induction false} LowerNoCapitals(s: string)
    requires NoCapitals(s)
    ensures Lower(s) == s
  {
    if s != [] {
      LowerNoCapitals(s[1..]);
    }
  }

  /** Conversely, a string that lower-casing leaves alone has no capitals. */
  lemma {:induction false} NoCapitalsOfLower(s: string)
    requires Lower(s) == s
    ensures NoCapitals(s)
  {
    if s != [] {
      assert LowerChar(s[0]) == s[0];
      assert Lower(s[1..]) == Lower(s)[1..];
      NoCapitalsOfLower(s[1..]);
    }
  }

  lemma UpperIdempotent(s: string)
    ensures Upper(Upper(s)) == Upper(s)
  {
  }

  predicate StartsWith(s: string, prefix: string) {
    |prefix| <= |s| && s[..|prefix|] == prefix
  }

  /** The needle occurs in the haystack starting at offset `k`. */
  predicate OccursAt(hay: string, needle: string, k: int) {
    0 <= k && k + |needle| <= |hay| && hay[k..k + |needle|] == needle
  }

  /** `includes` / Python's `in` on strings: the needle occurs at some offset. */
  predicate Contains(hay: string, needle: string) {
    exists k :: 0 <= k <= |hay| && OccursAt(hay, needle, k)
  }

  lemma ContainsAt(hay: string, needle: string, k: nat)
    requires k + |needle| <= |hay| && hay[k..k + |needle|] == needle
    ensures Contains(hay, needle)
  {
    assert OccursAt(hay, needle, k);
  }

  lemma ContainsWitness(hay: string, needle: string) returns (k: nat)
    requires Contains(hay, needle)
    ensures k + |needle| <= |hay| && hay[k..k + |needle|] == needle
  {
    var j :| 0 <= j <= |hay| && OccursAt(hay, needle, j);
    k := j;
  }

  predicate IsDigit(c: char) {
    '0' <= c <= '9'
  }

  predicate AllDigits(s: string) {
    forall i :: 0 <= i < |s| ==> IsDigit(s[i])
  }

  /** The pattern `^\d{4}-\d{4}$`, anchored at both ends. */
  predicate IsStudentIdFormat(s: string) {
    && |s| == 9
    && s[4] == '-'
    && AllDigits(s[..4])
    && AllDigits(s[5..])
  }

  /** Python's `re.match(r'^\d{4}-\d{4}$', s)`: there `$` also matches just
      before one final newline. */
  predicate PyMatchesStudentId(s: string) {
    IsStudentIdFormat(s) || (|s| == 10 && s[9] == '\n' && IsStudentIdFormat(s[..9]))
  }

  /** On trimmed input Python's match and the anchored pattern agree. */
  lemma PyMatchOnStripped(s: string)
    ensures PyMatchesStudentId(Strip(s)) <==> IsStudentIdFormat(Strip(s))
  {
  }

  /** An id in the NNNN-NNNN format starts and ends with a digit, so stripping keeps it. */
  lemma StudentIdUnpadded(s: string)
    requires IsStudentIdFormat(s)
    ensures Unpadded(s) && Strip(s) == s
  {
    assert s[..4][0] == s[0] && s[5..][3] == s[8];
    StripUnpadded(s);
  }

  lemma StudentIdExamples()
    ensures IsStudentIdFormat("2024-0001")
    ensures !IsStudentIdFormat("2024-1")
    ensures !IsStudentIdFormat("20240001")
  {
  }

  function DigitChar(d: nat): (c: char)
    requires d < 10
    ensures IsDigit(c)
  {
    ('0' as int + d) as char
  }

  function DigitValue(c: char): nat
    requires IsDigit(c)
  {
    c as int - '0' as int
  }

  /** The number a non-empty run of decimal digits denotes. */
  function DigitsValue(s: string): nat
    requires AllDigits(s)
  {
    if s == [] then 0 else DigitsValue(s[..|s| - 1]) * 10 + DigitValue(s[|s| - 1])
  }

  /** Decimal rendering of a natural number (`${n}`, `str(n)`). */
  function NatToString(n: nat): (r: string)
    ensures |r| >= 1 && AllDigits(r)
    ensures DigitsValue(r) == n
    ensures r[0] != '0' || n == 0
  {
    if n < 10 then [DigitChar(n)]
    else
      var p := NatToString(n / 10);
      var r := p + [DigitChar(n % 10)];
      assert r[..|r| - 1] == p;
      r
  }

  /** Decimal rendering of an integer, with a leading minus when negative. */
  function IntToString(i: int): string {
    if i < 0 then "-" + NatToString(-i) else NatToString(i)
  }

  /** The longest prefix of decimal digits. */
  function DigitPrefix(s: string): (r: string)
    ensures |r| <= |s| && r == s[..|r|] && AllDigits(r)
    ensures |r| == |s| || !IsDigit(s[|r|])
  {
    if s != [] && IsDigit(s[0]) then
      var t := DigitPrefix(s[1..]);
      assert [s[0]] + t == s[..|t| + 1];
      [s[0]] + t
    else []
  }

  /** Python's `int(text)`: surrounding whitespace, an optional sign, then at
      least one digit and nothing else (digit-group underscores are not modelled). */
  function PyParseInt(text: string): Option<int> {
    var t := Strip(text);
    if t != [] && (t[0] == '-' || t[0] == '+') then
      (if t[1..] != [] && AllDigits(t[1..])
       then Some(if t[0] == '-' then -(DigitsValue(t[1..]) as int) else DigitsValue(t[1..]))
       else None)
    else if t != [] && AllDigits(t) then Some(DigitsValue(t))
    else None
  }

  /** JavaScript's `parseInt(text, 10)`: leading whitespace, an optional sign,
      then the longest digit prefix; `None` stands for `NaN`. */
  function JsParseInt(text: string): Option<int> {
    var t := TrimStart(text);
    var signed := t != [] && (t[0] == '-' || t[0] == '+');
    var body := if signed then t[1..] else t;
    var digits := DigitPrefix(body);
    if digits == [] then None
    else Some(if signed && t[0] == '-' then -(DigitsValue(digits) as int) else DigitsValue(digits))
  }

  /** Decimal renderings carry no surrounding whitespace. */
  lemma StripRendered(i: int)
    ensures Strip(IntToString(i)) == IntToString(i)
  {
    var s := IntToString(i);
    assert !IsSpace(s[0]) && !IsSpace(s[|s| - 1]);
    StripPadded([], s, []);
    assert [] + s + [] == s;
  }

  /** Python's `int()` reads back what the decimal rendering wrote. */
  lemma PyParseIntRoundTrip(i: int)
    ensures PyParseInt(IntToString(i)) == Some(i)
  {
    var s := IntToString(i);
    StripRendered(i);
    if i < 0 {
      var d := NatToString(-i);
      assert s[1..] == d;
      assert s[0] == '-';
    } else {
      assert IsDigit(s[0]);
    }
  }

  /** JavaScript's `parseInt` reads back what the decimal rendering wrote. */
  lemma JsParseIntRoundTrip(i: int)
    ensures JsParseInt(IntToString(i)) == Some(i)
  {
    var s := IntToString(i);
    if i < 0 {
      assert s[0] == '-' && s[1..] == NatToString(-i);
      JsParseIntNegative(s);
    } else {
      JsParseIntDigits(s);
    }
  }

  /** A bare run of digits parses to its value. */
  lemma JsParseIntDigits(d: string)
    requires d != [] && AllDigits(d)
    ensures JsParseInt(d) == Some(DigitsValue(d))
  {
    TrimStartKeeps(d);
    AllDigitsPrefix(d);
  }

  /** A minus sign before a run of digits negates its value. */
  lemma JsParseIntNegative(t: string)
    requires |t| >= 2 && t[0] == '-' && AllDigits(t[1..])
    ensures JsParseInt(t) == Some(-(DigitsValue(t[1..]) as int))
  {
    TrimStartKeeps(t);
    AllDigitsPrefix(t[1..]);
  }

  /** A string that does not start with whitespace is left alone by `TrimStart`. */
  lemma TrimStartKeeps(s: string)
    requires s != [] && !IsSpace(s[0])
    ensures TrimStart(s) == s
  {
  }

  lemma {:induction false} AllDigitsPrefix(s: string)
    requires AllDigits(s)
    ensures DigitPrefix(s) == s
  {
    if s != [] {
      AllDigitsPrefix(s[1..]);
    }
  }
}
