/** String operations the PHP and JavaScript code relies on: trimming,
    splitting and joining on one character, searching, ASCII case mapping
    and decimal rendering. Strings are sequences of Unicode scalar values. */
module Text {
  import opened Values

  /** The characters PHP's `trim($s)` strips when given no character list. */
  const PhpWhitespace: set<char> := {' ', '\t', '\n', '\r', '\0', '\U{000B}'}

  /** The characters JavaScript's `String.prototype.trim` strips: white space
      and line terminators of ECMA-262. */
  const JsWhitespace: set<char> :=
    {'\t', '\n', '\U{000B}', '\U{000C}', '\r', ' ', '\U{00A0}', '\U{1680}',
     '\U{2000}', '\U{2001}', '\U{2002}', '\U{2003}', '\U{2004}', '\U{2005}',
     '\U{2006}', '\U{2007}', '\U{2008}', '\U{2009}', '\U{200A}', '\U{2028}',
     '\U{2029}', '\U{202F}', '\U{205F}', '\U{3000}', '\U{FEFF}'}

  /** Where the text is left after dropping the leading characters that
      belong to `cs`. */
  function TrimStart(s: string, cs: set<char>): (i: nat)
    ensures i <= |s|
    ensures i < |s| ==> s[i] !in cs
    ensures forall k :: 0 <= k < i ==> s[k] in cs
    decreases |s|
  {
    if |s| > 0 && s[0] in cs then 1 + TrimStart(s[1..], cs) else 0
  }

  /** Where the text ends after dropping the trailing characters that
      belong to `cs`, never going back past `i`. */
  function TrimEnd(s: string, cs: set<char>, i: nat): (j: nat)
    requires i <= |s|
    ensures i <= j <= |s|
    ensures j > i ==> s[j - 1] !in cs
    ensures forall k :: j <= k < |s| ==> s[k] in cs
    decreases |s|
  {
    if |s| > i && s[|s| - 1] in cs then TrimEnd(s[..|s| - 1], cs, i) else |s|
  }

  /** PHP `trim($s, $chars)` and JavaScript `trim()`, with the stripped
      characters given as a set. */
  function Trim(s: string, cs: set<char>): string {
    var i := TrimStart(s, cs);
    s[i..TrimEnd(s, cs, i)]
  }

  /** What trimming leaves: a contiguous piece of `s` whose ends are not in
      `cs`, and everything cut away on either side is in `cs`. */
  lemma TrimIsSlice(s: string, cs: set<char>)
    ensures var i, r := TrimStart(s, cs), Trim(s, cs);
      i + |r| <= |s| && r == s[i..i + |r|] &&
      (forall k :: 0 <= k < i ==> s[k] in cs) &&
      (forall k :: i + |r| <= k < |s| ==> s[k] in cs)
    ensures var r := Trim(s, cs); r == [] || (r[0] !in cs && r[|r| - 1] !in cs)
  {
    var i := TrimStart(s, cs);
    var j := TrimEnd(s, cs, i);
    if i < |s| {
      assert j > i;
    }
  }

  /** Every character of `s` is in `cs`. */
  predicate AllIn(s: string, cs: set<char>) {
    forall k :: 0 <= k < |s| ==> s[k] in cs
  }

  /** Trimming leaves nothing exactly when every character is trimmed. */
  lemma TrimEmpty(s: string, cs: set<char>)
    ensures Trim(s, cs) == [] <==> AllIn(s, cs)
  {
    TrimIsSlice(s, cs);
  }

  /** Index of the first occurrence of `c` in `s`, or `|s|` when there is none. */
  function IndexOf(s: string, c: char): (r: nat)
    ensures r <= |s|
    ensures r < |s| ==> s[r] == c
    ensures forall k :: 0 <= k < r ==> s[k] != c
    decreases |s|
  {
    if |s| == 0 then 0 else if s[0] == c then 0 else 1 + IndexOf(s[1..], c)
  }

  /** PHP `explode($sep, $s)` and JavaScript `s.split(sep)` for a one-character
      separator: the pieces between the separators, at least one. */
  function Split(s: string, sep: char): (parts: seq<string>)
    ensures |parts| >= 1
    decreases |s|
  {
    if |s| == 0 then [""]
    else if s[0] == sep then [""] + Split(s[1..], sep)
    else
      var rest := Split(s[1..], sep);
      [[s[0]] + rest[0]] + rest[1..]
  }

  /** PHP `implode($sep, $parts)` and JavaScript `parts.join(sep)`. */
  function Join(parts: seq<string>, sep: char): string
    decreases |parts|
  {
    if |parts| == 0 then ""
    else if |parts| == 1 then parts[0]
    else parts[0] + [sep] + Join(parts[1..], sep)
  }

  /** Splitting and joining again gives back the original string. */
  lemma {:induction false} JoinSplit(s: string, sep: char)
    ensures Join(Split(s, sep), sep) == s
    decreases |s|
  {
    if |s| == 0 {
    } else if s[0] == sep {
      JoinSplit(s[1..], sep);
      assert s == [sep] + s[1..];
    } else {
      var rest := Split(s[1..], sep);
      var parts := [[s[0]] + rest[0]] + rest[1..];
      assert Split(s, sep) == parts;
      JoinSplit(s[1..], sep);
      assert s == [s[0]] + s[1..];
      if |rest| == 1 {
        assert Join(parts, sep) == [s[0]] + rest[0];
      } else {
        assert parts[1..] == rest[1..];
        assert Join(parts, sep) == ([s[0]] + rest[0]) + [sep] + Join(rest[1..], sep);
        assert Join(rest, sep) == rest[0] + [sep] + Join(rest[1..], sep);
      }
    }
  }

  /** No piece of a split contains the separator. */
  lemma {:induction false} SplitPartsAvoidSeparator(s: string, sep: char)
    ensures forall i :: 0 <= i < |Split(s, sep)| ==> sep !in Split(s, sep)[i]
    decreases |s|
  {
    if |s| > 0 {
      SplitPartsAvoidSeparator(s[1..], sep);
    }
  }

  /** The first piece is the text before the first separator, and there is
      more than one piece exactly when the separator occurs. */
  lemma {:induction false} SplitHead(s: string, sep: char)
    ensures Split(s, sep)[0] == s[..IndexOf(s, sep)]
    ensures |Split(s, sep)| > 1 <==> sep in s
    decreases |s|
  {
    if |s| > 0 && s[0] != sep {
      SplitHead(s[1..], sep);
      assert sep in s <==> sep in s[1..] by {
        assert s == [s[0]] + s[1..];
      }
    }
  }

  /** The pieces after the first are the split of the text after the first
      separator. */
  lemma {:induction false} SplitTail(s: string, sep: char)
    requires sep in s
    ensures IndexOf(s, sep) < |s|
    ensures Split(s, sep)[1..] == Split(s[IndexOf(s, sep) + 1..], sep)
    decreases |s|
  {
    if s[0] != sep {
      assert sep in s[1..] by {
        var k :| 0 <= k < |s| && s[k] == sep;
        assert s[1..][k - 1] == sep;
      }
      SplitTail(s[1..], sep);
      SplitHead(s[1..], sep);
    }
  }

  /** Joining pieces that avoid the separator and splitting again gives
      back the pieces. */
  lemma {:induction false} SplitJoin(parts: seq<string>, sep: char)
    requires |parts| >= 1
    requires forall i :: 0 <= i < |parts| ==> sep !in parts[i]
    ensures Split(Join(parts, sep), sep) == parts
    decreases |parts|, |parts[0]|
  {
    if |parts[0]| > 0 {
      var p0 := parts[0];
      var tail := [p0[1..]] + parts[1..];
      SplitJoin(tail, sep);
      var j := Join(parts, sep);
      assert Join(tail, sep) == j[1..] by {
        if |parts| > 1 {
          assert Join(tail, sep) == p0[1..] + [sep] + Join(tail[1..], sep);
          assert tail[1..] == parts[1..];
        }
      }
      assert j[0] == p0[0];
      assert p0 == [p0[0]] + p0[1..];
      assert p0[0] != sep by { assert p0[0] in p0; }
    } else if |parts| > 1 {
      SplitJoin(parts[1..], sep);
      var j := Join(parts, sep);
      assert j == [sep] + Join(parts[1..], sep);
      assert j[1..] == Join(parts[1..], sep);
    }
  }

  /** `needle` starts at position `k` of `hay`. */
  predicate OccursAt(hay: string, needle: string, k: nat) {
    k + |needle| <= |hay| && hay[k..k + |needle|] == needle
  }

  /** The first position where `needle` starts in `hay`, if any: PHP `strpos`
      and JavaScript `indexOf` for a string argument. */
  function FindSub(hay: string, needle: string): (r: Option<nat>)
    ensures r.Some? ==> OccursAt(hay, needle, r.value)
    ensures r.Some? ==> forall j :: 0 <= j < r.value ==> !OccursAt(hay, needle, j)
    ensures r.None? ==> forall j :: 0 <= j <= |hay| ==> !OccursAt(hay, needle, j)
    decreases |hay|
  {
    if needle <= hay then Some(0)
    else if |hay| == 0 then None
    else
      var rest := FindSub(hay[1..], needle);
      forall j | 1 <= j <= |hay| ensures OccursAt(hay, needle, j) <==> OccursAt(hay[1..], needle, j - 1) {
        if j + |needle| <= |hay| {
          assert hay[j..j + |needle|] == hay[1..][j - 1..j - 1 + |needle|];
        }
      }
      if rest.None? then None else Some(rest.value + 1)
  }

  lemma OccursAtSlice(hay: string, needle: string, k: nat, j: nat)
    requires k <= |hay|
    ensures OccursAt(hay, needle, k + j) <==> OccursAt(hay[k..], needle, j)
  {
    if k + j + |needle| <= |hay| {
      assert hay[k + j..k + j + |needle|] == hay[k..][j..j + |needle|];
    }
  }

  lemma OccursAtPrefix(hay: string, prefix: string, needle: string, j: nat)
    requires prefix <= hay && j + |needle| <= |prefix|
    ensures OccursAt(hay, needle, j) <==> OccursAt(prefix, needle, j)
  {
    assert hay[j..j + |needle|] == prefix[j..j + |needle|];
  }

  lemma NotInSlice(s: string, c: char, i: nat, j: nat)
    requires i <= j <= |s| && c !in s
    ensures c !in s[i..j]
  {
    forall k | 0 <= k < j - i ensures s[i..j][k] != c {
      assert s[i..j][k] == s[i + k];
    }
  }

  /** The first occurrence determines `FindSub`. */
  lemma FindSubFirst(hay: string, needle: string, k: nat)
    requires OccursAt(hay, needle, k)
    requires forall j :: 0 <= j < k ==> !OccursAt(hay, needle, j)
    ensures FindSub(hay, needle) == Some(k)
  {
  }

  /** `needle` occurs in `hay`: JavaScript `hay.includes(needle)`. */
  predicate Contains(hay: string, needle: string) {
    FindSub(hay, needle).Some?
  }

  function LowerChar(c: char): char {
    if 'A' <= c <= 'Z' then (c as int + 32) as char else c
  }

  function UpperChar(c: char): char {
    if 'a' <= c <= 'z' then (c as int - 32) as char else c
  }

  /** `toLowerCase()` on the ASCII letters; other characters are kept. */
  function Lower(s: string): (r: string)
    ensures |r| == |s|
    ensures forall i :: 0 <= i < |s| ==> r[i] == LowerChar(s[i])
    decreases |s|
  {
    if |s| == 0 then "" else [LowerChar(s[0])] + Lower(s[1..])
  }

  /** `toUpperCase()` on the ASCII letters; other characters are kept. */
  function Upper(s: string): (r: string)
    ensures |r| == |s|
    ensures forall i :: 0 <= i < |s| ==> r[i] == UpperChar(s[i])
    decreases |s|
  {
    if |s| == 0 then "" else [UpperChar(s[0])] + Upper(s[1..])
  }

  predicate IsDigit(c: char) {
    '0' <= c <= '9'
  }

  predicate IsAsciiAlphanumeric(c: char) {
    'a' <= c <= 'z' || 'A' <= c <= 'Z' || IsDigit(c)
  }

  predicate IsAscii(s: string) {
    forall i :: 0 <= i < |s| ==> s[i] as int < 128
  }

  function DigitChar(d: nat): char
    requires d < 10
  {
    ('0' as int + d) as char
  }

  /** The decimal rendering of a natural number, as JavaScript's template
      literals and PHP's string interpolation produce it. */
  function NatToString(n: nat): (r: string)
    ensures |r| >= 1
    ensures forall i :: 0 <= i < |r| ==> IsDigit(r[i])
    decreases n
  {
    if n < 10 then [DigitChar(n)] else NatToString(n / 10) + [DigitChar(n % 10)]
  }

  /** The value of a string of decimal digits. */
  function DecimalValue(s: string): nat
    requires forall i :: 0 <= i < |s| ==> IsDigit(s[i])
    decreases |s|
  {
    if |s| == 0 then 0
    else
      assert IsDigit(s[|s| - 1]);
      10 * DecimalValue(s[..|s| - 1]) + (s[|s| - 1] as int - '0' as int)
  }

  /** The decimal rendering is read back as the same number. */
  lemma {:induction false} NatToStringValue(n: nat)
    ensures DecimalValue(NatToString(n)) == n
    decreases n
  {
    if n >= 10 {
      NatToStringValue(n / 10);
      var r := NatToString(n);
      assert r[..|r| - 1] == NatToString(n / 10);
    }
  }
}
