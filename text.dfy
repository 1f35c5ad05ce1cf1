/**
  The JavaScript string operations the identity code relies on: `trim`, `toLowerCase` (on ASCII),
  truthiness, `replace` with a string pattern, and the two `split`s that extract a media id.
*/
module Text {
  import opened Wrappers

  /** The characters JavaScript counts as white space (`String.prototype.trim`, `\s` in a regex). */
  predicate IsSpace(c: char) {
    || c == ' ' || c == '\t' || c == '\n' || c == '\U{0B}' || c == '\U{0C}' || c == '\r'
    || c == '\U{A0}' || c == '\U{1680}' || ('\U{2000}' <= c <= '\U{200A}')
    || c == '\U{2028}' || c == '\U{2029}' || c == '\U{202F}' || c == '\U{205F}'
    || c == '\U{3000}' || c == '\U{FEFF}'
  }

  predicate IsLowerLetter(c: char) { 'a' <= c <= 'z' }
  predicate IsUpperLetter(c: char) { 'A' <= c <= 'Z' }
  predicate IsLetter(c: char) { IsLowerLetter(c) || IsUpperLetter(c) }
  predicate IsDigit(c: char) { '0' <= c <= '9' }

  predicate AllSpace(s: string) { forall i :: 0 <= i < |s| ==> IsSpace(s[i]) }

  /** JavaScript truthiness of a request field that may be absent: present and not "". */
  predicate Truthy(s: Option<string>) { s.Some? && s.value != "" }

  /** `s.trimStart()`: drops the white space at the start. */
  function TrimStart(s: string): (r: string)
    ensures |r| <= |s|
  {
    if s != [] && IsSpace(s[0]) then TrimStart(s[1..]) else s
  }

  /** `s.trimEnd()`: drops the white space at the end. */
  function TrimEnd(s: string): (r: string)
    ensures |r| <= |s|
  {
    if s != [] && IsSpace(s[|s| - 1]) then TrimEnd(s[..|s| - 1]) else s
  }

  /** `trimStart` gives the longest suffix of `s` not starting with white space. */
  lemma {:induction false} TrimStartSpec(s: string)
    ensures var r := TrimStart(s);
            && |r| <= |s| && r == s[|s| - |r|..]
            && AllSpace(s[..|s| - |r|])
            && (r == [] || !IsSpace(r[0]))
    decreases |s|
  {
    if s != [] && IsSpace(s[0]) {
      TrimStartSpec(s[1..]);
      var r := TrimStart(s[1..]);
      var k := |s| - |r|;
      assert s[1..][k - 1..] == s[k..];
      forall i | 0 <= i < k ensures IsSpace(s[..k][i]) {
        if i > 0 { assert s[..k][i] == s[1..][..k - 1][i - 1]; }
      }
    }
  }

  /** `trimEnd` gives the longest prefix of `s` not ending with white space. */
  lemma {:induction false} TrimEndSpec(s: string)
    ensures var r := TrimEnd(s);
            && |r| <= |s| && r == s[..|r|]
            && AllSpace(s[|r|..])
            && (r == [] || !IsSpace(r[|r| - 1]))
    decreases |s|
  {
    if s != [] && IsSpace(s[|s| - 1]) {
      TrimEndSpec(s[..|s| - 1]);
      var r := TrimEnd(s[..|s| - 1]);
      assert s[|r|..] == s[..|s| - 1][|r|..] + [s[|s| - 1]];
    }
  }

  /** `s.trim()`. */
  function Trim(s: string): (r: string)
    ensures |r| <= |s|
  {
    TrimEnd(TrimStart(s))
  }

  /** `!s?.trim()`: the field is absent or holds only white space. */
  predicate IsBlank(s: Option<string>) {
    s.None? || Trim(s.value) == []
  }

  /** `trim` removes exactly the white space at both ends: the result is a slice of `s`, what lies
      outside the slice is white space, and the slice neither starts nor ends with white space. */
  lemma TrimIsSlice(s: string)
    ensures var k := |s| - |TrimStart(s)|;
            var r := Trim(s);
            k + |r| <= |s| && r == s[k..k + |r|]
            && AllSpace(s[..k]) && AllSpace(s[k + |r|..])
            && (r == [] || (!IsSpace(r[0]) && !IsSpace(r[|r| - 1])))
  {
    var t := TrimStart(s);
    var k := |s| - |t|;
    var r := TrimEnd(t);
    TrimStartSpec(s);
    TrimEndSpec(t);
    assert t == s[k..];
    assert t[|r|..] == s[k + |r|..];
    assert t[..|r|] == s[k..k + |r|];
  }

  /** A field is blank exactly when it is absent or all of its characters are white space. */
  lemma BlankIffAllSpace(s: string)
    ensures IsBlank(Some(s)) <==> AllSpace(s)
  {
    TrimIsSlice(s);
    TrimStartSpec(s);
    TrimEndSpec(TrimStart(s));
    var k := |s| - |TrimStart(s)|;
    var r := Trim(s);
    if r == [] {
      assert TrimStart(s) == [];
      assert s[..k] == s;
    } else {
      assert s[k] == r[0];
    }
  }

  /** A string that neither starts nor ends with white space is its own trim. */
  lemma TrimOfTrimmed(s: string)
    requires s == [] || (!IsSpace(s[0]) && !IsSpace(s[|s| - 1]))
    ensures Trim(s) == s
  {
    assert TrimStart(s) == s;
  }

  /** `c.toLowerCase()` on ASCII upper-case letters; every other character is kept. */
  function LowerChar(c: char): (d: char)
    ensures !IsUpperLetter(d)
  {
    if IsUpperLetter(c) then (c as int + 32) as char else c
  }

  /** `s.toLowerCase()`, restricted to ASCII letters. */
  function Lower(s: string): (r: string)
    ensures |r| == |s|
  {
    seq(|s|, i requires 0 <= i < |s| => LowerChar(s[i]))
  }

  /** What Mongoose's `lowercase` and `trim` setters store for a string. */
  function Normalize(s: string): (r: string) {
    Lower(Trim(s))
  }

  /** A string with no white space at either end. */
  predicate Trimmed(s: string) {
    s == [] || (!IsSpace(s[0]) && !IsSpace(s[|s| - 1]))
  }

  /** A string without upper-case letters. */
  predicate NoUpper(s: string) {
    forall i :: 0 <= i < |s| ==> !IsUpperLetter(s[i])
  }

  /** A normalized string is trimmed and has no upper-case letter. */
  predicate Normalized(s: string) {
    Trimmed(s) && NoUpper(s)
  }

  /** `trim` leaves exactly the trimmed strings unchanged. */
  lemma TrimmedIff(s: string)
    ensures Trimmed(s) <==> Trim(s) == s
  {
    TrimIsSlice(s);
    if Trimmed(s) {
      TrimOfTrimmed(s);
    }
  }

  /** `toLowerCase` leaves exactly the strings without upper-case letters unchanged. */
  lemma NoUpperIff(s: string)
    ensures NoUpper(s) <==> Lower(s) == s
  {
    if Lower(s) == s {
      forall i | 0 <= i < |s| ensures !IsUpperLetter(s[i]) {
        assert Lower(s)[i] == LowerChar(s[i]);
      }
    }
  }

  /** A normalized string is a fixed point of both setters. */
  lemma NormalizedIff(s: string)
    ensures Normalized(s) <==> Trim(s) == s && Lower(s) == s
  {
    TrimmedIff(s);
    NoUpperIff(s);
  }

  /** The setters produce a value they would leave unchanged: trimmed and lower-case. */
  lemma NormalizeIsNormalized(s: string)
    ensures Normalized(Normalize(s))
    ensures |Normalize(s)| == |Trim(s)|
  {
    var t := Trim(s);
    TrimIsSlice(s);
    if t != [] {
      LowerKeepsSpace(t[0]);
      LowerKeepsSpace(t[|t| - 1]);
    }
  }

  /** The result of `trim` is trimmed. */
  lemma TrimIsTrimmed(s: string)
    ensures Trimmed(Trim(s))
  {
    TrimIsSlice(s);
  }

  /** Lower-casing never turns white space into something else, or the reverse. */
  lemma LowerKeepsSpace(c: char)
    ensures IsSpace(LowerChar(c)) <==> IsSpace(c)
  {
  }

  /** The position of the first occurrence of `pat` in `s`, if any. */
  predicate OccursAt(s: string, pat: string, i: nat) {
    i + |pat| <= |s| && s[i..i + |pat|] == pat
  }

  /** `s.replace(pat, "")` for a string pattern: removes the first occurrence of `pat`. */
  function RemoveFirst(s: string, pat: string): (r: string)
    ensures |r| <= |s|
    decreases |s|
  {
    if |s| < |pat| then s
    else if s[..|pat|] == pat then s[|pat|..]
    else
      assert s != [];
      [s[0]] + RemoveFirst(s[1..], pat)
  }

  /** An occurrence in the tail of `s` is an occurrence in `s` one position later. */
  lemma OccursInTail(s: string, pat: string, j: nat)
    requires s != []
    ensures OccursAt(s[1..], pat, j) <==> OccursAt(s, pat, j + 1)
  {
    if j + |pat| <= |s| - 1 {
      assert s[1..][j..j + |pat|] == s[j + 1..j + 1 + |pat|];
    }
  }

  /** If the pattern does not occur, `replace` returns the string unchanged. */
  lemma {:induction false} RemoveFirstAbsent(s: string, pat: string)
    requires forall i: nat :: !OccursAt(s, pat, i)
    ensures RemoveFirst(s, pat) == s
    decreases |s|
  {
    if |s| >= |pat| {
      assert !OccursAt(s, pat, 0);
      var t := s[1..];
      forall i: nat ensures !OccursAt(t, pat, i) {
        OccursInTail(s, pat, i);
      }
      RemoveFirstAbsent(t, pat);
    }
  }

  /** `replace` deletes the first occurrence of the pattern and keeps everything around it. */
  lemma {:induction false} RemoveFirstAt(s: string, pat: string, i: nat)
    requires OccursAt(s, pat, i)
    requires forall j: nat :: j < i ==> !OccursAt(s, pat, j)
    ensures RemoveFirst(s, pat) == s[..i] + s[i + |pat|..]
    decreases i
  {
    if i == 0 {
      assert s[..|pat|] == pat;
    } else {
      assert !OccursAt(s, pat, 0);
      assert s[..|pat|] == s[0..0 + |pat|];
      var t := s[1..];
      assert RemoveFirst(s, pat) == [s[0]] + RemoveFirst(t, pat);
      OccursInTail(s, pat, i - 1);
      forall j: nat | j < i - 1 ensures !OccursAt(t, pat, j) {
        OccursInTail(s, pat, j);
      }
      RemoveFirstAt(t, pat, i - 1);
      assert [s[0]] + t[..i - 1] == s[..i];
      assert t[i - 1 + |pat|..] == s[i + |pat|..];
    }
  }

  /** `s.split(sep).pop()`: the text after the last `sep`, or all of `s` when there is none. */
  function AfterLast(s: string, sep: char): (r: string)
    ensures |r| <= |s| && r == s[|s| - |r|..]
    ensures sep !in r
    ensures |r| == |s| || s[|s| - |r| - 1] == sep
  {
    if s == [] || s[|s| - 1] == sep then []
    else
      var r := AfterLast(s[..|s| - 1], sep);
      assert s[..|s| - 1][|s| - 1 - |r|..] + [s[|s| - 1]] == s[|s| - |r| - 1..];
      r + [s[|s| - 1]]
  }

  /** `s.split(sep)[0]`: the text before the first `sep`, or all of `s` when there is none. */
  function BeforeFirst(s: string, sep: char): (r: string)
    ensures |r| <= |s| && r == s[..|r|]
    ensures sep !in r
    ensures |r| == |s| || s[|r|] == sep
  {
    if s == [] || s[0] == sep then []
    else
      var r := BeforeFirst(s[1..], sep);
      assert [s[0]] + s[1..][..|r|] == s[..|r| + 1];
      [s[0]] + r
  }

  /** The text after a separator (or the whole string, when nothing precedes it) is what
      `split(sep).pop()` gives, provided it holds no separator itself. */
  lemma {:induction false} AfterLastOfSuffix(p: string, t: string, sep: char)
    requires p == [] || p[|p| - 1] == sep
    requires sep !in t
    ensures AfterLast(p + t, sep) == t
    decreases |t|
  {
    if t == [] {
      assert p + t == p;
    } else {
      var init, last := t[..|t| - 1], t[|t| - 1];
      assert t == init + [last];
      assert last in t;
      var s := (p + init) + [last];
      assert p + t == s;
      assert s[..|s| - 1] == p + init;
      AfterLastStep(s, sep);
      AfterLastOfSuffix(p, init, sep);
    }
  }

  /** One step of `AfterLast`: a last character other than `sep` is kept. */
  lemma AfterLastStep(s: string, sep: char)
    requires s != [] && s[|s| - 1] != sep
    ensures AfterLast(s, sep) == AfterLast(s[..|s| - 1], sep) + [s[|s| - 1]]
  {
  }

  /** The text before a separator (or the whole string, when nothing follows it) is what
      `split(sep)[0]` gives, provided it holds no separator itself. */
  lemma {:induction false} BeforeFirstOfPrefix(t: string, rest: string, sep: char)
    requires rest == [] || rest[0] == sep
    requires sep !in t
    ensures BeforeFirst(t + rest, sep) == t
    decreases |t|
  {
    if t == [] {
      assert t + rest == rest;
    } else {
      var s := t + rest;
      assert s[0] == t[0];
      assert s[1..] == t[1..] + rest;
      BeforeFirstOfPrefix(t[1..], rest, sep);
      assert [t[0]] + t[1..] == t;
    }
  }
}
