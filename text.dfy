/** String operations of the JavaScript runtime that the application relies on:
    trim, toLowerCase, indexOf / includes, split(' '), join, replace of a literal
    pattern, and the decimal rendering of a natural number.
    Case mapping is modelled on ASCII letters only. */
module Text {
  import opened Sequences

  type String = seq<char>

  /** The characters that `String.prototype.trim` removes and that the regular
      expression class `\s` matches: WhiteSpace and LineTerminator. */
  predicate IsSpace(c: char) {
    var n := c as int;
    (0x09 <= n <= 0x0D) || n == 0x20 || n == 0xA0 || n == 0x1680 ||
    (0x2000 <= n <= 0x200A) || n == 0x2028 || n == 0x2029 || n == 0x202F ||
    n == 0x205F || n == 0x3000 || n == 0xFEFF
  }

  /** The characters that `.` does not match without the `s` flag. */
  predicate IsLineTerminator(c: char) {
    c == '\n' || c == '\r' || c == '\U{2028}' || c == '\U{2029}'
  }

  predicate IsAsciiUpper(c: char) { 'A' <= c <= 'Z' }
  predicate IsAsciiLower(c: char) { 'a' <= c <= 'z' }
  predicate IsAsciiLetter(c: char) { IsAsciiUpper(c) || IsAsciiLower(c) }
  predicate IsDigit(c: char) { '0' <= c <= '9' }

  /** The regular-expression word class `\w`. */
  predicate IsWordChar(c: char) { IsAsciiLetter(c) || IsDigit(c) || c == '_' }

  function LowerChar(c: char): (r: char)
    ensures IsAsciiUpper(c) ==> IsAsciiLower(r)
    ensures !IsAsciiUpper(c) ==> r == c
    ensures IsAsciiLetter(r) <==> IsAsciiLetter(c)
  {
    if IsAsciiUpper(c) then (c as int + 32) as char else c
  }

  /** `toLowerCase` restricted to ASCII letters. */
  function ToLower(s: String): (r: String)
    ensures |r| == |s|
  {
    seq(|s|, i requires 0 <= i < |s| => LowerChar(s[i]))
  }

  /** Each character of `ToLower(s)` is the lower-case form of the character of `s`. */
  lemma ToLowerAt(s: String)
    ensures forall i :: 0 <= i < |s| ==> ToLower(s)[i] == LowerChar(s[i])
  {
  }

  /** The lower-cased text holds no upper-case letter, agrees with the input when case
      is ignored, and leaves every character that is not a letter as it was. */
  lemma ToLowerMeaning(s: String)
    ensures forall i :: 0 <= i < |s| ==> !IsAsciiUpper(ToLower(s)[i])
    ensures forall i :: 0 <= i < |s| ==> SameLetterIgnoringCase(ToLower(s)[i], s[i])
    ensures forall i :: 0 <= i < |s| && !IsAsciiLetter(s[i]) ==> ToLower(s)[i] == s[i]
  {
  }

  /** Lower-casing twice is lower-casing once. */
  lemma ToLowerIdempotent(s: String)
    ensures ToLower(ToLower(s)) == ToLower(s)
  {
    ToLowerMeaning(s);
  }

  /** Lower-casing works character by character, so it distributes over concatenation. */
  lemma ToLowerAppend(a: String, b: String)
    ensures ToLower(a + b) == ToLower(a) + ToLower(b)
  {
    assert forall i :: 0 <= i < |a| ==> (a + b)[i] == a[i];
    assert forall i :: |a| <= i < |a| + |b| ==> (a + b)[i] == b[i - |a|];
  }

  /** Two characters equal under the `i` flag of a (non-unicode) regular expression. */
  predicate SameLetterIgnoringCase(a: char, b: char) {
    LowerChar(a) == LowerChar(b)
  }

  /** `String.prototype.trim`: drop the leading, then the trailing whitespace. */
  function Trim(s: String): (r: String)
    ensures |r| <= |s|
    ensures r == [] || (!IsSpace(r[0]) && !IsSpace(r[|r| - 1]))
    decreases |s|
  {
    if s != [] && IsSpace(s[0]) then Trim(s[1..])
    else if s != [] && IsSpace(s[|s| - 1]) then Trim(s[..|s| - 1])
    else s
  }

  /** What `Trim` removes is whitespace at either end, and what it keeps is one
      contiguous slice of the input. */
  lemma {:induction false} TrimIsSlice(s: String) returns (a: nat, b: nat)
    ensures a <= b <= |s| && Trim(s) == s[a..b]
    ensures forall i :: 0 <= i < a ==> IsSpace(s[i])
    ensures forall i :: b <= i < |s| ==> IsSpace(s[i])
    decreases |s|
  {
    if s != [] && IsSpace(s[0]) {
      var a', b' := TrimIsSlice(s[1..]);
      a, b := a' + 1, b' + 1;
      SpaceSliceFront(s, a', b');
    } else if s != [] && IsSpace(s[|s| - 1]) {
      a, b := TrimIsSlice(s[..|s| - 1]);
      SpaceSliceBack(s, s[..|s| - 1], a, b);
    } else {
      a, b := 0, |s|;
    }
  }

  /** A slice of `s[1..]` with whitespace around it, shifted past a leading space. */
  lemma SpaceSliceFront(s: String, a: nat, b: nat)
    requires s != [] && IsSpace(s[0]) && a <= b <= |s| - 1
    requires forall i :: 0 <= i < a ==> IsSpace(s[1..][i])
    requires forall i :: b <= i < |s| - 1 ==> IsSpace(s[1..][i])
    ensures s[1..][a..b] == s[a + 1..b + 1]
    ensures forall i :: 0 <= i < a + 1 ==> IsSpace(s[i])
    ensures forall i :: b + 1 <= i < |s| ==> IsSpace(s[i])
  {
    forall i | 0 <= i < a + 1 ensures IsSpace(s[i]) {
      if i > 0 { assert s[i] == s[1..][i - 1]; }
    }
    forall i | b + 1 <= i < |s| ensures IsSpace(s[i]) {
      assert s[i] == s[1..][i - 1];
    }
  }

  /** A slice of `s[..|s| - 1]` with whitespace around it, before a trailing space. */
  lemma SpaceSliceBack(s: String, t: String, a: nat, b: nat)
    requires s != [] && IsSpace(s[|s| - 1]) && t == s[..|s| - 1] && a <= b <= |t|
    requires forall i :: 0 <= i < a ==> IsSpace(t[i])
    requires forall i :: b <= i < |t| ==> IsSpace(t[i])
    ensures t[a..b] == s[a..b]
    ensures forall i :: 0 <= i < a ==> IsSpace(s[i])
    ensures forall i :: b <= i < |s| ==> IsSpace(s[i])
  {
    forall i | 0 <= i < a ensures IsSpace(s[i]) {
      assert s[i] == t[i];
    }
    forall i | b <= i < |s| ensures IsSpace(s[i]) {
      if i < |s| - 1 { assert s[i] == t[i]; }
    }
  }

  /** `s.trim() === ''`, the emptiness test the application writes in many places. */
  predicate IsBlank(s: String) {
    Trim(s) == []
  }

  lemma BlankIffAllSpace(s: String)
    ensures IsBlank(s) <==> forall i :: 0 <= i < |s| ==> IsSpace(s[i])
  {
    var a, b := TrimIsSlice(s);
    if !IsBlank(s) {
      assert !IsSpace(s[a]);
    }
  }

  /** Whether `pat` occurs in `s` at position `i`. */
  predicate OccursAt(s: String, pat: String, i: int) {
    0 <= i && i + |pat| <= |s| && s[i..i + |pat|] == pat
  }

  /** `s.indexOf(pat, from)`: the first occurrence at or after `from`, or -1. */
  function IndexOfFrom(s: String, pat: String, from: nat): (r: int)
    requires from <= |s| + 1
    ensures r == -1 || (from <= r && OccursAt(s, pat, r))
    ensures r == -1 ==> forall j :: from <= j <= |s| ==> !OccursAt(s, pat, j)
    ensures r != -1 ==> forall j :: from <= j < r ==> !OccursAt(s, pat, j)
    decreases |s| + 1 - from
  {
    if from + |pat| > |s| then -1
    else if s[from..from + |pat|] == pat then from
    else IndexOfFrom(s, pat, from + 1)
  }

  /** `s.indexOf(pat)`: the first occurrence, or -1 when there is none. */
  function IndexOf(s: String, pat: String): (r: int)
    ensures r == -1 || OccursAt(s, pat, r)
  {
    IndexOfFrom(s, pat, 0)
  }

  /** `indexOf` answers the first position where the pattern occurs, and -1 exactly
      when it occurs nowhere. */
  lemma IndexOfMeaning(s: String, pat: String)
    ensures IndexOf(s, pat) != -1 ==> forall j :: 0 <= j < IndexOf(s, pat) ==> !OccursAt(s, pat, j)
    ensures IndexOf(s, pat) == -1 <==> forall j :: 0 <= j <= |s| ==> !OccursAt(s, pat, j)
  {
  }

  /** `s.includes(pat)`. */
  predicate Contains(s: String, pat: String) {
    IndexOf(s, pat) != -1
  }

  lemma ContainsEmpty(s: String)
    ensures Contains(s, []) && IndexOf(s, []) == 0
  {
    assert OccursAt(s, [], 0);
  }

  lemma ContainsSelf(s: String)
    ensures Contains(s, s)
  {
    assert OccursAt(s, s, 0);
  }

  /** The number of UTF-16 code units of one character: two for a character outside the
      Basic Multilingual Plane (above U+FFFF), which JavaScript stores as a surrogate
      pair, and one otherwise. */
  function CodeUnits(c: char): (n: nat)
    ensures 1 <= n <= 2
    ensures n == 2 <==> c as int > 0xFFFF
  {
    if c as int > 0xFFFF then 2 else 1
  }

  /** `s.length` in JavaScript: the number of UTF-16 code units, which is at least the
      number of characters and at most twice it. */
  function Utf16Length(s: String): (n: nat)
    ensures |s| <= n <= 2 * |s|
  {
    if s == [] then 0 else CodeUnits(s[0]) + Utf16Length(s[1..])
  }

  lemma {:induction false} Utf16LengthAppend(a: String, b: String)
    ensures Utf16Length(a + b) == Utf16Length(a) + Utf16Length(b)
  {
    if a == [] {
      assert a + b == b;
    } else {
      assert (a + b)[1..] == a[1..] + b;
      Utf16LengthAppend(a[1..], b);
    }
  }

  /** Inside the Basic Multilingual Plane the code units are the characters. */
  lemma {:induction false} Utf16LengthOfBmp(s: String)
    requires forall i :: 0 <= i < |s| ==> s[i] as int <= 0xFFFF
    ensures Utf16Length(s) == |s|
  {
    if s != [] {
      Utf16LengthOfBmp(s[1..]);
    }
  }

  /** A string found inside a strictly longer one also has strictly fewer UTF-16 code
      units. */
  lemma ContainedHasFewerCodeUnits(s: String, pat: String)
    requires Contains(s, pat) && |pat| < |s|
    ensures Utf16Length(pat) < Utf16Length(s)
  {
    var i := IndexOf(s, pat);
    assert OccursAt(s, pat, i);
    assert s == s[..i] + pat + s[i + |pat|..];
    Utf16LengthAppend(s[..i] + pat, s[i + |pat|..]);
    Utf16LengthAppend(s[..i], pat);
  }

  /** `s.replace(pat, rep)` with a string pattern: only the first occurrence. */
  function ReplaceFirst(s: String, pat: String, rep: String): String {
    var i := IndexOf(s, pat);
    if i == -1 then s else s[..i] + rep + s[i + |pat|..]
  }

  /** Without an occurrence of `pat` nothing changes; otherwise `s` is `a + pat + b`
      with no occurrence starting inside `a`, and the result is `a + rep + b`. */
  lemma ReplaceFirstMeaning(s: String, pat: String, rep: String) returns (found: bool, a: String, b: String)
    ensures !found <==> forall j :: 0 <= j <= |s| ==> !OccursAt(s, pat, j)
    ensures !found ==> ReplaceFirst(s, pat, rep) == s
    ensures found ==> s == a + pat + b && ReplaceFirst(s, pat, rep) == a + rep + b
    ensures found ==> forall j :: 0 <= j < |a| ==> !OccursAt(s, pat, j)
  {
    var i := IndexOf(s, pat);
    found := i != -1;
    if found {
      a, b := s[..i], s[i + |pat|..];
      assert s == a + s[i..i + |pat|] + b;
    } else {
      a, b := s, [];
    }
  }

  /** `s.replace(/pat/g, rep)` for a literal, non-empty pattern: every
      occurrence, scanning left to right without overlap. */
  function ReplaceAll(s: String, pat: String, rep: String): (r: String)
    requires pat != []
    decreases |s|
  {
    var i := IndexOf(s, pat);
    if i == -1 then s else s[..i] + rep + ReplaceAll(s[i + |pat|..], pat, rep)
  }

  /** Global replacement replaces the first occurrence and carries on after it: without an
      occurrence nothing changes; otherwise `s` is `a + pat + b` with no occurrence starting
      inside `a`, and the result is `a + rep` followed by the replacement in `b`. */
  lemma ReplaceAllMeaning(s: String, pat: String, rep: String) returns (found: bool, a: String, b: String)
    requires pat != []
    ensures !found <==> forall j :: 0 <= j <= |s| ==> !OccursAt(s, pat, j)
    ensures !found ==> ReplaceAll(s, pat, rep) == s
    ensures found ==> s == a + pat + b && ReplaceAll(s, pat, rep) == a + rep + ReplaceAll(b, pat, rep)
    ensures found ==> forall j :: 0 <= j < |a| ==> !OccursAt(s, pat, j)
  {
    var i := IndexOf(s, pat);
    found := i != -1;
    if found {
      a, b := s[..i], s[i + |pat|..];
      assert s == a + s[i..i + |pat|] + b;
    } else {
      a, b := s, [];
    }
  }

  /** Replacing every occurrence of a pattern by itself gives back the text. */
  lemma {:induction false} ReplaceAllBySelf(s: String, pat: String)
    requires pat != []
    ensures ReplaceAll(s, pat, pat) == s
    decreases |s|
  {
    var i := IndexOf(s, pat);
    if i != -1 {
      ReplaceAllBySelf(s[i + |pat|..], pat);
      assert s == s[..i] + s[i..i + |pat|] + s[i + |pat|..];
    }
  }

  /** `parts.join(sep)`. */
  function Join(parts: seq<String>, sep: String): (r: String)
    ensures parts == [] ==> r == []
    ensures |parts| == 1 ==> r == parts[0]
  {
    if parts == [] then []
    else if |parts| == 1 then parts[0]
    else parts[0] + sep + Join(parts[1..], sep)
  }

  /** Joining two non-empty lists puts one separator between their joins. */
  lemma {:induction false} JoinAppend(x: seq<String>, y: seq<String>, sep: String)
    requires x != [] && y != []
    ensures Join(x + y, sep) == Join(x, sep) + sep + Join(y, sep)
  {
    if |x| == 1 {
      assert (x + y)[1..] == y;
    } else {
      assert (x + y)[1..] == x[1..] + y;
      JoinAppend(x[1..], y, sep);
      AppendAssoc(x[0] + sep, Join(x[1..], sep) + sep, Join(y, sep));
      AppendAssoc(x[0] + sep, Join(x[1..], sep), sep);
    }
  }

  /** `s.split(' ')`: the pieces between single spaces; an empty string gives one empty piece. */
  function SplitOnSpace(s: String): (r: seq<String>)
    ensures |r| >= 1
    ensures forall k :: 0 <= k < |r| ==> ' ' !in r[k]
    decreases |s|
  {
    var i := IndexOf(s, " ");
    if i == -1 then
      assert forall j :: 0 <= j < |s| ==> s[j] != ' ' by {
        forall j | 0 <= j < |s| ensures s[j] != ' ' {
          assert !OccursAt(s, " ", j) && s[j..j + 1] == [s[j]];
        }
      }
      [s]
    else
      assert forall j :: 0 <= j < i ==> s[j] != ' ' by {
        forall j | 0 <= j < i ensures s[j] != ' ' {
          assert !OccursAt(s, " ", j) && s[j..j + 1] == [s[j]];
        }
      }
      [s[..i]] + SplitOnSpace(s[i + 1..])
  }

  lemma {:induction false} JoinSplitOnSpace(s: String)
    ensures Join(SplitOnSpace(s), " ") == s
    decreases |s|
  {
    var i := IndexOf(s, " ");
    if i != -1 {
      JoinSplitOnSpace(s[i + 1..]);
      var rest := SplitOnSpace(s[i + 1..]);
      assert SplitOnSpace(s) == [s[..i]] + rest;
      assert s[i..i + 1] == " ";
      assert s == s[..i] + " " + s[i + 1..];
    }
  }

  /** The rest of `s` after its leading whitespace. */
  function SkipSpaces(s: String): (r: String)
    ensures |r| <= |s|
    ensures r == [] || !IsSpace(r[0])
    decreases |s|
  {
    if s != [] && IsSpace(s[0]) then SkipSpaces(s[1..]) else s
  }

  /** `s.replace(/\s+/g, ' ')`: every maximal run of whitespace becomes one space. */
  function CollapseSpaces(s: String): (r: String)
    ensures |r| <= |s|
    decreases |s|
  {
    if s == [] then []
    else if IsSpace(s[0]) then [' '] + CollapseSpaces(SkipSpaces(s[1..]))
    else [s[0]] + CollapseSpaces(s[1..])
  }

  /** The characters of `s` that are not whitespace, in order. */
  function NonSpaces(s: String): String {
    if s == [] then [] else (if IsSpace(s[0]) then [] else [s[0]]) + NonSpaces(s[1..])
  }

  /** A state machine that reads `s` left to right and writes one `' '` at the start of
      each whitespace run (`inRun` says whether the previous character was whitespace). */
  function OneSpacePerRun(s: String, inRun: bool): String {
    if s == [] then []
    else if IsSpace(s[0]) then (if inRun then [] else [' ']) + OneSpacePerRun(s[1..], true)
    else [s[0]] + OneSpacePerRun(s[1..], false)
  }

  /** Skipping leading whitespace is invisible to the state machine inside a run. */
  lemma {:induction false} SkipSpacesInRun(s: String)
    ensures OneSpacePerRun(SkipSpaces(s), false) == OneSpacePerRun(s, true)
    ensures NonSpaces(SkipSpaces(s)) == NonSpaces(s)
    decreases |s|
  {
    if s != [] && IsSpace(s[0]) {
      SkipSpacesInRun(s[1..]);
    }
  }

  /** Collapsing the whitespace is the one-space-per-run state machine: the result keeps
      the other characters in order, holds no whitespace but `' '`, never two in a row. */
  lemma {:induction false} CollapseSpacesMeaning(s: String)
    ensures CollapseSpaces(s) == OneSpacePerRun(s, false)
    ensures NonSpaces(CollapseSpaces(s)) == NonSpaces(s)
    ensures forall i :: 0 <= i < |CollapseSpaces(s)| && IsSpace(CollapseSpaces(s)[i]) ==> CollapseSpaces(s)[i] == ' '
    ensures forall i :: 0 < i < |CollapseSpaces(s)| && IsSpace(CollapseSpaces(s)[i]) ==> !IsSpace(CollapseSpaces(s)[i - 1])
    decreases |s|
  {
    if s != [] {
      var r := CollapseSpaces(s);
      if IsSpace(s[0]) {
        var t := SkipSpaces(s[1..]);
        CollapseSpacesMeaning(t);
        SkipSpacesInRun(s[1..]);
        var rt := CollapseSpaces(t);
        assert r == [' '] + rt;
        assert rt == [] || !IsSpace(rt[0]);
        assert NonSpaces(r) == NonSpaces(rt) by { assert r[1..] == rt; }
        forall i | 0 < i < |r| && IsSpace(r[i]) ensures !IsSpace(r[i - 1]) {
          assert r[i] == rt[i - 1];
          if i > 1 { assert r[i - 1] == rt[i - 2]; }
        }
      } else {
        CollapseSpacesMeaning(s[1..]);
        var rt := CollapseSpaces(s[1..]);
        assert r == [s[0]] + rt;
        assert NonSpaces(r) == [s[0]] + NonSpaces(rt) by { assert r[1..] == rt; }
        forall i | 0 < i < |r| && IsSpace(r[i]) ensures !IsSpace(r[i - 1]) {
          assert r[i] == rt[i - 1];
          if i > 1 { assert r[i - 1] == rt[i - 2]; }
        }
      }
    }
  }

  /** Dropping whitespace works piece by piece. */
  lemma {:induction false} NonSpacesAppend(a: String, b: String)
    ensures NonSpaces(a + b) == NonSpaces(a) + NonSpaces(b)
    decreases |a|
  {
    if a != [] {
      NonSpacesAppend(a[1..], b);
      assert (a + b)[0] == a[0] && (a + b)[1..] == a[1..] + b;
      var h: String := if IsSpace(a[0]) then [] else [a[0]];
      assert NonSpaces(a + b) == h + (NonSpaces(a[1..]) + NonSpaces(b));
    } else {
      assert a + b == b;
    }
  }

  /** A run of whitespace has no other character. */
  lemma {:induction false} NonSpacesOfSpaces(s: String)
    requires forall i :: 0 <= i < |s| ==> IsSpace(s[i])
    ensures NonSpaces(s) == []
    decreases |s|
  {
    if s != [] {
      NonSpacesOfSpaces(s[1..]);
    }
  }

  /** Trimming removes whitespace only. */
  lemma NonSpacesTrim(s: String)
    ensures NonSpaces(Trim(s)) == NonSpaces(s)
  {
    var a, b := TrimIsSlice(s);
    assert s == s[..a] + s[a..b] + s[b..];
    NonSpacesOfSpaces(s[..a]);
    NonSpacesOfSpaces(s[b..]);
    NonSpacesAppend(s[..a] + s[a..b], s[b..]);
    NonSpacesAppend(s[..a], s[a..b]);
  }

  /** Lower-casing never turns a character into whitespace or whitespace into something else. */
  lemma LowerCharKeepsSpace(c: char)
    ensures IsSpace(LowerChar(c)) <==> IsSpace(c)
  {
  }

  /** Lower-casing and dropping whitespace commute. */
  lemma {:induction false} NonSpacesToLower(s: String)
    ensures NonSpaces(ToLower(s)) == ToLower(NonSpaces(s))
    decreases |s|
  {
    if s != [] {
      NonSpacesToLower(s[1..]);
      ToLowerAppend([s[0]], s[1..]);
      assert s == [s[0]] + s[1..];
      LowerCharKeepsSpace(s[0]);
      var t := ToLower(s);
      assert t[0] == LowerChar(s[0]) && t[1..] == ToLower(s[1..]);
      if !IsSpace(s[0]) {
        ToLowerAppend([s[0]], NonSpaces(s[1..]));
      }
    }
  }

  /** What is left after skipping leading whitespace is a suffix of the input. */
  lemma {:induction false} SkipSpacesSuffix(s: String)
    ensures SkipSpaces(s) == s[|s| - |SkipSpaces(s)|..]
    ensures forall i :: 0 <= i < |s| - |SkipSpaces(s)| ==> IsSpace(s[i])
    decreases |s|
  {
    if s != [] && IsSpace(s[0]) {
      SkipSpacesSuffix(s[1..]);
    }
  }

  /** Collapsing keeps a first character that is not whitespace, and a last one too. */
  lemma {:induction false} CollapseSpacesEnds(s: String)
    requires s != [] && !IsSpace(s[|s| - 1])
    ensures CollapseSpaces(s) != [] && !IsSpace(CollapseSpaces(s)[|CollapseSpaces(s)| - 1])
    ensures !IsSpace(s[0]) ==> CollapseSpaces(s)[0] == s[0]
    decreases |s|
  {
    if IsSpace(s[0]) {
      var t := SkipSpaces(s[1..]);
      SkipSpacesSuffix(s[1..]);
      assert s[1..][|s| - 2] == s[|s| - 1];
      assert |s| - 2 >= |s| - 1 - |t|;
      assert t[|t| - 1] == s[|s| - 1];
      CollapseSpacesEnds(t);
    } else if |s| > 1 {
      CollapseSpacesEnds(s[1..]);
    }
  }

  /** The decimal digits of `n`, as `String(n)` renders a non-negative integer. */
  function NatToString(n: nat): (r: String)
    ensures |r| >= 1
    ensures forall i :: 0 <= i < |r| ==> IsDigit(r[i])
    decreases n
  {
    if n < 10 then [('0' as int + n) as char]
    else NatToString(n / 10) + [('0' as int + n % 10) as char]
  }
}
