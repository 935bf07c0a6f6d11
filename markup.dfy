/** The fixed regular expressions the application runs over HTML, written out as
    scanners: tag removal `/<[^>]*>/g`, entity decoding, the element patterns
    `/<tag[^>]*>(.*?)<\/tag>/` with their `i` and `s` flags, the anchor pattern of the
    rich-text converters and the `/<strong|<b/i`-style formatting tests.
    Matching positions are explicit so that callers can model a global regular
    expression's `lastIndex`. Case folding is ASCII-only. */
module Markup {
  import opened Text
  import opened Wrappers
  import opened Sequences

  // ---------------------------------------------------------------------------
  // Tags and entities
  // ---------------------------------------------------------------------------

  /** `text.replace(/<[^>]*>/g, rep)`: each `<` with a later `>` starts a tag running to
      the first such `>`; a `<` with no later `>` is left alone, and so is the rest. */
  function ReplaceTags(s: String, rep: String): String
    decreases |s|
  {
    var i := IndexOf(s, "<");
    if i == -1 then s
    else
      var j := IndexOfFrom(s, ">", i + 1);
      if j == -1 then s else s[..i] + rep + ReplaceTags(s[j + 1..], rep)
  }

  /** No `<` is followed, anywhere later, by a `>`: no complete tag is left. */
  predicate NoTagLeft(r: String) {
    forall a, b :: 0 <= a < b < |r| && r[a] == '<' ==> r[b] != '>'
  }

  lemma CharNotAt(s: String, c: char, a: nat)
    requires a < |s| && !OccursAt(s, [c], a)
    ensures s[a] != c
  {
    assert s[a..a + 1] == [s[a]];
  }

  /** After tag replacement by a text without `<` no complete tag is left. */
  lemma {:induction false} ReplaceTagsHasNoTags(s: String, rep: String)
    requires '<' !in rep
    ensures NoTagLeft(ReplaceTags(s, rep))
    decreases |s|
  {
    var i := IndexOf(s, "<");
    if i != -1 && IndexOfFrom(s, ">", i + 1) != -1 {
      var j := IndexOfFrom(s, ">", i + 1);
      ReplaceTagsHasNoTags(s[j + 1..], rep);
      ReplaceStepHasNoTags(s, rep, i, j);
    } else {
      UnchangedHasNoTags(s, rep);
    }
  }

  /** A text that tag replacement leaves alone holds no complete tag. */
  lemma UnchangedHasNoTags(s: String, rep: String)
    requires IndexOf(s, "<") == -1 || IndexOfFrom(s, ">", IndexOf(s, "<") + 1) == -1
    ensures NoTagLeft(ReplaceTags(s, rep))
  {
    var i := IndexOf(s, "<");
    assert ReplaceTags(s, rep) == s;
    if i == -1 {
      NoOpenerBefore(s, |s|);
    } else {
      NoTagWhenNoCloser(s, i);
    }
  }

  /** Replacing the first tag keeps the property that the replaced remainder has. */
  lemma ReplaceStepHasNoTags(s: String, rep: String, i: nat, j: nat)
    requires '<' !in rep
    requires i < |s| && IndexOf(s, "<") == i
    requires IndexOfFrom(s, ">", i + 1) == j && j < |s|
    requires NoTagLeft(ReplaceTags(s[j + 1..], rep))
    ensures NoTagLeft(ReplaceTags(s, rep))
  {
    ReplaceTagsStep(s, rep, i, j);
    NoOpenerBefore(s, i);
    OpenerFreePrefix(s, i, rep);
    NoTagAfterPrefix(s[..i] + rep, ReplaceTags(s[j + 1..], rep));
  }

  /** The text before the first `<`, followed by a replacement without `<`, holds no `<`. */
  lemma OpenerFreePrefix(s: String, i: nat, rep: String)
    requires i <= |s| && '<' !in rep
    requires forall a :: 0 <= a < i ==> s[a] != '<'
    ensures '<' !in s[..i] + rep
  {
    var pre := s[..i] + rep;
    forall k | 0 <= k < |pre| ensures pre[k] != '<' {
      if k < i {
        assert pre[k] == s[k];
      } else {
        assert pre[k] == rep[k - i];
      }
    }
  }

  /** No `<` occurs before the first one that `indexOf` finds (or anywhere, when it finds none). */
  lemma NoOpenerBefore(s: String, i: nat)
    requires i <= |s|
    requires IndexOf(s, "<") == -1 || IndexOf(s, "<") == i
    ensures forall a :: 0 <= a < i ==> s[a] != '<'
    ensures IndexOf(s, "<") == -1 ==> NoTagLeft(s)
  {
    forall a | 0 <= a < i ensures s[a] != '<' {
      CharNotAt(s, '<', a);
    }
    if IndexOf(s, "<") == -1 {
      forall a | 0 <= a < |s| ensures s[a] != '<' {
        CharNotAt(s, '<', a);
      }
    }
  }

  lemma NoTagWhenNoCloser(s: String, i: nat)
    requires i < |s| && IndexOf(s, "<") == i && IndexOfFrom(s, ">", i + 1) == -1
    ensures NoTagLeft(s)
  {
    forall a, b | 0 <= a < b < |s| && s[a] == '<' ensures s[b] != '>' {
      if a < i { CharNotAt(s, '<', a); }
      CharNotAt(s, '>', b);
    }
  }

  lemma NoTagAfterPrefix(pre: String, rr: String)
    requires '<' !in pre
    requires NoTagLeft(rr)
    ensures NoTagLeft(pre + rr)
  {
    var r := pre + rr;
    var i := |pre|;
    assert forall k :: 0 <= k < i ==> r[k] == pre[k];
    forall a, b | 0 <= a < b < |r| && r[a] == '<' ensures r[b] != '>' {
      assert r[a] == rr[a - i] && r[b] == rr[b - i];
    }
  }

  /** `s.replace(/<[^>]*>/g, '')`. */
  function StripTags(s: String): String {
    ReplaceTags(s, [])
  }

  /** Tag removal never lengthens the text and leaves no complete tag behind. */
  lemma StripTagsMeaning(s: String)
    ensures NoTagLeft(StripTags(s))
    ensures '<' !in s ==> StripTags(s) == s
  {
    ReplaceTagsHasNoTags(s, []);
    if '<' !in s {
      AbsentFirstChar(s, "<");
    }
  }

  /** Searching for one character after a leading character `c` is the search in the
      rest, shifted by one. */
  lemma {:induction false} IndexOfFromShift(c: char, x: String, d: char, k: nat)
    requires k <= |x| + 1
    ensures IndexOfFrom([c] + x, [d], k + 1)
      == (if IndexOfFrom(x, [d], k) == -1 then -1 else IndexOfFrom(x, [d], k) + 1)
    decreases |x| + 1 - k
  {
    if k + 1 <= |x| {
      assert ([c] + x)[k + 1..k + 2] == x[k..k + 1];
      IndexOfFromShift(c, x, d, k + 1);
    }
  }

  /** A leading character other than `<` passes through tag replacement unchanged. */
  lemma ReplaceTagsCons(c: char, x: String, rep: String)
    requires c != '<'
    ensures ReplaceTags([c] + x, rep) == [c] + ReplaceTags(x, rep)
  {
    var s := [c] + x;
    var i := IndexOf(x, "<");
    assert IndexOf(s, "<") == if i == -1 then -1 else i + 1 by {
      assert s[0..1] != "<";
      IndexOfFromShift(c, x, '<', 0);
    }
    if i == -1 {
      assert ReplaceTags(s, rep) == s;
    } else {
      var j := IndexOfFrom(x, ">", i + 1);
      assert IndexOfFrom(s, ">", i + 2) == if j == -1 then -1 else j + 1 by {
        IndexOfFromShift(c, x, '>', i + 1);
      }
      if j == -1 {
        assert ReplaceTags(s, rep) == s;
      } else {
        ReplaceTagsConsStep(c, x, rep, i, j);
      }
    }
  }

  lemma ReplaceTagsConsStep(c: char, x: String, rep: String, i: nat, j: nat)
    requires IndexOf(x, "<") == i && i + 1 <= |x| && IndexOfFrom(x, ">", i + 1) == j
    requires IndexOf([c] + x, "<") == i + 1 && IndexOfFrom([c] + x, ">", i + 2) == j + 1
    ensures ReplaceTags([c] + x, rep) == [c] + ReplaceTags(x, rep)
  {
    var s := [c] + x;
    ReplaceTagsStep(s, rep, i + 1, j + 1);
    ReplaceTagsStep(x, rep, i, j);
    assert s[j + 2..] == x[j + 1..];
    ConsStepAlgebra(c, x, rep, i, ReplaceTags(s, rep), ReplaceTags(x, rep), ReplaceTags(x[j + 1..], rep));
  }

  lemma ConsStepAlgebra(c: char, x: String, rep: String, i: nat, r1: String, r2: String, tail: String)
    requires i <= |x|
    requires r1 == ([c] + x)[..i + 1] + rep + tail
    requires r2 == x[..i] + rep + tail
    ensures r1 == [c] + r2
  {
    assert ([c] + x)[..i + 1] == [c] + x[..i];
    AppendAssoc([c], x[..i] + rep, tail);
    AppendAssoc([c], x[..i], rep);
  }

  lemma ReplaceTagsStep(s: String, rep: String, i: nat, j: nat)
    requires IndexOf(s, "<") == i && i + 1 <= |s| && IndexOfFrom(s, ">", i + 1) == j
    ensures ReplaceTags(s, rep) == s[..i] + rep + ReplaceTags(s[j + 1..], rep)
  {
    assert IndexOf(s, "<") != -1 && IndexOfFrom(s, ">", IndexOf(s, "<") + 1) != -1;
  }

  /** Text holding no `<` passes through tag replacement unchanged. */
  lemma {:induction false} ReplaceTagsAfterText(t: String, rest: String, rep: String)
    requires '<' !in t
    ensures ReplaceTags(t + rest, rep) == t + ReplaceTags(rest, rep)
    decreases |t|
  {
    if t != [] {
      assert t + rest == [t[0]] + (t[1..] + rest);
      ReplaceTagsCons(t[0], t[1..] + rest, rep);
      ReplaceTagsAfterText(t[1..], rest, rep);
      assert t == [t[0]] + t[1..];
    } else {
      assert t + rest == rest;
    }
  }

  /** A complete tag: `<`, then anything but `>`, then `>`. */
  predicate IsTag(t: String) {
    |t| >= 2 && t[0] == '<' && t[|t| - 1] == '>' && forall k :: 1 <= k < |t| - 1 ==> t[k] != '>'
  }

  /** Markup made of complete tags only, such as `<br>` or `<br/><hr>`, strips to nothing. */
  lemma {:induction false} StripTagsOfTagsOnly(tags: seq<String>)
    requires forall k :: 0 <= k < |tags| ==> IsTag(tags[k])
    ensures StripTags(Concat(tags)) == []
    decreases |tags|
  {
    if tags == [] {
      assert IndexOf([], "<") == -1;
    } else {
      ConcatCons(tags[0], tags[1..]);
      assert [tags[0]] + tags[1..] == tags;
      ReplaceTagsAfterTag(tags[0], Concat(tags[1..]), []);
      StripTagsOfTagsOnly(tags[1..]);
    }
  }

  /** A complete tag at the front is replaced as a whole. */
  lemma ReplaceTagsAfterTag(t: String, rest: String, rep: String)
    requires IsTag(t)
    ensures ReplaceTags(t + rest, rep) == rep + ReplaceTags(rest, rep)
  {
    var s := t + rest;
    var q := |t| - 1;
    TagBounds(t, rest);
    ReplaceTagsStep(s, rep, 0, q);
    assert s[q + 1..] == rest;
    assert s[..0] + rep == rep;
  }

  /** In a text that starts with a complete tag, the first `<` is at 0 and the first `>`
      after it closes the tag. */
  lemma TagBounds(t: String, rest: String)
    requires IsTag(t)
    ensures IndexOf(t + rest, "<") == 0 && IndexOfFrom(t + rest, ">", 1) == |t| - 1
  {
    var s := t + rest;
    var q := |t| - 1;
    assert OccursAt(s, "<", 0) by { assert s[0..1] == "<"; }
    FirstOccurrence(s, "<", 0, 0);
    forall k | 1 <= k < q ensures !OccursAt(s, ">", k) {
      assert s[k] == t[k];
      assert s[k..k + 1] == [s[k]];
    }
    assert OccursAt(s, ">", q) by { assert s[q..q + 1] == [s[q]]; }
    FirstOccurrence(s, ">", 1, q);
  }

  /** A pattern whose first character does not occur is not found. */
  lemma AbsentFirstChar(s: String, pat: String)
    requires pat != [] && pat[0] !in s
    ensures IndexOf(s, pat) == -1
  {
    forall j | 0 <= j <= |s| ensures !OccursAt(s, pat, j) {
      if j + |pat| <= |s| {
        assert s[j..j + |pat|][0] == s[j] != pat[0];
      }
    }
  }

  /** The six entities `stripHtml` decodes, in the order it replaces them. */
  const Entities: seq<(String, String)> := [
    ("&nbsp;", " "), ("&amp;", "&"), ("&lt;", "<"), ("&gt;", ">"), ("&quot;", "\""), ("&#39;", "'")
  ]

  /** Each replacement of `table` applied globally to the result of the previous one. */
  function ReplaceEach(s: String, table: seq<(String, String)>): String
    requires forall k :: 0 <= k < |table| ==> table[k].0 != []
    decreases |table|
  {
    if table == [] then s else ReplaceEach(ReplaceAll(s, table[0].0, table[0].1), table[1..])
  }

  /** The six entity replacements, each global, in the order the converters apply them. */
  function DecodeEntities(s: String): String {
    ReplaceEach(s, Entities)
  }

  /** `stripHtml`: remove tags, decode entities, trim. */
  function StripHtml(html: String): (r: String)
    ensures r == [] || (!IsSpace(r[0]) && !IsSpace(r[|r| - 1]))
  {
    Trim(DecodeEntities(StripTags(html)))
  }

  /** Text without `&` has nothing to decode. */
  lemma DecodeWithoutAmpersand(s: String)
    requires '&' !in s
    ensures DecodeEntities(s) == s
  {
    DecodeTailWithoutAmpersand(s, 0);
    assert Entities[0..] == Entities;
  }

  /** Every entity starts with `&`, so text without one is left alone by any of the
      replacements from the `i`-th on. */
  lemma DecodeTailWithoutAmpersand(s: String, i: nat)
    requires '&' !in s && i <= |Entities|
    ensures ReplaceEach(s, Entities[i..]) == s
  {
    var t := Entities[i..];
    forall k | 0 <= k < |t| ensures t[k].0 != [] && t[k].0[0] !in s {
      assert t[k] == Entities[i + k];
    }
    ReplaceEachWithoutFirstChars(s, t);
  }

  lemma {:induction false} ReplaceEachWithoutFirstChars(s: String, table: seq<(String, String)>)
    requires forall k :: 0 <= k < |table| ==> table[k].0 != [] && table[k].0[0] !in s
    ensures ReplaceEach(s, table) == s
  {
    if table != [] {
      AbsentFirstChar(s, table[0].0);
      ReplaceEachWithoutFirstChars(s, table[1..]);
    }
  }

  /** Text with neither markup nor entities and no surrounding whitespace is its own
      stripped form. */
  lemma StripHtmlOfPlainText(s: String)
    requires '<' !in s && '&' !in s
    requires Trim(s) == s
    ensures StripHtml(s) == s
  {
    StripTagsMeaning(s);
    DecodeWithoutAmpersand(s);
  }

  /** Every entity starts with `&` and has no other `&`, only `&amp;` decodes to an `&`,
      and the entities differ in their second character, so none of them starts another. */
  lemma EntityNames()
    ensures forall k :: 0 <= k < |Entities| ==>
      |Entities[k].0| >= 2 && Entities[k].0[0] == '&' && '&' !in Entities[k].0[1..]
    ensures forall k :: 2 <= k < |Entities| ==> '&' !in Entities[k].1
    ensures forall j, k :: 0 <= j < |Entities| && 0 <= k < |Entities| && j != k ==>
      Entities[j].0[1] != Entities[k].0[1]
  {
  }

  /** In a text whose only `&` is its first character, a pattern starting with `&` that
      is not at the start does not occur at all. */
  lemma ReplaceAllAmpOnlyAtStart(s: String, pat: String, rep: String)
    requires pat != [] && pat[0] == '&' && s != [] && '&' !in s[1..] && !OccursAt(s, pat, 0)
    ensures ReplaceAll(s, pat, rep) == s
  {
    forall j | 0 < j <= |s| ensures !OccursAt(s, pat, j) {
      if j + |pat| <= |s| {
        assert s[j..j + |pat|][0] == s[j] == s[1..][j - 1];
      }
    }
  }

  /** Replacing a pattern within itself leaves the replacement, when the pattern's first
      character does not recur in it. */
  lemma ReplaceAllWhole(pat: String, rep: String)
    requires pat != [] && pat[0] !in pat[1..]
    ensures ReplaceAll(pat, pat, rep) == rep
  {
    assert OccursAt(pat, pat, 0);
    assert pat[..0] == [] && pat[|pat|..] == [];
    AbsentFirstChar([], pat);
  }

  /** A table none of whose patterns starts the text leaves a text whose only `&` is its
      first character unchanged. */
  lemma {:induction false} ReplaceEachSkips(t: String, table: seq<(String, String)>)
    requires t != [] && '&' !in t[1..]
    requires forall j :: 0 <= j < |table| ==>
      table[j].0 != [] && table[j].0[0] == '&' && !OccursAt(t, table[j].0, 0)
    ensures ReplaceEach(t, table) == t
    decreases |table|
  {
    if table != [] {
      ReplaceAllAmpOnlyAtStart(t, table[0].0, table[0].1);
      ReplaceEachSkips(t, table[1..]);
    }
  }

  /** Applying the replacements of `a + b` is applying those of `a`, then those of `b`. */
  lemma {:induction false} ReplaceEachAppend(s: String, a: seq<(String, String)>, b: seq<(String, String)>)
    requires forall k :: 0 <= k < |a| ==> a[k].0 != []
    requires forall k :: 0 <= k < |b| ==> b[k].0 != []
    ensures ReplaceEach(s, a + b) == ReplaceEach(ReplaceEach(s, a), b)
    decreases |a|
  {
    if a == [] {
      assert a + b == b;
    } else {
      assert (a + b)[1..] == a[1..] + b;
      ReplaceEachAppend(ReplaceAll(s, a[0].0, a[0].1), a[1..], b);
    }
  }

  /** An entity's name with its `&` is decoded, from the third entry of the table on, to
      its character when the table decodes it after `&amp;`, and is left alone otherwise. */
  lemma DecodeEntityAfterAmp(k: nat)
    requires k < |Entities|
    ensures ReplaceEach(Entities[k].0, Entities[2..]) == if k < 2 then Entities[k].0 else Entities[k].1
  {
    EntityNames();
    var e := Entities[k].0;
    var later := Entities[2..];
    if k < 2 {
      forall j | 0 <= j < |later| ensures later[j].0 != [] && later[j].0[0] == '&' && !OccursAt(e, later[j].0, 0) {
        assert later[j] == Entities[j + 2];
        assert |later[j].0| > |e| || e[..|later[j].0|][1] == e[1];
      }
      ReplaceEachSkips(e, later);
    } else {
      DecodeOwnEntity(k, e, Entities[2..k], Entities[k..]);
    }
  }

  /** From the third entry on, the entries before an entity's own leave its name alone,
      its own turns it into its character, and the ones after leave that character alone. */
  lemma DecodeOwnEntity(k: nat, e: String, before: seq<(String, String)>, rest: seq<(String, String)>)
    requires 2 <= k < |Entities| && e == Entities[k].0
    requires before == Entities[2..k] && rest == Entities[k..]
    ensures ReplaceEach(e, Entities[2..]) == Entities[k].1
  {
    EntityNames();
    assert Entities[2..] == before + rest;
    forall j | 0 <= j < |before| ensures before[j].0 != [] && before[j].0[0] == '&' && !OccursAt(e, before[j].0, 0) {
      assert before[j] == Entities[j + 2];
      assert |before[j].0| > |e| || e[..|before[j].0|][1] == e[1];
    }
    ReplaceEachAppend(e, before, rest);
    ReplaceEachSkips(e, before);
    assert rest[0] == (e, Entities[k].1) && rest[1..] == Entities[k + 1..];
    ReplaceAllWhole(e, Entities[k].1);
    DecodeTailWithoutAmpersand(Entities[k].1, k + 1);
  }

  /** The decodes run one after another, so an escaped entity `&amp;name;` is decoded
      twice, down to its character, whenever `&name;` is decoded after `&amp;` (`&lt;`,
      `&gt;`, `&quot;`, `&#39;`); `&amp;nbsp;` and `&amp;amp;` are decoded once. */
  lemma EscapedEntityDecoding(k: nat)
    requires k < |Entities|
    ensures DecodeEntities("&amp;" + Entities[k].0[1..])
      == if k < 2 then Entities[k].0 else Entities[k].1
  {
    EntityNames();
    var e := Entities[k].0;
    var s := "&amp;" + e[1..];
    EscapedFirstSteps(e, s);
    var e1, e2 := Entities[1..], Entities[2..];
    assert Entities[0] == ("&nbsp;", " ") && e1[0] == ("&amp;", "&") && e1[1..] == e2;
    ReplaceEachCons(s, s, Entities);
    ReplaceEachCons(s, e, e1);
    DecodeEntityAfterAmp(k);
  }

  /** The first two decodes on an escaped name: `&nbsp;` does not occur, and `&amp;`
      gives back the name with its `&`. */
  lemma EscapedFirstSteps(e: String, s: String)
    requires |e| >= 2 && e[0] == '&' && '&' !in e[1..] && s == "&amp;" + e[1..]
    ensures ReplaceAll(s, "&nbsp;", " ") == s
    ensures ReplaceAll(s, "&amp;", "&") == e
  {
    assert '&' !in s[1..] by { assert s[1..] == "amp;" + e[1..]; }
    assert !OccursAt(s, "&nbsp;", 0) by { assert s[..6][1] == 'a'; }
    ReplaceAllAmpOnlyAtStart(s, "&nbsp;", " ");
    assert OccursAt(s, "&amp;", 0);
    assert s[5..] == e[1..];
    AbsentFirstChar(e[1..], "&amp;");
    assert [e[0]] + e[1..] == e;
  }

  /** The first replacement of a table, then the rest. */
  lemma ReplaceEachCons(s: String, t: String, table: seq<(String, String)>)
    requires table != [] && forall k :: 0 <= k < |table| ==> table[k].0 != []
    requires ReplaceAll(s, table[0].0, table[0].1) == t
    ensures ReplaceEach(s, table) == ReplaceEach(t, table[1..])
  {
  }

  // ---------------------------------------------------------------------------
  // Case-insensitive search
  // ---------------------------------------------------------------------------

  /** `pat`, written in lower case, occurs at `i` when ASCII case is ignored. */
  predicate OccursAtIgnoringCase(s: String, pat: String, i: int) {
    0 <= i && i + |pat| <= |s| && ToLower(s[i..i + |pat|]) == pat
  }

  /** The first case-insensitive occurrence of `pat` at or after `from`, or -1. */
  function IndexOfIgnoringCase(s: String, pat: String, from: nat): (r: int)
    ensures r == -1 || (from <= r && OccursAtIgnoringCase(s, pat, r))
    ensures r != -1 ==> forall j :: from <= j < r ==> !OccursAtIgnoringCase(s, pat, j)
    ensures r == -1 ==> forall j :: from <= j ==> !OccursAtIgnoringCase(s, pat, j)
    decreases |s| + 1 - from
  {
    if from + |pat| > |s| then -1
    else if ToLower(s[from..from + |pat|]) == pat then from
    else IndexOfIgnoringCase(s, pat, from + 1)
  }

  /** `/pat/i.test(s)` for a literal pattern. */
  predicate ContainsIgnoringCase(s: String, pat: String) {
    IndexOfIgnoringCase(s, pat, 0) != -1
  }

  lemma ContainsIgnoringCaseMeaning(s: String, pat: String)
    ensures ContainsIgnoringCase(s, pat) <==> exists j :: OccursAtIgnoringCase(s, pat, j)
  {
    if ContainsIgnoringCase(s, pat) {
      assert OccursAtIgnoringCase(s, pat, IndexOfIgnoringCase(s, pat, 0));
    }
  }

  /** A case-insensitive occurrence of a longer pattern is one of each of its prefixes:
      whatever contains `<br` contains `<b`. */
  lemma ContainsPrefixIgnoringCase(s: String, pat: String, pre: String)
    requires pre <= pat
    requires ContainsIgnoringCase(s, pat)
    ensures ContainsIgnoringCase(s, pre)
  {
    var j := IndexOfIgnoringCase(s, pat, 0);
    assert ToLower(s[j..j + |pre|]) == ToLower(s[j..j + |pat|])[..|pre|];
    assert OccursAtIgnoringCase(s, pre, j);
    ContainsIgnoringCaseMeaning(s, pre);
  }

  // ---------------------------------------------------------------------------
  // Element patterns  /<tag[^>]*>(.*?)<\/tag>/  with the i flag, and s when dotAll
  // ---------------------------------------------------------------------------

  /** One match: the whole match is s[start..end], the captured group s[innerStart..innerEnd]. */
  datatype Match = Match(start: nat, innerStart: nat, innerEnd: nat, end: nat)

  predicate ValidIn(m: Match, s: String) {
    m.start < m.innerStart <= m.innerEnd < m.end <= |s|
  }

  function Whole(s: String, m: Match): String
    requires ValidIn(m, s)
  {
    s[m.start..m.end]
  }

  function Inner(s: String, m: Match): String
    requires ValidIn(m, s)
  {
    s[m.innerStart..m.innerEnd]
  }

  /** No line terminator in s[a..b]: what `.` can cross without the `s` flag. */
  predicate LineFree(s: String, a: nat, b: nat)
    requires a <= b <= |s|
  {
    forall k :: a <= k < b ==> !IsLineTerminator(s[k])
  }

  /** The closing tag `</tag>`, in lower case. */
  function Closer(tag: String): String {
    "</" + tag + ">"
  }

  /** The match starting at `p`, if any. `[^>]*>` runs to the first `>` after the tag
      name; the lazy group then stops at the first closing tag, and without the `s`
      flag it may not cross a line terminator. */
  function ElementAt(s: String, tag: String, dotAll: bool, p: nat): (r: Option<Match>)
    ensures r.Some? ==> ValidIn(r.value, s) && r.value.start == p
  {
    if !OccursAtIgnoringCase(s, "<" + tag, p) then None
    else
      var q := IndexOfFrom(s, ">", p + 1 + |tag|);
      if q == -1 then None
      else
        var c := IndexOfIgnoringCase(s, Closer(tag), q + 1);
        if c == -1 || (!dotAll && !LineFree(s, q + 1, c)) then None
        else Some(Match(p, q + 1, c, c + |tag| + 3))
  }

  /** The regular expression's own reading of a match, stated without search:
      the opening `<tag`, a run without `>` closed by `>`, a group holding no closing
      tag (and no line terminator without the `s` flag), then the closing tag. */
  predicate IsElementMatch(s: String, tag: String, dotAll: bool, m: Match) {
    && ValidIn(m, s)
    && OccursAtIgnoringCase(s, "<" + tag, m.start)
    && m.start + 1 + |tag| < m.innerStart
    && s[m.innerStart - 1] == '>'
    && (forall k :: m.start + 1 + |tag| <= k < m.innerStart - 1 ==> s[k] != '>')
    && OccursAtIgnoringCase(s, Closer(tag), m.innerEnd)
    && m.end == m.innerEnd + |tag| + 3
    && (forall k :: m.innerStart <= k < m.innerEnd ==> !OccursAtIgnoringCase(s, Closer(tag), k))
    && (dotAll || LineFree(s, m.innerStart, m.innerEnd))
  }

  /** Every match the scanner finds is one the pattern describes. */
  lemma ElementAtSound(s: String, tag: String, dotAll: bool, p: nat)
    requires ElementAt(s, tag, dotAll, p).Some?
    ensures IsElementMatch(s, tag, dotAll, ElementAt(s, tag, dotAll, p).value)
  {
    var q := IndexOfFrom(s, ">", p + 1 + |tag|);
    forall k | p + 1 + |tag| <= k < q ensures s[k] != '>' {
      CharNotAt(s, '>', k);
    }
    assert OccursAt(s, ">", q);
    assert s[q] == s[q..q + 1][0];
  }

  /** Every match the pattern describes is the one the scanner finds at its start: there is
      at most one match at each position. */
  lemma ElementAtComplete(s: String, tag: String, dotAll: bool, m: Match)
    requires IsElementMatch(s, tag, dotAll, m)
    ensures ElementAt(s, tag, dotAll, m.start) == Some(m)
  {
    var p := m.start;
    var q := m.innerStart - 1;
    assert IndexOfFrom(s, ">", p + 1 + |tag|) == q by {
      forall k | p + 1 + |tag| <= k < q ensures !OccursAt(s, ">", k) {
        assert s[k..k + 1] == [s[k]];
      }
      assert s[q..q + 1] == [s[q]];
      FirstOccurrence(s, ">", p + 1 + |tag|, q);
    }
    assert IndexOfIgnoringCase(s, Closer(tag), q + 1) == m.innerEnd by {
      FirstOccurrenceIgnoringCase(s, Closer(tag), q + 1, m.innerEnd);
    }
    ElementAtFromParts(s, tag, dotAll, p, q, m.innerEnd);
    var r := ElementAt(s, tag, dotAll, p).value;
    assert r.start == m.start && r.innerStart == m.innerStart && r.innerEnd == m.innerEnd && r.end == m.end;
    assert r == m;
  }

  lemma ElementAtFromParts(s: String, tag: String, dotAll: bool, p: nat, q: nat, c: nat)
    requires OccursAtIgnoringCase(s, "<" + tag, p)
    requires IndexOfFrom(s, ">", p + 1 + |tag|) == q
    requires IndexOfIgnoringCase(s, Closer(tag), q + 1) == c
    requires dotAll || LineFree(s, q + 1, c)
    ensures ElementAt(s, tag, dotAll, p).Some?
    ensures ElementAt(s, tag, dotAll, p).value.innerStart == q + 1
    ensures ElementAt(s, tag, dotAll, p).value.innerEnd == c
    ensures ElementAt(s, tag, dotAll, p).value.end == c + |tag| + 3
  {
  }

  lemma FirstOccurrence(s: String, pat: String, from: nat, x: nat)
    requires from <= x && OccursAt(s, pat, x)
    requires forall k :: from <= k < x ==> !OccursAt(s, pat, k)
    ensures IndexOfFrom(s, pat, from) == x
  {
  }

  lemma FirstOccurrenceIgnoringCase(s: String, pat: String, from: nat, x: nat)
    requires from <= x && OccursAtIgnoringCase(s, pat, x)
    requires forall k :: from <= k < x ==> !OccursAtIgnoringCase(s, pat, k)
    ensures IndexOfIgnoringCase(s, pat, from) == x
  {
  }

  /** `re.exec(s)` with `re.lastIndex == from`: the first match starting at or after
      `from`; none once `from` is past the end. */
  function Exec(s: String, tag: String, dotAll: bool, from: nat): (r: Option<Match>)
    ensures r.Some? ==> ValidIn(r.value, s) && from <= r.value.start
    ensures r.Some? ==> ElementAt(s, tag, dotAll, r.value.start) == r
    ensures r.Some? ==> forall p :: from <= p < r.value.start ==> ElementAt(s, tag, dotAll, p).None?
    ensures r.None? ==> forall p :: from <= p ==> ElementAt(s, tag, dotAll, p).None?
    decreases |s| + 1 - from
  {
    if from > |s| then None
    else if ElementAt(s, tag, dotAll, from).Some? then ElementAt(s, tag, dotAll, from)
    else Exec(s, tag, dotAll, from + 1)
  }

  /** `s.replace(/<tag[^>]*>.*?<\/tag>/gis, '')` from position `from` on: every match
      found left to right, each search resuming where the previous match ended, is cut out. */
  function RemoveElements(s: String, tag: String, dotAll: bool, from: nat): (r: String)
    requires from <= |s|
    ensures |r| <= |s| - from
    ensures Exec(s, tag, dotAll, from).None? ==> r == s[from..]
    decreases |s| - from
  {
    match Exec(s, tag, dotAll, from)
    case None => s[from..]
    case Some(m) => s[from..m.start] + RemoveElements(s, tag, dotAll, m.end)
  }

  // ---------------------------------------------------------------------------
  // The anchor pattern  /<a\s+href=["']([^"']+)["'][^>]*>(.*?)<\/a>/gi
  // ---------------------------------------------------------------------------

  /** An anchor match: the whole match is s[start..end]; `href` and `content` are the
      two captured groups. */
  datatype Anchor = Anchor(start: nat, end: nat, href: String, content: String)

  predicate IsQuote(c: char) { c == '"' || c == '\'' }

  /** End of the run of whitespace starting at `i`. */
  function SpaceRunEnd(s: String, i: nat): (e: nat)
    requires i <= |s|
    ensures i <= e <= |s| && (e == |s| || !IsSpace(s[e]))
    ensures forall k :: i <= k < e ==> IsSpace(s[k])
    decreases |s| - i
  {
    if i == |s| || !IsSpace(s[i]) then i else SpaceRunEnd(s, i + 1)
  }

  /** The first quote character at or after `i`, or |s|. */
  function QuoteFrom(s: String, i: nat): (e: nat)
    requires i <= |s|
    ensures i <= e <= |s| && (e == |s| || IsQuote(s[e]))
    ensures forall k :: i <= k < e ==> !IsQuote(s[k])
    decreases |s| - i
  {
    if i == |s| || IsQuote(s[i]) then i else QuoteFrom(s, i + 1)
  }

  /** The anchor match starting at `p`, if any. The whitespace run and the href run are
      greedy but cannot give anything back, so each match is determined by its start. */
  function AnchorAt(s: String, p: nat): (r: Option<Anchor>)
    ensures r.Some? ==> r.value.start == p < r.value.end <= |s|
  {
    if !OccursAtIgnoringCase(s, "<a", p) then None
    else
      var k := SpaceRunEnd(s, p + 2);
      if k == p + 2 || !OccursAtIgnoringCase(s, "href=", k) || k + 5 >= |s| || !IsQuote(s[k + 5]) then None
      else
        var e := QuoteFrom(s, k + 6);
        if e == |s| || e == k + 6 then None
        else
          var q := IndexOfFrom(s, ">", e + 1);
          if q == -1 then None
          else
            var c := IndexOfIgnoringCase(s, "</a>", q + 1);
            if c == -1 || !LineFree(s, q + 1, c) then None
            else Some(Anchor(p, c + 4, s[k + 6..e], s[q + 1..c]))
  }

  /** `linkRegex.exec(s)` with `lastIndex == from`. */
  function ExecAnchor(s: String, from: nat): (r: Option<Anchor>)
    ensures r.Some? ==> from <= r.value.start < r.value.end <= |s|
    ensures r.Some? ==> AnchorAt(s, r.value.start) == r
    ensures r.None? ==> forall p :: from <= p ==> AnchorAt(s, p).None?
    decreases |s| + 1 - from
  {
    if from > |s| then None
    else if AnchorAt(s, from).Some? then AnchorAt(s, from)
    else ExecAnchor(s, from + 1)
  }

  /** Every anchor of `s` from `from` on, as the exec loop collects them. */
  function AllAnchors(s: String, from: nat): (r: seq<Anchor>)
    ensures forall i :: 0 <= i < |r| ==> from <= r[i].start < r[i].end <= |s|
    decreases |s| + 1 - from
  {
    match ExecAnchor(s, from)
    case None => []
    case Some(a) => [a] + AllAnchors(s, a.end)
  }

  /** The collected anchors do not overlap: each ends before the next starts. */
  lemma {:induction false} AllAnchorsDisjoint(s: String, from: nat)
    ensures var r := AllAnchors(s, from);
      forall i :: 0 <= i < |r| - 1 ==> r[i].end <= r[i + 1].start
    decreases |s| + 1 - from
  {
    var found := ExecAnchor(s, from);
    if found.Some? {
      var a := found.value;
      AllAnchorsDisjoint(s, a.end);
      assert AllAnchors(s, from) == [a] + AllAnchors(s, a.end);
      ConsDisjoint(a, AllAnchors(s, a.end));
    }
  }

  lemma ConsDisjoint(a: Anchor, rest: seq<Anchor>)
    requires forall i :: 0 <= i < |rest| ==> a.end <= rest[i].start
    requires forall i :: 0 <= i < |rest| - 1 ==> rest[i].end <= rest[i + 1].start
    ensures var r := [a] + rest;
      forall i :: 0 <= i < |r| - 1 ==> r[i].end <= r[i + 1].start
  {
    var r := [a] + rest;
    forall i | 0 <= i < |r| - 1 ensures r[i].end <= r[i + 1].start {
      if i == 0 {
        assert r[1] == rest[0];
      } else {
        assert r[i] == rest[i - 1] && r[i + 1] == rest[i];
      }
    }
  }

  /** An anchor's href is never empty and holds no quote. */
  lemma AnchorHref(s: String, p: nat)
    requires AnchorAt(s, p).Some?
    ensures var h := AnchorAt(s, p).value.href; h != [] && forall i :: 0 <= i < |h| ==> !IsQuote(h[i])
  {
  }
}
