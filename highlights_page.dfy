/** The rules of the highlights page: which rows a page requests and how many pages
    there are, the footer's "showing a to b", how a "YYYY-MM" key of a reviewed month is
    labelled, how a category is toggled in a selection, and how the shown list and the
    total change when a highlight is added, deleted or edited. */
module HighlightsPage {
  import opened Text
  import opened Wrappers
  import opened Sequences
  import Daily

  // ---------------------------------------------------------------------------
  // Pagination
  // ---------------------------------------------------------------------------

  /** The inclusive row range `range(from, to)` requested for page `page` (counted from 1)
      with `perPage` rows a page. */
  datatype Range = Range(from: int, to: int)

  function PageRange(page: nat, perPage: nat): (r: Range)
    requires page >= 1 && perPage >= 1
    ensures r.from >= 0
  {
    var from := (page - 1) * perPage;
    Range(from, from + perPage - 1)
  }

  predicate InRange(i: int, r: Range) {
    r.from <= i <= r.to
  }

  /** A page holds exactly `perPage` row indices, starting at `(page - 1) * perPage`. */
  lemma PageRangeSize(page: nat, perPage: nat)
    requires page >= 1 && perPage >= 1
    ensures var r := PageRange(page, perPage);
      r.to - r.from + 1 == perPage && r.from == (page - 1) * perPage
  {
  }

  /** The next page starts right after this one ends. */
  lemma PagesAdjacent(page: nat, perPage: nat)
    requires page >= 1 && perPage >= 1
    ensures PageRange(page + 1, perPage).from == PageRange(page, perPage).to + 1
  {
    assert page * perPage == (page - 1) * perPage + perPage;
  }

  /** Different pages share no row. */
  lemma PagesDisjoint(p: nat, q: nat, perPage: nat)
    requires 1 <= p < q && perPage >= 1
    ensures PageRange(p, perPage).to < PageRange(q, perPage).from
  {
    assert (q - 1) * perPage >= p * perPage by {
      assert q - 1 >= p;
    }
    assert p * perPage == (p - 1) * perPage + perPage;
  }

  /** The page holding row `i`. */
  function PageOf(i: nat, perPage: nat): (page: nat)
    requires perPage >= 1
    ensures page >= 1
  {
    i / perPage + 1
  }

  /** Every row lies on exactly one page, `PageOf(i)`. */
  lemma RowOnOnePage(i: nat, perPage: nat, page: nat)
    requires perPage >= 1 && page >= 1
    ensures InRange(i, PageRange(page, perPage)) <==> page == PageOf(i, perPage)
  {
    var p := PageOf(i, perPage);
    assert (p - 1) * perPage == (i / perPage) * perPage;
    assert InRange(i, PageRange(p, perPage));
    if page < p {
      PagesDisjoint(page, p, perPage);
    } else if page > p {
      PagesDisjoint(p, page, perPage);
    }
  }

  /** `Math.ceil(total / perPage)`. */
  function TotalPages(total: nat, perPage: nat): nat
    requires perPage >= 1
  {
    (total + perPage - 1) / perPage
  }

  /** The number of pages is the least number of pages of `perPage` rows that hold
      `total` rows: no rows means no pages, and otherwise the last page is not empty. */
  lemma TotalPagesIsCeiling(total: nat, perPage: nat)
    requires perPage >= 1
    ensures var n := TotalPages(total, perPage);
      && n * perPage >= total
      && (total == 0 <==> n == 0)
      && (n >= 1 ==> (n - 1) * perPage < total)
  {
    var n := TotalPages(total, perPage);
    var q, r := (total + perPage - 1) / perPage, (total + perPage - 1) % perPage;
    assert q * perPage + r == total + perPage - 1;
    if n >= 1 {
      assert (n - 1) * perPage == n * perPage - perPage;
    }
  }

  /** Every row is on a page no later than the last one. */
  lemma RowsOnPages(i: nat, total: nat, perPage: nat)
    requires perPage >= 1 && i < total
    ensures 1 <= PageOf(i, perPage) <= TotalPages(total, perPage)
  {
    TotalPagesIsCeiling(total, perPage);
    var p, n := i / perPage, TotalPages(total, perPage);
    assert p * perPage <= i;
    if p >= n {
      MulMonotone(p, n, perPage);
      assert false;
    }
  }

  lemma MulMonotone(a: nat, b: nat, c: nat)
    requires a >= b
    ensures a * c >= b * c
  {
    assert a * c == b * c + (a - b) * c;
  }

  /** The footer's "Showing `first` to `last` of `total`". */
  datatype Footer = Footer(first: int, last: int)

  function FooterOf(page: nat, perPage: nat, total: nat): Footer {
    Footer((page - 1) * perPage + 1, Min(page * perPage, total))
  }

  /** On any page up to the last, the footer counts the page's rows from 1: it starts one
      after the page's first row index and ends one after the last row index that exists,
      so it names as many rows as the page shows. */
  lemma FooterMeaning(page: nat, perPage: nat, total: nat)
    requires perPage >= 1 && 1 <= page <= TotalPages(total, perPage)
    ensures var f := FooterOf(page, perPage, total);
      var r := PageRange(page, perPage);
      && f.first == r.from + 1
      && f.last == Min(r.to, total - 1) + 1
      && 1 <= f.first <= f.last <= total
      && f.last - f.first + 1 == Min(perPage, total - r.from)
  {
    TotalPagesIsCeiling(total, perPage);
    var n := TotalPages(total, perPage);
    assert page * perPage == (page - 1) * perPage + perPage;
    assert (page - 1) * perPage <= (n - 1) * perPage;
  }

  // ---------------------------------------------------------------------------
  // The label of a reviewed month
  // ---------------------------------------------------------------------------

  /** `s.split(sep)` for a one-character separator: the pieces between the separators;
      the empty string gives one empty piece. */
  function Split(s: String, sep: char): (r: seq<String>)
    ensures |r| >= 1
    decreases |s|
  {
    if s == [] then [[]]
    else
      var rest := Split(s[1..], sep);
      if s[0] == sep then [[]] + rest else [[s[0]] + rest[0]] + rest[1..]
  }

  /** A string without the separator is one piece. */
  lemma {:induction false} SplitWithout(s: String, sep: char)
    requires sep !in s
    ensures Split(s, sep) == [s]
    decreases |s|
  {
    if s != [] {
      assert sep !in s[1..] by {
        forall k | 0 <= k < |s[1..]| ensures s[1..][k] != sep { assert s[1..][k] == s[k + 1]; }
      }
      SplitWithout(s[1..], sep);
      assert [s[0]] + s[1..] == s;
    }
  }

  /** A piece without the separator, the separator and the rest split into that piece
      followed by the pieces of the rest. */
  lemma {:induction false} SplitAtFirst(a: String, sep: char, b: String)
    requires sep !in a
    ensures Split(a + [sep] + b, sep) == [a] + Split(b, sep)
    decreases |a|
  {
    var s := a + [sep] + b;
    if a == [] {
      assert s[0] == sep && s[1..] == b;
    } else {
      assert sep !in a[1..] by {
        forall k | 0 <= k < |a[1..]| ensures a[1..][k] != sep { assert a[1..][k] == a[k + 1]; }
      }
      SplitAtFirst(a[1..], sep, b);
      assert s[0] == a[0] && s[1..] == a[1..] + [sep] + b;
      assert [a[0]] + a[1..] == a;
    }
  }

  predicate IsHexDigit(c: char) {
    IsDigit(c) || 'a' <= c <= 'f' || 'A' <= c <= 'F'
  }

  function HexValue(c: char): nat
    requires IsHexDigit(c)
  {
    if IsDigit(c) then c as int - '0' as int
    else if 'a' <= c <= 'f' then c as int - 'a' as int + 10
    else c as int - 'A' as int + 10
  }

  /** The value of a string of hexadecimal digits. */
  function ParseHex(s: String): nat
    requires forall i :: 0 <= i < |s| ==> IsHexDigit(s[i])
    decreases |s|
  {
    if s == [] then 0 else 16 * ParseHex(s[..|s| - 1]) + HexValue(s[|s| - 1])
  }

  /** The longest prefix of `s` made of decimal digits. */
  function LeadingDigits(s: String): (r: String)
    ensures |r| <= |s| && r == s[..|r|]
    ensures forall i :: 0 <= i < |r| ==> IsDigit(r[i])
    ensures |r| < |s| ==> !IsDigit(s[|r|])
    decreases |s|
  {
    if s != [] && IsDigit(s[0]) then [s[0]] + LeadingDigits(s[1..]) else []
  }

  /** The longest prefix of `s` made of hexadecimal digits. */
  function LeadingHexDigits(s: String): (r: String)
    ensures |r| <= |s| && r == s[..|r|]
    ensures forall i :: 0 <= i < |r| ==> IsHexDigit(r[i])
    ensures |r| < |s| ==> !IsHexDigit(s[|r|])
    decreases |s|
  {
    if s != [] && IsHexDigit(s[0]) then [s[0]] + LeadingHexDigits(s[1..]) else []
  }

  /** `parseInt(s)` without a radix: leading whitespace is skipped, one sign is read, a
      `0x` or `0X` prefix selects base 16, and the longest run of digits that follows is
      read; with no digit the result is `NaN`, here `None`. */
  function ParseInt(s: String): (r: Option<int>)
  {
    var t := SkipSpaces(s);
    var negative := t != [] && t[0] == '-';
    var u := if t != [] && (t[0] == '-' || t[0] == '+') then t[1..] else t;
    var hex := |u| >= 2 && u[0] == '0' && (u[1] == 'x' || u[1] == 'X');
    var magnitude: Option<nat> :=
      if hex then
        var d := LeadingHexDigits(u[2..]);
        if d == [] then None else Some(ParseHex(d))
      else
        var d := LeadingDigits(u);
        if d == [] then None else Some(Daily.ParseNat(d));
    match magnitude
    case None => None
    case Some(m) =>
      var v: int := m;
      Some(if negative then -v else v)
  }

  const MonthNames: seq<String> := ["January", "February", "March", "April", "May", "June", "July",
                                    "August", "September", "October", "November", "December"]

  /** `monthNames[i]`, which is `undefined` (rendered as that word) outside the table. */
  function MonthName(index: Option<int>): String {
    match index
    case Some(i) => if 0 <= i < |MonthNames| then MonthNames[i] else "undefined"
    case None => "undefined"
  }

  /** The label of a `month_year` key: `[year, month] = key.split('-')` and then
      `${monthNames[parseInt(month) - 1]} ${year}`; a missing month part reads as
      `parseInt(undefined)`, which is `NaN`. */
  function MonthLabel(key: String): String {
    var parts := Split(key, '-');
    var month := if |parts| >= 2 then ParseInt(parts[1]) else None;
    var index := match month case Some(m) => Some(m - 1) case None => None;
    MonthName(index) + " " + parts[0]
  }

  /** The months reviewed, labelled and joined with a comma and a space. */
  function MonthsReviewedLabel(keys: seq<String>): (r: String)
    ensures keys == [] ==> r == []
    ensures |keys| == 1 ==> r == MonthLabel(keys[0])
  {
    Join(Labels(keys), ", ")
  }

  /** `.map(...)`: each key's label, in order. */
  function Labels(keys: seq<String>): (r: seq<String>)
    ensures |r| == |keys|
  {
    seq(|keys|, i requires 0 <= i < |keys| => MonthLabel(keys[i]))
  }

  /** Several keys give their labels in order, separated by a comma and a space: the
      labels of two runs of keys are joined with one `", "` between them. */
  lemma MonthsReviewedLabelAppend(a: seq<String>, b: seq<String>)
    requires a != [] && b != []
    ensures MonthsReviewedLabel(a + b) == MonthsReviewedLabel(a) + ", " + MonthsReviewedLabel(b)
  {
    assert Labels(a + b) == Labels(a) + Labels(b);
    JoinAppend(Labels(a), Labels(b), ", ");
  }

  /** Reading two digits with `parseInt` gives their value. */
  lemma ParseIntOfTwoDigits(s: String)
    requires |s| == 2 && IsDigit(s[0]) && IsDigit(s[1])
    ensures ParseInt(s) == Some(Daily.ParseNat(s))
  {
    assert !IsSpace(s[0]);
    assert SkipSpaces(s) == s;
    assert LeadingDigits(s[2..]) == [];
    assert LeadingDigits(s[1..]) == [s[1]];
    assert LeadingDigits(s) == s;
  }

  /** The key the daily page writes for a month is labelled with that month's English
      name and the year: the label reads back the month the key was made from. */
  lemma MonthLabelOfKey(year: nat, month: nat)
    requires 1 <= month <= 12
    ensures MonthLabel(Daily.MonthKey(year, month)) == MonthNames[month - 1] + " " + NatToString(year)
  {
    var m := Daily.Pad2(month);
    var k := Daily.MonthKey(year, month);
    SplitOfMonthKey(year, month);
    Daily.MonthKeyRoundTrip(year, month);
    assert k[|k| - 2..] == m;
    assert IsDigit(k[|k| - 2]) && IsDigit(k[|k| - 1]);
    ParseIntOfTwoDigits(m);
  }

  /** A month key splits at its dash into the year's digits and the month's two digits. */
  lemma SplitOfMonthKey(year: nat, month: nat)
    requires 1 <= month <= 12
    ensures Split(Daily.MonthKey(year, month), '-') == [NatToString(year), Daily.Pad2(month)]
    ensures |Daily.Pad2(month)| == 2
  {
    var y := NatToString(year);
    var m := Daily.Pad2(month);
    var k := Daily.MonthKey(year, month);
    Daily.MonthKeyRoundTrip(year, month);
    assert k == y + ['-'] + m;
    assert '-' !in y by {
      forall i | 0 <= i < |y| ensures y[i] != '-' { assert IsDigit(y[i]); }
    }
    assert '-' !in m by {
      forall i | 0 <= i < |m| ensures m[i] != '-' { assert IsDigit(k[|k| - 2 + i]); }
    }
    SplitAtFirst(y, '-', m);
    SplitWithout(m, '-');
  }

  /** A key without a dash has no month part: the label is "undefined" and the whole key. */
  lemma MonthLabelWithoutMonth(key: String)
    requires '-' !in key
    ensures MonthLabel(key) == "undefined " + key
  {
    SplitWithout(key, '-');
  }

  /** A month part outside 1 to 12 is labelled "undefined". */
  lemma MonthLabelOutOfRange(year: String, month: String)
    requires '-' !in year && '-' !in month
    requires ParseInt(month).Some? && !(1 <= ParseInt(month).value <= 12)
    ensures MonthLabel(year + ['-'] + month) == "undefined " + year
  {
    SplitAtFirst(year, '-', month);
    SplitWithout(month, '-');
  }

  // ---------------------------------------------------------------------------
  // Toggling a category
  // ---------------------------------------------------------------------------

  /** `list.filter((x) => x !== v)`. */
  function Without<T(==)>(list: seq<T>, v: T): (r: seq<T>)
    ensures |r| <= |list|
    decreases |list|
  {
    if list == [] then []
    else (if list[0] == v then [] else [list[0]]) + Without(list[1..], v)
  }

  lemma {:induction false} WithoutMembership<T>(list: seq<T>, v: T, x: T)
    ensures x in Without(list, v) <==> x in list && x != v
    decreases |list|
  {
    if list != [] {
      WithoutMembership(list[1..], v, x);
      assert list == [list[0]] + list[1..];
    }
  }

  lemma {:induction false} WithoutAbsent<T>(list: seq<T>, v: T)
    requires v !in list
    ensures Without(list, v) == list
    decreases |list|
  {
    if list != [] {
      assert list[0] != v;
      WithoutAbsent(list[1..], v);
      assert [list[0]] + list[1..] == list;
    }
  }

  lemma {:induction false} WithoutAppend<T>(a: seq<T>, b: seq<T>, v: T)
    ensures Without(a + b, v) == Without(a, v) + Without(b, v)
    decreases |a|
  {
    if a == [] {
      assert a + b == b;
    } else {
      WithoutAppend(a[1..], b, v);
      assert (a + b)[0] == a[0] && (a + b)[1..] == a[1..] + b;
      AppendAssoc(if a[0] == v then [] else [a[0]], Without(a[1..], v), Without(b, v));
    }
  }

  /** A category button's click: a selected category is removed (every occurrence of
      it), any other is appended at the end. */
  function Toggle(selected: seq<String>, id: String): seq<String> {
    if id in selected then Without(selected, id) else selected + [id]
  }

  /** A toggle flips whether the clicked category is selected and leaves every other
      category as it was. */
  lemma ToggleMembership(selected: seq<String>, id: String, x: String)
    ensures x in Toggle(selected, id) <==> if x == id then id !in selected else x in selected
  {
    if id in selected {
      WithoutMembership(selected, id, x);
    }
  }

  /** Selecting a category and clicking it again gives back the selection. */
  lemma ToggleTwice(selected: seq<String>, id: String)
    requires id !in selected
    ensures Toggle(Toggle(selected, id), id) == selected
  {
    var s := selected + [id];
    assert id in s;
    WithoutAppend(selected, [id], id);
    WithoutAbsent(selected, id);
    assert Without([id], id) == [];
  }

  predicate NoDuplicates<T(==)>(list: seq<T>) {
    forall i, j :: 0 <= i < j < |list| ==> list[i] != list[j]
  }

  /** Without duplicates before a toggle, there are none after it. */
  lemma ToggleKeepsNoDuplicates(selected: seq<String>, id: String)
    requires NoDuplicates(selected)
    ensures NoDuplicates(Toggle(selected, id))
  {
    if id in selected {
      WithoutKeepsNoDuplicates(selected, id);
    }
  }

  /** Removing a value from a list without duplicates leaves a list without duplicates. */
  lemma {:induction false} WithoutKeepsNoDuplicates(list: seq<String>, v: String)
    requires NoDuplicates(list)
    ensures NoDuplicates(Without(list, v))
    decreases |list|
  {
    if list != [] {
      var tail := list[1..];
      assert NoDuplicates(tail) by {
        forall i, j | 0 <= i < j < |tail| ensures tail[i] != tail[j] {
          assert tail[i] == list[i + 1] && tail[j] == list[j + 1];
        }
      }
      WithoutKeepsNoDuplicates(tail, v);
      var rest := Without(tail, v);
      if list[0] != v {
        forall x | x in rest ensures x != list[0] {
          WithoutMembership(tail, v, x);
          var j :| 0 <= j < |tail| && tail[j] == x;
          assert list[j + 1] == x;
        }
        var r := [list[0]] + rest;
        forall i, j | 0 <= i < j < |r| ensures r[i] != r[j] {
          if i == 0 {
            assert r[j] == rest[j - 1] && r[j] in rest;
          } else {
            assert r[i] == rest[i - 1] && r[j] == rest[j - 1];
          }
        }
      }
    }
  }

  // ---------------------------------------------------------------------------
  // The shown list and the total
  // ---------------------------------------------------------------------------

  /** A highlight as the page holds it: its id and the rest of its fields. */
  datatype Entry<T> = Entry(id: String, fields: T)

  /** The shown highlights and `totalHighlights`. */
  datatype Shown<T> = Shown(highlights: seq<Entry<T>>, total: nat)

  /** `prev.filter((h) => h.id !== id)`. */
  function WithoutId<T>(list: seq<Entry<T>>, id: String): (r: seq<Entry<T>>)
    ensures |r| <= |list|
    decreases |list|
  {
    if list == [] then []
    else (if list[0].id == id then [] else [list[0]]) + WithoutId(list[1..], id)
  }

  /** After the filter, an entry is there exactly when it was there and has another id. */
  lemma {:induction false} WithoutIdMembership<T>(list: seq<Entry<T>>, id: String, e: Entry<T>)
    ensures e in WithoutId(list, id) <==> e in list && e.id != id
    decreases |list|
  {
    if list != [] {
      WithoutIdMembership(list[1..], id, e);
      assert list == [list[0]] + list[1..];
    }
  }

  /** Filtering an id no entry has changes nothing. */
  lemma {:induction false} WithoutIdAbsent<T>(list: seq<Entry<T>>, id: String)
    requires forall e :: e in list ==> e.id != id
    ensures WithoutId(list, id) == list
    decreases |list|
  {
    if list != [] {
      assert list[0] in list;
      forall e | e in list[1..] ensures e.id != id { assert e in list; }
      WithoutIdAbsent(list[1..], id);
      assert [list[0]] + list[1..] == list;
    }
  }

  /** After adding: the new highlight first, and one more in total. */
  function Add<T>(s: Shown<T>, h: Entry<T>): (r: Shown<T>)
    ensures |r.highlights| == |s.highlights| + 1
    ensures r.highlights[0] == h && r.highlights[1..] == s.highlights
    ensures r.total == s.total + 1
  {
    Shown([h] + s.highlights, s.total + 1)
  }

  /** After deleting `id`: no entry with that id, and one fewer in total but never fewer
      than none. */
  function Delete<T>(s: Shown<T>, id: String): Shown<T> {
    Shown(WithoutId(s.highlights, id), Max(0, s.total - 1))
  }

  /** Deleting keeps exactly the entries with another id and lowers a positive total by
      one; a total of zero stays zero. */
  lemma DeleteMeaning<T>(s: Shown<T>, id: String, e: Entry<T>)
    ensures e in Delete(s, id).highlights <==> e in s.highlights && e.id != id
    ensures Delete(s, id).total == if s.total == 0 then 0 else s.total - 1
  {
    WithoutIdMembership(s.highlights, id, e);
  }

  /** Deleting a highlight just added, whose id no shown entry has, gives back the list
      and the total. */
  lemma DeleteUndoesAdd<T>(s: Shown<T>, h: Entry<T>)
    requires forall e :: e in s.highlights ==> e.id != h.id
    ensures Delete(Add(s, h), h.id) == s
  {
    var l := [h] + s.highlights;
    assert l[0] == h && l[1..] == s.highlights;
    WithoutIdAbsent(s.highlights, h.id);
  }

  /** After saving an edit of `id`: the entry with that id replaced by the saved one. */
  function Replace<T>(list: seq<Entry<T>>, id: String, saved: Entry<T>): (r: seq<Entry<T>>)
  {
    seq(|list|, i requires 0 <= i < |list| => if list[i].id == id then saved else list[i])
  }

  /** Saving an edit keeps the length and the position of every entry, replaces the
      entries with the edited id and leaves every other entry as it was. */
  lemma ReplaceMeaning<T>(list: seq<Entry<T>>, id: String, saved: Entry<T>)
    ensures |Replace(list, id, saved)| == |list|
    ensures forall i :: 0 <= i < |list| && list[i].id != id ==> Replace(list, id, saved)[i] == list[i]
    ensures forall i :: 0 <= i < |list| && list[i].id == id ==> Replace(list, id, saved)[i] == saved
  {
  }

  /** Saving the same edit again changes nothing more, when the saved entry keeps its id. */
  lemma ReplaceIdempotent<T>(list: seq<Entry<T>>, id: String, saved: Entry<T>)
    requires saved.id == id
    ensures Replace(Replace(list, id, saved), id, saved) == Replace(list, id, saved)
  {
  }

  /** The entries an edit leaves alone are the ones a delete of the same id keeps. */
  lemma {:induction false} ReplaceThenDelete<T>(list: seq<Entry<T>>, id: String, saved: Entry<T>)
    requires saved.id == id
    ensures WithoutId(Replace(list, id, saved), id) == WithoutId(list, id)
    decreases |list|
  {
    if list != [] {
      var r := Replace(list, id, saved);
      assert r[0] == (if list[0].id == id then saved else list[0]);
      assert r[1..] == Replace(list[1..], id, saved);
      ReplaceThenDelete(list[1..], id, saved);
    }
  }
}
