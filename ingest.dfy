/** Ingestion of the external paper table into the papers and metas stores
    (add_swepapers.py): rows missing a required column are dropped, author
    names lose their trailing numeric markers, papers are sorted newest year
    first, and every paper is upserted into both stores. */
module Ingest {
  import opened PyText
  import opened Sorting
  import opened Stores

  /** The `authors` column: a single text value or an array of text. */
  datatype AuthorsField = Text(name: string) | List(names: seq<string>)

  /** A row of the external table query `authors, title, doi, year`;
      `None` stands for SQL NULL. */
  datatype Row = Row(authors: Option<AuthorsField>, title: Option<string>,
                     doi: Option<string>, year: Option<int>)

  /** A paper as built in memory: the keys `authors`, `title`, `doi`, `_id`,
      `summary` and `_time`. */
  datatype Paper = Paper(authors: seq<string>, title: string, doi: string,
                         id: string, summary: string, time: int)

  // ---------------------------------------------------------------------
  // The author regex `\s+\b\d+\b`, with ASCII `\s`, `\d` and `\w`.

  /** Length of the leading run of digits. */
  function DigitRun(s: string): (n: nat)
    ensures n <= |s|
    ensures forall i :: 0 <= i < n ==> IsDigit(s[i])
    ensures n < |s| ==> !IsDigit(s[n])
  {
    if s == [] || !IsDigit(s[0]) then 0 else 1 + DigitRun(s[1..])
  }

  /** The length of the match of `\s+\b\d+\b` that starts at the front of
      `s`, if there is one. The whitespace run and the digit run are both
      maximal (backtracking cannot help: a shorter whitespace run is followed
      by whitespace, a shorter digit run by a digit), the boundary before the
      digits always holds, and the one after them needs the end of the
      string or a non-word character. */
  function MarkerAt(s: string): (r: Option<nat>)
    ensures r.Some? ==> 0 < r.value <= |s|
  {
    var w := SpaceRun(s);
    if w == 0 then None
    else
      var d := DigitRun(s[w..]);
      if d == 0 then None
      else if w + d < |s| && IsWord(s[w + d]) then None
      else Some(w + d)
  }

  /** Soundness of `MarkerAt`: a match is a non-empty whitespace run, then a
      non-empty digit run, then the end or a non-word character. */
  lemma MarkerAtSound(s: string)
    ensures var r := MarkerAt(s);
      && (r.Some? ==> 0 < SpaceRun(s) < r.value <= |s|)
      && (r.Some? ==> forall i :: 0 <= i < SpaceRun(s) ==> IsSpace(s[i]))
      && (r.Some? ==> forall i :: SpaceRun(s) <= i < r.value ==> IsDigit(s[i]))
      && (r.Some? ==> r.value == |s| || !IsWord(s[r.value]))
  {
    MarkerAtShape(s);
    MarkerAtDigits(s);
  }

  lemma MarkerAtShape(s: string)
    ensures MarkerAt(s).Some? ==> 0 < SpaceRun(s) < MarkerAt(s).value <= |s|
    ensures MarkerAt(s).Some? ==> MarkerAt(s).value == |s| || !IsWord(s[MarkerAt(s).value])
  {
  }

  lemma MarkerAtDigits(s: string)
    ensures MarkerAt(s).Some? ==> forall i :: SpaceRun(s) <= i < MarkerAt(s).value ==> IsDigit(s[i])
  {
    if MarkerAt(s).Some? {
      var w := SpaceRun(s);
      var d := DigitRun(s[w..]);
      assert MarkerAt(s).value == w + d;
      DigitsShift(s, w, d);
    }
  }

  /** The digits found in `s[w..]` are digits of `s`, shifted by `w`. */
  lemma DigitsShift(s: string, w: nat, d: nat)
    requires w <= |s| && d <= |s| - w
    requires forall i :: 0 <= i < d ==> IsDigit(s[w..][i])
    ensures forall i :: w <= i < w + d ==> IsDigit(s[i])
  {
    forall i | w <= i < w + d ensures IsDigit(s[i]) {
      assert s[i] == s[w..][i - w];
    }
  }

  /** A string without digits holds no match at its front. */
  lemma MarkerAtNoDigit(s: string)
    requires NoDigit(s)
    ensures MarkerAt(s).None?
  {
    var w := SpaceRun(s);
    if w < |s| {
      assert s[w..][0] == s[w];
    }
  }

  /** `re.sub(r"\s+\b\d+\b", "", s)`: scanning left to right, each match is
      deleted and the scan resumes after it; elsewhere one character is kept
      and the scan moves on by one. */
  function StripMarkers(s: string): (r: string)
    ensures |r| <= |s|
    decreases |s|
  {
    if s == [] then []
    else match MarkerAt(s)
      case Some(n) => StripMarkers(s[n..])
      case None => [s[0]] + StripMarkers(s[1..])
  }

  predicate NoDigit(s: string) {
    forall i :: 0 <= i < |s| ==> !IsDigit(s[i])
  }

  /** A name without digits is left as it is. */
  lemma {:induction false} StripMarkersNoDigit(s: string)
    requires NoDigit(s)
    ensures StripMarkers(s) == s
    decreases |s|
  {
    if s != [] {
      MarkerAtNoDigit(s);
      StripMarkersFirst(s);
      assert NoDigit(s[1..]);
      StripMarkersNoDigit(s[1..]);
      assert s == [s[0]] + s[1..];
    }
  }

  /** A name without whitespace is left as it is: every match starts with
      whitespace, so digits inside a word such as "R2D2" are kept. */
  lemma {:induction false} StripMarkersNoSpace(s: string)
    requires NoSpace(s)
    ensures StripMarkers(s) == s
    decreases |s|
  {
    if s != [] {
      assert SpaceRun(s) == 0;
      StripMarkersFirst(s);
      assert NoSpace(s[1..]);
      StripMarkersNoSpace(s[1..]);
      assert s == [s[0]] + s[1..];
    }
  }

  /** The substitution changes nothing where no match starts at any
      position. */
  lemma {:induction false} StripMarkersNoMatch(s: string)
    requires forall i :: 0 <= i < |s| ==> MarkerAt(s[i..]).None?
    ensures StripMarkers(s) == s
    decreases |s|
  {
    if s != [] {
      NoMatchTail(s);
      StripMarkersFirst(s);
      StripMarkersNoMatch(s[1..]);
      assert s == [s[0]] + s[1..];
    }
  }

  lemma NoMatchTail(s: string)
    requires s != [] && forall i :: 0 <= i < |s| ==> MarkerAt(s[i..]).None?
    ensures MarkerAt(s).None?
    ensures forall i :: 0 <= i < |s[1..]| ==> MarkerAt(s[1..][i..]).None?
  {
    assert s[0..] == s;
    forall i | 0 <= i < |s[1..]| ensures MarkerAt(s[1..][i..]).None? {
      assert s[1..][i..] == s[i + 1..];
    }
  }

  /** A match at the front is deleted whole. */
  lemma StripMarkersSkip(s: string)
    requires s != [] && MarkerAt(s).Some?
    ensures StripMarkers(s) == StripMarkers(s[MarkerAt(s).value..])
  {
  }

  /** Without a match at the front the first character is kept. */
  lemma StripMarkersFirst(s: string)
    requires s != [] && MarkerAt(s).None?
    ensures StripMarkers(s) == [s[0]] + StripMarkers(s[1..])
  {
  }

  /** A character absent from `s` occurs zero times in its multiset. */
  lemma CountAbsent(s: string, c: char)
    requires forall i :: 0 <= i < |s| ==> s[i] != c
    ensures multiset(s)[c] == 0
  {
    assert c !in s;
  }

  /** Occurrences of `c` add up over a split of `s`. */
  lemma CountSplit(s: string, n: nat, c: char)
    requires n <= |s|
    ensures multiset(s)[c] == multiset(s[..n])[c] + multiset(s[n..])[c]
  {
    assert s == s[..n] + s[n..];
  }

  /** Only whitespace and digits are ever deleted: every other character
      keeps its number of occurrences. */
  lemma {:induction false} StripMarkersKeeps(s: string, c: char)
    requires !IsSpace(c) && !IsDigit(c)
    ensures multiset(StripMarkers(s))[c] == multiset(s)[c]
    decreases |s|
  {
    if s != [] {
      var r := MarkerAt(s);
      if r.Some? {
        var n := r.value;
        MarkerAtSound(s);
        StripMarkersSkip(s);
        var head := s[..n];
        forall i | 0 <= i < |head| ensures head[i] != c {
          assert head[i] == s[i];
        }
        CountAbsent(head, c);
        CountSplit(s, n, c);
        StripMarkersKeeps(s[n..], c);
      } else {
        StripMarkersFirst(s);
        CountSplit(s, 1, c);
        StripMarkersKeeps(s[1..], c);
        assert multiset([s[0]] + StripMarkers(s[1..])) == multiset([s[0]]) + multiset(StripMarkers(s[1..]));
        assert s[..1] == [s[0]];
      }
    }
  }

  lemma {:induction false} SpaceRunPrefix(a: string, b: string)
    requires SpaceRun(a) < |a|
    ensures SpaceRun(a + b) == SpaceRun(a)
    decreases |a|
  {
    if IsSpace(a[0]) {
      assert (a + b)[1..] == a[1..] + b;
      SpaceRunPrefix(a[1..], b);
    }
  }

  /** Completeness of `MarkerAt`: a whitespace run followed by a digit run
      and then the end or a non-word character is matched, and the match
      is exactly those two runs. */
  lemma MarkerFound(w: string, d: string, t: string)
    requires w != [] && forall i :: 0 <= i < |w| ==> IsSpace(w[i])
    requires d != [] && forall i :: 0 <= i < |d| ==> IsDigit(d[i])
    requires t == [] || !IsWord(t[0])
    ensures MarkerAt(w + d + t) == Some(|w| + |d|)
  {
    var s := w + d + t;
    assert s == w + (d + t);
    SpaceRunAll(w, d + t);
    assert s[|w|..] == d + t;
    DigitRunAll(d, t);
    if t != [] {
      assert s[|w| + |d|] == t[0];
    }
  }

  /** A whitespace run and a digit run followed by a letter or underscore
      are no match: the `\b` after the digits fails, as in "Lee 2nd". */
  lemma MarkerBeforeWord(w: string, d: string, t: string)
    requires w != [] && forall i :: 0 <= i < |w| ==> IsSpace(w[i])
    requires d != [] && forall i :: 0 <= i < |d| ==> IsDigit(d[i])
    requires t != [] && IsWord(t[0]) && !IsDigit(t[0])
    ensures MarkerAt(w + d + t).None?
  {
    var s := w + d + t;
    assert s == w + (d + t);
    SpaceRunAll(w, d + t);
    assert s[|w|..] == d + t;
    DigitRunAll(d, t);
    assert s[|w| + |d|] == t[0];
  }

  /** When the text after `a` starts with whitespace and `a` does not end
      in whitespace, whether a match starts at the front, and how long it
      is, depends on `a` alone. */
  lemma MarkerAtAppend(a: string, m: string)
    requires a != [] && !IsSpace(a[|a| - 1])
    requires m != [] && IsSpace(m[0])
    ensures MarkerAt(a + m) == MarkerAt(a)
  {
    var s := a + m;
    SpaceRunInside(a);
    SpaceRunPrefix(a, m);
    var w := SpaceRun(a);
    assert s[w..] == a[w..] + m;
    DigitRunAppend(a[w..], m);
    var d := DigitRun(a[w..]);
    if w + d < |a| {
      assert s[w + d] == a[w + d];
    } else if w + d == |a| {
      assert s[w + d] == m[0];
    }
  }

  /** A digit run stops before a non-digit. */
  lemma {:induction false} DigitRunAppend(x: string, y: string)
    requires y == [] || !IsDigit(y[0])
    ensures DigitRun(x + y) == DigitRun(x)
    decreases |x|
  {
    if x == [] {
      assert x + y == y;
    } else if IsDigit(x[0]) {
      assert (x + y)[1..] == x[1..] + y;
      DigitRunAppend(x[1..], y);
    }
  }

  /** The scan over `a` never runs into text that starts with whitespace
      when `a` does not end in whitespace: the two parts are cleaned
      separately. */
  lemma {:induction false} StripMarkersAppend(a: string, m: string)
    requires a == [] || !IsSpace(a[|a| - 1])
    requires m != [] && IsSpace(m[0])
    ensures StripMarkers(a + m) == StripMarkers(a) + StripMarkers(m)
    decreases |a|, 1
  {
    if a == [] {
      assert a + m == m;
    } else {
      MarkerAtAppend(a, m);
      if MarkerAt(a).Some? {
        AppendSkip(a, m);
      } else {
        AppendFirst(a, m);
      }
    }
  }

  /** `StripMarkersAppend` when a match starts at the front of `a`. */
  lemma {:induction false} AppendSkip(a: string, m: string)
    requires a != [] && !IsSpace(a[|a| - 1])
    requires m != [] && IsSpace(m[0])
    requires MarkerAt(a).Some? && MarkerAt(a + m) == MarkerAt(a)
    ensures StripMarkers(a + m) == StripMarkers(a) + StripMarkers(m)
    decreases |a|, 0
  {
    var n := MarkerAt(a).value;
    StripMarkersSkip(a + m);
    SliceAppend(a, m, n);
    StripMarkersSkip(a);
    SuffixNotSpace(a, n);
    StripMarkersAppend(a[n..], m);
  }

  /** `StripMarkersAppend` when no match starts at the front of `a`. */
  lemma {:induction false} AppendFirst(a: string, m: string)
    requires a != [] && !IsSpace(a[|a| - 1])
    requires m != [] && IsSpace(m[0])
    requires MarkerAt(a).None? && MarkerAt(a + m) == MarkerAt(a)
    ensures StripMarkers(a + m) == StripMarkers(a) + StripMarkers(m)
    decreases |a|, 0
  {
    StripMarkersFirst(a + m);
    assert (a + m)[0] == a[0] && (a + m)[1..] == a[1..] + m;
    StripMarkersFirst(a);
    SuffixNotSpace(a, 1);
    StripMarkersAppend(a[1..], m);
    PrependAssoc(a[0], StripMarkers(a[1..]), StripMarkers(m));
  }

  lemma SliceAppend(a: string, m: string, n: nat)
    requires n <= |a|
    ensures (a + m)[n..] == a[n..] + m
  {
  }

  lemma PrependAssoc(c: char, p: string, q: string)
    ensures [c] + (p + q) == ([c] + p) + q
  {
  }

  /** A suffix of a string that does not end in whitespace does not either. */
  lemma SuffixNotSpace(a: string, n: nat)
    requires a != [] && !IsSpace(a[|a| - 1]) && n <= |a|
    ensures a[n..] == [] || !IsSpace(a[n..][|a[n..]| - 1])
  {
    if n < |a| {
      assert a[n..][|a[n..]| - 1] == a[|a| - 1];
    }
  }

  /** `re.sub(r"\s+\b\d+\b", "", ...)` removes a whitespace run followed by a
      digit word wherever it stands after text that does not end in
      whitespace: before more text, before another marker, or after a name
      that holds digits itself. */
  lemma StripMarkersAround(a: string, w: string, d: string, t: string)
    requires a == [] || !IsSpace(a[|a| - 1])
    requires w != [] && forall i :: 0 <= i < |w| ==> IsSpace(w[i])
    requires d != [] && forall i :: 0 <= i < |d| ==> IsDigit(d[i])
    requires t == [] || !IsWord(t[0])
    ensures StripMarkers(a + w + d + t) == StripMarkers(a) + StripMarkers(t)
  {
    var m := w + d + t;
    MarkerFound(w, d, t);
    StripMarkersSkip(m);
    assert m[|w| + |d|..] == t;
    assert StripMarkers(m) == StripMarkers(t);
    assert m[0] == w[0];
    StripMarkersAppend(a, m);
    ConcatAssoc(a, w, d, t);
  }

  lemma ConcatAssoc(a: string, w: string, d: string, t: string)
    ensures a + w + d + t == a + (w + d + t)
  {
  }

  /** A name that does not end in whitespace and holds no digits or no
      whitespace, followed by a whitespace run and a digit run, comes back as
      the bare name. */
  lemma StripTrailingMarker(name: string, w: string, d: string)
    requires (NoDigit(name) && (name == [] || !IsSpace(name[|name| - 1]))) || NoSpace(name)
    requires w != [] && forall i :: 0 <= i < |w| ==> IsSpace(w[i])
    requires d != [] && forall i :: 0 <= i < |d| ==> IsDigit(d[i])
    ensures StripMarkers(name + w + d) == name
  {
    StripMarkersAround(name, w, d, []);
    if NoDigit(name) {
      StripMarkersNoDigit(name);
    } else {
      StripMarkersNoSpace(name);
    }
    assert name + w + d + [] == name + w + d;
  }

  lemma {:induction false} SpaceRunAll(w: string, t: string)
    requires forall i :: 0 <= i < |w| ==> IsSpace(w[i])
    requires t != [] && !IsSpace(t[0])
    ensures SpaceRun(w + t) == |w|
    decreases |w|
  {
    if w != [] {
      assert (w + t)[1..] == w[1..] + t;
      SpaceRunAll(w[1..], t);
    } else {
      assert w + t == t;
    }
  }

  lemma {:induction false} DigitRunAll(d: string, t: string)
    requires forall i :: 0 <= i < |d| ==> IsDigit(d[i])
    requires t == [] || !IsDigit(t[0])
    ensures DigitRun(d + t) == |d|
    decreases |d|
  {
    if d == [] {
      assert d + t == t;
    } else {
      assert (d + t)[1..] == d[1..] + t;
      DigitRunAll(d[1..], t);
    }
  }

  /** In a string that does not end in whitespace the leading whitespace
      run stops inside the string. */
  lemma SpaceRunInside(a: string)
    requires a != [] && !IsSpace(a[|a| - 1])
    ensures SpaceRun(a) < |a|
  {
  }

  /** A trailing marker: "Smith 13" becomes "Smith". */
  lemma StripMarkersExample()
    ensures StripMarkers("Smith 13") == "Smith"
  {
    assert "Smith 13" == "Smith" + " " + "13";
    StripTrailingMarker("Smith", " ", "13");
  }

  /** A name that holds digits keeps them: "R2D2 3" becomes "R2D2". */
  lemma StripMarkersDigitName()
    ensures StripMarkers("R2D2 3") == "R2D2"
  {
    assert "R2D2 3" == "R2D2" + " " + "3";
    StripTrailingMarker("R2D2", " ", "3");
  }


  /** A name, a whitespace character, then digits glued to a word: no match
      starts anywhere, so the text is kept. */
  lemma StripMarkersGluedDigits(a: string, c: char, d: string, t: string)
    requires NoSpace(a) && IsSpace(c)
    requires d != [] && forall i :: 0 <= i < |d| ==> IsDigit(d[i])
    requires t != [] && IsWord(t[0]) && !IsDigit(t[0]) && NoSpace(t)
    ensures StripMarkers(a + [c] + d + t) == a + [c] + d + t
  {
    var dt := d + t;
    var m := [c] + dt;
    assert m[1..] == dt;
    MarkerBeforeWord([c], d, t);
    assert [c] + d + t == m;
    StripMarkersFirst(m);
    NoSpaceAppend(d, t);
    StripMarkersNoSpace(dt);
    StripMarkersNoSpace(a);
    StripMarkersAppend(a, m);
    ConcatAssoc(a, [c], d, t);
  }

  lemma NoSpaceAppend(d: string, t: string)
    requires forall i :: 0 <= i < |d| ==> IsDigit(d[i])
    requires NoSpace(t)
    ensures NoSpace(d + t)
  {
    forall i | 0 <= i < |d + t| ensures !IsSpace((d + t)[i]) {
      if i < |d| { assert (d + t)[i] == d[i]; } else { assert (d + t)[i] == t[i - |d|]; }
    }
  }

  /** Digits glued to a word are not a marker: "Lee 2nd" stays as it is. */
  lemma StripMarkersOrdinal()
    ensures StripMarkers("Lee 2nd") == "Lee 2nd"
  {
    assert "Lee 2nd" == "Lee" + [' '] + "2" + "nd";
    StripMarkersGluedDigits("Lee", ' ', "2", "nd");
  }

  // ---------------------------------------------------------------------
  // Row validation and record construction.

  /** A row is accepted only when none of the four columns is NULL. */
  predicate Complete(row: Row) {
    row.authors.Some? && row.title.Some? && row.doi.Some? && row.year.Some?
  }

  /** A lone author string becomes a one-element list; a list is cleaned
      element by element. */
  function NormalizeAuthors(f: AuthorsField): (r: seq<string>)
    ensures f.Text? ==> r == [StripMarkers(f.name)]
    ensures f.List? ==> |r| == |f.names|
    ensures f.List? ==> forall i :: 0 <= i < |r| ==> r[i] == StripMarkers(f.names[i])
  {
    match f
    case Text(name) => [StripMarkers(name)]
    case List(names) => seq(|names|, i requires 0 <= i < |names| => StripMarkers(names[i]))
  }

  /** The paper built from a row, or `None` for a row that is dropped. */
  function Normalize(row: Row): (r: Option<Paper>)
    ensures r.Some? <==> Complete(row)
    ensures r.Some? ==> r.value.doi == row.doi.value && r.value.id == row.doi.value
    ensures r.Some? ==> r.value.summary == [] && r.value.time == row.year.value
    ensures r.Some? ==> r.value.title == row.title.value
    ensures r.Some? ==> r.value.authors == NormalizeAuthors(row.authors.value)
  {
    if Complete(row) then
      var doi := row.doi.value;
      Some(Paper(NormalizeAuthors(row.authors.value), row.title.value, doi, doi, "", row.year.value))
    else None
  }

  /** The papers built from the accepted rows, in row order. */
  function Accepted(rows: seq<Row>): seq<Paper>
    decreases |rows|
  {
    if rows == [] then []
    else
      var n := |rows| - 1;
      Accepted(rows[..n]) + (match Normalize(rows[n]) case Some(p) => [p] case None => [])
  }

  /** Every accepted paper is built from one of the rows. */
  lemma {:induction false} AcceptedFromRows(rows: seq<Row>)
    ensures forall p :: p in Accepted(rows) ==> exists i :: 0 <= i < |rows| && Normalize(rows[i]) == Some(p)
    decreases |rows|
  {
    if rows != [] {
      var n := |rows| - 1;
      var pre := rows[..n];
      AcceptedFromRows(pre);
      var last := match Normalize(rows[n]) case Some(q) => [q] case None => [];
      assert Accepted(rows) == Accepted(pre) + last;
      forall p | p in Accepted(rows) ensures exists i :: 0 <= i < |rows| && Normalize(rows[i]) == Some(p) {
        if p in Accepted(pre) {
          var i :| 0 <= i < |pre| && Normalize(pre[i]) == Some(p);
          FromPrefixRow(rows, i, p);
        } else {
          assert p in last;
          assert 0 <= n < |rows| && Normalize(rows[n]) == Some(p);
        }
      }
    }
  }

  lemma FromPrefixRow(rows: seq<Row>, i: nat, p: Paper)
    requires i < |rows| - 1 && Normalize(rows[..|rows| - 1][i]) == Some(p)
    ensures exists j :: 0 <= j < |rows| && Normalize(rows[j]) == Some(p)
  {
    assert rows[..|rows| - 1][i] == rows[i];
  }

  /** Every complete row yields its paper. */
  lemma {:induction false} AcceptedComplete(rows: seq<Row>)
    ensures forall i :: 0 <= i < |rows| && Complete(rows[i]) ==> Normalize(rows[i]).value in Accepted(rows)
    decreases |rows|
  {
    if rows != [] {
      var n := |rows| - 1;
      var pre := rows[..n];
      AcceptedComplete(pre);
      forall i | 0 <= i < |rows| && Complete(rows[i]) ensures Normalize(rows[i]).value in Accepted(rows) {
        if i < n {
          assert rows[i] == pre[i];
          AcceptedGrows(rows, Normalize(rows[i]).value);
        } else {
          AcceptedLast(rows);
        }
      }
    }
  }

  lemma AcceptedGrows(rows: seq<Row>, p: Paper)
    requires rows != [] && p in Accepted(rows[..|rows| - 1])
    ensures p in Accepted(rows)
  {
  }

  lemma AcceptedLast(rows: seq<Row>)
    requires rows != [] && Complete(rows[|rows| - 1])
    ensures Normalize(rows[|rows| - 1]).value in Accepted(rows)
  {
  }

  /** At most one paper per row, each keyed by its doi and with no summary. */
  lemma {:induction false} AcceptedShape(rows: seq<Row>)
    ensures |Accepted(rows)| <= |rows|
    ensures forall p :: p in Accepted(rows) ==> p.id == p.doi && p.summary == []
    decreases |rows|
  {
    if rows != [] {
      AcceptedShape(rows[..|rows| - 1]);
    }
  }

  /** A row with a NULL column contributes nothing. */
  lemma DroppedRow(rows: seq<Row>, row: Row)
    requires !Complete(row)
    ensures Accepted(rows + [row]) == Accepted(rows)
  {
    assert (rows + [row])[..|rows|] == rows;
  }

  function PaperTime(p: Paper): int { p.time }

  /** `grab_paper_entries_from_swepapers` once the rows have been fetched:
      the accepted papers, sorted by year, newest first, with papers of the
      same year in row order. */
  method GrabPaperEntries(rows: seq<Row>) returns (papers: seq<Paper>)
    ensures papers == SortDesc(Accepted(rows), PaperTime)
    ensures multiset(papers) == multiset(Accepted(rows))
    ensures forall i, j :: 0 <= i < j < |papers| ==> papers[i].time >= papers[j].time
    ensures forall y :: WithKey(papers, PaperTime, y) == WithKey(Accepted(rows), PaperTime, y)
  {
    var listOfPapers: seq<Paper> := [];
    var i := 0;
    while i < |rows|
      invariant 0 <= i <= |rows|
      invariant listOfPapers == Accepted(rows[..i])
    {
      var row := rows[i];
      if Complete(row) {
        var authors := NormalizeAuthors(row.authors.value);
        var paper := Paper(authors, row.title.value, row.doi.value, row.doi.value, "", row.year.value);
        listOfPapers := listOfPapers + [paper];
      }
      assert rows[..i + 1][..i] == rows[..i];
      i := i + 1;
    }
    assert rows[..i] == rows;
    papers := SortDesc(listOfPapers, PaperTime);
    assert SortedDesc(papers, PaperTime);
  }

  // ---------------------------------------------------------------------
  // Saving into the stores.

  /** `{k: paper[k] for k in required_keys}` with the keys authors, title,
      summary, _time and _id. */
  function ToPaperDoc(p: Paper): PaperDoc {
    PaperDoc(p.authors, p.title, p.summary, p.time, p.id)
  }

  /** `{'_time': paper['_time'], '_id': paper['doi']}` */
  function ToMetaDoc(p: Paper): MetaDoc {
    MetaDoc(p.time, p.doi)
  }

  /** `save_swepaper_to_arxiv_sanity` */
  method SavePaper(paper: Paper, pdb: KvStore<PaperDoc>)
    modifies pdb
    ensures pdb.data == old(pdb.data)[paper.doi := ToPaperDoc(paper)]
    ensures pdb.data.Keys == old(pdb.data.Keys) + {paper.doi}
    ensures pdb.data[paper.doi] == PaperDoc(paper.authors, paper.title, paper.summary, paper.time, paper.id)
    ensures forall k :: k in old(pdb.data) && k != paper.doi ==> pdb.data[k] == old(pdb.data[k])
  {
    pdb.Set(paper.doi, ToPaperDoc(paper));
  }

  /** `save_swepaper_time_to_arxiv_sanity` */
  method SaveMeta(paper: Paper, mdb: KvStore<MetaDoc>)
    modifies mdb
    ensures mdb.data == old(mdb.data)[paper.doi := ToMetaDoc(paper)]
    ensures mdb.data.Keys == old(mdb.data.Keys) + {paper.doi}
    ensures mdb.data[paper.doi] == MetaDoc(paper.time, paper.doi)
    ensures forall k :: k in old(mdb.data) && k != paper.doi ==> mdb.data[k] == old(mdb.data[k])
  {
    mdb.Set(paper.doi, ToMetaDoc(paper));
  }

  /** Which of the two saves of one paper raises, if any. A save that raises
      leaves its store as it was; after the first save raises the second is
      not attempted. */
  datatype Fault = NoFault | PaperSaveFails | MetaSaveFails

  /** The outcome oracle: papers beyond the end of `faults` save cleanly. */
  function FaultAt(faults: seq<Fault>, i: nat): Fault {
    if i < |faults| then faults[i] else NoFault
  }

  /** The writes into the papers store, in order, for papers `ps`. */
  function PaperWrites(ps: seq<Paper>, faults: seq<Fault>): seq<(string, PaperDoc)>
    decreases |ps|
  {
    if ps == [] then []
    else
      var n := |ps| - 1;
      PaperWrites(ps[..n], faults)
        + (if FaultAt(faults, n) == PaperSaveFails then [] else [(ps[n].doi, ToPaperDoc(ps[n]))])
  }

  /** The writes into the metas store, in order, for papers `ps`. */
  function MetaWrites(ps: seq<Paper>, faults: seq<Fault>): seq<(string, MetaDoc)>
    decreases |ps|
  {
    if ps == [] then []
    else
      var n := |ps| - 1;
      MetaWrites(ps[..n], faults)
        + (if FaultAt(faults, n) == NoFault then [(ps[n].doi, ToMetaDoc(ps[n]))] else [])
  }

  /** The dois logged as failed, in order. */
  function Failed(ps: seq<Paper>, faults: seq<Fault>): seq<string>
    decreases |ps|
  {
    if ps == [] then []
    else
      var n := |ps| - 1;
      Failed(ps[..n], faults) + (if FaultAt(faults, n) == NoFault then [] else [ps[n].doi])
  }

  /** The store after `store[k] = v` for each write `(k, v)`, in order. */
  function Upserts<V>(m: map<string, V>, writes: seq<(string, V)>): map<string, V>
    decreases |writes|
  {
    if writes == [] then m
    else
      var n := |writes| - 1;
      Upserts(m, writes[..n])[writes[n].0 := writes[n].1]
  }

  lemma UpsertsSnoc<V>(m: map<string, V>, writes: seq<(string, V)>, k: string, v: V)
    ensures Upserts(m, writes + [(k, v)]) == Upserts(m, writes)[k := v]
  {
    assert (writes + [(k, v)])[..|writes|] == writes;
  }

  /** Last write wins: a key holds the value of its last write. */
  lemma {:induction false} UpsertsLastWins<V>(m: map<string, V>, writes: seq<(string, V)>, i: nat)
    requires i < |writes|
    requires forall j :: i < j < |writes| ==> writes[j].0 != writes[i].0
    ensures writes[i].0 in Upserts(m, writes)
    ensures Upserts(m, writes)[writes[i].0] == writes[i].1
    decreases |writes|
  {
    var n := |writes| - 1;
    if i < n {
      UpsertsLastWins(m, writes[..n], i);
    }
  }

  /** A key that is never written keeps its presence and its value. */
  lemma {:induction false} UpsertsUntouched<V>(m: map<string, V>, writes: seq<(string, V)>, k: string)
    requires forall j :: 0 <= j < |writes| ==> writes[j].0 != k
    ensures k in Upserts(m, writes) <==> k in m
    ensures k in m ==> Upserts(m, writes)[k] == m[k]
    decreases |writes|
  {
    if writes != [] {
      UpsertsUntouched(m, writes[..|writes| - 1], k);
    }
  }

  /** The writes act as one map laid over the old store. */
  lemma {:induction false} UpsertsOverlay<V>(m: map<string, V>, writes: seq<(string, V)>)
    ensures Upserts(m, writes) == m + Upserts(map[], writes)
    decreases |writes|
  {
    if writes != [] {
      var n := |writes| - 1;
      UpsertsOverlay(m, writes[..n]);
      var w := Upserts(map[], writes[..n]);
      assert (m + w)[writes[n].0 := writes[n].1] == m + w[writes[n].0 := writes[n].1];
    }
  }

  /** Repeating the same writes changes nothing more. */
  lemma UpsertsIdempotent<V>(m: map<string, V>, writes: seq<(string, V)>)
    ensures Upserts(Upserts(m, writes), writes) == Upserts(m, writes)
  {
    UpsertsOverlay(m, writes);
    UpsertsOverlay(Upserts(m, writes), writes);
    var w := Upserts(map[], writes);
    assert (m + w) + w == m + w;
  }

  /** Without faults every paper is written to both stores, in list order. */
  lemma {:induction false} WritesWithoutFaults(ps: seq<Paper>)
    ensures |PaperWrites(ps, [])| == |ps| && |MetaWrites(ps, [])| == |ps|
    ensures forall i :: 0 <= i < |ps| ==> PaperWrites(ps, [])[i] == (ps[i].doi, ToPaperDoc(ps[i]))
    ensures forall i :: 0 <= i < |ps| ==> MetaWrites(ps, [])[i] == (ps[i].doi, ToMetaDoc(ps[i]))
    ensures Failed(ps, []) == []
    decreases |ps|
  {
    if ps != [] {
      var n := |ps| - 1;
      WritesWithoutFaults(ps[..n]);
    }
  }

  /** Duplicate dois: without faults each doi ends up holding the documents
      of the last paper that carries it, in both stores. */
  lemma IngestLastWriteWins(pm: map<string, PaperDoc>, mm: map<string, MetaDoc>, ps: seq<Paper>, i: nat)
    requires i < |ps|
    requires forall j :: i < j < |ps| ==> ps[j].doi != ps[i].doi
    ensures ps[i].doi in Upserts(pm, PaperWrites(ps, []))
    ensures Upserts(pm, PaperWrites(ps, []))[ps[i].doi] == ToPaperDoc(ps[i])
    ensures ps[i].doi in Upserts(mm, MetaWrites(ps, []))
    ensures Upserts(mm, MetaWrites(ps, []))[ps[i].doi] == ToMetaDoc(ps[i])
  {
    WritesWithoutFaults(ps);
    UpsertsLastWins(pm, PaperWrites(ps, []), i);
    UpsertsLastWins(mm, MetaWrites(ps, []), i);
  }

  /** What one more paper adds to the writes and to the log. */
  lemma WritesStep(papers: seq<Paper>, faults: seq<Fault>, i: nat)
    requires i < |papers|
    ensures var pre, f, p := papers[..i], FaultAt(faults, i), papers[i];
      && PaperWrites(papers[..i + 1], faults)
         == (if f == PaperSaveFails then PaperWrites(pre, faults) else PaperWrites(pre, faults) + [(p.doi, ToPaperDoc(p))])
      && MetaWrites(papers[..i + 1], faults)
         == (if f == NoFault then MetaWrites(pre, faults) + [(p.doi, ToMetaDoc(p))] else MetaWrites(pre, faults))
      && Failed(papers[..i + 1], faults)
         == (if f == NoFault then Failed(pre, faults) else Failed(pre, faults) + [p.doi])
  {
    var pre := papers[..i];
    assert papers[..i + 1][..i] == pre;
    assert papers[..i + 1][i] == papers[i];
    assert PaperWrites(pre, faults) + [] == PaperWrites(pre, faults);
    assert MetaWrites(pre, faults) + [] == MetaWrites(pre, faults);
    assert Failed(pre, faults) + [] == Failed(pre, faults);
  }

  /** The loop of `main`: every paper is attempted, a raising save is logged
      with the paper's doi, and the run goes on. */
  method SaveAll(papers: seq<Paper>, faults: seq<Fault>, pdb: KvStore<PaperDoc>, mdb: KvStore<MetaDoc>)
    returns (failed: seq<string>)
    modifies pdb, mdb
    ensures pdb.data == Upserts(old(pdb.data), PaperWrites(papers, faults))
    ensures mdb.data == Upserts(old(mdb.data), MetaWrites(papers, faults))
    ensures failed == Failed(papers, faults)
  {
    failed := [];
    var i := 0;
    while i < |papers|
      invariant 0 <= i <= |papers|
      invariant pdb.data == Upserts(old(pdb.data), PaperWrites(papers[..i], faults))
      invariant mdb.data == Upserts(old(mdb.data), MetaWrites(papers[..i], faults))
      invariant failed == Failed(papers[..i], faults)
    {
      var paper := papers[i];
      var fault := FaultAt(faults, i);
      ghost var pre := papers[..i];
      WritesStep(papers, faults, i);
      if fault == PaperSaveFails {
        failed := failed + [paper.doi];
      } else {
        UpsertsSnoc(old(pdb.data), PaperWrites(pre, faults), paper.doi, ToPaperDoc(paper));
        SavePaper(paper, pdb);
        if fault == MetaSaveFails {
          failed := failed + [paper.doi];
        } else {
          UpsertsSnoc(old(mdb.data), MetaWrites(pre, faults), paper.doi, ToMetaDoc(paper));
          SaveMeta(paper, mdb);
        }
      }
      i := i + 1;
    }
    assert papers[..i] == papers;
  }

  /** `main` once the rows are fetched: build the sorted paper list, then
      save every paper. */
  method IngestMain(rows: seq<Row>, faults: seq<Fault>, pdb: KvStore<PaperDoc>, mdb: KvStore<MetaDoc>)
    returns (failed: seq<string>)
    modifies pdb, mdb
    ensures pdb.data == Upserts(old(pdb.data), PaperWrites(SortDesc(Accepted(rows), PaperTime), faults))
    ensures mdb.data == Upserts(old(mdb.data), MetaWrites(SortDesc(Accepted(rows), PaperTime), faults))
    ensures failed == Failed(SortDesc(Accepted(rows), PaperTime), faults)
  {
    var papers := GrabPaperEntries(rows);
    failed := SaveAll(papers, faults, pdb, mdb);
  }

  /** Running the ingestion twice with the same rows and the same outcomes
      leaves both stores as one run does. */
  lemma IngestIdempotent(rows: seq<Row>, faults: seq<Fault>, pm: map<string, PaperDoc>, mm: map<string, MetaDoc>)
    ensures var ps := SortDesc(Accepted(rows), PaperTime);
            Upserts(Upserts(pm, PaperWrites(ps, faults)), PaperWrites(ps, faults)) == Upserts(pm, PaperWrites(ps, faults))
    ensures var ps := SortDesc(Accepted(rows), PaperTime);
            Upserts(Upserts(mm, MetaWrites(ps, faults)), MetaWrites(ps, faults)) == Upserts(mm, MetaWrites(ps, faults))
  {
    var ps := SortDesc(Accepted(rows), PaperTime);
    UpsertsIdempotent(pm, PaperWrites(ps, faults));
    UpsertsIdempotent(mm, MetaWrites(ps, faults));
  }
}
