/** The parts of Python's `str` behaviour that the ingestion and serving code
    rely on, restricted to ASCII: character classes, `lower`, `strip`, `split`,
    `join`, non-overlapping `count`, code-point ordering and `int(...)` parsing. */
module PyText {

  datatype Option<T> = None | Some(value: T)

  /** Python's whitespace below U+0080: what `str.isspace`, `str.split()` and
      the regex class `\s` accept (TAB..CR, FS..US and SPACE). */
  predicate IsSpace(c: char) {
    var n := c as int;
    n == 32 || 9 <= n <= 13 || 28 <= n <= 31
  }

  predicate IsDigit(c: char) { '0' <= c <= '9' }

  predicate IsUpper(c: char) { 'A' <= c <= 'Z' }

  predicate IsLower(c: char) { 'a' <= c <= 'z' }

  predicate IsLetter(c: char) { IsUpper(c) || IsLower(c) }

  /** The regex class `\w` over ASCII: letters, digits and underscore. */
  predicate IsWord(c: char) { IsLetter(c) || IsDigit(c) || c == '_' }

  /** `str.lower()` on one ASCII character: 'A'..'Z' go to 'a'..'z' in
      alphabet order, everything else is kept. */
  function LowerChar(c: char): (r: char)
    ensures IsUpper(c) ==> IsLower(r) && r as int - 'a' as int == c as int - 'A' as int
    ensures !IsUpper(r)
    ensures IsLetter(c) <==> IsLetter(r)
    ensures !IsUpper(c) ==> r == c
  {
    if IsUpper(c) then (c as int + 32) as char else c
  }

  /** `str.lower()` */
  function Lower(s: string): (r: string)
    ensures |r| == |s|
    ensures forall i :: 0 <= i < |s| ==> r[i] == LowerChar(s[i])
  {
    seq(|s|, i requires 0 <= i < |s| => LowerChar(s[i]))
  }

  /** No character of `s` is whitespace. */
  predicate NoSpace(s: string) {
    forall i :: 0 <= i < |s| ==> !IsSpace(s[i])
  }

  /** Length of the leading run of whitespace. */
  function SpaceRun(s: string): (n: nat)
    ensures n <= |s|
    ensures forall i :: 0 <= i < n ==> IsSpace(s[i])
    ensures n < |s| ==> !IsSpace(s[n])
  {
    if s == [] || !IsSpace(s[0]) then 0 else 1 + SpaceRun(s[1..])
  }

  /** Length of the leading run of non-whitespace. */
  function WordLen(s: string): (n: nat)
    ensures n <= |s|
    ensures NoSpace(s[..n])
    ensures n < |s| ==> IsSpace(s[n])
  {
    if s == [] || IsSpace(s[0]) then 0 else 1 + WordLen(s[1..])
  }

  /** Length of `s` once its trailing whitespace is dropped. */
  function TrimmedLen(s: string): (n: nat)
    ensures n <= |s|
    ensures forall i :: n <= i < |s| ==> IsSpace(s[i])
    ensures n > 0 ==> !IsSpace(s[n - 1])
  {
    if s == [] || !IsSpace(s[|s| - 1]) then |s| else TrimmedLen(s[..|s| - 1])
  }

  /** `str.strip()` with no argument: a contiguous slice of `s` that neither
      starts nor ends with whitespace, obtained by dropping whitespace only. */
  function Strip(s: string): (r: string)
    ensures r == [] || (!IsSpace(r[0]) && !IsSpace(r[|r| - 1]))
    ensures exists i, j :: 0 <= i <= j <= |s| && r == s[i..j]
  {
    var t := s[SpaceRun(s)..];
    assert t == s[SpaceRun(s)..|s|];
    var r := t[..TrimmedLen(t)];
    assert r == s[SpaceRun(s)..SpaceRun(s) + TrimmedLen(t)];
    r
  }

  /** `str.split()` with no argument: the maximal runs of non-whitespace,
      left to right. */
  function Split(s: string): (r: seq<string>)
    ensures forall k :: 0 <= k < |r| ==> r[k] != [] && NoSpace(r[k])
    ensures r == [] <==> forall i :: 0 <= i < |s| ==> IsSpace(s[i])
    ensures forall k, i :: 0 <= k < |r| && 0 <= i < |r[k]| ==> r[k][i] in s
    decreases |s|
  {
    if s == [] then []
    else if IsSpace(s[0]) then Split(s[1..])
    else
      var w := WordLen(s);
      var rest := Split(s[w..]);
      assert forall c :: c in s[w..] ==> c in s;
      [s[..w]] + rest
  }

  /** `sep.join(xs)` */
  function Join(sep: string, xs: seq<string>): (r: string)
    ensures xs == [] ==> r == []
    ensures |xs| == 1 ==> r == xs[0]
  {
    if xs == [] then [] else if |xs| == 1 then xs[0] else xs[0] + sep + Join(sep, xs[1..])
  }

  /** `split()` peels off leading whitespace, then one maximal run of
      non-whitespace: with `Split` of an all-whitespace string being empty,
      this pins `Split` down on every input. */
  lemma {:induction false} SplitCons(w: string, word: string, rest: string)
    requires forall i :: 0 <= i < |w| ==> IsSpace(w[i])
    requires word != [] && NoSpace(word)
    requires rest == [] || IsSpace(rest[0])
    ensures Split(w + word + rest) == [word] + Split(rest)
    decreases |w|
  {
    var s := w + word + rest;
    if w == [] {
      assert s == word + rest;
      WordLenWord(word, rest);
      assert s[..|word|] == word && s[|word|..] == rest;
    } else {
      assert s[1..] == w[1..] + word + rest;
      SplitCons(w[1..], word, rest);
    }
  }

  /** A whitespace-free word followed by whitespace or the end is one whole
      leading run. */
  lemma {:induction false} WordLenWord(word: string, rest: string)
    requires word != [] && NoSpace(word)
    requires rest == [] || IsSpace(rest[0])
    ensures WordLen(word + rest) == |word|
    decreases |word|
  {
    var s := word + rest;
    if |word| == 1 {
      assert s[1..] == rest;
    } else {
      assert s[1..] == word[1..] + rest;
      WordLenWord(word[1..], rest);
    }
  }

  /** `" ".join(ts).split() == ts` for non-empty whitespace-free tokens. */
  lemma {:induction false} SplitJoin(ts: seq<string>)
    requires forall k :: 0 <= k < |ts| ==> ts[k] != [] && NoSpace(ts[k])
    ensures Split(Join(" ", ts)) == ts
    decreases |ts|
  {
    if |ts| == 1 {
      SplitCons([], ts[0], []);
      assert [] + ts[0] + [] == ts[0];
    } else if |ts| > 1 {
      var j := Join(" ", ts[1..]);
      assert Join(" ", ts) == ts[0] + " " + j;
      SplitSpaceJoin(ts[0], j);
      SplitJoin(ts[1..]);
      assert ts == [ts[0]] + ts[1..];
    }
  }

  /** Splitting a token, a space and more text gives the token, then the
      split of the text. */
  lemma SplitSpaceJoin(x: string, j: string)
    requires x != [] && NoSpace(x)
    ensures Split(x + " " + j) == [x] + Split(j)
  {
    var r := " " + j;
    SplitCons([], x, r);
    assert [] + x + r == x + " " + j;
    assert r[1..] == j;
  }

  /** `p` occurs as a contiguous substring of `s`. */
  predicate Occurs(p: string, s: string) {
    exists i :: 0 <= i <= |s| - |p| && OccursAt(p, s, i)
  }

  /** `p` occurs in `s` starting at offset `i`. */
  predicate OccursAt(p: string, s: string, i: int) {
    0 <= i <= |s| - |p| && s[i..i + |p|] == p
  }

  /** `lower` works character by character. */
  lemma LowerConcat(a: string, b: string)
    ensures Lower(a + b) == Lower(a) + Lower(b)
  {
  }

  /** A whitespace-free pattern never straddles a whitespace separator: it
      occurs in `a + sep + b` exactly when it occurs in `a` or in `b`. */
  lemma OccursAcrossSpace(p: string, a: string, sep: char, b: string)
    requires p != [] && NoSpace(p) && IsSpace(sep)
    ensures Occurs(p, a + [sep] + b) <==> Occurs(p, a) || Occurs(p, b)
  {
    if Occurs(p, a + [sep] + b) {
      OccursSplits(p, a, sep, b);
    }
    if Occurs(p, a) {
      OccursInPrefix(p, a, [sep] + b);
      assert a + ([sep] + b) == a + [sep] + b;
    }
    if Occurs(p, b) {
      OccursInSuffix(p, a + [sep], b);
    }
  }

  /** An occurrence in `a + [sep] + b` lies on one side of the separator. */
  lemma OccursSplits(p: string, a: string, sep: char, b: string)
    requires NoSpace(p) && IsSpace(sep) && Occurs(p, a + [sep] + b)
    ensures Occurs(p, a) || Occurs(p, b)
  {
    var s := a + [sep] + b;
    var i :| 0 <= i <= |s| - |p| && OccursAt(p, s, i);
    NoStraddle(p, s, i, |a|);
    if i + |p| <= |a| {
      assert s[i..i + |p|] == a[i..i + |p|];
      assert OccursAt(p, a, i);
    } else {
      assert s[i..i + |p|] == b[i - |a| - 1..i - |a| - 1 + |p|];
      assert OccursAt(p, b, i - |a| - 1);
    }
  }

  lemma OccursInPrefix(p: string, a: string, t: string)
    requires Occurs(p, a)
    ensures Occurs(p, a + t)
  {
    var i :| 0 <= i <= |a| - |p| && OccursAt(p, a, i);
    assert (a + t)[i..i + |p|] == a[i..i + |p|];
    assert OccursAt(p, a + t, i);
  }

  lemma OccursInSuffix(p: string, h: string, b: string)
    requires Occurs(p, b)
    ensures Occurs(p, h + b)
  {
    var i :| 0 <= i <= |b| - |p| && OccursAt(p, b, i);
    var j := |h| + i;
    assert (h + b)[j..j + |p|] == b[i..i + |p|];
    assert OccursAt(p, h + b, j);
  }

  /** An occurrence of a whitespace-free pattern covers no whitespace. */
  lemma NoStraddle(p: string, s: string, i: nat, m: nat)
    requires NoSpace(p) && OccursAt(p, s, i) && m < |s| && IsSpace(s[m])
    ensures m < i || i + |p| <= m
  {
    if i <= m < i + |p| {
      OccursCovers(p, s, i, m);
    }
  }

  /** An occurrence of `p` at `i` fixes the characters it covers. */
  lemma OccursCovers(p: string, s: string, i: nat, m: nat)
    requires OccursAt(p, s, i) && i <= m < i + |p|
    ensures s[m] == p[m - i]
  {
    assert s[i..i + |p|][m - i] == s[m];
  }

  /** A whitespace-free token occurs in `" ".join(xs).lower()` exactly when it
      occurs in some `xs[k].lower()`: joining with spaces creates no new
      matches and loses none. */
  lemma {:induction false} JoinOccurs(p: string, xs: seq<string>)
    requires p != [] && NoSpace(p)
    ensures Occurs(p, Lower(Join(" ", xs))) <==> exists k :: 0 <= k < |xs| && Occurs(p, Lower(xs[k]))
    decreases |xs|
  {
    if xs == [] {
      assert !Occurs(p, Lower([]));
    } else if |xs| > 1 {
      var j := Join(" ", xs[1..]);
      LowerConcat(xs[0] + " ", j);
      LowerConcat(xs[0], " ");
      assert Lower(" ") == [' '];
      OccursAcrossSpace(p, Lower(xs[0]), ' ', Lower(j));
      JoinOccurs(p, xs[1..]);
      if exists k :: 0 <= k < |xs| && Occurs(p, Lower(xs[k])) {
        var k :| 0 <= k < |xs| && Occurs(p, Lower(xs[k]));
        if k > 0 { assert xs[1..][k - 1] == xs[k]; }
      }
      if exists k :: 0 <= k < |xs[1..]| && Occurs(p, Lower(xs[1..][k])) {
        var k :| 0 <= k < |xs[1..]| && Occurs(p, Lower(xs[1..][k]));
        assert xs[k + 1] == xs[1..][k];
      }
    }
  }

  /** `s.count(p)`: the number of non-overlapping occurrences of `p`, scanning
      left to right; the empty pattern is counted `|s| + 1` times. */
  function Count(s: string, p: string): nat
    decreases |s|
  {
    if p == [] then |s| + 1
    else if |s| < |p| then 0
    else if s[..|p|] == p then 1 + Count(s[|p|..], p)
    else Count(s[1..], p)
  }

  /** `s.count(p) > 0` is exactly "p occurs in s". */
  lemma {:induction false} CountPositiveIff(s: string, p: string)
    ensures Count(s, p) > 0 <==> Occurs(p, s)
    decreases |s|
  {
    if p == [] {
      assert OccursAt(p, s, 0);
    } else if |s| < |p| {
    } else if s[..|p|] == p {
      assert OccursAt(p, s, 0);
    } else {
      CountPositiveIff(s[1..], p);
      if Occurs(p, s) {
        var i :| 0 <= i <= |s| - |p| && OccursAt(p, s, i);
        assert i != 0;
        assert s[1..][i - 1..i - 1 + |p|] == s[i..i + |p|];
        assert OccursAt(p, s[1..], i - 1);
      }
      if Occurs(p, s[1..]) {
        var i :| 0 <= i <= |s[1..]| - |p| && OccursAt(p, s[1..], i);
        assert s[i + 1..i + 1 + |p|] == s[1..][i..i + |p|];
        assert OccursAt(p, s, i + 1);
      }
    }
  }

  lemma MulSucc(c: nat, l: nat)
    ensures (1 + c) * l == l + c * l
  {
  }

  /** Every occurrence counted by `Count` takes `|p|` characters of `s`. */
  lemma {:induction false} CountBound(s: string, p: string)
    requires p != []
    ensures Count(s, p) * |p| <= |s|
    decreases |s|
  {
    var k := Count(s, p);
    if |s| < |p| {
      assert k == 0;
    } else if s[..|p|] == p {
      var rest := s[|p|..];
      CountBound(rest, p);
      var c := Count(rest, p);
      assert k == 1 + c;
      MulSucc(c, |p|);
      assert |rest| == |s| - |p|;
    } else {
      var rest := s[1..];
      CountBound(rest, p);
      var c := Count(rest, p);
      assert k == c;
      assert k * |p| == c * |p|;
    }
  }

  /** A non-empty pattern occurs once in itself. */
  lemma CountSelf(p: string)
    requires p != []
    ensures Count(p, p) == 1
  {
    assert p[..|p|] == p;
    assert p[|p|..] == [];
  }

  /** Occurrences of a whitespace-free pattern never cross a whitespace
      character, so the count over `a + [c] + b` is the count over `a` plus
      the count over `b`. */
  lemma {:induction false} CountAcrossSpace(a: string, c: char, b: string, p: string)
    requires p != [] && NoSpace(p) && IsSpace(c)
    ensures Count(a + [c] + b, p) == Count(a, p) + Count(b, p)
    decreases |a|
  {
    var s := a + [c] + b;
    if |s| < |p| {
    } else if s[..|p|] == p {
      assert s[|a|] == c;
      NoStraddle(p, s, 0, |a|);
      assert a[..|p|] == s[..|p|];
      assert s[|p|..] == a[|p|..] + [c] + b;
      CountAcrossSpace(a[|p|..], c, b, p);
    } else if a == [] {
      assert s[1..] == b;
    } else {
      assert s[1..] == a[1..] + [c] + b;
      CountAcrossSpace(a[1..], c, b, p);
      if |a| >= |p| {
        assert a[..|p|] == s[..|p|];
      }
    }
  }

  /** Python's ordering of `str` values: code points compared lexicographically,
      a proper prefix is smaller. */
  predicate StrLess(a: string, b: string)
    decreases |a|
  {
    if a == [] then b != []
    else if b == [] then false
    else if a[0] != b[0] then a[0] < b[0]
    else StrLess(a[1..], b[1..])
  }

  lemma {:induction false} StrLessIrreflexive(a: string)
    ensures !StrLess(a, a)
    decreases |a|
  {
    if a != [] { StrLessIrreflexive(a[1..]); }
  }

  lemma {:induction false} StrLessTransitive(a: string, b: string, c: string)
    requires StrLess(a, b) && StrLess(b, c)
    ensures StrLess(a, c)
    decreases |a|
  {
    if a != [] && b != [] && c != [] && a[0] == b[0] && b[0] == c[0] {
      StrLessTransitive(a[1..], b[1..], c[1..]);
    }
  }

  lemma {:induction false} StrLessTotal(a: string, b: string)
    ensures a == b || StrLess(a, b) || StrLess(b, a)
    ensures !(StrLess(a, b) && StrLess(b, a))
    decreases |a|
  {
    if a != [] && b != [] && a[0] == b[0] {
      StrLessTotal(a[1..], b[1..]);
      if a[1..] == b[1..] {
        assert a == [a[0]] + a[1..] && b == [b[0]] + b[1..];
      }
    }
  }

  /** A nonempty run of digits in which single underscores may separate
      digits, as Python's `int()` accepts it. */
  predicate IsDigitGroups(t: string) {
    && |t| > 0
    && IsDigit(t[0])
    && IsDigit(t[|t| - 1])
    && (forall i :: 0 <= i < |t| ==> IsDigit(t[i]) || t[i] == '_')
    && (forall i :: 0 < i < |t| ==> t[i] == '_' ==> t[i - 1] != '_')
  }

  /** The value of a digit string, underscores ignored. */
  function DigitsValue(t: string): (v: nat)
    decreases |t|
  {
    if t == [] then 0
    else if t[|t| - 1] == '_' then DigitsValue(t[..|t| - 1])
    else DigitsValue(t[..|t| - 1]) * 10 + ((t[|t| - 1] as int - '0' as int) % 10)
  }

  /** The information separators U+001C..U+001F: whitespace to `str`, but
      not to `int()`, which trims only TAB..CR and SPACE from an ASCII
      argument. */
  predicate IsSeparator(c: char) { 28 <= c as int <= 31 }

  predicate HasSeparator(s: string) {
    exists i :: 0 <= i < |s| && IsSeparator(s[i])
  }

  /** `int(s)` for an ASCII `str` argument in base 10: surrounding TAB..CR
      and SPACE are allowed, then an optional sign and digit groups; anything
      else is the `ValueError` case, here `None`. An information separator
      is not trimmed, so wherever it stands it is left inside the literal
      and makes it invalid; without one, `int()`'s whitespace and `Strip`'s
      agree on `s`. */
  function ParseInt(s: string): Option<int> {
    if HasSeparator(s) then None
    else
    var t := Strip(s);
    if |t| > 0 && (t[0] == '+' || t[0] == '-') then
      var body := t[1..];
      if IsDigitGroups(body) then
        var v: int := DigitsValue(body);
        Some(if t[0] == '-' then -v else v)
      else None
    else if IsDigitGroups(t) then Some(DigitsValue(t))
    else None
  }

  function DigitChar(d: nat): (c: char)
    requires d < 10
    ensures IsDigit(c)
  {
    ('0' as int + d) as char
  }

  /** `str(n)` for a natural number. */
  function Show(n: nat): (r: string)
    ensures |r| > 0
    ensures forall i :: 0 <= i < |r| ==> IsDigit(r[i])
  {
    if n < 10 then [DigitChar(n)] else Show(n / 10) + [DigitChar(n % 10)]
  }

  lemma {:induction false} DigitsValueShow(n: nat)
    ensures DigitsValue(Show(n)) == n
  {
    var s := Show(n);
    if n < 10 {
      assert s[..|s| - 1] == [];
    } else {
      assert s[..|s| - 1] == Show(n / 10);
      DigitsValueShow(n / 10);
    }
  }

  lemma StripNoSpace(s: string)
    requires |s| > 0 && forall i :: 0 <= i < |s| ==> !IsSpace(s[i])
    ensures Strip(s) == s
  {
    assert SpaceRun(s) == 0;
    assert s[0..] == s;
  }

  /** Stripping only drops characters. */
  lemma StripChars(s: string)
    ensures forall c :: c in Strip(s) ==> c in s
  {
    var a := SpaceRun(s);
    var t := s[a..];
    var r := t[..TrimmedLen(t)];
    assert Strip(s) == r;
    forall c | c in r ensures c in s {
      var m :| 0 <= m < |r| && r[m] == c;
      assert s[a + m] == c;
    }
  }

  /** A string of whitespace strips to the empty string. */
  lemma StripAllSpace(s: string)
    requires forall i :: 0 <= i < |s| ==> IsSpace(s[i])
    ensures Strip(s) == []
  {
    assert SpaceRun(s) == |s|;
  }

  /** `str(n)` is a single group of digits with no whitespace. */
  lemma ShowDigitGroups(n: nat)
    ensures IsDigitGroups(Show(n)) && NoSpace(Show(n))
  {
  }

  /** `int(str(n)) == n` */
  lemma ParseIntShow(n: nat)
    ensures ParseInt(Show(n)) == Some(n)
  {
    var s := Show(n);
    ShowDigitGroups(n);
    StripNoSpace(s);
    DigitsValueShow(n);
    assert !(s[0] == '+' || s[0] == '-');
  }

  /** A minus sign followed by digit groups, with no whitespace, parses to
      the negated value. */
  lemma ParseIntNegativeLiteral(s: string)
    requires IsDigitGroups(s) && NoSpace(s)
    ensures ParseInt("-" + s) == Some(-(DigitsValue(s) as int))
  {
    var m := "-" + s;
    NoSpaceSigned(s);
    StripNoSpace(m);
    assert m[1..] == s;
  }

  /** A minus sign adds no whitespace. */
  lemma NoSpaceSigned(s: string)
    requires NoSpace(s)
    ensures NoSpace("-" + s)
  {
    var m := "-" + s;
    forall i | 0 < i < |m| ensures !IsSpace(m[i]) { assert m[i] == s[i - 1]; }
  }

  /** `int("-" + str(n)) == -n` */
  lemma ParseIntShowNegative(n: nat)
    ensures ParseInt("-" + Show(n)) == Some(-(n as int))
  {
    var s := Show(n);
    ShowDigitGroups(n);
    ParseIntNegativeLiteral(s);
    DigitsValueShow(n);
    assert ParseInt("-" + s) == Some(-(DigitsValue(s) as int));
    assert DigitsValue(s) == n;
  }

  /** A string holding a letter is never an integer literal. */
  lemma ParseIntRejectsLetter(s: string, k: nat)
    requires k < |s| && IsLetter(s[k])
    ensures ParseInt(s) == None
  {
    StripKeepsNonSpace(s, k);
    var t := Strip(s);
    var j := k - SpaceRun(s);
    assert IsLetter(t[j]);
    LetterNotDigitGroups(t, j);
    if j > 0 {
      assert t[1..][j - 1] == t[j];
      LetterNotDigitGroups(t[1..], j - 1);
    }
  }

  /** An information separator anywhere makes `int()` raise, even next to
      digits: `int("\x1c5")` is a `ValueError`. */
  lemma ParseIntSeparatorRejects(s: string, k: nat)
    requires k < |s| && IsSeparator(s[k])
    ensures ParseInt(s) == None
  {
  }

  lemma ParseIntSeparatorExample()
    ensures ParseInt([28 as char, '5']) == None
    ensures ParseInt(" 5\t") == Some(5)
  {
    ParseIntSeparatorRejects([28 as char, '5'], 0);
    var s := " 5\t";
    assert SpaceRun(s) == 1;
    var t := s[1..];
    assert t == "5\t";
    assert TrimmedLen(t) == 1;
    assert Strip(s) == "5";
    DigitsValueShow(5);
  }

  /** Digit groups hold no letter. */
  lemma LetterNotDigitGroups(t: string, j: nat)
    requires j < |t| && IsLetter(t[j])
    ensures !IsDigitGroups(t)
  {
  }

  /** A non-whitespace character of `s` survives `Strip`, shifted left by the
      leading whitespace. */
  lemma StripKeepsNonSpace(s: string, k: nat)
    requires k < |s| && !IsSpace(s[k])
    ensures SpaceRun(s) <= k
    ensures k - SpaceRun(s) < |Strip(s)| && Strip(s)[k - SpaceRun(s)] == s[k]
  {
    var a := SpaceRun(s);
    SpaceRunStops(s, k);
    var t := s[a..];
    assert t[k - a] == s[k];
    TrimmedLenCovers(t, k - a);
    var n := TrimmedLen(t);
    StripSlice(s);
    assert t[..n][k - a] == t[k - a];
  }

  /** The leading whitespace run ends at or before any non-whitespace. */
  lemma {:induction false} SpaceRunStops(s: string, k: nat)
    requires k < |s| && !IsSpace(s[k])
    ensures SpaceRun(s) <= k
    decreases k
  {
    if IsSpace(s[0]) {
      assert s[1..][k - 1] == s[k];
      SpaceRunStops(s[1..], k - 1);
    }
  }

  /** The trailing whitespace run starts after any non-whitespace. */
  lemma {:induction false} TrimmedLenCovers(s: string, k: nat)
    requires k < |s| && !IsSpace(s[k])
    ensures k < TrimmedLen(s)
    decreases |s|
  {
    if IsSpace(s[|s| - 1]) {
      var p := s[..|s| - 1];
      assert p[k] == s[k];
      TrimmedLenCovers(p, k);
    }
  }

  /** `Strip` drops the leading run and then the trailing run of whitespace. */
  lemma StripSlice(s: string)
    ensures Strip(s) == s[SpaceRun(s)..][..TrimmedLen(s[SpaceRun(s)..])]
  {
  }
}
