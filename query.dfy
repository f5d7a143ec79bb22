/** The free-text side of search in serve.py: the query sanitizer, the
    tokenizer and the per-paper score built from `match` and `matchu`. */
module Query {
  import opened PyText
  import opened Stores

  /** The characters `[^a-zA-Z0-9 -:'"]+` does not delete. Inside the class
      ` -:` is a range, U+0020 to U+003A, which already holds the digits, the
      apostrophe and the double quote, and also `!#$%&()*+,./`. */
  predicate Allowed(c: char) {
    IsLetter(c) || (' ' <= c <= ':')
  }

  /** `sanitize_query`: deleting every maximal run of characters outside the
      class is the same as deleting every such character. */
  function Sanitize(q: string): (r: string)
    ensures |r| <= |q|
    ensures forall i :: 0 <= i < |r| ==> Allowed(r[i])
    ensures forall c :: Allowed(c) ==> multiset(r)[c] == multiset(q)[c]
    ensures forall c :: !Allowed(c) ==> multiset(r)[c] == 0
  {
    if q == [] then []
    else
      assert q == [q[0]] + q[1..];
      (if Allowed(q[0]) then [q[0]] else []) + Sanitize(q[1..])
  }

  /** `a` can be obtained from `b` by deleting characters. */
  predicate IsSubsequence(a: string, b: string)
    decreases |b|
  {
    if a == [] then true
    else if b == [] then false
    else (a[0] == b[0] && IsSubsequence(a[1..], b[1..])) || IsSubsequence(a, b[1..])
  }

  /** The sanitized query keeps the surviving characters in their order. */
  lemma {:induction false} SanitizeIsSubsequence(q: string)
    ensures IsSubsequence(Sanitize(q), q)
    decreases |q|
  {
    if q != [] {
      SanitizeIsSubsequence(q[1..]);
      var r := Sanitize(q[1..]);
      if Allowed(q[0]) {
        assert ([q[0]] + r)[1..] == r;
      } else {
        assert [] + r == r;
      }
    }
  }

  /** Sanitizing works character by character. */
  lemma {:induction false} SanitizeConcat(a: string, b: string)
    ensures Sanitize(a + b) == Sanitize(a) + Sanitize(b)
    decreases |a|
  {
    if a == [] {
      assert a + b == b;
    } else {
      assert (a + b)[1..] == a[1..] + b;
      SanitizeConcat(a[1..], b);
    }
  }

  /** A query made only of allowed characters is left as it is. */
  lemma {:induction false} SanitizeAllowed(q: string)
    requires forall i :: 0 <= i < |q| ==> Allowed(q[i])
    ensures Sanitize(q) == q
    decreases |q|
  {
    if q != [] {
      SanitizeAllowed(q[1..]);
    }
  }

  lemma SanitizeIdempotent(q: string)
    ensures Sanitize(Sanitize(q)) == Sanitize(q)
  {
    SanitizeAllowed(Sanitize(q));
  }

  /** Punctuation in the range U+0020..U+003A survives, unlike what the
      comment above the regex in serve.py lists. */
  lemma SanitizeKeepsPunctuation()
    ensures Sanitize("c++ (v2.0)!") == "c++ (v2.0)!"
  {
    var q := "c++ (v2.0)!";
    assert forall i :: 0 <= i < |q| ==> Allowed(q[i]);
    SanitizeAllowed(q);
  }

  /** `sanitize_query(q).lower().strip().split()` */
  function Tokens(q: string): seq<string> {
    Split(Strip(Lower(Sanitize(q))))
  }

  /** Every query token is a non-empty run of lower-case allowed characters
      without whitespace; the empty query has no tokens. */
  lemma TokensShape(q: string)
    ensures q == [] ==> Tokens(q) == []
    ensures forall k :: 0 <= k < |Tokens(q)| ==> Tokens(q)[k] != [] && NoSpace(Tokens(q)[k])
    ensures forall k, i :: 0 <= k < |Tokens(q)| && 0 <= i < |Tokens(q)[k]| ==>
      Allowed(Tokens(q)[k][i]) && !IsUpper(Tokens(q)[k][i])
  {
    var l := Lower(Sanitize(q));
    forall c | c in l ensures Allowed(c) && !IsUpper(c) {
      var i :| 0 <= i < |l| && l[i] == c;
      assert Allowed(Sanitize(q)[i]);
    }
    StripChars(l);
  }

  /** A query whose every kept character is whitespace has no tokens. */
  lemma TokensWithoutWords(q: string)
    requires forall i :: 0 <= i < |q| ==> Allowed(q[i]) ==> IsSpace(q[i])
    ensures Tokens(q) == []
  {
    var s := Sanitize(q);
    forall i | 0 <= i < |s| ensures IsSpace(s[i]) {
      assert s[i] in multiset(s);
      assert s[i] in q;
    }
    StripAllSpace(Lower(s));
  }

  /** `matchu(s)`: how many query tokens, repeats included, occur in
      `s.lower()`. */
  function MatchU(tokens: seq<string>, s: string): nat
    decreases |tokens|
  {
    if tokens == [] then 0
    else (if Count(Lower(s), tokens[0]) > 0 then 1 else 0) + MatchU(tokens[1..], s)
  }

  /** `match(s)`: the sum over query tokens of
      `min(3, s.lower().count(token))`. */
  function Match(tokens: seq<string>, s: string): nat
    decreases |tokens|
  {
    if tokens == [] then 0
    else Min3(Count(Lower(s), tokens[0])) + Match(tokens[1..], s)
  }

  function Min3(n: nat): nat { if n < 3 then n else 3 }

  /** The score of one paper in `search_rank`: 10 per token found in the
      space-joined authors (when there are authors), 20 per token found in
      the title (when it is non-empty), plus the capped summary counts. */
  function Score(p: PaperDoc, tokens: seq<string>): int {
    (if p.authors != [] then 10 * MatchU(tokens, Join(" ", p.authors)) else 0)
    + (if p.title != [] then 20 * MatchU(tokens, p.title) else 0)
    + Match(tokens, p.summary)
  }

  /** Some token occurs in `s.lower()`. */
  predicate AnyOccurs(tokens: seq<string>, s: string) {
    exists k :: 0 <= k < |tokens| && Occurs(tokens[k], Lower(s))
  }

  /** How many tokens, repeats included, occur in `s.lower()`, stated
      without `count`. */
  function NumOccurring(tokens: seq<string>, s: string): nat
    decreases |tokens|
  {
    if tokens == [] then 0
    else (if Occurs(tokens[0], Lower(s)) then 1 else 0) + NumOccurring(tokens[1..], s)
  }

  /** `matchu` counts exactly the tokens that occur as substrings. */
  lemma {:induction false} MatchUIsNumOccurring(tokens: seq<string>, s: string)
    ensures MatchU(tokens, s) == NumOccurring(tokens, s)
    ensures MatchU(tokens, s) <= |tokens|
    decreases |tokens|
  {
    if tokens != [] {
      CountPositiveIff(Lower(s), tokens[0]);
      MatchUIsNumOccurring(tokens[1..], s);
    }
  }

  lemma {:induction false} AnyOccursTail(tokens: seq<string>, s: string)
    requires tokens != []
    ensures AnyOccurs(tokens, s) <==> Occurs(tokens[0], Lower(s)) || AnyOccurs(tokens[1..], s)
  {
    if AnyOccurs(tokens, s) {
      var k :| 0 <= k < |tokens| && Occurs(tokens[k], Lower(s));
      if k > 0 { assert tokens[1..][k - 1] == tokens[k]; }
    }
    if AnyOccurs(tokens[1..], s) {
      var k :| 0 <= k < |tokens[1..]| && Occurs(tokens[1..][k], Lower(s));
      assert tokens[k + 1] == tokens[1..][k];
    }
  }

  /** `matchu(s) > 0` exactly when some token occurs in `s.lower()`. */
  lemma {:induction false} MatchUPositive(tokens: seq<string>, s: string)
    ensures MatchU(tokens, s) > 0 <==> AnyOccurs(tokens, s)
    decreases |tokens|
  {
    if tokens != [] {
      CountPositiveIff(Lower(s), tokens[0]);
      MatchUPositive(tokens[1..], s);
      AnyOccursTail(tokens, s);
    }
  }

  /** `match(s) > 0` exactly when some token occurs in `s.lower()`; each
      token adds at most 3. */
  lemma {:induction false} MatchPositive(tokens: seq<string>, s: string)
    ensures Match(tokens, s) > 0 <==> AnyOccurs(tokens, s)
    ensures Match(tokens, s) <= 3 * |tokens|
    decreases |tokens|
  {
    if tokens != [] {
      CountPositiveIff(Lower(s), tokens[0]);
      MatchPositive(tokens[1..], s);
      AnyOccursTail(tokens, s);
    }
  }

  /** One more space-separated occurrence of a token in the summary raises
      that token's `min(3, count)` term by one while it is below 3, and
      leaves it at 3 from then on. */
  lemma MatchTokenRises(p: string, s: string)
    requires p != [] && NoSpace(p)
    requires forall i :: 0 <= i < |p| ==> !IsUpper(p[i])
    ensures Match([p], s + " " + p) == if Match([p], s) < 3 then Match([p], s) + 1 else 3
  {
    var l := Lower(s);
    LowerConcat(s + " ", p);
    LowerConcat(s, " ");
    assert Lower(p) == p;
    assert Lower(" ") == [' '];
    assert Lower(s + " " + p) == l + [' '] + p;
    CountAcrossSpace(l, ' ', p, p);
    CountSelf(p);
    assert [p][1..] == [];
  }

  /** A paper scores above zero exactly when some token occurs in its joined
      authors (if it has any), in its title (if non-empty) or in its
      summary; the score never exceeds 33 per token. */
  lemma ScorePositive(p: PaperDoc, tokens: seq<string>)
    ensures Score(p, tokens) > 0 <==>
      (p.authors != [] && AnyOccurs(tokens, Join(" ", p.authors)))
      || (p.title != [] && AnyOccurs(tokens, p.title))
      || AnyOccurs(tokens, p.summary)
    ensures 0 <= Score(p, tokens) <= 33 * |tokens|
  {
    MatchUPositive(tokens, Join(" ", p.authors));
    MatchUPositive(tokens, p.title);
    MatchPositive(tokens, p.summary);
    MatchUIsNumOccurring(tokens, Join(" ", p.authors));
    MatchUIsNumOccurring(tokens, p.title);
  }

  /** With whitespace-free tokens, a token occurs in the space-joined
      authors exactly when it occurs in one author's name. */
  lemma AuthorsOccur(tokens: seq<string>, authors: seq<string>)
    requires forall k :: 0 <= k < |tokens| ==> tokens[k] != [] && NoSpace(tokens[k])
    ensures AnyOccurs(tokens, Join(" ", authors)) <==>
      exists k :: 0 <= k < |authors| && AnyOccurs(tokens, authors[k])
  {
    forall t | 0 <= t < |tokens| ensures Occurs(tokens[t], Lower(Join(" ", authors))) <==>
      exists k :: 0 <= k < |authors| && Occurs(tokens[t], Lower(authors[k])) {
      JoinOccurs(tokens[t], authors);
    }
  }

  /** For the tokens of a query, a paper scores above zero exactly when some
      token occurs in one of its author names, in its title or in its
      summary. */
  lemma SearchScorePositive(p: PaperDoc, q: string)
    ensures Score(p, Tokens(q)) > 0 <==>
      (exists k :: 0 <= k < |p.authors| && AnyOccurs(Tokens(q), p.authors[k]))
      || (p.title != [] && AnyOccurs(Tokens(q), p.title))
      || AnyOccurs(Tokens(q), p.summary)
  {
    TokensShape(q);
    ScorePositive(p, Tokens(q));
    AuthorsOccur(Tokens(q), p.authors);
  }
}
