/** The scraper's pure string helpers: whitespace normalisation of article text
    (`_clean_ws`), the section slug of a category URL (`_category_slug_from_url`) and
    the mapping of section slugs to topic buckets (`normalize_category`). */
module ScraperText {
  import opened Text

  /** The news portal every category and article URL is built on. */
  const BASE_URL := "https://timesofindia.indiatimes.com"

  /** Every whitespace character is a plain space and is not followed by another
      whitespace character. */
  predicate SingleSpaced(s: string) {
    forall i :: 0 <= i < |s| && IsSpace(s[i]) ==> s[i] == ' ' && (i + 1 < |s| ==> !IsSpace(s[i + 1]))
  }

  /** The shape `_clean_ws` gives its result: single spaces between runs of visible
      characters, nothing at either end. */
  predicate Normalized(s: string) {
    SingleSpaced(s) && (s == [] || (!IsSpace(s[0]) && !IsSpace(s[|s| - 1])))
  }

  /** `re.sub(r"\s+", " ", s)`: every maximal run of whitespace becomes one space
      (the last character of the run is the one that emits it). */
  function Collapse(s: string): (r: string)
    ensures r == [] <==> s == []
    ensures s != [] ==> (IsSpace(r[0]) <==> IsSpace(s[0]))
    ensures SingleSpaced(r)
    ensures Without(r, WHITESPACE) == Without(s, WHITESPACE)
    decreases |s|
  {
    if s == [] then []
    else if IsSpace(s[0]) then
      if |s| > 1 && IsSpace(s[1]) then Collapse(s[1..]) else " " + Collapse(s[1..])
    else
      [s[0]] + Collapse(s[1..])
  }

  lemma SingleSpacedSlice(t: string, a: nat, b: nat)
    requires a <= b <= |t| && SingleSpaced(t)
    ensures SingleSpaced(t[a..b])
  {
    var r := t[a..b];
    forall i | 0 <= i < |r| && IsSpace(r[i])
      ensures r[i] == ' ' && (i + 1 < |r| ==> !IsSpace(r[i + 1]))
    {
      assert r[i] == t[a + i];
      assert i + 1 < |r| ==> r[i + 1] == t[a + i + 1];
    }
  }

  /** The space `re.sub` leaves for a whitespace run at the start of s. */
  function Lead(s: string): string {
    if s != [] && IsSpace(s[0]) then " " else ""
  }

  /** The space `re.sub` leaves for a whitespace run at the end of s that follows a word. */
  function Trail(s: string): string {
    if s != [] && IsSpace(s[|s| - 1]) && Words(s) != [] then " " else ""
  }

  /** The collapsed form `CollapseWords` gives. */
  function Spaced(s: string): string {
    Lead(s) + Join(Words(s), " ") + Trail(s)
  }

  /** `re.sub(r"\s+", " ", s)` puts exactly one space where each whitespace run of s
      was: a space for a leading run, the words of s separated by single spaces, and a
      space for a trailing run. */
  lemma {:induction false} CollapseWords(s: string)
    ensures Collapse(s) == Spaced(s)
    decreases |s|
  {
    if s != [] {
      CollapseWords(s[1..]);
      if IsSpace(s[0]) {
        if |s| == 1 {
          LoneSpace(s);
        } else if IsSpace(s[1]) {
          SpaceBeforeRun(s);
        } else {
          SpaceBeforeWord(s);
        }
      } else {
        if |s| == 1 {
          LoneLetter(s);
        } else if IsSpace(s[1]) {
          SpacedBeforeRun(s);
        } else {
          LetterBeforeLetter(s);
        }
      }
    }
  }

  lemma LoneSpace(s: string)
    requires |s| == 1 && IsSpace(s[0])
    ensures Collapse(s) == Spaced(s)
  {
    WordsNone(s);
    assert Collapse(s) == " ";
    assert Spaced(s) == " ";
  }

  lemma LoneLetter(s: string)
    requires |s| == 1 && !IsSpace(s[0])
    ensures Collapse(s) == Spaced(s)
  {
    ShortWord(s);
    assert Words(s) == [[s[0]]] && [s[0]] == s;
    assert Collapse(s) == s;
  }

  lemma SpaceBeforeRun(s: string)
    requires |s| > 1 && IsSpace(s[0]) && IsSpace(s[1]) && Collapse(s[1..]) == Spaced(s[1..])
    ensures Collapse(s) == Spaced(s)
  {
    var t := s[1..];
    assert Collapse(s) == Collapse(t);
    assert Words(s) == Words(t);
    assert s[|s| - 1] == t[|t| - 1];
    assert Lead(t) == Lead(s) && Trail(s) == Trail(t);
  }

  lemma SpaceBeforeWord(s: string)
    requires |s| > 1 && IsSpace(s[0]) && !IsSpace(s[1]) && Collapse(s[1..]) == Spaced(s[1..])
    ensures Collapse(s) == Spaced(s)
  {
    SpacedSpaceWord(s);
  }

  /** A lone space before a word stays in front of it. */
  lemma SpacedSpaceWord(s: string)
    requires |s| > 1 && IsSpace(s[0]) && !IsSpace(s[1])
    ensures Spaced(s) == " " + Spaced(s[1..])
  {
    var t := s[1..];
    assert Words(s) == Words(t);
    assert s[|s| - 1] == t[|t| - 1];
    var j, tr := Join(Words(t), " "), Trail(t);
    assert Trail(s) == tr;
    assert Lead(t) == "" && Lead(s) == " ";
    assert Spaced(t) == j + tr;
  }

  lemma LetterBeforeLetter(s: string)
    requires |s| > 1 && !IsSpace(s[0]) && !IsSpace(s[1]) && Collapse(s[1..]) == Spaced(s[1..])
    ensures Collapse(s) == Spaced(s)
  {
    SpacedLetterLetter(s);
  }

  /** A letter followed by a letter joins the first word of the rest. */
  lemma SpacedLetterLetter(s: string)
    requires |s| > 1 && !IsSpace(s[0]) && !IsSpace(s[1])
    ensures Spaced(s) == [s[0]] + Spaced(s[1..])
  {
    var t := s[1..];
    LongWord(s);
    assert s[|s| - 1] == t[|t| - 1];
    var ws := Words(t);
    assert ws == [ws[0]] + ws[1..];
    JoinFirstChar(s[0], ws[0], ws[1..], " ");
    var j, tr := Join(ws, " "), Trail(t);
    assert Join(Words(s), " ") == [s[0]] + j;
    assert Trail(s) == tr;
    assert Lead(t) == "" && Lead(s) == "";
    assert Spaced(t) == j + tr;
  }

  lemma SpacedBeforeRun(s: string)
    requires |s| > 1 && !IsSpace(s[0]) && IsSpace(s[1]) && Collapse(s[1..]) == Spaced(s[1..])
    ensures [s[0]] + Collapse(s[1..]) == Spaced(s)
  {
    var t := s[1..];
    ShortWord(s);
    assert s[|s| - 1] == t[|t| - 1];
    assert Lead(t) == " " && Lead(s) == "";
    if Words(t) == [] {
      WordsNone(t);
      assert IsSpace(t[|t| - 1]);
      assert Trail(t) == "" && Trail(s) == " ";
      assert Join(Words(s), " ") == [s[0]];
    } else {
      JoinCons([s[0]], Words(t), " ");
      assert Trail(s) == Trail(t);
    }
  }

  /** `_clean_ws(s)`: whitespace runs collapsed to single spaces, then stripped. The
      result is the words of s (`s.split()`) joined by single spaces; so it is
      normalised and keeps every non-whitespace character of s, in order. */
  function CleanWs(s: string): (r: string)
    ensures r == Join(Words(s), " ")
    ensures Normalized(r)
    ensures Without(r, WHITESPACE) == Without(s, WHITESPACE)
  {
    CleanWsShape(s);
    StripCollapse(s);
    Strip(Collapse(s))
  }

  /** Stripping the collapsed string leaves it normalised and removes only
      whitespace. */
  lemma CleanWsShape(s: string)
    ensures Normalized(Strip(Collapse(s)))
    ensures Without(Strip(Collapse(s)), WHITESPACE) == Without(s, WHITESPACE)
  {
    StripSingleSpaced(Collapse(s));
  }

  /** Stripping the collapsed string removes exactly the leading and trailing space. */
  lemma StripCollapse(s: string)
    ensures Strip(Collapse(s)) == Join(Words(s), " ")
  {
    CollapseWords(s);
    StripSpaced(s);
  }

  lemma StripSpaced(s: string)
    ensures Strip(Spaced(s)) == Join(Words(s), " ")
  {
    var ws := Words(s);
    if ws == [] {
      assert Spaced(s) == Lead(s);
      StripPadding(Lead(s), [], "");
      assert Lead(s) + [] + "" == Lead(s);
    } else {
      JoinEnds(ws, " ");
      StripPadding(Lead(s), Join(ws, " "), Trail(s));
    }
  }

  /** Stripping a string padded with at most one space on each side removes the
      padding. */
  lemma StripPadding(l: string, j: string, tr: string)
    requires l == "" || l == " "
    requires tr == "" || tr == " "
    requires j == [] ==> tr == ""
    requires j != [] ==> !IsSpace(j[0]) && !IsSpace(j[|j| - 1])
    ensures Strip(l + j + tr) == j
  {
    var x := l + j + tr;
    assert x == l + (j + tr);
    TrimLeftPadding(l, j + tr);
    TrimRightPadding(j, tr);
    assert StripChars(x, WHITESPACE) == TrimRight(TrimLeft(x, WHITESPACE), WHITESPACE);
  }

  lemma TrimLeftPadding(l: string, x: string)
    requires l == "" || l == " "
    requires x != [] ==> !IsSpace(x[0])
    ensures TrimLeft(l + x, WHITESPACE) == x
  {
    if l == " " {
      assert (l + x)[0] in WHITESPACE;
      assert (l + x)[1..] == x;
    } else {
      assert l + x == x;
    }
  }

  lemma TrimRightPadding(j: string, tr: string)
    requires tr == "" || tr == " "
    requires j == [] ==> tr == ""
    requires j != [] ==> !IsSpace(j[|j| - 1])
    ensures TrimRight(j + tr, WHITESPACE) == j
  {
    if tr == " " {
      assert (j + tr)[|j + tr| - 1] in WHITESPACE;
      assert (j + tr)[..|j|] == j;
    } else {
      assert j + tr == j;
    }
  }

  lemma StripSingleSpaced(c: string)
    requires SingleSpaced(c)
    ensures SingleSpaced(Strip(c))
  {
    var a, b := StripSlice(c);
    SingleSpacedSlice(c, a, b);
  }

  /** `strip()` keeps a contiguous slice. */
  lemma StripSlice(c: string) returns (a: nat, b: nat)
    ensures a <= b <= |c| && Strip(c) == c[a..b]
  {
    var l := TrimLeft(c, WHITESPACE);
    var r := TrimRight(l, WHITESPACE);
    a, b := |c| - |l|, |c| - |l| + |r|;
    assert l == c[a..] && r == l[..|r|];
    assert Strip(c) == StripChars(c, WHITESPACE) == r;
  }

  lemma {:induction false} CollapseSingleSpaced(s: string)
    requires SingleSpaced(s)
    ensures Collapse(s) == s
    decreases |s|
  {
    if s != [] {
      SingleSpacedSlice(s, 1, |s|);
      CollapseSingleSpaced(s[1..]);
    }
  }

  /** A normalised string is a fixed point of `_clean_ws`. */
  lemma CleanWsNormalized(s: string)
    requires Normalized(s)
    ensures CleanWs(s) == s
  {
    CollapseSingleSpaced(s);
  }

  /** Applying `_clean_ws` twice is the same as applying it once. */
  lemma CleanWsIdempotent(s: string)
    ensures CleanWs(CleanWs(s)) == CleanWs(s)
  {
    CleanWsNormalized(CleanWs(s));
  }

  /** `_category_slug_from_url(u)`: the first path segment of u once the site prefix is
      removed, lower-cased; "unknown" when that segment is empty. */
  function CategorySlugFromUrl(categoryUrl: string): (r: string)
    ensures r != ""
    ensures '/' !in r
    ensures Lower(r) == r
  {
    var segment := BeforeFirst(StripChars(ReplaceAll(categoryUrl, BASE_URL, ""), {'/'}), '/');
    LowerIdempotent(segment);
    UnknownIsLower();
    var slug := Lower(segment);
    if slug == "" then "unknown" else slug
  }

  lemma UnknownIsLower()
    ensures Lower("unknown") == "unknown" && '/' !in "unknown"
  {
  }

  /** The topic buckets `normalize_category` folds known sections into. */
  const BUCKETS: set<string> := {"world", "business", "sports", "technology", "health", "politics"}

  /** The section slugs `normalize_category` folds into a bucket. */
  const KNOWN_SECTIONS: set<string> :=
    {"world", "business", "sports", "technology", "tech", "science", "health", "health-fitness", "india", "politics"}

  /** `normalize_category(slug)`: known section slugs go to their bucket, any other slug
      passes through lower-cased, the empty slug becomes "unknown". */
  function NormalizeCategory(slug: string): (r: string)
    ensures r != ""
    ensures Lower(r) == r
    ensures r in BUCKETS || r == Lower(slug) || r == "unknown"
    ensures Lower(slug) in {"world", "business", "sports"} ==> r == Lower(slug)
    ensures Lower(slug) in {"technology", "tech", "science"} ==> r == "technology"
    ensures Lower(slug) in {"health", "health-fitness"} ==> r == "health"
    ensures Lower(slug) in {"india", "politics"} ==> r == "politics"
    ensures Lower(slug) !in KNOWN_SECTIONS ==> r == (if slug == "" then "unknown" else Lower(slug))
  {
    var s := Lower(slug);
    LowerIdempotent(slug);
    if s == "world" then "world"
    else if s == "business" then "business"
    else if s == "sports" then "sports"
    else if s in {"technology", "tech", "science"} then "technology"
    else if s in {"health", "health-fitness"} then "health"
    else if s in {"india", "politics"} then "politics"
    else if s == "" then "unknown"
    else s
  }

  /** Normalising a bucket name again changes nothing. */
  lemma NormalizeCategoryIdempotent(slug: string)
    ensures NormalizeCategory(NormalizeCategory(slug)) == NormalizeCategory(slug)
  {
    var r := NormalizeCategory(slug);
    LowerIdempotent(slug);
    assert Lower("unknown") == "unknown";
    assert Lower("world") == "world" && Lower("business") == "business" && Lower("sports") == "sports";
    assert Lower("technology") == "technology" && Lower("health") == "health" && Lower("politics") == "politics";
  }

  /** Slugs that differ only in ASCII letter case fall in the same bucket. */
  lemma NormalizeCategoryIgnoresCase(slug: string)
    ensures NormalizeCategory(Lower(slug)) == NormalizeCategory(slug)
  {
    LowerIdempotent(slug);
  }
}
