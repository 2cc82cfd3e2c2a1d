/** `slugify` of scripts/generate_master_ids.py: a game name to a URL slug.

    The name is lower-cased, NFKD-normalised and stripped of non-ASCII
    characters; `&` becomes "and"; apostrophes are dropped; every run of
    characters outside [a-z0-9] becomes one hyphen; hyphens are collapsed and
    stripped from both ends.

    Unicode lower-casing and NFKD are library behaviour. They act character by
    character on what survives the ASCII filter, so they are a parameter
    `fold`: the ASCII characters that remain of one non-ASCII character. */
module Slug {
  import opened Text

  const EN_DASH: char := '\U{2013}'
  const EM_DASH: char := '\U{2014}'
  const RIGHT_QUOTE: char := '\U{2019}'

  /** What `lower`, NFKD and `encode("ascii", "ignore")` leave of one non-ASCII character. */
  type Fold = char -> string

  /** Dashes and the right single quotation mark have no decomposition, so the
      ASCII filter removes them entirely. */
  predicate DropsPunctuation(fold: Fold) {
    fold(EN_DASH) == [] && fold(EM_DASH) == [] && fold(RIGHT_QUOTE) == []
  }

  /** `s.lower()` then NFKD then `encode("ascii", "ignore").decode("ascii")`. */
  function AsciiFold(fold: Fold, s: string): string {
    if s == [] then []
    else (if IsAscii(s[0]) then [LowerChar(s[0])] else fold(s[0])) + AsciiFold(fold, s[1..])
  }

  /** `s.replace(c, r)` for a one-character pattern `c`. */
  function ReplaceChar(s: string, c: char, r: string): string {
    if s == [] then []
    else (if s[0] == c then r else [s[0]]) + ReplaceChar(s[1..], c, r)
  }

  predicate IsSlugChar(c: char) { IsLowerLetter(c) || IsDigit(c) }

  /** The longest suffix of `s` that does not start with a character outside [a-z0-9]. */
  function DropNonSlug(s: string): (r: string)
    ensures |r| <= |s| && r == s[|s| - |r|..]
    ensures r != [] ==> IsSlugChar(r[0])
  {
    if s != [] && !IsSlugChar(s[0]) then DropNonSlug(s[1..]) else s
  }

  /** `re.sub(r"[^a-z0-9]+", "-", s)`: every maximal run outside [a-z0-9] becomes one hyphen. */
  function SubRuns(s: string): (r: string)
    ensures forall i :: 0 <= i < |r| ==> IsSlugChar(r[i]) || r[i] == '-'
    ensures forall i :: 0 <= i < |r| - 1 ==> !(r[i] == '-' && r[i + 1] == '-')
    ensures r != [] && s != [] ==> (r[0] == '-' <==> !IsSlugChar(s[0]))
    ensures r == [] <==> s == []
    decreases |s|
  {
    if s == [] then []
    else if IsSlugChar(s[0]) then [s[0]] + SubRuns(s[1..])
    else "-" + SubRuns(DropNonSlug(s[1..]))
  }

  function DropHyphens(s: string): (r: string)
    ensures |r| <= |s| && r == s[|s| - |r|..]
    ensures r != [] ==> r[0] != '-'
  {
    if s != [] && s[0] == '-' then DropHyphens(s[1..]) else s
  }

  /** `re.sub(r"-+", "-", s)` */
  function Collapse(s: string): string
    decreases |s|
  {
    if s == [] then []
    else if s[0] == '-' then "-" + Collapse(DropHyphens(s[1..]))
    else [s[0]] + Collapse(s[1..])
  }

  /** The steps after the ASCII filter and the replacements. */
  function Hyphenate(s: string): string {
    StripChar(Collapse(SubRuns(s)), '-')
  }

  /** What `slugify` as written hands to the regular expressions: the dash and
      right-quote replacements come after the ASCII filter has already removed
      those characters. */
  function PreparedAsWritten(fold: Fold, name: string): string {
    var folded := AsciiFold(fold, name);
    var amp := ReplaceChar(folded, '&', "and");
    var apos := ReplaceChar(amp, '\'', "");
    var quote := ReplaceChar(apos, RIGHT_QUOTE, "");
    ReplaceChar(ReplaceChar(quote, EN_DASH, "-"), EM_DASH, "-")
  }

  function SlugifyAsWritten(fold: Fold, name: string): string {
    Hyphenate(PreparedAsWritten(fold, name))
  }

  /** The pre-processing with the dash and right-quote replacements made before
      the ASCII filter, so that a dash separates words as a hyphen does. */
  function Prepared(fold: Fold, name: string): string {
    var quote := ReplaceChar(name, RIGHT_QUOTE, "");
    var dashes := ReplaceChar(ReplaceChar(quote, EN_DASH, "-"), EM_DASH, "-");
    var folded := AsciiFold(fold, dashes);
    var amp := ReplaceChar(folded, '&', "and");
    ReplaceChar(amp, '\'', "")
  }

  function Slugify(fold: Fold, name: string): string {
    Hyphenate(Prepared(fold, name))
  }

  /** Only [a-z0-9-], no hyphen at either end, no two hyphens in a row. */
  predicate IsSlug(s: string) {
    (forall i :: 0 <= i < |s| ==> IsSlugChar(s[i]) || s[i] == '-')
    && (forall i :: 0 <= i < |s| - 1 ==> !(s[i] == '-' && s[i + 1] == '-'))
    && (s != [] ==> s[0] != '-' && s[|s| - 1] != '-')
  }

  /** Characters in [a-z0-9-] and no two hyphens in a row. */
  predicate Hyphenated(s: string) {
    (forall i :: 0 <= i < |s| ==> IsSlugChar(s[i]) || s[i] == '-')
    && (forall i :: 0 <= i < |s| - 1 ==> !(s[i] == '-' && s[i + 1] == '-'))
  }

  // ------------------------------------------------------------------ lemmas

  lemma AsciiFoldAppend(fold: Fold, a: string, b: string)
    ensures AsciiFold(fold, a + b) == AsciiFold(fold, a) + AsciiFold(fold, b)
  {
    if a != [] {
      assert (a + b)[1..] == a[1..] + b;
      AsciiFoldAppend(fold, a[1..], b);
    } else {
      assert a + b == b;
    }
  }

  lemma ReplaceCharAppend(a: string, b: string, c: char, r: string)
    ensures ReplaceChar(a + b, c, r) == ReplaceChar(a, c, r) + ReplaceChar(b, c, r)
  {
    if a != [] {
      assert (a + b)[1..] == a[1..] + b;
      ReplaceCharAppend(a[1..], b, c, r);
    } else {
      assert a + b == b;
    }
  }

  /** A string without `c` is left alone by replacing `c`. */
  lemma {:induction false} ReplaceCharAbsent(s: string, c: char, r: string)
    requires forall i :: 0 <= i < |s| ==> s[i] != c
    ensures ReplaceChar(s, c, r) == s
  {
    if s != [] {
      ReplaceCharAbsent(s[1..], c, r);
    }
  }

  /** ASCII text without upper-case letters is left alone by the fold. */
  lemma {:induction false} AsciiFoldLower(fold: Fold, s: string)
    requires forall i :: 0 <= i < |s| ==> IsAscii(s[i]) && !IsUpper(s[i])
    ensures AsciiFold(fold, s) == s
  {
    if s != [] {
      AsciiFoldLower(fold, s[1..]);
    }
  }

  /** On ASCII text the fold is plain lower-casing. */
  lemma {:induction false} AsciiFoldAscii(fold: Fold, s: string)
    requires forall i :: 0 <= i < |s| ==> IsAscii(s[i])
    ensures AsciiFold(fold, s) == Lower(s)
  {
    if s != [] {
      AsciiFoldAscii(fold, s[1..]);
    }
  }

  lemma ReplaceCharOne(x: char, c: char, r: string)
    ensures ReplaceChar([x], c, r) == if x == c then r else [x]
  {
    assert [x][1..] == [];
  }

  lemma AsciiFoldOne(fold: Fold, x: char)
    ensures AsciiFold(fold, [x]) == if IsAscii(x) then [LowerChar(x)] else fold(x)
  {
    assert [x][1..] == [];
  }

  lemma {:induction false} SubRunsHyphenated(s: string)
    requires Hyphenated(s)
    ensures SubRuns(s) == s
    decreases |s|
  {
    if s != [] {
      if IsSlugChar(s[0]) {
        SubRunsHyphenated(s[1..]);
      } else {
        assert s[0] == '-';
        var t := s[1..];
        assert DropNonSlug(t) == t by {
          if t != [] { assert t[0] == s[1]; }
        }
        SubRunsHyphenated(t);
      }
    }
  }

  lemma {:induction false} CollapseHyphenated(s: string)
    requires Hyphenated(s)
    ensures Collapse(s) == s
    decreases |s|
  {
    if s != [] {
      if s[0] == '-' {
        var t := s[1..];
        assert DropHyphens(t) == t by {
          if t != [] { assert t[0] == s[1]; }
        }
        CollapseHyphenated(t);
      } else {
        CollapseHyphenated(s[1..]);
      }
    }
  }

  lemma {:induction false} StripHyphenated(s: string)
    requires Hyphenated(s)
    ensures IsSlug(StripChar(s, '-'))
    decreases |s|
  {
    if s != [] && s[0] == '-' {
      StripHyphenated(s[1..]);
    } else if s != [] && s[|s| - 1] == '-' {
      StripHyphenated(s[..|s| - 1]);
    }
  }

  /** The final steps always produce a slug. */
  lemma HyphenateIsSlug(s: string)
    ensures IsSlug(Hyphenate(s))
  {
    var t := SubRuns(s);
    CollapseHyphenated(t);
    StripHyphenated(t);
  }

  /** Whatever the name, `slugify` gives only [a-z0-9-], no leading or trailing
      hyphen and no two hyphens in a row. */
  lemma SlugifyIsSlug(fold: Fold, name: string)
    ensures IsSlug(Slugify(fold, name))
    ensures IsSlug(SlugifyAsWritten(fold, name))
  {
    HyphenateIsSlug(Prepared(fold, name));
    HyphenateIsSlug(PreparedAsWritten(fold, name));
  }

  /** The regular-expression steps leave a slug as it is. */
  lemma HyphenateSlug(s: string)
    requires IsSlug(s)
    ensures Hyphenate(s) == s
  {
    SubRunsHyphenated(s);
    CollapseHyphenated(s);
  }

  /** A slug is its own slug: re-slugifying changes nothing. */
  lemma SlugifyFixesSlugs(fold: Fold, s: string)
    requires IsSlug(s)
    ensures Slugify(fold, s) == s
  {
    assert forall i :: 0 <= i < |s| ==> IsAscii(s[i]) && !IsUpper(s[i]);
    ReplaceCharAbsent(s, RIGHT_QUOTE, "");
    ReplaceCharAbsent(s, EN_DASH, "-");
    ReplaceCharAbsent(s, EM_DASH, "-");
    AsciiFoldLower(fold, s);
    ReplaceCharAbsent(s, '&', "and");
    ReplaceCharAbsent(s, '\'', "");
    HyphenateSlug(s);
  }

  lemma SlugifyIdempotent(fold: Fold, name: string)
    ensures Slugify(fold, Slugify(fold, name)) == Slugify(fold, name)
  {
    SlugifyIsSlug(fold, name);
    SlugifyFixesSlugs(fold, Slugify(fold, name));
  }

  lemma PreparedAppend(fold: Fold, a: string, b: string)
    ensures Prepared(fold, a + b) == Prepared(fold, a) + Prepared(fold, b)
  {
    ReplaceCharAppend(a, b, RIGHT_QUOTE, "");
    var a1, b1 := ReplaceChar(a, RIGHT_QUOTE, ""), ReplaceChar(b, RIGHT_QUOTE, "");
    ReplaceCharAppend(a1, b1, EN_DASH, "-");
    var a2, b2 := ReplaceChar(a1, EN_DASH, "-"), ReplaceChar(b1, EN_DASH, "-");
    ReplaceCharAppend(a2, b2, EM_DASH, "-");
    var a3, b3 := ReplaceChar(a2, EM_DASH, "-"), ReplaceChar(b2, EM_DASH, "-");
    AsciiFoldAppend(fold, a3, b3);
    var a4, b4 := AsciiFold(fold, a3), AsciiFold(fold, b3);
    ReplaceCharAppend(a4, b4, '&', "and");
    ReplaceCharAppend(ReplaceChar(a4, '&', "and"), ReplaceChar(b4, '&', "and"), '\'', "");
  }

  lemma PreparedAround(fold: Fold, a: string, mid: string, b: string)
    ensures Prepared(fold, a + mid + b) == Prepared(fold, a) + Prepared(fold, mid) + Prepared(fold, b)
  {
    PreparedAppend(fold, a + mid, b);
    PreparedAppend(fold, a, mid);
  }

  lemma PreparedOne(fold: Fold, x: char)
    requires IsAscii(x) && !IsUpper(x) && x != '&' && x != '\''
    ensures Prepared(fold, [x]) == [x]
  {
    ReplaceCharOne(x, RIGHT_QUOTE, "");
    ReplaceCharOne(x, EN_DASH, "-");
    ReplaceCharOne(x, EM_DASH, "-");
    AsciiFoldOne(fold, x);
    ReplaceCharOne(x, '&', "and");
    ReplaceCharOne(x, '\'', "");
  }

  lemma PreparedApostrophe(fold: Fold)
    ensures Prepared(fold, "'") == []
  {
    ReplaceCharOne('\'', RIGHT_QUOTE, "");
    ReplaceCharOne('\'', EN_DASH, "-");
    ReplaceCharOne('\'', EM_DASH, "-");
    AsciiFoldOne(fold, '\'');
    ReplaceCharOne('\'', '&', "and");
    ReplaceCharOne('\'', '\'', "");
  }

  lemma PreparedRightQuote(fold: Fold)
    ensures Prepared(fold, [RIGHT_QUOTE]) == []
  {
    ReplaceCharOne(RIGHT_QUOTE, RIGHT_QUOTE, "");
  }

  lemma PreparedAmpersand(fold: Fold)
    ensures Prepared(fold, "&") == "and"
  {
    ReplaceCharOne('&', RIGHT_QUOTE, "");
    ReplaceCharOne('&', EN_DASH, "-");
    ReplaceCharOne('&', EM_DASH, "-");
    AsciiFoldOne(fold, '&');
    ReplaceCharOne('&', '&', "and");
    ReplaceCharAbsent("and", '\'', "");
  }

  lemma PreparedAnd(fold: Fold)
    ensures Prepared(fold, "and") == "and"
  {
    var s := "and";
    assert forall i :: 0 <= i < |s| ==> IsAscii(s[i]) && !IsUpper(s[i]) && s[i] != '&' && s[i] != '\'';
    ReplaceCharAbsent(s, RIGHT_QUOTE, "");
    ReplaceCharAbsent(s, EN_DASH, "-");
    ReplaceCharAbsent(s, EM_DASH, "-");
    AsciiFoldLower(fold, s);
    ReplaceCharAbsent(s, '&', "and");
    ReplaceCharAbsent(s, '\'', "");
  }

  /** `&` reads as "and" and apostrophes vanish, wherever they stand. */
  lemma SlugifyAmpersandApostrophe(fold: Fold, a: string, b: string)
    ensures Slugify(fold, a + "&" + b) == Slugify(fold, a + "and" + b)
    ensures Slugify(fold, a + "'" + b) == Slugify(fold, a + b)
    ensures Slugify(fold, a + [RIGHT_QUOTE] + b) == Slugify(fold, a + b)
  {
    PreparedAppend(fold, a, b);
    assert Prepared(fold, a + "&" + b) == Prepared(fold, a + "and" + b) by {
      PreparedAround(fold, a, "&", b);
      PreparedAround(fold, a, "and", b);
      PreparedAmpersand(fold);
      PreparedAnd(fold);
    }
    assert Prepared(fold, a + "'" + b) == Prepared(fold, a + b) by {
      PreparedAround(fold, a, "'", b);
      PreparedApostrophe(fold);
      assert Prepared(fold, a) + [] + Prepared(fold, b) == Prepared(fold, a) + Prepared(fold, b);
    }
    assert Prepared(fold, a + [RIGHT_QUOTE] + b) == Prepared(fold, a + b) by {
      PreparedAround(fold, a, [RIGHT_QUOTE], b);
      PreparedRightQuote(fold);
      assert Prepared(fold, a) + [] + Prepared(fold, b) == Prepared(fold, a) + Prepared(fold, b);
    }
  }

  /** With the replacement made first, an en or em dash separates words exactly as a hyphen does. */
  lemma SlugifyDash(fold: Fold, a: string, b: string)
    ensures Slugify(fold, a + [EN_DASH] + b) == Slugify(fold, a + "-" + b)
    ensures Slugify(fold, a + [EM_DASH] + b) == Slugify(fold, a + "-" + b)
  {
    PreparedAround(fold, a, [EN_DASH], b);
    PreparedAround(fold, a, [EM_DASH], b);
    PreparedAround(fold, a, "-", b);
    assert Prepared(fold, [EN_DASH]) == "-" by {
      ReplaceCharOne(EN_DASH, RIGHT_QUOTE, "");
      ReplaceCharOne(EN_DASH, EN_DASH, "-");
      ReplaceCharOne('-', EM_DASH, "-");
      AsciiFoldOne(fold, '-');
      ReplaceCharOne('-', '&', "and");
      ReplaceCharOne('-', '\'', "");
    }
    assert Prepared(fold, [EM_DASH]) == "-" by {
      ReplaceCharOne(EM_DASH, RIGHT_QUOTE, "");
      ReplaceCharOne(EM_DASH, EN_DASH, "-");
      ReplaceCharOne(EM_DASH, EM_DASH, "-");
      AsciiFoldOne(fold, '-');
      ReplaceCharOne('-', '&', "and");
      ReplaceCharOne('-', '\'', "");
    }
    PreparedOne(fold, '-');
  }

  /** A character the ASCII filter drops leaves no trace in the folded text. */
  lemma AsciiFoldDrops(fold: Fold, a: string, d: char, b: string)
    requires !IsAscii(d) && fold(d) == []
    ensures AsciiFold(fold, a + [d] + b) == AsciiFold(fold, a + b)
  {
    AsciiFoldAppend(fold, a + [d], b);
    AsciiFoldAppend(fold, a, [d]);
    AsciiFoldAppend(fold, a, b);
    AsciiFoldOne(fold, d);
  }

  /** Names that fold alike slugify alike, as written. */
  lemma AsWrittenAfterFold(fold: Fold, x: string, y: string)
    requires AsciiFold(fold, x) == AsciiFold(fold, y)
    ensures SlugifyAsWritten(fold, x) == SlugifyAsWritten(fold, y)
  {
  }

  /** As written, the ASCII filter has already dropped a dash by the time it
      would be replaced, so the words on either side run together. */
  lemma SlugifyAsWrittenDropsDash(fold: Fold, a: string, b: string)
    requires DropsPunctuation(fold)
    ensures SlugifyAsWritten(fold, a + [EN_DASH] + b) == SlugifyAsWritten(fold, a + b)
    ensures SlugifyAsWritten(fold, a + [EM_DASH] + b) == SlugifyAsWritten(fold, a + b)
  {
    AsciiFoldDrops(fold, a, EN_DASH, b);
    AsWrittenAfterFold(fold, a + [EN_DASH] + b, a + b);
    AsciiFoldDrops(fold, a, EM_DASH, b);
    AsWrittenAfterFold(fold, a + [EM_DASH] + b, a + b);
  }

  predicate IsWord(s: string) {
    s != [] && forall i :: 0 <= i < |s| ==> IsSlugChar(s[i])
  }

  lemma WordsAreSlug(a: string, b: string)
    requires IsWord(a) && IsWord(b)
    ensures IsSlug(a + b) && IsSlug(a + "-" + b)
  {
    var w := a + b;
    forall i | 0 <= i < |w| ensures IsSlugChar(w[i]) {
      if i < |a| { assert w[i] == a[i]; } else { assert w[i] == b[i - |a|]; }
    }
    var h := a + "-" + b;
    forall i | 0 <= i < |h| ensures IsSlugChar(h[i]) || h[i] == '-' {
      if i < |a| { assert h[i] == a[i]; }
      else if i > |a| { assert h[i] == b[i - |a| - 1]; }
    }
    forall i | 0 <= i < |h| - 1 ensures !(h[i] == '-' && h[i + 1] == '-') {
      if i < |a| { assert h[i] == a[i]; } else { assert h[i + 1] == b[i - |a|]; }
    }
    assert h[0] == a[0];
    assert h[|h| - 1] == b[|b| - 1];
  }

  /** As written, a slug passes through unchanged. */
  lemma SlugifyAsWrittenFixesSlugs(fold: Fold, w: string)
    requires IsSlug(w)
    ensures SlugifyAsWritten(fold, w) == w
  {
    assert forall i :: 0 <= i < |w| ==> IsAscii(w[i]) && !IsUpper(w[i]);
    AsciiFoldLower(fold, w);
    ReplaceCharAbsent(w, '&', "and");
    ReplaceCharAbsent(w, '\'', "");
    ReplaceCharAbsent(w, RIGHT_QUOTE, "");
    ReplaceCharAbsent(w, EN_DASH, "-");
    ReplaceCharAbsent(w, EM_DASH, "-");
    HyphenateSlug(w);
  }

  lemma PreparedAsWrittenAppend(fold: Fold, a: string, b: string)
    ensures PreparedAsWritten(fold, a + b) == PreparedAsWritten(fold, a) + PreparedAsWritten(fold, b)
  {
    AsciiFoldAppend(fold, a, b);
    var a1, b1 := AsciiFold(fold, a), AsciiFold(fold, b);
    ReplaceCharAppend(a1, b1, '&', "and");
    var a2, b2 := ReplaceChar(a1, '&', "and"), ReplaceChar(b1, '&', "and");
    ReplaceCharAppend(a2, b2, '\'', "");
    var a3, b3 := ReplaceChar(a2, '\'', ""), ReplaceChar(b2, '\'', "");
    ReplaceCharAppend(a3, b3, RIGHT_QUOTE, "");
    var a4, b4 := ReplaceChar(a3, RIGHT_QUOTE, ""), ReplaceChar(b3, RIGHT_QUOTE, "");
    ReplaceCharAppend(a4, b4, EN_DASH, "-");
    ReplaceCharAppend(ReplaceChar(a4, EN_DASH, "-"), ReplaceChar(b4, EN_DASH, "-"), EM_DASH, "-");
  }

  lemma PreparedAsWrittenAround(fold: Fold, a: string, mid: string, b: string)
    ensures PreparedAsWritten(fold, a + mid + b)
         == PreparedAsWritten(fold, a) + PreparedAsWritten(fold, mid) + PreparedAsWritten(fold, b)
  {
    PreparedAsWrittenAppend(fold, a + mid, b);
    PreparedAsWrittenAppend(fold, a, mid);
  }

  /** ASCII text with none of `&` and `'` and no upper-case letter goes through unchanged. */
  lemma PreparedAsWrittenPlain(fold: Fold, s: string)
    requires forall i :: 0 <= i < |s| ==> IsAscii(s[i]) && !IsUpper(s[i]) && s[i] != '&' && s[i] != '\''
    ensures PreparedAsWritten(fold, s) == s
  {
    AsciiFoldLower(fold, s);
    ReplaceCharAbsent(s, '&', "and");
    ReplaceCharAbsent(s, '\'', "");
    ReplaceCharAbsent(s, RIGHT_QUOTE, "");
    ReplaceCharAbsent(s, EN_DASH, "-");
    ReplaceCharAbsent(s, EM_DASH, "-");
  }

  lemma PreparedAsWrittenAmpersand(fold: Fold)
    ensures PreparedAsWritten(fold, "&") == "and"
  {
    AsciiFoldOne(fold, '&');
    ReplaceCharOne('&', '&', "and");
    ReplaceCharAbsent("and", '\'', "");
    ReplaceCharAbsent("and", RIGHT_QUOTE, "");
    ReplaceCharAbsent("and", EN_DASH, "-");
    ReplaceCharAbsent("and", EM_DASH, "-");
  }

  lemma PreparedAsWrittenApostrophe(fold: Fold)
    ensures PreparedAsWritten(fold, "'") == []
  {
    AsciiFoldOne(fold, '\'');
    ReplaceCharOne('\'', '&', "and");
    ReplaceCharOne('\'', '\'', "");
  }

  /** As written too, `&` reads as "and" and an ASCII apostrophe vanishes; a
      right quotation mark vanishes because the ASCII filter drops it. */
  lemma SlugifyAsWrittenAmpersandApostrophe(fold: Fold, a: string, b: string)
    ensures SlugifyAsWritten(fold, a + "&" + b) == SlugifyAsWritten(fold, a + "and" + b)
    ensures SlugifyAsWritten(fold, a + "'" + b) == SlugifyAsWritten(fold, a + b)
    ensures DropsPunctuation(fold) ==>
      SlugifyAsWritten(fold, a + [RIGHT_QUOTE] + b) == SlugifyAsWritten(fold, a + b)
  {
    var pa, pb := PreparedAsWritten(fold, a), PreparedAsWritten(fold, b);
    assert PreparedAsWritten(fold, a + "&" + b) == PreparedAsWritten(fold, a + "and" + b) by {
      PreparedAsWrittenAround(fold, a, "&", b);
      PreparedAsWrittenAround(fold, a, "and", b);
      PreparedAsWrittenAmpersand(fold);
      PreparedAsWrittenPlain(fold, "and");
    }
    assert PreparedAsWritten(fold, a + "'" + b) == PreparedAsWritten(fold, a + b) by {
      PreparedAsWrittenAppend(fold, a, b);
      PreparedAsWrittenAround(fold, a, "'", b);
      PreparedAsWrittenApostrophe(fold);
      assert pa + [] + pb == pa + pb;
    }
    if DropsPunctuation(fold) {
      AsciiFoldDrops(fold, a, RIGHT_QUOTE, b);
      AsWrittenAfterFold(fold, a + [RIGHT_QUOTE] + b, a + b);
    }
  }

  /** Slugifying, as written, a second time changes nothing. */
  lemma SlugifyAsWrittenIdempotent(fold: Fold, name: string)
    ensures SlugifyAsWritten(fold, SlugifyAsWritten(fold, name)) == SlugifyAsWritten(fold, name)
  {
    SlugifyIsSlug(fold, name);
    SlugifyAsWrittenFixesSlugs(fold, SlugifyAsWritten(fold, name));
  }

  /** Two words joined by an en dash, such as "rock" and "paper": as written the
      slug runs them together ("rockpaper"); with the replacement made before
      the ASCII filter they stay apart ("rock-paper"). */
  lemma {:induction false} DashJoinsWords(fold: Fold, a: string, b: string)
    requires DropsPunctuation(fold)
    requires IsWord(a) && IsWord(b)
    ensures SlugifyAsWritten(fold, a + [EN_DASH] + b) == a + b
    ensures Slugify(fold, a + [EN_DASH] + b) == a + "-" + b
  {
    WordsAreSlug(a, b);
    SlugifyAsWrittenDropsDash(fold, a, b);
    SlugifyAsWrittenFixesSlugs(fold, a + b);
    SlugifyDash(fold, a, b);
    SlugifyFixesSlugs(fold, a + "-" + b);
  }
}
