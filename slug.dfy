/** Tournament slugs: `slugify`, the chain of replacements that turns a
    tournament name into a URL segment, and `uniqueSlug`, which appends
    `-2`, `-3`, ... until the slug is not taken by another tournament. */
module Slug {
  import opened Text

  /** The characters a slug is made of: `[a-z0-9-]`. */
  predicate SlugChar(c: char) {
    IsLower(c) || IsDigit(c) || c == '-'
  }

  /** No two hyphens in a row. */
  predicate NoDoubleHyphen(s: string) {
    forall k :: 0 <= k < |s| - 1 ==> !(s[k] == '-' && s[k + 1] == '-')
  }

  /** The shape of every slug: non-empty, `[a-z0-9-]` only, no hyphen at
      either end and no two hyphens in a row. */
  predicate IsSlug(s: string) {
    s != [] && AllSlugChars(s) && s[0] != '-' && s[|s| - 1] != '-' && NoDoubleHyphen(s)
  }

  // ------------------------------------------------------ toLowerCase

  /** `toLowerCase` on one character, as far as the rest of `slugify` can
      tell. A-Z become a-z; U+0130 (capital I with dot above) becomes `i`
      followed by U+0307 and U+212A (Kelvin sign) becomes `k`, the only
      characters outside A-Z whose lower case contains a word character.
      Every other character is kept: its lower case, if different, is
      neither a word character nor `\s`, so the next step deletes it just
      as it deletes the character itself. */
  function LowerChar(c: char): (s: string)
    ensures forall k :: 0 <= k < |s| ==> !IsUpper(s[k])
    ensures !IsUpper(c) && c != 'İ' && c != 'K' ==> s == [c]
  {
    if IsUpper(c) then [ToLowerAscii(c)]
    else if c == 'İ' then ['i', '̇']
    else if c == 'K' then ['k']
    else [c]
  }

  /** `text.toLowerCase()`: no ASCII capital survives. */
  function Lower(s: string): (r: string)
    ensures forall k :: 0 <= k < |r| ==> !IsUpper(r[k])
  {
    if s == [] then [] else LowerChar(s[0]) + Lower(s[1..])
  }

  // --------------------------------------------- .replace(/[^\w\s-]/g, "")

  /** A character `[^\w\s-]` does not match. */
  predicate Kept(c: char) {
    IsWordChar(c) || IsSpace(c) || c == '-'
  }

  /** Delete every character that is not a word character, `\s` or `-`. */
  function KeepSlugChars(s: string): (r: string)
    ensures |r| <= |s|
    ensures forall k :: 0 <= k < |r| ==> Kept(r[k]) && r[k] in s
    ensures (forall k :: 0 <= k < |s| ==> Kept(s[k])) ==> r == s
  {
    if s == [] then []
    else if Kept(s[0]) then [s[0]] + KeepSlugChars(s[1..])
    else KeepSlugChars(s[1..])
  }

  /** The deletion works character by character: on one character it
      keeps it exactly when it is `Kept`, and on a concatenation it is the
      concatenation of the two results. So the result is exactly the kept
      characters of `s`, in their order. */
  lemma {:induction false} KeepSlugCharsAppend(x: string, y: string)
    ensures KeepSlugChars(x + y) == KeepSlugChars(x) + KeepSlugChars(y)
    ensures |x| == 1 ==> KeepSlugChars(x) == if Kept(x[0]) then x else []
  {
    if x != [] {
      assert (x + y)[0] == x[0] && (x + y)[1..] == x[1..] + y;
      KeepSlugCharsAppend(x[1..], y);
    } else {
      assert x + y == y;
    }
  }

  // ------------------------------------------- .replace(/[\s_-]+/g, "-")

  /** A character of the class `[\s_-]`. */
  predicate IsSeparator(c: char) {
    IsSpace(c) || c == '_' || c == '-'
  }

  /** `s` without its leading run of separators. */
  function DropSeparators(s: string): (r: string)
    ensures |r| <= |s| && r == s[|s| - |r|..]
    ensures r != [] ==> !IsSeparator(r[0])
  {
    if s != [] && IsSeparator(s[0]) then DropSeparators(s[1..]) else s
  }

  /** Every maximal run of separators becomes one hyphen. The result has
      no two hyphens in a row, and every other character comes from `s`
      and is not a separator. */
  function Collapse(s: string): (r: string)
    ensures forall k :: 0 <= k < |r| ==> r[k] == '-' || (r[k] in s && !IsSeparator(r[k]))
    ensures NoDoubleHyphen(r)
    ensures s != [] && !IsSeparator(s[0]) ==> r != [] && r[0] == s[0]
    ensures s == [] <==> r == []
    decreases |s|
  {
    if s == [] then []
    else if IsSeparator(s[0]) then
      var rest := DropSeparators(s);
      assert forall c :: c in rest ==> c in s;
      "-" + Collapse(rest)
    else
      [s[0]] + Collapse(s[1..])
  }

  /** The replacement read left to right: the first separator of a run
      writes one hyphen, the separators after it write nothing, and every
      other character is copied. `inRun` says whether the previous
      character was a separator. */
  function CollapseRuns(s: string, inRun: bool): string {
    if s == [] then []
    else if IsSeparator(s[0]) then (if inRun then [] else "-") + CollapseRuns(s[1..], true)
    else [s[0]] + CollapseRuns(s[1..], false)
  }

  /** Inside a run, the rest of the run writes nothing. */
  lemma {:induction false} RunsSkip(s: string)
    ensures CollapseRuns(s, true) == CollapseRuns(DropSeparators(s), false)
  {
    if s != [] && IsSeparator(s[0]) {
      RunsSkip(s[1..]);
    }
  }

  /** `Collapse` writes exactly one hyphen per maximal run of separators
      and copies every other character: it agrees with the left-to-right
      reading `CollapseRuns`. */
  lemma {:induction false} CollapseByRuns(s: string)
    ensures Collapse(s) == CollapseRuns(s, false)
    decreases |s|
  {
    if s != [] {
      if IsSeparator(s[0]) {
        CollapseByRuns(DropSeparators(s));
        RunsSkip(s[1..]);
        assert DropSeparators(s) == DropSeparators(s[1..]);
      } else {
        CollapseByRuns(s[1..]);
      }
    }
  }

  /** The characters of `s` that are not separators, in order. */
  function Words(s: string): string {
    if s == [] then [] else (if IsSeparator(s[0]) then [] else [s[0]]) + Words(s[1..])
  }

  /** Dropping a leading run of separators leaves the other characters. */
  lemma {:induction false} WordsDrop(s: string)
    ensures Words(DropSeparators(s)) == Words(s)
  {
    if s != [] && IsSeparator(s[0]) {
      WordsDrop(s[1..]);
    }
  }

  /** Collapsing keeps every character that is not a separator, in order,
      and adds none: only separators are replaced. */
  lemma {:induction false} CollapseKeepsWords(s: string)
    ensures Words(Collapse(s)) == Words(s)
    decreases |s|
  {
    if s != [] {
      if IsSeparator(s[0]) {
        var rest := DropSeparators(s);
        CollapseKeepsWords(rest);
        WordsDrop(s);
        assert ("-" + Collapse(rest))[1..] == Collapse(rest);
      } else {
        CollapseKeepsWords(s[1..]);
        assert ([s[0]] + Collapse(s[1..]))[1..] == Collapse(s[1..]);
      }
    }
  }

  // ----------------------------------------- .replace(/^-+|-+$/g, "")

  /** Without the leading hyphens: a suffix of `s` after a run of
      hyphens, not itself starting with one. */
  function TrimHyphenStart(s: string): (r: string)
    ensures |r| <= |s| && r == s[|s| - |r|..]
    ensures r != [] ==> r[0] != '-'
    ensures AllSlugChars(s) ==> AllSlugChars(r)
    ensures NoDoubleHyphen(s) ==> NoDoubleHyphen(r)
  {
    if s != [] && s[0] == '-' then
      SliceKeepsShape(s, 1, |s|);
      var r := TrimHyphenStart(s[1..]);
      assert s[1..][|s| - 1 - |r|..] == s[|s| - |r|..];
      r
    else s
  }

  /** What `TrimHyphenStart` drops is hyphens only. */
  lemma {:induction false} TrimStartHyphens(s: string)
    ensures AllHyphens(s[..|s| - |TrimHyphenStart(s)|])
  {
    if s != [] && s[0] == '-' {
      TrimStartHyphens(s[1..]);
      LeadingHyphen(s, TrimHyphenStart(s[1..]));
    }
  }

  /** Without the trailing hyphens: a prefix of `s` before a run of
      hyphens, not itself ending with one. */
  function TrimHyphenEnd(s: string): (r: string)
    ensures |r| <= |s| && r == s[..|r|]
    ensures r != [] ==> r[|r| - 1] != '-'
    ensures AllSlugChars(s) ==> AllSlugChars(r)
    ensures NoDoubleHyphen(s) ==> NoDoubleHyphen(r)
  {
    if s != [] && s[|s| - 1] == '-' then
      SliceKeepsShape(s, 0, |s| - 1);
      TrimHyphenEnd(s[..|s| - 1])
    else s
  }

  /** What `TrimHyphenEnd` drops is hyphens only. */
  lemma {:induction false} TrimEndHyphens(s: string)
    ensures AllHyphens(s[|TrimHyphenEnd(s)|..])
  {
    if s != [] && s[|s| - 1] == '-' {
      var r := TrimHyphenEnd(s[..|s| - 1]);
      TrimEndHyphens(s[..|s| - 1]);
      assert s[|r|..] == s[..|s| - 1][|r|..] + [s[|s| - 1]];
    }
  }

  /** `r` is `s[i..j]` for a prefix `s[..i]` and a suffix `s[j..]` made of
      hyphens only. */
  predicate HyphensCut(s: string, r: string) {
    exists i, j :: 0 <= i <= j <= |s| && r == s[i..j] && AllHyphens(s[..i]) && AllHyphens(s[j..])
  }

  predicate AllHyphens(s: string) {
    forall k :: 0 <= k < |s| ==> s[k] == '-'
  }

  /** Leading and trailing hyphens removed: the result starts and ends
      with something else, and removing characters from the ends keeps the
      slug characters and the absence of double hyphens. */
  function TrimHyphens(s: string): (r: string)
    ensures r != [] ==> r[0] != '-' && r[|r| - 1] != '-'
    ensures AllSlugChars(s) ==> AllSlugChars(r)
    ensures NoDoubleHyphen(s) ==> NoDoubleHyphen(r)
  {
    TrimHyphenEnd(TrimHyphenStart(s))
  }

  /** What trimming removes is a run of hyphens at each end, and nothing
      else. */
  lemma TrimHyphensCut(s: string)
    ensures HyphensCut(s, TrimHyphens(s))
  {
    var m, r := TrimHyphenStart(s), TrimHyphens(s);
    TrimStartHyphens(s);
    TrimEndHyphens(m);
    CutBoth(s, m, r);
    var i := |s| - |m|;
    assert r == s[i..i + |r|] && AllHyphens(s[..i]) && AllHyphens(s[i + |r|..]);
  }

  /** One more leading hyphen in front of a cut suffix. */
  lemma LeadingHyphen(s: string, r: string)
    requires s != [] && s[0] == '-'
    requires |r| <= |s| - 1 && r == s[1..][|s| - 1 - |r|..]
    requires AllHyphens(s[1..][..|s| - 1 - |r|])
    ensures r == s[|s| - |r|..]
    ensures AllHyphens(s[..|s| - |r|])
  {
    assert s[..|s| - |r|] == [s[0]] + s[1..][..|s| - 1 - |r|];
  }

  /** A hyphen prefix cut from `s` and then a hyphen suffix cut from what
      is left. */
  lemma CutBoth(s: string, m: string, r: string)
    requires |m| <= |s| && m == s[|s| - |m|..]
    requires |r| <= |m| && r == m[..|r|]
    requires r != [] ==> m[0] != '-'
    ensures r == s[|s| - |m|..|s| - |m| + |r|]
    ensures s[|s| - |m| + |r|..] == m[|r|..]
    ensures r != [] ==> r[0] != '-'
  {
  }

  predicate AllSlugChars(s: string) {
    forall k :: 0 <= k < |s| ==> SlugChar(s[k])
  }

  lemma DropFirst(s: string)
    requires s != []
    ensures AllSlugChars(s) ==> AllSlugChars(s[1..])
    ensures NoDoubleHyphen(s) ==> NoDoubleHyphen(s[1..])
  {
    var t := s[1..];
    forall k | 0 <= k < |t|
      ensures t[k] == s[k + 1]
    {
    }
  }

  /** Any slice keeps the character class and the absence of double
      hyphens. */
  lemma SliceKeepsShape(s: string, i: int, j: int)
    requires 0 <= i <= j <= |s|
    ensures AllSlugChars(s) ==> AllSlugChars(s[i..j])
    ensures NoDoubleHyphen(s) ==> NoDoubleHyphen(s[i..j])
  {
    var t := s[i..j];
    forall k | 0 <= k < |t|
      ensures t[k] == s[i + k]
    {
    }
  }

  // ----------------------------------------------------------- slugify

  /** `slugify(text)`: the four replacements, falling back to
      `"tournament"` when nothing is left. Whatever the input, the result
      has the shape of a slug. */
  function Slugify(text: string): (slug: string)
    ensures IsSlug(slug)
  {
    var trimmed := TrimHyphens(Collapse(KeepSlugChars(Lower(text))));
    if trimmed == [] then
      FallbackIsSlug();
      "tournament"
    else
      SlugOfText(text);
      trimmed
  }

  /** The fallback name is itself a slug. */
  lemma FallbackIsSlug()
    ensures IsSlug("tournament")
  {
    var t := "tournament";
    assert forall k :: 0 <= k < |t| ==> IsLower(t[k]);
  }

  /** A character that survived lower-casing and the deletion step and
      is not a separator is a letter a-z or a digit. */
  lemma KeptSlugChar(c: char)
    requires Kept(c) && !IsUpper(c) && !IsSeparator(c)
    ensures SlugChar(c)
  {
  }

  /** The chain's middle steps leave only `[a-z0-9-]` without double
      hyphens, and trimming keeps that. */
  lemma SlugOfText(text: string)
    ensures var trimmed := TrimHyphens(Collapse(KeepSlugChars(Lower(text))));
      trimmed != [] ==> IsSlug(trimmed)
  {
    var lower := Lower(text);
    var kept := KeepSlugChars(lower);
    var collapsed := Collapse(kept);
    assert forall k :: 0 <= k < |kept| ==> Kept(kept[k]) && !IsUpper(kept[k]) by {
      forall k | 0 <= k < |kept|
        ensures Kept(kept[k]) && !IsUpper(kept[k])
      {
        var j :| 0 <= j < |lower| && lower[j] == kept[k];
      }
    }
    forall k | 0 <= k < |collapsed|
      ensures SlugChar(collapsed[k])
    {
      if collapsed[k] != '-' {
        var c := collapsed[k];
        var j :| 0 <= j < |kept| && kept[j] == c;
        KeptSlugChar(c);
      }
    }
    assert AllSlugChars(collapsed);
  }

  // ------------------------------------------------------- idempotence

  /** A slug is its own lower case. */
  lemma {:induction false} LowerOfSlug(s: string)
    requires AllSlugChars(s)
    ensures Lower(s) == s
  {
    if s != [] {
      DropFirst(s);
      LowerOfSlug(s[1..]);
    }
  }

  /** A slug has no double hyphen and nothing but `[a-z0-9-]`, so the
      collapsing step leaves it alone. */
  lemma {:induction false} CollapseOfSlug(s: string)
    requires AllSlugChars(s) && NoDoubleHyphen(s)
    ensures Collapse(s) == s
    decreases |s|
  {
    if s != [] {
      var t := s[1..];
      DropFirst(s);
      CollapseOfSlug(t);
      SlugCharSeparator(s[0]);
      if s[0] == '-' {
        if t != [] {
          assert t[0] == s[1] && s[1] != '-';
          SlugCharSeparator(t[0]);
        }
        SingleSeparator(s);
        CollapseAtSeparator(s);
        assert "-" + t == s;
      } else {
        CollapseAtOther(s);
      }
    }
  }

  /** `Collapse` at a separator: one hyphen, then the rest after the run. */
  lemma CollapseAtSeparator(s: string)
    requires s != [] && IsSeparator(s[0])
    ensures Collapse(s) == "-" + Collapse(DropSeparators(s))
  {
  }

  /** `Collapse` at any other character: that character, then the rest. */
  lemma CollapseAtOther(s: string)
    requires s != [] && !IsSeparator(s[0])
    ensures Collapse(s) == [s[0]] + Collapse(s[1..])
  {
  }

  /** A run of one separator is dropped as that one character. */
  lemma SingleSeparator(s: string)
    requires s != [] && IsSeparator(s[0])
    requires |s| == 1 || !IsSeparator(s[1])
    ensures DropSeparators(s) == s[1..]
  {
  }

  /** Among slug characters only the hyphen is a separator. */
  lemma SlugCharSeparator(c: char)
    requires SlugChar(c)
    ensures IsSeparator(c) <==> c == '-'
  {
  }

  /** A slug has no hyphen to trim. */
  lemma TrimOfSlug(s: string)
    requires IsSlug(s)
    ensures TrimHyphens(s) == s
  {
  }

  /** `slugify` leaves a slug alone. */
  lemma SlugifyOfSlug(s: string)
    requires IsSlug(s)
    ensures Slugify(s) == s
  {
    LowerOfSlug(s);
    assert KeepSlugChars(s) == s by {
      assert forall k :: 0 <= k < |s| ==> Kept(s[k]);
    }
    CollapseOfSlug(s);
    TrimOfSlug(s);
  }

  /** `slugify` is idempotent. */
  lemma SlugifyIdempotent(text: string)
    ensures Slugify(Slugify(text)) == Slugify(text)
  {
    SlugifyOfSlug(Slugify(text));
  }

  // ----------------------------------------------------- words to slug

  /** A word already in slug form: non-empty, letters a-z and digits only. */
  predicate SlugWord(w: string) {
    w != [] && forall k :: 0 <= k < |w| ==> IsLower(w[k]) || IsDigit(w[k])
  }

  /** Lower-casing leaves a string alone when no character of it changes. */
  lemma {:induction false} LowerUnchanged(s: string)
    requires forall k :: 0 <= k < |s| ==> !IsUpper(s[k]) && s[k] != 'İ' && s[k] != 'K'
    ensures Lower(s) == s
  {
    if s != [] {
      assert forall k :: 0 <= k < |s| - 1 ==> s[1..][k] == s[k + 1];
      LowerUnchanged(s[1..]);
      assert LowerChar(s[0]) == [s[0]];
    }
  }

  /** The left-to-right scan copies a prefix without separators. */
  lemma {:induction false} RunsWord(x: string, y: string)
    requires forall k :: 0 <= k < |x| ==> !IsSeparator(x[k])
    ensures CollapseRuns(x + y, false) == x + CollapseRuns(y, false)
  {
    if x != [] {
      assert (x + y)[0] == x[0] && (x + y)[1..] == x[1..] + y;
      RunsWord(x[1..], y);
      assert x == [x[0]] + x[1..];
    } else {
      assert x + y == y;
    }
  }

  /** The first and last characters of a join of non-empty words. */
  lemma {:induction false} JoinEnds(ws: seq<string>, sep: string)
    requires ws != [] && forall i :: 0 <= i < |ws| ==> ws[i] != []
    ensures |Join(ws, sep)| > 0
    ensures Join(ws, sep)[0] == ws[0][0]
    ensures Join(ws, sep)[|Join(ws, sep)| - 1] == ws[|ws| - 1][|ws[|ws| - 1]| - 1]
  {
    if |ws| > 1 {
      var rest := ws[1..];
      assert rest[0] == ws[1] && rest[|rest| - 1] == ws[|ws| - 1];
      JoinEnds(rest, sep);
      var j, tail := Join(ws, sep), Join(rest, sep);
      assert j == ws[0] + sep + tail;
      assert j[0] == ws[0][0];
      assert j[|j| - 1] == tail[|tail| - 1];
    }
  }

  /** Words in slug form joined by spaces contain only a-z, 0-9 and
      spaces. */
  lemma {:induction false} JoinSpacedChars(ws: seq<string>)
    requires forall i :: 0 <= i < |ws| ==> SlugWord(ws[i])
    ensures forall k :: 0 <= k < |Join(ws, " ")| ==>
      IsLower(Join(ws, " ")[k]) || IsDigit(Join(ws, " ")[k]) || Join(ws, " ")[k] == ' '
  {
    if |ws| > 1 {
      JoinSpacedChars(ws[1..]);
      var rest := Join(ws[1..], " ");
      var j := Join(ws, " ");
      assert j == ws[0] + " " + rest;
      forall k | 0 <= k < |j|
        ensures IsLower(j[k]) || IsDigit(j[k]) || j[k] == ' '
      {
        if k > |ws[0]| {
          assert j[k] == rest[k - |ws[0]| - 1];
        }
      }
    }
  }

  /** A slug word has no separator. */
  lemma SlugWordNoSeparator(w: string)
    requires SlugWord(w)
    ensures forall k :: 0 <= k < |w| ==> !IsSeparator(w[k])
  {
  }

  /** Collapsing words joined by single spaces joins them by hyphens. */
  lemma CollapseSpaced(ws: seq<string>)
    requires ws != [] && forall i :: 0 <= i < |ws| ==> SlugWord(ws[i])
    ensures Collapse(Join(ws, " ")) == Join(ws, "-")
  {
    CollapseByRuns(Join(ws, " "));
    RunsSpaced(ws);
  }

  /** The left-to-right scan over words joined by single spaces writes
      them joined by hyphens. */
  lemma {:induction false} RunsSpaced(ws: seq<string>)
    requires ws != [] && forall i :: 0 <= i < |ws| ==> SlugWord(ws[i])
    ensures CollapseRuns(Join(ws, " "), false) == Join(ws, "-")
  {
    var w := ws[0];
    SlugWordNoSeparator(w);
    if |ws| == 1 {
      RunsWord(w, []);
      assert w + [] == w;
    } else {
      var tail := ws[1..];
      assert forall i :: 0 <= i < |tail| ==> tail[i] == ws[i + 1];
      var rest := Join(tail, " ");
      RunsSpaced(tail);
      JoinEnds(tail, " ");
      SlugWordNoSeparator(tail[0]);
      assert Join(ws, " ") == w + (" " + rest);
      assert Join(ws, "-") == w + ("-" + Join(tail, "-"));
      RunsSpaceStep(w, rest);
    }
  }

  /** A word, one space and a text starting with no separator: the scan
      copies the word and writes one hyphen for the space. */
  lemma RunsSpaceStep(w: string, rest: string)
    requires forall k :: 0 <= k < |w| ==> !IsSeparator(w[k])
    requires rest != [] && !IsSeparator(rest[0])
    ensures CollapseRuns(w + (" " + rest), false) == w + ("-" + CollapseRuns(rest, false))
  {
    RunsWord(w, " " + rest);
    assert (" " + rest)[1..] == rest;
    assert CollapseRuns(" " + rest, false) == "-" + CollapseRuns(rest, true);
  }

  /** Lower-case words of letters and digits, separated by single spaces,
      slugify to the same words separated by hyphens: each character is
      kept, each space becomes one hyphen, and nothing is trimmed. */
  lemma SlugifyWords(ws: seq<string>)
    requires ws != [] && forall i :: 0 <= i < |ws| ==> SlugWord(ws[i])
    ensures Slugify(Join(ws, " ")) == Join(ws, "-")
  {
    SpacedWordsUnchanged(ws);
    CollapseSpaced(ws);
    HyphenatedUntrimmed(ws);
  }

  /** Words in slug form joined by spaces survive lower-casing and the
      deletion step unchanged. */
  lemma SpacedWordsUnchanged(ws: seq<string>)
    requires forall i :: 0 <= i < |ws| ==> SlugWord(ws[i])
    ensures Lower(Join(ws, " ")) == Join(ws, " ") && KeepSlugChars(Join(ws, " ")) == Join(ws, " ")
  {
    JoinSpacedChars(ws);
    SpacedUnchanged(Join(ws, " "));
  }

  /** Words in slug form joined by hyphens have no hyphen to trim. */
  lemma HyphenatedUntrimmed(ws: seq<string>)
    requires ws != [] && forall i :: 0 <= i < |ws| ==> SlugWord(ws[i])
    ensures Join(ws, "-") != [] && TrimHyphens(Join(ws, "-")) == Join(ws, "-")
  {
    JoinEnds(ws, "-");
    TrimUnchanged(Join(ws, "-"));
  }

  /** Lower-casing and the deletion step leave a string of a-z, 0-9 and
      spaces alone. */
  lemma SpacedUnchanged(j: string)
    requires forall k :: 0 <= k < |j| ==> IsLower(j[k]) || IsDigit(j[k]) || j[k] == ' '
    ensures Lower(j) == j && KeepSlugChars(j) == j
  {
    assert KeepSlugChars(j) == j by {
      assert forall k :: 0 <= k < |j| ==> Kept(j[k]);
    }
    LowerUnchanged(j);
  }

  /** A string that neither starts nor ends with a hyphen is not trimmed. */
  lemma TrimUnchanged(s: string)
    requires s != [] && s[0] != '-' && s[|s| - 1] != '-'
    ensures TrimHyphens(s) == s
  {
    assert TrimHyphenStart(s) == s;
  }

  // -------------------------------------------------------- uniqueSlug

  /** The `n`th slug `uniqueSlug` tries: the base itself, then `base-2`,
      `base-3`, ... */
  function Candidate(base: string, n: nat): (slug: string)
    ensures n == 0 ==> slug == base
    ensures n > 0 ==> slug == base + "-" + NatToString(n + 1)
  {
    if n == 0 then base else base + "-" + NatToString(n + 1)
  }

  /** Different attempts try different slugs. */
  lemma CandidateInjective(base: string, m: nat, n: nat)
    requires Candidate(base, m) == Candidate(base, n)
    ensures m == n
  {
    var a, b := Candidate(base, m), Candidate(base, n);
    if m > 0 && n > 0 {
      assert a[|base| + 1..] == NatToString(m + 1);
      assert b[|base| + 1..] == NatToString(n + 1);
      NatToStringInjective(m + 1, n + 1);
    }
  }

  /** Every slug tried from a slug base is itself a slug. */
  lemma CandidateIsSlug(base: string, n: nat)
    requires IsSlug(base)
    ensures IsSlug(Candidate(base, n))
  {
    if n > 0 {
      var s := Candidate(base, n);
      var d := NatToString(n + 1);
      assert forall k :: |base| < k < |s| ==> s[k] == d[k - |base| - 1];
    }
  }

  /** The first `n` attempts. */
  ghost function Tried(base: string, n: nat): set<string> {
    set j | 0 <= j < n :: Candidate(base, j)
  }

  lemma {:induction false} TriedSize(base: string, n: nat)
    ensures |Tried(base, n)| == n
  {
    if n > 0 {
      TriedSize(base, n - 1);
      TriedSnoc(base, n - 1);
      if Candidate(base, n - 1) in Tried(base, n - 1) {
        var j :| 0 <= j < n - 1 && Candidate(base, j) == Candidate(base, n - 1);
        CandidateInjective(base, j, n - 1);
      }
    }
  }

  lemma TriedSnoc(base: string, n: nat)
    ensures Tried(base, n + 1) == Tried(base, n) + {Candidate(base, n)}
  {
    forall x | x in Tried(base, n + 1)
      ensures x in Tried(base, n) + {Candidate(base, n)}
    {
      var j :| 0 <= j < n + 1 && x == Candidate(base, j);
      if j < n {
        assert x in Tried(base, n);
      }
    }
  }

  /** `slug` is the first attempt from `base` that is not taken: every
      earlier attempt is. */
  ghost predicate IsFirstFree(base: string, taken: set<string>, slug: string) {
    slug !in taken
    && exists n: nat :: slug == Candidate(base, n) && forall j :: 0 <= j < n ==> Candidate(base, j) in taken
  }

  /** `uniqueSlug(name)` against the set of slugs already taken: the first
      of `base`, `base-2`, `base-3`, ... that is free. The loop ends because
      each attempt is a different slug and only finitely many are taken. */
  method UniqueSlug(name: string, taken: set<string>) returns (slug: string)
    ensures slug !in taken
    ensures IsSlug(slug)
    ensures IsFirstFree(Slugify(name), taken, slug)
    ensures Slugify(name) !in taken ==> slug == Slugify(name)
  {
    var base := Slugify(name);
    var n;
    slug, n := FirstFree(base, taken);
    CandidateIsSlug(base, n);
    if n > 0 {
      assert Candidate(base, 0) in taken;
    }
  }

  /** The probing loop of `uniqueSlug`: try `base`, then `base-2`,
      `base-3`, ... until one is free; `n` counts the attempts found taken. */
  method FirstFree(base: string, taken: set<string>) returns (slug: string, n: nat)
    ensures slug !in taken
    ensures slug == Candidate(base, n)
    ensures forall j :: 0 <= j < n ==> Candidate(base, j) in taken
  {
    slug := base;
    var i := 2;
    while slug in taken
      invariant i >= 2 && slug == Candidate(base, i - 2)
      invariant forall j :: 0 <= j < i - 2 ==> Candidate(base, j) in taken
      decreases |taken| - (i - 2)
    {
      NextAttempt(base, i - 2, taken);
      slug := base + "-" + NatToString(i);
      i := i + 1;
    }
    n := i - 2;
  }

  /** One more attempt found taken: the first `n + 1` attempts all are, so
      at least `n + 1` slugs are taken. */
  lemma NextAttempt(base: string, n: nat, taken: set<string>)
    requires forall j :: 0 <= j < n ==> Candidate(base, j) in taken
    requires Candidate(base, n) in taken
    ensures forall j :: 0 <= j < n + 1 ==> Candidate(base, j) in taken
    ensures |taken| >= n + 1
  {
    TriedTaken(base, n + 1, taken);
  }

  /** When the first `n` attempts are all taken, at least `n` slugs are. */
  lemma TriedTaken(base: string, n: nat, taken: set<string>)
    requires forall j :: 0 <= j < n ==> Candidate(base, j) in taken
    ensures |taken| >= n
  {
    var t := Tried(base, n);
    assert t <= taken by {
      forall x | x in t
        ensures x in taken
      {
        var j :| 0 <= j < n && x == Candidate(base, j);
      }
    }
    TriedSize(base, n);
    assert taken == t + (taken - t);
  }
}
