/** The dashboard sidebar's two rules: the avatar initials made from the
    signed-in user's name, and which navigation link is highlighted for the
    current path. */
module Sidebar {
  import opened Optional
  import opened Text

  // ------------------------------------------------------------ initials

  /** `n[0]` as it lands in a joined string: the first character, or
      nothing for an empty word (whose `undefined` joins as ""). */
  function Head(w: string): string {
    if w == [] then "" else [w[0]]
  }

  /** `.map(n => n[0]).join("")`. */
  function Heads(words: seq<string>): (h: string)
    ensures |h| <= |words|
  {
    if words == [] then "" else Head(words[0]) + Heads(words[1..])
  }

  /** The avatar initials: "U" without a name, otherwise the first letter
      of each space-separated word, upper-cased, at most two of them. */
  function Initials(name: Option<string>): (initials: string)
    ensures |initials| <= 2
    ensures name.None? || name.value == [] ==> initials == "U"
  {
    if name.None? || name.value == [] then "U"
    else
      var letters := UpperAscii(Heads(Split(name.value, ' ')));
      if |letters| <= 2 then letters else letters[..2]
  }

  /** The words of a name: the pieces between spaces that are not empty. */
  function Words(name: string): seq<string> {
    NonEmpty(Split(name, ' '))
  }

  /** Empty pieces contribute nothing to the joined first letters. */
  lemma {:induction false} HeadsSkipEmpty(parts: seq<string>)
    ensures Heads(parts) == Heads(NonEmpty(parts))
  {
    if parts != [] {
      HeadsSkipEmpty(parts[1..]);
      if parts[0] != [] {
        var kept := [parts[0]] + NonEmpty(parts[1..]);
        assert kept[1..] == NonEmpty(parts[1..]);
      }
    }
  }

  /** For non-empty words the joined first letters are exactly one letter
      per word, in order. */
  lemma {:induction false} HeadsOfWords(words: seq<string>)
    requires forall k :: 0 <= k < |words| ==> words[k] != []
    ensures |Heads(words)| == |words|
    ensures forall k :: 0 <= k < |words| ==> Heads(words)[k] == words[k][0]
  {
    if words != [] {
      HeadsOfWords(words[1..]);
      var h := Heads(words);
      assert h == [words[0][0]] + Heads(words[1..]);
      forall k | 1 <= k < |words|
        ensures h[k] == words[k][0]
      {
        assert h[k] == Heads(words[1..])[k - 1];
        assert words[1..][k - 1] == words[k];
      }
    }
  }

  /** For a non-empty name the initials are the upper-cased first letters
      of its first two words, in order; a name of spaces alone gets none. */
  lemma InitialsOfWords(name: string)
    requires name != []
    ensures |Initials(Some(name))| == if |Words(name)| < 2 then |Words(name)| else 2
    ensures forall k :: 0 <= k < |Initials(Some(name))| ==>
      Initials(Some(name))[k] == ToUpperAscii(Words(name)[k][0])
    ensures Initials(Some(name)) == [] <==> Words(name) == []
  {
    var parts := Split(name, ' ');
    HeadsSkipEmpty(parts);
    HeadsOfWords(Words(name));
  }

  // --------------------------------------------------------- active link

  datatype NavItem = NavItem(title: string, href: string)

  /** The navigation entries, in menu order. */
  const NavItems: seq<NavItem> := [
    NavItem("Overview", "/dashboard"),
    NavItem("Tournaments", "/dashboard/tournaments"),
    NavItem("Teams", "/dashboard/teams"),
    NavItem("Players", "/dashboard/players"),
    NavItem("Fixtures", "/dashboard/fixtures"),
    NavItem("Standings", "/dashboard/standings")
  ]

  /** The dashboard home link is active on its exact path only; every other
      link is active on any path that starts with its href. */
  predicate IsActive(href: string, pathname: string) {
    if href == "/dashboard" then pathname == "/dashboard" else StartsWith(pathname, href)
  }

  /** Each link is active on its own page, and every link but the home one
      stays active on the pages below it. */
  lemma ActiveOnOwnPages(k: nat, rest: string)
    requires k < |NavItems|
    ensures IsActive(NavItems[k].href, NavItems[k].href)
    ensures k > 0 ==> IsActive(NavItems[k].href, NavItems[k].href + rest)
    ensures k == 0 && rest != [] ==> !IsActive(NavItems[k].href, NavItems[k].href + rest)
  {
    var h := NavItems[k].href;
    assert (h + rest)[..|h|] == h;
    assert h[..|h|] == h;
    if k == 0 && rest != [] {
      assert |h + rest| > |h|;
    }
  }

  /** Whatever the path, at most one link is highlighted. */
  lemma AtMostOneActive(pathname: string, i: nat, j: nat)
    requires i < |NavItems| && j < |NavItems|
    requires IsActive(NavItems[i].href, pathname) && IsActive(NavItems[j].href, pathname)
    ensures i == j
  {
    var a := NavItems[i].href;
    var b := NavItems[j].href;
    if i == 0 || j == 0 {
      assert pathname == "/dashboard";
      assert |a| == |"/dashboard"| && |b| == |"/dashboard"|;
    } else {
      assert |a| >= 13 && |b| >= 13 && |pathname| >= 13;
      assert a[11] == pathname[11] == b[11];
      assert a[12] == pathname[12] == b[12];
    }
  }
}
