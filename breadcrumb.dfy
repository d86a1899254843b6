/** The dashboard breadcrumb: the pathname is cut into segments, each
    segment becomes a crumb linking to the path up to and including it, a
    leading `dashboard` segment is hidden unless it is the whole path, and
    an empty trail falls back to a single "Overview" crumb. */
module Breadcrumb {
  import opened Optional
  import opened Text

  datatype Crumb = Crumb(title: string, href: string, isLast: bool)

  /** The fixed label table for the known segments. */
  const SegmentLabels: map<string, string> := map[
    "dashboard" := "Dashboard",
    "tournaments" := "Tournaments",
    "teams" := "Teams",
    "players" := "Players",
    "fixtures" := "Fixtures",
    "standings" := "Standings",
    "new" := "New Tournament"
  ]

  /** `SEGMENT_LABELS[seg]`, absent for a segment the table lacks. */
  function KnownLabel(seg: string): Option<string> {
    if seg in SegmentLabels then Some(SegmentLabels[seg]) else None
  }

  // ------------------------------------------------------------ segments

  /** The path's segments: the pieces between slashes, empty ones dropped. */
  function Segments(pathname: string): (segs: seq<string>)
    ensures forall s :: s in segs ==> s != [] && '/' !in s
    ensures forall s :: s in Split(pathname, '/') && s != [] ==> s in segs
  {
    NonEmpty(Split(pathname, '/'))
  }

  /** A piece without separators splits into itself alone. */
  lemma {:induction false} SplitPlain(a: string, sep: char)
    requires sep !in a
    ensures Split(a, sep) == [a]
  {
    if a != [] {
      assert forall c :: c in a[1..] ==> c in a;
      SplitPlain(a[1..], sep);
      assert [a[0]] + a[1..] == a;
    }
  }

  /** Splitting at the first separator. */
  lemma {:induction false} SplitAt(a: string, b: string, sep: char)
    requires sep !in a
    ensures Split(a + [sep] + b, sep) == [a] + Split(b, sep)
  {
    var s := a + [sep] + b;
    if a == [] {
      assert s[1..] == b;
    } else {
      assert s[1..] == a[1..] + [sep] + b;
      SplitAt(a[1..], b, sep);
      assert [s[0]] + a[1..] == a;
    }
  }

  /** Splitting what was joined with a separator none of the parts holds
      gives the parts back. */
  lemma {:induction false} SplitJoin(parts: seq<string>, sep: char)
    requires parts != []
    requires forall p :: p in parts ==> sep !in p
    ensures Split(Join(parts, [sep]), sep) == parts
  {
    if |parts| == 1 {
      SplitPlain(parts[0], sep);
    } else {
      SplitJoin(parts[1..], sep);
      SplitAt(parts[0], Join(parts[1..], [sep]), sep);
      assert [parts[0]] + parts[1..] == parts;
    }
  }

  /** Segments read back exactly from the canonical path built from them. */
  lemma SegmentsRoundTrip(segs: seq<string>)
    requires forall s :: s in segs ==> s != [] && '/' !in s
    ensures Segments("/" + Join(segs, "/")) == segs
  {
    var path := "/" + Join(segs, "/");
    if segs == [] {
      assert path == [] + ['/'] + [];
      SplitAt([], [], '/');
      assert Split(path, '/') == ["", ""];
      assert NonEmpty(["", ""]) == NonEmpty([""]);
    } else {
      assert path == [] + ['/'] + Join(segs, "/");
      SplitAt([], Join(segs, "/"), '/');
      SplitJoin(segs, '/');
      NonEmptyKeeps(segs);
    }
  }

  // -------------------------------------------------------------- labels

  /** The first character upper-cased, the rest unchanged. */
  function Capitalize(seg: string): (c: string)
    ensures |c| == |seg|
    ensures seg != [] ==> c[0] == ToUpperAscii(seg[0]) && c[1..] == seg[1..]
  {
    if seg == [] then [] else [ToUpperAscii(seg[0])] + seg[1..]
  }

  /** The label expression as written, with its inner alternatives: the
      second table lookup and the `"New"` branch can never decide. */
  function Label(seg: string): (title: string)
    ensures KnownLabel(seg).Some? ==> title == KnownLabel(seg).value
    ensures KnownLabel(seg).None? && |seg| > 16 ==> title == "Detail"
    ensures KnownLabel(seg).None? && |seg| <= 16 ==> title == Capitalize(seg)
  {
    OrElse(KnownLabel(seg),
      if |seg| > 16 then (if seg == "new" then "New" else "Detail")
      else OrElse(KnownLabel(seg), Capitalize(seg)))
  }

  /** The nullish-coalescing operator `o ?? fallback`. */
  function OrElse(o: Option<string>, fallback: string): string {
    if o.Some? then o.value else fallback
  }

  // -------------------------------------------------------------- crumbs

  /** A segment gets a crumb unless it is a `dashboard` that is not last. */
  predicate Shown(segs: seq<string>, i: int)
    requires 0 <= i < |segs|
  {
    segs[i] != "dashboard" || i == |segs| - 1
  }

  /** The accumulated path after the first `n` segments. */
  function Path(segs: seq<string>, n: nat): string
    requires n <= |segs|
  {
    if n == 0 then "" else Path(segs, n - 1) + "/" + segs[n - 1]
  }

  /** The crumb for segment `i`. */
  function CrumbAt(segs: seq<string>, i: nat): Crumb
    requires i < |segs|
  {
    Crumb(Label(segs[i]), Path(segs, i + 1), i == |segs| - 1)
  }

  /** The crumbs the loop has pushed after its first `n` rounds. */
  function CrumbsUpTo(segs: seq<string>, n: nat): seq<Crumb>
    requires n <= |segs|
  {
    if n == 0 then []
    else CrumbsUpTo(segs, n - 1) + (if Shown(segs, n - 1) then [CrumbAt(segs, n - 1)] else [])
  }

  const Overview := Crumb("Overview", "/dashboard", true)

  /** The breadcrumb trail for a pathname. */
  function Crumbs(pathname: string): seq<Crumb> {
    var segs := Segments(pathname);
    var trail := CrumbsUpTo(segs, |segs|);
    if trail == [] then [Overview] else trail
  }

  /** The component's loop: append `/seg` to the path, skip a non-final
      `dashboard`, push the crumb; then the fallback. */
  method BuildCrumbs(pathname: string) returns (crumbs: seq<Crumb>)
    ensures crumbs == Crumbs(pathname)
  {
    var segments := Segments(pathname);
    crumbs := [];
    var path := "";
    for i := 0 to |segments|
      invariant path == Path(segments, i)
      invariant crumbs == CrumbsUpTo(segments, i)
    {
      var seg := segments[i];
      path := path + "/" + seg;
      var isLast := i == |segments| - 1;
      if seg == "dashboard" && !isLast {
        continue;
      }
      var title := Label(seg);
      crumbs := crumbs + [Crumb(title, path, isLast)];
    }
    if crumbs == [] {
      crumbs := crumbs + [Crumb("Overview", "/dashboard", true)];
    }
  }

  // ---------------------------------------------------------- properties

  lemma {:induction false} JoinSnoc(ps: seq<string>, x: string, sep: string)
    requires ps != []
    ensures Join(ps + [x], sep) == Join(ps, sep) + sep + x
  {
    if |ps| > 1 {
      assert (ps + [x])[1..] == ps[1..] + [x];
      JoinSnoc(ps[1..], x, sep);
    }
  }

  /** The accumulated path is a slash followed by the segments so far
      joined with slashes. */
  lemma {:induction false} PathJoin(segs: seq<string>, n: nat)
    requires 1 <= n <= |segs|
    ensures Path(segs, n) == "/" + Join(segs[..n], "/")
  {
    if n > 1 {
      PathJoin(segs, n - 1);
      assert segs[..n] == segs[..n - 1] + [segs[n - 1]];
      JoinSnoc(segs[..n - 1], segs[n - 1], "/");
    }
  }

  /** Every segment adds to the path, so the paths of different prefixes
      differ in length. */
  lemma {:induction false} PathGrows(segs: seq<string>, i: nat, k: nat)
    requires i < k <= |segs|
    ensures |Path(segs, i)| < |Path(segs, k)|
  {
    if i < k - 1 {
      PathGrows(segs, i, k - 1);
    }
  }

  /** `c` is the crumb of one of the first `n` segments that are shown. */
  ghost predicate FromShown(segs: seq<string>, n: nat, c: Crumb)
    requires n <= |segs|
  {
    exists i: nat :: i < n && Shown(segs, i) && c == CrumbAt(segs, i)
  }

  /** Exactly the shown segments have crumbs. */
  lemma {:induction false} UpToCrumbs(segs: seq<string>, n: nat)
    requires n <= |segs|
    ensures forall j :: 0 <= j < |CrumbsUpTo(segs, n)| ==> FromShown(segs, n, CrumbsUpTo(segs, n)[j])
    ensures forall i :: 0 <= i < n && Shown(segs, i) ==> CrumbAt(segs, i) in CrumbsUpTo(segs, n)
  {
    if n > 0 {
      UpToCrumbs(segs, n - 1);
      var prev := CrumbsUpTo(segs, n - 1);
      var c := CrumbsUpTo(segs, n);
      forall j | 0 <= j < |c|
        ensures FromShown(segs, n, c[j])
      {
        if j < |prev| {
          assert FromShown(segs, n - 1, prev[j]);
          var i: nat :| i < n - 1 && Shown(segs, i) && prev[j] == CrumbAt(segs, i);
          assert c[j] == CrumbAt(segs, i);
        } else {
          assert c[j] == CrumbAt(segs, n - 1);
        }
      }
      forall i | 0 <= i < n && Shown(segs, i)
        ensures CrumbAt(segs, i) in c
      {
        if i < n - 1 {
          assert CrumbAt(segs, i) in prev;
        } else {
          assert c[|c| - 1] == CrumbAt(segs, i);
        }
      }
    }
  }

  /** Before the last round no pushed crumb is marked last. */
  lemma {:induction false} UpToNotLast(segs: seq<string>, n: nat)
    requires n < |segs|
    ensures forall j :: 0 <= j < |CrumbsUpTo(segs, n)| ==> !CrumbsUpTo(segs, n)[j].isLast
  {
    if n > 0 {
      UpToNotLast(segs, n - 1);
      var prev := CrumbsUpTo(segs, n - 1);
      var c := CrumbsUpTo(segs, n);
      forall j | 0 <= j < |c|
        ensures !c[j].isLast
      {
        if j < |prev| {
          assert c[j] == prev[j];
        }
      }
    }
  }

  /** After the last round the trail ends in the final segment's crumb, the
      only one marked last. */
  lemma UpToLast(segs: seq<string>)
    requires segs != []
    ensures CrumbsUpTo(segs, |segs|) != []
    ensures CrumbsUpTo(segs, |segs|)[|CrumbsUpTo(segs, |segs|)| - 1] == CrumbAt(segs, |segs| - 1)
    ensures forall j :: 0 <= j < |CrumbsUpTo(segs, |segs|)| ==>
      (CrumbsUpTo(segs, |segs|)[j].isLast <==> j == |CrumbsUpTo(segs, |segs|)| - 1)
  {
    var n := |segs|;
    UpToNotLast(segs, n - 1);
    var prev := CrumbsUpTo(segs, n - 1);
    var c := CrumbsUpTo(segs, n);
    assert c == prev + [CrumbAt(segs, n - 1)];
    forall j | 0 <= j < |c|
      ensures c[j].isLast <==> j == |c| - 1
    {
      if j < |prev| {
        assert c[j] == prev[j];
      }
    }
  }

  /** The final segment's crumb can never be mistaken for the fallback:
      its href ends in the segment's own last character. */
  lemma NotOverview(segs: seq<string>)
    requires segs != [] && segs[|segs| - 1] != []
    ensures CrumbAt(segs, |segs| - 1) != Overview
  {
    var n := |segs|;
    var seg := segs[n - 1];
    var p := Path(segs, n);
    assert p == Path(segs, n - 1) + "/" + seg;
    assert p[|p| - 1] == seg[|seg| - 1];
    if Label(seg) == "Overview" {
      assert Capitalize(seg) == "Overview";
      assert seg[|seg| - 1] == 'w';
    }
  }

  /** The trail is never empty, and exactly its final crumb is marked last;
      a path without segments gets the single "Overview" crumb. */
  lemma CrumbsShape(pathname: string)
    ensures Crumbs(pathname) != []
    ensures forall j :: 0 <= j < |Crumbs(pathname)| ==>
      (Crumbs(pathname)[j].isLast <==> j == |Crumbs(pathname)| - 1)
    ensures Segments(pathname) == [] <==> Crumbs(pathname) == [Overview]
  {
    var segs := Segments(pathname);
    if segs != [] {
      UpToLast(segs);
      assert segs[|segs| - 1] in segs;
      NotOverview(segs);
    }
  }

  /** Each crumb comes from one shown segment and links to the slash-joined
      segments up to and including it. */
  lemma CrumbHrefs(pathname: string)
    requires Segments(pathname) != []
    ensures forall j :: 0 <= j < |Crumbs(pathname)| ==>
      exists i :: 0 <= i < |Segments(pathname)| && Shown(Segments(pathname), i) &&
        Crumbs(pathname)[j].title == Label(Segments(pathname)[i]) &&
        Crumbs(pathname)[j].href == "/" + Join(Segments(pathname)[..i + 1], "/")
  {
    var segs := Segments(pathname);
    UpToCrumbs(segs, |segs|);
    forall i | 0 <= i < |segs|
      ensures CrumbAt(segs, i).href == "/" + Join(segs[..i + 1], "/")
    {
      PathJoin(segs, i + 1);
    }
  }

  /** A crumb of a shown segment never links to the path ending at a
      non-final `dashboard` segment. */
  lemma HrefNotAt(segs: seq<string>, i: nat, c: Crumb)
    requires i + 1 < |segs| && segs[i] == "dashboard"
    requires FromShown(segs, |segs|, c)
    ensures c.href != Path(segs, i + 1)
  {
    var k: nat :| k < |segs| && Shown(segs, k) && c == CrumbAt(segs, k);
    assert k != i;
    var href := Path(segs, k + 1);
    assert c.href == href;
    if k < i {
      PathGrows(segs, k + 1, i + 1);
    } else {
      PathGrows(segs, i + 1, k + 1);
    }
    assert |href| != |Path(segs, i + 1)|;
  }

  /** No crumb of the trail links to the path ending at a non-final
      `dashboard` segment. */
  lemma SkippedInTrail(segs: seq<string>, i: nat)
    requires i + 1 < |segs| && segs[i] == "dashboard"
    ensures forall c :: c in CrumbsUpTo(segs, |segs|) ==> c.href != Path(segs, i + 1)
  {
    var trail := CrumbsUpTo(segs, |segs|);
    UpToCrumbs(segs, |segs|);
    forall j | 0 <= j < |trail|
      ensures trail[j].href != Path(segs, i + 1)
    {
      HrefNotAt(segs, i, trail[j]);
    }
  }

  /** A `dashboard` segment that is not the last one has no crumb: no crumb
      links to the path ending at it. */
  lemma DashboardSkipped(pathname: string, i: nat)
    requires i + 1 < |Segments(pathname)| && Segments(pathname)[i] == "dashboard"
    ensures forall c :: c in Crumbs(pathname) ==>
      c.href != "/" + Join(Segments(pathname)[..i + 1], "/")
  {
    var segs := Segments(pathname);
    SkippedInTrail(segs, i);
    PathJoin(segs, i + 1);
    UpToLast(segs);
  }

  /** Each shown segment does get its crumb. */
  lemma ShownSegmentsListed(pathname: string, i: nat)
    requires i < |Segments(pathname)| && Shown(Segments(pathname), i)
    ensures Crumb(Label(Segments(pathname)[i]), "/" + Join(Segments(pathname)[..i + 1], "/"),
      i == |Segments(pathname)| - 1) in Crumbs(pathname)
  {
    var segs := Segments(pathname);
    UpToCrumbs(segs, |segs|);
    PathJoin(segs, i + 1);
  }

  /** When the only segment is `dashboard`, the trail is the single crumb
      "Dashboard" rather than the "Overview" fallback. */
  lemma DashboardHome(pathname: string)
    requires Segments(pathname) == ["dashboard"]
    ensures Crumbs(pathname) == [Crumb("Dashboard", "/dashboard", true)]
  {
    var segs := Segments(pathname);
    assert Path(segs, 1) == "/dashboard";
    assert CrumbsUpTo(segs, 1) == [CrumbAt(segs, 0)];
  }

  /** The dashboard home path has the single segment `dashboard`. */
  lemma DashboardHomeSegments()
    ensures Segments("/dashboard") == ["dashboard"]
  {
    SegmentsRoundTrip(["dashboard"]);
    assert "/" + Join(["dashboard"], "/") == "/dashboard";
  }
}
