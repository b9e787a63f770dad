/** Heading anchors of a Markdown document: every heading gets one of its own. */
module DocumentAnchors {
  import opened Prelude
  import opened DocumentFences
  import opened FenceLines
  import Decimal
  import Pigeonhole

  /** The name tried after `k` collisions. */
  function Candidate(base: string, k: nat): string {
    if k == 0 then base else base + "-" + Decimal.Print(k)
  }

  lemma CandidatesAreDistinct(base: string, j: nat, k: nat)
    requires Candidate(base, j) == Candidate(base, k)
    ensures j == k
  {
    if j > 0 && k > 0 {
      assert Candidate(base, j)[|base| + 1..] == Decimal.Print(j);
      assert Candidate(base, k)[|base| + 1..] == Decimal.Print(k);
      Decimal.PrintIsInjective(j, k);
    }
  }

  /** As many names as have been tried are taken, so trying ends before the anchors run out. */
  lemma TakenNamesAreFew(base: string, anchors: set<string>, k: nat)
    requires forall j | 0 <= j < k :: Candidate(base, j) in anchors
    ensures k <= |anchors|
  {
    hide Candidate;
    var tried := seq(k, j requires 0 <= j < k => Candidate(base, j));
    if k > |anchors| {
      var i, j := Pigeonhole.Repeats(tried, anchors);
      CandidatesAreDistinct(base, i, j);
    }
  }

  /** `k` collisions, and then a free name. */
  ghost predicate FirstFree(base: string, anchors: set<string>, k: nat) {
    Candidate(base, k) !in anchors && forall j | 0 <= j < k :: Candidate(base, j) in anchors
  }

  method FreshAnchor(base: string, anchors: set<string>) returns (candidate: string)
    ensures candidate !in anchors
    ensures exists k: nat :: k <= |anchors| && FirstFree(base, anchors, k) && candidate == Candidate(base, k)
  {
    hide Candidate;
    assert base == Candidate(base, 0) by { FirstCandidate(base); }
    candidate := base;
    var suffix := 1;
    while candidate in anchors
      invariant suffix >= 1 && candidate == Candidate(base, suffix - 1)
      invariant forall j | 0 <= j < suffix - 1 :: Candidate(base, j) in anchors
      decreases |anchors| - suffix
    {
      TakenNamesAreFew(base, anchors, suffix);
      LaterCandidate(base, suffix);
      candidate := base + "-" + Decimal.Print(suffix);
      suffix := suffix + 1;
    }
    TakenNamesAreFew(base, anchors, suffix - 1);
    assert FirstFree(base, anchors, suffix - 1);
  }

  lemma FirstCandidate(base: string)
    ensures Candidate(base, 0) == base
  {
  }

  lemma LaterCandidate(base: string, k: nat)
    requires k > 0
    ensures Candidate(base, k) == base + "-" + Decimal.Print(k)
  {
  }

  /** Slugs of the headings outside fences, in order; `slug` gives "" for a line that is no heading or has no slug. */
  function Slugs(lines: seq<string>, slug: string -> string): seq<string> {
    if lines == [] then []
    else
      var before, line := lines[..|lines| - 1], lines[|lines| - 1];
      Slugs(before, slug)
      + if FenceAfter(before).Closed? && FenceMatch(line).None? && slug(line) != "" then [slug(line)] else []
  }

  lemma SlugsOneMore(lines: seq<string>, i: nat, slug: string -> string)
    requires i < |lines|
    ensures Slugs(lines[..i + 1], slug) ==
      if FenceAfter(lines[..i]).Closed? && FenceMatch(lines[i]).None? && slug(lines[i]) != ""
      then Slugs(lines[..i], slug) + [slug(lines[i])] else Slugs(lines[..i], slug)
  {
    assert lines[..i + 1][..i] == lines[..i] && lines[..i + 1][i] == lines[i];
  }

  function Taken(names: seq<string>): set<string> {
    set n | n in names
  }

  ghost predicate Distinct(names: seq<string>) {
    forall i, j | 0 <= i < j < |names| :: names[i] != names[j]
  }

  /** `name` is the first form of the slug that no earlier name has taken. */
  ghost predicate Named(slug: string, name: string, earlier: seq<string>) {
    exists k :: FirstFree(slug, Taken(earlier), k) && name == Candidate(slug, k)
  }

  /** Names given to slugs in order: each is the first form of its slug that no earlier one has taken. */
  ghost predicate Assigns(slugs: seq<string>, names: seq<string>) {
    && |names| == |slugs|
    && forall i {:trigger names[i]} | 0 <= i < |slugs| :: Named(slugs[i], names[i], names[..i])
  }

  method DocumentAnchors(lines: seq<string>, slug: string -> string)
    returns (anchors: set<string>, inFence: bool, character: string, width: nat, ghost names: seq<string>)
    ensures Tracks(inFence, character, width, FenceAfter(lines))
    ensures Assigns(Slugs(lines, slug), names)
    ensures anchors == Taken(names)
  {
    hide FenceMatch, FirstFree, Candidate, Named, Assigns, Blank;
    assert Assigns([], []) by { NothingAssigned(); }
    anchors, inFence, character, width, names := {}, false, "", 0, [];
    var i := 0;
    while i < |lines|
      invariant 0 <= i <= |lines|
      invariant Tracks(inFence, character, width, FenceAfter(lines[..i]))
      invariant Assigns(Slugs(lines[..i], slug), names)
      invariant anchors == Taken(names)
    {
      var line := lines[i];
      assert lines[..i + 1][..i] == lines[..i] && lines[..i + 1][i] == line;
      SlugsOneMore(lines, i, slug);
      var fenceMatch := FenceMatch(line);
      if fenceMatch.Some? {
        var marker := fenceMatch.value;
        if !inFence {
          inFence, character, width := true, [marker.character], marker.width;
        } else if [marker.character] == character && marker.width >= width && Blank(marker.info) {
          inFence := false;
        }
      } else if !inFence {
        var base := slug(line);
        if base != "" {
          var candidate := FreshAnchor(base, anchors);
          ghost var k: nat :| k <= |anchors| && FirstFree(base, anchors, k) && candidate == Candidate(base, k);
          AssignsOneMore(Slugs(lines[..i], slug), names, base, k);
          anchors := anchors + {candidate};
          names := names + [candidate];
        }
      }
      i := i + 1;
    }
    assert lines[..i] == lines;
  }

  lemma NothingAssigned()
    ensures Assigns([], [])
  {
  }

  lemma AssignsOneMore(slugs: seq<string>, names: seq<string>, slug: string, k: nat)
    requires Assigns(slugs, names) && FirstFree(slug, Taken(names), k)
    ensures Assigns(slugs + [slug], names + [Candidate(slug, k)])
  {
    assert Named(slug, Candidate(slug, k), names);
    hide FirstFree, Candidate, Named;
    var more, all := names + [Candidate(slug, k)], slugs + [slug];
    forall i | 0 <= i < |all|
      ensures Named(all[i], more[i], more[..i])
    {
      assert more[..i] == names[..i];
      if i == |slugs| {
        assert names[..i] == names;
        assert Named(slug, more[i], names);
      } else {
        assert names[i] == more[i] && slugs[i] == all[i];
      }
    }
  }

  /** No two headings share an anchor, every anchor starts with its heading's slug, and the set has one for each. */
  lemma HeadingsKeepTheirAnchors(slugs: seq<string>, names: seq<string>)
    requires Assigns(slugs, names)
    ensures Distinct(names)
    ensures |Taken(names)| == |slugs|
    ensures forall i | 0 <= i < |slugs| :: slugs[i] <= names[i]
  {
    forall i, j | 0 <= i < j < |names| ensures names[i] != names[j] {
      assert Named(slugs[j], names[j], names[..j]);
      var k :| FirstFree(slugs[j], Taken(names[..j]), k) && names[j] == Candidate(slugs[j], k);
      assert names[..j][i] == names[i];
    }
    forall i | 0 <= i < |slugs| ensures slugs[i] <= names[i] {
      assert Named(slugs[i], names[i], names[..i]);
      var k :| FirstFree(slugs[i], Taken(names[..i]), k) && names[i] == Candidate(slugs[i], k);
    }
    DistinctSize(names);
  }

  lemma {:induction false} DistinctSize(names: seq<string>)
    requires Distinct(names)
    ensures |Taken(names)| == |names|
  {
    if names != [] {
      var last := |names| - 1;
      DistinctSize(names[..last]);
      assert Taken(names) == Taken(names[..last]) + {names[last]} by {
        assert names == names[..last] + [names[last]];
      }
    }
  }

  /** The names are determined, so a document has one set of anchors. */
  lemma {:induction false} AssignmentIsUnique(slugs: seq<string>, a: seq<string>, b: seq<string>)
    requires Assigns(slugs, a) && Assigns(slugs, b)
    ensures a == b
    decreases slugs
  {
    if slugs != [] {
      var last := |slugs| - 1;
      AssignsFewer(slugs, a);
      AssignsFewer(slugs, b);
      AssignmentIsUnique(slugs[..last], a[..last], b[..last]);
      var taken := Taken(a[..last]);
      assert Named(slugs[last], a[last], a[..last]) && Named(slugs[last], b[last], b[..last]);
      var j :| FirstFree(slugs[last], taken, j) && a[last] == Candidate(slugs[last], j);
      var k :| FirstFree(slugs[last], taken, k) && b[last] == Candidate(slugs[last], k);
      assert j == k;
      assert a == a[..last] + [a[last]] && b == b[..last] + [b[last]];
    }
  }

  lemma AssignsFewer(slugs: seq<string>, names: seq<string>)
    requires Assigns(slugs, names) && slugs != []
    ensures Assigns(slugs[..|slugs| - 1], names[..|slugs| - 1])
  {
    hide Named;
    var fewer := names[..|slugs| - 1];
    forall i | 0 <= i < |fewer|
      ensures Named(slugs[i], fewer[i], fewer[..i])
    {
      assert fewer[..i] == names[..i] && fewer[i] == names[i];
    }
  }

  /** The headings of a document are prose lines, and each that has a slug gives it, in the order of the lines. */
  function SlugsAt(lines: seq<string>, numbers: seq<nat>, slug: string -> string): seq<string> {
    if numbers == [] then []
    else
      var n := numbers[|numbers| - 1];
      SlugsAt(lines, numbers[..|numbers| - 1], slug)
      + if 0 < n <= |lines| && slug(lines[n - 1]) != "" then [slug(lines[n - 1])] else []
  }

  lemma {:induction false} SlugsAtMoreLines(lines: seq<string>, line: string, numbers: seq<nat>, slug: string -> string)
    requires forall n | n in numbers :: n <= |lines|
    ensures SlugsAt(lines + [line], numbers, slug) == SlugsAt(lines, numbers, slug)
  {
    if numbers != [] {
      var fewer, last := numbers[..|numbers| - 1], numbers[|numbers| - 1];
      assert last in numbers && forall n | n in fewer :: n in numbers;
      SlugsAtMoreLines(lines, line, fewer, slug);
    }
  }

  lemma {:induction false} SlugsAreOfProse(lines: seq<string>, slug: string -> string)
    ensures Slugs(lines, slug) == SlugsAt(lines, ProseLines(lines), slug)
  {
    hide FenceMatch, FenceAfter;
    if lines != [] {
      var before, line := lines[..|lines| - 1], lines[|lines| - 1];
      SlugsAreOfProse(before, slug);
      forall n | n in ProseLines(before) ensures n <= |before| { ProseLinesAre(before, n); }
      assert lines == before + [line];
      SlugsAtMoreLines(before, line, ProseLines(before), slug);
      var now := ProseLines(before) + [|lines|];
      assert now[..|now| - 1] == ProseLines(before);
      assert ProseLines(before) + [] == ProseLines(before);
      assert SlugsAt(lines, ProseLines(before), slug) == Slugs(before, slug);
      if FenceAfter(before).Closed? && FenceMatch(line).None? {
        assert ProseLines(lines) == now;
        assert SlugsAt(lines, now, slug) == Slugs(before, slug) + if slug(line) != "" then [slug(line)] else [];
      } else {
        assert ProseLines(lines) == ProseLines(before);
        assert Slugs(lines, slug) == Slugs(before, slug);
      }
    }
  }

  /** `name` is the slug if no earlier name is, and otherwise the slug, a hyphen and the least number that gives none. */
  ghost predicate LeastFree(slug: string, name: string, earlier: seq<string>, k: nat) {
    if k == 0 then name == slug && slug !in earlier
    else
      && name == slug + "-" + Decimal.Print(k) && name !in earlier && slug in earlier
      && forall j: nat | 0 < j < k :: slug + "-" + Decimal.Print(j) in earlier
  }

  ghost predicate LeastName(slug: string, name: string, earlier: seq<string>) {
    exists k: nat :: LeastFree(slug, name, earlier, k)
  }

  lemma NameIs(slug: string, name: string, earlier: seq<string>)
    ensures Named(slug, name, earlier) == LeastName(slug, name, earlier)
  {
    if k: nat :| FirstFree(slug, Taken(earlier), k) && name == Candidate(slug, k) {
      assert k > 0 ==> Candidate(slug, 0) in earlier;
      forall j: nat | 0 < j < k ensures slug + "-" + Decimal.Print(j) in earlier {
        assert Candidate(slug, j) in Taken(earlier);
      }
      assert LeastFree(slug, name, earlier, k);
    }
    if k: nat :| LeastFree(slug, name, earlier, k) {
      assert FirstFree(slug, Taken(earlier), k) && name == Candidate(slug, k);
    }
  }

  /** What the headings are called, in terms of their slugs and the names before them. */
  lemma NamesAre(slugs: seq<string>, names: seq<string>)
    ensures Assigns(slugs, names) <==>
      |names| == |slugs| && forall i {:trigger names[i]} | 0 <= i < |slugs| :: LeastName(slugs[i], names[i], names[..i])
  {
    hide Named, LeastName;
    if |names| == |slugs| {
      forall i | 0 <= i < |slugs| ensures Named(slugs[i], names[i], names[..i]) == LeastName(slugs[i], names[i], names[..i]) {
        NameIs(slugs[i], names[i], names[..i]);
      }
    }
  }

  /** The fence variables of the three checkers, run on the same lines, so after every line of a document: they agree. */
  method FollowFences(lines: seq<string>, slug: string -> string, count: string -> nat)
    returns (anchors: (bool, string, nat), editions: (bool, string, nat), scan: (Option<char>, nat))
    ensures anchors.0 == editions.0 == scan.0.Some? == FenceAfter(lines).Open?
    ensures scan.0.Some? ==> anchors.1 == editions.1 == [scan.0.value] && anchors.2 == editions.2 == scan.1
  {
    var found, inFence, character, width, names := DocumentAnchors(lines, slug);
    anchors := (inFence, character, width);
    var foreign;
    ghost var prose;
    foreign, inFence, character, width, prose := ValidateLanguageEditions(lines, count);
    editions := (inFence, character, width);
    var scanCharacter, scanWidth, openedAt, scanned, mixed, unclosed := ScanDocument(lines);
    scan := (scanCharacter, scanWidth);
  }
}
