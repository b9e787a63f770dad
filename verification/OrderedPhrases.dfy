/** The release check that required phrases occur in a text in order, one after the other. */
module OrderedPhrases {
  import opened Text

  /** Where the phrase placed last ends. */
  function End(phrases: seq<string>, positions: seq<nat>): nat
    requires |positions| == |phrases|
  {
    if phrases == [] then 0 else positions[|positions| - 1] + |phrases[|phrases| - 1]|
  }

  /** Occurrences of all phrases, in order and without overlap. */
  predicate Placed(text: string, phrases: seq<string>, positions: seq<nat>) {
    && |positions| == |phrases|
    && (phrases != [] ==>
          var last := |phrases| - 1;
          && Placed(text, phrases[..last], positions[..last])
          && OccursAt(text, phrases[last], positions[last])
          && End(phrases[..last], positions[..last]) <= positions[last])
  }

  ghost predicate CanBePlaced(text: string, phrases: seq<string>) {
    exists positions :: Placed(text, phrases, positions)
  }

  /** What the definition by the last phrase means: every phrase ends before any later one starts. */
  lemma {:induction false} PlacedIsPairwise(text: string, phrases: seq<string>, positions: seq<nat>)
    ensures Placed(text, phrases, positions) <==>
      && |positions| == |phrases|
      && (forall i | 0 <= i < |phrases| :: OccursAt(text, phrases[i], positions[i]))
      && (forall i, j | 0 <= i < j < |phrases| :: positions[i] + |phrases[i]| <= positions[j])
    decreases phrases
  {
    hide OccursAt;
    if |positions| == |phrases| && phrases != [] {
      var last := |phrases| - 1;
      var before, earlier := phrases[..last], positions[..last];
      PlacedIsPairwise(text, before, earlier);
      assert forall i | 0 <= i < last :: before[i] == phrases[i] && earlier[i] == positions[i];
    }
  }

  /** Leftmost occurrences, each after the one before. */
  ghost predicate Leftmost(text: string, phrases: seq<string>, cursor: nat) {
    && (exists positions :: Placed(text, phrases, positions) && End(phrases, positions) == cursor)
    && (forall positions {:trigger Placed(text, phrases, positions)} ::
          Placed(text, phrases, positions) ==> cursor <= End(phrases, positions))
  }

  /** Taking the first occurrence after the leftmost placement stays leftmost; if there is none, nothing fits. */
  lemma LeftmostStep(text: string, phrases: seq<string>, i: nat, cursor: nat)
    requires i < |phrases| && cursor <= |text| && Leftmost(text, phrases[..i], cursor)
    ensures var index := Find(text, phrases[i], cursor);
      if index < 0 then !CanBePlaced(text, phrases[..i + 1])
      else Leftmost(text, phrases[..i + 1], index + |phrases[i]|) && index + |phrases[i]| <= |text|
  {
    var index, before, now := Find(text, phrases[i], cursor), phrases[..i], phrases[..i + 1];
    assert now[..i] == before && now[i] == phrases[i];
    forall positions | Placed(text, now, positions)
      ensures 0 <= index <= positions[i]
    {
      assert Placed(text, before, positions[..i]);
      assert cursor <= End(before, positions[..i]) <= positions[i];
    }
    if index >= 0 {
      var positions :| Placed(text, before, positions) && End(before, positions) == cursor;
      var more: seq<nat> := positions + [index];

      assert more[..i] == positions;
      assert Placed(text, now, more) && End(now, more) == index + |phrases[i]|;
    }
  }

  /** Succeeds exactly when all phrases can be placed; on failure names the first phrase that cannot be added. */
  method RequireOrderedPhrases(text: string, phrases: seq<string>) returns (missing: nat)
    ensures missing <= |phrases|
    ensures missing == |phrases| <==> CanBePlaced(text, phrases)
    ensures CanBePlaced(text, phrases[..missing])
    ensures missing < |phrases| ==> !CanBePlaced(text, phrases[..missing + 1])
  {
    var cursor: nat := 0;
    missing := 0;
    var found := true;
    assert Placed(text, [], []) && phrases[..0] == [];
    assert Leftmost(text, phrases[..0], 0);
    while missing < |phrases| && found
      invariant 0 <= missing <= |phrases| && cursor <= |text|
      invariant Leftmost(text, phrases[..missing], cursor)
      invariant !found ==> missing < |phrases| && !CanBePlaced(text, phrases[..missing + 1])
      decreases |phrases| - missing, found
    {
      LeftmostStep(text, phrases, missing, cursor);
      var index := Find(text, phrases[missing], cursor);
      if index < 0 {
        found := false;
      } else {
        cursor := index + |phrases[missing]|;
        missing := missing + 1;
      }
    }
    assert phrases[..|phrases|] == phrases;
    if missing < |phrases| { PrefixCanBePlaced(text, phrases, missing + 1); }
  }

  lemma {:induction false} PrefixCanBePlaced(text: string, phrases: seq<string>, n: nat)
    requires n <= |phrases|
    ensures CanBePlaced(text, phrases) ==> CanBePlaced(text, phrases[..n])
    decreases phrases
  {
    if n == |phrases| {
      assert phrases[..n] == phrases;
    } else {
      var shorter := phrases[..|phrases| - 1];
      if positions :| Placed(text, phrases, positions) {
        assert Placed(text, shorter, positions[..|shorter|]);
      }
      PrefixCanBePlaced(text, shorter, n);
      assert shorter[..n] == phrases[..n];
    }
  }
}
