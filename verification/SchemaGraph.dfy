/** Definitions without a cycle of direct references can be ranked, and only those can. */
module SchemaGraph {
  import opened SchemaModel
  import opened SchemaValidator
  import opened SchemaMeaning
  import opened SchemaAgreement
  import Pigeonhole

  /** Definition `a` refers to `b` without descending into the instance. */
  ghost predicate Refers(defs: Definitions, a: string, b: string) {
    a in Names(defs) && b in DirectRefs(defs, defs.value[a])
  }

  ghost predicate Walk(defs: Definitions, path: seq<string>) {
    forall k | 0 < k < |path| :: Refers(defs, path[k - 1], path[k])
  }

  /** No definition returns to itself without descending into the instance. */
  ghost predicate Acyclic(defs: Definitions) {
    forall path | Walk(defs, path) && |path| > 1 :: path[0] != path[|path| - 1]
  }

  lemma {:induction false} RankFalls(defs: Definitions, rank: map<string, nat>, top: nat, path: seq<string>)
    requires Ranked(defs, rank, top) && Walk(defs, path) && |path| > 1
    ensures path[0] in rank && path[|path| - 1] in rank && rank[path[|path| - 1]] < rank[path[0]]
  {
    var n := |path|;
    assert Refers(defs, path[n - 2], path[n - 1]);
    if n > 2 { RankFalls(defs, rank, top, path[..n - 1]); }
  }

  lemma RankedIsAcyclic(defs: Definitions, rank: map<string, nat>, top: nat)
    requires Ranked(defs, rank, top)
    ensures Acyclic(defs)
  {
    forall path | Walk(defs, path) && |path| > 1 ensures path[0] != path[|path| - 1] {
      RankFalls(defs, rank, top, path);
    }
  }

  ghost predicate RefersInto(defs: Definitions, pool: set<string>, a: string) {
    exists b :: b in pool && Refers(defs, a, b)
  }

  /** A set each of whose members refers to another can be walked for ever. */
  lemma {:induction false} LongWalk(defs: Definitions, pool: set<string>, steps: nat) returns (path: seq<string>)
    requires pool != {} && forall a {:trigger RefersInto(defs, pool, a)} | a in pool :: RefersInto(defs, pool, a)
    ensures |path| == steps + 1 && Walk(defs, path) && forall a | a in path :: a in pool
  {
    if steps == 0 {
      var a :| a in pool;
      path := [a];
    } else {
      var shorter := LongWalk(defs, pool, steps - 1);
      assert shorter[steps - 1] in shorter && RefersInto(defs, pool, shorter[steps - 1]);
      var next :| next in pool && Refers(defs, shorter[steps - 1], next);
      path := shorter + [next];
    }
  }

  lemma StuckMember(defs: Definitions, pool: set<string>) returns (a: string)
    requires Acyclic(defs) && pool != {}
    ensures a in pool && !RefersInto(defs, pool, a)
  {
    if forall a {:trigger RefersInto(defs, pool, a)} | a in pool :: RefersInto(defs, pool, a) {
      var path := LongWalk(defs, pool, |pool|);
      var i, j := Pigeonhole.Repeats(path, pool);
      WalkSlice(defs, path, i, j + 1);
      assert false;
    }
    a :| a in pool && !RefersInto(defs, pool, a);
  }

  lemma WalkSlice(defs: Definitions, path: seq<string>, from: nat, to: nat)
    requires Walk(defs, path) && from <= to <= |path|
    ensures Walk(defs, path[from..to])
  {
    hide Refers;
    forall k | 0 < k < to - from ensures Refers(defs, path[from..to][k - 1], path[from..to][k]) {
      assert Refers(defs, path[from + k - 1], path[from + k]);
    }
  }

  /** A ranking of some definitions, all of whose direct references it ranks too. */
  ghost predicate PartlyRanked(defs: Definitions, rank: map<string, nat>)
    requires rank.Keys <= Names(defs)
  {
    forall b | b in rank :: rank[b] < |rank.Keys| && RefsBelow(defs, rank, rank[b], defs.value[b])
  }

  lemma RefersToNames(defs: Definitions, a: string, b: string)
    requires a in Names(defs) && b in DirectRefs(defs, defs.value[a])
    ensures Refers(defs, a, b) && b in Names(defs)
  {
    DirectRefsResolve(defs, defs.value[a]);
  }

  lemma RefsStayBelow(defs: Definitions, rank: map<string, nat>, next: map<string, nat>, bound: nat, s: Schema)
    requires RefsBelow(defs, rank, bound, s)
    requires forall name | name in rank :: name in next && next[name] == rank[name]
    ensures RefsBelow(defs, next, bound, s)
  {
  }

  lemma OneMoreKey(rank: map<string, nat>, a: string, value: nat)
    requires a !in rank
    ensures rank[a := value].Keys == rank.Keys + {a} && |rank[a := value].Keys| == |rank.Keys| + 1
  {
    assert rank[a := value].Keys == rank.Keys + {a};
  }

  lemma RankOne(defs: Definitions, rank: map<string, nat>, pool: set<string>, a: string)
    requires rank.Keys + pool == Names(defs) && PartlyRanked(defs, rank)
    requires a in pool && a !in rank && !RefersInto(defs, pool, a)
    ensures PartlyRanked(defs, rank[a := |rank.Keys|])
  {
    StuckRefsAreRanked(defs, rank, pool, a);
    hide RefsBelow, RefersInto, Names;
    var bound := |rank.Keys|;
    var next := rank[a := bound];
    OneMoreKey(rank, a, bound);
    assert a in defs.value && next.Keys <= defs.value.Keys by { NamesAreKeys(defs); }
    RefsStayBelow(defs, rank, next, bound, defs.value[a]);
    forall b | b in next ensures next[b] < bound + 1 && RefsBelow(defs, next, next[b], defs.value[b]) {
      if b != a { RefsStayBelow(defs, rank, next, rank[b], defs.value[b]); }
    }
  }

  lemma NamesAreKeys(defs: Definitions)
    ensures Names(defs) != {} ==> defs.Some? && Names(defs) == defs.value.Keys
  {
  }

  lemma StuckRefsAreRanked(defs: Definitions, rank: map<string, nat>, pool: set<string>, a: string)
    requires rank.Keys + pool == Names(defs) && PartlyRanked(defs, rank)
    requires a in pool && !RefersInto(defs, pool, a)
    ensures RefsBelow(defs, rank, |rank.Keys|, defs.value[a])
  {
    hide DirectRefs;
    forall name | name in DirectRefs(defs, defs.value[a]) ensures name in rank && rank[name] < |rank.Keys| {
      RefersToNames(defs, a, name);
      assert name in pool ==> RefersInto(defs, pool, a);
    }
  }

  /** Rank the definitions one at a time, each after everything it refers to directly. */
  lemma {:induction false} RankAll(defs: Definitions, rank: map<string, nat>) returns (full: map<string, nat>)
    requires Acyclic(defs) && rank.Keys <= Names(defs) && PartlyRanked(defs, rank)
    ensures full.Keys == Names(defs) && PartlyRanked(defs, full)
    decreases Names(defs) - rank.Keys
  {
    hide Acyclic, RefersInto, PartlyRanked, Names;
    var pool := Names(defs) - rank.Keys;
    if pool == {} {
      full := rank;
    } else {
      var a := StuckMember(defs, pool);
      RankOne(defs, rank, pool, a);
      full := RankAll(defs, rank[a := |rank.Keys|]);
    }
  }

  /** Acyclic definitions are ranked, by ranks smaller than their number. */
  lemma AcyclicIsRanked(defs: Definitions) returns (rank: map<string, nat>)
    requires Acyclic(defs)
    ensures Ranked(defs, rank, |Names(defs)|)
  {
    rank := RankAll(defs, map[]);
  }

  /** Without such a cycle the keywords have one and only one reading, which the validator computes on every instance. */
  lemma AcyclicSchemasAreDecided(defs: Definitions) returns (accepts: Reading)
    requires Acyclic(defs)
    ensures Respects(defs, accepts)
    ensures forall s, j ::
              && (Decides(defs, s, j, Accepted) <==> accepts(s, j))
              && (Decides(defs, s, j, Rejected) <==> !accepts(s, j))
    ensures forall other: Reading | Respects(defs, other) :: forall s, j :: other(s, j) <==> accepts(s, j)
  {
    var rank := AcyclicIsRanked(defs);
    var top := |Names(defs)|;
    accepts := (s, j) => Decides(defs, s, j, Accepted);
    ValidatorRespects(defs, rank, top);
    forall other: Reading, s, j | Respects(defs, other)
      ensures Decides(defs, s, j, Accepted) <==> other(s, j)
      ensures Decides(defs, s, j, Rejected) <==> !other(s, j)
    {
      ValidatorComputesTheMeaning(defs, rank, top, other, s, j);
    }
  }

  /**
   The verdict needs no more nested calls than the depth of the instance times what one level may cost: a chain
   through every definition, each no taller than `tall`.
   */
  lemma StackBound(stack: nat, defs: Definitions, s: Schema, j: Json, tall: nat)
    requires Acyclic(defs) && Sized(defs, tall) && Fits(s, tall)
    requires stack >= (Depth(j) + 1) * ((|Names(defs)| + 1) * tall)
    ensures Validate(stack, defs, s, j) != Exhausted
  {
    hide *;
    var n := |Names(defs)|;
    NeededIsProduct(n, tall, Depth(j));
    var rank := AcyclicIsRanked(defs);
    DescentIsFree(defs, rank, n, s);
    Terminates(stack, tall, tall, defs, rank, n, n, s, j);
  }

  lemma NeededIsProduct(n: nat, tall: nat, depth: nat)
    ensures Needed(n, tall, depth, n, tall) == (depth + 1) * ((n + 1) * tall)
  {
    var level := Times(n + 1, tall);
    TimesIsProduct(n + 1, tall);
    TimesIsProduct(depth + 1, level);
  }
}
