/** The stable sort of the standard library, for hits ordered by score and evidence id. */
module HitOrder {
  import opened Prelude
  import opened Text

  datatype Fact = Fact(subject: string, predicateName: string, objectName: Option<string>)

  /** What the reranker found, kept beside the score it computed. */
  datatype Signal = Signal(score: real, fusion: real, content: real, entities: real, facts: real, path: real, sources: nat)

  datatype Hit = Hit(
    evidenceId: string, content: string, entityLabels: seq<string>, graphFacts: seq<Fact>,
    sourcePath: Option<string>, sourceSpan: Option<(nat, nat)>, codeArtifact: Option<string>,
    retrieverSources: seq<string>, score: real, rerank: Option<Signal>)

  /** The comparison: higher score first, then the evidence id. */
  predicate Before(a: Hit, b: Hit) {
    a.score > b.score || (a.score == b.score && AtMost(a.evidenceId, b.evidenceId))
  }

  predicate Tied(a: Hit, b: Hit) {
    a.score == b.score && a.evidenceId == b.evidenceId
  }

  lemma BeforeIsAnOrder(a: Hit, b: Hit, c: Hit)
    ensures Before(a, b) || Before(b, a)
    ensures Before(a, b) && Before(b, c) ==> Before(a, c)
    ensures Before(a, b) && Before(b, a) <==> Tied(a, b)
  {
    AtMostTotal(a.evidenceId, b.evidenceId);
    AtMostTotal(a.evidenceId, a.evidenceId);
    if AtMost(a.evidenceId, b.evidenceId) && AtMost(b.evidenceId, c.evidenceId) {
      AtMostTransitive(a.evidenceId, b.evidenceId, c.evidenceId);
    }
    if AtMost(a.evidenceId, b.evidenceId) && AtMost(b.evidenceId, a.evidenceId) {
      AtMostAntisymmetric(a.evidenceId, b.evidenceId);
    }
  }

  // ----- The sort

  function Insert(x: Hit, ys: seq<Hit>): (r: seq<Hit>)
    ensures |r| == |ys| + 1
  {
    if ys == [] || Before(x, ys[0]) then [x] + ys else [ys[0]] + Insert(x, ys[1..])
  }

  function StableSort(xs: seq<Hit>): (r: seq<Hit>)
    ensures |r| == |xs|
  {
    if xs == [] then [] else Insert(xs[0], StableSort(xs[1..]))
  }

  predicate Sorted(xs: seq<Hit>) {
    forall i, j | 0 <= i < j < |xs| :: Before(xs[i], xs[j])
  }

  /** The members tied with `t`, in the order they have. */
  function TiedWith(t: Hit, xs: seq<Hit>): seq<Hit> {
    if xs == [] then [] else (if Tied(t, xs[0]) then [xs[0]] else []) + TiedWith(t, xs[1..])
  }

  lemma {:induction false} InsertKeeps(x: Hit, ys: seq<Hit>)
    ensures multiset(Insert(x, ys)) == multiset{x} + multiset(ys)
  {
    if ys == [] || Before(x, ys[0]) {
      assert multiset([x] + ys) == multiset([x]) + multiset(ys);
    } else {
      InsertKeeps(x, ys[1..]);
      assert ys == [ys[0]] + ys[1..];
      assert multiset(Insert(x, ys)) == multiset{ys[0]} + multiset(Insert(x, ys[1..]));
    }
  }

  lemma {:induction false} InsertSorts(x: Hit, ys: seq<Hit>)
    requires Sorted(ys)
    ensures Sorted(Insert(x, ys))
  {
    hide Before;
    if ys == [] {
    } else if Before(x, ys[0]) {
      forall k | 0 <= k < |ys| ensures Before(x, ys[k]) {
        if k > 0 { BeforeIsAnOrder(x, ys[0], ys[k]); }
      }
    } else {
      var rest := Insert(x, ys[1..]);
      InsertSorts(x, ys[1..]);
      InsertKeeps(x, ys[1..]);
      BeforeIsAnOrder(x, ys[0], ys[0]);
      forall k | 0 <= k < |rest| ensures Before(ys[0], rest[k]) {
        assert rest[k] in multiset(rest);
        if rest[k] != x {
          assert rest[k] in ys[1..];
        }
      }
    }
  }

  lemma {:induction false} SortSorts(xs: seq<Hit>)
    ensures Sorted(StableSort(xs)) && multiset(StableSort(xs)) == multiset(xs)
  {
    if xs != [] {
      SortSorts(xs[1..]);
      InsertSorts(xs[0], StableSort(xs[1..]));
      InsertKeeps(xs[0], StableSort(xs[1..]));
      assert xs == [xs[0]] + xs[1..];
    }
  }

  lemma {:induction false} InsertIsStable(t: Hit, x: Hit, ys: seq<Hit>)
    ensures TiedWith(t, Insert(x, ys)) == TiedWith(t, [x]) + TiedWith(t, ys)
  {
    if ys == [] || Before(x, ys[0]) {
      assert ([x] + ys)[1..] == ys && [x][1..] == [];
    } else {
      InsertIsStable(t, x, ys[1..]);
      var r := Insert(x, ys);
      assert r[0] == ys[0] && r[1..] == Insert(x, ys[1..]);
      assert [x][1..] == [];
      BeforeIsAnOrder(x, ys[0], x);
      assert !(Tied(t, x) && Tied(t, ys[0]));
    }
  }

  /** Hits that tie keep the order they came in. */
  lemma {:induction false} SortIsStable(t: Hit, xs: seq<Hit>)
    ensures TiedWith(t, StableSort(xs)) == TiedWith(t, xs)
  {
    if xs != [] {
      SortIsStable(t, xs[1..]);
      InsertIsStable(t, xs[0], StableSort(xs[1..]));
      assert [xs[0]][1..] == [];
    }
  }

  // ----- When the order of the input does not matter

  /** Different hits never tie. */
  ghost predicate NoTies(xs: seq<Hit>) {
    forall x, y | x in xs && y in xs && Tied(x, y) :: x == y
  }

  lemma {:induction false} SortedIsUnique(a: seq<Hit>, b: seq<Hit>)
    requires Sorted(a) && Sorted(b) && multiset(a) == multiset(b) && NoTies(a)
    ensures a == b
    decreases |a|
  {
    assert |a| == |multiset(a)| == |b|;
    if a != [] {
      HeadsAgree(a, b);
      TailsAgree(a, b);
      hide NoTies;
      SortedIsUnique(a[1..], b[1..]);
      assert a == [a[0]] + a[1..] && b == [b[0]] + b[1..];
    }
  }

  lemma HeadsAgree(a: seq<Hit>, b: seq<Hit>)
    requires Sorted(a) && Sorted(b) && multiset(a) == multiset(b) && NoTies(a) && a != [] && b != []
    ensures a[0] == b[0]
  {
    FirstIsFirst(a, b);
    FirstIsFirst(b, a);
    hide Before;
    BeforeIsAnOrder(a[0], b[0], a[0]);
    assert b[0] in multiset(a) && a[0] in a && b[0] in a;
  }

  lemma TailsAgree(a: seq<Hit>, b: seq<Hit>)
    requires a != [] && b != [] && a[0] == b[0] && multiset(a) == multiset(b) && NoTies(a)
    ensures multiset(a[1..]) == multiset(b[1..]) && NoTies(a[1..])
  {
    assert a == [a[0]] + a[1..] && b == [b[0]] + b[1..];
    assert multiset(a[1..]) == multiset(a) - multiset{a[0]};
    assert multiset(b[1..]) == multiset(b) - multiset{b[0]};
    forall x, y | x in a[1..] && y in a[1..] && Tied(x, y) ensures x == y { assert x in a && y in a; }
  }

  lemma FirstIsFirst(a: seq<Hit>, b: seq<Hit>)
    requires Sorted(a) && multiset(a) == multiset(b) && a != [] && b != []
    ensures Before(a[0], b[0])
  {
    assert b[0] in multiset(a);
    var k :| 0 <= k < |a| && a[k] == b[0];
    BeforeIsAnOrder(a[0], a[0], a[0]);
  }

  lemma {:induction false} TiedWithSplit(t: Hit, a: seq<Hit>, b: seq<Hit>)
    ensures TiedWith(t, a + b) == TiedWith(t, a) + TiedWith(t, b)
  {
    if a == [] {
      assert a + b == b;
    } else {
      assert (a + b)[1..] == a[1..] + b;
      TiedWithSplit(t, a[1..], b);
    }
  }

  /** Two hits that tie and differ come out in the order they went in. */
  lemma TiesShow(xs: seq<Hit>, ys: seq<Hit>, i: nat)
    requires i < |xs| && i < |ys| && xs[..i] == ys[..i]
    requires xs[i] != ys[i] && Tied(xs[i], ys[i])
    ensures StableSort(xs) != StableSort(ys)
  {
    var t := xs[i];
    SortIsStable(t, xs);
    SortIsStable(t, ys);
    TiedHere(t, xs, i);
    TiedHere(t, ys, i);
  }

  lemma TiedHere(t: Hit, xs: seq<Hit>, i: nat)
    requires i < |xs| && Tied(t, xs[i])
    ensures |TiedWith(t, xs)| > |TiedWith(t, xs[..i])| && TiedWith(t, xs)[|TiedWith(t, xs[..i])|] == xs[i]
  {
    assert xs == xs[..i] + xs[i..];
    TiedWithSplit(t, xs[..i], xs[i..]);
  }
}
