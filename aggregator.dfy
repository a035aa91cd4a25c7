/**
 * The aggregator's incremental event-similarity engine.
 *
 * It keeps, per event, the weight each user gave it (the strongest action
 * seen so far) and a matrix of accumulated dot products: a self term
 * self[e] = sum of the weights of e, and for each pair a < b a cross term
 * cross[a][b] = sum over users who weighted both of the smaller of the two
 * weights. Each user action updates both incrementally and emits, for every
 * other event of the same user, the similarity
 * cross / (sqrt(self[a]) * sqrt(self[b])).
 */
module Aggregator {
  import opened Common
  import opened Messages
  import Sorting

  /** event -> user -> weight */
  type Weights = map<int, map<int, real>>
  /** event -> event -> accumulated dot product */
  type Matrix = map<int, map<int, real>>

  /** The weight stored for (e, u), if any: userWeights.get(userId). */
  function Stored(w: Weights, e: int, u: int): Option<real>
  {
    if e in w && u in w[e] then Some(w[e][u]) else None
  }

  /** The weight of user u for event e, 0.0 when none is stored. */
  function At(w: Weights, e: int, u: int): real
  {
    if e in w && u in w[e] then w[e][u] else 0.0
  }

  /** No stored weight is negative, as with non-negative configured action weights. */
  ghost predicate NonNegativeWeights(w: Weights)
  {
    forall e, u | e in w && u in w[e] :: w[e][u] >= 0.0
  }

  /** The users that have a weight for event e. */
  function Users(w: Weights, e: int): set<int>
  {
    if e in w then w[e].Keys else {}
  }

  /** The weights after userWeights.put(u, x) on the inner map of event e. */
  function Put(w: Weights, e: int, u: int, x: real): (r: Weights)
    ensures Stored(r, e, u) == Some(x)
    ensures forall f, v :: (f, v) != (e, u) ==> Stored(r, f, v) == Stored(w, f, v)
    ensures forall f :: f != e ==> Users(r, f) == Users(w, f)
  {
    w[e := (if e in w then w[e] else map[])[u := x]]
  }

  /** The smaller and the larger id of a pair: the canonical (eventA, eventB). */
  function Lo(e: int, o: int): int { if e < o then e else o }
  function Hi(e: int, o: int): int { if e < o then o else e }

  /** A matrix cell as read with getOrDefault(.., 0.0). */
  function Cell(m: Matrix, a: int, b: int): real
  {
    if a in m && b in m[a] then m[a][b] else 0.0
  }

  /** The matrix after computeIfAbsent(a).put(b, v). */
  function SetCell(m: Matrix, a: int, b: int, v: real): (r: Matrix)
    ensures Cell(r, a, b) == v
    ensures forall x, y :: (x, y) != (a, b) ==> Cell(r, x, y) == Cell(m, x, y)
    ensures a != b ==> forall x :: SelfCell(r, x) == SelfCell(m, x)
  {
    m[a := (if a in m then m[a] else map[])[b := v]]
  }

  /** The self entry of an event, if present. */
  function SelfCell(m: Matrix, e: int): Option<real>
  {
    if e in m && e in m[e] then Some(m[e][e]) else None
  }

  // ---------------------------------------------------------------------
  // The sums the accumulators stand for.

  ghost function SumOver(s: set<int>, f: int -> real): real
    decreases s
  {
    if s == {} then 0.0 else NonEmpty(s); var x :| x in s; f(x) + SumOver(s - {x}, f)
  }

  /** The self term an event should carry: the sum of its users' weights. */
  ghost function SelfSum(w: Weights, e: int): real
  {
    SumOver(Users(w, e), u => At(w, e, u))
  }

  /** The cross term a pair should carry: the sum of min weights over common users. */
  ghost function CrossSum(w: Weights, a: int, b: int): real
  {
    SumOver(Users(w, a) * Users(w, b), u => Min(At(w, a, u), At(w, b, u)))
  }

  /** Self terms exist for every weighted event and equal the sum of its weights. */
  ghost predicate SelfConsistent(w: Weights, m: Matrix)
  {
    && (forall e, u | e in w && u in w[e] :: SelfCell(m, e).Some?)
    && (forall e | SelfCell(m, e).Some? :: SelfCell(m, e).value == SelfSum(w, e))
  }

  /** Every canonical cross term equals the sum of min weights of the pair. */
  ghost predicate CrossConsistent(w: Weights, m: Matrix)
  {
    forall a, b | a < b :: Cell(m, a, b) == CrossSum(w, a, b)
  }

  /** Any element may be split off a sum, not only the one SumOver picks. */
  lemma {:induction false} SumRemove(s: set<int>, f: int -> real, y: int)
    requires y in s
    ensures SumOver(s, f) == f(y) + SumOver(s - {y}, f)
    decreases |s|
  {
    var x :| x in s && SumOver(s, f) == f(x) + SumOver(s - {x}, f);
    if x != y {
      SumRemove(s - {x}, f, y);
      SumRemove(s - {y}, f, x);
      assert s - {x} - {y} == s - {y} - {x};
    }
  }

  /** Sums of functions that agree on the set are equal. */
  lemma {:induction false} SumCongruent(s: set<int>, f: int -> real, g: int -> real)
    requires forall x :: x in s ==> f(x) == g(x)
    ensures SumOver(s, f) == SumOver(s, g)
    decreases |s|
  {
    if s != {} {
      NonEmpty(s);
      var x :| x in s;
      SumRemove(s, f, x);
      SumRemove(s, g, x);
      SumCongruent(s - {x}, f, g);
    }
  }

  /** Changing or adding the value of one element moves the sum by the difference. */
  lemma SumReplaceOne(s: set<int>, f: int -> real, g: int -> real, y: int)
    requires forall x :: x in s && x != y ==> f(x) == g(x)
    ensures y in s ==> SumOver(s, g) == SumOver(s, f) - f(y) + g(y)
    ensures y !in s ==> SumOver(s + {y}, g) == SumOver(s, f) + g(y)
  {
    if y in s {
      SumRemove(s, f, y);
      SumRemove(s, g, y);
      SumCongruent(s - {y}, f, g);
    } else {
      SumRemove(s + {y}, g, y);
      assert s + {y} - {y} == s;
      SumCongruent(s, f, g);
    }
  }

  lemma {:induction false} SumNonNegative(s: set<int>, f: int -> real)
    requires forall x :: x in s ==> f(x) >= 0.0
    ensures SumOver(s, f) >= 0.0
    decreases |s|
  {
    if s != {} {
      NonEmpty(s);
      var x :| x in s;
      SumRemove(s, f, x);
      SumNonNegative(s - {x}, f);
    }
  }

  /** A sum over a subset, term by term dominated, of non-negative values is no larger. */
  lemma {:induction false} SumDominated(s: set<int>, t: set<int>, f: int -> real, g: int -> real)
    requires s <= t
    requires forall x :: x in s ==> f(x) <= g(x)
    requires forall x :: x in t ==> g(x) >= 0.0
    ensures SumOver(s, f) <= SumOver(t, g)
    decreases |t|
  {
    if t == {} {
    } else if s == {} {
      SumNonNegative(t, g);
    } else {
      NonEmpty(s);
      var x :| x in s;
      SumRemove(s, f, x);
      SumRemove(t, g, x);
      SumDominated(s - {x}, t - {x}, f, g);
    }
  }

  /** The cross term does not depend on the order of the pair. */
  lemma CrossSymmetric(w: Weights, a: int, b: int)
    ensures CrossSum(w, a, b) == CrossSum(w, b, a)
  {
    assert Users(w, a) * Users(w, b) == Users(w, b) * Users(w, a);
    SumCongruent(Users(w, a) * Users(w, b), u => Min(At(w, a, u), At(w, b, u)), u => Min(At(w, b, u), At(w, a, u)));
  }

  /**
   * With non-negative weights the cross term of a pair never exceeds either
   * self term.
   */
  lemma CrossBoundedBySelf(w: Weights, a: int, b: int)
    requires NonNegativeWeights(w)
    ensures 0.0 <= CrossSum(w, a, b) <= SelfSum(w, a)
    ensures CrossSum(w, a, b) <= SelfSum(w, b)
  {
    var common := Users(w, a) * Users(w, b);
    var f := u => Min(At(w, a, u), At(w, b, u));
    SumNonNegative(common, f);
    SumDominated(common, Users(w, a), f, u => At(w, a, u));
    SumDominated(common, Users(w, b), f, u => At(w, b, u));
  }

  /** Hence cross^2 <= self[a] * self[b], so a similarity computed with the true square root is at most 1. */
  lemma CrossSquareBound(w: Weights, a: int, b: int)
    requires NonNegativeWeights(w)
    ensures CrossSum(w, a, b) * CrossSum(w, a, b) <= SelfSum(w, a) * SelfSum(w, b)
  {
    CrossBoundedBySelf(w, a, b);
    SquareBound(CrossSum(w, a, b), SelfSum(w, a), SelfSum(w, b));
  }

  lemma SquareBound(c: real, x: real, y: real)
    requires 0.0 <= c <= x && c <= y
    ensures c * c <= x * y
  {
    assert c * c <= x * c;
    assert x * c <= x * y;
  }

  /** Recording weight x for (e, u) leaves self terms of other events unchanged. */
  lemma SelfSumOther(w: Weights, e: int, u: int, x: real, f: int)
    requires f != e
    ensures SelfSum(Put(w, e, u, x), f) == SelfSum(w, f)
  {
    var r := Put(w, e, u, x);
    SumCongruent(Users(w, f), v => At(w, f, v), v => At(r, f, v));
  }

  /** Recording weight x for (e, u) moves the self term of e by the delta. */
  lemma SelfSumStep(w: Weights, e: int, u: int, x: real)
    ensures SelfSum(Put(w, e, u, x), e)
         == SelfSum(w, e) + (if Stored(w, e, u).Some? then x - Stored(w, e, u).value else x)
  {
    var r := Put(w, e, u, x);
    SumReplaceOne(Users(w, e), v => At(w, e, v), v => At(r, e, v), u);
    if u !in Users(w, e) {
      assert Users(r, e) == Users(w, e) + {u};
    } else {
      assert Users(r, e) == Users(w, e);
    }
  }

  /** A pair not involving e, or whose partner has no weight from u, keeps its cross term. */
  lemma CrossSumUntouched(w: Weights, e: int, u: int, x: real, a: int, b: int)
    requires a != b
    requires (a != e && b != e) || (a == e && u !in Users(w, b)) || (b == e && u !in Users(w, a))
    ensures CrossSum(Put(w, e, u, x), a, b) == CrossSum(w, a, b)
  {
    var r := Put(w, e, u, x);
    var s := Users(w, a) * Users(w, b);
    assert Users(r, a) * Users(r, b) == s;
    SumCongruent(s, v => Min(At(w, a, v), At(w, b, v)), v => Min(At(r, a, v), At(r, b, v)));
  }

  /**
   * Recording weight x for (e, u), where u already weighted the partner o,
   * moves the canonical cross term by min(x, other) minus the old min
   * (0 on first touch).
   */
  lemma CrossSumStep(w: Weights, e: int, u: int, x: real, o: int)
    requires o != e && u in Users(w, o)
    ensures CrossSum(Put(w, e, u, x), Lo(e, o), Hi(e, o))
      == CrossSum(w, Lo(e, o), Hi(e, o)) + Min(x, At(w, o, u))
         - (if u in Users(w, e) then Min(At(w, e, u), At(w, o, u)) else 0.0)
  {
    var r := Put(w, e, u, x);
    var lo, hi := Lo(e, o), Hi(e, o);
    var s := Users(w, lo) * Users(w, hi);
    var f := v => Min(At(w, lo, v), At(w, hi, v));
    var g := v => Min(At(r, lo, v), At(r, hi, v));
    SumReplaceOne(s, f, g, u);
    if u in Users(w, e) {
      assert Users(r, lo) * Users(r, hi) == s;
    } else {
      assert Users(r, lo) * Users(r, hi) == s + {u};
    }
  }

  /** computeIfAbsent(e) on the weights adds an empty map, which changes no sum. */
  lemma EmptyRowHarmless(w: Weights, e: int, m: Matrix)
    requires e !in w
    requires SelfConsistent(w, m) && CrossConsistent(w, m)
    ensures SelfConsistent(w[e := map[]], m) && CrossConsistent(w[e := map[]], m)
  {
    var w1 := w[e := map[]];
    forall f ensures SelfSum(w1, f) == SelfSum(w, f) {
      SumCongruent(Users(w, f), v => At(w, f, v), v => At(w1, f, v));
    }
    forall a, b ensures CrossSum(w1, a, b) == CrossSum(w, a, b) {
      assert Users(w1, a) * Users(w1, b) == Users(w, a) * Users(w, b);
      SumCongruent(Users(w, a) * Users(w, b), v => Min(At(w, a, v), At(w, b, v)), v => Min(At(w1, a, v), At(w1, b, v)));
    }
  }

  // ---------------------------------------------------------------------
  // Norms, similarities and the incremental update of the cross terms.

  /** calculateNorm: the square root of the self term, None without a self entry. */
  function CalculateNorm(m: Matrix, sqrt: real -> real, eventId: int): (r: Option<real>)
    ensures r.Some? <==> SelfCell(m, eventId).Some?
    ensures r.Some? ==> r.value == sqrt(m[eventId][eventId])
  {
    if eventId !in m then None
    else if eventId !in m[eventId] then None
    else Some(sqrt(m[eventId][eventId]))
  }

  /** Both self entries exist and neither norm is 0. */
  predicate Emittable(m: Matrix, sqrt: real -> real, a: int, b: int)
  {
    var na, nb := CalculateNorm(m, sqrt, a), CalculateNorm(m, sqrt, b);
    na.Some? && nb.Some? && na.value != 0.0 && nb.value != 0.0
  }

  /** What the engine relies on of Math.sqrt: it is 0 at 0 and positive on positive inputs. */
  ghost predicate SqrtLike(sqrt: real -> real)
  {
    sqrt(0.0) == 0.0 && forall x: real :: x > 0.0 ==> sqrt(x) > 0.0
  }

  /** With non-negative weights every self term is non-negative. */
  lemma SelfSumNonNegative(w: Weights, e: int)
    requires NonNegativeWeights(w)
    ensures SelfSum(w, e) >= 0.0
  {
    SumNonNegative(Users(w, e), u => At(w, e, u));
  }

  /**
   * With such a square root and non-negative weights, a pair is emittable
   * exactly when both self terms exist and are non-zero.
   */
  lemma EmittableOnSelfTerms(w: Weights, m: Matrix, sqrt: real -> real, a: int, b: int)
    requires SqrtLike(sqrt) && NonNegativeWeights(w) && SelfConsistent(w, m)
    ensures Emittable(m, sqrt, a, b) <==>
      SelfCell(m, a).Some? && SelfCell(m, b).Some? && SelfCell(m, a).value != 0.0 && SelfCell(m, b).value != 0.0
  {
    SelfSumNonNegative(w, a);
    SelfSumNonNegative(w, b);
  }

  /** The private calculateSimilarity: the similarity of a pair from its dot product, or None. */
  function CalculatePairSimilarity(m: Matrix, sqrt: real -> real, eventA: int, eventB: int, dotProduct: real, now: Instant)
    : (r: Option<EventSimilarityAvro>)
    ensures r.Some? <==> Emittable(m, sqrt, eventA, eventB)
    ensures r.Some? ==> r.value.eventA == eventA && r.value.eventB == eventB && r.value.timestamp == now
    ensures r.Some? ==> r.value.score == dotProduct / (sqrt(m[eventA][eventA]) * sqrt(m[eventB][eventB]))
  {
    var normA, normB := CalculateNorm(m, sqrt, eventA), CalculateNorm(m, sqrt, eventB);
    if normA.None? || normB.None? || normA.value == 0.0 || normB.value == 0.0 then None
    else Some(EventSimilarityAvro(eventA, eventB, dotProduct / (normA.value * normB.value), now))
  }

  /** The event of a similarity other than e. */
  function Partner(s: EventSimilarityAvro, e: int): int
  {
    if s.eventA == e then s.eventB else s.eventA
  }

  /** What recording x over old for (e, u) adds to the cross term shared with o. */
  function CrossDelta(w: Weights, e: int, u: int, x: real, prev: Option<real>, o: int): real
  {
    if u in Users(w, o) then Min(x, At(w, o, u)) - (if prev.Some? then Min(prev.value, At(w, o, u)) else 0.0)
    else 0.0
  }

  /** The cross terms of e with the partners outside todo carry their delta, all other cells are as in m0. */
  ghost predicate CrossProgress(m: Matrix, m0: Matrix, w: Weights, e: int, u: int, x: real, prev: Option<real>, todo: set<int>)
  {
    forall a, b | a < b :: Cell(m, a, b) == Cell(m0, a, b)
      + (if a == e && b !in todo then CrossDelta(w, e, u, x, prev, b)
         else if b == e && a !in todo then CrossDelta(w, e, u, x, prev, a)
         else 0.0)
  }

  ghost predicate SameSelf(m: Matrix, m0: Matrix)
  {
    forall y :: SelfCell(m, y) == SelfCell(m0, y)
  }

  /** A similarity emitted for the update of (e, u): canonical pair, partner weighted by u, score from matrix m. */
  ghost predicate EmittedFor(s: EventSimilarityAvro, m: Matrix, sqrt: real -> real, w: Weights, e: int, u: int, now: Instant)
  {
    && s.eventA < s.eventB
    && (s.eventA == e || s.eventB == e)
    && Partner(s, e) != e
    && u in Users(w, Partner(s, e))
    && Emittable(m, sqrt, s.eventA, s.eventB)
    && s.score == Cell(m, s.eventA, s.eventB)
         / (CalculateNorm(m, sqrt, s.eventA).value * CalculateNorm(m, sqrt, s.eventB).value)
    && s.timestamp == now
  }

  /** Every partner of e weighted by u whose pair is emittable has an entry in sims. */
  ghost predicate CompleteFor(sims: seq<EventSimilarityAvro>, m: Matrix, sqrt: real -> real, w: Weights, e: int, u: int, done: set<int>)
  {
    forall o | o in done && o != e && u in Users(w, o) && Emittable(m, sqrt, Lo(e, o), Hi(e, o)) ::
      exists s :: s in sims && Partner(s, e) == o
  }

  /** The similarity computed for the pair (e, o) is an emitted entry with partner o exactly when the pair is emittable. */
  lemma NewEmitted(m: Matrix, sqrt: real -> real, w: Weights, e: int, u: int, now: Instant, o: int,
                   r: Option<EventSimilarityAvro>)
    requires o != e && u in Users(w, o)
    requires r == CalculatePairSimilarity(m, sqrt, Lo(e, o), Hi(e, o), Cell(m, Lo(e, o), Hi(e, o)), now)
    ensures r.Some? <==> Emittable(m, sqrt, Lo(e, o), Hi(e, o))
    ensures r.Some? ==> EmittedFor(r.value, m, sqrt, w, e, u, now) && Partner(r.value, e) == o
  {
  }

  predicate DistinctPartners(sims: seq<EventSimilarityAvro>, e: int)
  {
    forall i, j :: 0 <= i < j < |sims| ==> Partner(sims[i], e) != Partner(sims[j], e)
  }

  /** What the partner loop keeps about the similarities emitted so far, with todo the partners still to visit. */
  ghost predicate EmitProgress(sims: seq<EventSimilarityAvro>, m: Matrix, sqrt: real -> real, w: Weights,
                               e: int, u: int, now: Instant, todo: set<int>)
  {
    && (forall s :: s in sims ==> EmittedFor(s, m, sqrt, w, e, u, now) && Partner(s, e) !in todo)
    && DistinctPartners(sims, e)
    && CompleteFor(sims, m, sqrt, w, e, u, w.Keys - todo)
  }

  /** Visiting a partner that shares no user with e changes neither the matrix nor the output. */
  lemma EmitSkip(sims: seq<EventSimilarityAvro>, m: Matrix, sqrt: real -> real, w: Weights,
                 e: int, u: int, now: Instant, todo: set<int>, o: int)
    requires EmitProgress(sims, m, sqrt, w, e, u, now, todo) && o in todo
    requires o == e || u !in Users(w, o)
    ensures EmitProgress(sims, m, sqrt, w, e, u, now, todo - {o})
  {
  }

  /** Visiting a partner that shares u with e updates one cross cell and appends its similarity if there is one. */
  lemma EmitAdd(sims: seq<EventSimilarityAvro>, m: Matrix, m1: Matrix, sqrt: real -> real, w: Weights,
                e: int, u: int, now: Instant, todo: set<int>, o: int, v: real, r: Option<EventSimilarityAvro>)
    requires EmitProgress(sims, m, sqrt, w, e, u, now, todo) && o in todo
    requires o != e && u in Users(w, o)
    requires m1 == SetCell(m, Lo(e, o), Hi(e, o), v)
    requires r == CalculatePairSimilarity(m1, sqrt, Lo(e, o), Hi(e, o), Cell(m1, Lo(e, o), Hi(e, o)), now)
    ensures EmitProgress(sims + (if r.Some? then [r.value] else []), m1, sqrt, w, e, u, now, todo - {o})
  {
    var sims1 := sims + (if r.Some? then [r.value] else []);
    assert SameSelf(m1, m);
    assert forall a, b :: Emittable(m1, sqrt, a, b) == Emittable(m, sqrt, a, b);
    EmittedKept(sims, m, m1, sqrt, w, e, u, now, todo, o, v);
    NewEmitted(m1, sqrt, w, e, u, now, o, r);
    forall i, j | 0 <= i < j < |sims1| ensures Partner(sims1[i], e) != Partner(sims1[j], e) {
      if j == |sims| {
        assert sims1[i] in sims;
      }
    }
    forall o' | o' in w.Keys - (todo - {o}) && o' != e && u in Users(w, o') && Emittable(m1, sqrt, Lo(e, o'), Hi(e, o'))
      ensures exists s :: s in sims1 && Partner(s, e) == o'
    {
      if o' == o {
        assert r.value in sims1;
      } else {
        var s :| s in sims && Partner(s, e) == o';
        assert s in sims1;
      }
    }
  }

  /** Entries emitted in earlier iterations stay valid: their cells and the norms are untouched. */
  lemma EmittedKept(before: seq<EventSimilarityAvro>, m: Matrix, m1: Matrix, sqrt: real -> real,
                    w: Weights, e: int, u: int, now: Instant, todo: set<int>, o: int, v: real)
    requires forall s :: s in before ==> EmittedFor(s, m, sqrt, w, e, u, now) && Partner(s, e) !in todo
    requires o in todo && o != e
    requires m1 == SetCell(m, Lo(e, o), Hi(e, o), v)
    ensures forall s :: s in before ==> EmittedFor(s, m1, sqrt, w, e, u, now)
  {
    forall s | s in before ensures EmittedFor(s, m1, sqrt, w, e, u, now) {
      assert (s.eventA, s.eventB) != (Lo(e, o), Hi(e, o));
      assert Cell(m1, s.eventA, s.eventB) == Cell(m, s.eventA, s.eventB);
      assert SelfCell(m1, s.eventA) == SelfCell(m, s.eventA) && SelfCell(m1, s.eventB) == SelfCell(m, s.eventB);
      assert CalculateNorm(m1, sqrt, s.eventA) == CalculateNorm(m, sqrt, s.eventA);
      assert CalculateNorm(m1, sqrt, s.eventB) == CalculateNorm(m, sqrt, s.eventB);
    }
  }

  /** One iteration of the loop over the events keeps CrossProgress with o moved out of todo. */
  lemma ProgressStep(m: Matrix, m1: Matrix, m0: Matrix, w: Weights, e: int, u: int, x: real, prev: Option<real>,
                     todo: set<int>, o: int)
    requires CrossProgress(m, m0, w, e, u, x, prev, todo) && o in todo
    requires o != e && u in Users(w, o) ==>
      m1 == SetCell(m, Lo(e, o), Hi(e, o), Cell(m, Lo(e, o), Hi(e, o)) + CrossDelta(w, e, u, x, prev, o))
    requires !(o != e && u in Users(w, o)) ==> m1 == m
    ensures CrossProgress(m1, m0, w, e, u, x, prev, todo - {o})
    ensures o != e ==> Cell(m1, Lo(e, o), Hi(e, o)) == Cell(m0, Lo(e, o), Hi(e, o)) + CrossDelta(w, e, u, x, prev, o)
  {
    if o != e {
      assert Cell(m, Lo(e, o), Hi(e, o)) == Cell(m0, Lo(e, o), Hi(e, o));
    }
  }

  /** After the loop, the cross terms match the weights with (e, u) recorded. */
  lemma CrossFinal(m: Matrix, m0: Matrix, w: Weights, e: int, u: int, x: real, prev: Option<real>)
    requires CrossProgress(m, m0, w, e, u, x, prev, {})
    requires CrossConsistent(w, m0)
    requires prev == Stored(w, e, u)
    ensures CrossConsistent(Put(w, e, u, x), m)
  {
    forall a, b | a < b ensures Cell(m, a, b) == CrossSum(Put(w, e, u, x), a, b) {
      if a == e || b == e {
        var o := if a == e then b else a;
        assert a == Lo(e, o) && b == Hi(e, o);
        if u in Users(w, o) {
          CrossSumStep(w, e, u, x, o);
        } else {
          CrossSumUntouched(w, e, u, x, a, b);
        }
      } else {
        CrossSumUntouched(w, e, u, x, a, b);
      }
    }
  }

  /** The self term of e after adding the delta matches the weights with (e, u) recorded. */
  lemma SelfFinal(w: Weights, m: Matrix, m1: Matrix, e: int, u: int, x: real, prev: Option<real>)
    requires SelfConsistent(w, m)
    requires prev == Stored(w, e, u)
    requires SelfCell(m1, e) == Some(Cell(m, e, e) + (if prev.None? then x else x - prev.value))
    requires forall f :: f != e ==> SelfCell(m1, f) == SelfCell(m, f)
    ensures SelfConsistent(Put(w, e, u, x), m1)
  {
    var w1 := Put(w, e, u, x);
    assert Cell(m, e, e) == SelfSum(w, e) by {
      if SelfCell(m, e).None? {
        NoUsers(w, m, e);
      }
    }
    SelfSumStep(w, e, u, x);
    forall f | f != e ensures SelfSum(w1, f) == SelfSum(w, f) {
      SelfSumOther(w, e, u, x, f);
    }
  }

  /** An event without a self entry has no weighted user. */
  lemma NoUsers(w: Weights, m: Matrix, e: int)
    requires SelfConsistent(w, m) && SelfCell(m, e).None?
    ensures Users(w, e) == {}
  {
    assert forall v :: v !in Users(w, e);
  }

  lemma SelfKept(w: Weights, m: Matrix, m1: Matrix)
    requires SelfConsistent(w, m) && SameSelf(m1, m)
    ensures SelfConsistent(w, m1)
  {
  }

  /** Progress measured from a matrix that differs from m0 only in self cells is progress from m0. */
  lemma ProgressRebase(m: Matrix, mid: Matrix, m0: Matrix, w: Weights, e: int, u: int, x: real, prev: Option<real>)
    requires CrossProgress(m, mid, w, e, u, x, prev, {})
    requires forall a, b | a != b :: Cell(mid, a, b) == Cell(m0, a, b)
    ensures CrossProgress(m, m0, w, e, u, x, prev, {})
  {
  }

  /** What the update proves about the weights with an added empty row holds of the weights without it. */
  lemma EmptyRowView(w: Weights, e: int, u: int, x: real, m: Matrix, m0: Matrix, sqrt: real -> real,
                     now: Instant, sims: seq<EventSimilarityAvro>)
    requires e !in w
    ensures Put(w[e := map[]], e, u, x) == Put(w, e, u, x)
    ensures Stored(w[e := map[]], e, u) == Stored(w, e, u)
    ensures CrossProgress(m, m0, w[e := map[]], e, u, x, None, {}) ==> CrossProgress(m, m0, w, e, u, x, None, {})
    ensures (forall s :: s in sims ==> EmittedFor(s, m, sqrt, w[e := map[]], e, u, now)) ==>
      (forall s :: s in sims ==> EmittedFor(s, m, sqrt, w, e, u, now))
    ensures CompleteFor(sims, m, sqrt, w[e := map[]], e, u, w.Keys + {e}) ==> CompleteFor(sims, m, sqrt, w, e, u, w.Keys)
  {
    var w0 := w[e := map[]];
    assert forall o :: Users(w0, o) == Users(w, o);
    assert forall o :: CrossDelta(w0, e, u, x, None, o) == CrossDelta(w, e, u, x, None, o);
  }

  /** The invariant of the partner loop of updateCrossDotProducts, with todo the partners still to visit. */
  ghost predicate PartnerLoop(m: Matrix, sims: seq<EventSimilarityAvro>, m0: Matrix, w: Weights, e: int, u: int,
                              x: real, prev: Option<real>, sqrt: real -> real, now: Instant, todo: set<int>)
  {
    && todo <= w.Keys
    && SameSelf(m, m0)
    && CrossProgress(m, m0, w, e, u, x, prev, todo)
    && EmitProgress(sims, m, sqrt, w, e, u, now, todo)
  }

  /** Visiting a partner o that u also weighted: its cross cell moves by the delta and its similarity, if any, is appended. */
  lemma VisitShared(m: Matrix, m1: Matrix, sims: seq<EventSimilarityAvro>, m0: Matrix, w: Weights, e: int, u: int,
                    x: real, prev: Option<real>, sqrt: real -> real, now: Instant, todo: set<int>, o: int,
                    r: Option<EventSimilarityAvro>)
    requires PartnerLoop(m, sims, m0, w, e, u, x, prev, sqrt, now, todo) && o in todo
    requires o != e && u in Users(w, o)
    requires m1 == SetCell(m, Lo(e, o), Hi(e, o), Cell(m, Lo(e, o), Hi(e, o)) + CrossDelta(w, e, u, x, prev, o))
    requires r == CalculatePairSimilarity(m1, sqrt, Lo(e, o), Hi(e, o), Cell(m1, Lo(e, o), Hi(e, o)), now)
    ensures r.Some? ==> PartnerLoop(m1, sims + [r.value], m0, w, e, u, x, prev, sqrt, now, todo - {o})
    ensures r.None? ==> PartnerLoop(m1, sims, m0, w, e, u, x, prev, sqrt, now, todo - {o})
  {
    ProgressStep(m, m1, m0, w, e, u, x, prev, todo, o);
    EmitAdd(sims, m, m1, sqrt, w, e, u, now, todo, o, Cell(m, Lo(e, o), Hi(e, o)) + CrossDelta(w, e, u, x, prev, o), r);
  }

  /** Visiting e itself or a partner u never weighted changes nothing. */
  lemma VisitOther(m: Matrix, sims: seq<EventSimilarityAvro>, m0: Matrix, w: Weights, e: int, u: int,
                   x: real, prev: Option<real>, sqrt: real -> real, now: Instant, todo: set<int>, o: int)
    requires PartnerLoop(m, sims, m0, w, e, u, x, prev, sqrt, now, todo) && o in todo
    requires o == e || u !in Users(w, o)
    ensures PartnerLoop(m, sims, m0, w, e, u, x, prev, sqrt, now, todo - {o})
  {
    ProgressStep(m, m, m0, w, e, u, x, prev, todo, o);
    EmitSkip(sims, m, sqrt, w, e, u, now, todo, o);
  }

  // ---------------------------------------------------------------------
  // Ordering of the emitted list.

  /** Comparator.comparingLong(getEventA).thenComparingLong(getEventB). */
  predicate PairLe(x: EventSimilarityAvro, y: EventSimilarityAvro)
  {
    x.eventA < y.eventA || (x.eventA == y.eventA && x.eventB <= y.eventB)
  }

  lemma PairLeIsOrder()
    ensures Sorting.Total(PairLe) && Sorting.Transitive(PairLe)
  {
  }

  /** Recording a non-negative weight keeps every stored weight non-negative. */
  lemma PutNonNegative(w: Weights, e: int, u: int, x: real)
    requires NonNegativeWeights(w) && x >= 0.0
    ensures NonNegativeWeights(Put(w, e, u, x))
  {
    var r := Put(w, e, u, x);
    forall f, v | f in r && v in r[f] ensures r[f][v] >= 0.0 {
      assert Stored(r, f, v) == Some(r[f][v]);
      if (f, v) != (e, u) {
        assert Stored(w, f, v) == Some(r[f][v]);
      }
    }
  }

  /** The guard of updateEventWeight: no stored weight, or a strictly smaller one. */
  function Accepts(w: Weights, e: int, u: int, x: real): bool
  {
    Stored(w, e, u).None? || Stored(w, e, u).value < x
  }

  class AggregatorService {
    var eventUserWeights: Weights
    var scalarResultMatrix: Matrix
    /** Configured weight per action type. */
    const actionWeights: map<ActionTypeAvro, real>
    /** Math.sqrt. */
    const sqrt: real -> real

    ghost predicate Valid()
      reads this
    {
      SelfConsistent(eventUserWeights, scalarResultMatrix)
      && CrossConsistent(eventUserWeights, scalarResultMatrix)
      && SqrtLike(sqrt)
    }

    constructor (weights: map<ActionTypeAvro, real>, sqrt: real -> real)
      requires SqrtLike(sqrt)
      ensures Valid()
      ensures eventUserWeights == map[] && scalarResultMatrix == map[]
      ensures actionWeights == weights && this.sqrt == sqrt
    {
      eventUserWeights := map[];
      scalarResultMatrix := map[];
      actionWeights := weights;
      this.sqrt := sqrt;
    }

    /** The configured weight of an action type; a type missing from the configuration weighs 0.0. */
    function GetWeight(actionType: ActionTypeAvro): (w: real)
      ensures actionType in actionWeights ==> w == actionWeights[actionType]
      ensures actionType !in actionWeights ==> w == 0.0
    {
      if actionType in actionWeights then actionWeights[actionType] else 0.0
    }

    /** Every configured action weight is non-negative. */
    predicate ConfiguredNonNegative()
    {
      forall t :: t in actionWeights ==> actionWeights[t] >= 0.0
    }

    /**
     * With non-negative stored weights, a pair's similarity is emitted
     * exactly when both of its self terms exist and are non-zero.
     */
    lemma EmittableExactlyOnSelfTerms(a: int, b: int)
      requires Valid() && NonNegativeWeights(eventUserWeights)
      ensures Emittable(scalarResultMatrix, sqrt, a, b) <==>
        && SelfCell(scalarResultMatrix, a).Some? && SelfCell(scalarResultMatrix, b).Some?
        && SelfCell(scalarResultMatrix, a).value != 0.0 && SelfCell(scalarResultMatrix, b).value != 0.0
    {
      EmittableOnSelfTerms(eventUserWeights, scalarResultMatrix, sqrt, a, b);
    }

    /**
     * Handles one user action: resolves its weight, applies it and returns
     * the similarities handed to the producer, sorted by (eventA, eventB).
     */
    method CalculateSimilarity(request: UserActionAvro, now: Instant) returns (sent: seq<EventSimilarityAvro>)
      requires Valid()
      modifies this
      ensures Valid()
      ensures var e, u, x, w := request.eventId, request.userId, GetWeight(request.actionType), old(eventUserWeights);
        if Accepts(w, e, u, x) then
          && eventUserWeights == Put(w, e, u, x)
          && CompleteFor(sent, scalarResultMatrix, sqrt, w, e, u, w.Keys)
        else
          sent == [] && scalarResultMatrix == old(scalarResultMatrix) && eventUserWeights == w
      ensures forall s :: s in sent ==>
        EmittedFor(s, scalarResultMatrix, sqrt, old(eventUserWeights), request.eventId, request.userId, now)
      ensures forall i, j :: 0 <= i < j < |sent| ==>
        sent[i].eventA < sent[j].eventA || (sent[i].eventA == sent[j].eventA && sent[i].eventB < sent[j].eventB)
      ensures ConfiguredNonNegative() && NonNegativeWeights(old(eventUserWeights)) ==> NonNegativeWeights(eventUserWeights)
    {
      var newWeight := GetWeight(request.actionType);
      var similarities := UpdateEventWeight(request.eventId, request.userId, newWeight, now);
      if ConfiguredNonNegative() && NonNegativeWeights(old(eventUserWeights))
         && Accepts(old(eventUserWeights), request.eventId, request.userId, newWeight) {
        PutNonNegative(old(eventUserWeights), request.eventId, request.userId, newWeight);
      }
      sent := Sorting.SortBy(similarities, PairLe);
      PairLeIsOrder();
      Sorting.SortBySorted(similarities, PairLe);
      forall s ensures s in sent <==> s in similarities {
        Sorting.SortByMembers(similarities, PairLe, s);
      }
      Sorting.PermutationKeepsDistinctKeys(similarities, sent, s => Partner(s, request.eventId));
      assert DistinctPartners(sent, request.eventId);
      forall i, j | 0 <= i < j < |sent|
        ensures sent[i].eventA < sent[j].eventA || (sent[i].eventA == sent[j].eventA && sent[i].eventB < sent[j].eventB)
      {
        assert sent[i] in sent && sent[j] in sent;
        assert PairLe(sent[i], sent[j]);
        assert Partner(sent[i], request.eventId) != Partner(sent[j], request.eventId);
      }
    }

    /**
     * Applies a weight: records it when there is none or it is strictly
     * larger than the stored one, and returns the recomputed similarities.
     */
    method UpdateEventWeight(eventId: int, userId: int, newWeight: real, now: Instant)
      returns (sims: seq<EventSimilarityAvro>)
      requires Valid()
      modifies this
      ensures Valid()
      ensures var w, m := old(eventUserWeights), old(scalarResultMatrix);
        var current := Stored(w, eventId, userId);
        if Accepts(w, eventId, userId, newWeight) then
          && eventUserWeights == Put(w, eventId, userId, newWeight)
          && Cell(scalarResultMatrix, eventId, eventId)
             == Cell(m, eventId, eventId) + (if current.Some? then newWeight - current.value else newWeight)
          && CrossProgress(scalarResultMatrix, m, w, eventId, userId, newWeight, current, {})
          && CompleteFor(sims, scalarResultMatrix, sqrt, w, eventId, userId, w.Keys)
        else
          sims == [] && scalarResultMatrix == m && eventUserWeights == w
      ensures forall s :: s in sims ==> EmittedFor(s, scalarResultMatrix, sqrt, old(eventUserWeights), eventId, userId, now)
      ensures DistinctPartners(sims, eventId)
      ensures forall e, u :: Stored(old(eventUserWeights), e, u).Some? ==>
        Stored(eventUserWeights, e, u).Some? && Stored(eventUserWeights, e, u).value >= Stored(old(eventUserWeights), e, u).value
    {
      ghost var w, m := eventUserWeights, scalarResultMatrix;
      if eventId !in eventUserWeights {
        EmptyRowHarmless(eventUserWeights, eventId, scalarResultMatrix);
        eventUserWeights := eventUserWeights[eventId := map[]];
      }
      var currentWeight: Option<real> := if userId in eventUserWeights[eventId] then Some(eventUserWeights[eventId][userId]) else None;
      assert currentWeight == Stored(w, eventId, userId);
      if currentWeight.None? || currentWeight.value < newWeight {
        sims := RecalculateSimilarities(eventId, userId, newWeight, currentWeight, now);
        eventUserWeights := eventUserWeights[eventId := eventUserWeights[eventId][userId := newWeight]];
        if eventId !in w {
          EmptyRowView(w, eventId, userId, newWeight, scalarResultMatrix, m, sqrt, now, sims);
        }
      } else {
        sims := [];
      }
    }

    /** Adds the weight delta to the self term, then updates the cross terms. */
    method RecalculateSimilarities(eventId: int, userId: int, newWeight: real, oldWeight: Option<real>, now: Instant)
      returns (sims: seq<EventSimilarityAvro>)
      requires Valid()
      requires eventId in eventUserWeights
      requires oldWeight == Stored(eventUserWeights, eventId, userId)
      modifies this`scalarResultMatrix
      ensures SelfConsistent(Put(eventUserWeights, eventId, userId, newWeight), scalarResultMatrix)
      ensures CrossConsistent(Put(eventUserWeights, eventId, userId, newWeight), scalarResultMatrix)
      ensures Cell(scalarResultMatrix, eventId, eventId)
        == Cell(old(scalarResultMatrix), eventId, eventId) + (if oldWeight.Some? then newWeight - oldWeight.value else newWeight)
      ensures CrossProgress(scalarResultMatrix, old(scalarResultMatrix), eventUserWeights, eventId, userId, newWeight, oldWeight, {})
      ensures CompleteFor(sims, scalarResultMatrix, sqrt, eventUserWeights, eventId, userId, eventUserWeights.Keys)
      ensures forall s :: s in sims ==> EmittedFor(s, scalarResultMatrix, sqrt, eventUserWeights, eventId, userId, now)
      ensures DistinctPartners(sims, eventId)
    {
      ghost var m := scalarResultMatrix;
      var selfDotProducts := if eventId in scalarResultMatrix then scalarResultMatrix[eventId] else map[];
      var currentSelfProduct := if eventId in selfDotProducts then selfDotProducts[eventId] else 0.0;
      var weightDelta := if oldWeight.None? then newWeight else newWeight - oldWeight.value;
      scalarResultMatrix := scalarResultMatrix[eventId := selfDotProducts[eventId := currentSelfProduct + weightDelta]];
      ghost var mid := scalarResultMatrix;
      SelfFinal(eventUserWeights, m, mid, eventId, userId, newWeight, oldWeight);
      assert forall a, b | a != b :: Cell(mid, a, b) == Cell(m, a, b);
      sims := UpdateCrossDotProducts(eventId, userId, newWeight, oldWeight, now);
      SelfKept(Put(eventUserWeights, eventId, userId, newWeight), mid, scalarResultMatrix);
      ProgressRebase(scalarResultMatrix, mid, m, eventUserWeights, eventId, userId, newWeight, oldWeight);
      CrossFinal(scalarResultMatrix, m, eventUserWeights, eventId, userId, newWeight, oldWeight);
      assert SelfCell(scalarResultMatrix, eventId) == SelfCell(mid, eventId);
    }

    /** Loops over every event and updates the cross term shared with each event the user already weighted. */
    method UpdateCrossDotProducts(updatedEventId: int, userId: int, newWeight: real, oldWeight: Option<real>, now: Instant)
      returns (updatedSimilarities: seq<EventSimilarityAvro>)
      requires updatedEventId in eventUserWeights
      modifies this`scalarResultMatrix
      ensures SameSelf(scalarResultMatrix, old(scalarResultMatrix))
      ensures CrossProgress(scalarResultMatrix, old(scalarResultMatrix), eventUserWeights, updatedEventId, userId, newWeight, oldWeight, {})
      ensures forall s :: s in updatedSimilarities ==>
        EmittedFor(s, scalarResultMatrix, sqrt, eventUserWeights, updatedEventId, userId, now)
      ensures DistinctPartners(updatedSimilarities, updatedEventId)
      ensures CompleteFor(updatedSimilarities, scalarResultMatrix, sqrt, eventUserWeights, updatedEventId, userId, eventUserWeights.Keys)
    {
      ghost var w := eventUserWeights;
      ghost var m0 := scalarResultMatrix;
      updatedSimilarities := [];
      var todo := eventUserWeights.Keys;
      while todo != {}
        invariant PartnerLoop(scalarResultMatrix, updatedSimilarities, m0, w, updatedEventId, userId, newWeight, oldWeight, sqrt, now, todo)
        decreases todo
      {
        NonEmpty(todo);
        var otherEventId :| otherEventId in todo;
        ghost var mBefore := scalarResultMatrix;
        var visited := false;
        if otherEventId != updatedEventId {
          var eventA, eventB, isUpdatedFirst;
          if updatedEventId < otherEventId {
            eventA, eventB, isUpdatedFirst := updatedEventId, otherEventId, true;
          } else {
            eventA, eventB, isUpdatedFirst := otherEventId, updatedEventId, false;
          }
          var otherUserWeights := eventUserWeights[otherEventId];
          if userId in otherUserWeights {
            var otherWeight := otherUserWeights[userId];
            var similarity := UpdateDotProductForPair(eventA, eventB, newWeight, oldWeight, otherWeight, isUpdatedFirst, now);
            assert eventA == Lo(updatedEventId, otherEventId) && eventB == Hi(updatedEventId, otherEventId);
            assert otherWeight == At(w, otherEventId, userId);
            VisitShared(mBefore, scalarResultMatrix, updatedSimilarities, m0, w, updatedEventId, userId, newWeight, oldWeight,
                        sqrt, now, todo, otherEventId, similarity);
            if similarity.Some? {
              updatedSimilarities := updatedSimilarities + [similarity.value];
            }
            visited := true;
          }
        }
        if !visited {
          VisitOther(mBefore, updatedSimilarities, m0, w, updatedEventId, userId, newWeight, oldWeight, sqrt, now, todo, otherEventId);
        }
        todo := todo - {otherEventId};
      }
      assert w.Keys - todo == w.Keys;
    }

    /**
     * Adds to the dot product of a pair the new min of the two weights minus
     * the old one; then the pair's similarity if both norms are non-zero.
     */
    method UpdateDotProductForPair(eventA: int, eventB: int, newWeight: real, oldWeight: Option<real>,
                                   otherWeight: real, isUpdatedFirst: bool, now: Instant)
      returns (similarity: Option<EventSimilarityAvro>)
      requires eventA < eventB
      modifies this`scalarResultMatrix
      ensures scalarResultMatrix == SetCell(old(scalarResultMatrix), eventA, eventB,
        Cell(old(scalarResultMatrix), eventA, eventB) + Min(newWeight, otherWeight)
          - (if oldWeight.Some? then Min(oldWeight.value, otherWeight) else 0.0))
      ensures similarity == CalculatePairSimilarity(scalarResultMatrix, sqrt, eventA, eventB, Cell(scalarResultMatrix, eventA, eventB), now)
    {
      var dotProducts := if eventA in scalarResultMatrix then scalarResultMatrix[eventA] else map[];
      var currentDotProduct := if eventB in dotProducts then dotProducts[eventB] else 0.0;
      var oldMinWeight := if oldWeight.None? then 0.0 else Min(oldWeight.value, otherWeight);
      var weightForMin := if isUpdatedFirst then newWeight else otherWeight;
      var newMinWeight := Min(weightForMin, if isUpdatedFirst then otherWeight else newWeight);
      var dotProductDelta := newMinWeight - oldMinWeight;
      var updatedDotProduct := currentDotProduct + dotProductDelta;
      scalarResultMatrix := scalarResultMatrix[eventA := dotProducts[eventB := updatedDotProduct]];
      similarity := CalculatePairSimilarity(scalarResultMatrix, sqrt, eventA, eventB, updatedDotProduct, now);
    }
  }
}
