/**
 * Counting over the records of a map, as the container manager does when it
 * tallies colours (`assignedColors`) or collects numbers
 * (`Object.values(tempContainers).map(c => c.number)`). The order in which
 * the records are visited does not matter, which `TallyPick` proves.
 */
module Tallies {

  /** The multiset of `f(m[k])` over the keys `ids`. */
  ghost function Tally<K, V, W>(m: map<K, V>, ids: set<K>, f: V -> W): multiset<W>
    requires ids <= m.Keys
    decreases ids
  {
    if ids == {} then multiset{}
    else
      var k :| k in ids;
      Tally(m, ids - {k}, f) + multiset{f(m[k])}
  }

  /** Any key may be taken out first: the tally does not depend on the visiting order. */
  lemma {:induction false} TallyPick<K, V, W>(m: map<K, V>, ids: set<K>, f: V -> W, k: K)
    requires ids <= m.Keys && k in ids
    ensures Tally(m, ids, f) == Tally(m, ids - {k}, f) + multiset{f(m[k])}
    decreases ids
  {
    var j :| j in ids && Tally(m, ids, f) == Tally(m, ids - {j}, f) + multiset{f(m[j])};
    if j != k {
      TallyPick(m, ids - {j}, f, k);
      TallyPick(m, ids - {k}, f, j);
      assert ids - {j} - {k} == ids - {k} - {j};
    }
  }

  /** One entry per key. */
  lemma {:induction false} TallySize<K, V, W>(m: map<K, V>, ids: set<K>, f: V -> W)
    requires ids <= m.Keys
    ensures |Tally(m, ids, f)| == |ids|
    decreases ids
  {
    if ids != {} {
      var k :| k in ids;
      TallyPick(m, ids, f, k);
      TallySize(m, ids - {k}, f);
    }
  }

  /** Every key contributes its value, and every value comes from a key. */
  lemma {:induction false} TallyMembers<K, V, W>(m: map<K, V>, ids: set<K>, f: V -> W)
    requires ids <= m.Keys
    ensures forall k :: k in ids ==> f(m[k]) in Tally(m, ids, f)
    ensures forall w :: w in Tally(m, ids, f) ==> exists k :: k in ids && f(m[k]) == w
    decreases ids
  {
    if ids != {} {
      var k :| k in ids;
      TallyPick(m, ids, f, k);
      TallyMembers(m, ids - {k}, f);
      forall j | j in ids ensures f(m[j]) in Tally(m, ids, f) {
        if j != k {
          assert j in ids - {k};
        }
      }
    }
  }

  /** The tally only looks at the keys it counts. */
  lemma {:induction false} TallyAgree<K, V, W>(m1: map<K, V>, m2: map<K, V>, ids: set<K>, f: V -> W)
    requires ids <= m1.Keys && ids <= m2.Keys
    requires forall k :: k in ids ==> m1[k] == m2[k]
    ensures Tally(m1, ids, f) == Tally(m2, ids, f)
    decreases ids
  {
    if ids != {} {
      var k :| k in ids;
      TallyPick(m1, ids, f, k);
      TallyPick(m2, ids, f, k);
      TallyAgree(m1, m2, ids - {k}, f);
    }
  }

  /** Counting one more key adds its value to the tally. */
  lemma TallyAddKey<K, V, W>(m: map<K, V>, ids: set<K>, f: V -> W, k: K)
    requires ids <= m.Keys && k in m && k !in ids
    ensures Tally(m, ids + {k}, f) == Tally(m, ids, f) + multiset{f(m[k])}
  {
    TallyPick(m, ids + {k}, f, k);
    assert ids + {k} - {k} == ids;
  }

  /** Adding a fresh key adds its value to the tally of all keys. */
  lemma TallyInsert<K, V, W>(m: map<K, V>, k: K, v: V, f: V -> W)
    requires k !in m
    ensures Tally(m[k := v], m[k := v].Keys, f) == Tally(m, m.Keys, f) + multiset{f(v)}
  {
    var m' := m[k := v];
    TallyPick(m', m'.Keys, f, k);
    assert m'.Keys - {k} == m.Keys;
    TallyAgree(m', m, m.Keys, f);
  }

  /** `top` is the largest multiplicity in `ms` (0 when `ms` is empty). */
  ghost predicate IsMaxCount<W>(ms: multiset<W>, top: nat) {
    && (forall w :: w in ms ==> ms[w] <= top)
    && (top == 0 || exists w :: w in ms && ms[w] == top)
  }

  lemma {:induction false} MaxCountExists<W>(ms: multiset<W>)
    ensures exists top: nat :: IsMaxCount(ms, top)
    decreases |ms|
  {
    if ms == multiset{} {
      assert IsMaxCount(ms, 0);
    } else {
      var w :| w in ms;
      var rest := ms - multiset{w};
      MaxCountExists(rest);
      var top': nat :| IsMaxCount(rest, top');
      var top: nat := if ms[w] > top' then ms[w] else top';
      forall v | v in ms ensures ms[v] <= top {
        if v != w {
          assert ms[v] == rest[v];
        }
      }
      if top != ms[w] {
        var v :| v in rest && rest[v] == top';
        assert v != w;
        assert ms[v] == top;
      }
      assert IsMaxCount(ms, top);
    }
  }

  lemma MaxCountUnique<W>(ms: multiset<W>, a: nat, b: nat)
    requires IsMaxCount(ms, a) && IsMaxCount(ms, b)
    ensures a == b
  {
    if a != 0 {
      var w :| w in ms && ms[w] == a;
    }
    if b != 0 {
      var w :| w in ms && ms[w] == b;
    }
  }

  /** Counting one more `w` keeps a running maximum up to date. */
  lemma MaxCountAdd<W>(ms: multiset<W>, top: nat, w: W)
    requires IsMaxCount(ms, top)
    ensures var ms' := ms + multiset{w};
      IsMaxCount(ms', if ms'[w] > top then ms'[w] else top)
  {
    var ms' := ms + multiset{w};
    if ms'[w] <= top && top != 0 {
      var v :| v in ms && ms[v] == top;
      assert ms'[v] >= ms[v];
    }
  }

  /** The largest multiplicity in `ms`. */
  ghost function MaxCount<W>(ms: multiset<W>): (top: nat)
    ensures IsMaxCount(ms, top)
  {
    MaxCountExists(ms);
    var top: nat :| IsMaxCount(ms, top);
    top
  }
}
