/** The lists the two comparisons return, entry by entry, and the order in which the entries come. */
module AnalyzerLists {
  import opened Basics
  import opened Analyzer

  // ---------------------------------------------------------------- the order

  /** `a` ends where `b` goes on, or they first differ in a character that is smaller in `a`. */
  ghost predicate Before(a: string, b: string) {
    exists n: nat :: FirstDifference(a, b, n)
  }

  ghost predicate FirstDifference(a: string, b: string, n: nat) {
    && n <= |a| && n <= |b| && a[..n] == b[..n]
    && (n == |a| < |b| || (n < |a| && n < |b| && a[n] < b[n]))
  }

  /** The order of strings is the dictionary order. */
  lemma {:induction false} LessExactly(a: string, b: string)
    ensures Less(a, b) <==> Before(a, b)
    decreases |a|
  {
    if a == "" || b == "" || a[0] != b[0] {
      LessAtOnce(a, b);
    } else {
      LessExactly(a[1..], b[1..]);
      if Less(a, b) {
        var n: nat :| FirstDifference(a[1..], b[1..], n);
        assert a[..n + 1] == [a[0]] + a[1..][..n] && b[..n + 1] == [b[0]] + b[1..][..n];
        assert FirstDifference(a, b, n + 1);
      }
      if n: nat :| FirstDifference(a, b, n) {
        assert n > 0 && a[1..][..n - 1] == a[..n][1..] && b[1..][..n - 1] == b[..n][1..];
        assert FirstDifference(a[1..], b[1..], n - 1);
      }
    }
  }

  lemma {:induction false} LessAtOnce(a: string, b: string)
    requires a == "" || b == "" || a[0] != b[0]
    ensures Less(a, b) <==> Before(a, b)
  {
    if Less(a, b) {
      assert FirstDifference(a, b, 0);
    }
    forall n: nat ensures FirstDifference(a, b, n) && n > 0 ==> a != "" && b != "" && a[0] == b[0] {
      SameHead(a, b, n);
    }
  }

  lemma {:induction false} SameHead(a: string, b: string, n: nat)
    ensures FirstDifference(a, b, n) && n > 0 ==> a != "" && b != "" && a[0] == b[0]
  {
    if FirstDifference(a, b, n) && n > 0 {
      assert a[..n][0] == b[..n][0];
    }
  }

  /** By check id; within one check by section. */
  ghost predicate Earlier(a: Key, b: Key) {
    || Before(a.checkId, b.checkId)
    || (a.checkId == b.checkId && a.section.Some? && b.section.Some? && Before(a.section.value, b.section.value))
  }

  lemma {:induction false} KeyLessExactly(a: Key, b: Key)
    ensures KeyLess(a, b) <==> Earlier(a, b)
  {
    LessExactly(a.checkId, b.checkId);
    LessIsStrict(a.checkId);
    if a.section.Some? && b.section.Some? {
      LessExactly(a.section.value, b.section.value);
    }
  }

  lemma {:induction false} SortedKeys(keys: set<Key>, i: nat, j: nat)
    requires Comparable(keys) && i < j < |Sorted(keys)|
    ensures Earlier(Sorted(keys)[i], Sorted(keys)[j])
  {
    KeyLessExactly(Sorted(keys)[i], Sorted(keys)[j]);
  }

  lemma {:induction false} SortedHas(keys: set<Key>, k: Key)
    requires Comparable(keys)
    ensures k in keys <==> exists i :: 0 <= i < |Sorted(keys)| && Sorted(keys)[i] == k
  {
    assert k in Elements(Sorted(keys)) <==> k in Sorted(keys);
  }

  // ---------------------------------------------------------------- the regression diff

  ghost predicate ChangesAscend(list: seq<Change>) {
    forall i, j :: 0 <= i < j < |list| ==> Earlier(list[i].key, list[j].key)
  }

  ghost predicate FindingsAscend(list: seq<Finding>) {
    forall i, j :: 0 <= i < j < |list| ==> Earlier(list[i].key, list[j].key)
  }

  /** The four lists are in ascending order of their keys. */
  lemma {:induction false} DiffAscends(b: map<Key, Event>, a: map<Key, Event>)
    requires Comparable(b.Keys + a.Keys)
    ensures var d := DiffOf(b, a);
            && ChangesAscend(d.regressions) && ChangesAscend(d.fixes) && FindingsAscend(d.newFindings) && FindingsAscend(d.removed)
  {
    hide Comparable;
    hide Earlier;
    SubsetsComparable(b, a);
    ChangesInOrder(RegressionKeys(b, a), b, a);
    ChangesInOrder(FixKeys(b, a), b, a);
    FindingsInOrder(a.Keys - b.Keys, a);
    FindingsInOrder(b.Keys - a.Keys, b);
  }

  lemma {:induction false} SubsetsComparable(b: map<Key, Event>, a: map<Key, Event>)
    requires Comparable(b.Keys + a.Keys)
    ensures Comparable(RegressionKeys(b, a)) && Comparable(FixKeys(b, a))
    ensures Comparable(a.Keys - b.Keys) && Comparable(b.Keys - a.Keys)
  {
  }

  lemma {:induction false} ChangesInOrder(keys: set<Key>, b: map<Key, Event>, a: map<Key, Event>)
    requires Comparable(keys) && keys <= b.Keys * a.Keys
    ensures ChangesAscend(ChangesFor(Sorted(keys), b, a))
  {
    hide Earlier;
    forall i, j | 0 <= i < j < |Sorted(keys)| ensures Earlier(Sorted(keys)[i], Sorted(keys)[j]) {
      SortedKeys(keys, i, j);
    }
  }

  lemma {:induction false} FindingsInOrder(keys: set<Key>, m: map<Key, Event>)
    requires Comparable(keys) && keys <= m.Keys
    ensures FindingsAscend(FindingsFor(Sorted(keys), m))
  {
    hide Earlier;
    forall i, j | 0 <= i < j < |Sorted(keys)| ensures Earlier(Sorted(keys)[i], Sorted(keys)[j]) {
      SortedKeys(keys, i, j);
    }
  }

  lemma {:induction false} ChangeListed(keys: set<Key>, b: map<Key, Event>, a: map<Key, Event>, c: Change)
    requires Comparable(keys) && keys <= b.Keys * a.Keys
    ensures c in ChangesFor(Sorted(keys), b, a) <==>
              && c.key in keys && c.title == a[c.key].title
              && c.before == b[c.key].severityClass + ":" + b[c.key].level
              && c.after == a[c.key].severityClass + ":" + a[c.key].level
  {
    hide Comparable;
    var list := ChangesFor(Sorted(keys), b, a);
    SortedHas(keys, c.key);
    if c in list {
      var i :| 0 <= i < |list| && list[i] == c;
      assert Sorted(keys)[i] == c.key;
    }
    if c.key in keys {
      var i :| 0 <= i < |Sorted(keys)| && Sorted(keys)[i] == c.key;
      assert list[i] in list;
    }
  }

  lemma {:induction false} FindingListed(keys: set<Key>, m: map<Key, Event>, f: Finding)
    requires Comparable(keys) && keys <= m.Keys
    ensures f in FindingsFor(Sorted(keys), m) <==>
              && f.key in keys && f.title == m[f.key].title && f.severity == m[f.key].severityClass + ":" + m[f.key].level
  {
    hide Comparable;
    var list := FindingsFor(Sorted(keys), m);
    SortedHas(keys, f.key);
    if f in list {
      var i :| 0 <= i < |list| && list[i] == f;
      assert Sorted(keys)[i] == f.key;
    }
    if f.key in keys {
      var i :| 0 <= i < |Sorted(keys)| && Sorted(keys)[i] == f.key;
      assert list[i] in list;
    }
  }

  /**
   What stands in the four lists. A regression blocks after and not before, a fix the other way round;
   both carry the title of after. A new finding is only in after, a removed one only in before.
   */
  lemma {:induction false} DiffExactly(b: map<Key, Event>, a: map<Key, Event>, c: Change, f: Finding)
    requires Comparable(b.Keys + a.Keys)
    ensures c in DiffOf(b, a).regressions <==>
              && c.key in b && c.key in a && c.title == a[c.key].title
              && b[c.key].severityClass != "blocking" && a[c.key].severityClass == "blocking"
              && c.before == b[c.key].severityClass + ":" + b[c.key].level && c.after == "blocking:" + a[c.key].level
    ensures c in DiffOf(b, a).fixes <==>
              && c.key in b && c.key in a && c.title == a[c.key].title
              && b[c.key].severityClass == "blocking" && a[c.key].severityClass != "blocking"
              && c.before == "blocking:" + b[c.key].level && c.after == a[c.key].severityClass + ":" + a[c.key].level
    ensures f in DiffOf(b, a).newFindings <==>
              && f.key in a && f.key !in b
              && f.title == a[f.key].title && f.severity == a[f.key].severityClass + ":" + a[f.key].level
    ensures f in DiffOf(b, a).removed <==>
              && f.key in b && f.key !in a
              && f.title == b[f.key].title && f.severity == b[f.key].severityClass + ":" + b[f.key].level
  {
    hide Comparable;
    hide ChangesFor;
    hide FindingsFor;
    SubsetsComparable(b, a);
    ChangeListed(RegressionKeys(b, a), b, a, c);
    ChangeListed(FixKeys(b, a), b, a, c);
    FindingListed(a.Keys - b.Keys, a, f);
    FindingListed(b.Keys - a.Keys, b, f);
    forall level: string ensures "blocking" + ":" + level == "blocking:" + level {
      assert "blocking" + ":" == "blocking:";
    }
  }

  /** Two findings that are new come out with "a" before "b", whichever the report names first. */
  lemma {:induction false} NewFindingsInOrder(x: Event, y: Event)
    requires x.key == Key("a", None) && y.key == Key("b", None)
    ensures var a := Index([y, x]);
            && Comparable(a.Keys)
            && DiffOf(Index([]), a) == Diff([], [], [Finding(x.key, x.severityClass + ":" + x.level, x.title),
                                                 Finding(y.key, y.severityClass + ":" + y.level, y.title)], [])
  {
    hide *;
    TwoEvents(x, y);
    TwoKeysSorted(x.key, y.key);
    TwoFindings(x, y, Index([y, x]));
  }

  lemma {:induction false} TwoEvents(x: Event, y: Event)
    requires x.key != y.key
    ensures Index([y, x]) == map[x.key := x, y.key := y] && Index([]) == map[]
  {
    assert [y, x][..1] == [y] && [y][..0] == [];
    assert Index([y]) == map[y.key := y];
  }

  lemma {:induction false} TwoKeysSorted(x: Key, y: Key)
    requires x == Key("a", None) && y == Key("b", None)
    ensures Comparable({x, y}) && Sorted({x, y}) == [x, y]
  {
    hide Sorted;
    hide KeyLess;
    var order := [x, y];
    assert FirstDifference("a", "b", 0);
    KeyLessExactly(x, y);
    assert Elements(order) == {x, y};
    AscendingIsSorted(order);
  }

  lemma {:induction false} TwoFindings(x: Event, y: Event, a: map<Key, Event>)
    requires x.key != y.key && a == map[x.key := x, y.key := y]
    requires Comparable({x.key, y.key}) && Sorted({x.key, y.key}) == [x.key, y.key]
    ensures a.Keys == {x.key, y.key} && Comparable({} + a.Keys)
    ensures DiffOf(map[], a) == Diff([], [], [Finding(x.key, x.severityClass + ":" + x.level, x.title),
                                              Finding(y.key, y.severityClass + ":" + y.level, y.title)], [])
  {
    hide Sorted;
    hide Comparable;
    var none: map<Key, Event> := map[];
    assert a.Keys == {x.key, y.key} && {} + a.Keys == a.Keys && none.Keys == {};
    ListSizes(none, a);
    assert RegressionKeys(none, a) == FixKeys(none, a) == none.Keys - a.Keys == {};
    assert a.Keys - none.Keys == a.Keys;
  }

  // ---------------------------------------------------------------- the divergences

  /** Two platforms report the key in different classes, and the entry lists the class on every platform that has it. */
  ghost predicate Diverges(m: map<string, Events>, v: Divergence) {
    && (exists p, q :: p in m && q in m && v.key in m[p] && v.key in m[q]
                       && m[p][v.key].severityClass != m[q][v.key].severityClass)
    && (forall p :: p in v.results <==> p in m && v.key in m[p])
    && (forall p :: p in v.results ==> v.results[p] == m[p][v.key].severityClass)
  }

  ghost predicate DivergencesAscend(list: seq<Divergence>) {
    forall i, j :: 0 <= i < j < |list| ==> Earlier(list[i].key, list[j].key)
  }

  /** The divergences are all entries that diverge, in ascending order of their keys. */
  lemma {:induction false} DivergencesExactly(m: map<string, Events>, v: Divergence)
    requires Comparable(AllKeys(m))
    ensures Comparable(DivergentKeys(m))
    ensures var found := DivergencesFor(Sorted(DivergentKeys(m)), m);
            DivergencesAscend(found) && (v in found <==> Diverges(m, v))
  {
    hide *;
    SomeOfAll(m);
    var keys := DivergentKeys(m);
    DivergencesInOrder(keys, m);
    SortedHas(keys, v.key);
    DivergenceListed(Sorted(keys), m, v);
    DivergesExactly(m, v);
  }

  lemma {:induction false} DivergencesInOrder(keys: set<Key>, m: map<string, Events>)
    requires Comparable(keys)
    ensures DivergencesAscend(DivergencesFor(Sorted(keys), m))
  {
    hide Earlier;
    hide Results;
    forall i, j | 0 <= i < j < |Sorted(keys)| ensures Earlier(Sorted(keys)[i], Sorted(keys)[j]) {
      SortedKeys(keys, i, j);
    }
  }

  lemma {:induction false} DivergesExactly(m: map<string, Events>, v: Divergence)
    ensures Diverges(m, v) <==> v.key in DivergentKeys(m) && v.results == Results(m, v.key)
  {
    hide DivergentKeys;
    hide Results;
    DivergentExactly(m, v.key);
    ResultsExactly(m, v);
  }

  lemma {:induction false} DivergentExactly(m: map<string, Events>, k: Key)
    ensures k in DivergentKeys(m) <==>
              exists p, q :: p in m && q in m && k in m[p] && k in m[q] && m[p][k].severityClass != m[q][k].severityClass
  {
  }

  lemma {:induction false} ResultsExactly(m: map<string, Events>, v: Divergence)
    ensures v.results == Results(m, v.key) <==>
              && (forall p :: p in v.results <==> p in m && v.key in m[p])
              && (forall p :: p in v.results ==> v.results[p] == m[p][v.key].severityClass)
  {
  }

  lemma {:induction false} DivergenceListed(keys: seq<Key>, m: map<string, Events>, v: Divergence)
    ensures v in DivergencesFor(keys, m) <==> (exists i :: 0 <= i < |keys| && keys[i] == v.key) && v.results == Results(m, v.key)
  {
    hide Results;
    var list := DivergencesFor(keys, m);
    if v in list {
      var i :| 0 <= i < |list| && list[i] == v;
      assert keys[i] == v.key;
    }
    if i :| 0 <= i < |keys| && keys[i] == v.key {
      assert list[i] in list;
    }
  }

  /** Of two listed platforms the earlier one has a report before all reports of the other. */
  lemma {:induction false} PlatformsByFirstReport(reports: seq<Report>, i: nat, j: nat)
    requires i < j < |Platforms(reports)|
    ensures exists f :: 0 <= f < |reports| && reports[f].platform == Platforms(reports)[i]
                        && forall g :: 0 <= g <= f ==> reports[g].platform != Platforms(reports)[j]
    decreases |reports|
  {
    hide ByPlatform;
    hide Platforms;
    var some := ReportOf(reports, i);
    var front, last := reports[..|reports| - 1], reports[|reports| - 1];
    PlatformStep(reports, |reports| - 1);
    assert reports[..|reports|] == reports;
    var ps := Platforms(front);
    var f: nat;
    if j < |ps| {
      PlatformsByFirstReport(front, i, j);
      f :| 0 <= f < |front| && front[f].platform == ps[i] && forall g :: 0 <= g <= f ==> front[g].platform != ps[j];
    } else {
      f := ReportOf(front, i);
      NotYet(front, last.platform);
    }
    assert reports[f].platform == Platforms(reports)[i];
  }

  lemma {:induction false} ReportOf(reports: seq<Report>, i: nat) returns (f: nat)
    requires i < |Platforms(reports)|
    ensures f < |reports| && reports[f].platform == Platforms(reports)[i]
  {
    assert Platforms(reports)[i] in Elements(Platforms(reports));
    f :| 0 <= f < |reports| && reports[f].platform == Platforms(reports)[i];
  }

  lemma {:induction false} NotYet(reports: seq<Report>, plat: string)
    ensures plat !in ByPlatform(reports) ==> forall g :: 0 <= g < |reports| ==> reports[g].platform != plat
  {
  }
}
