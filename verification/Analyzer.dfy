/**
 The artifact analyzer's two comparisons: the regression diff of two reports, and the divergence of
 several reports across platforms. A report is its platform and its list of normalized events.
 */
module Analyzer {
  import opened Basics

  // ---------------------------------------------------------------- keys and their order

  /** Flat reports have no section. */
  datatype Key = Key(checkId: string, section: Option<string>)

  /** Strings order by their first difference. */
  predicate Less(a: string, b: string) {
    if a == "" then b != ""
    else b != "" && (a[0] < b[0] || (a[0] == b[0] && Less(a[1..], b[1..])))
  }

  predicate KeyLess(a: Key, b: Key) {
    if a.checkId != b.checkId then Less(a.checkId, b.checkId)
    else a.section.Some? && b.section.Some? && Less(a.section.value, b.section.value)
  }

  datatype SortError = TypeError

  /** `<` on two keys: comparing a missing section with a present one raises a TypeError. */
  function LessThan(a: Key, b: Key): Result<bool, SortError> {
    if a.checkId != b.checkId then Ok(Less(a.checkId, b.checkId))
    else if a.section == b.section then Ok(false)
    else if a.section.Some? && b.section.Some? then Ok(Less(a.section.value, b.section.value))
    else Err(TypeError)
  }

  /** No check occurs both with and without a section. */
  predicate Comparable(keys: set<Key>) {
    forall a, b :: a in keys && b in keys && a.checkId == b.checkId ==> a.section.Some? == b.section.Some?
  }

  lemma {:induction false} LessIsStrict(a: string)
    ensures !Less(a, a)
  {
    if a != "" { LessIsStrict(a[1..]); }
  }

  lemma {:induction false} LessIsOrder(a: string, b: string, c: string)
    ensures a == b || Less(a, b) || Less(b, a)
    ensures Less(a, b) && Less(b, c) ==> Less(a, c)
    decreases |a| + |b| + |c|
  {
    if a != "" && b != "" {
      LessIsOrder(a[1..], b[1..], if c == "" then c else c[1..]);
      assert a == [a[0]] + a[1..] && b == [b[0]] + b[1..];
    }
  }

  lemma {:induction false} KeyLessIsOrder(a: Key, b: Key, c: Key)
    requires Comparable({a, b, c})
    ensures !KeyLess(a, a)
    ensures a == b || KeyLess(a, b) || KeyLess(b, a)
    ensures KeyLess(a, b) && KeyLess(b, c) ==> KeyLess(a, c)
  {
    LessIsOrder(a.checkId, b.checkId, c.checkId);
    LessIsStrict(a.checkId);
    if a.section.Some? { LessIsStrict(a.section.value); }
    if a.section.Some? && b.section.Some? {
      LessIsOrder(a.section.value, b.section.value, if c.section.Some? then c.section.value else "");
    }
  }

  predicate Ascending(order: seq<Key>) {
    forall i, j :: 0 <= i < j < |order| ==> KeyLess(order[i], order[j])
  }

  function Elements<T>(s: seq<T>): set<T> {
    set x | x in s
  }

  predicate Least(k: Key, keys: set<Key>) {
    k in keys && forall other :: other in keys && other != k ==> KeyLess(k, other)
  }

  lemma {:induction false} LeastExists(keys: set<Key>)
    requires keys != {} && Comparable(keys)
    ensures exists k :: Least(k, keys)
    ensures forall k, other :: Least(k, keys) && Least(other, keys) ==> k == other
    decreases |keys|
  {
    forall k, other | Least(k, keys) && Least(other, keys) ensures k == other {
      KeyLessIsOrder(k, other, k);
    }
    var some :| some in keys;
    if keys == {some} {
      assert Least(some, keys);
    } else {
      LeastExists(keys - {some});
      var rest :| Least(rest, keys - {some});
      KeyLessIsOrder(some, rest, some);
      if KeyLess(some, rest) {
        forall other | other in keys && other != some ensures KeyLess(some, other) {
          if other != rest { KeyLessIsOrder(some, rest, other); }
        }
        assert Least(some, keys);
      } else {
        assert Least(rest, keys);
      }
    }
  }

  /** The keys in ascending order. */
  function Sorted(keys: set<Key>): (order: seq<Key>)
    requires Comparable(keys)
    ensures Ascending(order) && Elements(order) == keys && |order| == |keys|
    decreases |keys|
  {
    if keys == {} then []
    else
      LeastExists(keys);
      var k :| Least(k, keys);
      assert keys == {k} + (keys - {k});
      [k] + Sorted(keys - {k})
  }

  /** The first key of an ascending list is the least, and the others are the rest of the list. */
  lemma {:induction false} FirstIsLeast(order: seq<Key>)
    requires Ascending(order) && Comparable(Elements(order)) && order != []
    ensures Least(order[0], Elements(order)) && Elements(order[1..]) == Elements(order) - {order[0]}
  {
    hide KeyLess;
    var k := order[0];
    forall i | 0 < i < |order| ensures order[i] != k && KeyLess(k, order[i]) {
      KeyLessIsOrder(k, order[i], k);
    }
    assert order == [k] + order[1..];
  }

  /** An ascending list is the sorted set of its elements: ordering a set has one result. */
  lemma {:induction false} AscendingIsSorted(order: seq<Key>)
    requires Ascending(order) && Comparable(Elements(order))
    ensures Sorted(Elements(order)) == order
    decreases |order|
  {
    hide KeyLess;
    hide Least;
    if order == [] {
      assert Elements(order) == {};
    } else {
      FirstIsLeast(order);
      assert order[0] in Elements(order);
      LeastExists(Elements(order));
      AscendingIsSorted(order[1..]);
    }
  }

  // ---------------------------------------------------------------- sorting

  /** Comparing raises exactly between a missing and a present section of one check. */
  lemma {:induction false} LessThanFails(a: Key, b: Key)
    ensures LessThan(a, b).Ok? <==> Comparable({a, b})
    ensures LessThan(a, b).Ok? ==> LessThan(a, b).value == KeyLess(a, b)
  {
    if a.section.Some? && a == b { LessIsStrict(a.section.value); }
    if !Comparable({a, b}) {
      var x, y :| x in {a, b} && y in {a, b} && x.checkId == y.checkId && x.section.Some? != y.section.Some?;
    }
  }

  predicate ChecksAscend(order: seq<Key>) {
    forall i, j :: 0 <= i < j < |order| ==> !Less(order[j].checkId, order[i].checkId)
  }

  /**
   No sort can get around it: in every arrangement by check id of keys that cannot all be compared, two
   neighbours raise when compared.
   */
  lemma {:induction false} NeighboursClash(order: seq<Key>)
    requires ChecksAscend(order) && !Comparable(Elements(order))
    ensures exists i :: 0 <= i < |order| - 1 && LessThan(order[i], order[i + 1]).Err?
  {
    var x, y :| x in Elements(order) && y in Elements(order) && x.checkId == y.checkId && x.section.Some? != y.section.Some?;
    var a :| 0 <= a < |order| && order[a] == x;
    var b :| 0 <= b < |order| && order[b] == y;
    if a < b { ClashBetween(order, a, b); } else { ClashBetween(order, b, a); }
  }

  lemma {:induction false} ClashBetween(order: seq<Key>, a: nat, b: nat)
    requires ChecksAscend(order) && a < b < |order|
    requires order[a].checkId == order[b].checkId && order[a].section.Some? != order[b].section.Some?
    ensures exists i :: a <= i < b && LessThan(order[i], order[i + 1]).Err?
    decreases b - a
  {
    var m := a + 1;
    if m < b {
      LessIsOrder(order[m].checkId, order[a].checkId, order[m].checkId);
    }
    if order[m].section.Some? != order[a].section.Some? {
      assert LessThan(order[a], order[a + 1]).Err?;
    } else {
      ClashBetween(order, m, b);
    }
  }

  /** Put one more key into an ascending list, comparing from the front until a greater key is met. */
  method Insert(order: seq<Key>, k: Key) returns (r: Result<seq<Key>, SortError>)
    requires Ascending(order) && Comparable(Elements(order)) && k !in order
    ensures r.Ok? <==> Comparable(Elements(order) + {k})
    ensures r.Ok? ==> Ascending(r.value) && Elements(r.value) == Elements(order) + {k}
  {
    hide LessThan;
    hide KeyLess;
    var i := 0;
    while i < |order|
      invariant i <= |order|
      invariant forall j :: 0 <= j < i ==> Comparable({k, order[j]}) && KeyLess(order[j], k)
    {
      LessThanFails(k, order[i]);
      var less := LessThan(k, order[i]);
      if less.Err? {
        assert order[i] in Elements(order);
        return Err(less.error);
      }
      if less.value {
        break;
      }
      KeyLessIsOrder(k, order[i], k);
      i := i + 1;
    }
    Placed(order, k, i);
    return Ok(order[..i] + [k] + order[i..]);
  }

  /** Where the insertion stops, the key fits, and it can be compared with the whole list. */
  lemma {:induction false} Placed(order: seq<Key>, k: Key, i: nat)
    requires Ascending(order) && Comparable(Elements(order)) && i <= |order|
    requires forall j :: 0 <= j < i ==> Comparable({k, order[j]}) && KeyLess(order[j], k)
    requires i < |order| ==> Comparable({k, order[i]}) && KeyLess(k, order[i])
    ensures var all := order[..i] + [k] + order[i..];
            Comparable(Elements(order) + {k}) && Ascending(all) && Elements(all) == Elements(order) + {k}
  {
    hide KeyLess;
    hide Comparable;
    forall j | i <= j < |order| ensures Comparable({k, order[j]}) && KeyLess(k, order[j]) {
      if i < j {
        PairComparable(order, i, j);
        BetweenIsComparable(k, order[i], order[j]);
      }
    }
    AllComparable(order, k);
    ElementsAround(order, k, i);
  }

  lemma {:induction false} PairComparable(order: seq<Key>, i: nat, j: nat)
    requires Comparable(Elements(order)) && i < |order| && j < |order|
    ensures Comparable({order[i], order[j]})
  {
    assert order[i] in Elements(order) && order[j] in Elements(order);
  }

  lemma {:induction false} AllComparable(order: seq<Key>, k: Key)
    requires Comparable(Elements(order)) && forall j :: 0 <= j < |order| ==> Comparable({k, order[j]})
    ensures Comparable(Elements(order) + {k})
  {
    forall a | a in Elements(order) && a.checkId == k.checkId ensures a.section.Some? == k.section.Some? {
      var j :| 0 <= j < |order| && order[j] == a;
      assert Comparable({k, order[j]});
    }
  }

  lemma {:induction false} ElementsAround(order: seq<Key>, k: Key, i: nat)
    requires i <= |order|
    ensures Elements(order[..i] + [k] + order[i..]) == Elements(order) + {k}
  {
    var all := order[..i] + [k] + order[i..];
    assert order == order[..i] + order[i..];
    assert forall x :: x in all <==> x in order[..i] || x == k || x in order[i..];
  }

  /** Keys with one check are neighbours: beyond a greater key there is none of a smaller key's check to clash with. */
  lemma {:induction false} BetweenIsComparable(k: Key, a: Key, b: Key)
    requires Comparable({k, a}) && Comparable({a, b}) && KeyLess(k, a) && KeyLess(a, b)
    ensures Comparable({k, b}) && KeyLess(k, b)
  {
    LessIsOrder(k.checkId, a.checkId, b.checkId);
    LessIsOrder(a.checkId, k.checkId, a.checkId);
    LessIsStrict(k.checkId);
    LessIsStrict(a.checkId);
    assert Comparable({k, a, b});
    KeyLessIsOrder(k, a, b);
  }

  lemma {:induction false} FewerComparable(some: set<Key>, all: set<Key>)
    requires some <= all
    ensures Comparable(all) ==> Comparable(some)
  {
  }

  /**
   `sorted` on a set of keys, taken in any order. It raises exactly if the keys cannot all be compared,
   whatever the order in which they come, and otherwise gives the one ascending list.
   */
  method SortKeys(keys: set<Key>) returns (r: Result<seq<Key>, SortError>)
    ensures r == if Comparable(keys) then Ok(Sorted(keys)) else Err(TypeError)
  {
    hide Sorted;
    var rest, order := keys, [];
    assert Elements<Key>([]) == {};
    while rest != {}
      invariant rest <= keys && Elements(order) == keys - rest
      invariant Ascending(order) && Comparable(Elements(order))
      decreases |rest|
    {
      var k :| k in rest;
      assert k !in Elements(order);
      var inserted := Insert(order, k);
      if inserted.Err? {
        FewerComparable(Elements(order) + {k}, keys);
        assert inserted.error.TypeError?;
        return Err(inserted.error);
      }
      assert keys - (rest - {k}) == (keys - rest) + {k};
      order := inserted.value;
      rest := rest - {k};
    }
    assert keys - {} == keys;
    AscendingIsSorted(order);
    return Ok(order);
  }

  // ---------------------------------------------------------------- reports

  datatype Event = Event(key: Key, severityClass: string, level: string, title: string)

  datatype Report = Report(platform: string, events: seq<Event>)

  const BLOCKING := "blocking"

  predicate Blocks(e: Event) {
    e.severityClass == BLOCKING
  }

  /** The events by key; of two events with one key the later one counts. */
  function Index(events: seq<Event>): (m: map<Key, Event>)
    ensures forall k :: k in m ==> m[k].key == k
    ensures forall k :: k in m <==> exists i :: 0 <= i < |events| && events[i].key == k
  {
    if events == [] then map[]
    else
      var last := events[|events| - 1];
      Index(events[..|events| - 1])[last.key := last]
  }

  /** Of several events with one key the last one counts. */
  lemma {:induction false} LastEventCounts(events: seq<Event>, i: nat)
    requires i < |events| && forall j :: i < j < |events| ==> events[j].key != events[i].key
    ensures events[i].key in Index(events) && Index(events)[events[i].key] == events[i]
    decreases |events|
  {
    if i < |events| - 1 {
      LastEventCounts(events[..|events| - 1], i);
    }
  }

  function Severity(e: Event): string {
    e.severityClass + ":" + e.level
  }

  // ---------------------------------------------------------------- regression diff

  datatype Change = Change(key: Key, before: string, after: string, title: string)

  datatype Finding = Finding(key: Key, severity: string, title: string)

  datatype Diff = Diff(regressions: seq<Change>, fixes: seq<Change>, newFindings: seq<Finding>, removed: seq<Finding>)

  function RegressionKeys(b: map<Key, Event>, a: map<Key, Event>): set<Key> {
    set k | k in b && k in a && !Blocks(b[k]) && Blocks(a[k])
  }

  function FixKeys(b: map<Key, Event>, a: map<Key, Event>): set<Key> {
    set k | k in b && k in a && Blocks(b[k]) && !Blocks(a[k])
  }

  function BlockingKeys(m: map<Key, Event>): set<Key> {
    set k | k in m && Blocks(m[k])
  }

  function ChangesFor(keys: seq<Key>, b: map<Key, Event>, a: map<Key, Event>): seq<Change>
    requires Elements(keys) <= b.Keys * a.Keys
  {
    seq(|keys|, i requires 0 <= i < |keys| =>
      assert keys[i] in Elements(keys);
      Change(keys[i], Severity(b[keys[i]]), Severity(a[keys[i]]), a[keys[i]].title))
  }

  function FindingsFor(keys: seq<Key>, m: map<Key, Event>): seq<Finding>
    requires Elements(keys) <= m.Keys
  {
    seq(|keys|, i requires 0 <= i < |keys| =>
      assert keys[i] in Elements(keys);
      Finding(keys[i], Severity(m[keys[i]]), m[keys[i]].title))
  }

  /** The four lists, each in ascending order of its keys. */
  function DiffOf(b: map<Key, Event>, a: map<Key, Event>): Diff
    requires Comparable(b.Keys + a.Keys)
  {
    Diff(ChangesFor(Sorted(RegressionKeys(b, a)), b, a), ChangesFor(Sorted(FixKeys(b, a)), b, a),
         FindingsFor(Sorted(a.Keys - b.Keys), a), FindingsFor(Sorted(b.Keys - a.Keys), b))
  }

  /** The keys of `order` that are in `keys`. */
  function Among(order: seq<Key>, keys: set<Key>): (r: seq<Key>)
    ensures Elements(r) == Elements(order) * keys
  {
    if order == [] then []
    else
      var front, last := order[..|order| - 1], order[|order| - 1];
      assert Elements(order) == Elements(front) + {last};
      if last in keys then
        assert Elements(Among(front, keys) + [last]) == Elements(Among(front, keys)) + {last};
        Among(front, keys) + [last]
      else Among(front, keys)
  }

  lemma {:induction false} AmongIsAscending(order: seq<Key>, keys: set<Key>)
    requires Ascending(order)
    ensures Ascending(Among(order, keys))
  {
    if order != [] {
      var front, last := order[..|order| - 1], order[|order| - 1];
      AmongIsAscending(front, keys);
      var r := Among(front, keys);
      forall i | 0 <= i < |r| ensures KeyLess(r[i], last) {
        assert r[i] in Elements(r);
        var j :| 0 <= j < |front| && front[j] == r[i];
        assert order[j] == r[i];
      }
    }
  }

  /** Filtering the sorted keys gives the sorted subset. */
  lemma {:induction false} AmongIsSorted(all: set<Key>, keys: set<Key>)
    requires keys <= all && Comparable(all)
    ensures Among(Sorted(all), keys) == Sorted(keys)
  {
    AmongIsAscending(Sorted(all), keys);
    assert Elements(Among(Sorted(all), keys)) == keys;
    AscendingIsSorted(Among(Sorted(all), keys));
  }

  lemma {:induction false} ChangesStep(order: seq<Key>, i: nat, keys: set<Key>, b: map<Key, Event>, a: map<Key, Event>)
    requires i < |order| && keys <= b.Keys * a.Keys
    ensures ChangesFor(Among(order[..i + 1], keys), b, a)
         == ChangesFor(Among(order[..i], keys), b, a)
            + if order[i] in keys then [Change(order[i], Severity(b[order[i]]), Severity(a[order[i]]), a[order[i]].title)] else []
  {
    assert order[..i + 1][..i] == order[..i];
  }

  lemma {:induction false} FindingsStep(order: seq<Key>, i: nat, keys: set<Key>, m: map<Key, Event>)
    requires i < |order| && keys <= m.Keys
    ensures FindingsFor(Among(order[..i + 1], keys), m)
         == FindingsFor(Among(order[..i], keys), m)
            + if order[i] in keys then [Finding(order[i], Severity(m[order[i]]), m[order[i]].title)] else []
  {
    assert order[..i + 1][..i] == order[..i];
  }

  method RegressionDiff(before: Report, after: Report) returns (r: Result<Diff, SortError>)
    ensures var b, a := Index(before.events), Index(after.events);
            r == if Comparable(b.Keys + a.Keys) then Ok(DiffOf(b, a)) else Err(TypeError)
  {
    hide Comparable;
    hide ChangesFor;
    hide FindingsFor;
    hide Index;
    hide Among;
    hide Sorted;
    var b, a := Index(before.events), Index(after.events);
    var all := b.Keys + a.Keys;
    var sorted := SortKeys(all);
    if sorted.Err? {
      return Err(sorted.error);
    }
    var order := sorted.value;
    ghost var reg, fix, added, gone := RegressionKeys(b, a), FixKeys(b, a), a.Keys - b.Keys, b.Keys - a.Keys;
    var d := Diff([], [], [], []);
    NoneYet(reg, fix, added, gone, b, a);
    assert order[..0] == [];
    for i := 0 to |order|
      invariant d.regressions == ChangesFor(Among(order[..i], reg), b, a)
      invariant d.fixes == ChangesFor(Among(order[..i], fix), b, a)
      invariant d.newFindings == FindingsFor(Among(order[..i], added), a)
      invariant d.removed == FindingsFor(Among(order[..i], gone), b)
    {
      var key := order[i];
      assert key in Elements(order);
      ChangesStep(order, i, reg, b, a);
      ChangesStep(order, i, fix, b, a);
      FindingsStep(order, i, added, a);
      FindingsStep(order, i, gone, b);
      if key in b && key in a {
        if !Blocks(b[key]) && Blocks(a[key]) {
          d := d.(regressions := d.regressions + [Change(key, Severity(b[key]), Severity(a[key]), a[key].title)]);
        } else if Blocks(b[key]) && !Blocks(a[key]) {
          d := d.(fixes := d.fixes + [Change(key, Severity(b[key]), Severity(a[key]), a[key].title)]);
        }
      } else if key in a {
        d := d.(newFindings := d.newFindings + [Finding(key, Severity(a[key]), a[key].title)]);
      } else {
        d := d.(removed := d.removed + [Finding(key, Severity(b[key]), b[key].title)]);
      }
    }
    assert order[..|order|] == order;
    AmongIsSorted(all, reg);
    AmongIsSorted(all, fix);
    AmongIsSorted(all, added);
    AmongIsSorted(all, gone);
    return Ok(d);
  }

  lemma {:induction false} NoneYet(reg: set<Key>, fix: set<Key>, added: set<Key>, gone: set<Key>, b: map<Key, Event>, a: map<Key, Event>)
    ensures Among([], reg) == Among([], fix) == Among([], added) == Among([], gone) == []
    ensures ChangesFor([], b, a) == [] && FindingsFor([], a) == [] && FindingsFor([], b) == []
  {
  }

  /** A flat report and a sectioned one that share a check cannot be compared: two events are enough. */
  lemma {:induction false} MixedSectionsFail(checkId: string, section: string, flat: Event, sectioned: Event)
    requires flat.key == Key(checkId, None) && sectioned.key == Key(checkId, Some(section))
    ensures !Comparable(Index([flat]).Keys + Index([sectioned]).Keys)
    ensures Comparable(Index([flat]).Keys) && Comparable(Index([sectioned]).Keys)
  {
    LastEventCounts([flat], 0);
    LastEventCounts([sectioned], 0);
    assert forall k :: k in Index([flat]) ==> k == flat.key;
    assert forall k :: k in Index([sectioned]) ==> k == sectioned.key;
  }

  /**
   Keys are conserved: the new report has the old keys, plus the new, less the removed ones; and its
   blocking keys change exactly by the regressions and new blocking findings, less the fixes and the
   blocking findings removed.
   */
  lemma {:induction false} DiffConserves(b: map<Key, Event>, a: map<Key, Event>)
    requires Comparable(b.Keys + a.Keys)
    ensures var d := DiffOf(b, a);
            && |a| + |d.removed| == |b| + |d.newFindings|
            && |BlockingKeys(a)| + |d.fixes| + |BlockingKeys(b) - a.Keys|
               == |BlockingKeys(b)| + |d.regressions| + |BlockingKeys(a) - b.Keys|
  {
    hide Comparable;
    hide Blocks;
    Parts(a.Keys, b.Keys);
    Parts(b.Keys, a.Keys);
    assert a.Keys * b.Keys == b.Keys * a.Keys;
    ListSizes(b, a);
    BlockingParts(b, a);
    Parts(BlockingKeys(a), b.Keys);
    Parts(BlockingKeys(b), a.Keys);
  }

  lemma {:induction false} ListSizes(b: map<Key, Event>, a: map<Key, Event>)
    requires Comparable(b.Keys + a.Keys)
    ensures var d := DiffOf(b, a);
            && |d.regressions| == |RegressionKeys(b, a)| && |d.fixes| == |FixKeys(b, a)|
            && |d.newFindings| == |a.Keys - b.Keys| && |d.removed| == |b.Keys - a.Keys|
  {
  }

  /** Keys that block in both reports aside, shared blocking keys are the regressions or the fixes. */
  lemma {:induction false} BlockingParts(b: map<Key, Event>, a: map<Key, Event>)
    ensures |BlockingKeys(a) * b.Keys| + |FixKeys(b, a)| == |BlockingKeys(b) * a.Keys| + |RegressionKeys(b, a)|
  {
    var after, before := BlockingKeys(a) * b.Keys, BlockingKeys(b) * a.Keys;
    Parts(after, before);
    Parts(before, after);
    assert after * before == before * after;
    assert after - before == RegressionKeys(b, a) && before - after == FixKeys(b, a);
  }

  lemma {:induction false} Parts(s: set<Key>, t: set<Key>)
    ensures |s| == |s * t| + |s - t|
  {
    assert s == s * t + (s - t);
  }

  /** Comparing in the other direction swaps regressions with fixes and new findings with removed ones. */
  lemma {:induction false} DiffSwaps(b: map<Key, Event>, a: map<Key, Event>)
    requires Comparable(b.Keys + a.Keys)
    ensures a.Keys + b.Keys == b.Keys + a.Keys
    ensures var d, back := DiffOf(b, a), DiffOf(a, b);
            && back.newFindings == d.removed && back.removed == d.newFindings
            && |back.regressions| == |d.fixes| && |back.fixes| == |d.regressions|
            && (forall i :: 0 <= i < |d.fixes| ==> SwappedChange(back.regressions[i], d.fixes[i]))
            && (forall i :: 0 <= i < |d.regressions| ==> SwappedChange(back.fixes[i], d.regressions[i]))
  {
    assert a.Keys + b.Keys == b.Keys + a.Keys;
    assert RegressionKeys(a, b) == FixKeys(b, a) && FixKeys(a, b) == RegressionKeys(b, a);
  }

  predicate SwappedChange(c: Change, d: Change) {
    c.key == d.key && c.before == d.after && c.after == d.before
  }

  // ---------------------------------------------------------------- platform divergence

  type Events = map<Key, Event>

  datatype Divergence = Divergence(key: Key, results: map<string, string>)

  /** With fewer than two platforms the source returns no count. */
  datatype Divergences = Divergences(platforms: seq<string>, found: seq<Divergence>, count: Option<nat>)

  /** The events of each platform; of two reports of one platform the later one counts. */
  function ByPlatform(reports: seq<Report>): (m: map<string, Events>)
    ensures forall p :: p in m <==> exists i :: 0 <= i < |reports| && reports[i].platform == p
  {
    if reports == [] then map[]
    else
      var last := reports[|reports| - 1];
      ByPlatform(reports[..|reports| - 1])[last.platform := Index(last.events)]
  }

  /** Of several reports of one platform the last one counts. */
  lemma {:induction false} LastReportCounts(reports: seq<Report>, i: nat)
    requires i < |reports| && forall j :: i < j < |reports| ==> reports[j].platform != reports[i].platform
    ensures reports[i].platform in ByPlatform(reports) && ByPlatform(reports)[reports[i].platform] == Index(reports[i].events)
    decreases |reports|
  {
    hide Index;
    if i < |reports| - 1 {
      LastReportCounts(reports[..|reports| - 1], i);
    }
  }

  /** The platforms in the order of their first reports. */
  function Platforms(reports: seq<Report>): (ps: seq<string>)
    ensures Elements(ps) == ByPlatform(reports).Keys
  {
    if reports == [] then []
    else
      var front, last := reports[..|reports| - 1], reports[|reports| - 1];
      var ps := Platforms(front);
      assert ByPlatform(reports).Keys == ByPlatform(front).Keys + {last.platform};
      if last.platform in Elements(ps) then ps
      else
        assert Elements(ps + [last.platform]) == Elements(ps) + {last.platform};
        ps + [last.platform]
  }

  lemma {:induction false} PlatformCount(reports: seq<Report>)
    ensures |Platforms(reports)| == |ByPlatform(reports)|
  {
    hide Index;
    if reports != [] {
      var front, last := reports[..|reports| - 1], reports[|reports| - 1];
      PlatformCount(front);
      assert ByPlatform(reports).Keys == ByPlatform(front).Keys + {last.platform};
    }
  }

  lemma {:induction false} PlatformStep(reports: seq<Report>, i: nat)
    requires i < |reports|
    ensures var m, plat := ByPlatform(reports[..i]), reports[i].platform;
            && ByPlatform(reports[..i + 1]) == m[plat := Index(reports[i].events)]
            && Platforms(reports[..i + 1]) == Platforms(reports[..i]) + if plat in m then [] else [plat]
  {
    hide Index;
    var upto := reports[..i + 1];
    assert upto[..|upto| - 1] == reports[..i];
    assert Platforms(reports[..i]) + [] == Platforms(reports[..i]);
  }

  function AllKeys(m: map<string, Events>): set<Key> {
    set p, k | p in m && k in m[p] :: k
  }

  function Results(m: map<string, Events>, k: Key): map<string, string> {
    map p | p in m && k in m[p] :: m[p][k].severityClass
  }

  /** Two platforms that both report the check put it in different severity classes. */
  predicate Disagree(m: map<string, Events>, k: Key) {
    exists p, q :: p in m && q in m && k in m[p] && k in m[q] && m[p][k].severityClass != m[q][k].severityClass
  }

  function DivergentKeys(m: map<string, Events>): set<Key> {
    set k | k in AllKeys(m) && Disagree(m, k)
  }

  function DivergencesFor(keys: seq<Key>, m: map<string, Events>): seq<Divergence> {
    seq(|keys|, i requires 0 <= i < |keys| => Divergence(keys[i], Results(m, keys[i])))
  }

  lemma {:induction false} ManyValues(results: map<string, string>)
    ensures |results.Values| > 1 <==> exists p, q :: p in results && q in results && results[p] != results[q]
  {
    if p, q :| p in results && q in results && results[p] != results[q] {
      assert {results[p], results[q]} <= results.Values;
      SubsetSize({results[p], results[q]}, results.Values);
    } else if results.Values != {} {
      var p :| p in results;
      assert results.Values == {results[p]};
    }
  }

  lemma {:induction false} SubsetSize(s: set<string>, t: set<string>)
    requires s <= t
    ensures |s| <= |t|
  {
    assert t == s + (t - s);
  }

  lemma {:induction false} DivergesBy(m: map<string, Events>, k: Key)
    requires k in AllKeys(m)
    ensures |Results(m, k).Values| > 1 <==> k in DivergentKeys(m)
  {
    var results := Results(m, k);
    ManyValues(results);
    if Disagree(m, k) {
      var p, q :| p in m && q in m && k in m[p] && k in m[q] && m[p][k].severityClass != m[q][k].severityClass;
      assert results[p] != results[q];
    }
  }

  method DetectDivergence(reports: seq<Report>) returns (r: Result<Divergences, SortError>)
    ensures var m := ByPlatform(reports);
            r == if |m| < 2 then Ok(Divergences(Platforms(reports), [], None))
                 else if !Comparable(AllKeys(m)) then Err(TypeError)
                 else var found := DivergencesFor(Sorted(DivergentKeys(m)), m);
                      Ok(Divergences(Platforms(reports), found, Some(|found|)))
  {
    hide *;
    var m: map<string, Events>, platforms: seq<string> := map[], [];
    assert reports[..0] == [];
    NoPlatforms();
    for i := 0 to |reports|
      invariant m == ByPlatform(reports[..i]) && platforms == Platforms(reports[..i])
    {
      PlatformStep(reports, i);
      if reports[i].platform !in m {
        platforms := platforms + [reports[i].platform];
      }
      m := m[reports[i].platform := Index(reports[i].events)];
    }
    assert reports[..|reports|] == reports;
    PlatformCount(reports);
    if |platforms| < 2 {
      return Ok(Divergences(platforms, [], None));
    }
    var all := AllKeys(m);
    var sorted := SortKeys(all);
    if sorted.Err? {
      return Err(sorted.error);
    }
    var order := sorted.value;
    var found: seq<Divergence> := [];
    NoneFound(DivergentKeys(m), m);
    assert order[..0] == [];
    for i := 0 to |order|
      invariant found == DivergencesFor(Among(order[..i], DivergentKeys(m)), m)
    {
      var key := order[i];
      var results := ResultsOn(m, platforms, key);
      InElements(order, i);
      DivergesBy(m, key);
      DivergencesStep(order, i, m);
      if |results.Values| > 1 {
        found := found + [Divergence(key, results)];
      }
    }
    assert order[..|order|] == order;
    SomeOfAll(m);
    AmongIsSorted(all, DivergentKeys(m));
    return Ok(Divergences(platforms, found, Some(|found|)));
  }

  lemma {:induction false} NoPlatforms()
    ensures ByPlatform([]) == map[] && Platforms([]) == []
  {
  }

  lemma {:induction false} NoneFound(keys: set<Key>, m: map<string, Events>)
    ensures DivergencesFor(Among([], keys), m) == []
  {
  }

  lemma {:induction false} SomeOfAll(m: map<string, Events>)
    ensures DivergentKeys(m) <= AllKeys(m)
    ensures Comparable(AllKeys(m)) ==> Comparable(DivergentKeys(m))
  {
  }

  lemma {:induction false} InElements<T>(s: seq<T>, i: nat)
    requires i < |s|
    ensures s[i] in Elements(s)
  {
  }

  method ResultsOn(m: map<string, Events>, platforms: seq<string>, key: Key) returns (results: map<string, string>)
    requires Elements(platforms) == m.Keys
    ensures results == Results(m, key)
  {
    results := map[];
    for i := 0 to |platforms|
      invariant results == map p | p in Elements(platforms[..i]) && p in m && key in m[p] :: m[p][key].severityClass
    {
      var plat := platforms[i];
      assert plat in Elements(platforms);
      assert Elements(platforms[..i + 1]) == Elements(platforms[..i]) + {plat};
      if key in m[plat] {
        results := results[plat := m[plat][key].severityClass];
      }
    }
    assert platforms[..|platforms|] == platforms;
  }

  lemma {:induction false} DivergencesStep(order: seq<Key>, i: nat, m: map<string, Events>)
    requires i < |order|
    ensures DivergencesFor(Among(order[..i + 1], DivergentKeys(m)), m)
         == DivergencesFor(Among(order[..i], DivergentKeys(m)), m)
            + if order[i] in DivergentKeys(m) then [Divergence(order[i], Results(m, order[i]))] else []
  {
    assert order[..i + 1][..i] == order[..i];
  }

  lemma {:induction false} TwoPlatforms(before: Report, after: Report)
    ensures ByPlatform([before, after]) == map[before.platform := Index(before.events), after.platform := Index(after.events)]
  {
    hide Index;
    var one, two := [before], [before, after];
    assert two[..|two| - 1] == one && one[..|one| - 1] == [];
    assert ByPlatform(one) == map[before.platform := Index(before.events)];
  }

  /**
   The two comparisons agree. Of two reports from different platforms, the checks that diverge are
   those both report in different classes; a check is a regression or a fix exactly if it diverges
   with one of the two classes blocking.
   */
  lemma {:induction false} DiffWithinDivergence(before: Report, after: Report)
    requires before.platform != after.platform
    ensures var b, a := Index(before.events), Index(after.events);
            var divergent := DivergentKeys(ByPlatform([before, after]));
            && divergent == (set k | k in b && k in a && b[k].severityClass != a[k].severityClass)
            && RegressionKeys(b, a) + FixKeys(b, a) == (set k | k in divergent && (Blocks(b[k]) || Blocks(a[k])))
  {
    hide Index;
    TwoPlatforms(before, after);
    var b, a := Index(before.events), Index(after.events);
    var m := map[before.platform := b, after.platform := a];
    var differ := set k | k in b && k in a && b[k].severityClass != a[k].severityClass;
    forall k ensures k in DivergentKeys(m) <==> k in differ {
      if k in differ {
        assert m[before.platform][k].severityClass != m[after.platform][k].severityClass;
      }
    }
  }

  /** Nothing diverges exactly if no comparison of two platforms' reports, either way, shows a class change. */
  lemma {:induction false} NoDivergenceMeansAgreement(reports: seq<Report>)
    ensures var m := ByPlatform(reports);
            DivergentKeys(m) == {} <==>
              forall p, q, k :: p in m && q in m && k in m[p] && k in m[q] ==> m[p][k].severityClass == m[q][k].severityClass
    ensures var m := ByPlatform(reports);
            DivergentKeys(m) == {} ==>
              forall p, q :: p in m && q in m ==> RegressionKeys(m[p], m[q]) == {} && FixKeys(m[p], m[q]) == {}
  {
    var m := ByPlatform(reports);
    if DivergentKeys(m) == {} {
      forall p, q, k | p in m && q in m && k in m[p] && k in m[q] ensures m[p][k].severityClass == m[q][k].severityClass {
        assert k !in DivergentKeys(m);
        assert k in AllKeys(m);
      }
    }
  }
}
