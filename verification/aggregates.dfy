/** What the two aggregators share: the operators and
    the grouped fold both of them perform into an aggregate map and a size
    map keyed by the group value. */
module Aggregates {
  import opened Common
  import opened Tuples

  datatype Op = Min | Max | Sum | Avg | Count

  /** `Aggregator.NO_GROUPING`. */
  const NO_GROUPING := -1

  /** The group a tuple merges into: one fixed key without grouping, the
      group-by field otherwise. */
  function GroupKey(gbfield: int, single: Field, tup: Tuple): (key: Field)
    requires gbfield == NO_GROUPING || 0 <= gbfield < |tup.fields|
    ensures gbfield == NO_GROUPING ==> key == single
    ensures gbfield != NO_GROUPING ==> key == tup.fields[gbfield]
  {
    if gbfield == NO_GROUPING then single else tup.fields[gbfield]
  }

  /** Two tuples fall into the same group exactly when there is no grouping
      or they agree on the group-by field. */
  lemma SameGroupIffSameField(gbfield: int, single: Field, a: Tuple, b: Tuple)
    requires gbfield == NO_GROUPING || (0 <= gbfield < |a.fields| && 0 <= gbfield < |b.fields|)
    ensures GroupKey(gbfield, single, a) == GroupKey(gbfield, single, b)
      <==> gbfield == NO_GROUPING || a.fields[gbfield] == b.fields[gbfield]
  {
  }

  /** The aggregate map and the size map. */
  datatype Groups = Groups(aggregates: map<Field, int>, sizes: map<Field, int>)

  const NoGroups := Groups(map[], map[])

  /** The aggregate a group starts with. */
  function Initial(op: Op, value: int): int {
    if op == Count then 1 else value
  }

  /** The aggregate after one more value. */
  function Combined(op: Op, agg: int, value: int): int {
    match op
    case Min => if agg <= value then agg else value
    case Max => if agg >= value then agg else value
    case Sum => agg + value
    case Avg => agg + value
    case Count => agg + 1
  }

  /** `mergeTupleIntoGroup` on the two maps: a known group grows by one and
      combines the value; a new group starts at size 1. */
  function Merge(op: Op, g: Groups, key: Field, value: int): (r: Groups)
    requires g.aggregates.Keys == g.sizes.Keys
    ensures r.aggregates.Keys == r.sizes.Keys == g.aggregates.Keys + {key}
    ensures forall k | k in g.sizes && k != key :: r.sizes[k] == g.sizes[k] && r.aggregates[k] == g.aggregates[k]
    ensures r.sizes[key] == if key in g.sizes then g.sizes[key] + 1 else 1
  {
    if key in g.aggregates then
      Groups(g.aggregates[key := Combined(op, g.aggregates[key], value)], g.sizes[key := g.sizes[key] + 1])
    else
      Groups(g.aggregates[key := Initial(op, value)], g.sizes[key := 1])
  }

  /** The maps after merging `history`, a sequence of (group, value) pairs,
      in order into empty maps. */
  function Fold(op: Op, history: seq<(Field, int)>): (g: Groups)
    ensures g.aggregates.Keys == g.sizes.Keys
    ensures forall k | k in g.sizes :: g.sizes[k] > 0
  {
    if history == [] then NoGroups
    else
      var last := history[|history| - 1];
      Merge(op, Fold(op, history[..|history| - 1]), last.0, last.1)
  }

  /** Merging one more pair is one more `Merge`. */
  lemma FoldSnoc(op: Op, history: seq<(Field, int)>, key: Field, value: int)
    ensures Fold(op, history + [(key, value)]) == Merge(op, Fold(op, history), key, value)
  {
    var h := history + [(key, value)];
    assert h[..|h| - 1] == history;
  }

  // ---------------------------------------------------------------------
  // A reference meaning for the fold: per group, the list of its values.

  /** The groups that occur in `history`. */
  function KeysOf(history: seq<(Field, int)>): set<Field> {
    set i | 0 <= i < |history| :: history[i].0
  }

  /** The values merged into group `k`, in order. */
  function ValuesFor(history: seq<(Field, int)>, k: Field): seq<int> {
    if history == [] then []
    else
      var last := history[|history| - 1];
      ValuesFor(history[..|history| - 1], k) + (if last.0 == k then [last.1] else [])
  }

  function SumOf(vals: seq<int>): int {
    if vals == [] then 0 else SumOf(vals[..|vals| - 1]) + vals[|vals| - 1]
  }

  /** The least value. */
  function MinOf(vals: seq<int>): (m: int)
    requires vals != []
    ensures m in vals && forall v | v in vals :: m <= v
  {
    if |vals| == 1 then vals[0]
    else
      var rest := vals[..|vals| - 1];
      assert vals == rest + [vals[|vals| - 1]];
      var m := MinOf(rest);
      if m <= vals[|vals| - 1] then m else vals[|vals| - 1]
  }

  /** The greatest value. */
  function MaxOf(vals: seq<int>): (m: int)
    requires vals != []
    ensures m in vals && forall v | v in vals :: v <= m
  {
    if |vals| == 1 then vals[0]
    else
      var rest := vals[..|vals| - 1];
      assert vals == rest + [vals[|vals| - 1]];
      var m := MaxOf(rest);
      if m >= vals[|vals| - 1] then m else vals[|vals| - 1]
  }

  /** What each operator keeps for a group with values `vals`: AVG keeps
      the running sum, COUNT the number of values. */
  function Reference(op: Op, vals: seq<int>): int
    requires vals != []
  {
    match op
    case Min => MinOf(vals)
    case Max => MaxOf(vals)
    case Sum => SumOf(vals)
    case Avg => SumOf(vals)
    case Count => |vals|
  }

  lemma {:induction false} ValuesForEmpty(history: seq<(Field, int)>, k: Field)
    ensures ValuesFor(history, k) == [] <==> k !in KeysOf(history)
  {
    if history != [] {
      var prefix := history[..|history| - 1];
      ValuesForEmpty(prefix, k);
      assert KeysOf(history) == KeysOf(prefix) + {history[|history| - 1].0} by {
        forall x ensures x in KeysOf(history) <==> x in KeysOf(prefix) + {history[|history| - 1].0} {
          if x in KeysOf(history) {
            var i :| 0 <= i < |history| && history[i].0 == x;
            if i < |history| - 1 {
              assert prefix[i].0 == x;
            }
          }
          if x in KeysOf(prefix) {
            var i :| 0 <= i < |prefix| && prefix[i].0 == x;
            assert history[i].0 == x;
          }
        }
      }
    }
  }

  /** One more value for a non-empty group moves each operator's reference
      aggregate exactly as `Combined` does. */
  lemma ReferenceSnoc(op: Op, vals: seq<int>, v: int)
    requires vals != []
    ensures Reference(op, vals + [v]) == Combined(op, Reference(op, vals), v)
  {
    var w := vals + [v];
    assert w[..|w| - 1] == vals;
  }

  /** The fold has an entry for exactly the groups of the history. */
  lemma {:induction false} FoldKeys(op: Op, history: seq<(Field, int)>)
    ensures Fold(op, history).sizes.Keys == KeysOf(history)
  {
    if history != [] {
      var prefix := history[..|history| - 1];
      var last := history[|history| - 1];
      FoldKeys(op, prefix);
      forall k ensures k in KeysOf(history) <==> k in KeysOf(prefix) || k == last.0 {
        ValuesForEmpty(history, k);
        ValuesForEmpty(prefix, k);
      }
    }
  }

  /** The entry of one group: its size is the number of its values and its
      aggregate is the operator's aggregate of them. */
  lemma {:induction false} FoldGroup(op: Op, history: seq<(Field, int)>, k: Field)
    requires k in Fold(op, history).sizes
    ensures var g := Fold(op, history);
      var vals := ValuesFor(history, k);
      vals != [] && g.sizes[k] == |vals| && g.aggregates[k] == Reference(op, vals)
  {
    var prefix := history[..|history| - 1];
    var last := history[|history| - 1];
    var p := Fold(op, prefix);
    assert Fold(op, history) == Merge(op, p, last.0, last.1);
    if k == last.0 {
      assert ValuesFor(history, k) == ValuesFor(prefix, k) + [last.1];
      if k in p.sizes {
        FoldGroup(op, prefix, k);
        ReferenceSnoc(op, ValuesFor(prefix, k), last.1);
      } else {
        FoldKeys(op, prefix);
        ValuesForEmpty(prefix, k);
        ReferenceSingle(op, last.1);
      }
    } else {
      assert ValuesFor(history, k) == ValuesFor(prefix, k);
      FoldGroup(op, prefix, k);
    }
  }

  /** A group's first value sets the aggregate as `Initial` does. */
  lemma ReferenceSingle(op: Op, v: int)
    ensures Reference(op, [v]) == Initial(op, v)
  {
    assert [v][..0] == [];
    assert SumOf([v]) == SumOf([]) + v;
  }

  /** The fold keeps, for every group that occurs in the history, its size
      (the number of its values) and the operator's aggregate of its values;
      no other group has an entry. */
  lemma FoldMeaning(op: Op, history: seq<(Field, int)>)
    ensures var g := Fold(op, history);
      && g.sizes.Keys == KeysOf(history)
      && forall k | k in g.sizes ::
           var vals := ValuesFor(history, k);
           vals != [] && g.sizes[k] == |vals| && g.aggregates[k] == Reference(op, vals)
  {
    FoldKeys(op, history);
    forall k | k in Fold(op, history).sizes {
      FoldGroup(op, history, k);
    }
  }

  /** The value a group reports: AVG divides the running sum by the size
      with Java's truncating division; the other operators report the
      stored aggregate. */
  function Output(op: Op, agg: int, size: int): (r: int)
    requires size > 0
    ensures op != Avg ==> r == agg
    ensures op == Avg && 0 <= agg ==> 0 <= r && size * r <= agg < size * r + size
    ensures op == Avg && agg < 0 ==> r <= 0 && size * r - size < agg <= size * r
  {
    if op != Avg then agg
    else
      var q := JavaDiv(agg, size);
      assert 0 <= agg ==> 0 <= q by {
        if 0 <= agg { assert size * -1 == -size; FactorLess(size, -1, q); }
      }
      assert agg < 0 ==> q <= 0 by {
        if agg < 0 { assert size * 1 == size; FactorLess(size, q, 1); }
      }
      q
  }

  /** The output row of group `k` with reported value `val`: `(val)`
      without grouping, `(k, val)` otherwise. */
  function ResultTuple(gbfield: int, k: Field, val: int): (tup: Tuple)
    ensures |tup.fields| == if gbfield == NO_GROUPING then 1 else 2
    ensures tup.fields[|tup.fields| - 1] == IntField(val)
    ensures gbfield != NO_GROUPING ==> tup.fields[0] == k
  {
    if gbfield == NO_GROUPING then Tuple([IntField(val)]) else Tuple([k, IntField(val)])
  }

  lemma {:induction false} SumBetween(vals: seq<int>, lo: int, hi: int)
    requires forall v | v in vals :: lo <= v <= hi
    ensures |vals| * lo <= SumOf(vals) <= |vals| * hi
  {
    if vals != [] {
      var rest, last := vals[..|vals| - 1], vals[|vals| - 1];
      assert vals == rest + [last];
      assert forall v | v in rest :: v in vals;
      SumBetween(rest, lo, hi);
      assert SumOf(vals) == SumOf(rest) + last;
      assert last in vals;
      OneMore(|rest|, lo);
      OneMore(|rest|, hi);
    }
  }

  lemma OneMore(n: int, x: int)
    ensures (n + 1) * x == n * x + x
  {
  }

  /** Dividing `n * lo <= s <= n * hi` by `n`, with truncation, stays
      within `[lo, hi]`. */
  lemma QuotientBetween(s: int, n: int, lo: int, hi: int)
    requires n > 0 && n * lo <= s <= n * hi
    ensures lo <= JavaDiv(s, n) <= hi
  {
    var q := JavaDiv(s, n);
    if s >= 0 {
      assert n * (q + 1) == n * q + n;
      FactorLess(n, lo, q + 1);
      FactorLess(n, q, hi + 1) by {
        assert n * (hi + 1) == n * hi + n;
      }
    } else {
      assert n * (q - 1) == n * q - n;
      FactorLess(n, q - 1, hi);
      FactorLess(n, lo - 1, q) by {
        assert n * (lo - 1) == n * lo - n;
      }
    }
  }

  /** The reported average of a group lies between its least and its
      greatest value. */
  lemma AverageWithinRange(vals: seq<int>)
    requires vals != []
    ensures MinOf(vals) <= Output(Avg, Reference(Avg, vals), |vals|) <= MaxOf(vals)
  {
    SumBetween(vals, MinOf(vals), MaxOf(vals));
    QuotientBetween(SumOf(vals), |vals|, MinOf(vals), MaxOf(vals));
  }

  /** Without grouping every history entry has the one fixed key, so there
      is at most one group. */
  lemma SingleGroup(op: Op, history: seq<(Field, int)>, single: Field)
    requires forall i | 0 <= i < |history| :: history[i].0 == single
    ensures Fold(op, history).sizes.Keys <= {single}
    ensures history != [] ==> Fold(op, history).sizes.Keys == {single}
  {
    FoldKeys(op, history);
    if history != [] {
      assert history[0].0 in KeysOf(history);
    }
  }
}
