/** The `pokemon` table as a value: rows keyed by their unique `name`, the
    `INSERT ... ON CONFLICT (name) DO NOTHING` statement as a function on
    that value, a batch of such inserts, and the `ORDER BY strength_index
    DESC` ordering of a query result. */
module PokemonTable {

  import opened Optional
  import opened StrengthIndex

  /** A detail record as fetched upstream: `{name, height, weight, stats,
      sprites: {front_default}}`; `front_default` may be null. */
  datatype Pokemon = Pokemon(
    name: string,
    height: int,
    weight: int,
    stats: seq<Stat>,
    frontDefault: Option<string>)

  /** A stored row: `(name, height, weight, strength_index, image_url)`. */
  datatype Row = Row(
    name: string,
    height: int,
    weight: int,
    strengthIndex: int,
    imageUrl: Option<string>)

  type Rows = map<string, Row>

  /** The parameters bound to the INSERT for one record: the record's own
      name (the conflict key), height, weight and `sprites.front_default`,
      and the strength index computed from its stats. */
  function ToRow(p: Pokemon): (r: Row)
    ensures r.name == p.name && r.height == p.height && r.weight == p.weight
    ensures r.imageUrl == p.frontDefault
    ensures r.strengthIndex == CalculateStrengthIndex(p.stats)
  {
    Row(p.name, p.height, p.weight, CalculateStrengthIndex(p.stats), p.frontDefault)
  }

  /** The table invariant: each row is stored under its own name. */
  predicate KeyedByName(t: Rows)
  {
    forall k | k in t :: t[k].name == k
  }

  /** `INSERT ... ON CONFLICT (name) DO NOTHING` of one row: every
      existing row stays untouched, the row is added when its name is new,
      nothing else is added, and the table stays keyed by name. */
  function InsertOrIgnore(t: Rows, r: Row): (t': Rows)
    ensures forall k | k in t :: k in t' && t'[k] == t[k]
    ensures t'.Keys == t.Keys + {r.name}
    ensures r.name !in t ==> t'[r.name] == r
    ensures KeyedByName(t) ==> KeyedByName(t')
  {
    if r.name in t then t else t[r.name := r]
  }

  /** The table after inserting every record of `batch`, in order; a batch
      never changes a row that existed before it. */
  function InsertAll(t: Rows, batch: seq<Pokemon>): (t': Rows)
    ensures forall k | k in t :: k in t' && t'[k] == t[k]
  {
    if |batch| == 0 then t
    else InsertOrIgnore(InsertAll(t, batch[..|batch| - 1]), ToRow(batch[|batch| - 1]))
  }

  function Names(batch: seq<Pokemon>): (names: set<string>)
    ensures forall i | 0 <= i < |batch| :: batch[i].name in names
  {
    set i | 0 <= i < |batch| :: batch[i].name
  }

  /** Index `i` is the first record of `batch` named `name`: `IsFirst` of
      the strength index, for a batch of records instead of a stat list. */
  predicate IsFirstNamed(batch: seq<Pokemon>, i: int, name: string)
  {
    && 0 <= i < |batch|
    && batch[i].name == name
    && forall j | 0 <= j < i :: batch[j].name != name
  }

  /** Inserting the same name twice keeps exactly the first row. */
  lemma InsertOrIgnoreSameNameTwice(t: Rows, first: Row, second: Row)
    requires first.name == second.name
    ensures InsertOrIgnore(InsertOrIgnore(t, first), second) == InsertOrIgnore(t, first)
  {
  }

  /** The names of a batch are those of all but its last record, plus the
      last record's. */
  lemma NamesOfSnoc(batch: seq<Pokemon>)
    requires |batch| > 0
    ensures Names(batch) == Names(batch[..|batch| - 1]) + {batch[|batch| - 1].name}
  {
    var n := |batch| - 1;
    forall x | x in Names(batch) ensures x in Names(batch[..n]) + {batch[n].name} {
      var i :| 0 <= i < |batch| && batch[i].name == x;
      if i < n {
        assert batch[..n][i] == batch[i];
      }
    }
    forall x | x in Names(batch[..n]) ensures x in Names(batch) {
      var i :| 0 <= i < n && batch[..n][i].name == x;
      assert batch[i].name == x;
    }
  }

  /** A batch adds exactly the names of its records. */
  lemma {:induction false} InsertAllKeys(t: Rows, batch: seq<Pokemon>)
    ensures InsertAll(t, batch).Keys == t.Keys + Names(batch)
  {
    if |batch| > 0 {
      InsertAllKeys(t, batch[..|batch| - 1]);
      NamesOfSnoc(batch);
    }
  }

  /** A batch keeps the table keyed by name. */
  lemma {:induction false} InsertAllKeyedByName(t: Rows, batch: seq<Pokemon>)
    requires KeyedByName(t)
    ensures KeyedByName(InsertAll(t, batch))
  {
    if |batch| > 0 {
      InsertAllKeyedByName(t, batch[..|batch| - 1]);
    }
  }

  /** A name new to the table gets the row built from its first record in
      the batch; later records with that name are ignored. */
  lemma {:induction false} InsertAllFirstWins(t: Rows, batch: seq<Pokemon>, i: int)
    requires 0 <= i < |batch| && IsFirstNamed(batch, i, batch[i].name) && batch[i].name !in t
    ensures batch[i].name in InsertAll(t, batch)
    ensures InsertAll(t, batch)[batch[i].name] == ToRow(batch[i])
  {
    var n := |batch| - 1;
    var prefix := batch[..n];
    if i == n {
      InsertAllKeys(t, prefix);
      assert batch[i].name !in Names(prefix);
    } else {
      assert prefix[i] == batch[i];
      InsertAllFirstWins(t, prefix, i);
    }
  }

  /** Running the same batch again, in a later call, changes nothing. */
  lemma {:induction false} InsertAllTwiceIsOnce(t: Rows, batch: seq<Pokemon>)
    ensures InsertAll(InsertAll(t, batch), batch) == InsertAll(t, batch)
  {
    var once := InsertAll(t, batch);
    InsertAllKeys(t, batch);
    InsertAllAlreadyPresent(once, batch);
  }

  /** A batch whose names are all already stored changes nothing. */
  lemma {:induction false} InsertAllAlreadyPresent(t: Rows, batch: seq<Pokemon>)
    requires Names(batch) <= t.Keys
    ensures InsertAll(t, batch) == t
  {
    if |batch| > 0 {
      NamesOfSnoc(batch);
      InsertAllAlreadyPresent(t, batch[..|batch| - 1]);
    }
  }

  /** Query results in `ORDER BY strength_index DESC` order. */
  predicate SortedByStrengthDesc(s: seq<Row>)
  {
    forall i, j | 0 <= i < j < |s| :: s[i].strengthIndex >= s[j].strengthIndex
  }

  /** No name occurs twice in a query result. */
  predicate DistinctNames(s: seq<Row>)
  {
    forall i, j | 0 <= i < j < |s| :: s[i].name != s[j].name
  }

  /** Where a row goes in a sorted result: after every strictly stronger
      row and before the rest. */
  function InsertPosition(s: seq<Row>, r: Row): (p: nat)
    requires SortedByStrengthDesc(s)
    ensures p <= |s|
    ensures forall i | 0 <= i < p :: s[i].strengthIndex > r.strengthIndex
    ensures forall i | p <= i < |s| :: s[i].strengthIndex <= r.strengthIndex
  {
    if |s| == 0 || s[0].strengthIndex <= r.strengthIndex then 0
    else 1 + InsertPosition(s[1..], r)
  }

  /** Three rows of strength 150, 300 and 50 come back as 300, 150, 50. */
  lemma OrderingExample(result: seq<Row>, a: Row, b: Row, c: Row)
    requires a.strengthIndex == 150 && b.strengthIndex == 300 && c.strengthIndex == 50
    requires |result| == 3 && a in result && b in result && c in result
    requires SortedByStrengthDesc(result)
    ensures result == [b, a, c]
  {
  }

  /** The sequence `s` with `r` spliced in at index `p`, element by element. */
  lemma SpliceAt(s: seq<Row>, p: nat, r: Row)
    requires p <= |s|
    ensures var u := s[..p] + [r] + s[p..];
      && |u| == |s| + 1
      && (forall i | 0 <= i < |u| :: u[i] == if i < p then s[i] else if i == p then r else s[i - 1])
      && (forall x :: x in u <==> x in s || x == r)
  {
    assert s == s[..p] + s[p..];
  }

  /** Placing a row at its position keeps a result sorted, and adds that
      row and nothing else. */
  lemma InsertAtPosition(s: seq<Row>, r: Row)
    requires SortedByStrengthDesc(s)
    ensures var u := s[..InsertPosition(s, r)] + [r] + s[InsertPosition(s, r)..];
      && SortedByStrengthDesc(u)
      && |u| == |s| + 1
      && (forall x :: x in u <==> x in s || x == r)
      && (DistinctNames(s) && (forall x | x in s :: x.name != r.name) ==> DistinctNames(u))
  {
    var p := InsertPosition(s, r);
    SpliceAt(s, p, r);
    SplicedSorted(s, p, r);
    if DistinctNames(s) && (forall x | x in s :: x.name != r.name) {
      SplicedDistinct(s, p, r);
    }
  }

  lemma SplicedSorted(s: seq<Row>, p: nat, r: Row)
    requires p <= |s| && SortedByStrengthDesc(s)
    requires forall i | 0 <= i < p :: s[i].strengthIndex > r.strengthIndex
    requires forall i | p <= i < |s| :: s[i].strengthIndex <= r.strengthIndex
    ensures SortedByStrengthDesc(s[..p] + [r] + s[p..])
  {
    var u := s[..p] + [r] + s[p..];
    SpliceAt(s, p, r);
    forall i, j | 0 <= i < j < |u| ensures u[i].strengthIndex >= u[j].strengthIndex {
      if j < p {
        assert u[i] == s[i] && u[j] == s[j];
      } else if i < p {
        assert u[i] == s[i];
      } else if i > p {
        assert u[i] == s[i - 1] && u[j] == s[j - 1];
      }
    }
  }

  lemma SplicedDistinct(s: seq<Row>, p: nat, r: Row)
    requires p <= |s| && DistinctNames(s)
    requires forall x | x in s :: x.name != r.name
    ensures DistinctNames(s[..p] + [r] + s[p..])
  {
    var u := s[..p] + [r] + s[p..];
    SpliceAt(s, p, r);
    forall i, j | 0 <= i < j < |u| ensures u[i].name != u[j].name {
      if i != p && j != p {
        assert u[i] == s[if i < p then i else i - 1];
        assert u[j] == s[if j < p then j else j - 1];
      } else {
        assert u[i] in s || u[j] in s;
      }
    }
  }
}
