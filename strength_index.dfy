/** The strength index of a Pokémon: the sum of its `attack`, `defense` and
    `hp` base stats, each taken from the first stat entry of that name and
    counted as 0 when no such entry exists. */
module StrengthIndex {

  import opened Optional

  /** One entry of the upstream `stats` list: `{stat: {name}, base_stat}`.
      `base_stat` is an integer; JavaScript's `|| 0` is the identity on
      integers (0 is the only falsy one and it maps to 0), so no extra
      case is needed for it. */
  datatype Stat = Stat(name: string, baseStat: int)

  const Attack: string := "attack"
  const Defense: string := "defense"
  const Hp: string := "hp"

  /** Index `i` holds the first entry named `name`. */
  predicate IsFirst(stats: seq<Stat>, i: int, name: string)
  {
    && 0 <= i < |stats|
    && stats[i].name == name
    && forall j | 0 <= j < i :: stats[j].name != name
  }

  /** `Array.prototype.find` with the predicate `stat.stat.name === name`. */
  function FindFirst(stats: seq<Stat>, name: string): (r: Option<Stat>)
    ensures r.None? <==> forall i | 0 <= i < |stats| :: stats[i].name != name
    ensures forall i :: IsFirst(stats, i, name) ==> r == Some(stats[i])
  {
    if |stats| == 0 then None
    else if stats[0].name == name then Some(stats[0])
    else
      var r := FindFirst(stats[1..], name);
      assert forall i :: IsFirst(stats, i, name) ==> IsFirst(stats[1..], i - 1, name);
      r
  }

  /** `stats.find(...)?.base_stat || 0`. */
  function StatOrZero(stats: seq<Stat>, name: string): (r: int)
    ensures forall i :: IsFirst(stats, i, name) ==> r == stats[i].baseStat
  {
    match FindFirst(stats, name)
    case None => 0
    case Some(s) => s.baseStat
  }

  /** `calculateStrengthIndex(stats)`: the sum of the three terms. Where the
      first `attack`, `defense` and `hp` entries sit at `a`, `d` and `h`,
      it is the sum of their base stats. */
  function CalculateStrengthIndex(stats: seq<Stat>): (r: int)
    ensures forall a, d, h | IsFirst(stats, a, Attack) && IsFirst(stats, d, Defense) && IsFirst(stats, h, Hp) ::
      r == stats[a].baseStat + stats[d].baseStat + stats[h].baseStat
  {
    StatOrZero(stats, Attack) + StatOrZero(stats, Defense) + StatOrZero(stats, Hp)
  }

  /** Reference definition of one term, independent of `FindFirst`: keep the
      base stats of the entries with that name, in order, and take the
      first one, or 0 if there is none. */
  function BaseStatsNamed(stats: seq<Stat>, name: string): (r: seq<int>)
  {
    if |stats| == 0 then []
    else if stats[0].name == name then [stats[0].baseStat] + BaseStatsNamed(stats[1..], name)
    else BaseStatsNamed(stats[1..], name)
  }

  function HeadOrZero(s: seq<int>): (r: int)
    ensures |s| > 0 ==> r in s
  {
    if |s| == 0 then 0 else s[0]
  }

  /** Each term is the first matching entry's base stat, or 0: the lookup
      agrees with "filter by name, then take the head". */
  lemma {:induction false} StatOrZeroIsFirstMatch(stats: seq<Stat>, name: string)
    ensures StatOrZero(stats, name) == HeadOrZero(BaseStatsNamed(stats, name))
  {
    if |stats| > 0 && stats[0].name != name {
      StatOrZeroIsFirstMatch(stats[1..], name);
    }
  }

  /** The strength index is attack + defense + hp, each read from the first
      entry of that name (0 when absent), as the filter-then-head reference
      definition states it. */
  lemma StrengthIndexIsSumOfFirstMatches(stats: seq<Stat>)
    ensures CalculateStrengthIndex(stats)
         == HeadOrZero(BaseStatsNamed(stats, Attack))
          + HeadOrZero(BaseStatsNamed(stats, Defense))
          + HeadOrZero(BaseStatsNamed(stats, Hp))
  {
    StatOrZeroIsFirstMatch(stats, Attack);
    StatOrZeroIsFirstMatch(stats, Defense);
    StatOrZeroIsFirstMatch(stats, Hp);
  }

  /** A list with no `attack`, `defense` or `hp` entry (the empty list
      among them) has strength index 0. */
  lemma StrengthIndexWithoutNamedStats(stats: seq<Stat>)
    requires forall i | 0 <= i < |stats| :: stats[i].name != Attack && stats[i].name != Defense && stats[i].name != Hp
    ensures CalculateStrengthIndex(stats) == 0
  {
  }

  /** Inserting entry `s` at position `k` does not change the lookup of
      `name` when `s` has another name, or when an entry named `name`
      already comes before position `k`. */
  lemma {:induction false} FindFirstIgnoresInserted(stats: seq<Stat>, k: nat, s: Stat, name: string)
    requires k <= |stats|
    requires s.name != name || exists j :: 0 <= j < k && stats[j].name == name
    ensures FindFirst(stats[..k] + [s] + stats[k..], name) == FindFirst(stats, name)
  {
    var grown := stats[..k] + [s] + stats[k..];
    if k == 0 {
      assert grown == [s] + stats;
      assert grown[1..] == stats;
    } else if stats[0].name != name {
      assert grown[0] == stats[0];
      assert grown[1..] == stats[1..][..k - 1] + [s] + stats[1..][k - 1..];
      if s.name == name {
        var j :| 0 <= j < k && stats[j].name == name;
        assert 0 <= j - 1 < k - 1 && stats[1..][j - 1].name == name;
      }
      FindFirstIgnoresInserted(stats[1..], k - 1, s, name);
    } else {
      assert grown[0] == stats[0];
    }
  }

  /** Entries whose name is not `attack`, `defense` or `hp` never affect the
      strength index, wherever they are inserted. */
  lemma StrengthIndexIgnoresOtherNames(stats: seq<Stat>, k: nat, s: Stat)
    requires k <= |stats|
    requires s.name != Attack && s.name != Defense && s.name != Hp
    ensures CalculateStrengthIndex(stats[..k] + [s] + stats[k..]) == CalculateStrengthIndex(stats)
  {
    FindFirstIgnoresInserted(stats, k, s, Attack);
    FindFirstIgnoresInserted(stats, k, s, Defense);
    FindFirstIgnoresInserted(stats, k, s, Hp);
  }

  /** Only the first entry of a name counts: an entry inserted after an
      earlier entry with the same name never affects the strength index. */
  lemma StrengthIndexIgnoresLaterDuplicates(stats: seq<Stat>, k: nat, s: Stat)
    requires k <= |stats|
    requires exists j :: 0 <= j < k && stats[j].name == s.name
    ensures CalculateStrengthIndex(stats[..k] + [s] + stats[k..]) == CalculateStrengthIndex(stats)
  {
    FindFirstIgnoresInserted(stats, k, s, Attack);
    FindFirstIgnoresInserted(stats, k, s, Defense);
    FindFirstIgnoresInserted(stats, k, s, Hp);
  }

  /** The worked example: three stats of 50 each give 150. */
  lemma StrengthIndexExample()
    ensures CalculateStrengthIndex([Stat(Attack, 50), Stat(Defense, 50), Stat(Hp, 50)]) == 150
    ensures CalculateStrengthIndex([]) == 0
  {
    var stats := [Stat(Attack, 50), Stat(Defense, 50), Stat(Hp, 50)];
    assert IsFirst(stats, 0, Attack) && IsFirst(stats, 1, Defense) && IsFirst(stats, 2, Hp);
  }
}
