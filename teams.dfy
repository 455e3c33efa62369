/**
 * Team randomisation: shuffleTeam copies the member list, reorders the copy
 * at random and deals it round-robin into `numberOfTeams` teams;
 * sortTeamMembers is the copy-and-reorder step alone. The random comparator
 * is modelled as an arbitrary reordering; only "the result is a permutation"
 * is promised about it. Member lists are values, so the caller's list cannot
 * be changed by either operation.
 */
module Teams {
  import opened Roster
  import opened Sequences

  /** sortTeamMembers: some reordering of the members, nothing dropped or duplicated. */
  method SortTeamMembers(members: seq<Member>) returns (shuffled: seq<Member>)
    ensures |shuffled| == |members|
    ensures multiset(shuffled) == multiset(members)
  {
    shuffled :| |shuffled| == |members| && multiset(shuffled) == multiset(members);
  }

  /** The number of members team `j` receives when `n` members are dealt round-robin to `k` teams. */
  function TeamSize(n: nat, k: nat, j: nat): (size: nat)
    requires k >= 1
  {
    n / k + (if j < n % k then 1 else 0)
  }

  /** Quotient and remainder are determined by `n == q * k + r` with `0 <= r < k`. */
  lemma DivModUnique(n: int, k: int, q: int, r: int)
    requires k >= 1 && 0 <= r < k && n == q * k + r
    ensures n / k == q && n % k == r
  {
    var q0, r0 := n / k, n % k;
    assert n == q0 * k + r0;
    assert (q - q0) * k == q * k - q0 * k;
    if q > q0 {
      ProductAtLeast(q - q0, k);
    } else if q < q0 {
      ProductAtLeast(q0 - q, k);
    }
  }

  /** A positive multiple of `k` is at least `k`. */
  lemma {:induction false} ProductAtLeast(d: int, k: int)
    requires d >= 1 && k >= 1
    ensures d * k >= k
  {
    if d > 1 {
      ProductAtLeast(d - 1, k);
      assert d * k == (d - 1) * k + k;
    }
  }

  /** Dealing member number `i` makes team `i % k` one longer and leaves every other team alone. */
  lemma TeamSizeStep(i: nat, k: nat, j: nat)
    requires j < k
    ensures TeamSize(i + 1, k, j) == TeamSize(i, k, j) + (if j == i % k then 1 else 0)
  {
    var q, r := i / k, i % k;
    assert i == q * k + r;
    if r + 1 < k {
      DivModUnique(i + 1, k, q, r + 1);
    } else {
      assert (q + 1) * k == q * k + k;
      DivModUnique(i + 1, k, q + 1, 0);
    }
  }

  /** Team `j` of `k` gets the ceiling of `(n - j) / k` members. */
  lemma TeamSizeIsCeiling(n: nat, k: nat, j: nat)
    requires k >= 1 && j < k
    ensures TeamSize(n, k, j) == (n - j + k - 1) / k
  {
    var q, r := n / k, n % k;
    if j < r {
      DivModUnique(n - j + k - 1, k, q + 1, r - j - 1);
    } else {
      DivModUnique(n - j + k - 1, k, q, r - j + k - 1);
    }
  }

  /** No team is larger than an earlier one, and any two differ by at most one member. */
  lemma TeamSizesBalanced(n: nat, k: nat, a: nat, b: nat)
    requires k >= 1 && a <= b
    ensures TeamSize(n, k, b) <= TeamSize(n, k, a) <= TeamSize(n, k, b) + 1
  {
  }

  /** With fewer members than teams, the teams past the last member are empty. */
  lemma TeamsBeyondMembersEmpty(n: nat, k: nat, j: nat)
    requires n <= j < k
    ensures TeamSize(n, k, j) == 0
  {
  }

  /** Team `j` holds as many members as dealing `i` members gives it. */
  ghost predicate SizedUpTo(teams: seq<seq<Member>>, i: nat, k: nat)
  {
    |teams| == k && forall j :: 0 <= j < k ==> |teams[j]| == TeamSize(i, k, j)
  }

  /** The position in the dealt list of the member at place `t` of team `j`, with `k` teams. */
  function PositionOf(k: nat, j: nat, t: nat): (p: nat)
  {
    t * k + j
  }

  /** Place `t` of team `j` holds the member at position `PositionOf(k, j, t)`, one of the first `i`. */
  ghost predicate GatheredUpTo(teams: seq<seq<Member>>, shuffled: seq<Member>, i: nat, k: nat)
  {
    |teams| == k &&
    forall j, t :: 0 <= j < k && 0 <= t < |teams[j]| ==>
      PositionOf(k, j, t) < i && PositionOf(k, j, t) < |shuffled| && teams[j][t] == shuffled[PositionOf(k, j, t)]
  }

  /** Each of the first `i` members, at position `p`, sits at place `p / k` of team `p % k`. */
  ghost predicate PlacedUpTo(teams: seq<seq<Member>>, shuffled: seq<Member>, i: nat, k: nat)
  {
    |teams| == k && i <= |shuffled| && (k == 0 ==> shuffled == []) &&
    forall p :: 0 <= p < i ==> p / k < |teams[p % k]| && teams[p % k][p / k] == shuffled[p]
  }

  /**
   * `teams` is what dealing the first `i` members of `shuffled` round-robin
   * into `k` teams gives: team sizes, where each dealt member sits (both
   * directions), and nothing lost or duplicated.
   */
  ghost predicate DealtUpTo(teams: seq<seq<Member>>, shuffled: seq<Member>, i: nat, k: nat)
  {
    SizedUpTo(teams, i, k) && GatheredUpTo(teams, shuffled, i, k) && PlacedUpTo(teams, shuffled, i, k) &&
    multiset(Flatten(teams)) == multiset(shuffled[..i])
  }

  /** Nothing dealt yet: `k` empty teams. */
  lemma DealtNothing(teams: seq<seq<Member>>, shuffled: seq<Member>, k: nat)
    requires |teams| == k && forall j :: 0 <= j < k ==> teams[j] == []
    requires k >= 1 || shuffled == []
    ensures DealtUpTo(teams, shuffled, 0, k)
  {
    FlattenEmpties(teams);
  }

  /** Dealing member `i` keeps the team sizes those of round-robin dealing. */
  lemma SizedOne(teams: seq<seq<Member>>, x: Member, i: nat, k: nat)
    requires SizedUpTo(teams, i, k) && k >= 1
    ensures SizedUpTo(teams[i % k := teams[i % k] + [x]], i + 1, k)
  {
    var next := teams[i % k := teams[i % k] + [x]];
    forall j | 0 <= j < k ensures |next[j]| == TeamSize(i + 1, k, j) {
      TeamSizeStep(i, k, j);
    }
  }

  /** Dealing member `i` keeps every place of every team holding the member at its position. */
  lemma GatheredOne(teams: seq<seq<Member>>, shuffled: seq<Member>, i: nat, k: nat)
    requires GatheredUpTo(teams, shuffled, i, k) && k >= 1 && i < |shuffled|
    requires |teams[i % k]| == i / k
    ensures GatheredUpTo(teams[i % k := teams[i % k] + [shuffled[i]]], shuffled, i + 1, k)
  {
    var j0 := i % k;
    var next := teams[j0 := teams[j0] + [shuffled[i]]];
    assert i / k * k + j0 == i;
    forall j, t | 0 <= j < k && 0 <= t < |next[j]|
      ensures PositionOf(k, j, t) < i + 1 && PositionOf(k, j, t) < |shuffled| &&
              next[j][t] == shuffled[PositionOf(k, j, t)]
    {
      if j == j0 && t == |teams[j0]| {
        assert PositionOf(k, j, t) == i;
      } else {
        assert next[j][t] == teams[j][t];
      }
    }
  }

  /** Dealing member `i` puts it at place `i / k` of team `i % k` and moves no earlier member. */
  lemma PlacedOne(teams: seq<seq<Member>>, shuffled: seq<Member>, i: nat, k: nat)
    requires SizedUpTo(teams, i, k) && PlacedUpTo(teams, shuffled, i, k) && k >= 1 && i < |shuffled|
    ensures PlacedUpTo(teams[i % k := teams[i % k] + [shuffled[i]]], shuffled, i + 1, k)
  {
  }

  /** Pushing member `i` onto team `i % k` extends a deal of `i` members to one of `i + 1`. */
  lemma DealOne(teams: seq<seq<Member>>, shuffled: seq<Member>, i: nat, k: nat)
    requires DealtUpTo(teams, shuffled, i, k) && i < |shuffled|
    ensures k >= 1
    ensures DealtUpTo(teams[i % k := teams[i % k] + [shuffled[i]]], shuffled, i + 1, k)
  {
    SizedOne(teams, shuffled[i], i, k);
    assert |teams[i % k]| == TeamSize(i, k, i % k) == i / k;
    GatheredOne(teams, shuffled, i, k);
    PlacedOne(teams, shuffled, i, k);
    FlattenAppendAt(teams, i % k, shuffled[i]);
    assert shuffled[..i + 1] == shuffled[..i] + [shuffled[i]];
  }

  /**
   * The dealing loop of shuffleTeam: `numberOfTeams` empty teams, then the
   * member at position `i` is pushed onto team `i % numberOfTeams`. With no
   * teams, only an empty list can be dealt (the original throws otherwise).
   */
  method Deal(shuffled: seq<Member>, numberOfTeams: nat) returns (teams: seq<seq<Member>>)
    requires numberOfTeams >= 1 || shuffled == []
    ensures |teams| == numberOfTeams
    ensures forall j :: 0 <= j < numberOfTeams ==> |teams[j]| == TeamSize(|shuffled|, numberOfTeams, j)
    ensures forall i :: 0 <= i < |shuffled| ==>
      i / numberOfTeams < |teams[i % numberOfTeams]| && teams[i % numberOfTeams][i / numberOfTeams] == shuffled[i]
    ensures forall j, t :: 0 <= j < numberOfTeams && 0 <= t < |teams[j]| ==>
      PositionOf(numberOfTeams, j, t) < |shuffled| && teams[j][t] == shuffled[PositionOf(numberOfTeams, j, t)]
    ensures multiset(Flatten(teams)) == multiset(shuffled)
  {
    var k := numberOfTeams;
    var buckets := new seq<Member>[k](_ => []);
    DealtNothing(buckets[..], shuffled, k);
    for i := 0 to |shuffled|
      invariant DealtUpTo(buckets[..], shuffled, i, k)
    {
      DealOne(buckets[..], shuffled, i, k);
      ghost var before := buckets[..];
      buckets[i % k] := buckets[i % k] + [shuffled[i]];
      assert buckets[..] == before[i % k := before[i % k] + [shuffled[i]]];
    }
    teams := buckets[..];
    assert shuffled[..|shuffled|] == shuffled;
  }

  /**
   * shuffleTeam: a random reordering of the members (given back as the ghost
   * `shuffled`) dealt round-robin into `numberOfTeams` teams.
   */
  method ShuffleTeam(members: seq<Member>, numberOfTeams: nat)
    returns (teams: seq<seq<Member>>, ghost shuffled: seq<Member>)
    requires numberOfTeams >= 1 || members == []
    ensures |shuffled| == |members| && multiset(shuffled) == multiset(members)
    ensures |teams| == numberOfTeams
    ensures forall j :: 0 <= j < numberOfTeams ==> |teams[j]| == TeamSize(|members|, numberOfTeams, j)
    ensures forall i :: 0 <= i < |shuffled| ==>
      i / numberOfTeams < |teams[i % numberOfTeams]| && teams[i % numberOfTeams][i / numberOfTeams] == shuffled[i]
    ensures multiset(Flatten(teams)) == multiset(members)
  {
    var order := SortTeamMembers(members);
    teams := Deal(order, numberOfTeams);
    shuffled := order;
  }
}
