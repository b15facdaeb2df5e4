/** The report over the classified rows (rpc-finder.py:150-166): drop the sentinel,
    keep the rows with strictly positive voting power and add those powers up. */
module Report {
  import opened Wrappers
  import opened Text
  import opened Status

  /** A row the report lists: its last field parses to a strictly positive voting power. */
  predicate IsVulnerable(row: string)
  {
    VotingPowerOf(row).Some? && VotingPowerOf(row).value > 0
  }

  /** What one row contributes to the listing: itself when vulnerable, nothing otherwise. */
  function Listed(row: string): seq<string>
  {
    if IsVulnerable(row) then [row] else []
  }

  /** The rows listed as vulnerable, in the order they are visited. */
  function Vulnerable(rows: seq<string>): (listed: seq<string>)
    ensures |listed| <= |rows|
  {
    if |rows| == 0 then [] else Vulnerable(rows[..|rows| - 1]) + Listed(rows[|rows| - 1])
  }

  /** A row is listed exactly when it is among the rows and vulnerable. */
  lemma {:induction false} VulnerableMembers(rows: seq<string>)
    ensures forall r :: r in Vulnerable(rows) <==> r in rows && IsVulnerable(r)
    decreases |rows|
  {
    if |rows| > 0 {
      var earlier := rows[..|rows| - 1];
      VulnerableMembers(earlier);
      assert rows == earlier + [rows[|rows| - 1]];
    }
  }

  /** The voting power a row reports, 0 where it has none. */
  function Power(row: string): int
  {
    if VotingPowerOf(row).Some? then VotingPowerOf(row).value else 0
  }

  /** The total of `f` over `rows`, accumulated left to right. */
  function SumBy(f: string -> int, rows: seq<string>): int
  {
    if |rows| == 0 then 0 else SumBy(f, rows[..|rows| - 1]) + f(rows[|rows| - 1])
  }

  /** The sum of the voting powers of `rows`. */
  function SumPowers(rows: seq<string>): int
  {
    SumBy(Power, rows)
  }

  /** `affected_stake`: the total voting power of the vulnerable rows. */
  function Stake(rows: seq<string>): int
  {
    SumPowers(Vulnerable(rows))
  }

  /** Summing listed rows only ever adds strictly positive powers. */
  lemma {:induction false} SumOfVulnerable(listed: seq<string>)
    requires forall i :: 0 <= i < |listed| ==> IsVulnerable(listed[i])
    ensures SumPowers(listed) >= |listed|
    decreases |listed|
  {
    if |listed| > 0 {
      SumOfVulnerable(listed[..|listed| - 1]);
      assert Power(listed[|listed| - 1]) >= 1;
    }
  }

  /** The affected stake is positive exactly when some row is listed. */
  lemma StakePositiveIffListed(rows: seq<string>)
    ensures Stake(rows) > 0 <==> |Vulnerable(rows)| > 0
    ensures Stake(rows) >= 0
  {
    var listed := Vulnerable(rows);
    VulnerableMembers(rows);
    forall i | 0 <= i < |listed| ensures IsVulnerable(listed[i]) {
      assert listed[i] in listed;
    }
    SumOfVulnerable(listed);
  }

  /** Listing and summing distribute over concatenation. */
  lemma {:induction false} VulnerableAppend(a: seq<string>, b: seq<string>)
    ensures Vulnerable(a + b) == Vulnerable(a) + Vulnerable(b)
    decreases |b|
  {
    if |b| == 0 {
      assert a + b == a;
    } else {
      var b' := b[..|b| - 1];
      var last := b[|b| - 1];
      assert (a + b)[..|a + b| - 1] == a + b';
      assert (a + b)[|a + b| - 1] == last;
      VulnerableAppend(a, b');
      assert Vulnerable(a + b) == Vulnerable(a + b') + Listed(last);
      assert Vulnerable(b) == Vulnerable(b') + Listed(last);
    }
  }

  /** What one row adds to the stake. */
  function Share(row: string): int
  {
    if IsVulnerable(row) then VotingPowerOf(row).value else 0
  }

  /** The stake accumulated row by row, as the loop of lines 160-165 does. */
  function SumShares(rows: seq<string>): int
  {
    SumBy(Share, rows)
  }

  /** Summing row by row gives the total power of the listed rows. */
  lemma {:induction false} StakeIsSumOfShares(rows: seq<string>)
    ensures Stake(rows) == SumShares(rows)
    decreases |rows|
  {
    if |rows| > 0 {
      var n := |rows| - 1;
      StakeIsSumOfShares(rows[..n]);
      ReportStep(rows, n);
      assert rows[..n + 1] == rows;
    }
  }

  lemma {:induction false} SumByAppend(f: string -> int, a: seq<string>, b: seq<string>)
    ensures SumBy(f, a + b) == SumBy(f, a) + SumBy(f, b)
    decreases |b|
  {
    if |b| == 0 {
      assert a + b == a;
    } else {
      var b' := b[..|b| - 1];
      assert (a + b)[..|a + b| - 1] == a + b';
      SumByAppend(f, a, b');
    }
  }

  lemma SplitAround<T>(s: seq<T>, k: nat)
    requires k < |s|
    ensures s == (s[..k] + [s[k]]) + s[k + 1..]
  {
  }

  lemma SumByRemove(f: string -> int, rows: seq<string>, k: nat)
    requires k < |rows|
    ensures SumBy(f, rows) == SumBy(f, rows[..k] + rows[k + 1..]) + f(rows[k])
  {
    var front, back := rows[..k], rows[k + 1..];
    SplitAround(rows, k);
    SumByAppend(f, front + [rows[k]], back);
    SumByAppend(f, front, [rows[k]]);
    SumByAppend(f, front, back);
    assert SumBy(f, [rows[k]]) == SumBy(f, [rows[k]][..0]) + f(rows[k]);
  }

  lemma MultisetRemove(s: seq<string>, k: nat)
    requires k < |s|
    ensures multiset(s) == multiset(s[..k] + s[k + 1..]) + multiset{s[k]}
  {
    assert s == s[..k] + [s[k]] + s[k + 1..];
    assert multiset(s) == multiset(s[..k]) + multiset([s[k]]) + multiset(s[k + 1..]);
    assert multiset(s[..k] + s[k + 1..]) == multiset(s[..k]) + multiset(s[k + 1..]);
  }

  /** Taking the last row of `a` and a matching row of `b` out of two permutations of
      each other leaves two permutations of each other. */
  lemma RemoveMatching(a: seq<string>, b: seq<string>, k: nat)
    requires multiset(a) == multiset(b)
    requires |a| > 0 && k < |b| && b[k] == a[|a| - 1]
    ensures multiset(a[..|a| - 1]) == multiset(b[..k] + b[k + 1..])
  {
    var last := a[|a| - 1];
    MultisetRemove(a, |a| - 1);
    MultisetRemove(b, k);
    assert a[..|a| - 1] + a[|a|..] == a[..|a| - 1];
    assert multiset(a[..|a| - 1]) == multiset(a) - multiset{last};
    assert multiset(b[..k] + b[k + 1..]) == multiset(b) - multiset{last};
  }

  /** A total over rows does not depend on their order. */
  lemma {:induction false} SumByIgnoresOrder(f: string -> int, a: seq<string>, b: seq<string>)
    requires multiset(a) == multiset(b)
    ensures SumBy(f, a) == SumBy(f, b)
    decreases |a|
  {
    if |a| > 0 {
      var last := a[|a| - 1];
      assert last in multiset(b);
      var k :| 0 <= k < |b| && b[k] == last;
      RemoveMatching(a, b, k);
      SumByIgnoresOrder(f, a[..|a| - 1], b[..k] + b[k + 1..]);
      SumByRemove(f, a, |a| - 1);
      SumByRemove(f, b, k);
      assert a[..|a| - 1] + a[|a|..] == a[..|a| - 1];
    } else {
      assert |b| == |multiset(b)|;
    }
  }

  /** The stake does not depend on the order the rows are visited in: the source walks
      a set, whose order is arbitrary. */
  lemma StakeIgnoresOrder(a: seq<string>, b: seq<string>)
    requires multiset(a) == multiset(b)
    ensures Stake(a) == Stake(b)
  {
    StakeIsSumOfShares(a);
    StakeIsSumOfShares(b);
    SumByIgnoresOrder(Share, a, b);
  }

  /** Visiting one more row lists it when it is vulnerable and adds its power to the stake. */
  lemma ReportStep(rows: seq<string>, n: nat)
    requires n < |rows|
    ensures Vulnerable(rows[..n + 1]) == Vulnerable(rows[..n]) + Listed(rows[n])
    ensures Stake(rows[..n + 1]) == Stake(rows[..n]) + Share(rows[n])
  {
    assert rows[..n + 1] == rows[..n] + [rows[n]];
    VulnerableAppend(rows[..n], [rows[n]]);
    SumByAppend(Power, Vulnerable(rows[..n]), Vulnerable([rows[n]]));
    assert [rows[n]][..0] == [];
  }

  /** `fields` holds, in order, the fields of each of `rows`. */
  predicate SplitsOf(fields: seq<seq<string>>, rows: seq<string>)
  {
    |fields| == |rows| && forall i :: 0 <= i < |rows| ==> fields[i] == Split(rows[i], ',')
  }

  lemma SplitsOfAppend(fields: seq<seq<string>>, rows: seq<string>, row: string)
    requires SplitsOf(fields, rows)
    ensures SplitsOf(fields + [Split(row, ',')], rows + [row])
  {
  }

  /** Joining each split row back gives the row: the listed CSV lines are the rows. */
  lemma JoinSplitsOf(fields: seq<seq<string>>, rows: seq<string>)
    requires SplitsOf(fields, rows)
    ensures forall i :: 0 <= i < |fields| ==> Join(fields[i], ',') == rows[i]
  {
    forall i | 0 <= i < |fields| ensures Join(fields[i], ',') == rows[i] {
      JoinSplit(rows[i], ',');
    }
  }

  /** One pass of the loop body keeps the loop's invariant. */
  lemma ReportLoopStep(rows: seq<string>, n: nat, before: seq<seq<string>>, stakeBefore: int,
                       after: seq<seq<string>>, stakeAfter: int)
    requires n < |rows|
    requires SplitsOf(before, Vulnerable(rows[..n])) && stakeBefore == Stake(rows[..n])
    requires after == before + (if IsVulnerable(rows[n]) then [Split(rows[n], ',')] else [])
    requires stakeAfter == stakeBefore + Share(rows[n])
    ensures SplitsOf(after, Vulnerable(rows[..n + 1])) && stakeAfter == Stake(rows[..n + 1])
  {
    ReportStep(rows, n);
    if IsVulnerable(rows[n]) {
      SplitsOfAppend(before, Vulnerable(rows[..n]), rows[n]);
    } else {
      assert after == before;
    }
  }

  /** Lines 157-166: walk the rows, split each listed one into its fields and add up
      its voting power. A row whose last field is not an integer makes the source raise,
      which the callers never let happen. */
  method BuildReport(rows: seq<string>) returns (vulnerable: seq<seq<string>>, stake: int)
    requires forall i :: 0 <= i < |rows| ==> VotingPowerOf(rows[i]).Some?
    ensures SplitsOf(vulnerable, Vulnerable(rows))
    ensures forall i :: 0 <= i < |vulnerable| ==> Join(vulnerable[i], ',') == Vulnerable(rows)[i]
    ensures stake == Stake(rows)
    ensures stake > 0 <==> |vulnerable| > 0
  {
    vulnerable := [];
    stake := 0;
    var n := 0;
    while n < |rows|
      invariant 0 <= n <= |rows|
      invariant SplitsOf(vulnerable, Vulnerable(rows[..n]))
      invariant stake == Stake(rows[..n])
    {
      var row := rows[n];
      var power := VotingPowerOf(row).value;
      ghost var before, stakeBefore := vulnerable, stake;
      if power > 0 {
        vulnerable := vulnerable + [Split(row, ',')];
        stake := stake + power;
      }
      ReportLoopStep(rows, n, before, stakeBefore, vulnerable, stake);
      n := n + 1;
    }
    assert rows[..n] == rows;
    StakePositiveIffListed(rows);
    JoinSplitsOf(vulnerable, Vulnerable(rows));
  }

  /** Voting powers 0, 5, -1 and 100: only the rows with 5 and 100 are listed, and the
      affected stake is 105. */
  lemma ReportOfMixedPowers(r0: ValidatorRecord, r5: ValidatorRecord, rNeg: ValidatorRecord, r100: ValidatorRecord)
    requires r0.votingPower == 0 && r5.votingPower == 5 && rNeg.votingPower == -1 && r100.votingPower == 100
    ensures Vulnerable([FormatRow(r0), FormatRow(r5), FormatRow(rNeg), FormatRow(r100)])
            == [FormatRow(r5), FormatRow(r100)]
    ensures Stake([FormatRow(r0), FormatRow(r5), FormatRow(rNeg), FormatRow(r100)]) == 105
  {
    var rows := [FormatRow(r0), FormatRow(r5), FormatRow(rNeg), FormatRow(r100)];
    assert rows[..3] == [FormatRow(r0), FormatRow(r5), FormatRow(rNeg)];
    assert rows[..3][..2] == [FormatRow(r0), FormatRow(r5)];
    assert rows[..3][..2][..1] == [FormatRow(r0)];
    assert Vulnerable([FormatRow(r0)]) == [];
    assert Vulnerable(rows[..3][..2]) == [FormatRow(r5)];
    assert Vulnerable(rows) == [FormatRow(r5), FormatRow(r100)];
    assert [FormatRow(r5), FormatRow(r100)][..1] == [FormatRow(r5)];
    assert [FormatRow(r5)][..0] == [];
    assert SumBy(Power, [FormatRow(r5)]) == SumBy(Power, []) + Power(FormatRow(r5));
  }
}
