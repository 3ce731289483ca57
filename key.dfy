/**
 * The spymaster key of app.js: `desiredCounts` and the cells `genKey` pushes before it
 * shuffles them. The colours are also the colours a revealed tile can take.
 */
module Key {
  import opened Shuffle

  datatype Color = Blue | Red | Gray | Black

  const KeySize := 25

  /** `desiredCounts(firstTeam)`: the colour entries in the order `Object.entries` lists them. */
  function DesiredCounts(firstTeam: string): seq<(Color, nat)> {
    if firstTeam == "red" then [(Red, 9), (Blue, 8), (Gray, 7), (Black, 1)]
    else [(Blue, 9), (Red, 8), (Gray, 7), (Black, 1)]
  }

  function Repeat(c: Color, n: nat): seq<Color> {
    seq(n, _ => c)
  }

  /** The cells the nested push loop builds: each entry's colour, as many times as its count. */
  function Expand(counts: seq<(Color, nat)>): seq<Color>
    decreases |counts|
  {
    if counts == [] then []
    else Expand(counts[..|counts| - 1]) + Repeat(counts[|counts| - 1].0, counts[|counts| - 1].1)
  }

  /** The game's quota: 25 cells; 9 of the first team's colour and 8 of the other's, where the
      first team is red exactly when `firstTeam` is "red" and blue for every other value;
      7 gray and 1 black. */
  ghost predicate HasQuota(firstTeam: string, cells: seq<Color>) {
    && |cells| == KeySize
    && multiset(cells)[Red] == (if firstTeam == "red" then 9 else 8)
    && multiset(cells)[Blue] == (if firstTeam == "red" then 8 else 9)
    && multiset(cells)[Gray] == 7
    && multiset(cells)[Black] == 1
  }

  lemma {:induction false} RepeatCount(c: Color, n: nat, x: Color)
    ensures |Repeat(c, n)| == n
    ensures multiset(Repeat(c, n))[x] == if x == c then n else 0
  {
    if n > 0 {
      RepeatCount(c, n - 1, x);
      assert Repeat(c, n) == Repeat(c, n - 1) + [c];
    }
  }

  /** Four entries expand to four runs, in entry order. */
  lemma ExpandFour(counts: seq<(Color, nat)>)
    requires |counts| == 4
    ensures Expand(counts) == Repeat(counts[0].0, counts[0].1) + Repeat(counts[1].0, counts[1].1)
                              + Repeat(counts[2].0, counts[2].1) + Repeat(counts[3].0, counts[3].1)
  {
    assert Expand(counts[..1]) == Repeat(counts[0].0, counts[0].1) by {
      assert |counts[..1][..0]| == 0;
    }
    assert counts[..2][..1] == counts[..1];
    assert Expand(counts[..2]) == Expand(counts[..1]) + Repeat(counts[1].0, counts[1].1);
    assert counts[..3][..2] == counts[..2];
    assert Expand(counts[..3]) == Expand(counts[..2]) + Repeat(counts[2].0, counts[2].1);
    assert counts[..3] == counts[..|counts| - 1];
  }

  /** How often a colour occurs in four runs of four distinct colours: the length of its run. */
  lemma FourRunsCount(cs: seq<Color>, ns: seq<nat>, x: Color, k: nat)
    requires |cs| == 4 && |ns| == 4 && k < 4 && cs[k] == x
    requires forall i, j | 0 <= i < j < 4 :: cs[i] != cs[j]
    ensures multiset(Repeat(cs[0], ns[0]) + Repeat(cs[1], ns[1]) + Repeat(cs[2], ns[2])
                     + Repeat(cs[3], ns[3]))[x] == ns[k]
  {
    RepeatCount(cs[0], ns[0], x);
    RepeatCount(cs[1], ns[1], x);
    RepeatCount(cs[2], ns[2], x);
    RepeatCount(cs[3], ns[3], x);
  }

  /** The cells built from `desiredCounts(firstTeam)` meet the quota. */
  lemma DesiredCellsHaveQuota(firstTeam: string)
    ensures HasQuota(firstTeam, Expand(DesiredCounts(firstTeam)))
  {
    var counts := DesiredCounts(firstTeam);
    ExpandFour(counts);
    var cs := [counts[0].0, counts[1].0, counts[2].0, counts[3].0];
    var ns := [counts[0].1, counts[1].1, counts[2].1, counts[3].1];
    var cells := Expand(counts);
    assert cells == Repeat(cs[0], ns[0]) + Repeat(cs[1], ns[1]) + Repeat(cs[2], ns[2]) + Repeat(cs[3], ns[3]);
    RepeatCount(cs[0], ns[0], Gray);
    RepeatCount(cs[1], ns[1], Gray);
    RepeatCount(cs[2], ns[2], Gray);
    RepeatCount(cs[3], ns[3], Gray);
    FourRunsCount(cs, ns, cs[0], 0);
    FourRunsCount(cs, ns, cs[1], 1);
    FourRunsCount(cs, ns, Gray, 2);
    FourRunsCount(cs, ns, Black, 3);
  }

  /** The cells `genKey` pushes, entry by entry, before shuffling. */
  method KeyCells(firstTeam: string) returns (cells: seq<Color>)
    ensures cells == Expand(DesiredCounts(firstTeam))
    ensures HasQuota(firstTeam, cells)
  {
    var counts := DesiredCounts(firstTeam);
    cells := [];
    for e := 0 to |counts|
      invariant cells == Expand(counts[..e])
    {
      var (k, n) := counts[e];
      for i := 0 to n
        invariant cells == Expand(counts[..e]) + Repeat(k, i)
      {
        cells := cells + [k];
      }
      assert counts[..e + 1][..e] == counts[..e];
    }
    assert counts[..|counts|] == counts;
    DesiredCellsHaveQuota(firstTeam);
  }

  /** Shuffling the cells keeps the quota: the stored key meets it whatever the draws. */
  lemma ShuffledKeyHasQuota(firstTeam: string, draws: Draws)
    requires InRange(draws)
    ensures HasQuota(firstTeam, Shuffled(Expand(DesiredCounts(firstTeam)), draws))
  {
    DesiredCellsHaveQuota(firstTeam);
    ShuffledPermutes(Expand(DesiredCounts(firstTeam)), draws);
  }
}
