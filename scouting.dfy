/**
 * Scouting selection of app.py: the sample player table built by
 * fetch_player_data, the injury-risk label, and the boolean mask that selects
 * young players with 150 to 200 games in the chosen position and preferred foot.
 */
module Scouting {
  import opened Wrappers

  /** The fixed selection limits. */
  const AgeLimit: int := 25
  const MinGames: int := 150
  const MaxGames: int := 200

  /** More recorded injuries than this is labelled high risk. */
  const InjuryRiskLimit: int := 3

  /** One row of the player table. */
  datatype Player = Player(
    name: string,
    age: int,
    position: string,
    games: int,
    foot: string,
    marketValue: int,
    injuryRecord: int,
    passSuccessRate: int,
    dribbleSuccessRate: int,
    shotAccuracy: int,
    ballPossessionTime: int,
    passPerGame: int)

  /** The column dictionary handed to pd.DataFrame. */
  datatype PlayerColumns = PlayerColumns(
    name: seq<string>,
    age: seq<int>,
    position: seq<string>,
    games: seq<int>,
    foot: seq<string>,
    marketValue: seq<int>,
    injuryRecord: seq<int>,
    passSuccessRate: seq<int>,
    dribbleSuccessRate: seq<int>,
    shotAccuracy: seq<int>,
    ballPossessionTime: seq<int>,
    passPerGame: seq<int>)

  /** pd.DataFrame refuses columns of different lengths. */
  datatype FrameError = ColumnLengthMismatch

  predicate ColumnsHaveLength(c: PlayerColumns, n: nat)
  {
    && |c.name| == n && |c.age| == n && |c.position| == n && |c.games| == n
    && |c.foot| == n && |c.marketValue| == n && |c.injuryRecord| == n
    && |c.passSuccessRate| == n && |c.dribbleSuccessRate| == n
    && |c.shotAccuracy| == n && |c.ballPossessionTime| == n && |c.passPerGame| == n
  }

  /** Row i of aligned columns. */
  function RowAt(c: PlayerColumns, i: nat): Player
    requires ColumnsHaveLength(c, |c.name|) && i < |c.name|
  {
    Player(c.name[i], c.age[i], c.position[i], c.games[i], c.foot[i], c.marketValue[i],
           c.injuryRecord[i], c.passSuccessRate[i], c.dribbleSuccessRate[i],
           c.shotAccuracy[i], c.ballPossessionTime[i], c.passPerGame[i])
  }

  /** pd.DataFrame(data): the rows of the column dictionary, or an error when the columns differ in length. */
  function ToDataFrame(c: PlayerColumns): (r: Result<seq<Player>, FrameError>)
    ensures r.Ok? <==> ColumnsHaveLength(c, |c.name|)
    ensures r.Ok? ==> ColumnsOf(r.value) == c
  {
    if ColumnsHaveLength(c, |c.name|) then
      var rows := seq(|c.name|, i requires 0 <= i < |c.name| => RowAt(c, i));
      assert ColumnsOf(rows) == c;
      Ok(rows)
    else
      Err(ColumnLengthMismatch)
  }

  /** The column view of a table: df[column] for every column. */
  function ColumnsOf(rows: seq<Player>): (c: PlayerColumns)
    ensures ColumnsHaveLength(c, |rows|)
  {
    PlayerColumns(
      seq(|rows|, i requires 0 <= i < |rows| => rows[i].name),
      seq(|rows|, i requires 0 <= i < |rows| => rows[i].age),
      seq(|rows|, i requires 0 <= i < |rows| => rows[i].position),
      seq(|rows|, i requires 0 <= i < |rows| => rows[i].games),
      seq(|rows|, i requires 0 <= i < |rows| => rows[i].foot),
      seq(|rows|, i requires 0 <= i < |rows| => rows[i].marketValue),
      seq(|rows|, i requires 0 <= i < |rows| => rows[i].injuryRecord),
      seq(|rows|, i requires 0 <= i < |rows| => rows[i].passSuccessRate),
      seq(|rows|, i requires 0 <= i < |rows| => rows[i].dribbleSuccessRate),
      seq(|rows|, i requires 0 <= i < |rows| => rows[i].shotAccuracy),
      seq(|rows|, i requires 0 <= i < |rows| => rows[i].ballPossessionTime),
      seq(|rows|, i requires 0 <= i < |rows| => rows[i].passPerGame))
  }

  /** Building a table from its own columns gives back the same rows. */
  lemma TableColumnsRoundTrip(rows: seq<Player>)
    ensures ToDataFrame(ColumnsOf(rows)) == Ok(rows)
  {
    var c := ColumnsOf(rows);
    assert ToDataFrame(c).Ok?;
    var back := ToDataFrame(c).value;
    assert |back| == |rows|;
    forall i | 0 <= i < |rows| ensures back[i] == rows[i] {
      assert back[i] == RowAt(c, i);
    }
    assert back == rows;
  }

  /** The literal dictionary of fetch_player_data. */
  function SampleColumns(): PlayerColumns
  {
    PlayerColumns(
      ["선수 A", "선수 B", "선수 C", "선수 D", "선수 E"],
      [23, 24, 22, 21, 25],
      ["공격수", "수비수", "미드필더", "공격수", "수비수"],
      [180, 160, 170, 140, 155],
      ["오른발", "왼발", "오른발", "왼발", "오른발"],
      [50000000, 30000000, 45000000, 25000000, 32000000],
      [2, 5, 3, 1, 4],
      [85, 78, 82, 76, 80],
      [60, 50, 70, 65, 55],
      [75, 60, 65, 70, 62],
      [45, 38, 50, 40, 42],
      [60, 50, 55, 48, 52])
  }

  /** fetch_player_data: the sample table. */
  function FetchPlayerData(): Result<seq<Player>, FrameError>
  {
    ToDataFrame(SampleColumns())
  }

  /** The sample table builds without error, with five rows and every column of length five. */
  lemma SampleTableShape()
    ensures ColumnsHaveLength(SampleColumns(), 5)
    ensures FetchPlayerData().Ok? && |FetchPlayerData().value| == 5
    ensures ColumnsOf(FetchPlayerData().value) == SampleColumns()
  {
  }

  // ---------------------------------------------------------------------------
  // Injury-risk label: (df['injury_record'] > 3).astype(int)
  // ---------------------------------------------------------------------------

  function InjuryRiskLabel(injuryRecord: int): (risk: int)
    ensures risk == 1 <==> injuryRecord > InjuryRiskLimit
    ensures risk == 0 <==> injuryRecord <= InjuryRiskLimit
  {
    if injuryRecord > InjuryRiskLimit then 1 else 0
  }

  /** The label column, one entry per row in row order. */
  function InjuryRiskLabels(df: seq<Player>): (labels: seq<int>)
    ensures |labels| == |df|
    ensures forall i :: 0 <= i < |df| ==> (labels[i] == 1 <==> df[i].injuryRecord > InjuryRiskLimit)
    ensures forall i :: 0 <= i < |df| ==> (labels[i] == 0 <==> df[i].injuryRecord <= InjuryRiskLimit)
  {
    seq(|df|, i requires 0 <= i < |df| => InjuryRiskLabel(df[i].injuryRecord))
  }

  /** In the sample table players B and E are high risk. */
  lemma SampleInjuryLabels()
    ensures FetchPlayerData().Ok?
    ensures InjuryRiskLabels(FetchPlayerData().value) == [0, 1, 0, 0, 1]
  {
    SampleTableShape();
  }

  // ---------------------------------------------------------------------------
  // The eligibility mask and boolean indexing
  // ---------------------------------------------------------------------------

  /** The five conjuncts of the mask for one row. */
  predicate Eligible(p: Player, position: string, preferredFoot: string)
  {
    && p.age <= AgeLimit
    && p.games >= MinGames
    && p.games <= MaxGames
    && p.position == position
    && p.foot == preferredFoot
  }

  /** The boolean Series the five comparisons combine into. */
  function EligibilityMask(df: seq<Player>, position: string, preferredFoot: string): (mask: seq<bool>)
    ensures |mask| == |df|
  {
    seq(|df|, i requires 0 <= i < |df| => Eligible(df[i], position, preferredFoot))
  }

  /** df[mask]: the rows whose mask entry is true, in their original order. */
  function Select<T>(rows: seq<T>, mask: seq<bool>): (r: seq<T>)
    requires |mask| == |rows|
    ensures |r| <= |rows|
  {
    if rows == [] then []
    else
      var n := |rows|;
      Select(rows[..n - 1], mask[..n - 1]) + (if mask[n - 1] then [rows[n - 1]] else [])
  }

  /**
   * Boolean indexing keeps exactly the rows whose mask is true, in order:
   * `idx` lists the original positions of the selected rows, increasing.
   */
  lemma {:induction false} SelectIndices<T>(rows: seq<T>, mask: seq<bool>) returns (idx: seq<nat>)
    requires |mask| == |rows|
    ensures |idx| == |Select(rows, mask)|
    ensures forall j :: 0 <= j < |idx| ==> idx[j] < |rows| && mask[idx[j]]
    ensures forall j :: 0 <= j < |idx| ==> Select(rows, mask)[j] == rows[idx[j]]
    ensures forall j, k :: 0 <= j < k < |idx| ==> idx[j] < idx[k]
    ensures forall i :: 0 <= i < |rows| && mask[i] ==> i in idx
  {
    if rows == [] {
      idx := [];
    } else {
      var n := |rows|;
      var init, initMask := rows[..n - 1], mask[..n - 1];
      var prev := SelectIndices(init, initMask);
      assert forall i :: 0 <= i < n - 1 ==> init[i] == rows[i] && initMask[i] == mask[i];
      var r, before := Select(rows, mask), Select(init, initMask);
      if mask[n - 1] {
        idx := prev + [n - 1];
        assert r == before + [rows[n - 1]];
        forall j | 0 <= j < |idx| ensures idx[j] < n && mask[idx[j]] && r[j] == rows[idx[j]] {
          if j < |prev| {
            assert idx[j] == prev[j] && r[j] == before[j];
          }
        }
        forall i | 0 <= i < n && mask[i] ensures i in idx {
          assert i in idx <==> i in prev || i == n - 1;
        }
      } else {
        idx := prev;
        assert r == before;
      }
    }
  }

  /** A mask true at position 0 only selects the first row alone. */
  lemma {:induction false} SelectOnlyFirst<T>(rows: seq<T>, mask: seq<bool>)
    requires |mask| == |rows| && |rows| > 0 && mask[0]
    requires forall i :: 1 <= i < |mask| ==> !mask[i]
    ensures Select(rows, mask) == [rows[0]]
  {
    var n := |rows|;
    if n == 1 {
      assert rows[..0] == [] && mask[..0] == [];
    } else {
      SelectOnlyFirst(rows[..n - 1], mask[..n - 1]);
    }
  }

  /** The rows filtered_players holds. */
  function FilterPlayers(df: seq<Player>, position: string, preferredFoot: string): seq<Player>
  {
    Select(df, EligibilityMask(df, position, preferredFoot))
  }

  /** Every selected player meets all five conditions. */
  lemma FilterSound(df: seq<Player>, position: string, preferredFoot: string)
    ensures forall p :: p in FilterPlayers(df, position, preferredFoot) ==>
      && p in df
      && p.age <= AgeLimit
      && MinGames <= p.games <= MaxGames
      && p.position == position
      && p.foot == preferredFoot
  {
    var mask := EligibilityMask(df, position, preferredFoot);
    var r := FilterPlayers(df, position, preferredFoot);
    var idx := SelectIndices(df, mask);
    forall p | p in r ensures p in df && Eligible(p, position, preferredFoot) {
      var j :| 0 <= j < |r| && r[j] == p;
      assert mask[idx[j]];
    }
  }

  /** Every player of the table who meets all five conditions is selected. */
  lemma FilterComplete(df: seq<Player>, position: string, preferredFoot: string)
    ensures forall i :: 0 <= i < |df| && Eligible(df[i], position, preferredFoot) ==>
      df[i] in FilterPlayers(df, position, preferredFoot)
  {
    var mask := EligibilityMask(df, position, preferredFoot);
    var r := FilterPlayers(df, position, preferredFoot);
    var idx := SelectIndices(df, mask);
    forall i | 0 <= i < |df| && Eligible(df[i], position, preferredFoot)
      ensures df[i] in r
    {
      assert mask[i];
      var j :| 0 <= j < |idx| && idx[j] == i;
      assert r[j] == df[i];
    }
  }

  /**
   * The selection is the subsequence of the table at the eligible positions,
   * in their original order.
   */
  lemma FilterKeepsOrder(df: seq<Player>, position: string, preferredFoot: string) returns (idx: seq<nat>)
    ensures |idx| == |FilterPlayers(df, position, preferredFoot)|
    ensures forall j :: 0 <= j < |idx| ==> idx[j] < |df| && FilterPlayers(df, position, preferredFoot)[j] == df[idx[j]]
    ensures forall j, k :: 0 <= j < k < |idx| ==> idx[j] < idx[k]
    ensures forall i :: 0 <= i < |df| ==> (i in idx <==> Eligible(df[i], position, preferredFoot))
  {
    var mask := EligibilityMask(df, position, preferredFoot);
    idx := SelectIndices(df, mask);
    forall i | 0 <= i < |df| && i in idx ensures Eligible(df[i], position, preferredFoot) {
      var j :| 0 <= j < |idx| && idx[j] == i;
      assert mask[idx[j]];
    }
  }

  // ---------------------------------------------------------------------------
  // The result branch: show the players, or the "no matching players" message
  // ---------------------------------------------------------------------------

  datatype SearchOutcome = ShowPlayers(players: seq<Player>) | NoMatchingPlayers

  /** The branch on filtered_players.empty. */
  function SearchPlayers(df: seq<Player>, position: string, preferredFoot: string): (o: SearchOutcome)
    ensures o.NoMatchingPlayers? <==> forall i :: 0 <= i < |df| ==> !Eligible(df[i], position, preferredFoot)
    ensures o.ShowPlayers? ==> o.players == FilterPlayers(df, position, preferredFoot) && |o.players| > 0
  {
    var filtered := FilterPlayers(df, position, preferredFoot);
    FilterSound(df, position, preferredFoot);
    FilterComplete(df, position, preferredFoot);
    if |filtered| > 0 then
      assert filtered[0] in filtered;
      ShowPlayers(filtered)
    else
      NoMatchingPlayers
  }

  /** Searching the sample table for right-footed forwards finds player A only; goalkeepers find nobody. */
  lemma SampleSearches()
    ensures FetchPlayerData().Ok?
    ensures SearchPlayers(FetchPlayerData().value, "공격수", "오른발") == ShowPlayers([FetchPlayerData().value[0]])
    ensures SearchPlayers(FetchPlayerData().value, "골키퍼", "오른발") == NoMatchingPlayers
  {
    SampleTableShape();
    var c := SampleColumns();
    var df := FetchPlayerData().value;
    forall i | 0 <= i < 5 ensures df[i] == RowAt(c, i) {}
    assert Eligible(df[0], "공격수", "오른발");
    forall i | 1 <= i < 5 ensures !Eligible(df[i], "공격수", "오른발") {
      assert df[i] == RowAt(c, i);
    }
    var m := EligibilityMask(df, "공격수", "오른발");
    assert m == [true, false, false, false, false];
    SelectOnlyFirst(df, m);
    var r := FilterPlayers(df, "공격수", "오른발");
    assert r == [df[0]];
    forall i | 0 <= i < 5 ensures !Eligible(df[i], "골키퍼", "오른발") {
      assert df[i] == RowAt(c, i);
    }
  }
}
