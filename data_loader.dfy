/**
 * The player queries of the app's data loader, over the player table passed in
 * as a parameter (None when loading it failed).
 */
module DataLoader {
  import opened Python
  import opened Strings
  import opened Frames

  const PlayerColumn: string := "player"
  const ClusterColumn: string := "cluster"
  const TeamColumn: string := "team"
  const RoleColumn: string := "role_name"

  // ---------------------------------------------------------------------------
  // get_player_list
  // ---------------------------------------------------------------------------

  /** `df["player"].astype(str)`. */
  function PlayerNames(rows: seq<Row>): (names: seq<string>)
    ensures |names| == |rows|
    ensures forall i :: 0 <= i < |rows| ==> names[i] == AsStr(Get(rows[i], PlayerColumn))
  {
    seq(|rows|, i requires 0 <= i < |rows| => AsStr(Get(rows[i], PlayerColumn)))
  }

  /** `.unique().tolist()`: each value once, in order of first appearance. */
  function Unique(xs: seq<string>): (u: seq<string>)
    ensures Distinct(u)
    ensures forall x :: x in u <==> x in xs
  {
    if xs == [] then []
    else
      var init := xs[..|xs| - 1];
      var u := Unique(init);
      assert forall x :: x in xs <==> x in init || x == xs[|xs| - 1] by {
        assert xs == init + [xs[|xs| - 1]];
      }
      if xs[|xs| - 1] in u then u else u + [xs[|xs| - 1]]
  }

  /** `get_player_list()`: the sorted distinct player names, or [] when there is no
      table or it has no "player" column. */
  function GetPlayerList(data: Option<Frame>): seq<string>
  {
    if data.None? || PlayerColumn !in data.value.columns then []
    else SortStrings(Unique(PlayerNames(data.value.rows)))
  }

  /** The list is strictly increasing (so without repeats) and holds exactly the
      names of the table's rows, rendered as text. */
  lemma PlayerListSpec(data: Option<Frame>)
    ensures var names := GetPlayerList(data);
      (forall i, j :: 0 <= i < j < |names| ==> StrLt(names[i], names[j])) &&
      (forall n :: n in names <==>
        data.Some? && PlayerColumn in data.value.columns &&
        exists i :: 0 <= i < |data.value.rows| && AsStr(Get(data.value.rows[i], PlayerColumn)) == n)
  {
    if data.Some? && PlayerColumn in data.value.columns {
      var all := PlayerNames(data.value.rows);
      var u := Unique(all);
      var names := SortStrings(u);
      SortStringsSpec(u);
      DistinctPermutation(u, names);
      forall n ensures n in names <==> exists i :: 0 <= i < |data.value.rows| && AsStr(Get(data.value.rows[i], PlayerColumn)) == n {
        if n in all {
          var i :| 0 <= i < |all| && all[i] == n;
        }
      }
    }
  }

  // ---------------------------------------------------------------------------
  // get_player_data
  // ---------------------------------------------------------------------------

  /** `df["player"] == player_name` at a row. */
  predicate IsPlayer(row: Row, name: string)
  {
    CellEquals(Get(row, PlayerColumn), Text(name))
  }

  /** The index of the first row of the player, if any. */
  function FirstMatch(rows: seq<Row>, name: string, from: nat): (k: Option<nat>)
    requires from <= |rows|
    ensures k.Some? ==> from <= k.value < |rows| && IsPlayer(rows[k.value], name)
    ensures forall j :: from <= j < |rows| && (k.None? || j < k.value) ==> !IsPlayer(rows[j], name)
    decreases |rows| - from
  {
    if from == |rows| then None
    else if IsPlayer(rows[from], name) then Some(from)
    else FirstMatch(rows, name, from + 1)
  }

  /** `get_player_data(player_name)`: the first row of the player, or None when there
      is no table, no such player, or no "player" column (the KeyError is caught). */
  function GetPlayerData(data: Option<Frame>, name: string): Option<Row>
  {
    if data.None? || PlayerColumn !in data.value.columns then None
    else
      match FirstMatch(data.value.rows, name, 0)
      case None => None
      case Some(k) => Some(data.value.rows[k])
  }

  /** A row is returned exactly when some row is the player's, and it is the first
      such row. */
  lemma PlayerDataSpec(data: Option<Frame>, name: string) returns (k: nat)
    ensures var r := GetPlayerData(data, name);
      (r.Some? <==> data.Some? && PlayerColumn in data.value.columns &&
                    exists i :: 0 <= i < |data.value.rows| && IsPlayer(data.value.rows[i], name)) &&
      (r.Some? ==> k < |data.value.rows| && r.value == data.value.rows[k] && IsPlayer(r.value, name) &&
                   forall j :: 0 <= j < k ==> !IsPlayer(data.value.rows[j], name))
  {
    k := 0;
    if data.Some? && PlayerColumn in data.value.columns {
      var m := FirstMatch(data.value.rows, name, 0);
      if m.Some? {
        k := m.value;
      }
    }
  }

  // ---------------------------------------------------------------------------
  // get_similar_players
  // ---------------------------------------------------------------------------

  /** What `get_similar_players` returns: None, the placeholder frame built when
      the table has no "cluster" column, or the similar players. */
  datatype Similar = NoPlayers | Placeholder | Players(frame: Frame)

  /** The number of rows of the placeholder frame's team list. */
  const PlaceholderTeams: int := 5

  /** Another player of the given cluster: `(df["cluster"] == cluster_id) &
      (df["player"] != player_name)`. */
  predicate InCluster(row: Row, name: string, clusterId: Cell)
  {
    CellEquals(Get(row, ClusterColumn), clusterId) && !IsPlayer(row, name)
  }

  /** The rows of other players in the cluster, in table order, each kept as
      often as it occurs (a boolean mask drops no duplicate). */
  function ClusterRows(rows: seq<Row>, name: string, clusterId: Cell): (r: seq<Row>)
    ensures forall row :: row in r <==> row in rows && InCluster(row, name, clusterId)
    ensures IsSubsequence(r, rows)
    ensures forall row :: multiset(r)[row] == if InCluster(row, name, clusterId) then multiset(rows)[row] else 0
  {
    if rows == [] then []
    else
      assert rows == [rows[0]] + rows[1..];
      if InCluster(rows[0], name, clusterId) then [rows[0]] + ClusterRows(rows[1..], name, clusterId)
      else ClusterRows(rows[1..], name, clusterId)
  }

  /** `.head(n)`: the first n rows; a negative n drops that many from the end. */
  function Head<T>(xs: seq<T>, n: int): (r: seq<T>)
    ensures n >= 0 ==> |r| == if n < |xs| then n else |xs|
    ensures n < 0 ==> |r| == if |xs| + n > 0 then |xs| + n else 0
    ensures r == xs[..|r|]
  {
    if n >= 0 then (if n < |xs| then xs[..n] else xs)
    else if |xs| + n > 0 then xs[..|xs| + n] else []
  }

  /** "player" and "team", and "role_name" when the table has it. */
  function DisplayColumns(columns: seq<string>): seq<string>
  {
    [PlayerColumn, TeamColumn] + (if RoleColumn in columns then [RoleColumn] else [])
  }

  /** `similar_players[display_cols]` for one row. */
  function Project(row: Row, cols: seq<string>): Row
  {
    map c | c in cols :: Get(row, c)
  }

  /** `get_similar_players(player_name, n)`. The placeholder frame is built from a
      list of five teams, so it exists only for n = 5 (otherwise pandas raises and
      the exception is caught). Selecting a missing "team" column raises KeyError,
      which is caught too. */
  function GetSimilarPlayers(data: Option<Frame>, name: string, n: int): Similar
  {
    if data.None? || PlayerColumn !in data.value.columns then NoPlayers
    else
      var df := data.value;
      match FirstMatch(df.rows, name, 0)
      case None => NoPlayers
      case Some(k) =>
        if ClusterColumn !in df.columns then
          (if n == PlaceholderTeams then Placeholder else NoPlayers)
        else
          var similar := ClusterRows(df.rows, name, Get(df.rows[k], ClusterColumn));
          if similar == [] || TeamColumn !in df.columns then NoPlayers
          else
            var cols := DisplayColumns(df.columns);
            var picked := Head(similar, n);
            Players(Frame(cols, seq(|picked|, i requires 0 <= i < |picked| => Project(picked[i], cols))))
  }

  /** Without the player in the table there is no answer. */
  lemma SimilarNeedsPlayer(data: Option<Frame>, name: string, n: int)
    requires GetPlayerData(data, name).None?
    ensures GetSimilarPlayers(data, name, n) == NoPlayers
  {
  }

  /** When no other player shares the player's cluster there is no answer. */
  lemma SimilarAlone(df: Frame, name: string, n: int)
    requires ClusterColumn in df.columns
    requires GetPlayerData(Some(df), name).Some?
    requires forall row :: row in df.rows ==>
      !InCluster(row, name, Get(GetPlayerData(Some(df), name).value, ClusterColumn))
    ensures GetSimilarPlayers(Some(df), name, n) == NoPlayers
  {
    var k := FirstMatch(df.rows, name, 0).value;
    var similar := ClusterRows(df.rows, name, Get(df.rows[k], ClusterColumn));
    if similar != [] {
      assert similar[0] in similar;
    }
  }

  /** The similar players: the columns "player", "team" and, when present,
      "role_name"; the rows are the projections of the first n rows of other
      players in the target's cluster (`head(n)`), in table order: at most n rows
      for n >= 0 and at least one for n >= 1. */
  lemma SimilarSpec(df: Frame, name: string, n: int) returns (picked: seq<Row>)
    requires GetSimilarPlayers(Some(df), name, n).Players?
    ensures var f := GetSimilarPlayers(Some(df), name, n).frame;
      var target := GetPlayerData(Some(df), name).value;
      GetPlayerData(Some(df), name).Some? &&
      f.columns == [PlayerColumn, TeamColumn] + (if RoleColumn in df.columns then [RoleColumn] else []) &&
      (n >= 0 ==> |f.rows| <= n) && (n >= 1 ==> |f.rows| >= 1) &&
      picked == Head(ClusterRows(df.rows, name, Get(target, ClusterColumn)), n) &&
      IsSubsequence(picked, df.rows) && |picked| == |f.rows| &&
      forall i :: 0 <= i < |f.rows| ==>
        InCluster(picked[i], name, Get(target, ClusterColumn)) &&
        f.rows[i] == Project(picked[i], f.columns)
  {
    var k := FirstMatch(df.rows, name, 0).value;
    var similar := ClusterRows(df.rows, name, Get(df.rows[k], ClusterColumn));
    picked := Head(similar, n);
    SubsequencePrefix(similar, |picked|, df.rows);
    forall i | 0 <= i < |picked| ensures InCluster(picked[i], name, Get(df.rows[k], ClusterColumn)) {
      assert picked[i] == similar[i];
      assert similar[i] in similar;
    }
  }

  /** A prefix of a subsequence is a subsequence. */
  lemma {:induction false} SubsequencePrefix<T>(a: seq<T>, m: nat, b: seq<T>)
    requires m <= |a| && IsSubsequence(a, b)
    ensures IsSubsequence(a[..m], b)
    decreases |b|
  {
    if m > 0 && b != [] {
      if a[0] == b[0] && IsSubsequence(a[1..], b[1..]) {
        SubsequencePrefix(a[1..], m - 1, b[1..]);
        assert a[..m][1..] == a[1..][..m - 1];
      } else {
        SubsequencePrefix(a, m, b[1..]);
      }
    }
  }

  /** Every row shown is another player's: its "player" cell is not the name. */
  lemma SimilarExcludesPlayer(df: Frame, name: string, n: int)
    requires GetSimilarPlayers(Some(df), name, n).Players?
    ensures var f := GetSimilarPlayers(Some(df), name, n).frame;
      forall i :: 0 <= i < |f.rows| ==> !IsPlayer(f.rows[i], name)
  {
    var picked := SimilarSpec(df, name, n);
    var f := GetSimilarPlayers(Some(df), name, n).frame;
    forall i | 0 <= i < |f.rows| ensures !IsPlayer(f.rows[i], name) {
      assert PlayerColumn in f.columns;
      assert Get(f.rows[i], PlayerColumn) == Get(picked[i], PlayerColumn);
    }
  }
}
