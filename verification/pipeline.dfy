/** The per-row pipeline of `src/main.rs`: drop the header row, map each
    remaining row to a record, resolve it against the summary feed, key it by
    the resolved alias, and collect the pairs into an ordered map; then put
    the two tables together. Any failing row aborts the whole run. */
module Pipeline {
  import opened Errors
  import opened Models
  import opened Text
  import opened Resolver

  /** Which of the two wiki pages a table comes from. */
  datatype Page = AramPage | ArenaPage

  /** The record shape a page's mapper produces. */
  predicate OfPage(page: Page, rec: ChampionStats) {
    if page == AramPage then rec.AramChampionStats? else rec.ArenaChampionStats?
  }

  function MapRow(lib: Library, page: Page, cells: seq<Node>): (r: Result<ChampionStats>)
    ensures r.Ok? ==> OfPage(page, r.value) && r.value.id == 0
  {
    match page
    case AramPage => NewAram(lib, cells)
    case ArenaPage => NewArena(lib, cells)
  }

  /** A record stored under `key` agrees with the feed: resolving its name
      gives the entry whose alias is `key` and whose id the record carries. */
  predicate Keyed(summaries: seq<ChampionSummary>, key: string, rec: ChampionStats) {
    var s := Resolve(summaries, rec.name);
    s.Ok? && s.value.alias == key && s.value.id == rec.id
  }

  /** The closure applied to each data row: map, resolve, set the id, and
      pair the record with the resolved alias. */
  function ResolveRow(lib: Library, page: Page, summaries: seq<ChampionSummary>, cells: seq<Node>)
    : (r: Result<(string, ChampionStats)>)
    ensures r.Ok? <==>
      MapRow(lib, page, cells).Ok? && Resolve(summaries, MapRow(lib, page, cells).value.name).Ok?
    ensures MapRow(lib, page, cells).Err? ==> r == Err(MapRow(lib, page, cells).error)
    ensures r.Err? && MapRow(lib, page, cells).Ok? ==>
      r.error == Unresolved(MapRow(lib, page, cells).value.name)
    ensures r.Ok? ==> Keyed(summaries, r.value.0, r.value.1) && OfPage(page, r.value.1)
    ensures r.Ok? ==> r.value.1.(id := 0) == MapRow(lib, page, cells).value
  {
    var stats :- MapRow(lib, page, cells);
    var summary :- Resolve(summaries, stats.name);
    Ok((summary.alias, stats.(id := summary.id)))
  }

  /** The closure as a value, for the per-row fold. */
  function Closure(lib: Library, page: Page, summaries: seq<ChampionSummary>): (f: seq<Node> -> Result<(string, ChampionStats)>)
    ensures forall cells :: f(cells) == ResolveRow(lib, page, summaries, cells)
  {
    cells => ResolveRow(lib, page, summaries, cells)
  }

  /** Position `i` is the first from `lo` on where `f` fails. */
  ghost predicate FirstFailure<A, B>(f: A -> Result<B>, xs: seq<A>, lo: int, i: int) {
    && 0 <= lo <= i < |xs|
    && f(xs[i]).Err?
    && forall j :: lo <= j < i ==> f(xs[j]).Ok?
  }

  /** `f` applied to each element in order, the run stopping at the first
      failure, as a `map` whose closure aborts does. */
  function TryMap<A, B>(f: A -> Result<B>, xs: seq<A>): (r: Result<seq<B>>)
    ensures r.Ok? <==> forall i :: 0 <= i < |xs| ==> f(xs[i]).Ok?
    ensures r.Ok? ==> |r.value| == |xs|
    ensures r.Ok? ==> forall i :: 0 <= i < |xs| ==> f(xs[i]) == Ok(r.value[i])
    ensures r.Err? ==> exists i :: FirstFailure(f, xs, 0, i) && f(xs[i]) == Err(r.error)
    decreases |xs|
  {
    if |xs| == 0 then Ok([])
    else match f(xs[0])
      case Err(e) =>
        assert FirstFailure(f, xs, 0, 0);
        Err(e)
      case Ok(y) =>
        match TryMap(f, xs[1..])
        case Err(e) =>
          assert exists i :: FirstFailure(f, xs, 0, i) && f(xs[i]) == Err(e) by {
            var i :| FirstFailure(f, xs[1..], 0, i) && f(xs[1..][i]) == Err(e);
            assert FirstFailure(f, xs, 0, i + 1);
          }
          Err(e)
        case Ok(rest) =>
          Ok([y] + rest)
  }

  /** Entry `i` is the last one with its key. */
  ghost predicate LastWithKey<V>(entries: seq<(string, V)>, i: int) {
    0 <= i < |entries| && forall j :: i < j < |entries| ==> entries[j].0 != entries[i].0
  }

  ghost predicate DistinctKeys<V>(entries: seq<(string, V)>) {
    forall i, j :: 0 <= i < j < |entries| ==> entries[i].0 != entries[j].0
  }

  /** `collect` into a `BTreeMap`: every entry's key is bound. */
  function CollectMap<V>(entries: seq<(string, V)>): (m: map<string, V>)
    ensures forall i :: 0 <= i < |entries| ==> entries[i].0 in m
    decreases |entries|
  {
    if |entries| == 0 then map[]
    else
      var n := |entries| - 1;
      var m := CollectMap(entries[..n]);
      assert forall i :: 0 <= i < n ==> entries[i] == entries[..n][i];
      m[entries[n].0 := entries[n].1]
  }

  /** Nothing is invented: every binding of the map is some entry. */
  lemma {:induction false} CollectMapFromEntries<V>(entries: seq<(string, V)>)
    ensures forall k :: k in CollectMap(entries) ==>
      exists i :: 0 <= i < |entries| && entries[i].0 == k && entries[i].1 == CollectMap(entries)[k]
    decreases |entries|
  {
    if |entries| > 0 {
      var n := |entries| - 1;
      var prefix := entries[..n];
      CollectMapFromEntries(prefix);
      var m := CollectMap(prefix);
      var (k, v) := entries[n];
      assert CollectMap(entries) == m[k := v];
      forall key | key in CollectMap(entries)
        ensures exists i :: 0 <= i < |entries| && entries[i].0 == key && entries[i].1 == CollectMap(entries)[key]
      {
        if key == k {
          assert entries[n].0 == key;
        } else {
          var i :| 0 <= i < n && prefix[i].0 == key && prefix[i].1 == m[key];
          assert entries[i] == prefix[i];
        }
      }
    }
  }

  /** A later entry replaces an earlier one with the same key: the value
      kept for a key is that of its last entry. */
  lemma {:induction false} CollectMapLastWins<V>(entries: seq<(string, V)>, i: int)
    requires LastWithKey(entries, i)
    ensures CollectMap(entries)[entries[i].0] == entries[i].1
    decreases |entries|
  {
    var n := |entries| - 1;
    var prefix := entries[..n];
    var m := CollectMap(prefix);
    var (k, v) := entries[n];
    assert CollectMap(entries) == m[k := v];
    if i < n {
      assert prefix[i] == entries[i];
      assert k != entries[i].0;
      assert LastWithKey(prefix, i);
      CollectMapLastWins(prefix, i);
      assert m[k := v][entries[i].0] == m[entries[i].0];
    } else {
      assert m[k := v][k] == v;
    }
  }

  /** The map has at most one key per entry, and exactly one per entry when
      no key repeats. */
  lemma {:induction false} CollectMapSize<V>(entries: seq<(string, V)>)
    ensures |CollectMap(entries)| <= |entries|
    ensures DistinctKeys(entries) ==> |CollectMap(entries)| == |entries|
    decreases |entries|
  {
    if |entries| > 0 {
      var n := |entries| - 1;
      var prefix := entries[..n];
      CollectMapSize(prefix);
      var m := CollectMap(prefix);
      if DistinctKeys(entries) {
        assert DistinctKeys(prefix);
        if entries[n].0 in m {
          CollectMapFromEntries(prefix);
          assert false;
        }
      }
    }
  }

  /** Rust's `skip(1)`: the header row is dropped, whatever it holds. */
  function DropHeader<T>(rows: seq<T>): (r: seq<T>)
    ensures |rows| == 0 ==> r == []
    ensures |rows| > 0 ==> rows == [rows[0]] + r
  {
    if |rows| == 0 then [] else rows[1..]
  }

  /** Every binding collected from resolved rows is keyed by its resolved
      alias and has its page's shape. */
  lemma CollectedRowsKeyed(lib: Library, page: Page, summaries: seq<ChampionSummary>,
                           data: seq<seq<Node>>, entries: seq<(string, ChampionStats)>)
    ensures TryMap(Closure(lib, page, summaries), data) == Ok(entries) ==>
      forall k :: k in CollectMap(entries) ==>
        Keyed(summaries, k, CollectMap(entries)[k]) && OfPage(page, CollectMap(entries)[k])
  {
    if TryMap(Closure(lib, page, summaries), data) != Ok(entries) {
      return;
    }
    var m := CollectMap(entries);
    CollectMapFromEntries(entries);
    forall k | k in m ensures Keyed(summaries, k, m[k]) && OfPage(page, m[k]) {
      var i :| 0 <= i < |entries| && entries[i].0 == k && entries[i].1 == m[k];
      assert Closure(lib, page, summaries)(data[i]) == Ok(entries[i]);
    }
  }

  /** A failure among the rows after the header is a failure among all rows
      from position 1 on. */
  lemma HeaderlessFailure<A, B>(f: A -> Result<B>, rows: seq<A>, e: ScrapeError)
    requires |rows| > 0
    requires exists i :: FirstFailure(f, rows[1..], 0, i) && f(rows[1..][i]) == Err(e)
    ensures exists i :: FirstFailure(f, rows, 1, i) && f(rows[i]) == Err(e)
  {
    var i :| FirstFailure(f, rows[1..], 0, i) && f(rows[1..][i]) == Err(e);
    assert FirstFailure(f, rows, 1, i + 1);
  }

  /** One table: header dropped, every data row resolved, collected by alias. */
  function CollectTable(lib: Library, page: Page, summaries: seq<ChampionSummary>, rows: seq<seq<Node>>)
    : (r: Result<map<string, ChampionStats>>)
    ensures r.Ok? <==> forall i :: 1 <= i < |rows| ==> ResolveRow(lib, page, summaries, rows[i]).Ok?
    ensures r.Err? ==> exists i ::
      FirstFailure(Closure(lib, page, summaries), rows, 1, i) && ResolveRow(lib, page, summaries, rows[i]) == Err(r.error)
    ensures r.Ok? && |rows| > 0 ==> |r.value| <= |rows| - 1
    ensures r.Ok? && |rows| <= 1 ==> r.value == map[]
  {
    var f := Closure(lib, page, summaries);
    var data := DropHeader(rows);
    assert forall i :: 1 <= i < |rows| ==> rows[i] == data[i - 1];
    match TryMap(f, data)
    case Err(e) =>
      HeaderlessFailure(f, rows, e);
      Err(e)
    case Ok(entries) =>
      CollectMapSize(entries);
      Ok(CollectMap(entries))
  }

  /** Every record of a table sits under its resolved alias, carries its
      resolved id, and has its page's shape. */
  lemma TableKeyed(lib: Library, page: Page, summaries: seq<ChampionSummary>, rows: seq<seq<Node>>)
    ensures CollectTable(lib, page, summaries, rows).Ok? ==>
      var m := CollectTable(lib, page, summaries, rows).value;
      forall k :: k in m ==> Keyed(summaries, k, m[k]) && OfPage(page, m[k])
  {
    if CollectTable(lib, page, summaries, rows).Err? {
      return;
    }
    var data := DropHeader(rows);
    CollectedRowsKeyed(lib, page, summaries, data, TryMap(Closure(lib, page, summaries), data).value);
  }

  /** Every record of the output sits under its resolved alias with its
      resolved id, and has the shape of its page. */
  ghost predicate WellFormed(summaries: seq<ChampionSummary>, stats: Stats) {
    && (forall k :: k in stats.aram ==> Keyed(summaries, k, stats.aram[k]) && OfPage(AramPage, stats.aram[k]))
    && (forall k :: k in stats.arena ==> Keyed(summaries, k, stats.arena[k]) && OfPage(ArenaPage, stats.arena[k]))
  }

  /** The `Stats` assembly: the ARAM table first, then the Arena table. */
  function BuildStats(lib: Library, summaries: seq<ChampionSummary>, aramRows: seq<seq<Node>>, arenaRows: seq<seq<Node>>)
    : (r: Result<Stats>)
    ensures r.Ok? <==>
      CollectTable(lib, AramPage, summaries, aramRows).Ok? && CollectTable(lib, ArenaPage, summaries, arenaRows).Ok?
    ensures CollectTable(lib, AramPage, summaries, aramRows).Err? ==>
      r == Err(CollectTable(lib, AramPage, summaries, aramRows).error)
    ensures r.Ok? ==>
      && r.value.aram == CollectTable(lib, AramPage, summaries, aramRows).value
      && r.value.arena == CollectTable(lib, ArenaPage, summaries, arenaRows).value
    ensures CollectTable(lib, AramPage, summaries, aramRows).Ok? && CollectTable(lib, ArenaPage, summaries, arenaRows).Err? ==>
      r == Err(CollectTable(lib, ArenaPage, summaries, arenaRows).error)
    ensures r.Ok? ==> WellFormed(summaries, r.value)
  {
    var aram :- CollectTable(lib, AramPage, summaries, aramRows);
    var arena :- CollectTable(lib, ArenaPage, summaries, arenaRows);
    TableKeyed(lib, AramPage, summaries, aramRows);
    TableKeyed(lib, ArenaPage, summaries, arenaRows);
    Ok(Stats(aram, arena))
  }

  /** The header row is never read: replacing it changes nothing. */
  lemma HeaderIgnored(lib: Library, page: Page, summaries: seq<ChampionSummary>,
                      rows: seq<seq<Node>>, header: seq<Node>)
    requires |rows| > 0
    ensures CollectTable(lib, page, summaries, [header] + rows[1..]) == CollectTable(lib, page, summaries, rows)
  {
    assert DropHeader([header] + rows[1..]) == DropHeader(rows);
  }

  /** A row-wise view of a successful table: the entries it was collected
      from, one per data row, in row order. */
  lemma TableEntries(lib: Library, page: Page, summaries: seq<ChampionSummary>, rows: seq<seq<Node>>)
    returns (entries: seq<(string, ChampionStats)>)
    ensures CollectTable(lib, page, summaries, rows).Ok? && |rows| > 0 ==>
      && CollectTable(lib, page, summaries, rows).value == CollectMap(entries)
      && |entries| == |rows| - 1
      && forall j :: 1 <= j < |rows| ==> ResolveRow(lib, page, summaries, rows[j]) == Ok(entries[j - 1])
  {
    if CollectTable(lib, page, summaries, rows).Err? || |rows| == 0 {
      return [];
    }
    var f := Closure(lib, page, summaries);
    var data := DropHeader(rows);
    entries := TryMap(f, data).value;
    forall j | 1 <= j < |rows| ensures ResolveRow(lib, page, summaries, rows[j]) == Ok(entries[j - 1]) {
      assert rows[j] == data[j - 1];
      assert f(data[j - 1]) == Ok(entries[j - 1]);
    }
  }

  /** Entry `i - 1` stands for row `i`: when no later row yields its key,
      the collected map binds that key to it. */
  lemma LaterRowsKeepEntry<A, V>(f: A -> Result<(string, V)>, rows: seq<A>, entries: seq<(string, V)>, i: int)
    requires |entries| == |rows| - 1 && 1 <= i < |rows|
    requires forall j :: 1 <= j < |rows| ==> f(rows[j]) == Ok(entries[j - 1])
    requires forall j :: i < j < |rows| ==> f(rows[j]).value.0 != f(rows[i]).value.0
    ensures var row := f(rows[i]).value; row.0 in CollectMap(entries) && CollectMap(entries)[row.0] == row.1
  {
    assert f(rows[i]) == Ok(entries[i - 1]);
    forall j | i - 1 < j < |entries| ensures entries[j].0 != entries[i - 1].0 {
      assert f(rows[j + 1]) == Ok(entries[j]);
    }
    CollectMapLastWins(entries, i - 1);
  }

  /** When two data rows resolve to the same alias, the later one is kept:
      the record stored under a row's alias is that row's record whenever no
      later row resolves to the same alias. */
  lemma LastRowWins(lib: Library, page: Page, summaries: seq<ChampionSummary>, rows: seq<seq<Node>>, i: int)
    requires 1 <= i < |rows|
    ensures CollectTable(lib, page, summaries, rows).Ok?
            && (forall j :: i < j < |rows| ==>
                  ResolveRow(lib, page, summaries, rows[j]).value.0 != ResolveRow(lib, page, summaries, rows[i]).value.0)
            ==>
            var m := CollectTable(lib, page, summaries, rows).value;
            var row := ResolveRow(lib, page, summaries, rows[i]).value;
            row.0 in m && m[row.0] == row.1
  {
    if !CollectTable(lib, page, summaries, rows).Ok? ||
       exists j :: i < j < |rows| && ResolveRow(lib, page, summaries, rows[j]).value.0 == ResolveRow(lib, page, summaries, rows[i]).value.0 {
      return;
    }
    var entries := TableEntries(lib, page, summaries, rows);
    var f := Closure(lib, page, summaries);
    forall j | 1 <= j < |rows| ensures f(rows[j]) == ResolveRow(lib, page, summaries, rows[j]) {
    }
    LaterRowsKeepEntry(f, rows, entries, i);
  }

  /** When the data rows resolve to pairwise different aliases, the table
      holds one record per data row. */
  lemma DistinctAliasesKeepEveryRow(lib: Library, page: Page, summaries: seq<ChampionSummary>, rows: seq<seq<Node>>)
    ensures && CollectTable(lib, page, summaries, rows).Ok?
            && |rows| > 0
            && (forall i, j :: 1 <= i < j < |rows| ==>
                  ResolveRow(lib, page, summaries, rows[i]).value.0 != ResolveRow(lib, page, summaries, rows[j]).value.0)
            ==> |CollectTable(lib, page, summaries, rows).value| == |rows| - 1
  {
    if CollectTable(lib, page, summaries, rows).Ok? && |rows| > 0 {
      var entries := TableEntries(lib, page, summaries, rows);
      if DistinctKeys(entries) {
        CollectMapSize(entries);
      } else {
        var i, j :| 0 <= i < j < |entries| && entries[i].0 == entries[j].0;
        assert ResolveRow(lib, page, summaries, rows[i + 1]) == Ok(entries[i]);
        assert ResolveRow(lib, page, summaries, rows[j + 1]) == Ok(entries[j]);
      }
    }
  }

  /** Every key of a table is the alias of a feed entry that carries the
      stored record's name and id and is not a "Strawberry" placeholder. */
  lemma StoredRecordsMatchFeed(lib: Library, page: Page, summaries: seq<ChampionSummary>, rows: seq<seq<Node>>, k: string)
    ensures CollectTable(lib, page, summaries, rows).Ok? && k in CollectTable(lib, page, summaries, rows).value ==>
      var rec := CollectTable(lib, page, summaries, rows).value[k];
      exists s :: s in summaries && s.alias == k && s.name == rec.name && s.id == rec.id
                  && !Contains(s.alias, Strawberry)
  {
    if !CollectTable(lib, page, summaries, rows).Ok? || k !in CollectTable(lib, page, summaries, rows).value {
      return;
    }
    var rec := CollectTable(lib, page, summaries, rows).value[k];
    TableKeyed(lib, page, summaries, rows);
    ResolvedIsEligible(summaries, rec.name);
  }
}
