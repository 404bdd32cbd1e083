/** go/internal/cmd/search.go: search both backends, whatever the flags. */
module SearchCmd {
  import opened Wrappers
  import opened LocalStore
  import opened Storage
  import opened MemoryModel
  import opened CmdRoot
  import opened ListCmd
  import Text

  /** What `search` prints: a "No results" line, or the tagged results. */
  datatype SearchReport = NoResults(query: string) | Results(query: string, found: seq<Memory>)

  /** runSearch: the local matches tagged local, then the shared ones; a
      backend that fails contributes nothing, and the command never fails. */
  method RunSearch(store: MultiStorage, query: string) returns (r: SearchReport)
    ensures var found := if store.local.failing then [] else TagMemories(FilterMatches(MemoryListing(store.local.memories), query), false);
            r == if found == [] then NoResults(query) else Results(query, found)
  {
    var results: seq<Memory> := [];
    var local := store.local.SearchMemories(query);
    if local.Ok? {
      results := AppendTagged(results, local.value, false);
      assert results == TagMemories(local.value, false);
    }
    var shared := store.shared.SearchMemories(query);
    if shared.Ok? {
      var before := results;
      results := AppendTagged(results, shared.value, true);
      assert results == before;
    }
    if |results| == 0 {
      return NoResults(query);
    }
    return Results(query, results);
  }

  /** A search hit is a listed local memory that matches, tagged local. */
  lemma {:induction false} SearchHitsMatch(ms: seq<Memory>, query: string, hit: Memory)
    requires hit in TagMemories(FilterMatches(ms, query), false)
    ensures !hit.shared
    ensures exists m :: m in ms && m.MatchesSearch(query) && hit == m.(shared := false)
  {
    var tagged := TagMemories(FilterMatches(ms, query), false);
    var i :| 0 <= i < |tagged| && tagged[i] == hit;
    var m := FilterMatches(ms, query)[i];
    FilterMatchesMembers(ms, query);
    assert m in FilterMatches(ms, query);
    assert m in ms && m.MatchesSearch(query);
  }

  /** One line of the results table. */
  datatype SearchRow = SearchRow(id: string, title: string, kind: string)

  /** A results row: titles over 50 characters become their first 47 and "...". */
  function SearchRowOf(m: Memory): (row: SearchRow)
    ensures row.id == m.id
    ensures |row.title| <= 50 && (|m.title| <= 50 ==> row.title == m.title)
    ensures |m.title| > 50 ==> |row.title| == 50 && Text.HasPrefix(m.title, row.title[..47]) && row.title[47..] == "..."
    ensures row.kind == (if m.shared then "[shared]" else "[local]")
  {
    SearchRow(m.id, Text.Ellipsize(m.title, 50), if m.shared then "[shared]" else "[local]")
  }
}
