/** go/internal/model/memory.go: a free-form note. */
module MemoryModel {
  import opened Clock
  import Text
  import Util

  datatype Memory = Memory(
    id: string,
    title: string,
    content: string,
    author: string,
    tags: seq<string>,
    createdAt: Instant,
    updatedAt: Instant,
    shared: bool)
  {
    /** MatchesSearch: the lower-cased query occurs in the lower-cased title or content. */
    predicate MatchesSearch(query: string)
    {
      Text.ContainsFold(title, query) || Text.ContainsFold(content, query)
    }
  }

  /** NewMemory: a bare 8-hex-digit id, no tags, created and updated at `now`. */
  function NewMemory(title: string, content: string, author: string, shared: bool, random: seq<Util.byte>, now: Instant): (m: Memory)
    requires |random| == 4
    ensures m.id == Util.GenerateID(random) && |m.id| == 8 && Util.IsHex(m.id)
    ensures m.title == title && m.content == content && m.author == author && m.shared == shared
    ensures m.tags == [] && m.createdAt == m.updatedAt == now
  {
    Memory(Util.GenerateID(random), title, content, author, [], now, now, shared)
  }

  /** The empty query matches every memory. */
  lemma EmptyQueryMatches(m: Memory)
    ensures m.MatchesSearch("")
  {
    Text.ContainsEmpty(Text.ToLower(m.title));
  }

  /** Upper- or lower-casing the query does not change whether a memory matches. */
  lemma MatchesSearchCaseBlind(m: Memory, query: string)
    ensures m.MatchesSearch(Text.ToUpper(query)) == m.MatchesSearch(query)
    ensures m.MatchesSearch(Text.ToLower(query)) == m.MatchesSearch(query)
  {
    Text.ContainsFoldCaseBlind(m.title, query);
    Text.ContainsFoldCaseBlind(m.content, query);
  }
}
