/** The assistant's Redis memories and its semantic search, as loops over what they keep. */
module AssistantTools {
  import opened Sequences
  import opened AssistantMemory

  class ShownBooksTracker {
    var raw: map<int, Stored>

    function Of(userId: int): Stored
      reads this
    {
      if userId in raw then raw[userId] else Nothing
    }

    method Get(userId: int) returns (ids: seq<int>, keys: set<string>)
      ensures ids == ShownIds(Of(userId)) && keys == ShownKeys(Of(userId))
    {
      match Of(userId) {
        case Nothing =>
          return [], {};
        case OldIds(plain) =>
          assert IdsOf(EntriesOf(OldIds(plain))) == plain;
          return plain, {};
        case Entries(entries) =>
          return IdsOf(entries), Elements(KeysOf(entries));
      }
    }

    method Add(userId: int, books: seq<Entry>)
      modifies this
      ensures Of(userId) == AssistantMemory.Add(old(Of(userId)), books)
      ensures forall u :: u != userId ==> Of(u) == old(Of(u))
    {
      var shownIds, _ := Get(userId);
      var entries := EntriesOf(Of(userId));
      var known := Elements(shownIds);
      ghost var start, knownAtStart := entries, known;
      var i := 0;
      assert books[0..] == books;
      while i < |books|
        invariant 0 <= i <= |books|
        invariant AppendNew(start, knownAtStart, books) == AppendNew(entries, known, books[i..])
      {
        assert books[i..][0] == books[i] && books[i..][1..] == books[i + 1..];
        if books[i].id !in known {
          entries := entries + [books[i]];
          known := known + {books[i].id};
        }
        i := i + 1;
      }
      raw := raw[userId := Entries(LastN(entries, SHOWN_MAX))];
    }
  }

  /** found are the books of the points Qdrant returned under the exclusion filter. */
  method SemanticSearch(tracker: ShownBooksTracker, normal: string -> string, userId: int,
          found: seq<Book>) returns (result: seq<Book>)
    modifies tracker
    ensures (result, tracker.Of(userId)) == Turn(normal, old(tracker.Of(userId)), found)
    ensures forall u :: u != userId ==> tracker.Of(u) == old(tracker.Of(u))
  {
    var shownIds, shownKeys := tracker.Get(userId);
    if found == [] {
      return [];
    }
    var unique := CollapseDuplicates(normal, found, shownKeys);
    result := unique[..Min(SEARCH_LIMIT, |unique|)];
    if result == [] {
      return;
    }
    tracker.Add(userId, Records(normal, result));
  }

  method CollapseDuplicates(normal: string -> string, books: seq<Book>, shown: set<string>) returns (unique: seq<Book>)
    ensures unique == Collapse(normal, books, shown)
  {
    unique := [];
    var seen := shown;
    var i := 0;
    assert books[0..] == books;
    while i < |books|
      invariant 0 <= i <= |books|
      invariant Collapse(normal, books, shown) == unique + Collapse(normal, books[i..], seen)
    {
      assert books[i..][0] == books[i] && books[i..][1..] == books[i + 1..];
      var key := BookKey(normal, books[i]);
      if key !in seen {
        ghost var rest := Collapse(normal, books[i + 1..], seen + {key});
        assert unique + ([books[i]] + rest) == (unique + [books[i]]) + rest;
        seen := seen + {key};
        unique := unique + [books[i]];
      }
      i := i + 1;
    }
  }

  class ChatHistory {
    var raw: map<int, seq<Message>>

    function Of(userId: int): seq<Message>
      reads this
    {
      if userId in raw then raw[userId] else []
    }

    method Append(userId: int, question: string, answer: string)
      modifies this
      ensures Of(userId) == LastN(old(Of(userId)) + Exchange(question, answer), HISTORY_MAX)
      ensures forall u :: u != userId ==> Of(u) == old(Of(u))
    {
      var history := Of(userId);
      history := history + [User(question)];
      history := history + [Assistant(answer)];
      assert history == Of(userId) + Exchange(question, answer);
      raw := raw[userId := LastN(history, HISTORY_MAX)];
    }
  }
}
