/**
 * What the assistant remembers of a dialog: the last messages, and the last hundred books it has
 * recommended, by id and by title and author, so that "show me more" never repeats a book.
 */
module AssistantMemory {
  import opened Sequences
  import opened SlidingWindow

  const HISTORY_MAX: nat := 20
  const SHOWN_MAX: nat := 100
  const SEARCH_LIMIT: nat := 5

  // ---- recommended books ----

  datatype Book = Book(id: int, title: string, author: Option<string>)

  datatype Entry = Entry(id: int, key: string)

  /** The value in Redis; an older format was a plain list of ids. */
  datatype Stored = Nothing | OldIds(ids: seq<int>) | Entries(entries: seq<Entry>)

  /** `title.strip().lower()|author.strip().lower()`; normal stands for strip and lower. */
  function BookKey(normal: string -> string, b: Book): string {
    normal(b.title) + "|" + normal(if b.author.Some? then b.author.value else "")
  }

  function EntriesOf(s: Stored): seq<Entry> {
    match s
    case Nothing => []
    case OldIds(ids) => seq(|ids|, i requires 0 <= i < |ids| => Entry(ids[i], ""))
    case Entries(entries) => entries
  }

  function IdsOf(entries: seq<Entry>): seq<int> {
    seq(|entries|, i requires 0 <= i < |entries| => entries[i].id)
  }

  function KeysOf(entries: seq<Entry>): seq<string> {
    seq(|entries|, i requires 0 <= i < |entries| => entries[i].key)
  }

  /** `get`: the ids, and the keys unless the value is in the old format. */
  function ShownIds(s: Stored): seq<int> {
    IdsOf(EntriesOf(s))
  }

  function ShownKeys(s: Stored): set<string> {
    if s.Entries? then Elements(KeysOf(s.entries)) else {}
  }

  /** Keep the first book of every key that has not been seen. */
  ghost function Collapse(normal: string -> string, books: seq<Book>, seen: set<string>): seq<Book> {
    if books == [] then []
    else
      var key := BookKey(normal, books[0]);
      if key in seen then Collapse(normal, books[1..], seen)
      else [books[0]] + Collapse(normal, books[1..], seen + {key})
  }

  /** `semantic_search_books` for the books Qdrant and Postgres have found. */
  ghost function Recommend(normal: string -> string, s: Stored, found: seq<Book>): seq<Book> {
    var unique := Collapse(normal, found, ShownKeys(s));
    unique[..Min(SEARCH_LIMIT, |unique|)]
  }

  function Records(normal: string -> string, books: seq<Book>): seq<Entry> {
    seq(|books|, i requires 0 <= i < |books| => Entry(books[i].id, BookKey(normal, books[i])))
  }

  /** `add`: append what is not known by id, keep the last hundred. */
  ghost function AppendNew(entries: seq<Entry>, known: set<int>, books: seq<Entry>): seq<Entry>
    decreases |books|
  {
    if books == [] then entries
    else if books[0].id in known then AppendNew(entries, known, books[1..])
    else AppendNew(entries + [books[0]], known + {books[0].id}, books[1..])
  }

  ghost function Add(s: Stored, books: seq<Entry>): Stored {
    Entries(LastN(AppendNew(EntriesOf(s), Elements(ShownIds(s)), books), SHOWN_MAX))
  }

  /** One turn: the books recommended and the value stored; an empty result stores nothing. */
  ghost function Turn(normal: string -> string, s: Stored, found: seq<Book>): (seq<Book>, Stored) {
    var result := Recommend(normal, s, found);
    (result, if result == [] then s else Add(s, Records(normal, result)))
  }

  // ---- one turn ----

  ghost predicate DistinctIds(books: seq<Book>) {
    forall i, j :: 0 <= i < j < |books| ==> books[i].id != books[j].id
  }

  /** The search honours its exclusion filter and finds a book once. */
  ghost predicate Honours(s: Stored, found: seq<Book>) {
    DistinctIds(found) && forall b :: b in found ==> b.id !in ShownIds(s)
  }

  lemma {:induction false} CollapseMembers(normal: string -> string, books: seq<Book>, seen: set<string>, b: Book)
    requires b in Collapse(normal, books, seen)
    ensures b in books && BookKey(normal, b) !in seen
    decreases |books|
  {
    var key := BookKey(normal, books[0]);
    if key in seen {
      CollapseMembers(normal, books[1..], seen, b);
    } else if b != books[0] {
      CollapseMembers(normal, books[1..], seen + {key}, b);
    }
  }

  /** No two of the kept books share an id or a key. */
  ghost predicate AllDifferent(normal: string -> string, books: seq<Book>) {
    forall i, j :: 0 <= i < j < |books| ==>
      books[i].id != books[j].id && BookKey(normal, books[i]) != BookKey(normal, books[j])
  }

  lemma {:induction false} CollapseDiffers(normal: string -> string, books: seq<Book>, seen: set<string>)
    requires DistinctIds(books)
    ensures AllDifferent(normal, Collapse(normal, books, seen))
    decreases |books|
  {
    if books != [] {
      var key := BookKey(normal, books[0]);
      if key in seen {
        CollapseDiffers(normal, books[1..], seen);
      } else {
        var rest := Collapse(normal, books[1..], seen + {key});
        CollapseDiffers(normal, books[1..], seen + {key});
        forall i | 0 <= i < |rest| ensures rest[i].id != books[0].id && BookKey(normal, rest[i]) != key {
          CollapseMembers(normal, books[1..], seen + {key}, rest[i]);
          var j :| 0 <= j < |books[1..]| && books[1..][j] == rest[i];
          assert books[j + 1] == rest[i];
        }
        FrontDiffers(normal, books[0], rest);
      }
    }
  }

  lemma FrontDiffers(normal: string -> string, b: Book, rest: seq<Book>)
    requires AllDifferent(normal, rest)
    requires forall i :: 0 <= i < |rest| ==> rest[i].id != b.id && BookKey(normal, rest[i]) != BookKey(normal, b)
    ensures AllDifferent(normal, [b] + rest)
  {
    assert forall i :: 0 < i < |[b] + rest| ==> ([b] + rest)[i] == rest[i - 1];
  }

  lemma RecommendResult(normal: string -> string, s: Stored, found: seq<Book>)
    requires Honours(s, found)
    ensures var r := Records(normal, Recommend(normal, s, found));
            && Distinct(IdsOf(r)) && Distinct(KeysOf(r))
            && AvoidsAll(IdsOf(r), ShownIds(s))
            && (forall k :: k in KeysOf(r) ==> k !in ShownKeys(s))
  {
    var unique := Collapse(normal, found, ShownKeys(s));
    var result := Recommend(normal, s, found);
    CollapseDiffers(normal, found, ShownKeys(s));
    var r := Records(normal, result);
    forall i | 0 <= i < |r|
      ensures IdsOf(r)[i] == unique[i].id && KeysOf(r)[i] == BookKey(normal, unique[i])
              && unique[i].id !in ShownIds(s) && KeysOf(r)[i] !in ShownKeys(s)
    {
      CollapseMembers(normal, found, ShownKeys(s), unique[i]);
    }
  }

  /** Book i has a key that is new: neither seen nor that of an earlier book. */
  predicate IsNew(normal: string -> string, books: seq<Book>, seen: set<string>, i: nat)
    requires i < |books|
  {
    && BookKey(normal, books[i]) !in seen
    && forall j :: 0 <= j < i ==> BookKey(normal, books[j]) != BookKey(normal, books[i])
  }

  /** The kept books are those at these places, in their order. */
  ghost predicate KeptAt(books: seq<Book>, result: seq<Book>, kept: seq<nat>) {
    && |result| == |kept|
    && (forall k :: 0 <= k < |kept| ==> kept[k] < |books| && result[k] == books[kept[k]])
    && (forall k, l :: 0 <= k < l < |kept| ==> kept[k] < kept[l])
  }

  ghost predicate ExactlyNew(normal: string -> string, books: seq<Book>, seen: set<string>, kept: seq<nat>) {
    forall i: nat :: i in kept <==> i < |books| && IsNew(normal, books, seen, i)
  }

  function Later(places: seq<nat>): seq<nat> {
    seq(|places|, k requires 0 <= k < |places| => places[k] + 1)
  }

  lemma LaterMembers(places: seq<nat>)
    ensures forall i: nat :: i in Later(places) <==> i > 0 && i - 1 in places
  {
    forall i: nat | i > 0 && i - 1 in places ensures i in Later(places) {
      var k :| 0 <= k < |places| && places[k] == i - 1;
      assert Later(places)[k] == i;
    }
  }

  lemma NewInRest(normal: string -> string, books: seq<Book>, seen: set<string>, i: nat)
    requires 0 < i < |books|
    ensures IsNew(normal, books, seen, i) <==> IsNew(normal, books[1..], seen + {BookKey(normal, books[0])}, i - 1)
  {
    var rest := books[1..];
    forall j | 0 <= j < i - 1 ensures rest[j] == books[j + 1] {
    }
    if IsNew(normal, rest, seen + {BookKey(normal, books[0])}, i - 1) {
      forall j | 0 <= j < i ensures BookKey(normal, books[j]) != BookKey(normal, books[i]) {
        assert j > 0 ==> BookKey(normal, rest[j - 1]) != BookKey(normal, rest[i - 1]);
      }
    }
  }

  lemma NewPlaces(normal: string -> string, books: seq<Book>, seen: set<string>, later: seq<nat>)
    requires books != [] && ExactlyNew(normal, books[1..], seen + {BookKey(normal, books[0])}, later)
    ensures ExactlyNew(normal, books, seen, if BookKey(normal, books[0]) in seen then Later(later) else [0] + Later(later))
  {
    LaterMembers(later);
    forall i: nat | 0 < i < |books| ensures i in Later(later) <==> IsNew(normal, books, seen, i) {
      NewInRest(normal, books, seen, i);
    }
  }

  lemma PlacesShift(books: seq<Book>, result: seq<Book>, later: seq<nat>)
    requires books != [] && KeptAt(books[1..], result, later)
    ensures KeptAt(books, result, Later(later)) && KeptAt(books, [books[0]] + result, [0] + Later(later))
  {
  }

  /** Of the books found, the first of every new key is kept, in order, and no other. */
  lemma {:induction false} CollapseExactly(normal: string -> string, books: seq<Book>, seen: set<string>)
      returns (kept: seq<nat>)
    ensures KeptAt(books, Collapse(normal, books, seen), kept) && ExactlyNew(normal, books, seen, kept)
    decreases |books|
  {
    if books == [] {
      kept := [];
    } else {
      var key := BookKey(normal, books[0]);
      assert key in seen ==> seen + {key} == seen;
      var later := CollapseExactly(normal, books[1..], seen + {key});
      NewPlaces(normal, books, seen, later);
      PlacesShift(books, Collapse(normal, books[1..], seen + {key}), later);
      kept := if key in seen then Later(later) else [0] + Later(later);
    }
  }

  function KeysFound(normal: string -> string, books: seq<Book>): set<string> {
    set b | b in books :: BookKey(normal, b)
  }

  lemma KeysFoundNext(normal: string -> string, books: seq<Book>)
    requires books != []
    ensures KeysFound(normal, books) == {BookKey(normal, books[0])} + KeysFound(normal, books[1..])
  {
    assert books == [books[0]] + books[1..];
  }

  lemma OneMoreKey(keys: set<string>, key: string, seen: set<string>)
    requires key !in seen
    ensures |({key} + keys) - seen| == 1 + |keys - (seen + {key})|
  {
    assert ({key} + keys) - seen == {key} + (keys - (seen + {key}));
  }

  lemma KnownKey(keys: set<string>, key: string, seen: set<string>)
    requires key in seen
    ensures ({key} + keys) - seen == keys - seen
  {
  }

  lemma {:induction false} CollapseSize(normal: string -> string, books: seq<Book>, seen: set<string>)
    ensures |Collapse(normal, books, seen)| == |KeysFound(normal, books) - seen|
    decreases |books|
  {
    if books == [] {
      assert KeysFound(normal, books) == {};
    } else {
      var key := BookKey(normal, books[0]);
      KeysFoundNext(normal, books);
      if key in seen {
        CollapseSize(normal, books[1..], seen);
        KnownKey(KeysFound(normal, books[1..]), key, seen);
      } else {
        CollapseSize(normal, books[1..], seen + {key});
        OneMoreKey(KeysFound(normal, books[1..]), key, seen);
      }
    }
  }

  /** A turn recommends five books, or one for every new title and author there is. */
  lemma RecommendIsFull(normal: string -> string, s: Stored, found: seq<Book>)
    ensures |Recommend(normal, s, found)| == Min(5, |KeysFound(normal, found) - ShownKeys(s)|)
  {
    CollapseSize(normal, found, ShownKeys(s));
  }

  /** Unless a title contains the separator, a key tells title and author; a missing author counts as an empty one. */
  lemma KeyTellsTitleAndAuthor(normal: string -> string, a: Book, b: Book)
    requires '|' !in normal(a.title) && '|' !in normal(b.title)
    ensures BookKey(normal, a) == BookKey(normal, b) <==>
              && normal(a.title) == normal(b.title)
              && normal(if a.author.Some? then a.author.value else "") == normal(if b.author.Some? then b.author.value else "")
  {
    if BookKey(normal, a) == BookKey(normal, b) {
      BarSplits(normal(a.title), normal(if a.author.Some? then a.author.value else ""),
                normal(b.title), normal(if b.author.Some? then b.author.value else ""));
    }
  }

  lemma BarSplits(x: string, y: string, x': string, y': string)
    requires x + "|" + y == x' + "|" + y' && '|' !in x && '|' !in x'
    ensures x == x' && y == y'
  {
    var s := x + "|" + y;
    assert s[|x|] == '|' && s[|x'|] == '|';
    assert x == s[..|x|] && x' == s[..|x'|] && y == s[|x| + 1..] && y' == s[|x'| + 1..];
  }

  /** A list of ids in the old format still counts as shown, and its ids are kept in front of the new entries. */
  lemma OldFormatIsCarriedOver(normal: string -> string, ids: seq<int>, found: seq<Book>)
    requires Honours(OldIds(ids), found) && |ids| <= SHOWN_MAX
    ensures var (result, s') := Turn(normal, OldIds(ids), found);
            && (forall b :: b in result ==> b.id !in ids)
            && ShownIds(s') == LastN(ids + IdsOf(Records(normal, result)), SHOWN_MAX)
  {
    var (result, s') := Turn(normal, OldIds(ids), found);
    var r := Records(normal, result);
    assert IdsOf(EntriesOf(OldIds(ids))) == ids;
    TurnResult(normal, OldIds(ids), found);
    MapLastN(EntriesOf(OldIds(ids)) + r, SHOWN_MAX);
    MapAppend(EntriesOf(OldIds(ids)), r);
    RecommendResult(normal, OldIds(ids), found);
    forall b | b in result ensures b.id !in ids {
      var i :| 0 <= i < |result| && result[i] == b;
      assert IdsOf(r)[i] in IdsOf(r);
    }
  }

  lemma {:induction false} AppendAll(entries: seq<Entry>, known: set<int>, books: seq<Entry>)
    requires Distinct(IdsOf(books)) && forall i :: 0 <= i < |books| ==> books[i].id !in known
    ensures AppendNew(entries, known, books) == entries + books
    decreases |books|
  {
    if books != [] {
      forall i | 0 <= i < |books[1..]| ensures IdsOf(books[1..])[i] == IdsOf(books)[i + 1] && books[1..][i].id != books[0].id {
        assert IdsOf(books)[0] != IdsOf(books)[i + 1];
      }
      AppendAll(entries + [books[0]], known + {books[0].id}, books[1..]);
      assert entries + [books[0]] + books[1..] == entries + books;
    }
  }

  // ---- a whole dialog ----

  /** The stored values before, between and after the turns, and what each turn's search found. */
  ghost predicate IsDialog(normal: string -> string, states: seq<Stored>, found: seq<seq<Book>>) {
    |states| == |found| + 1 && forall k :: 0 <= k < |found| ==> IsTurn(normal, states, found, k)
  }

  ghost predicate IsTurn(normal: string -> string, states: seq<Stored>, found: seq<seq<Book>>, k: nat)
    requires k < |found| < |states|
  {
    Honours(states[k], found[k]) && states[k + 1] == Turn(normal, states[k], found[k]).1
  }

  /** The entries of the books recommended in the first n turns, turn by turn. */
  ghost function Batches(normal: string -> string, states: seq<Stored>, found: seq<seq<Book>>, n: nat): seq<seq<Entry>>
    requires n <= |found| < |states|
  {
    seq(n, k requires 0 <= k < n => Records(normal, Recommend(normal, states[k], found[k])))
  }

  ghost function Stream(normal: string -> string, states: seq<Stored>, found: seq<seq<Book>>, n: nat): seq<Entry>
    requires n <= |found| < |states|
  {
    Flatten(Batches(normal, states, found, n))
  }

  lemma StreamNext(normal: string -> string, states: seq<Stored>, found: seq<seq<Book>>, n: nat)
    requires n < |found| < |states|
    ensures Stream(normal, states, found, n + 1)
            == Stream(normal, states, found, n) + Records(normal, Recommend(normal, states[n], found[n]))
  {
    assert Batches(normal, states, found, n + 1)[..n] == Batches(normal, states, found, n);
  }

  lemma TurnResult(normal: string -> string, s: Stored, found: seq<Book>)
    requires Honours(s, found) && |EntriesOf(s)| <= SHOWN_MAX
    ensures EntriesOf(Turn(normal, s, found).1)
            == LastN(EntriesOf(s) + Records(normal, Turn(normal, s, found).0), SHOWN_MAX)
    ensures Turn(normal, s, found).0 != [] ==> Turn(normal, s, found).1.Entries?
    ensures Turn(normal, s, found).0 == [] ==> Turn(normal, s, found).1 == s
  {
    var r := Records(normal, Recommend(normal, s, found));
    RecommendResult(normal, s, found);
    forall i | 0 <= i < |r| ensures r[i].id !in Elements(ShownIds(s)) {
      assert IdsOf(r)[i] in IdsOf(r);
    }
    AppendAll(EntriesOf(s), Elements(ShownIds(s)), r);
    if r == [] {
      assert EntriesOf(s) + r == EntriesOf(s);
    }
  }

  lemma DialogStep(normal: string -> string, states: seq<Stored>, found: seq<seq<Book>>, k: nat)
    requires IsDialog(normal, states, found) && k < |found|
    ensures Honours(states[k], found[k]) && states[k + 1] == Turn(normal, states[k], found[k]).1
  {
    assert IsTurn(normal, states, found, k);
  }

  lemma RecentGrows(first: seq<Entry>, before: seq<Entry>, result: seq<Entry>, now: seq<Entry>)
    requires now == LastN(LastN(first + before, SHOWN_MAX) + result, SHOWN_MAX)
    ensures now == LastN(first + (before + result), SHOWN_MAX)
  {
    TrimAfterAppend(first + before, result, SHOWN_MAX);
    assert first + before + result == first + (before + result);
  }

  /** The stored entries are always the last hundred of everything stored at first or recommended since. */
  lemma {:induction false} StoredIsRecent(normal: string -> string, states: seq<Stored>, found: seq<seq<Book>>, n: nat)
    requires IsDialog(normal, states, found) && n <= |found| && |EntriesOf(states[0])| <= SHOWN_MAX
    ensures EntriesOf(states[n]) == LastN(EntriesOf(states[0]) + Stream(normal, states, found, n), SHOWN_MAX)
    ensures states[n].Entries? || Stream(normal, states, found, n) == []
  {
    var first := EntriesOf(states[0]);
    if n == 0 {
      assert first + [] == first;
    } else {
      var k := n - 1;
      StoredIsRecent(normal, states, found, k);
      StreamNext(normal, states, found, k);
      DialogStep(normal, states, found, k);
      TurnResult(normal, states[k], found[k]);
      var before, result := Stream(normal, states, found, k), Records(normal, Recommend(normal, states[k], found[k]));
      RecentGrows(first, before, result, EntriesOf(states[n]));
      assert result == [] ==> before + result == before;
    }
  }

  lemma MapLastN(entries: seq<Entry>, n: nat)
    ensures IdsOf(LastN(entries, n)) == LastN(IdsOf(entries), n)
    ensures KeysOf(LastN(entries, n)) == LastN(KeysOf(entries), n)
  {
  }

  lemma MapAppend(a: seq<Entry>, b: seq<Entry>)
    ensures IdsOf(a + b) == IdsOf(a) + IdsOf(b) && KeysOf(a + b) == KeysOf(a) + KeysOf(b)
  {
  }

  lemma RecentKeys(first: seq<Entry>, stream: seq<Entry>, key: string)
    requires key in LastN(KeysOf(stream), SHOWN_MAX)
    ensures key in KeysOf(LastN(first + stream, SHOWN_MAX))
  {
    MapLastN(first + stream, SHOWN_MAX);
    MapAppend(first, stream);
    var recent, all := LastN(KeysOf(stream), SHOWN_MAX), LastN(KeysOf(first) + KeysOf(stream), SHOWN_MAX);
    var i :| 0 <= i < |recent| && recent[i] == key;
    assert all[i + (|all| - |recent|)] == recent[i];
  }

  /** What a turn recommends avoids what was recommended recently. */
  lemma TurnAvoidsRecent(normal: string -> string, states: seq<Stored>, found: seq<seq<Book>>, n: nat)
    requires IsDialog(normal, states, found) && n < |found| && |EntriesOf(states[0])| <= SHOWN_MAX
    ensures var r := Records(normal, Recommend(normal, states[n], found[n]));
            var first, stream := EntriesOf(states[0]), Stream(normal, states, found, n);
            && Distinct(IdsOf(r)) && AvoidsAll(IdsOf(r), LastN(IdsOf(first + stream), SHOWN_MAX))
            && Distinct(KeysOf(r)) && AvoidsAll(KeysOf(r), LastN(KeysOf(stream), SHOWN_MAX))
  {
    var r := Records(normal, Recommend(normal, states[n], found[n]));
    var first, stream := EntriesOf(states[0]), Stream(normal, states, found, n);
    StoredIsRecent(normal, states, found, n);
    DialogStep(normal, states, found, n);
    RecommendResult(normal, states[n], found[n]);
    MapLastN(first + stream, SHOWN_MAX);
    forall key | key in KeysOf(r) ensures key !in LastN(KeysOf(stream), SHOWN_MAX) {
      if key in LastN(KeysOf(stream), SHOWN_MAX) {
        RecentKeys(first, stream, key);
      }
    }
  }

  /**
   * Over any number of turns, two recommendations of one book, or of two books with the same title
   * and author, are more than a hundred apart; ids stored before, in either format, count as shown.
   */
  lemma {:induction false} AssistantNeverRepeats(normal: string -> string, states: seq<Stored>,
          found: seq<seq<Book>>, n: nat)
    requires IsDialog(normal, states, found) && n <= |found|
    requires |EntriesOf(states[0])| <= SHOWN_MAX && Distinct(ShownIds(states[0]))
    ensures NoRepeatWithin(ShownIds(states[0]) + IdsOf(Stream(normal, states, found, n)), SHOWN_MAX)
    ensures NoRepeatWithin(KeysOf(Stream(normal, states, found, n)), SHOWN_MAX)
  {
    var first := EntriesOf(states[0]);
    if n == 0 {
      assert ShownIds(states[0]) + [] == ShownIds(states[0]);
    } else {
      AssistantNeverRepeats(normal, states, found, n - 1);
      TurnAvoidsRecent(normal, states, found, n - 1);
      StreamNext(normal, states, found, n - 1);
      var stream, r := Stream(normal, states, found, n - 1), Records(normal, Recommend(normal, states[n - 1], found[n - 1]));
      StreamGrows(first, stream, r);
    }
  }

  lemma StreamGrows(first: seq<Entry>, stream: seq<Entry>, r: seq<Entry>)
    requires NoRepeatWithin(IdsOf(first) + IdsOf(stream), SHOWN_MAX) && NoRepeatWithin(KeysOf(stream), SHOWN_MAX)
    requires Distinct(IdsOf(r)) && AvoidsAll(IdsOf(r), LastN(IdsOf(first + stream), SHOWN_MAX))
    requires Distinct(KeysOf(r)) && AvoidsAll(KeysOf(r), LastN(KeysOf(stream), SHOWN_MAX))
    ensures NoRepeatWithin(IdsOf(first) + IdsOf(stream + r), SHOWN_MAX)
    ensures NoRepeatWithin(KeysOf(stream + r), SHOWN_MAX)
  {
    MapAppend(first, stream);
    MapAppend(stream, r);
    AppendBatch(IdsOf(first) + IdsOf(stream), IdsOf(r), SHOWN_MAX);
    AppendBatch(KeysOf(stream), KeysOf(r), SHOWN_MAX);
    assert IdsOf(first) + IdsOf(stream) + IdsOf(r) == IdsOf(first) + (IdsOf(stream) + IdsOf(r));
  }

  // ---- the dialog's messages ----

  datatype Message = User(text: string) | Assistant(text: string)

  function Exchange(question: string, answer: string): seq<Message> {
    [User(question), Assistant(answer)]
  }

  ghost function Spoken(exchanges: seq<(string, string)>): seq<Message> {
    if exchanges == [] then []
    else
      var last := exchanges[|exchanges| - 1];
      Spoken(exchanges[..|exchanges| - 1]) + Exchange(last.0, last.1)
  }

  ghost function History(exchanges: seq<(string, string)>): seq<Message> {
    if exchanges == [] then []
    else
      var last := exchanges[|exchanges| - 1];
      LastN(History(exchanges[..|exchanges| - 1]) + Exchange(last.0, last.1), HISTORY_MAX)
  }

  ghost predicate Alternates(messages: seq<Message>) {
    |messages| % 2 == 0 && forall i :: 0 <= i < |messages| ==> (messages[i].User? <==> i % 2 == 0)
  }

  /** Everything said: each question followed by its answer. */
  lemma {:induction false} SpokenInOrder(exchanges: seq<(string, string)>)
    ensures |Spoken(exchanges)| == 2 * |exchanges|
    ensures forall i :: 0 <= i < |exchanges| ==>
              && Spoken(exchanges)[2 * i] == User(exchanges[i].0)
              && Spoken(exchanges)[2 * i + 1] == Assistant(exchanges[i].1)
  {
    if exchanges != [] {
      var n := |exchanges| - 1;
      SpokenInOrder(exchanges[..n]);
      forall i | 0 <= i < n ensures exchanges[i] == exchanges[..n][i] {
      }
    }
  }

  /** The history is the end of everything said, and always whole exchanges. */
  lemma {:induction false} HistoryIsWholeExchanges(exchanges: seq<(string, string)>)
    ensures History(exchanges) == LastN(Spoken(exchanges), HISTORY_MAX)
    ensures Alternates(Spoken(exchanges)) && Alternates(History(exchanges))
  {
    if exchanges != [] {
      var front, last := exchanges[..|exchanges| - 1], exchanges[|exchanges| - 1];
      HistoryIsWholeExchanges(front);
      TrimAfterAppend(Spoken(front), Exchange(last.0, last.1), HISTORY_MAX);
      TrimAlternates(Spoken(front) + Exchange(last.0, last.1));
    }
  }

  lemma TrimAlternates(messages: seq<Message>)
    requires Alternates(messages)
    ensures Alternates(LastN(messages, HISTORY_MAX))
  {
    var kept := LastN(messages, HISTORY_MAX);
    forall i | 0 <= i < |kept| ensures kept[i].User? <==> i % 2 == 0 {
      assert kept[i] == messages[i + (|messages| - |kept|)];
    }
  }
}
