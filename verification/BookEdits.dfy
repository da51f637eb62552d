/**
 * Which edits of a book the vector store notices, and how: an edit of what the embedded text shows is
 * embedded again, an edit of another payload field is overwritten, and nothing else is written.
 */
module BookEdits {
  import opened Sequences
  import opened QdrantBooks
  import BookListings

  /** An edit of one field; the id is the primary key and stays. */
  datatype Edit =
    | Title(title: string)
    | Description(description: Option<string>)
    | AuthorId(authorId: int)
    | AuthorName(authorName: string)
    | CategoryId(categoryId: int)
    | CategoryName(categoryName: string)
    | IssueYear(issueYear: Option<int>)
    | Rating(rating: int)
    | Available(available: bool)

  function Edited(b: Book, e: Edit): Book {
    match e
    case Title(x) => b.(title := x)
    case Description(x) => b.(description := x)
    case AuthorId(x) => b.(authorId := x)
    case AuthorName(x) => b.(authorName := x)
    case CategoryId(x) => b.(categoryId := x)
    case CategoryName(x) => b.(categoryName := x)
    case IssueYear(x) => b.(issueYear := x)
    case Rating(x) => b.(rating := x)
    case Available(x) => b.(available := x)
  }

  /** No year and the year 0 look alike. */
  function YearShown(year: Option<int>): int {
    if year.Some? then year.value else 0
  }

  /** No description and an empty one look alike, and only the first 1000 characters are looked at. */
  function Opening(description: Option<string>): string {
    if description.None? then "" else if |description.value| <= 1000 then description.value else description.value[..1000]
  }

  /** The edit changes something that is told in the text: titles, names, the year, the opening. */
  predicate Told(b: Book, e: Edit) {
    match e
    case Title(x) => x != b.title
    case AuthorName(x) => x != b.authorName
    case CategoryName(x) => x != b.categoryName
    case IssueYear(x) => YearShown(x) != YearShown(b.issueYear)
    case Description(x) => Opening(x) != Opening(b.description)
    case AuthorId(_) => false
    case CategoryId(_) => false
    case Rating(_) => false
    case Available(_) => false
  }

  // ---- the text ----

  function Released(b: Book): string {
    if YearShown(b.issueYear) == 0 then "" else ". Released: " + Show(YearShown(b.issueYear))
  }

  lemma TextInParts(b: Book)
    ensures Text(b) == "Title: " + b.title + (". Author: " + b.authorName + (". Category: " + b.categoryName
                                                                             + (Released(b) + Tail(b))))
  {
    assert Head(b) == "Title: " + b.title + (". Author: " + b.authorName + (". Category: " + b.categoryName + Released(b)));
  }

  lemma Cancel(front: string, x: string, y: string, back: string)
    requires front + x + back == front + y + back
    ensures x == y
  {
    assert |x| == |y|;
    assert x == (front + x + back)[|front|..|front| + |x|];
    assert y == (front + y + back)[|front|..|front| + |y|];
  }

  lemma CancelFront(front: string, x: string, y: string)
    requires front + x == front + y
    ensures x == y
  {
    assert (front + x)[|front|..] == x && (front + y)[|front|..] == y;
  }

  lemma TitleIsTold(b: Book, x: string)
    ensures Text(b.(title := x)) == Text(b) <==> x == b.title
  {
    TextInParts(b);
    TextInParts(b.(title := x));
    if Text(b.(title := x)) == Text(b) {
      Cancel("Title: ", x, b.title, ". Author: " + b.authorName + (". Category: " + b.categoryName + (Released(b) + Tail(b))));
    }
  }

  lemma AuthorIsTold(b: Book, x: string)
    ensures Text(b.(authorName := x)) == Text(b) <==> x == b.authorName
  {
    TextInParts(b);
    TextInParts(b.(authorName := x));
    if Text(b.(authorName := x)) == Text(b) {
      var back := ". Category: " + b.categoryName + (Released(b) + Tail(b));
      CancelFront("Title: " + b.title, ". Author: " + x + back, ". Author: " + b.authorName + back);
      Cancel(". Author: ", x, b.authorName, back);
    }
  }

  lemma CategoryIsTold(b: Book, x: string)
    ensures Text(b.(categoryName := x)) == Text(b) <==> x == b.categoryName
  {
    TextInParts(b);
    TextInParts(b.(categoryName := x));
    if Text(b.(categoryName := x)) == Text(b) {
      var back := Released(b) + Tail(b);
      var old', new' := ". Category: " + b.categoryName + back, ". Category: " + x + back;
      CancelFront("Title: " + b.title, ". Author: " + b.authorName + new', ". Author: " + b.authorName + old');
      CancelFront(". Author: " + b.authorName, new', old');
      Cancel(". Category: ", x, b.categoryName, back);
    }
  }

  /** Two books alike in title and names share the text up to there. */
  lemma Ends(a: Book, b: Book)
    requires a.title == b.title && a.authorName == b.authorName && a.categoryName == b.categoryName
    ensures Text(a) == Text(b) <==> Released(a) + Tail(a) == Released(b) + Tail(b)
  {
    TextInParts(a);
    TextInParts(b);
    if Text(a) == Text(b) {
      var x, y := Released(a) + Tail(a), Released(b) + Tail(b);
      var old', new' := ". Category: " + b.categoryName + y, ". Category: " + a.categoryName + x;
      CancelFront("Title: " + b.title, ". Author: " + b.authorName + new', ". Author: " + b.authorName + old');
      CancelFront(". Author: " + b.authorName, new', old');
      CancelFront(". Category: " + b.categoryName, x, y);
    }
  }

  lemma YearIsTold(b: Book, x: Option<int>)
    ensures Text(b.(issueYear := x)) == Text(b) <==> YearShown(x) == YearShown(b.issueYear)
  {
    var a := b.(issueYear := x);
    Ends(a, b);
    assert Tail(a) == Tail(b);
    if Text(a) == Text(b) {
      assert "" + Released(a) == Released(a) && "" + Released(b) == Released(b);
      Cancel("", Released(a), Released(b), Tail(b));
      if YearShown(x) != 0 && YearShown(b.issueYear) != 0 {
        CancelFront(". Released: ", Show(YearShown(x)), Show(YearShown(b.issueYear)));
        BookListings.ShowInjective(YearShown(x), YearShown(b.issueYear));
      }
    }
  }

  lemma OpeningIsTold(b: Book, x: Option<string>)
    ensures Text(b.(description := x)) == Text(b) <==> Opening(x) == Opening(b.description)
  {
    var a := b.(description := x);
    Ends(a, b);
    assert Released(a) == Released(b);
    assert Excerpt(a) == Opening(x) && Excerpt(b) == Opening(b.description);
    if Text(a) == Text(b) {
      CancelFront(Released(b), Tail(a), Tail(b));
      if Excerpt(a) != "" && Excerpt(b) != "" {
        CancelFront(". ", Excerpt(a), Excerpt(b));
      }
    }
  }

  lemma TextFollowsEdit(b: Book, e: Edit)
    ensures Text(Edited(b, e)) != Text(b) <==> Told(b, e)
  {
    match e
    case Title(x) => TitleIsTold(b, x);
    case AuthorName(x) => AuthorIsTold(b, x);
    case CategoryName(x) => CategoryIsTold(b, x);
    case IssueYear(x) => YearIsTold(b, x);
    case Description(x) => OpeningIsTold(b, x);
    case AuthorId(_) =>
    case CategoryId(_) =>
    case Rating(_) =>
    case Available(_) =>
  }

  /**
   * An edit of a book whose point is right is embedded again exactly if it changes the title, a name, the
   * year (0 and none being the same) or the first 1000 characters of the description; of the others, it
   * is overwritten exactly if it changes a field other than the description; and otherwise nothing is written.
   */
  lemma EditIsNoticedExactly(t: Tools, c: Collection, b: Book, e: Edit)
    requires Injective(t) && Right(t, c, b)
    ensures ChangeOf(t, c, Edited(b, e)) ==
            if Told(b, e) then Embed else if !e.Description? && Edited(b, e) != b then Meta else Unchanged
  {
    TextFollowsEdit(b, e);
    if t.md5(Text(Edited(b, e))) == t.md5(Text(b)) {
      assert !Told(b, e);
    }
    if t.md5(t.json(CoreOf(Edited(b, e)))) == t.md5(t.json(CoreOf(b))) {
      assert CoreOf(Edited(b, e)) == CoreOf(b);
    }
  }

  // ---- batches ----

  ghost function Books(writes: seq<Write>): seq<Book> {
    if writes == [] then []
    else (if writes[0].Upsert? then writes[0].batch else []) + Books(writes[1..])
  }

  /** The books are embedded a hundred at a time, in order, each once, in no more calls than needed. */
  lemma {:induction false} BatchesAreSlices(books: seq<Book>)
    ensures var ws := Batches(books);
            && Books(ws) == books
            && (forall i :: 0 <= i < |ws| ==> ws[i].Upsert? && 1 <= |ws[i].batch| <= 100)
            && (forall i :: 0 <= i < |ws| - 1 ==> |ws[i].batch| == 100)
    decreases |books|
  {
    if books != [] {
      var n := Min(EMBED_BATCH_SIZE, |books|);
      BatchesAreSlices(books[n..]);
      assert Batches(books)[1..] == Batches(books[n..]);
      assert books[..n] + books[n..] == books;
      if |Batches(books)| > 1 {
        assert books[n..] != [];
      }
    }
  }
}
