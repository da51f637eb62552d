/**
 * A prefix-free binary code for the values the program serialises. It shows that the functions the
 * other modules assume of a library - an injective hash, a JSON text that can be read back - exist.
 *
 * Every code takes the bits that follow it, so reading back is a matter of first bits only.
 */
module Encodings {
  import opened Sequences
  import CursorCodec
  import QdrantBooks

  type Bits = seq<bool>

  /** n ones and a zero. */
  function Unary(n: nat, rest: Bits): Bits {
    if n == 0 then [false] + rest else [true] + Unary(n - 1, rest)
  }

  function Integer(n: int, rest: Bits): Bits {
    if n < 0 then [false] + Unary(-n, rest) else [true] + Unary(n, rest)
  }

  function Text(s: string, rest: Bits): Bits {
    if s == [] then [false] + rest else [true] + Unary(s[0] as int, Text(s[1..], rest))
  }

  function Maybe(n: Option<int>, rest: Bits): Bits {
    if n.None? then [false] + rest else [true] + Integer(n.value, rest)
  }

  /** Equal codes have equal first bits and equal rests. */
  lemma Strip(p: bool, x: Bits, q: bool, y: Bits)
    requires [p] + x == [q] + y
    ensures p == q && x == y
  {
    var l, r := [p] + x, [q] + y;
    assert l[0] == p && r[0] == q;
    assert l[1..] == x && r[1..] == y;
  }

  lemma {:induction false} UnaryReads(a: nat, b: nat, x: Bits, y: Bits)
    requires Unary(a, x) == Unary(b, y)
    ensures a == b && x == y
  {
    Strip(a > 0, if a == 0 then x else Unary(a - 1, x), b > 0, if b == 0 then y else Unary(b - 1, y));
    if a > 0 {
      UnaryReads(a - 1, b - 1, x, y);
    }
  }

  lemma IntegerReads(a: int, b: int, x: Bits, y: Bits)
    requires Integer(a, x) == Integer(b, y)
    ensures a == b && x == y
  {
    var m: nat, n: nat := if a < 0 then -a else a, if b < 0 then -b else b;
    Strip(a >= 0, Unary(m, x), b >= 0, Unary(n, y));
    UnaryReads(m, n, x, y);
  }

  lemma {:induction false} TextReads(a: string, b: string, x: Bits, y: Bits)
    requires Text(a, x) == Text(b, y)
    ensures a == b && x == y
  {
    Strip(a != [], if a == [] then x else Unary(a[0] as int, Text(a[1..], x)),
          b != [], if b == [] then y else Unary(b[0] as int, Text(b[1..], y)));
    if a != [] {
      UnaryReads(a[0] as int, b[0] as int, Text(a[1..], x), Text(b[1..], y));
      TextReads(a[1..], b[1..], x, y);
      assert a == [a[0]] + a[1..] && b == [b[0]] + b[1..];
    }
  }

  lemma MaybeReads(a: Option<int>, b: Option<int>, x: Bits, y: Bits)
    requires Maybe(a, x) == Maybe(b, y)
    ensures a == b && x == y
  {
    Strip(a.Some?, if a.None? then x else Integer(a.value, x), b.Some?, if b.None? then y else Integer(b.value, y));
    if a.Some? {
      IntegerReads(a.value, b.value, x, y);
    }
  }

  // ---- payloads ----

  function Numbers(c: QdrantBooks.Core): Bits {
    Integer(c.bookId, Integer(c.authorId, Integer(c.categoryId, Integer(c.rating, Maybe(c.issueYear, [c.available])))))
  }

  function Core(c: QdrantBooks.Core): Bits {
    Text(c.title, Text(c.authorName, Text(c.categoryName, Numbers(c))))
  }

  lemma CoreReads(a: QdrantBooks.Core, b: QdrantBooks.Core)
    requires Core(a) == Core(b)
    ensures a == b
  {
    TextReads(a.title, b.title, Text(a.authorName, Text(a.categoryName, Numbers(a))),
              Text(b.authorName, Text(b.categoryName, Numbers(b))));
    TextReads(a.authorName, b.authorName, Text(a.categoryName, Numbers(a)), Text(b.categoryName, Numbers(b)));
    TextReads(a.categoryName, b.categoryName, Numbers(a), Numbers(b));
    var x4, y4 := Maybe(a.issueYear, [a.available]), Maybe(b.issueYear, [b.available]);
    var x3, y3 := Integer(a.rating, x4), Integer(b.rating, y4);
    var x2, y2 := Integer(a.categoryId, x3), Integer(b.categoryId, y3);
    IntegerReads(a.bookId, b.bookId, Integer(a.authorId, x2), Integer(b.authorId, y2));
    IntegerReads(a.authorId, b.authorId, x2, y2);
    IntegerReads(a.categoryId, b.categoryId, x3, y3);
    IntegerReads(a.rating, b.rating, x4, y4);
    MaybeReads(a.issueYear, b.issueYear, [a.available], [b.available]);
  }

  function Digit(b: bool): char {
    if b then '1' else '0'
  }

  function Chars(bits: Bits): string {
    seq(|bits|, i requires 0 <= i < |bits| => Digit(bits[i]))
  }

  lemma CharsInjective(a: Bits, b: Bits)
    requires Chars(a) == Chars(b)
    ensures a == b
  {
    forall i | 0 <= i < |a| ensures a[i] == b[i] {
      assert Chars(a)[i] == Chars(b)[i];
    }
  }

  /** There are a hash, a JSON text and an embedding as the reconciliation of the vector store assumes them. */
  lemma InjectiveToolsExist() returns (t: QdrantBooks.Tools)
    ensures QdrantBooks.Injective(t)
  {
    t := QdrantBooks.Tools((s: string) => s, (c: QdrantBooks.Core) => Chars(Core(c)), (s: string) => []);
    forall a, b | t.json(a) == t.json(b) ensures a == b {
      CharsInjective(Core(a), Core(b));
      CoreReads(a, b);
    }
  }

  // ---- JSON values ----

  type Json = CursorCodec.Json

  function Tag(j: Json): nat {
    match j
    case Null => 0
    case Bool(_) => 1
    case Int(_) => 2
    case Float(_) => 3
    case Str(_) => 4
    case List(_) => 5
    case Object(_) => 6
  }

  ghost function Value(j: Json, rest: Bits): Bits
    decreases j, 2, 0
  {
    Unary(Tag(j), Content(j, rest))
  }

  /** Items and entries are preceded by a one and end with a zero; entries may come in any order. */
  ghost function Content(j: Json, rest: Bits): Bits
    decreases j, 1, 0
  {
    match j
    case Null => rest
    case Bool(b) => [b] + rest
    case Int(n) => Integer(n, rest)
    case Float(n) => Integer(n, rest)
    case Str(s) => Text(s, rest)
    case List(items) => Items(j, items, rest)
    case Object(fields) => Entries(j, fields, rest)
  }

  ghost function Items(j: Json, items: seq<Json>, rest: Bits): Bits
    requires forall i :: 0 <= i < |items| ==> items[i] < j
    decreases j, 0, |items|
  {
    if items == [] then [false] + rest else [true] + Value(items[0], Items(j, items[1..], rest))
  }

  ghost function Entries(j: Json, fields: map<string, Json>, rest: Bits): Bits
    requires forall k :: k in fields ==> fields[k] < j
    decreases j, 0, |fields|
  {
    if fields == map[] then [false] + rest
    else
      var k :| k in fields;
      [true] + Text(k, Value(fields[k], Entries(j, fields - {k}, rest)))
  }

  lemma {:induction false} ValueReads(a: Json, b: Json, x: Bits, y: Bits)
    requires Value(a, x) == Value(b, y)
    ensures a == b && x == y
    decreases a, 2, 0
  {
    UnaryReads(Tag(a), Tag(b), Content(a, x), Content(b, y));
    ContentReads(a, b, x, y);
  }

  lemma {:induction false} ContentReads(a: Json, b: Json, x: Bits, y: Bits)
    requires Tag(a) == Tag(b) && Content(a, x) == Content(b, y)
    ensures a == b && x == y
    decreases a, 1, 0
  {
    match a
    case Null =>
    case Bool(p) => Strip(p, x, b.b, y);
    case Int(n) => IntegerReads(n, b.n, x, y);
    case Float(n) => IntegerReads(n, b.x, x, y);
    case Str(s) => TextReads(s, b.text, x, y);
    case List(items) => ItemsRead(a, items, b, b.items, x, y);
    case Object(fields) => EntriesRead(a, fields, b, b.fields, x, y);
  }

  lemma {:induction false} ItemsRead(j: Json, a: seq<Json>, k: Json, b: seq<Json>, x: Bits, y: Bits)
    requires (forall i :: 0 <= i < |a| ==> a[i] < j) && (forall i :: 0 <= i < |b| ==> b[i] < k)
    requires Items(j, a, x) == Items(k, b, y)
    ensures a == b && x == y
    decreases j, 0, |a|
  {
    Strip(a != [], if a == [] then x else Value(a[0], Items(j, a[1..], x)),
          b != [], if b == [] then y else Value(b[0], Items(k, b[1..], y)));
    if a != [] {
      ValueReads(a[0], b[0], Items(j, a[1..], x), Items(k, b[1..], y));
      ItemsRead(j, a[1..], k, b[1..], x, y);
      assert a == [a[0]] + a[1..] && b == [b[0]] + b[1..];
    }
  }

  /** The entry the code of a non-empty object begins with. */
  lemma FirstEntry(j: Json, fields: map<string, Json>, rest: Bits) returns (key: string)
    requires fields != map[] && forall k :: k in fields ==> fields[k] < j
    ensures key in fields
    ensures Entries(j, fields, rest) == [true] + Text(key, Value(fields[key], Entries(j, fields - {key}, rest)))
  {
    key :| key in fields
           && Entries(j, fields, rest) == [true] + Text(key, Value(fields[key], Entries(j, fields - {key}, rest)));
  }

  lemma Smaller(a: map<string, Json>, p: string)
    requires p in a
    ensures |a - {p}| < |a|
  {
    assert (a - {p}).Keys == a.Keys - {p};
    assert |a| == |a.Keys| && |a - {p}| == |(a - {p}).Keys|;
  }

  lemma SameEntries(a: map<string, Json>, b: map<string, Json>, p: string)
    requires p in a && p in b && a[p] == b[p] && a - {p} == b - {p}
    ensures a == b
  {
    assert a == (a - {p})[p := a[p]] && b == (b - {p})[p := b[p]];
  }

  /** A code begins with a one exactly when there is an entry. */
  lemma HasEntry(j: Json, fields: map<string, Json>, rest: Bits)
    requires forall k :: k in fields ==> fields[k] < j
    ensures |Entries(j, fields, rest)| > 0 && Entries(j, fields, rest)[0] == (fields != map[])
  {
    if fields != map[] {
      var _ := FirstEntry(j, fields, rest);
    }
  }

  lemma {:induction false} EntriesRead(j: Json, a: map<string, Json>, k: Json, b: map<string, Json>, x: Bits, y: Bits)
    requires (forall i :: i in a ==> a[i] < j) && (forall i :: i in b ==> b[i] < k)
    requires Entries(j, a, x) == Entries(k, b, y)
    ensures a == b && x == y
    decreases j, 0, |a|
  {
    HasEntry(j, a, x);
    HasEntry(k, b, y);
    if a == map[] {
      Strip(false, x, false, y);
    } else {
      var p := FirstEntry(j, a, x);
      var q := FirstEntry(k, b, y);
      var au, bv := Entries(j, a - {p}, x), Entries(k, b - {q}, y);
      Strip(true, Text(p, Value(a[p], au)), true, Text(q, Value(b[q], bv)));
      TextReads(p, q, Value(a[p], au), Value(b[q], bv));
      ValueReads(a[p], b[q], au, bv);
      Smaller(a, p);
      EntriesRead(j, a - {p}, k, b - {p}, x, y);
      SameEntries(a, b, p);
    }
  }

  function Bytes(bits: Bits): seq<CursorCodec.Byte> {
    seq(|bits|, i requires 0 <= i < |bits| => if bits[i] then 1 else 0)
  }

  lemma BytesInjective(a: Bits, b: Bits)
    requires Bytes(a) == Bytes(b)
    ensures a == b
  {
    forall i | 0 <= i < |a| ensures a[i] == b[i] {
      assert Bytes(a)[i] == Bytes(b)[i];
    }
  }

  ghost function Dumps(m: map<string, Json>): seq<CursorCodec.Byte> {
    Bytes(Value(CursorCodec.Object(m), []))
  }

  lemma DumpsInjective(m: map<string, Json>, n: map<string, Json>)
    requires Dumps(m) == Dumps(n)
    ensures m == n
  {
    BytesInjective(Value(CursorCodec.Object(m), []), Value(CursorCodec.Object(n), []));
    ValueReads(CursorCodec.Object(m), CursorCodec.Object(n), [], []);
  }

  ghost function Loads(b: seq<CursorCodec.Byte>): Option<Json> {
    if exists m :: Dumps(m) == b then
      var m :| Dumps(m) == b;
      Some(CursorCodec.Object(m))
    else None
  }

  /** There are a JSON library and a keyed hash as the cursor token assumes them. */
  lemma LawfulLibraryExists() returns (lib: CursorCodec.Library)
    ensures CursorCodec.Lawful(lib)
  {
    lib := CursorCodec.Library((m: map<string, Json>) => Dumps(m), (b: seq<CursorCodec.Byte>) => Loads(b), (s: string) => "");
    forall m: map<string, Json> ensures lib.dumps(m) != [] && lib.loads(lib.dumps(m)) == Some(CursorCodec.Object(m)) {
      assert Unary(6, Content(CursorCodec.Object(m), [])) != [];
      forall n | Dumps(n) == Dumps(m) ensures n == m {
        DumpsInjective(n, m);
      }
    }
  }

  // ---- numbers ----

  /** The bits as a binary number behind a leading one. */
  function Number(bits: Bits): nat {
    if bits == [] then 1 else 2 * Number(bits[1..]) + if bits[0] then 1 else 0
  }

  lemma {:induction false} NumberPositive(bits: Bits)
    ensures Number(bits) >= 1
  {
    if bits != [] {
      NumberPositive(bits[1..]);
    }
  }

  lemma {:induction false} NumberInjective(a: Bits, b: Bits)
    requires Number(a) == Number(b)
    ensures a == b
  {
    if a != [] {
      NumberPositive(a[1..]);
    }
    if b != [] {
      NumberPositive(b[1..]);
    }
    if a != [] && b != [] {
      NumberInjective(a[1..], b[1..]);
      assert a == [a[0]] + a[1..] && b == [b[0]] + b[1..];
    }
  }

  /** There is an injective hash into the numbers, as the seeded random order assumes it. */
  lemma InjectiveHashExists() returns (md5: string -> nat)
    ensures forall a, b :: md5(a) == md5(b) ==> a == b
  {
    md5 := (s: string) => Number(Text(s, []));
    forall a, b | md5(a) == md5(b) ensures a == b {
      NumberInjective(Text(a, []), Text(b, []));
      TextReads(a, b, [], []);
    }
  }
}
